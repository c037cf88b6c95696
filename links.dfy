/**
 * The link filter applied to the anchors of a freshly visited page: which
 * resolved URLs the crawler goes on to visit.
 */
module Links {
  import opened Seqs
  import opened Urls
  import opened Pages

  /**
   * What the filter depends on besides the page: reference resolution
   * (`urljoin`), the netloc extractor behind the domain check, and whether
   * links must stay on the page's domain.
   */
  datatype Rules = Rules(join: (string, string) -> string, netloc: string -> string, domainRestriction: bool)

  /** Every anchor's href resolved against the page URL, in document order. */
  function Resolved(rules: Rules, base: string, anchors: seq<Anchor>): seq<string> {
    seq(|anchors|, k requires 0 <= k < |anchors| => rules.join(base, anchors[k].href))
  }

  /**
   * The filter's verdict on one anchor of the page at `base`: its `rel` is not
   * exactly `["nofollow"]`; with domain restriction on, its resolved URL has the
   * page's netloc; and the resolved URL starts with "http" and is not visited.
   */
  predicate Kept(rules: Rules, base: string, visited: set<string>, a: Anchor) {
    var full := rules.join(base, a.href);
    a.rel != ["nofollow"] && (!rules.domainRestriction || SameDomain(rules.netloc, base, full))
    && HasHttpPrefix(full) && full !in visited
  }

  /** The resolved URLs of the kept anchors, in document order. */
  function Followed(rules: Rules, base: string, visited: set<string>, anchors: seq<Anchor>): (r: seq<string>)
    ensures |r| <= |anchors|
    decreases |anchors|
  {
    if anchors == [] then []
    else
      var rest := Followed(rules, base, visited, anchors[..|anchors| - 1]);
      var a := anchors[|anchors| - 1];
      if Kept(rules, base, visited, a) then rest + [rules.join(base, a.href)] else rest
  }

  /**
   * Every followed link starts with "http", is not visited, and with domain
   * restriction on is on the page's domain.
   */
  lemma {:induction false} FollowedFiltered(rules: Rules, base: string, visited: set<string>, anchors: seq<Anchor>)
    ensures forall u :: u in Followed(rules, base, visited, anchors) ==>
              HasHttpPrefix(u) && u !in visited && (rules.domainRestriction ==> SameDomain(rules.netloc, base, u))
    decreases |anchors|
  {
    if anchors != [] {
      FollowedFiltered(rules, base, visited, anchors[..|anchors| - 1]);
    }
  }

  /** The followed links keep the order of the anchors they come from. */
  lemma {:induction false} FollowedIsSubsequence(rules: Rules, base: string, visited: set<string>, anchors: seq<Anchor>)
    ensures IsSubsequence(Followed(rules, base, visited, anchors), Resolved(rules, base, anchors))
    decreases |anchors|
  {
    if anchors != [] {
      var init := anchors[..|anchors| - 1];
      var a := anchors[|anchors| - 1];
      var rs := Resolved(rules, base, anchors);
      assert rs[..|rs| - 1] == Resolved(rules, base, init);
      FollowedIsSubsequence(rules, base, visited, init);
      var rest := Followed(rules, base, visited, init);
      if Kept(rules, base, visited, a) {
        var r := rest + [rules.join(base, a.href)];
        assert r[..|r| - 1] == rest;
      } else {
        SubsequenceDropLast(rest, rs);
      }
    }
  }

  /** Every followed URL is the resolution of some anchor, and there are never more of them than anchors. */
  lemma FollowedResolved(rules: Rules, base: string, visited: set<string>, anchors: seq<Anchor>)
    ensures |Followed(rules, base, visited, anchors)| <= |Resolved(rules, base, anchors)|
    ensures forall u :: u in Followed(rules, base, visited, anchors) ==> u in Resolved(rules, base, anchors)
  {
    FollowedIsSubsequence(rules, base, visited, anchors);
    SubsequenceElems(Followed(rules, base, visited, anchors), Resolved(rules, base, anchors));
  }

  /** A URL is followed exactly when some kept anchor resolves to it. */
  lemma {:induction false} FollowedMembers(rules: Rules, base: string, visited: set<string>, anchors: seq<Anchor>,
                                           u: string)
    ensures u in Followed(rules, base, visited, anchors) <==>
            exists k :: 0 <= k < |anchors| && Kept(rules, base, visited, anchors[k])
                        && rules.join(base, anchors[k].href) == u
    decreases |anchors|
  {
    if anchors != [] {
      var init := anchors[..|anchors| - 1];
      FollowedMembers(rules, base, visited, init, u);
      assert forall k :: 0 <= k < |init| ==> init[k] == anchors[k];
    }
  }

  /** Filtering two runs of anchors one after the other is filtering them together. */
  lemma {:induction false} FollowedAppend(rules: Rules, base: string, visited: set<string>,
                                          xs: seq<Anchor>, ys: seq<Anchor>)
    ensures Followed(rules, base, visited, xs + ys)
         == Followed(rules, base, visited, xs) + Followed(rules, base, visited, ys)
    decreases |ys|
  {
    if ys != [] {
      var init := ys[..|ys| - 1];
      FollowedAppend(rules, base, visited, xs, init);
      assert (xs + ys)[..|xs + ys| - 1] == xs + init;
      assert (xs + ys)[|xs + ys| - 1] == ys[|ys| - 1];
    } else {
      assert xs + ys == xs;
    }
  }

  /** An anchor whose rel is exactly `["nofollow"]` contributes nothing: the result is as if it were absent. */
  lemma NofollowDropped(rules: Rules, base: string, visited: set<string>, anchors: seq<Anchor>, k: nat)
    requires k < |anchors| && anchors[k].rel == ["nofollow"]
    ensures Followed(rules, base, visited, anchors)
         == Followed(rules, base, visited, anchors[..k] + anchors[k + 1..])
  {
    var xs, ys := anchors[..k], anchors[k + 1..];
    assert anchors == (xs + [anchors[k]]) + ys;
    FollowedAppend(rules, base, visited, xs + [anchors[k]], ys);
    FollowedAppend(rules, base, visited, xs, [anchors[k]]);
    FollowedAppend(rules, base, visited, xs, ys);
    assert Followed(rules, base, visited, [anchors[k]]) == [] by {
      assert [anchors[k]][..0] == [];
    }
  }
}
