/**
 * The string-level checks the crawler applies to URLs: splitting on '/', the
 * spider-trap rule, the authority ("netloc") component that decides whether
 * two URLs are on the same domain, and the "http" prefix test.
 */
module Urls {
  import opened Seqs

  // ---------------------------------------------------------------------------
  // Splitting on '/'
  // ---------------------------------------------------------------------------

  /** `s.split('/')`: the pieces between slashes; there is always at least one. */
  function Segments(s: string): (r: seq<string>)
    ensures |r| >= 1
    decreases |s|
  {
    if |s| == 0 then [""]
    else
      var t := Segments(s[1..]);
      if s[0] == '/' then [""] + t
      else [[s[0]] + t[0]] + t[1..]
  }

  /** `'/'.join(segs)`. */
  function Join(segs: seq<string>): string
    requires |segs| >= 1
    decreases |segs|
  {
    if |segs| == 1 then segs[0] else segs[0] + "/" + Join(segs[1..])
  }

  /** Joining the pieces again with '/' gives back the original string. */
  lemma {:induction false} JoinSegments(s: string)
    ensures Join(Segments(s)) == s
    decreases |s|
  {
    if |s| > 0 {
      var t := Segments(s[1..]);
      JoinSegments(s[1..]);
      if s[0] != '/' {
        if |t| > 1 {
          assert t == [t[0]] + t[1..];
          assert Join(t) == t[0] + "/" + Join(t[1..]);
        }
      }
      assert s == [s[0]] + s[1..];
    }
  }

  /** No piece holds a '/'. */
  lemma {:induction false} SegmentsSlashFree(s: string)
    ensures forall k :: 0 <= k < |Segments(s)| ==> '/' !in Segments(s)[k]
    decreases |s|
  {
    if |s| > 0 {
      SegmentsSlashFree(s[1..]);
      var t := Segments(s[1..]);
      if s[0] != '/' {
        assert '/' !in [s[0]] + t[0];
      }
    }
  }

  /** A string without '/' is a single piece. */
  lemma {:induction false} SegmentsNoSlash(s: string)
    requires '/' !in s
    ensures Segments(s) == [s]
    decreases |s|
  {
    if |s| > 0 {
      SegmentsNoSlash(s[1..]);
      assert s == [s[0]] + s[1..];
    }
  }

  /** Splitting `a + "/" + b`, where `a` has no '/', gives `a` first and then the pieces of `b`. */
  lemma {:induction false} SegmentsCons(a: string, b: string)
    requires '/' !in a
    ensures Segments(a + "/" + b) == [a] + Segments(b)
    decreases |a|
  {
    if |a| == 0 {
      assert a + "/" + b == "/" + b;
      assert ("/" + b)[1..] == b;
    } else {
      SegmentsCons(a[1..], b);
      assert (a + "/" + b)[1..] == a[1..] + "/" + b;
      assert a == [a[0]] + a[1..];
    }
  }

  /** Splitting a '/'-join of slash-free pieces gives back exactly those pieces. */
  lemma {:induction false} SegmentsJoin(segs: seq<string>)
    requires |segs| >= 1
    requires forall k :: 0 <= k < |segs| ==> '/' !in segs[k]
    ensures Segments(Join(segs)) == segs
    decreases |segs|
  {
    if |segs| == 1 {
      SegmentsNoSlash(segs[0]);
    } else {
      SegmentsJoin(segs[1..]);
      SegmentsCons(segs[0], Join(segs[1..]));
      assert segs == [segs[0]] + segs[1..];
    }
  }

  // ---------------------------------------------------------------------------
  // The spider-trap rule
  // ---------------------------------------------------------------------------

  /**
   * A URL is a trap when fewer than half of its '/'-pieces are distinct.
   * The comparison `distinct < count / 2` over the reals is written as
   * `2 * distinct < count`; there is no threshold and no look at the query.
   */
  predicate IsSpiderTrap(url: string) {
    2 * |Elems(Segments(url))| < |Segments(url)|
  }

  /** A URL whose pieces are pairwise distinct is never a trap. */
  lemma DistinctSegmentsNotTrap(url: string)
    requires Distinct(Segments(url))
    ensures !IsSpiderTrap(url)
  {
    DistinctElems(Segments(url));
  }

  /** A URL with no '/' at all is never a trap. */
  lemma NoSlashNotTrap(url: string)
    requires '/' !in url
    ensures !IsSpiderTrap(url)
  {
    SegmentsNoSlash(url);
    assert Elems([url]) == {url};
  }

  /** Every trap repeats one of its pieces. */
  lemma TrapRepeatsSegment(url: string)
    requires IsSpiderTrap(url)
    ensures !Distinct(Segments(url))
  {
    NotDistinctElems(Segments(url));
  }

  /** `n` copies of one piece. */
  function Repeat(piece: string, n: nat): seq<string> {
    seq(n, _ => piece)
  }

  lemma JoinCons(x: string, rest: seq<string>)
    requires |rest| >= 1
    ensures Join([x] + rest) == x + "/" + Join(rest)
  {
    assert ([x] + rest)[1..] == rest;
  }

  lemma JoinThree(a: string, b: string, c: string, path: seq<string>)
    requires |path| >= 1
    ensures Join([a, b, c] + path) == a + "/" + (b + "/" + (c + "/" + Join(path)))
  {
    var j := Join(path);
    var t1 := [c] + path;
    var t2 := [b] + t1;
    assert Join(t1) == c + "/" + j by { JoinCons(c, path); }
    assert Join(t2) == b + "/" + Join(t1) by { JoinCons(b, t1); }
    assert Join([a] + t2) == a + "/" + Join(t2) by { JoinCons(a, t2); }
    assert [a, b, c] + path == [a] + t2;
  }

  lemma HttpPrefixRegroup(host: string, path: string)
    ensures "http:" + "/" + ("" + "/" + (host + "/" + path)) == "http://" + host + "/" + path
  {
    var u := "http://" + host + "/" + path;
    var v := "http:" + "/" + ("" + "/" + (host + "/" + path));
    assert |u| == |v|;
    forall k | 0 <= k < |u| ensures u[k] == v[k] {
      if k >= 7 + |host| + 1 {
        assert u[k] == path[k - 8 - |host|];
      }
    }
  }

  lemma CardFour<T>(a: T, b: T, c: T, d: T)
    requires a != b && a != c && a != d && b != c && b != d && c != d
    ensures |{a, b, c, d}| == 4
  {
    assert {a, b, c, d} == {a, b, c} + {d};
  }

  lemma ElemsAfterHost(host: string, piece: string, n: nat)
    requires n >= 1
    ensures Elems(["http:", "", host] + Repeat(piece, n)) == {"http:", "", host, piece}
  {
    var segs := ["http:", "", host] + Repeat(piece, n);
    assert segs[3] == piece;
    assert forall x :: x in segs ==> x == "http:" || x == "" || x == host || x == piece;
  }

  /**
   * `http://host` followed by `n >= 1` copies of one path piece is a trap
   * exactly when `n >= 6`: it has `3 + n` pieces of which 4 are distinct, so
   * `/a/a/a/a/a` (five copies) is still let through.
   */
  lemma RepeatedPieceTrap(host: string, piece: string, n: nat)
    requires n >= 1
    requires '/' !in host && '/' !in piece
    requires host != "" && host != "http:" && piece != "" && piece != "http:" && piece != host
    ensures IsSpiderTrap("http://" + host + "/" + Join(Repeat(piece, n))) <==> n >= 6
  {
    var segs := ["http:", "", host] + Repeat(piece, n);
    JoinThree("http:", "", host, Repeat(piece, n));
    HttpPrefixRegroup(host, Join(Repeat(piece, n)));
    assert forall k :: 0 <= k < |segs| ==> '/' !in segs[k];
    SegmentsJoin(segs);
    ElemsAfterHost(host, piece, n);
    assert "http:" != "" by { assert |"http:"| != |""|; }
    CardFour("http:", "", host, piece);
  }

  // ---------------------------------------------------------------------------
  // The authority component (netloc) and the domain check
  // ---------------------------------------------------------------------------

  predicate IsAsciiLetter(c: char) {
    'a' <= c <= 'z' || 'A' <= c <= 'Z'
  }

  /** Characters allowed in a URL scheme: letters, digits, '+', '-' and '.'. */
  predicate IsSchemeChar(c: char) {
    IsAsciiLetter(c) || '0' <= c <= '9' || c == '+' || c == '-' || c == '.'
  }

  /** `s.find(c)`: the first position of `c`, or -1. */
  function IndexOf(s: string, c: char): (i: int)
    ensures -1 <= i < |s|
    decreases |s|
  {
    if |s| == 0 then -1
    else if s[0] == c then 0
    else
      var j := IndexOf(s[1..], c);
      if j == -1 then -1 else j + 1
  }

  /** `IndexOf` finds the first occurrence, and -1 exactly when there is none. */
  lemma {:induction false} IndexOfSpec(s: string, c: char)
    ensures var i := IndexOf(s, c);
            (i >= 0 ==> s[i] == c && c !in s[..i]) && (i == -1 <==> c !in s)
    decreases |s|
  {
    if |s| > 0 && s[0] != c {
      IndexOfSpec(s[1..], c);
      var j := IndexOf(s[1..], c);
      if j >= 0 {
        assert s[..j + 1] == [s[0]] + s[1..][..j];
      }
      assert s == [s[0]] + s[1..];
    }
  }

  /** Every character is a scheme character. */
  predicate AllSchemeChars(s: string)
    decreases |s|
  {
    |s| == 0 || (IsSchemeChar(s[0]) && AllSchemeChars(s[1..]))
  }

  /** A scheme is non-empty, starts with a letter and uses only scheme characters. */
  predicate IsScheme(s: string) {
    |s| > 0 && IsAsciiLetter(s[0]) && AllSchemeChars(s)
  }

  /** A string of scheme characters holds no ':'. */
  lemma {:induction false} SchemeCharsNoColon(s: string)
    requires AllSchemeChars(s)
    ensures ':' !in s
    decreases |s|
  {
    if |s| > 0 {
      SchemeCharsNoColon(s[1..]);
      assert s == [s[0]] + s[1..];
    }
  }

  /** What follows the scheme and its ':', or the whole URL when it has no scheme. */
  function AfterScheme(url: string): string {
    var i := IndexOf(url, ':');
    if i > 0 && IsScheme(url[..i]) then url[i + 1..] else url
  }

  predicate IsAuthorityEnd(c: char) {
    c == '/' || c == '?' || c == '#'
  }

  /** The text of `s` up to its first '/', '?' or '#'. */
  function Authority(s: string): string
    decreases |s|
  {
    if |s| == 0 || IsAuthorityEnd(s[0]) then ""
    else [s[0]] + Authority(s[1..])
  }

  /** `Authority(s)` is the longest prefix of `s` holding none of '/', '?' and '#'. */
  lemma {:induction false} AuthoritySpec(s: string)
    ensures var r := Authority(s);
            |r| <= |s| && r == s[..|r|] &&
            (forall k :: 0 <= k < |r| ==> !IsAuthorityEnd(r[k])) &&
            (|r| < |s| ==> IsAuthorityEnd(s[|r|]))
    decreases |s|
  {
    if |s| > 0 && !IsAuthorityEnd(s[0]) {
      AuthoritySpec(s[1..]);
      var r' := Authority(s[1..]);
      assert s[..|r'| + 1] == [s[0]] + s[1..][..|r'|];
    }
  }

  /**
   * The netloc: after the scheme, when the rest starts with "//", the text up
   * to the first '/', '?' or '#'; otherwise empty.
   */
  function Netloc(url: string): string {
    var rest := AfterScheme(url);
    if |rest| >= 2 && rest[..2] == "//" then Authority(rest[2..]) else ""
  }

  /**
   * Two URLs are on the same domain when the netloc extractor gives both the
   * same text. The crawl takes the extractor as a parameter; `Netloc` above is
   * the one `urlparse` implements.
   */
  predicate SameDomain(netloc: string -> string, a: string, b: string) {
    netloc(a) == netloc(b)
  }

  /** After a well-formed scheme and its ':', the rest is what follows the ':'. */
  lemma AfterWellFormedScheme(scheme: string, rest: string)
    requires IsScheme(scheme)
    ensures AfterScheme(scheme + ":" + rest) == rest
  {
    var url := scheme + ":" + rest;
    var n := |scheme|;
    assert url[n] == ':';
    assert url[..n] == scheme;
    assert url[n + 1..] == rest;
    SchemeCharsNoColon(scheme);
    IndexOfSpec(url, ':');
    assert IndexOf(url, ':') == n;
  }

  /** When the part after the scheme starts with "//", the netloc is the authority that follows. */
  lemma NetlocAfterSlashes(url: string, after: string)
    requires AfterScheme(url) == "//" + after
    ensures Netloc(url) == Authority(after)
  {
    var rest := "//" + after;
    assert rest[..2] == "//";
    assert rest[2..] == after;
  }

  /**
   * For `scheme://authority` followed by a path, query or fragment, the netloc
   * is the whole `authority`, user info and port included.
   */
  lemma NetlocOfUrl(scheme: string, authority: string, tail: string)
    requires IsScheme(scheme)
    requires forall k :: 0 <= k < |authority| ==> !IsAuthorityEnd(authority[k])
    requires tail == [] || IsAuthorityEnd(tail[0])
    ensures Netloc(scheme + "://" + authority + tail) == authority
  {
    var url := scheme + "://" + authority + tail;
    assert url == scheme + ":" + ("//" + (authority + tail));
    AfterWellFormedScheme(scheme, "//" + (authority + tail));
    NetlocAfterSlashes(url, authority + tail);
    AuthorityPrefix(authority, tail);
  }

  lemma {:induction false} AuthorityPrefix(authority: string, tail: string)
    requires forall k :: 0 <= k < |authority| ==> !IsAuthorityEnd(authority[k])
    requires tail == [] || IsAuthorityEnd(tail[0])
    ensures Authority(authority + tail) == authority
    decreases |authority|
  {
    if |authority| > 0 {
      AuthorityPrefix(authority[1..], tail);
      assert (authority + tail)[1..] == authority[1..] + tail;
      assert authority == [authority[0]] + authority[1..];
    } else {
      assert authority + tail == tail;
    }
  }

  /** Same-domain is an equivalence: reflexive, symmetric and transitive. */
  lemma SameDomainEquivalence(netloc: string -> string, a: string, b: string, c: string)
    ensures SameDomain(netloc, a, a)
    ensures SameDomain(netloc, a, b) <==> SameDomain(netloc, b, a)
    ensures SameDomain(netloc, a, b) && SameDomain(netloc, b, c) ==> SameDomain(netloc, a, c)
  {
  }

  /**
   * Two URLs of the form `scheme://authority...` are on the same domain exactly
   * when their authorities, user info and port included, agree.
   */
  lemma SameDomainOfUrls(scheme1: string, authority1: string, tail1: string,
                          scheme2: string, authority2: string, tail2: string)
    requires IsScheme(scheme1) && IsScheme(scheme2)
    requires forall k :: 0 <= k < |authority1| ==> !IsAuthorityEnd(authority1[k])
    requires forall k :: 0 <= k < |authority2| ==> !IsAuthorityEnd(authority2[k])
    requires tail1 == [] || IsAuthorityEnd(tail1[0])
    requires tail2 == [] || IsAuthorityEnd(tail2[0])
    ensures SameDomain(Netloc, scheme1 + "://" + authority1 + tail1, scheme2 + "://" + authority2 + tail2) <==> authority1 == authority2
  {
    NetlocOfUrl(scheme1, authority1, tail1);
    NetlocOfUrl(scheme2, authority2, tail2);
  }

  // ---------------------------------------------------------------------------
  // The scheme filter
  // ---------------------------------------------------------------------------

  /** `s.startswith("http")`: this admits "https" and also any other text that begins "http". */
  predicate HasHttpPrefix(s: string) {
    |s| >= 4 && s[..4] == "http"
  }
}
