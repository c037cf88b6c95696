/**
 * The crawl bookkeeping: the visited set, the saved results, the depth-first
 * visit of one URL with its recursive visits of the page's links, and the
 * breadth-first queue loop over the seed URLs.
 *
 * `Visit` and `VisitAll` say, as functions, what one visit does to the
 * bookkeeping; the methods of `Crawler` do it in place and are proved to
 * agree with them.
 */
module Crawler {
  import opened Seqs
  import opened Urls
  import opened Pages
  import opened Links

  /**
   * What the crawler sees of the outside world: the page each URL loads (a
   * URL missing from `web` fails to load) and the rules of the link filter.
   */
  datatype Env = Env(web: map<string, Page>, rules: Rules)

  /** The visited set and the saved results, as values. */
  datatype State = State(visited: set<string>, results: seq<Record>)

  /** An entry of the breadth-first queue: a URL and the level it was queued at. */
  datatype Task = Task(url: string, depth: nat)

  // ---------------------------------------------------------------------------
  // One visit, as a function of the bookkeeping
  // ---------------------------------------------------------------------------

  /**
   * The URL a loaded page is recorded under: its canonical href when it has one
   * that is not yet visited, otherwise the requested URL. `None` when the
   * canonical element has no href (reading it raises).
   */
  function Target(page: Page, url: string, visited: set<string>): (r: Option<string>)
    ensures r.None? <==> page.canonical.Some? && page.canonical.value.href.None?
    ensures r.Some? && page.canonical == Some(CanonicalLink(Some(r.value))) ==> r.value !in visited || r.value == url
    ensures r.Some? && r.value != url ==> page.canonical == Some(CanonicalLink(Some(r.value))) && r.value !in visited
    ensures r.Some? && page.canonical.Some? && page.canonical.value.href.value !in visited ==>
              r.value == page.canonical.value.href.value
    ensures url !in visited && r.Some? ==> r.value !in visited
  {
    match page.canonical
    case None => Some(url)
    case Some(link) =>
      match link.href
      case None => None
      case Some(href) => if href !in visited then Some(href) else Some(url)
  }

  /**
   * Visiting `url` with `depth` levels left: nothing happens at depth 0, on a
   * visited URL or on a spider trap; otherwise the page is loaded.
   */
  function Visit(env: Env, st: State, url: string, depth: nat): (r: State)
    ensures st.visited <= r.visited && st.results <= r.results
    decreases depth, 1
  {
    if depth == 0 || url in st.visited || IsSpiderTrap(url) then st else Load(env, st, url, depth)
  }

  /**
   * Loading `url` and handling its page. Nothing happens when the load fails or
   * the canonical element has no href. Otherwise the target URL is marked
   * visited; when the content extracts, one record is saved and every followed
   * link is visited, in order, with one level less.
   */
  function Load(env: Env, st: State, url: string, depth: nat): (r: State)
    requires depth >= 1 && url !in st.visited
    ensures st.visited <= r.visited && st.results <= r.results
    decreases depth, 0
  {
    if url !in env.web then st
    else
      var page := env.web[url];
      match Target(page, url, st.visited)
      case None => st
      case Some(t) =>
        var visited := st.visited + {t};
        match Extract(page)
        case None => State(visited, st.results)
        case Some(c) =>
          var saved := State(visited, st.results + [Record(t, c.description, c.keywords, c.images)]);
          VisitAll(env, saved, Followed(env.rules, t, visited, page.anchors), depth - 1)
  }

  /** Visiting each of `urls` in turn, all with the same depth. */
  function VisitAll(env: Env, st: State, urls: seq<string>, depth: nat): (r: State)
    ensures st.visited <= r.visited && st.results <= r.results
    decreases depth, |urls| + 1
  {
    if urls == [] then st else VisitAll(env, Visit(env, st, urls[0], depth), urls[1..], depth)
  }

  // ---------------------------------------------------------------------------
  // Invariants of the bookkeeping
  // ---------------------------------------------------------------------------

  /** Saved URLs are pairwise distinct and every one of them is visited. */
  ghost predicate Inv(st: State) {
    (forall i, j :: 0 <= i < j < |st.results| ==> st.results[i].url != st.results[j].url) &&
    (forall i :: 0 <= i < |st.results| ==> st.results[i].url in st.visited)
  }

  /**
   * `r` extends `st`: both collections only grow, and each newly saved URL is
   * new to the visited set, now visited, and saved once.
   */
  ghost predicate Extends(st: State, r: State) {
    st.visited <= r.visited && st.results <= r.results &&
    (forall k :: |st.results| <= k < |r.results| ==> r.results[k].url in r.visited && r.results[k].url !in st.visited) &&
    (forall i, j :: |st.results| <= i < j < |r.results| ==> r.results[i].url != r.results[j].url)
  }

  /** The URLs saved in `r` beyond those of `st`. */
  ghost function NewUrls(st: State, r: State): set<string>
    requires st.results <= r.results
  {
    set k | |st.results| <= k < |r.results| :: r.results[k].url
  }

  /** Every page in the world extracts without error. */
  ghost predicate Clean(env: Env) {
    forall u :: u in env.web ==> Extract(env.web[u]).Some?
  }

  lemma ExtendsTransitive(a: State, b: State, c: State)
    requires Extends(a, b) && Extends(b, c)
    ensures Extends(a, c)
  {
    assert forall i :: 0 <= i < |b.results| ==> c.results[i] == b.results[i];
  }

  /** Extending a state that satisfies the invariant keeps the invariant. */
  lemma ExtendsKeepsInv(st: State, r: State)
    requires Inv(st) && Extends(st, r)
    ensures Inv(r)
  {
    assert forall i :: 0 <= i < |st.results| ==> r.results[i] == st.results[i];
  }

  lemma NewUrlsTransitive(a: State, b: State, c: State)
    requires a.results <= b.results <= c.results
    ensures NewUrls(a, c) == NewUrls(a, b) + NewUrls(b, c)
  {
    assert forall i :: 0 <= i < |b.results| ==> c.results[i] == b.results[i];
  }

  /** The newly saved URLs of an extension are as many as the new records. */
  lemma NewUrlsCount(st: State, r: State)
    requires Extends(st, r)
    ensures |NewUrls(st, r)| == |r.results| - |st.results|
  {
    var news := seq(|r.results| - |st.results|, k requires 0 <= k < |r.results| - |st.results| =>
                  r.results[|st.results| + k].url);
    assert Distinct(news);
    DistinctElems(news);
    forall u | u in NewUrls(st, r) ensures u in Elems(news) {
      var k :| |st.results| <= k < |r.results| && r.results[k].url == u;
      assert news[k - |st.results|] == u;
    }
    assert Elems(news) == NewUrls(st, r);
  }

  /** Saved records are exactly as many as the URLs newly marked visited, at most. */
  lemma ExtendsCount(st: State, r: State)
    requires Extends(st, r)
    ensures |r.results| - |st.results| <= |r.visited - st.visited|
    ensures r.visited == st.visited + NewUrls(st, r) ==> |r.results| - |st.results| == |r.visited - st.visited|
  {
    NewUrlsCount(st, r);
    assert NewUrls(st, r) <= r.visited - st.visited;
    SubsetCard(NewUrls(st, r), r.visited - st.visited);
    if r.visited == st.visited + NewUrls(st, r) {
      assert r.visited - st.visited == NewUrls(st, r);
    }
  }

  lemma {:induction false} SubsetCard<T>(a: set<T>, b: set<T>)
    requires a <= b
    ensures |a| <= |b|
    decreases |b|
  {
    if a != {} {
      var x :| x in a;
      SubsetCard(a - {x}, b - {x});
    }
  }

  // ---------------------------------------------------------------------------
  // What a visit does
  // ---------------------------------------------------------------------------

  /** The early returns: nothing changes at depth 0, on a visited URL, on a trap, or when the load fails. */
  lemma VisitUnchanged(env: Env, st: State, url: string, depth: nat)
    requires depth == 0 || url in st.visited || IsSpiderTrap(url) || url !in env.web
    ensures Visit(env, st, url, depth) == st
  {
  }

  /**
   * A successful load marks its target visited, the target was not visited
   * before, and the first record saved carries the target with the page's
   * extracted content.
   */
  lemma VisitRecords(env: Env, st: State, url: string, depth: nat, t: string, c: Content)
    requires depth > 0 && url !in st.visited && !IsSpiderTrap(url) && url in env.web
    requires Target(env.web[url], url, st.visited) == Some(t)
    requires Extract(env.web[url]) == Some(c)
    ensures t !in st.visited
    ensures var r := Visit(env, st, url, depth);
            t in r.visited && |r.results| > |st.results| &&
            r.results[|st.results|] == Record(t, c.description, c.keywords, c.images)
  {
    var r := Visit(env, st, url, depth);
    var saved := State(st.visited + {t}, st.results + [Record(t, c.description, c.keywords, c.images)]);
    assert r == Load(env, st, url, depth);
    assert r == VisitAll(env, saved, Followed(env.rules, t, st.visited + {t}, env.web[url].anchors), depth - 1);
    assert saved.results <= r.results;
    assert saved.results[|st.results|] == r.results[|st.results|];
  }

  /** The initial queue: every seed at level 0, in order. */
  function SeedTasks(seeds: seq<string>): (r: seq<Task>)
    ensures |r| == |seeds|
  {
    seq(|seeds|, i requires 0 <= i < |seeds| => Task(seeds[i], 0))
  }

  /** Popping the head of the queue while seeds remain pops the next seed. */
  lemma SeedTasksPop(seeds: seq<string>, k: nat, tail: seq<Task>)
    requires k < |seeds|
    ensures (SeedTasks(seeds[k..]) + tail)[0] == Task(seeds[k], 0)
    ensures (SeedTasks(seeds[k..]) + tail)[1..] == SeedTasks(seeds[k + 1..]) + tail
  {
    var q := SeedTasks(seeds[k..]) + tail;
    assert q[0] == SeedTasks(seeds[k..])[0];
    assert q[1..] == SeedTasks(seeds[k..])[1..] + tail;
    assert SeedTasks(seeds[k..])[1..] == SeedTasks(seeds[k + 1..]);
  }

  /** One more seed visited: the fold over the remaining seeds resumes one position further on. */
  lemma ResumeStep(env: Env, start: State, seeds: seq<string>, k: nat, depth: nat, before: State, after: State)
    requires k < |seeds|
    requires VisitAll(env, start, seeds, depth) == VisitAll(env, before, seeds[k..], depth)
    requires after == Visit(env, before, seeds[k], depth)
    ensures VisitAll(env, start, seeds, depth) == VisitAll(env, after, seeds[k + 1..], depth)
  {
    assert seeds[k..][1..] == seeds[k + 1..];
  }

  /** With no levels left below, visiting the links changes nothing. */
  lemma {:induction false} VisitAllAtZero(env: Env, st: State, urls: seq<string>)
    ensures VisitAll(env, st, urls, 0) == st
    decreases |urls|
  {
    if urls != [] {
      VisitAllAtZero(env, Visit(env, st, urls[0], 0), urls[1..]);
    }
  }

  /** At depth 1 a successful visit adds exactly its target and exactly one record. */
  lemma VisitLeaf(env: Env, st: State, url: string, t: string, c: Content)
    requires url !in st.visited && !IsSpiderTrap(url) && url in env.web
    requires Target(env.web[url], url, st.visited) == Some(t)
    requires Extract(env.web[url]) == Some(c)
    ensures Visit(env, st, url, 1)
         == State(st.visited + {t}, st.results + [Record(t, c.description, c.keywords, c.images)])
  {
    var page := env.web[url];
    var saved := State(st.visited + {t}, st.results + [Record(t, c.description, c.keywords, c.images)]);
    VisitAllAtZero(env, saved, Followed(env.rules, t, st.visited + {t}, page.anchors));
  }

  /**
   * Two request URLs whose pages name the same canonical target are not
   * collapsed: the first is recorded under the target, and the second, whose
   * target is then visited, under its own request URL.
   */
  lemma CanonicalNotCollapsed(env: Env, st: State, u1: string, u2: string, c: string)
    requires u1 != u2 && c != u2 && u1 !in st.visited && u2 !in st.visited && c !in st.visited
    requires !IsSpiderTrap(u1) && !IsSpiderTrap(u2) && u1 in env.web && u2 in env.web
    requires env.web[u1].canonical == Some(CanonicalLink(Some(c)))
    requires env.web[u2].canonical == Some(CanonicalLink(Some(c)))
    requires Extract(env.web[u1]).Some? && Extract(env.web[u2]).Some?
    ensures var r := VisitAll(env, st, [u1, u2], 1);
            |r.results| == |st.results| + 2 &&
            r.results[|st.results|].url == c && r.results[|st.results| + 1].url == u2
  {
    var c1, c2 := Extract(env.web[u1]).value, Extract(env.web[u2]).value;
    VisitLeaf(env, st, u1, c, c1);
    var mid := Visit(env, st, u1, 1);
    VisitLeaf(env, mid, u2, u2, c2);
    var r := Visit(env, mid, u2, 1);
    assert [u1, u2][1..] == [u2];
    assert VisitAll(env, mid, [u2], 1) == VisitAll(env, r, [], 1);
  }

  /** Every visit extends the bookkeeping. */
  lemma {:induction false} VisitExtends(env: Env, st: State, url: string, depth: nat)
    ensures Extends(st, Visit(env, st, url, depth))
    decreases depth, 1
  {
    if !(depth == 0 || url in st.visited || IsSpiderTrap(url)) {
      LoadExtends(env, st, url, depth);
    }
  }

  lemma {:induction false} LoadExtends(env: Env, st: State, url: string, depth: nat)
    requires depth >= 1 && url !in st.visited
    ensures Extends(st, Load(env, st, url, depth))
    decreases depth, 0
  {
    if url in env.web {
      var page := env.web[url];
      match Target(page, url, st.visited)
      case None =>
      case Some(t) =>
        var visited := st.visited + {t};
        match Extract(page)
        case None =>
        case Some(c) =>
          var saved := State(visited, st.results + [Record(t, c.description, c.keywords, c.images)]);
          var links := Followed(env.rules, t, visited, page.anchors);
          assert Extends(st, saved);
          VisitAllExtends(env, saved, links, depth - 1);
          ExtendsTransitive(st, saved, VisitAll(env, saved, links, depth - 1));
    }
  }

  lemma {:induction false} VisitAllExtends(env: Env, st: State, urls: seq<string>, depth: nat)
    ensures Extends(st, VisitAll(env, st, urls, depth))
    decreases depth, |urls| + 1
  {
    if urls != [] {
      var mid := Visit(env, st, urls[0], depth);
      VisitExtends(env, st, urls[0], depth);
      VisitAllExtends(env, mid, urls[1..], depth);
      ExtendsTransitive(st, mid, VisitAll(env, mid, urls[1..], depth));
    }
  }

  /** When every page extracts, a visit marks visited exactly the URLs it saves. */
  lemma {:induction false} VisitExact(env: Env, st: State, url: string, depth: nat)
    requires Clean(env)
    ensures var r := Visit(env, st, url, depth); r.visited == st.visited + NewUrls(st, r)
    decreases depth, 1
  {
    if depth == 0 || url in st.visited || IsSpiderTrap(url) {
      assert NewUrls(st, st) == {};
    } else {
      LoadExact(env, st, url, depth);
    }
  }

  lemma {:induction false} LoadExact(env: Env, st: State, url: string, depth: nat)
    requires Clean(env) && depth >= 1 && url !in st.visited
    ensures var r := Load(env, st, url, depth); r.visited == st.visited + NewUrls(st, r)
    decreases depth, 0
  {
    if url !in env.web {
      assert NewUrls(st, st) == {};
    } else {
      var page := env.web[url];
      match Target(page, url, st.visited)
      case None =>
        assert NewUrls(st, st) == {};
      case Some(t) =>
        var visited := st.visited + {t};
        var c := Extract(page).value;
        var saved := State(visited, st.results + [Record(t, c.description, c.keywords, c.images)]);
        var links := Followed(env.rules, t, visited, page.anchors);
        var r := VisitAll(env, saved, links, depth - 1);
        assert Load(env, st, url, depth) == r;
        VisitAllExact(env, saved, links, depth - 1);
        assert NewUrls(st, saved) == {t} by {
          assert saved.results[|st.results|].url == t;
        }
        NewUrlsTransitive(st, saved, r);
    }
  }

  lemma {:induction false} VisitAllExact(env: Env, st: State, urls: seq<string>, depth: nat)
    requires Clean(env)
    ensures var r := VisitAll(env, st, urls, depth); r.visited == st.visited + NewUrls(st, r)
    decreases depth, |urls| + 1
  {
    if urls != [] {
      var mid := Visit(env, st, urls[0], depth);
      var r := VisitAll(env, mid, urls[1..], depth);
      VisitExact(env, st, urls[0], depth);
      VisitAllExact(env, mid, urls[1..], depth);
      NewUrlsTransitive(st, mid, r);
    } else {
      assert NewUrls(st, st) == {};
    }
  }

  /**
   * Counting: a visit saves at most as many records as it adds visited URLs,
   * and exactly as many when every page extracts.
   */
  lemma VisitCount(env: Env, st: State, url: string, depth: nat)
    ensures var r := Visit(env, st, url, depth); |r.results| - |st.results| <= |r.visited - st.visited|
    ensures var r := Visit(env, st, url, depth);
            Clean(env) ==> |r.results| - |st.results| == |r.visited - st.visited|
  {
    VisitExtends(env, st, url, depth);
    if Clean(env) {
      VisitExact(env, st, url, depth);
    }
    ExtendsCount(st, Visit(env, st, url, depth));
  }

  /** The same for a sequence of visits, as the queue loop makes them. */
  lemma VisitAllCount(env: Env, st: State, urls: seq<string>, depth: nat)
    ensures var r := VisitAll(env, st, urls, depth); |r.results| - |st.results| <= |r.visited - st.visited|
    ensures var r := VisitAll(env, st, urls, depth);
            Clean(env) ==> |r.results| - |st.results| == |r.visited - st.visited|
  {
    VisitAllExtends(env, st, urls, depth);
    if Clean(env) {
      VisitAllExact(env, st, urls, depth);
    }
    ExtendsCount(st, VisitAll(env, st, urls, depth));
  }

  // ---------------------------------------------------------------------------
  // The crawler, in place
  // ---------------------------------------------------------------------------

  class Crawler {
    const env: Env
    var visited: set<string>
    var results: seq<Record>

    /** The bookkeeping as a value. */
    function Snapshot(): State
      reads this
    {
      State(visited, results)
    }

    ghost predicate Valid()
      reads this
    {
      Inv(Snapshot())
    }

    /** A fresh crawl: nothing visited, nothing saved. */
    constructor (env: Env)
      ensures this.env == env && visited == {} && results == []
      ensures Valid()
    {
      this.env := env;
      visited := {};
      results := [];
    }

    /** The links of the page at `base` that the crawl goes on to visit. */
    method FilterLinks(base: string, anchors: seq<Anchor>) returns (links: seq<string>)
      ensures links == Followed(env.rules, base, visited, anchors)
    {
      links := [];
      for i := 0 to |anchors|
        invariant links == Followed(env.rules, base, visited, anchors[..i])
      {
        var a := anchors[i];
        var full := env.rules.join(base, a.href);
        assert anchors[..i + 1][..i] == anchors[..i];
        if a.rel == ["nofollow"] {
          continue;
        }
        if env.rules.domainRestriction && !SameDomain(env.rules.netloc, base, full) {
          continue;
        }
        if HasHttpPrefix(full) && full !in visited {
          links := links + [full];
        }
      }
      assert anchors[..|anchors|] == anchors;
    }

    /** Visits `url` with `depth` levels left, and recursively the page's followed links. */
    method Fetch(url: string, depth: nat)
      modifies this
      ensures Snapshot() == Visit(env, old(Snapshot()), url, depth)
      ensures old(visited) <= visited
      decreases depth, 1
    {
      if depth == 0 || url in visited || IsSpiderTrap(url) {
        return;
      }
      if url !in env.web {
        return;
      }
      var page := env.web[url];
      var target := url;
      if page.canonical.Some? {
        var href := page.canonical.value.href;
        if href.None? {
          return;
        }
        if href.value !in visited {
          target := href.value;
        }
      }
      visited := visited + {target};
      var content := Extract(page);
      if content.None? {
        return;
      }
      results := results + [Record(target, content.value.description, content.value.keywords, content.value.images)];
      var links := FilterLinks(target, page.anchors);
      FetchEach(links, depth - 1);
    }

    /** Visits each of `links` in turn with `depth` levels left. */
    method FetchEach(links: seq<string>, depth: nat)
      modifies this
      ensures Snapshot() == VisitAll(env, old(Snapshot()), links, depth)
      decreases depth, 2
    {
      ghost var start := Snapshot();
      for i := 0 to |links|
        invariant VisitAll(env, start, links, depth) == VisitAll(env, Snapshot(), links[i..], depth)
      {
        assert links[i..][1..] == links[i + 1..];
        Fetch(links[i], depth);
      }
    }

    /**
     * The queue entries for every visited URL on the domain of `seed`, each once,
     * at level `level`, in the visited set's iteration order.
     */
    method DomainTasks(seed: string, level: nat) returns (batch: seq<Task>)
      ensures forall k :: 0 <= k < |batch| ==>
                batch[k].url in visited && SameDomain(env.rules.netloc, seed, batch[k].url) && batch[k].depth == level
      ensures forall u :: u in visited && SameDomain(env.rules.netloc, seed, u) ==> Task(u, level) in batch
      ensures forall i, j :: 0 <= i < j < |batch| ==> batch[i].url != batch[j].url
    {
      var pending := visited;
      batch := [];
      while pending != {}
        invariant pending <= visited
        invariant forall k :: 0 <= k < |batch| ==> batch[k].url in visited && batch[k].url !in pending
        invariant forall k :: 0 <= k < |batch| ==> SameDomain(env.rules.netloc, seed, batch[k].url) && batch[k].depth == level
        invariant forall u :: u in visited && SameDomain(env.rules.netloc, seed, u) ==> u in pending || Task(u, level) in batch
        invariant forall i, j :: 0 <= i < j < |batch| ==> batch[i].url != batch[j].url
        decreases pending
      {
        var u :| u in pending;
        if SameDomain(env.rules.netloc, seed, u) {
          batch := batch + [Task(u, level)];
        }
        pending := pending - {u};
      }
    }

    /**
     * One turn of the queue loop: pops the head entry; unless it is too deep or
     * already visited, visits it with the levels left and queues every visited
     * URL on the domain of `seed` one level further down.
     */
    method Turn(seed: string, depth: int, queue: seq<Task>) returns (rest: seq<Task>, ghost batch: seq<Task>)
      requires queue != []
      modifies this
      ensures queue[0].depth >= depth || queue[0].url in old(visited) ==>
                rest == queue[1..] && batch == [] && Snapshot() == old(Snapshot())
      ensures queue[0].depth < depth && queue[0].url !in old(visited) ==>
                Snapshot() == Visit(env, old(Snapshot()), queue[0].url, depth - queue[0].depth) && rest == queue[1..] + batch
      ensures old(visited) <= visited
      ensures forall k :: 0 <= k < |batch| ==>
                batch[k].url in visited && SameDomain(env.rules.netloc, seed, batch[k].url) && batch[k].depth == queue[0].depth + 1
    {
      var task := queue[0];
      rest := queue[1..];
      batch := [];
      if task.depth >= depth || task.url in visited {
        return;
      }
      Fetch(task.url, depth - task.depth);
      var links := DomainTasks(seed, task.depth + 1);
      rest := rest + links;
      batch := links;
    }

    /**
     * The breadth-first loop over the seeds. Entries it queues again are
     * visited URLs, so they are always skipped when popped: the outcome is
     * that of visiting each seed in turn at the full depth.
     */
    method Crawl(seeds: seq<string>, depth: int)
      modifies this
      ensures Snapshot() == if depth <= 0 then old(Snapshot()) else VisitAll(env, old(Snapshot()), seeds, depth)
      ensures old(Valid()) ==> Valid()
    {
      var queue := SeedTasks(seeds);
      ghost var start := Snapshot();
      ghost var k := 0;
      ghost var tail: seq<Task> := [];
      assert seeds[0..] == seeds;
      while queue != []
        invariant 0 <= k <= |seeds|
        invariant queue == SeedTasks(seeds[k..]) + tail
        invariant forall t :: t in tail ==> t.url in visited
        invariant depth <= 0 ==> Snapshot() == start
        invariant depth > 0 ==> VisitAll(env, start, seeds, depth) == VisitAll(env, Snapshot(), seeds[k..], depth)
        decreases |seeds| - k, |queue|
      {
        ghost var before := Snapshot();
        ghost var task := queue[0];
        ghost var fromSeeds := k < |seeds|;
        if fromSeeds {
          SeedTasksPop(seeds, k, tail);
        }
        ghost var batch;
        queue, batch := Turn(seeds[0], depth, queue);
        if fromSeeds {
          k := k + 1;
        } else {
          tail := tail[1..];
        }
        if task.depth >= depth || task.url in before.visited {
          if fromSeeds && depth > 0 {
            VisitUnchanged(env, before, task.url, depth);
            ResumeStep(env, start, seeds, k - 1, depth, before, Snapshot());
          }
        } else {
          ResumeStep(env, start, seeds, k - 1, depth, before, Snapshot());
          tail := tail + batch;
        }
      }
      if depth > 0 && Inv(start) {
        VisitAllExtends(env, start, seeds, depth);
        ExtendsKeepsInv(start, Snapshot());
      }
    }
  }
}
