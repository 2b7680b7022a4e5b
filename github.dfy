/**
 * One account's walk over its starred repositories: request a page, forward
 * every repository whose latest release is a proper (non-pre-) release, and
 * follow the page cursor until the API says there is no next page.
 *
 * The HTTP request and the JSON decoding are a function `fetch` from the
 * page cursor to the decoded page or a failure. The request body the source
 * posts is `GraphqlQuery.BuildQuery` of that cursor, and the body and the
 * cursor determine each other (`GraphqlQuery.BuildQueryInjective`), so a page
 * source keyed by the body is one keyed by the cursor. The channel the
 * repositories are sent on is the sequence `sent` they are appended to.
 */
module Github {
  import opened Wrappers
  import opened Graphql

  /** The outcome of one page request: the decoded page, or a transport or decoding failure. */
  datatype Fetch = Fetched(response: StarredRepositories) | FetchFailed

  /** The per-repository filter: it has a latest release and that release is not a prerelease. */
  predicate IsForwarded(r: Repository) {
    r.latestRelease.Some? && !r.latestRelease.value.isPrerelease
  }

  /** The repositories of a page that are sent on, in page order. */
  function Forwarded(nodes: seq<Repository>): seq<Repository> {
    if nodes == [] then []
    else
      var last := nodes[|nodes| - 1];
      Forwarded(nodes[..|nodes| - 1]) + (if IsForwarded(last) then [last] else [])
  }

  /**
   * A repository is sent exactly as often as it occurs in the page when it
   * passes the filter, and never otherwise: nothing is added, changed or
   * silently lost beyond the filtered-out ones.
   */
  lemma {:induction false} ForwardedCount(nodes: seq<Repository>, x: Repository)
    ensures multiset(Forwarded(nodes))[x] == if IsForwarded(x) then multiset(nodes)[x] else 0
  {
    if nodes != [] {
      var init := nodes[..|nodes| - 1];
      ForwardedCount(init, x);
      assert nodes == init + [nodes[|nodes| - 1]];
    }
  }

  /** Filtering keeps order across a split: what comes first in the input is sent first. */
  lemma {:induction false} ForwardedAppend(a: seq<Repository>, b: seq<Repository>)
    ensures Forwarded(a + b) == Forwarded(a) + Forwarded(b)
    decreases |b|
  {
    if b == [] {
      assert a + b == a;
    } else {
      var init := b[..|b| - 1];
      assert (a + b)[..|a + b| - 1] == a + init;
      ForwardedAppend(a, init);
    }
  }

  /**
   * The API's cursor chain from `cursor` ends within `n` requests: some
   * request fails or returns a page with no next page. The source loop has
   * no bound of its own; this is the assumption under which it terminates.
   */
  predicate EndsWithin(fetch: Option<string> -> Fetch, cursor: Option<string>, n: nat)
    decreases n
  {
    && n > 0
    && match fetch(cursor)
       case FetchFailed => true
       case Fetched(page) => !page.pageInfo.hasNextPage || EndsWithin(fetch, page.pageInfo.endCursor, n - 1)
  }

  /** What one account's walk did: the cursors it requested, what it sent, and whether it died on a failure. */
  datatype Crawl = Crawl(cursors: seq<Option<string>>, sent: seq<Repository>, failed: bool)

  /** The walk from `cursor` on, as a function of the page source. */
  function Paginate(fetch: Option<string> -> Fetch, cursor: Option<string>, n: nat): (c: Crawl)
    requires EndsWithin(fetch, cursor, n)
    ensures |c.cursors| >= 1 && c.cursors[0] == cursor
    decreases n
  {
    match fetch(cursor)
    case FetchFailed => Crawl([cursor], [], true)
    case Fetched(page) =>
      if page.pageInfo.hasNextPage then
        var rest := Paginate(fetch, page.pageInfo.endCursor, n - 1);
        Crawl([cursor] + rest.cursors, Forwarded(page.nodes) + rest.sent, rest.failed)
      else
        Crawl([cursor], Forwarded(page.nodes), false)
  }

  /** Request `next` is the one that follows `cursor`: its page said there is more, and `next` is its end cursor. */
  predicate Continues(fetch: Option<string> -> Fetch, cursor: Option<string>, next: Option<string>) {
    && fetch(cursor).Fetched?
    && fetch(cursor).response.pageInfo.hasNextPage
    && next == fetch(cursor).response.pageInfo.endCursor
  }

  /** What the pages fetched for `cursors` forward, page after page; a failed request contributes nothing. */
  function SentFor(fetch: Option<string> -> Fetch, cursors: seq<Option<string>>): seq<Repository> {
    if cursors == [] then []
    else
      var here := match fetch(cursors[0])
        case Fetched(page) => Forwarded(page.nodes)
        case FetchFailed => [];
      here + SentFor(fetch, cursors[1..])
  }

  /** Each request after the first continues from the one before it. */
  predicate IsCursorChain(fetch: Option<string> -> Fetch, cursors: seq<Option<string>>) {
    forall i :: 0 <= i < |cursors| - 1 ==> Continues(fetch, cursors[i], cursors[i + 1])
  }

  /**
   * The walk's requests form the cursor chain: each one after the first
   * asks for the end cursor of the page before, which said it had a next page.
   */
  lemma {:induction false} PaginateFollowsCursors(fetch: Option<string> -> Fetch, cursor: Option<string>, n: nat)
    requires EndsWithin(fetch, cursor, n)
    ensures IsCursorChain(fetch, Paginate(fetch, cursor, n).cursors)
    decreases n
  {
    var c := Paginate(fetch, cursor, n);
    var fetched := fetch(cursor);
    if fetched.Fetched? && fetched.response.pageInfo.hasNextPage {
      var next := fetched.response.pageInfo.endCursor;
      var rest := Paginate(fetch, next, n - 1);
      PaginateFollowsCursors(fetch, next, n - 1);
      assert c.cursors == [cursor] + rest.cursors;
      forall i | 0 <= i < |c.cursors| - 1 ensures Continues(fetch, c.cursors[i], c.cursors[i + 1]) {
        if i > 0 {
          assert c.cursors[i] == rest.cursors[i - 1] && c.cursors[i + 1] == rest.cursors[i];
        }
      }
    }
  }

  /**
   * The walk stops at its first failed request, and reports it, or at the
   * first page that has no next page.
   */
  lemma {:induction false} PaginateStops(fetch: Option<string> -> Fetch, cursor: Option<string>, n: nat)
    requires EndsWithin(fetch, cursor, n)
    ensures var c := Paginate(fetch, cursor, n);
      var last := c.cursors[|c.cursors| - 1];
      && (c.failed <==> fetch(last).FetchFailed?)
      && (!c.failed ==> !fetch(last).response.pageInfo.hasNextPage)
    decreases n
  {
    var c := Paginate(fetch, cursor, n);
    var fetched := fetch(cursor);
    if fetched.Fetched? && fetched.response.pageInfo.hasNextPage {
      var next := fetched.response.pageInfo.endCursor;
      var rest := Paginate(fetch, next, n - 1);
      PaginateStops(fetch, next, n - 1);
      assert c.cursors[|c.cursors| - 1] == rest.cursors[|rest.cursors| - 1];
    }
  }

  /** What the walk sends is the concatenation of the filtered pages, in request order. */
  lemma {:induction false} PaginateSends(fetch: Option<string> -> Fetch, cursor: Option<string>, n: nat)
    requires EndsWithin(fetch, cursor, n)
    ensures var c := Paginate(fetch, cursor, n);
      c.sent == SentFor(fetch, c.cursors)
    decreases n
  {
    var c := Paginate(fetch, cursor, n);
    var fetched := fetch(cursor);
    if fetched.Fetched? && fetched.response.pageInfo.hasNextPage {
      var next := fetched.response.pageInfo.endCursor;
      PaginateSends(fetch, next, n - 1);
      assert c.cursors[1..] == Paginate(fetch, next, n - 1).cursors;
    } else {
      assert c.cursors[1..] == [];
    }
  }

  /** Everything the walk sends passes the filter. */
  lemma {:induction false} PaginateSendsOnlyForwarded(fetch: Option<string> -> Fetch, cursor: Option<string>, n: nat)
    requires EndsWithin(fetch, cursor, n)
    ensures forall x :: x in Paginate(fetch, cursor, n).sent ==> IsForwarded(x)
    decreases n
  {
    match fetch(cursor)
    case FetchFailed =>
    case Fetched(page) =>
      forall x | x in Forwarded(page.nodes) ensures IsForwarded(x) {
        ForwardedCount(page.nodes, x);
      }
      if page.pageInfo.hasNextPage {
        PaginateSendsOnlyForwarded(fetch, page.pageInfo.endCursor, n - 1);
      }
  }

  /**
   * The loop over one page's nodes: each repository that passes the filter
   * is sent, in node order, after what was sent before.
   */
  method ForwardPage(before: seq<Repository>, nodes: seq<Repository>) returns (sent: seq<Repository>)
    ensures sent == before + Forwarded(nodes)
  {
    sent := before;
    for i := 0 to |nodes|
      invariant sent == before + Forwarded(nodes[..i])
    {
      var repository := nodes[i];
      assert nodes[..i + 1][..i] == nodes[..i];
      if repository.latestRelease.Some? {
        if !repository.latestRelease.value.isPrerelease {
          sent := sent + [repository];
        }
      }
    }
    assert nodes[..|nodes|] == nodes;
  }

  /** The walk so far (`cursors`, `sent`) followed by the walk still to come. */
  function Prefixed(cursors: seq<Option<string>>, sent: seq<Repository>, rest: Crawl): Crawl {
    Crawl(cursors + rest.cursors, sent + rest.sent, rest.failed)
  }

  /**
   * `find_releases`: walk the pages from the first (no cursor), sending the
   * forwarded repositories of each page in order. A failed request ends the
   * walk; what was already sent stays sent.
   */
  method FindReleases(fetch: Option<string> -> Fetch, ghost bound: nat)
    returns (cursors: seq<Option<string>>, sent: seq<Repository>, failed: bool)
    requires EndsWithin(fetch, None, bound)
    ensures Crawl(cursors, sent, failed) == Paginate(fetch, None, bound)
    ensures |cursors| >= 1 && cursors[0] == None
    ensures forall x :: x in sent ==> IsForwarded(x)
  {
    PaginateSendsOnlyForwarded(fetch, None, bound);
    var cursor: Option<string> := None;
    ghost var left := bound;
    cursors, sent, failed := [], [], false;
    ghost var total := Paginate(fetch, None, bound);
    assert total == Prefixed(cursors, sent, Paginate(fetch, cursor, left));
    while true
      invariant EndsWithin(fetch, cursor, left)
      invariant total == Prefixed(cursors, sent, Paginate(fetch, cursor, left))
      decreases left
    {
      ghost var crawl := Paginate(fetch, cursor, left);
      var fetched := fetch(cursor);
      if fetched.FetchFailed? {
        assert crawl == Crawl([cursor], [], true);
        cursors := cursors + [cursor];
        failed := true;
        return;
      }
      var response := fetched.response;
      var nodes := response.nodes;
      ghost var sentBefore := sent;
      sent := ForwardPage(sent, nodes);
      if response.pageInfo.hasNextPage {
        var next := response.pageInfo.endCursor;
        ghost var rest := Paginate(fetch, next, left - 1);
        assert crawl == Crawl([cursor] + rest.cursors, Forwarded(nodes) + rest.sent, rest.failed);
        SeqAssoc(cursors, [cursor], rest.cursors);
        SeqAssoc(sentBefore, Forwarded(nodes), rest.sent);
        assert Prefixed(cursors, sentBefore, crawl) == Prefixed(cursors + [cursor], sent, rest);
        cursors := cursors + [cursor];
        cursor := next;
        left := left - 1;
      } else {
        assert crawl == Crawl([cursor], Forwarded(nodes), false);
        cursors := cursors + [cursor];
        break;
      }
    }
  }

  /**
   * A first page that has a next page with end cursor "X" is followed by a
   * request for cursor "X"; a second page without a next page ends the walk.
   */
  lemma SecondRequestUsesEndCursor(fetch: Option<string> -> Fetch, first: seq<Repository>, second: seq<Repository>)
    requires fetch(None) == Fetched(StarredRepositories(PageInfo(true, Some("X")), first))
    requires fetch(Some("X")) == Fetched(StarredRepositories(PageInfo(false, None), second))
    ensures EndsWithin(fetch, None, 2)
    ensures Paginate(fetch, None, 2) == Crawl([None, Some("X")], Forwarded(first) + Forwarded(second), false)
  {
  }

  /** A prerelease and a repository without releases are both dropped. */
  lemma DropsPrereleaseAndReleaseless(pre: Repository, none: Repository)
    requires pre.latestRelease.Some? && pre.latestRelease.value.isPrerelease
    requires none.latestRelease.None?
    ensures Forwarded([pre, none]) == []
  {
    assert [pre, none][..1] == [pre];
    assert [pre][..0] == [];
    assert Forwarded([pre]) == [];
  }

  /**
   * A page that says there is a next page but gives no end cursor sends the
   * loop back to the first page. When that page is the first one, the walk
   * asks for it again and again: no bound covers it.
   */
  lemma {:induction false} MissingEndCursorRestarts(fetch: Option<string> -> Fetch, nodes: seq<Repository>, n: nat)
    requires fetch(None) == Fetched(StarredRepositories(PageInfo(true, None), nodes))
    ensures !EndsWithin(fetch, None, n)
    decreases n
  {
    if n > 0 {
      MissingEndCursorRestarts(fetch, nodes, n - 1);
    }
  }
}
