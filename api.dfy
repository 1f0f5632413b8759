/**
 * The repository client of internal/api/github.go: paginated listing of the
 * authenticated user's repositories and the archived/fork filter applied to
 * the listing. The remote service is a `Server`: a function from the query
 * options of one request to the page (or the error) it answers with.
 */
module Api {
  import opened Wrappers

  /** The fields of a repository that the tool reads. */
  datatype Repository = Repository(name: string, private: bool, fork: bool, archived: bool)

  /** An element of a `[]*github.Repository` slice: `None` is a nil pointer. */
  type RepoRef = Option<Repository>

  /** `github.RepositoryListOptions`, reduced to the fields the client sets. */
  datatype ListOptions = ListOptions(affiliation: string, page: nat, perPage: nat)

  /** An error from the remote API: an HTTP error response, or any other failure. */
  datatype ApiError =
    | ErrorResponse(statusCode: int, message: string)
    | TransportError(message: string)
  {
    /** The text that `%v` prints for the error. */
    function Text(): string
    {
      message
    }

    /** The check `errors.As(err, &ghErr) && ghErr.Response.StatusCode == 404`. */
    predicate IsNotFound()
    {
      ErrorResponse? && statusCode == 404
    }
  }

  /** What one `Repositories.List` call returns: a page of repositories and the next page number (0 when it is the last), or an error. */
  datatype PageResponse =
    | Page(repos: seq<RepoRef>, nextPage: nat)
    | Failed(err: ApiError)
  {
    /** The loop stops after this response. */
    predicate IsLast()
    {
      Failed? || nextPage == 0
    }

    /** The repositories this response contributes to the listing. */
    function Repos(): seq<RepoRef>
    {
      if Page? then repos else []
    }
  }

  /** The remote service, answering one list request at a time. */
  type Server = ListOptions -> PageResponse

  /** One request sent by the listing loop and the response it received. */
  datatype Exchange = Exchange(request: ListOptions, response: PageResponse)

  /** The fixed page size of every list request. */
  const PageSize: nat := 100

  /** The options of the first request: page size 100, scoped to owned repositories unless every repository is wanted. */
  function QueryOptions(showAll: bool): ListOptions
  {
    ListOptions(if showAll then "" else "owner", 0, PageSize)
  }

  /** The request that follows `opt` when the server announced page `next`. */
  function NextRequest(opt: ListOptions, next: nat): ListOptions
  {
    opt.(page := next)
  }

  /**
   * The chain of requests starting at `opt` ends, with an error or with a
   * page whose next-page number is 0, within `fuel` requests. The Go loop
   * `for {}` terminates only under this assumption about the server.
   */
  ghost predicate Ends(server: Server, opt: ListOptions, fuel: nat)
    decreases fuel
  {
    fuel > 0 &&
    var resp := server(opt);
    resp.IsLast() || Ends(server, NextRequest(opt, resp.nextPage), fuel - 1)
  }

  /** The exchanges a listing that starts at `opt` has with the server, in order. */
  function Walk(server: Server, opt: ListOptions, fuel: nat): (w: seq<Exchange>)
    requires Ends(server, opt, fuel)
    decreases fuel
    ensures 1 <= |w| <= fuel
  {
    var resp := server(opt);
    if resp.IsLast() then [Exchange(opt, resp)]
    else [Exchange(opt, resp)] + Walk(server, NextRequest(opt, resp.nextPage), fuel - 1)
  }

  /**
   * The walk is the chain of requests the server dictates: it starts with
   * `opt`, every response is the server's answer to its request, every
   * request after the first asks for the page the previous response named,
   * and only the final response is an error or a page with no successor.
   */
  lemma {:induction false} WalkIsRequestChain(server: Server, opt: ListOptions, fuel: nat)
    requires Ends(server, opt, fuel)
    decreases fuel
    ensures var w := Walk(server, opt, fuel);
      && w[0].request == opt
      && (forall i :: 0 <= i < |w| ==> w[i].response == server(w[i].request))
      && (forall i :: 0 <= i < |w| - 1 ==>
            !w[i].response.IsLast() && w[i + 1].request == NextRequest(w[i].request, w[i].response.nextPage))
      && w[|w| - 1].response.IsLast()
  {
    var resp := server(opt);
    if !resp.IsLast() {
      WalkIsRequestChain(server, NextRequest(opt, resp.nextPage), fuel - 1);
    }
  }

  /** The repositories of all pages in `w`, in the order the server returned them. */
  function Concat(w: seq<Exchange>): seq<RepoRef>
  {
    if w == [] then [] else Concat(w[..|w| - 1]) + w[|w| - 1].response.Repos()
  }

  /** The outcome of the fetch loop over the exchanges `w`: the error of a failed page, or every page's repositories. */
  function Fetched(w: seq<Exchange>): Result<seq<RepoRef>, ApiError>
  {
    if w != [] && w[|w| - 1].response.Failed? then Err(w[|w| - 1].response.err) else Ok(Concat(w))
  }

  /** A repository survives the filter: not nil, not archived, not a fork. */
  predicate Kept(r: RepoRef)
  {
    r.Some? && !r.value.archived && !r.value.fork
  }

  /** The second pass of the listing when `showAll` is false. */
  function Filter(s: seq<RepoRef>): (r: seq<RepoRef>)
    ensures |r| <= |s|
    ensures forall i :: 0 <= i < |r| ==> Kept(r[i])
  {
    if s == [] then []
    else Filter(s[..|s| - 1]) + (if Kept(s[|s| - 1]) then [s[|s| - 1]] else [])
  }

  /** What `ListRepositories` returns for a server whose request chain ends within `fuel` requests. */
  function Listing(server: Server, showAll: bool, fuel: nat): (r: Result<seq<RepoRef>, ApiError>)
    requires Ends(server, QueryOptions(showAll), fuel)
    ensures r.Ok? && !showAll ==> forall i :: 0 <= i < |r.value| ==> Kept(r.value[i])
  {
    match Fetched(Walk(server, QueryOptions(showAll), fuel))
    case Err(e) => Err(e)
    case Ok(all) => Ok(if showAll then all else Filter(all))
  }

  /** The walk does not depend on the fuel bound: any bound within which the chain ends gives the same exchanges. */
  lemma {:induction false} WalkFuel(server: Server, opt: ListOptions, f1: nat, f2: nat)
    requires Ends(server, opt, f1) && Ends(server, opt, f2)
    decreases f1
    ensures Walk(server, opt, f1) == Walk(server, opt, f2)
  {
    var resp := server(opt);
    if !resp.IsLast() {
      WalkFuel(server, NextRequest(opt, resp.nextPage), f1 - 1, f2 - 1);
    }
  }

  /** Nor does the listing. */
  lemma ListingFuel(server: Server, showAll: bool, f1: nat, f2: nat)
    requires Ends(server, QueryOptions(showAll), f1) && Ends(server, QueryOptions(showAll), f2)
    ensures Listing(server, showAll, f1) == Listing(server, showAll, f2)
  {
    WalkFuel(server, QueryOptions(showAll), f1, f2);
  }

  /**
   * `GitHubClient.ListRepositories`. Besides the listing it returns the
   * exchanges it had with the server, which the Go code does not expose.
   */
  method ListRepositories(server: Server, showAll: bool, ghost fuel: nat)
    returns (result: Result<seq<RepoRef>, ApiError>, trace: seq<Exchange>)
    requires Ends(server, QueryOptions(showAll), fuel)
    ensures trace == Walk(server, QueryOptions(showAll), fuel)
    ensures result == Listing(server, showAll, fuel)
  {
    var opt := QueryOptions(showAll);
    var fetched;
    fetched, trace := FetchAll(server, opt, fuel);
    if fetched.Err? {
      return Err(fetched.error), trace;
    }
    if !showAll {
      var filtered := FilterOwned(fetched.value);
      return Ok(filtered), trace;
    }
    return Ok(fetched.value), trace;
  }

  /** The page loop of `ListRepositories`: request pages from `opt` on until the server reports no next page. */
  method FetchAll(server: Server, opt: ListOptions, ghost fuel: nat)
    returns (result: Result<seq<RepoRef>, ApiError>, trace: seq<Exchange>)
    requires Ends(server, opt, fuel)
    ensures trace == Walk(server, opt, fuel)
    ensures result == Fetched(trace)
  {
    var request := opt;
    var allRepos: seq<RepoRef> := [];
    trace := [];
    ghost var left := fuel;
    while true
      invariant Ends(server, request, left)
      invariant trace + Walk(server, request, left) == Walk(server, opt, fuel)
      invariant allRepos == Concat(trace)
      decreases left
    {
      var resp := server(request);
      ghost var before := trace;
      trace := trace + [Exchange(request, resp)];
      assert trace[..|trace| - 1] == before;
      if resp.Failed? {
        return Err(resp.err), trace;
      }
      allRepos := allRepos + resp.repos;
      if resp.nextPage == 0 {
        return Ok(allRepos), trace;
      }
      request := NextRequest(request, resp.nextPage);
      left := left - 1;
    }
  }

  /** The filter loop of `ListRepositories`: keep the non-nil repositories that are neither archived nor forks. */
  method FilterOwned(all: seq<RepoRef>) returns (filtered: seq<RepoRef>)
    ensures filtered == Filter(all)
  {
    filtered := [];
    for i := 0 to |all|
      invariant filtered == Filter(all[..i])
    {
      assert all[..i + 1][..i] == all[..i];
      if all[i].Some? && !all[i].value.archived && !all[i].value.fork {
        filtered := filtered + [all[i]];
      }
    }
    assert all[..|all|] == all;
  }

  // Properties of the filter

  /** The filter keeps exactly the surviving repositories, each as often as it occurs in its input. */
  lemma {:induction false} FilterCounts(s: seq<RepoRef>, x: RepoRef)
    ensures multiset(Filter(s))[x] == if Kept(x) then multiset(s)[x] else 0
  {
    if s != [] {
      var init := s[..|s| - 1];
      FilterCounts(init, x);
      assert s == init + [s[|s| - 1]];
    }
  }

  /**
   * The filter's output is the subsequence of its input at the positions
   * `idx`, which increase, and which are exactly the positions of surviving
   * repositories: relative order is kept and nothing that survives is lost.
   */
  lemma {:induction false} FilterPositions(s: seq<RepoRef>) returns (idx: seq<nat>)
    ensures |idx| == |Filter(s)|
    ensures forall k :: 0 <= k < |idx| ==> idx[k] < |s| && Filter(s)[k] == s[idx[k]]
    ensures forall k, l :: 0 <= k < l < |idx| ==> idx[k] < idx[l]
    ensures forall j :: 0 <= j < |s| ==> (Kept(s[j]) <==> j in idx)
  {
    if s == [] {
      idx := [];
    } else {
      var n := |s| - 1;
      var init := s[..n];
      var prev := FilterPositions(init);
      if Kept(s[n]) {
        idx := prev + [n];
      } else {
        idx := prev;
      }
    }
  }

  /** The filter changes nothing exactly when every repository already survives it. */
  lemma {:induction false} FilterFixedPoint(s: seq<RepoRef>)
    ensures Filter(s) == s <==> forall i :: 0 <= i < |s| ==> Kept(s[i])
  {
    if s != [] && forall i :: 0 <= i < |s| ==> Kept(s[i]) {
      var init := s[..|s| - 1];
      FilterFixedPoint(init);
      assert s == init + [s[|s| - 1]];
    }
  }

  /** Filtering a filtered listing returns it unchanged. */
  lemma FilterIdempotent(s: seq<RepoRef>)
    ensures Filter(Filter(s)) == Filter(s)
  {
    FilterFixedPoint(Filter(s));
  }

  // Properties of the listing

  /** Every request of a walk carries the page size and affiliation of the first one; only the page number changes. */
  lemma {:induction false} RequestsKeepOptions(server: Server, opt: ListOptions, fuel: nat)
    requires Ends(server, opt, fuel)
    decreases fuel
    ensures var w := Walk(server, opt, fuel);
      forall i :: 0 <= i < |w| ==>
        w[i].request.perPage == opt.perPage && w[i].request.affiliation == opt.affiliation
  {
    var resp := server(opt);
    if !resp.IsLast() {
      var next := NextRequest(opt, resp.nextPage);
      RequestsKeepOptions(server, next, fuel - 1);
      var w := Walk(server, opt, fuel);
      assert w[1..] == Walk(server, next, fuel - 1);
    }
  }

  /**
   * Every list request asks for 100 repositories per page, the first asks
   * for no particular page, and the requests are scoped to owned
   * repositories exactly when not every repository is wanted.
   */
  lemma ListingQuery(server: Server, showAll: bool, fuel: nat)
    requires Ends(server, QueryOptions(showAll), fuel)
    ensures var w := Walk(server, QueryOptions(showAll), fuel);
      && w[0].request.page == 0
      && forall i :: 0 <= i < |w| ==>
           w[i].request.perPage == 100 && (w[i].request.affiliation == "owner" <==> !showAll)
  {
    RequestsKeepOptions(server, QueryOptions(showAll), fuel);
  }

  /** A first page with no successor means exactly one request, and the listing is that page (filtered unless every repository is wanted). */
  lemma SinglePage(server: Server, showAll: bool, repos: seq<RepoRef>, fuel: nat)
    requires server(QueryOptions(showAll)) == Page(repos, 0)
    requires Ends(server, QueryOptions(showAll), fuel)
    ensures |Walk(server, QueryOptions(showAll), fuel)| == 1
    ensures Listing(server, showAll, fuel) == Ok(if showAll then repos else Filter(repos))
  {
    var w := Walk(server, QueryOptions(showAll), fuel);
    assert w == [Exchange(QueryOptions(showAll), Page(repos, 0))];
    assert w[..0] == [];
    assert Concat(w) == Concat([]) + repos;
    assert Concat(w) == repos;
    assert Fetched(w) == Ok(repos);
  }

  /** A listing fails exactly when some page request fails, and then it returns that request's error and no repositories. */
  lemma ListingAllOrNothing(server: Server, showAll: bool, fuel: nat)
    requires Ends(server, QueryOptions(showAll), fuel)
    ensures var w := Walk(server, QueryOptions(showAll), fuel);
      && (Listing(server, showAll, fuel).Err? <==> exists i :: 0 <= i < |w| && w[i].response.Failed?)
      && forall i :: 0 <= i < |w| && w[i].response.Failed? ==> Listing(server, showAll, fuel) == Err(w[i].response.err)
  {
    WalkIsRequestChain(server, QueryOptions(showAll), fuel);
  }

  // Completeness of pagination against a server holding a fixed list of pages

  /** The repositories of `pages`, first page first. */
  function Flatten(pages: seq<seq<RepoRef>>): seq<RepoRef>
  {
    if pages == [] then [] else pages[0] + Flatten(pages[1..])
  }

  /** The page number a request asks for: the API reads "no page" (0) as page 1. */
  function PageNumber(opt: ListOptions): nat
  {
    if opt.page == 0 then 1 else opt.page
  }

  /** A server holding `pages`, numbered from 1; it names the following page as next, and 0 after the last. */
  function StubServer(pages: seq<seq<RepoRef>>): Server
  {
    (opt: ListOptions) =>
      var k := PageNumber(opt);
      if k <= |pages| then Page(pages[k - 1], if k < |pages| then k + 1 else 0)
      else Page([], 0)
  }

  lemma {:induction false} ConcatCons(e: Exchange, w: seq<Exchange>)
    ensures Concat([e] + w) == e.response.Repos() + Concat(w)
    decreases |w|
  {
    if w != [] {
      var init := w[..|w| - 1];
      ConcatCons(e, init);
      assert ([e] + w)[..|w|] == [e] + init;
    }
  }

  lemma {:induction false} StubWalk(pages: seq<seq<RepoRef>>, opt: ListOptions, fuel: nat)
    requires 1 <= PageNumber(opt) <= |pages| || (pages == [] && PageNumber(opt) == 1)
    requires fuel >= 1 && fuel + PageNumber(opt) >= |pages| + 1
    decreases fuel
    ensures Ends(StubServer(pages), opt, fuel)
    ensures |Walk(StubServer(pages), opt, fuel)| == if pages == [] then 1 else |pages| + 1 - PageNumber(opt)
    ensures Fetched(Walk(StubServer(pages), opt, fuel)) == Ok(Flatten(pages[PageNumber(opt) - 1..]))
  {
    var server := StubServer(pages);
    var k := PageNumber(opt);
    var resp := server(opt);
    var e := Exchange(opt, resp);
    if pages == [] || k == |pages| {
      assert Walk(server, opt, fuel) == [e];
      assert [e][..0] == [];
      assert Concat([e]) == Concat([]) + resp.Repos();
      if pages != [] {
        assert resp.Repos() == pages[k - 1];
        assert pages[k - 1..] == [pages[k - 1]] + pages[k..];
        assert pages[k..] == [];
        assert Flatten(pages[k - 1..]) == pages[k - 1];
      }
      assert Concat([e]) == resp.Repos();
      assert Fetched([e]) == Ok(resp.Repos());
    } else {
      var next := NextRequest(opt, k + 1);
      StubWalk(pages, next, fuel - 1);
      var rest := Walk(server, next, fuel - 1);
      assert Walk(server, opt, fuel) == [e] + rest;
      ConcatCons(e, rest);
      assert pages[k - 1..] == [pages[k - 1]] + pages[k..];
    }
  }

  /**
   * Against a server holding any number of pages (none included), the
   * listing of every repository makes one request per page (at least one)
   * and returns the concatenation of all pages in server order.
   */
  lemma PaginationComplete(pages: seq<seq<RepoRef>>)
    ensures Ends(StubServer(pages), QueryOptions(true), |pages| + 1)
    ensures |Walk(StubServer(pages), QueryOptions(true), |pages| + 1)| == if pages == [] then 1 else |pages|
    ensures Listing(StubServer(pages), true, |pages| + 1) == Ok(Flatten(pages))
  {
    StubWalk(pages, QueryOptions(true), |pages| + 1);
    assert pages[0..] == pages;
  }

  /** The same holds for a listing made with any fuel bound within which the stub's chain ends. */
  lemma PaginationCompleteAnyFuel(pages: seq<seq<RepoRef>>, fuel: nat)
    requires Ends(StubServer(pages), QueryOptions(true), fuel)
    ensures |Walk(StubServer(pages), QueryOptions(true), fuel)| == if pages == [] then 1 else |pages|
    ensures Listing(StubServer(pages), true, fuel) == Ok(Flatten(pages))
  {
    PaginationComplete(pages);
    WalkFuel(StubServer(pages), QueryOptions(true), fuel, |pages| + 1);
  }
}
