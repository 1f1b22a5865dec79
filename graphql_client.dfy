/** GraphQLAPIClient: the checks on each GraphQL response, the cursor
    pagination over securityVulnerabilities, and the grouping of the
    returned nodes into one GitHubAdvisory per primary id. The HTTP
    transport is an oracle `fetch` from the `after` cursor of a request to
    its response. */
module GraphQLClient {
  import opened Values
  import opened Text
  import opened Advisories

  const GitHubApiUrl := "https://api.github.com/graphql"

  datatype PageInfo = PageInfo(hasNextPage: bool, endCursor: Option<string>)

  /** `data.securityVulnerabilities` of a response. */
  datatype Page = Page(nodes: seq<Node>, pageInfo: PageInfo)

  /** A response: HTTP status, raw body, and the parsed body's `errors`
      (each with an optional `message`) and `data`. */
  datatype Response = Response(status: int, body: string, errors: Option<seq<Option<string>>>, data: Page)

  /** `e["message"]` of each error; Array#join writes nil as "". */
  function ErrorMessages(errors: seq<Option<string>>): (ms: seq<string>)
    ensures |ms| == |errors|
    ensures forall i :: 0 <= i < |ms| ==> ms[i] == (if errors[i].Some? then errors[i].value else "")
  {
    seq(|errors|, i requires 0 <= i < |errors| => if errors[i].Some? then errors[i].value else "")
  }

  /** The checks of github_graphql_query: a status other than 200 raises
      with the URL and body; an `errors` list, even an empty one, raises
      with the messages joined by ", "; otherwise the body is returned. */
  function QueryResult(r: Response): Result<Page, Error> {
    if r.status != 200 then
      Failure(GitHubGraphQLAPIError("GitHub GraphQL request to " + GitHubApiUrl + " failed: " + r.body))
    else if r.errors.Some? then
      Failure(GitHubGraphQLAPIError(Join(ErrorMessages(r.errors.value), ", ")))
    else
      Success(r.data)
  }

  lemma QueryResultCases(r: Response)
    ensures QueryResult(r).Success? <==> r.status == 200 && r.errors.None?
    ensures QueryResult(r).Success? ==> QueryResult(r).value == r.data
    ensures r.status != 200 ==>
            QueryResult(r) == Failure(GitHubGraphQLAPIError("GitHub GraphQL request to " + GitHubApiUrl + " failed: " + r.body))
    ensures r.status == 200 && r.errors.Some? ==>
            QueryResult(r) == Failure(GitHubGraphQLAPIError(Join(ErrorMessages(r.errors.value), ", ")))
    ensures r.status == 200 && r.errors == Some([]) ==> QueryResult(r) == Failure(GitHubGraphQLAPIError(""))
    ensures r.status == 200 && r.errors == Some([Some("a"), Some("b")]) ==>
            QueryResult(r) == Failure(GitHubGraphQLAPIError("a, b"))
  {
    if r.status == 200 && r.errors == Some([Some("a"), Some("b")]) {
      var ms := ErrorMessages([Some("a"), Some("b")]);
      assert ms[0] == "a" && ms[1] == "b";
      assert ms == ["a", "b"];
      assert ms[1..] == ["b"];
      assert Join(ms, ", ") == "a" + ", " + "b" == "a, b";
    }
  }

  // ---------------------------------------------------------------------
  // Pagination

  function Prepend(nodes: seq<Node>, r: Result<seq<Node>, Error>): Result<seq<Node>, Error> {
    if r.Success? then Success(nodes + r.value) else r
  }

  /** The result of retrieve_all_rubygem_vulnerabilities when at most
      `pages` more requests may be made and the next one sends `after`. */
  function FetchPages(fetch: Option<string> -> Response, pages: nat, after: Option<string>): Result<seq<Node>, Error>
    decreases pages
  {
    if pages == 0 then Success([])
    else
      var page := QueryResult(fetch(after));
      if page.Failure? then Failure(page.error)
      else if !page.value.pageInfo.hasNextPage then Success(page.value.nodes)
      else Prepend(page.value.nodes, FetchPages(fetch, pages - 1, page.value.pageInfo.endCursor))
  }

  /** The `after` cursor of every request that FetchPages makes, in order. */
  function Requests(fetch: Option<string> -> Response, pages: nat, after: Option<string>): seq<Option<string>>
    decreases pages
  {
    if pages == 0 then []
    else
      var page := QueryResult(fetch(after));
      if page.Failure? || !page.value.pageInfo.hasNextPage then [after]
      else [after] + Requests(fetch, pages - 1, page.value.pageInfo.endCursor)
  }

  /** The nodes of the pages answered to the `after` cursors in `cursors`. */
  function PageNodes(fetch: Option<string> -> Response, cursors: seq<Option<string>>): Result<seq<Node>, Error> {
    if cursors == [] then Success([])
    else
      var page := QueryResult(fetch(cursors[0]));
      if page.Failure? then Failure(page.error)
      else Prepend(page.value.nodes, PageNodes(fetch, cursors[1..]))
  }

  lemma PrependNothing(r: Result<seq<Node>, Error>)
    ensures Prepend([], r) == r
  {
    if r.Success? {
      assert [] + r.value == r.value;
    }
  }

  lemma PrependTwice(a: seq<Node>, b: seq<Node>, r: Result<seq<Node>, Error>)
    ensures Prepend(a, Prepend(b, r)) == Prepend(a + b, r)
  {
    if r.Success? {
      assert a + (b + r.value) == (a + b) + r.value;
    }
  }

  /** retrieve_all_rubygem_vulnerabilities: request page after page,
      appending each page's nodes, until a page says it has no next page or
      `maxPages` requests were made. */
  method RetrieveAllVulnerabilities(fetch: Option<string> -> Response, maxPages: nat)
    returns (r: Result<seq<Node>, Error>)
    ensures r == FetchPages(fetch, maxPages, None)
  {
    var all: seq<Node> := [];
    var after: Option<string> := None;
    PrependNothing(FetchPages(fetch, maxPages, None));
    var i := 0;
    while i < maxPages
      invariant 0 <= i <= maxPages
      invariant FetchPages(fetch, maxPages, None) == Prepend(all, FetchPages(fetch, maxPages - i, after))
    {
      FetchPagesStep(fetch, maxPages - i, after);
      var page := QueryResult(fetch(after));
      if page.Failure? {
        r := Failure(page.error);
        return;
      }
      PrependTwice(all, page.value.nodes, FetchPages(fetch, maxPages - i - 1, page.value.pageInfo.endCursor));
      all := all + page.value.nodes;
      if !page.value.pageInfo.hasNextPage {
        r := Success(all);
        return;
      }
      after := page.value.pageInfo.endCursor;
      i := i + 1;
    }
    assert all + [] == all;
    r := Success(all);
  }

  /** One request of the pagination: its failure, its last page, or its
      nodes before those of the remaining requests. */
  lemma FetchPagesStep(fetch: Option<string> -> Response, pages: nat, after: Option<string>)
    requires pages > 0
    ensures var page := QueryResult(fetch(after));
            && (page.Failure? ==> FetchPages(fetch, pages, after) == Failure(page.error))
            && (page.Success? && !page.value.pageInfo.hasNextPage ==>
                  FetchPages(fetch, pages, after) == Success(page.value.nodes))
            && (page.Success? && page.value.pageInfo.hasNextPage ==>
                  FetchPages(fetch, pages, after) ==
                    Prepend(page.value.nodes, FetchPages(fetch, pages - 1, page.value.pageInfo.endCursor)))
  {
  }

  /** At most `pages` requests are made, the first one with the given cursor. */
  lemma {:induction false} RequestsBounded(fetch: Option<string> -> Response, pages: nat, after: Option<string>)
    ensures |Requests(fetch, pages, after)| <= pages
    ensures pages > 0 ==> |Requests(fetch, pages, after)| > 0 && Requests(fetch, pages, after)[0] == after
  {
    if pages > 0 {
      var page := QueryResult(fetch(after));
      if page.Success? && page.value.pageInfo.hasNextPage {
        RequestsBounded(fetch, pages - 1, page.value.pageInfo.endCursor);
      }
    }
  }

  /** Every request but the last got a page that announced a next page, and
      the following request sends that page's end cursor. */
  lemma {:induction false} RequestsFollowCursor(fetch: Option<string> -> Response, pages: nat, after: Option<string>, k: nat)
    requires k + 1 < |Requests(fetch, pages, after)|
    ensures var cs := Requests(fetch, pages, after);
            var page := QueryResult(fetch(cs[k]));
            page.Success? && page.value.pageInfo.hasNextPage && cs[k + 1] == page.value.pageInfo.endCursor
  {
    var page := QueryResult(fetch(after));
    var next := page.value.pageInfo.endCursor;
    RequestsBounded(fetch, pages - 1, next);
    if k > 0 {
      RequestsFollowCursor(fetch, pages - 1, next, k - 1);
    }
  }

  /** The result is the in-order concatenation of the nodes of exactly the
      pages requested; it fails exactly when the last request failed; and
      when fewer than `pages` requests were made the last page said it had
      no next page. */
  lemma {:induction false} FetchPagesIsConcatenation(fetch: Option<string> -> Response, pages: nat, after: Option<string>)
    ensures FetchPages(fetch, pages, after) == PageNodes(fetch, Requests(fetch, pages, after))
    ensures var cs := Requests(fetch, pages, after);
            FetchPages(fetch, pages, after).Failure? <==> cs != [] && QueryResult(fetch(cs[|cs| - 1])).Failure?
    ensures var cs := Requests(fetch, pages, after);
            cs != [] && |cs| < pages && FetchPages(fetch, pages, after).Success? ==>
              QueryResult(fetch(cs[|cs| - 1])).Success? && !QueryResult(fetch(cs[|cs| - 1])).value.pageInfo.hasNextPage
  {
    if pages > 0 {
      var page := QueryResult(fetch(after));
      var cs := Requests(fetch, pages, after);
      if page.Success? && page.value.pageInfo.hasNextPage {
        var next := page.value.pageInfo.endCursor;
        var rest := Requests(fetch, pages - 1, next);
        FetchPagesIsConcatenation(fetch, pages - 1, next);
        RequestsBounded(fetch, pages - 1, next);
        assert cs == [after] + rest && cs[1..] == rest;
        if pages - 1 > 0 {
          assert cs[|cs| - 1] == rest[|rest| - 1];
        }
      } else {
        assert cs == [after] && cs[1..] == [];
        if page.Success? {
          assert page.value.nodes + [] == page.value.nodes;
        }
      }
    }
  }

  // ---------------------------------------------------------------------
  // Aggregation

  /** The `advisories` hash of all_rubygem_advisories: the primary ids in
      insertion order and the GitHubAdvisory stored under each. */
  datatype AdvisoryIndex = AdvisoryIndex(ids: seq<string>, byId: map<string, Advisory>)

  predicate Live(n: Node) {
    !Withdrawn(n.advisory)
  }

  /** One iteration of all_rubygem_advisories: skip a withdrawn node,
      otherwise store a new advisory under the primary id if none is there
      and append the node without its `advisory` key to the stored one. */
  function AddNode(index: AdvisoryIndex, n: Node): Result<AdvisoryIndex, Error> {
    if !Live(n) then Success(index)
    else if PrimaryId(n.advisory).None? then Failure(NoMethodError("ghsa_id"))
    else
      var id := PrimaryId(n.advisory).value;
      var adv := if id in index.byId then index.byId[id] else Advisory(n.advisory, []);
      Success(AdvisoryIndex(
        if id in index.byId then index.ids else index.ids + [id],
        index.byId[id := adv.(vulnerabilities := adv.vulnerabilities + [n.vulnerability])]))
  }

  predicate WellFormed(index: AdvisoryIndex) {
    NoDuplicates(index.ids) && index.byId.Keys == set id | id in index.ids
  }

  /** The `advisories` hash after all of `nodes`. */
  function IndexNodes(nodes: seq<Node>): (r: Result<AdvisoryIndex, Error>)
    ensures r.Success? ==> WellFormed(r.value)
    ensures r.Failure? ==> r.error == NoMethodError("ghsa_id")
  {
    if nodes == [] then Success(AdvisoryIndex([], map[]))
    else
      var prev := IndexNodes(nodes[..|nodes| - 1]);
      if prev.Failure? then prev else AddNode(prev.value, nodes[|nodes| - 1])
  }

  /** Hash#values: the stored advisories in order of insertion. */
  function IndexValues(index: AdvisoryIndex): (vs: seq<Advisory>)
    requires WellFormed(index)
    ensures |vs| == |index.ids|
    ensures forall i :: 0 <= i < |vs| ==> vs[i] == index.byId[index.ids[i]]
  {
    seq(|index.ids|, i requires 0 <= i < |index.ids| => index.byId[index.ids[i]])
  }

  /** The result of all_rubygem_advisories on the retrieved nodes. */
  function Aggregate(nodes: seq<Node>): Result<seq<Advisory>, Error> {
    var index := IndexNodes(nodes);
    if index.Failure? then Failure(index.error) else Success(IndexValues(index.value))
  }

  lemma {:induction false} IndexNodesFailureStays(nodes: seq<Node>, k: nat)
    requires k <= |nodes| && IndexNodes(nodes[..k]).Failure?
    ensures IndexNodes(nodes).Failure?
    decreases |nodes| - k
  {
    if k < |nodes| {
      assert nodes[..k + 1][..k] == nodes[..k];
      IndexNodesFailureStays(nodes, k + 1);
    } else {
      assert nodes[..k] == nodes;
    }
  }

  /** The default `max_pages` of retrieve_all_rubygem_vulnerabilities. */
  const MaxPages: nat := 1000

  /** all_rubygem_advisories: the advisories of every node retrieved with
      the default page limit. */
  function AllAdvisories(fetch: Option<string> -> Response): Result<seq<Advisory>, Error> {
    var nodes := FetchPages(fetch, MaxPages, None);
    if nodes.Failure? then Failure(nodes.error) else Aggregate(nodes.value)
  }

  /** all_rubygem_advisories: retrieve the nodes, then file each live node
      under its primary id, creating the advisory on first sight. */
  method AllRubygemAdvisories(fetch: Option<string> -> Response) returns (r: Result<seq<Advisory>, Error>)
    ensures r == AllAdvisories(fetch)
  {
    var retrieved := RetrieveAllVulnerabilities(fetch, MaxPages);
    if retrieved.Failure? {
      r := Failure(retrieved.error);
      return;
    }
    var nodes := retrieved.value;
    var ids: seq<string> := [];
    var byId: map<string, Advisory> := map[];
    var i := 0;
    while i < |nodes|
      invariant 0 <= i <= |nodes|
      invariant IndexNodes(nodes[..i]) == Success(AdvisoryIndex(ids, byId))
    {
      assert nodes[..i + 1][..i] == nodes[..i];
      var n := nodes[i];
      if Live(n) {
        var id := PrimaryId(n.advisory);
        if id.None? {
          IndexNodesFailureStays(nodes, i + 1);
          r := Failure(NoMethodError("ghsa_id"));
          return;
        }
        var known := id.value in byId;
        var adv := if known then byId[id.value] else Advisory(n.advisory, []);
        if !known {
          ids := ids + [id.value];
        }
        byId := byId[id.value := adv.(vulnerabilities := adv.vulnerabilities + [n.vulnerability])];
      }
      i := i + 1;
    }
    assert nodes[..|nodes|] == nodes;
    r := Success(IndexValues(AdvisoryIndex(ids, byId)));
  }

  /** Every live node has a primary id (otherwise the source raises). */
  predicate Identified(nodes: seq<Node>) {
    forall i :: 0 <= i < |nodes| && Live(nodes[i]) ==> PrimaryId(nodes[i].advisory).Some?
  }

  predicate LiveWithId(n: Node, id: string) {
    Live(n) && PrimaryId(n.advisory) == Some(id)
  }

  /** The primary ids of the live nodes, in order, repeats included. */
  function LiveIds(nodes: seq<Node>): seq<string> {
    if nodes == [] then []
    else
      var n := nodes[|nodes| - 1];
      LiveIds(nodes[..|nodes| - 1]) + (if Live(n) && PrimaryId(n.advisory).Some? then [PrimaryId(n.advisory).value] else [])
  }

  /** The live nodes with primary id `id`, without their `advisory` key, in order. */
  function VulnerabilitiesWithId(nodes: seq<Node>, id: string): seq<Vulnerability> {
    if nodes == [] then []
    else
      var n := nodes[|nodes| - 1];
      VulnerabilitiesWithId(nodes[..|nodes| - 1], id) + (if LiveWithId(n, id) then [n.vulnerability] else [])
  }

  /** Node `i` is the first live node with primary id `id`. */
  predicate FirstWithId(nodes: seq<Node>, id: string, i: int) {
    0 <= i < |nodes| && LiveWithId(nodes[i], id) && forall j :: 0 <= j < i ==> !LiveWithId(nodes[j], id)
  }

  lemma {:induction false} LiveIdsMembership(nodes: seq<Node>, id: string)
    ensures id in LiveIds(nodes) <==> exists j :: 0 <= j < |nodes| && LiveWithId(nodes[j], id)
  {
    if nodes != [] {
      var pre := nodes[..|nodes| - 1];
      var n := nodes[|nodes| - 1];
      LiveIdsMembership(pre, id);
      var tail := if Live(n) && PrimaryId(n.advisory).Some? then [PrimaryId(n.advisory).value] else [];
      assert LiveIds(nodes) == LiveIds(pre) + tail;
      assert id in tail <==> LiveWithId(n, id);
      assert id in LiveIds(nodes) <==> id in LiveIds(pre) || LiveWithId(n, id);
      if LiveWithId(n, id) {
        assert LiveWithId(nodes[|nodes| - 1], id);
      } else if id in LiveIds(pre) {
        var j :| 0 <= j < |pre| && LiveWithId(pre[j], id);
        assert nodes[j] == pre[j];
      } else {
        forall j | 0 <= j < |nodes| ensures !LiveWithId(nodes[j], id) {
          if j < |pre| { assert nodes[j] == pre[j]; }
        }
      }
    }
  }

  lemma {:induction false} NoVulnerabilitiesWithoutId(nodes: seq<Node>, id: string)
    requires id !in LiveIds(nodes)
    ensures VulnerabilitiesWithId(nodes, id) == []
  {
    if nodes != [] {
      NoVulnerabilitiesWithoutId(nodes[..|nodes| - 1], id);
    }
  }

  /** The aggregation fails exactly when some live node has no primary id. */
  lemma {:induction false} IndexNodesSucceeds(nodes: seq<Node>)
    ensures IndexNodes(nodes).Success? <==> Identified(nodes)
  {
    if nodes != [] {
      var pre := nodes[..|nodes| - 1];
      var n := nodes[|nodes| - 1];
      IndexNodesSucceeds(pre);
      if Identified(pre) && (Live(n) ==> PrimaryId(n.advisory).Some?) {
        forall i | 0 <= i < |nodes| && Live(nodes[i]) ensures PrimaryId(nodes[i].advisory).Some? {
          if i < |pre| { assert nodes[i] == pre[i]; }
        }
      }
      if Identified(nodes) {
        forall i | 0 <= i < |pre| && Live(pre[i]) ensures PrimaryId(pre[i].advisory).Some? {
          assert nodes[i] == pre[i];
        }
      }
    }
  }

  /** The ids are the primary ids of the live nodes, each once, in order of
      first appearance. */
  lemma {:induction false} IndexNodesIds(nodes: seq<Node>)
    requires IndexNodes(nodes).Success?
    ensures IndexNodes(nodes).value.ids == Dedup(LiveIds(nodes))
  {
    if nodes != [] {
      var pre := nodes[..|nodes| - 1];
      var n := nodes[|nodes| - 1];
      IndexNodesIds(pre);
      var before := IndexNodes(pre).value;
      assert IndexNodes(nodes) == AddNode(before, n);
      var l := LiveIds(pre);
      if Live(n) {
        var nid := PrimaryId(n.advisory).value;
        assert LiveIds(nodes) == l + [nid];
        assert (l + [nid])[..|l|] == l;
        assert Dedup(l + [nid]) == if nid in Dedup(l) then Dedup(l) else Dedup(l) + [nid];
        assert nid in before.byId <==> nid in before.ids;
      } else {
        assert LiveIds(nodes) == l;
      }
    }
  }

  /** The vulnerabilities stored under an id are those of the live nodes
      with that id, in order. */
  lemma {:induction false} IndexNodesVulnerabilities(nodes: seq<Node>, id: string)
    requires IndexNodes(nodes).Success? && id in IndexNodes(nodes).value.byId
    ensures IndexNodes(nodes).value.byId[id].vulnerabilities == VulnerabilitiesWithId(nodes, id)
  {
    var pre := nodes[..|nodes| - 1];
    var n := nodes[|nodes| - 1];
    var before := IndexNodes(pre).value;
    if id in before.byId {
      IndexNodesVulnerabilities(pre, id);
    } else {
      IndexNodesIds(pre);
      NoVulnerabilitiesWithoutId(pre, id);
    }
  }

  /** The advisory object stored under an id is that of the first live node
      with the id. */
  lemma {:induction false} IndexNodesFirstAdvisory(nodes: seq<Node>, id: string)
    requires IndexNodes(nodes).Success? && id in IndexNodes(nodes).value.byId
    ensures exists i :: FirstWithId(nodes, id, i) && IndexNodes(nodes).value.byId[id].advisory == nodes[i].advisory
  {
    var pre := nodes[..|nodes| - 1];
    var n := nodes[|nodes| - 1];
    var before := IndexNodes(pre).value;
    if id in before.byId {
      IndexNodesFirstAdvisory(pre, id);
      var i :| FirstWithId(pre, id, i) && before.byId[id].advisory == pre[i].advisory;
      assert nodes[i] == pre[i];
      forall j | 0 <= j < i ensures !LiveWithId(nodes[j], id) {
        assert nodes[j] == pre[j];
      }
      assert FirstWithId(nodes, id, i);
    } else {
      IndexNodesIds(pre);
      LiveIdsMembership(pre, id);
      forall j | 0 <= j < |pre| ensures !LiveWithId(nodes[j], id) {
        assert nodes[j] == pre[j];
      }
      assert FirstWithId(nodes, id, |pre|);
    }
  }

  /** Every advisory has a primary id, and no two share one. */
  predicate DistinctIds(advs: seq<Advisory>) {
    && (forall i :: 0 <= i < |advs| ==> PrimaryId(advs[i].advisory).Some?)
    && (forall i, j :: 0 <= i < j < |advs| ==> PrimaryId(advs[i].advisory) != PrimaryId(advs[j].advisory))
  }

  /** Each aggregated advisory carries the primary id it is stored under, so
      the advisories of all_rubygem_advisories have distinct primary ids. */
  lemma {:induction false} AggregateIdsDistinct(nodes: seq<Node>)
    requires Aggregate(nodes).Success?
    ensures var index := IndexNodes(nodes).value;
            forall i :: 0 <= i < |index.ids| ==> PrimaryId(Aggregate(nodes).value[i].advisory) == Some(index.ids[i])
    ensures DistinctIds(Aggregate(nodes).value)
  {
    var index := IndexNodes(nodes).value;
    var vs := Aggregate(nodes).value;
    forall i | 0 <= i < |index.ids| ensures PrimaryId(vs[i].advisory) == Some(index.ids[i]) {
      var id := index.ids[i];
      assert id in index.byId;
      IndexNodesFirstAdvisory(nodes, id);
    }
  }

  lemma AllAdvisoriesDistinctIds(fetch: Option<string> -> Response)
    requires AllAdvisories(fetch).Success?
    ensures DistinctIds(AllAdvisories(fetch).value)
  {
    AggregateIdsDistinct(FetchPages(fetch, MaxPages, None).value);
  }

  /** Nodes that all carry the primary id `id`, none withdrawn, aggregate to
      a single advisory holding the first node's advisory object and one
      vulnerability per node. */
  lemma SameIdAggregatesToOne(nodes: seq<Node>, id: string)
    requires nodes != []
    requires forall i :: 0 <= i < |nodes| ==> LiveWithId(nodes[i], id)
    ensures Aggregate(nodes).Success?
    ensures var advs := Aggregate(nodes).value;
            |advs| == 1 && advs[0].advisory == nodes[0].advisory &&
            advs[0].vulnerabilities == seq(|nodes|, i requires 0 <= i < |nodes| => nodes[i].vulnerability)
  {
    IndexNodesSucceeds(nodes);
    var index := IndexNodes(nodes).value;
    assert index.ids == [id] by {
      IndexNodesIds(nodes);
      SameIdLive(nodes, id);
      LiveIdsMembership(nodes, id);
      assert LiveWithId(nodes[0], id);
      DedupOfOneValue(LiveIds(nodes), id);
    }
    assert id in index.byId;
    IndexNodesVulnerabilities(nodes, id);
    SameIdLive(nodes, id);
    IndexNodesFirstAdvisory(nodes, id);
    var i :| FirstWithId(nodes, id, i) && index.byId[id].advisory == nodes[i].advisory;
    assert i == 0 by {
      assert LiveWithId(nodes[0], id);
    }
  }

  lemma FirstTwoMembers(d: seq<string>)
    requires |d| > 1
    ensures d[0] in d && d[1] in d
  {
  }

  lemma DedupOfOneValue(s: seq<string>, x: string)
    requires x in s && forall y :: y in s ==> y == x
    ensures Dedup(s) == [x]
  {
    var d := Dedup(s);
    assert d[0] in d;
    if |d| > 1 {
      FirstTwoMembers(d);
      assert false;
    }
  }

  lemma SameIdLive(nodes: seq<Node>, id: string)
    requires forall i :: 0 <= i < |nodes| ==> LiveWithId(nodes[i], id)
    ensures forall x :: x in LiveIds(nodes) ==> x == id
    ensures VulnerabilitiesWithId(nodes, id) == seq(|nodes|, i requires 0 <= i < |nodes| => nodes[i].vulnerability)
  {
    SameIdLiveIds(nodes, id);
    SameIdVulnerabilities(nodes, id);
  }

  lemma {:induction false} SameIdLiveIds(nodes: seq<Node>, id: string)
    requires forall i :: 0 <= i < |nodes| ==> LiveWithId(nodes[i], id)
    ensures forall x :: x in LiveIds(nodes) ==> x == id
  {
    if nodes != [] {
      var pre := nodes[..|nodes| - 1];
      forall i | 0 <= i < |pre| ensures LiveWithId(pre[i], id) {
        assert pre[i] == nodes[i];
      }
      SameIdLiveIds(pre, id);
      assert LiveWithId(nodes[|nodes| - 1], id);
    }
  }

  lemma {:induction false} SameIdVulnerabilities(nodes: seq<Node>, id: string)
    requires forall i :: 0 <= i < |nodes| ==> LiveWithId(nodes[i], id)
    ensures VulnerabilitiesWithId(nodes, id) == seq(|nodes|, i requires 0 <= i < |nodes| => nodes[i].vulnerability)
  {
    if nodes != [] {
      var pre := nodes[..|nodes| - 1];
      forall i | 0 <= i < |pre| ensures LiveWithId(pre[i], id) {
        assert pre[i] == nodes[i];
      }
      SameIdVulnerabilities(pre, id);
      assert LiveWithId(nodes[|nodes| - 1], id);
      var all := seq(|nodes|, i requires 0 <= i < |nodes| => nodes[i].vulnerability);
      var front := seq(|pre|, i requires 0 <= i < |pre| => pre[i].vulnerability);
      assert all == front + [nodes[|nodes| - 1].vulnerability];
    }
  }
}
