/**
 * Building the tree from the full listing of the drive (fetchFresh of
 * node/tree.go:180-252 and client/nodetree/nodetree.go:144-216), and the
 * start-up sequences that combine the cache, the listing and the change
 * feed: loadOrFetch (node/tree.go:156-178) and loadOrRefresh
 * (client/nodetree/nodetree.go:77-106).
 *
 * Go visits the entries of a map in an unspecified order, and fetchFresh
 * links children and picks the root while visiting the index. The order is
 * a parameter here, any enumeration of the index; the properties proved
 * about the children and, for a single candidate, the root hold for every
 * order.
 */
module Fetch {
  import opened Errors
  import opened Nodes
  import opened Trees
  import Response
  import Sync
  import CoarseSync
  import Mutations

  // ---------------------------------------------------------------------
  // The listing

  /** One page request of the listing: failed at some step, or decoded into a page. */
  datatype PageExchange =
    | PageBadURL
    | PageRequestFailed
    | PageTransportFailed
    | PageUndecodable
    | Page(nextToken: string, nodes: seq<Node>)

  /** The listing: all the nodes, a failure, or a service that never stops handing out tokens. */
  datatype Listing = Listed(nodes: seq<Node>) | ListFailed(error: Error) | Unending

  function PageError(x: PageExchange): Error
    requires !x.Page?
  {
    match x
    case PageBadURL => ParsingURL
    case PageRequestFailed => CreatingHTTPRequest
    case PageTransportFailed => DoingHTTPRequest
    case PageUndecodable => JSONDecodingResponseBody
  }

  /** The index of the first page with no next token, if any. */
  predicate LastPageAt(pages: seq<PageExchange>, k: int) {
    0 <= k < |pages| && pages[k].Page? && pages[k].nextToken == ""
    && forall j :: 0 <= j < k ==> pages[j].Page? && pages[j].nextToken != ""
  }

  function Concat(pages: seq<PageExchange>): seq<Node>
    requires forall j :: 0 <= j < |pages| ==> pages[j].Page?
  {
    if |pages| == 0 then [] else pages[0].nodes + Concat(pages[1..])
  }

  /**
   * The paging loop of fetchFresh (node/tree.go:184-226): pages are asked
   * for in turn, their nodes appended, until a page comes without a next
   * token; the first failure ends the listing with its error. The status
   * of the answers is not looked at. Running out of pages stands for the
   * service handing out tokens for ever, which the program follows.
   */
  function Collect(pages: seq<PageExchange>): (r: Listing)
    ensures r.Listed? <==> exists k :: LastPageAt(pages, k)
    ensures forall k :: LastPageAt(pages, k) ==> r == Listed(Concat(pages[..k + 1]))
    ensures r.ListFailed? ==> exists k :: 0 <= k < |pages| && !pages[k].Page? && r.error == PageError(pages[k])
    ensures r.Unending? ==> forall j :: 0 <= j < |pages| ==> pages[j].Page? && pages[j].nextToken != ""
    decreases |pages|
  {
    if |pages| == 0 then Unending
    else match pages[0]
      case Page(token, nodes) =>
        if token == "" then
          assert pages[..1][1..] == [];
          assert LastPageAt(pages, 0);
          Listed(nodes)
        else
          var rest := Collect(pages[1..]);
          LastPageShift(pages);
          (match rest
            case Listed(more) =>
              var k :| LastPageAt(pages[1..], k);
              assert LastPageAt(pages, k + 1);
              assert pages[..k + 2][1..] == pages[1..][..k + 1];
              Listed(nodes + more)
            case ListFailed(e) =>
              var k :| 0 <= k < |pages[1..]| && !pages[1..][k].Page? && e == PageError(pages[1..][k]);
              assert pages[k + 1] == pages[1..][k];
              ListFailed(e)
            case Unending =>
              assert forall j :: 0 < j < |pages| ==> pages[j] == pages[1..][j - 1];
              Unending)
      case _ => ListFailed(PageError(pages[0]))
  }

  lemma LastPageShift(pages: seq<PageExchange>)
    requires |pages| > 0 && pages[0].Page? && pages[0].nextToken != ""
    ensures forall k :: LastPageAt(pages, k) <==> k > 0 && LastPageAt(pages[1..], k - 1)
  {
    forall k | LastPageAt(pages, k)
      ensures k > 0 && LastPageAt(pages[1..], k - 1)
    {
      assert k > 0;
      forall j | 0 <= j < k - 1
        ensures pages[1..][j].Page? && pages[1..][j].nextToken != ""
      {
        assert pages[1..][j] == pages[j + 1];
      }
    }
    forall k | k > 0 && LastPageAt(pages[1..], k - 1)
      ensures LastPageAt(pages, k)
    {
      forall j | 0 <= j < k
        ensures pages[j].Page? && pages[j].nextToken != ""
      {
        if j > 0 {
          assert pages[j] == pages[1..][j - 1];
        }
      }
    }
  }

  // ---------------------------------------------------------------------
  // The index and the graph

  /**
   * The index of fetchFresh (node/tree.go:228-235): the AVAILABLE nodes of
   * the listing by ID, a later node with the same ID replacing an earlier
   * one.
   */
  function IndexAvailable(ns: seq<Node>): (m: map<ID, Node>)
    ensures forall k :: k in m ==> m[k].id == k && Available(m[k])
    ensures forall i :: 0 <= i < |ns| && Available(ns[i]) ==> ns[i].id in m
    ensures forall k :: k in m ==> m[k] in ns
    decreases |ns|
  {
    if |ns| == 0 then map[]
    else
      var init := ns[..|ns| - 1];
      var last := ns[|ns| - 1];
      var m := IndexAvailable(init);
      assert forall i :: 0 <= i < |init| ==> init[i] == ns[i];
      if Available(last) then m[last.id := last] else m
  }

  /** A later available node with the same ID replaces an earlier one: the record kept is the last. */
  lemma {:induction false} IndexAvailableLast(ns: seq<Node>, i: nat)
    requires i < |ns| && Available(ns[i])
    requires forall j :: i < j < |ns| ==> !(ns[j].id == ns[i].id && Available(ns[j]))
    ensures IndexAvailable(ns)[ns[i].id] == ns[i]
    decreases |ns|
  {
    if i < |ns| - 1 {
      var init := ns[..|ns| - 1];
      assert init[i] == ns[i];
      IndexAvailableLast(init, i);
    }
  }

  /** The root of a listing: a folder with no name and no parents. */
  predicate Candidate(n: Node) {
    n.name == "" && IsDir(n) && |n.parents| == 0
  }

  /** An order in which the index may be visited: each ID exactly once. */
  predicate Enumerates(order: seq<ID>, keys: set<ID>) {
    Sync.NoDup(order) && (forall i :: 0 <= i < |order| ==> order[i] in keys) && (forall k :: k in keys ==> k in order)
  }

  /** The last candidate in the order of the visit, which is the one left as root. */
  function LastCandidate(order: seq<ID>, m: map<ID, Node>): (r: Option<ID>)
    requires forall i :: 0 <= i < |order| ==> order[i] in m
    ensures r.Some? ==> r.value in order && Candidate(m[r.value])
    ensures r.None? <==> forall i :: 0 <= i < |order| ==> !Candidate(m[order[i]])
    ensures r.Some? ==> forall i :: (0 <= i < |order| && order[i] != r.value && Candidate(m[order[i]]) ==>
      exists j :: i < j < |order| && order[j] == r.value)
    decreases |order|
  {
    if |order| == 0 then None
    else
      var last := order[|order| - 1];
      var init := order[..|order| - 1];
      assert forall i :: 0 <= i < |init| ==> init[i] == order[i];
      if Candidate(m[last]) then Some(last) else LastCandidate(init, m)
  }

  /** Every candidate is flagged as root when it is visited, whichever becomes the root. */
  function Flagged(m: map<ID, Node>): (r: map<ID, Node>)
    ensures r.Keys == m.Keys
    ensures forall k :: k in m ==> r[k] == if Candidate(m[k]) then m[k].(root := true) else m[k]
  {
    map k | k in m :: if Candidate(m[k]) then m[k].(root := true) else m[k]
  }

  /** For each ID of the order, its record is appended to the children of each of its parents that is indexed. */
  function LinkEach(t: Tree, order: seq<ID>, m: map<ID, Node>): (r: Tree)
    requires Wf(t) && forall i :: 0 <= i < |order| ==> order[i] in m
    ensures Wf(r) && r.nodes.Keys == t.nodes.Keys
    ensures r.indexed == t.indexed && r.root == t.root && r.checkpoint == t.checkpoint
    decreases |order|
  {
    if |order| == 0 then t
    else LinkEach(LinkAll(t, m[order[0]].parents, order[0]), order[1..], m)
  }

  /** LinkEach changes child lists only. */
  lemma {:induction false} LinkEachRecords(t: Tree, order: seq<ID>, m: map<ID, Node>, q: ID)
    requires Wf(t) && (forall i :: 0 <= i < |order| ==> order[i] in m) && q in t.nodes
    ensures LinkEach(t, order, m).nodes[q].(children := t.nodes[q].children) == t.nodes[q]
    decreases |order|
  {
    if |order| > 0 {
      var t1 := LinkAll(t, m[order[0]].parents, order[0]);
      LinkEachRecords(t1, order[1..], m, q);
    }
  }

  /** How many times LinkEach appends c under q: once per listing of q among c's parents. */
  lemma {:induction false} LinkEachCounts(t: Tree, order: seq<ID>, m: map<ID, Node>, q: ID, c: ID)
    requires Wf(t) && Sync.NoDup(order) && forall i :: 0 <= i < |order| ==> order[i] in m
    requires q in t.indexed
    ensures multiset(LinkEach(t, order, m).nodes[q].children)[c] ==
      multiset(t.nodes[q].children)[c] + if c in order then multiset(m[c].parents)[q] else 0
    decreases |order|
  {
    if |order| > 0 {
      var c0 := order[0];
      var t1 := LinkAll(t, m[c0].parents, c0);
      assert Sync.NoDup(order[1..]) by {
        forall i, j | 0 <= i < j < |order[1..]|
          ensures order[1..][i] != order[1..][j]
        {
          assert order[i + 1] != order[j + 1];
        }
      }
      LinkEachCounts(t1, order[1..], m, q, c);
      Sync.RepeatCounts(t.nodes[q].children, c0, multiset(m[c0].parents)[q]);
      assert c in order <==> c == c0 || c in order[1..];
      if c == c0 {
        assert c !in order[1..] by {
          forall j | 0 <= j < |order[1..]|
            ensures order[1..][j] != c
          {
            assert order[0] != order[j + 1];
          }
        }
      }
    }
  }

  /** Whether fetchFresh finished, failed, or followed the service for ever. */
  datatype Fetched = Fetched(tree: Tree) | FetchFailed(error: Error) | FetchUnending

  /** The service's side of a fetchFresh: the pages, and the order in which the index is visited. */
  datatype FetchAnswer = FetchAnswer(pages: seq<PageExchange>, order: seq<ID>)

  /** The order enumerates the index the pages give. */
  predicate Fits(f: FetchAnswer) {
    Collect(f.pages).Listed? ==> Enumerates(f.order, IndexAvailable(Collect(f.pages).nodes).Keys)
  }

  /**
   * The tree fetchFresh builds from an index visited in the given order:
   * the indexed records join the old ones, each candidate flagged as root;
   * the last candidate visited becomes the root, the old one staying when
   * there is none; each indexed node is appended to the children of its
   * indexed parents.
   */
  function Graph(t: Tree, m: map<ID, Node>, order: seq<ID>): (r: Tree)
    requires Wf(t) && Enumerates(order, m.Keys)
    ensures Wf(r) && r.indexed == m.Keys && r.checkpoint == t.checkpoint
    ensures r.nodes.Keys == t.nodes.Keys + m.Keys
  {
    LinkEach(Joined(t, m, order), order, m)
  }

  /** The tree before linking: the flagged records over the old ones, rooted at the last candidate or the old root. */
  function Joined(t: Tree, m: map<ID, Node>, order: seq<ID>): (r: Tree)
    requires Wf(t) && Enumerates(order, m.Keys)
    ensures Wf(r) && r.indexed == m.Keys && r.checkpoint == t.checkpoint
    ensures r.nodes.Keys == t.nodes.Keys + m.Keys
    ensures forall q :: q in m ==> r.nodes[q] == Flagged(m)[q]
  {
    var root := LastCandidate(order, m);
    Tree(t.nodes + Flagged(m), m.Keys, if root.Some? then root.value else t.root, t.checkpoint)
  }

  /** Every indexed node keeps its listed record, flagged as root when it is a candidate; only its children differ. */
  lemma GraphRecords(t: Tree, m: map<ID, Node>, order: seq<ID>, q: ID)
    requires Wf(t) && Enumerates(order, m.Keys) && q in m
    ensures Graph(t, m, order).nodes[q].(children := m[q].children) == Flagged(m)[q]
  {
    var base := Joined(t, m, order);
    LinkEachRecords(base, order, m, q);
  }

  /** q holds c among its children once more than its listed children for each time c lists q as a parent. */
  predicate LinkedCount(r: Tree, m: map<ID, Node>, q: ID, c: ID) {
    q in r.nodes && q in m
    && multiset(r.nodes[q].children)[c] == multiset(m[q].children)[c] + if c in m then multiset(m[c].parents)[q] else 0
  }

  /** Each indexed node holds an indexed child once more than its listed children for each time the child lists it as a parent. */
  lemma GraphCounts(t: Tree, m: map<ID, Node>, order: seq<ID>, q: ID, c: ID)
    requires Wf(t) && Enumerates(order, m.Keys) && q in m
    ensures LinkedCount(Graph(t, m, order), m, q, c)
  {
    var base := Joined(t, m, order);
    LinkEachCounts(base, order, m, q, c);
    assert c in order <==> c in m;
  }

  /** The root is a flagged candidate of the index when there is one, and the old root otherwise. */
  lemma GraphRoot(t: Tree, m: map<ID, Node>, order: seq<ID>)
    requires Wf(t) && Enumerates(order, m.Keys)
    ensures var r := Graph(t, m, order);
      && ((exists q :: q in m && Candidate(m[q])) ==> r.root in m && Candidate(m[r.root]) && r.nodes[r.root].root)
      && ((forall q :: q in m ==> !Candidate(m[q])) ==> r.root == t.root)
  {
    var root := LastCandidate(order, m);
    if exists q :: q in m && Candidate(m[q]) {
      var q :| q in m && Candidate(m[q]);
      var i :| 0 <= i < |order| && order[i] == q;
      GraphRecords(t, m, order, root.value);
    }
  }

  /** Records without child lists and with clean parent lists give a graph that agrees with the parent lists. */
  lemma GraphConsistent(t: Tree, m: map<ID, Node>, order: seq<ID>)
    requires Wf(t) && Enumerates(order, m.Keys)
    requires forall k :: k in m ==> m[k].id == k && Sync.PlainPayload(m[k])
    ensures Sync.Consistent(Graph(t, m, order))
  {
    var r := Graph(t, m, order);
    forall c | c in r.indexed
      ensures Sync.CleanParents(r, c)
    {
      GraphClean(t, m, order, c);
    }
    forall q, c | q in r.indexed
      ensures Sync.CountsAgree(r, q, c)
    {
      GraphAgree(t, m, order, q, c);
    }
  }

  lemma GraphClean(t: Tree, m: map<ID, Node>, order: seq<ID>, c: ID)
    requires Wf(t) && Enumerates(order, m.Keys) && c in m
    requires m[c].id == c && Sync.PlainPayload(m[c])
    ensures Sync.CleanParents(Graph(t, m, order), c)
  {
    GraphRecords(t, m, order, c);
    assert Flagged(m)[c].parents == m[c].parents;
  }

  lemma GraphAgree(t: Tree, m: map<ID, Node>, order: seq<ID>, q: ID, c: ID)
    requires Wf(t) && Enumerates(order, m.Keys) && q in m
    requires m[q].children == []
    ensures Sync.CountsAgree(Graph(t, m, order), q, c)
  {
    var r := Graph(t, m, order);
    GraphCounts(t, m, order, q, c);
    if c in m {
      GraphRecords(t, m, order, c);
      assert Flagged(m)[c].parents == m[c].parents;
    }
  }

  /**
   * fetchFresh (node/tree.go:180-252, client/nodetree/nodetree.go:144-216,
   * where IsFolder stands for IsDir): the listing is collected, its
   * AVAILABLE nodes become the index, and the graph is built from it. The
   * checkpoint is left as it was.
   */
  function FetchFresh(t: Tree, f: FetchAnswer): (r: Fetched)
    requires Wf(t) && Fits(f)
    ensures r.FetchFailed? <==> Collect(f.pages).ListFailed?
    ensures r.FetchFailed? ==> r.error == Collect(f.pages).error
    ensures r.FetchUnending? <==> Collect(f.pages).Unending?
    ensures r.Fetched? ==> Wf(r.tree) && r.tree.checkpoint == t.checkpoint
    ensures r.Fetched? ==> r.tree == Graph(t, IndexAvailable(Collect(f.pages).nodes), f.order)
  {
    match Collect(f.pages)
    case ListFailed(e) => FetchFailed(e)
    case Unending => FetchUnending
    case Listed(ns) => Fetched(Graph(t, IndexAvailable(ns), f.order))
  }

  /** Whatever the order, every indexed node keeps its listed record, flagged as root when it is a candidate; only its children differ. */
  lemma FetchFreshRecords(t: Tree, f: FetchAnswer)
    requires Wf(t) && Fits(f) && Collect(f.pages).Listed?
    ensures var m := IndexAvailable(Collect(f.pages).nodes);
      var r := FetchFresh(t, f).tree;
      r.indexed == m.Keys && forall q :: q in m ==> r.nodes[q].(children := m[q].children) == Flagged(m)[q]
  {
    var m := IndexAvailable(Collect(f.pages).nodes);
    forall q | q in m
      ensures Graph(t, m, f.order).nodes[q].(children := m[q].children) == Flagged(m)[q]
    {
      GraphRecords(t, m, f.order, q);
    }
  }

  /**
   * Whatever the order, each indexed node holds each indexed node among its
   * children once more than its decoded list for each time that node lists
   * it as a parent.
   */
  lemma FetchFreshCounts(t: Tree, f: FetchAnswer)
    requires Wf(t) && Fits(f) && Collect(f.pages).Listed?
    ensures var m := IndexAvailable(Collect(f.pages).nodes);
      var r := FetchFresh(t, f).tree;
      forall q, c :: q in m ==> LinkedCount(r, m, q, c)
  {
    var m := IndexAvailable(Collect(f.pages).nodes);
    var g := Graph(t, m, f.order);
    assert FetchFresh(t, f).tree == g;
    forall q, c | q in m
      ensures LinkedCount(g, m, q, c)
    {
      GraphCounts(t, m, f.order, q, c);
    }
  }

  /** The root is a flagged candidate of the index when there is one, and the old root otherwise. */
  lemma FetchFreshRoot(t: Tree, f: FetchAnswer)
    requires Wf(t) && Fits(f) && Collect(f.pages).Listed?
    ensures var m := IndexAvailable(Collect(f.pages).nodes);
      var r := FetchFresh(t, f).tree;
      && ((exists q :: q in m && Candidate(m[q])) ==> r.root in m && Candidate(m[r.root]) && r.nodes[r.root].root)
      && ((forall q :: q in m ==> !Candidate(m[q])) ==> r.root == t.root)
  {
    GraphRoot(t, IndexAvailable(Collect(f.pages).nodes), f.order);
  }

  /** With one candidate in the index the root is that candidate, in every order of the visit. */
  lemma FetchFreshRootUnique(t: Tree, f: FetchAnswer, g: FetchAnswer, q: ID)
    requires Wf(t) && Fits(f) && Fits(g) && f.pages == g.pages && Collect(f.pages).Listed?
    requires var m := IndexAvailable(Collect(f.pages).nodes);
      q in m && Candidate(m[q]) && forall k :: k in m && k != q ==> !Candidate(m[k])
    ensures FetchFresh(t, f).tree.root == FetchFresh(t, g).tree.root == q
  {
    var m := IndexAvailable(Collect(f.pages).nodes);
    GraphRoot(t, m, f.order);
    GraphRoot(t, m, g.order);
  }

  /**
   * A listing whose available nodes have distinct parents, are not their
   * own parents and come without child lists gives a graph that agrees
   * with the parent lists, in every order of the visit.
   */
  lemma FetchFreshConsistent(t: Tree, f: FetchAnswer)
    requires Wf(t) && Fits(f) && Collect(f.pages).Listed?
    requires var ns := Collect(f.pages).nodes;
      forall i :: 0 <= i < |ns| ==> Sync.PlainPayload(ns[i])
    ensures Sync.Consistent(FetchFresh(t, f).tree)
  {
    var ns := Collect(f.pages).nodes;
    var m := IndexAvailable(ns);
    forall k | k in m
      ensures m[k].id == k && Sync.PlainPayload(m[k])
    {
      var i :| 0 <= i < |ns| && ns[i] == m[k];
    }
    GraphConsistent(t, m, f.order);
  }

  /** After fetchFresh and buildNodeMap, the index is the set of nodes reachable from the root. */
  lemma FetchThenBuild(t: Tree, f: FetchAnswer)
    requires Wf(t) && Fits(f) && Collect(f.pages).Listed?
    ensures forall id :: id in BuildNodeMap(FetchFresh(t, f).tree).indexed <==> Reachable(FetchFresh(t, f).tree, id)
  {
  }

  // ---------------------------------------------------------------------
  // Start-up

  /** The cache file: missing or unreadable, or a snapshot of a tree. */
  datatype Cache = Miss | Hit(snapshot: Tree)

  /**
   * The outcome of a start-up sequence, or one that follows the service
   * for ever. `rooted` says whether nt.Node is set; when it is not, Go's
   * root is nil and the tree's root stands for nothing.
   */
  datatype Boot = Booted(outcome: Outcome, tree: Tree, rooted: bool) | Endless

  /** A listing that sets nt.Node: it lists at least one candidate for the root. */
  predicate ListsRoot(f: FetchAnswer)
    requires Fits(f)
  {
    Collect(f.pages).Listed? && LastCandidate(f.order, IndexAvailable(Collect(f.pages).nodes)).Some?
  }

  /** The tree the cache gives, or else the one a fresh fetch builds. */
  function Begin(t: Tree, cache: Cache, first: FetchAnswer): (r: Fetched)
    requires Wf(t) && Fits(first) && (cache.Hit? ==> Wf(cache.snapshot))
    ensures r.Fetched? ==> Wf(r.tree)
    ensures cache.Hit? ==> r.Fetched?
  {
    if cache.Hit? then Fetched(cache.snapshot) else FetchFresh(t, first)
  }

  /**
   * A fresh fetch and a sync of the tree it built. A listing with a
   * candidate sets the root; without one, nt.Node stays as it was.
   */
  function FetchThenSync(t: Tree, f: FetchAnswer, feed: Sync.Feed, rooted: bool): (r: Boot)
    requires Wf(t) && Fits(f)
    ensures r.Booted? ==> Wf(r.tree)
    ensures r.Endless? <==> Collect(f.pages).Unending?
    ensures Collect(f.pages).ListFailed? ==> r == Booted(Fail(Collect(f.pages).error), t, rooted)
    ensures Collect(f.pages).Listed? ==> r.Booted? && (r.rooted <==> rooted || ListsRoot(f))
  {
    match FetchFresh(t, f)
    case FetchFailed(e) => Booted(Fail(e), t, rooted)
    case FetchUnending => Endless
    case Fetched(t0) =>
      var s := Sync.SyncFeed(t0, feed);
      Booted(s.outcome, s.tree, rooted || ListsRoot(f))
  }

  /**
   * loadOrFetch (node/tree.go:156-178): the cache, or else a fresh fetch;
   * then a sync. If the sync asks for a fresh fetch, the tree is fetched
   * again and synced once more, and that result is returned as it is;
   * any other failure is returned. NewTree (node/tree.go:55-60) calls it
   * with `rooted` false: nt.Node is nil until the cache or a listing with
   * a candidate sets it, and nothing here dereferences it, so a start-up
   * whose listings name no root ends without one.
   */
  function LoadOrFetch(t: Tree, cache: Cache, first: FetchAnswer, feed: Sync.Feed, again: FetchAnswer, feed2: Sync.Feed, rooted: bool): (r: Boot)
    requires Wf(t) && Fits(first) && Fits(again)
    requires cache.Hit? ==> Wf(cache.snapshot)
    ensures r.Booted? ==> Wf(r.tree)
    ensures cache.Miss? && Collect(first.pages).ListFailed? ==> r == Booted(Fail(Collect(first.pages).error), t, rooted)
    ensures cache.Miss? && Collect(first.pages).Unending? ==> r.Endless?
    ensures r.Booted? && (rooted || cache.Hit? || ListsRoot(first)) ==> r.rooted
    ensures r.Booted? && r.rooted ==> rooted || cache.Hit? || ListsRoot(first) || ListsRoot(again)
  {
    match Begin(t, cache, first)
    case FetchFailed(e) => Booted(Fail(e), t, rooted)
    case FetchUnending => Endless
    case Fetched(t0) =>
      var rooted0 := rooted || cache.Hit? || ListsRoot(first);
      var s1 := Sync.SyncFeed(t0, feed);
      if s1.outcome != Fail(MustFetchFresh) then Booted(s1.outcome, s1.tree, rooted0)
      else FetchThenSync(s1.tree, again, feed2, rooted0)
  }

  /** A first sync that does not ask for a fresh fetch ends the start-up with its outcome: no second fetch. */
  lemma LoadOrFetchNoRetry(t: Tree, cache: Cache, first: FetchAnswer, feed: Sync.Feed, again: FetchAnswer, feed2: Sync.Feed, rooted: bool)
    requires Wf(t) && Fits(first) && Fits(again)
    requires cache.Hit? ==> Wf(cache.snapshot)
    requires Begin(t, cache, first).Fetched?
    requires Sync.SyncFeed(Begin(t, cache, first).tree, feed).outcome != Fail(MustFetchFresh)
    ensures var s1 := Sync.SyncFeed(Begin(t, cache, first).tree, feed);
      LoadOrFetch(t, cache, first, feed, again, feed2, rooted) == Booted(s1.outcome, s1.tree, rooted || cache.Hit? || ListsRoot(first))
  {
  }

  /**
   * A first sync that asks for a fresh fetch is followed by exactly one
   * more fetch and sync, whose result is final, even when it asks for a
   * fresh fetch again.
   */
  lemma LoadOrFetchRetriesOnce(t: Tree, cache: Cache, first: FetchAnswer, feed: Sync.Feed, again: FetchAnswer, feed2: Sync.Feed, rooted: bool)
    requires Wf(t) && Fits(first) && Fits(again)
    requires cache.Hit? ==> Wf(cache.snapshot)
    requires Begin(t, cache, first).Fetched?
    requires Sync.SyncFeed(Begin(t, cache, first).tree, feed).outcome == Fail(MustFetchFresh)
    ensures var s1 := Sync.SyncFeed(Begin(t, cache, first).tree, feed);
      LoadOrFetch(t, cache, first, feed, again, feed2, rooted) ==
        FetchThenSync(s1.tree, again, feed2, rooted || cache.Hit? || ListsRoot(first))
  {
  }

  /** What removing the cache file gives. */
  datatype Removal = Removed | RemoveFailed(notExist: bool)

  /**
   * The service's and the file system's side of one pass of
   * loadOrRefresh: the cache, the first refresh, the listing, the second
   * refresh and the removal of the cache file.
   */
  datatype Attempt = Attempt(cache: Cache, first: Sync.Feed, listing: FetchAnswer, second: Sync.Feed, removal: Removal)

  predicate AttemptFits(a: Attempt) {
    Fits(a.listing) && (a.cache.Hit? ==> Wf(a.cache.snapshot))
  }

  /** Every attempt fits. */
  predicate AllFit(attempts: seq<Attempt>) {
    |attempts| == 0 || (AttemptFits(attempts[0]) && AllFit(attempts[1..]))
  }

  /** When a failed removal of the cache ends loadOrRefresh: a failure other than a missing file. */
  predicate RemovalStops(x: Removal) {
    x.RemoveFailed? && !x.notExist
  }

  /** The condition as client/nodetree/nodetree.go:95 writes it: a removal that failed because the file was missing. */
  predicate RemovalStopsAsWritten(x: Removal) {
    x.RemoveFailed? && x.notExist
  }

  /** A line that reaches updateNodes with at least one node. */
  predicate CarriesNodes(l: Sync.Line) {
    l.Decoded? && !l.record.end && !l.record.reset && |l.record.nodes| > 0
  }

  /**
   * The line loop of refresh before any index exists: New
   * (client/nodetree/nodetree.go:113-117) leaves nodeMap nil, and only
   * buildNodeMap and fetchFresh make it, so the first line that reaches
   * updateNodes with a node stores into a nil map (line 379) and panics.
   * The lines before it are applied as usual.
   */
  function ColdApplyLines(t: Tree, lines: seq<Sync.Line>): (r: Sync.Run)
    requires Wf(t)
    ensures Wf(r.tree) && r.consumed <= |lines|
    ensures r.outcome != Fail(Panic) ==> r == CoarseSync.CoarseApplyLines(CoarseSync.NodeTree, t, lines)
    ensures r.outcome == Fail(Panic) ==> 0 < r.consumed && CarriesNodes(lines[r.consumed - 1])
    ensures r.outcome == Fail(Panic) ==> forall i :: 0 <= i < r.consumed - 1 ==> !CarriesNodes(lines[i])
    decreases |lines|
  {
    if |lines| == 0 then Sync.Run(Pass, t, 0, false)
    else if CarriesNodes(lines[0]) then Sync.Run(Fail(Panic), t.(checkpoint := lines[0].record.checkpoint), 1, true)
    else
      match CoarseSync.CoarseApplyLine(CoarseSync.NodeTree, t, lines[0])
      case Stop(outcome, t1) => Sync.Run(outcome, t1, 1, true)
      case Continue(t1) =>
        var r := ColdApplyLines(t1, lines[1..]);
        Sync.Run(r.outcome, r.tree, r.consumed + 1, r.halted)
  }

  /**
   * A cold refresh panics at line k when it carries nodes and every line
   * before it is a record that neither ends nor resets and has no nodes:
   * such a record changes only the checkpoint, and the loop goes on.
   */
  lemma {:induction false} ColdPanicsAtFirstNodes(t: Tree, lines: seq<Sync.Line>, k: nat)
    requires Wf(t) && k < |lines| && CarriesNodes(lines[k])
    requires forall i :: 0 <= i < k ==> !Sync.Stops(lines[i]) && |lines[i].record.nodes| == 0
    ensures ColdApplyLines(t, lines).outcome == Fail(Panic) && ColdApplyLines(t, lines).consumed == k + 1
    decreases k
  {
    if k > 0 {
      assert !Sync.Stops(lines[0]) && !CarriesNodes(lines[0]);
      var n := CoarseSync.CoarseApplyLine(CoarseSync.NodeTree, t, lines[0]);
      assert n.Continue?;
      ColdPanicsAtFirstNodes(n.tree, lines[1..], k - 1);
    }
  }

  /** refresh (client/nodetree/nodetree.go:315-373) before any index exists. */
  function ColdRefresh(t: Tree, feed: Sync.Feed): (r: Sync.Run)
    requires Wf(t)
    ensures Wf(r.tree)
    ensures r.outcome != Fail(Panic) ==> r == CoarseSync.CoarseSyncFeed(CoarseSync.NodeTree, t, feed)
    ensures r.outcome == Fail(Panic) <==>
      feed.FeedAnswered? && Response.IsSuccess(feed.status) && ColdApplyLines(t, feed.lines).outcome == Fail(Panic)
  {
    match feed
    case FeedUnsent(f) => Sync.Run(Fail(Mutations.SendError(f)), t, 0, true)
    case FeedAnswered(status, lines, _, _) =>
      var check := Response.CheckResponse(status);
      if check.Fail? then Sync.Run(check, t, 0, true)
      else ColdApplyLines(t, lines)
  }

  /** The first refresh of a pass: cold before any index exists, otherwise the ordinary one. */
  function FirstRefresh(t: Tree, feed: Sync.Feed, cold: bool): (r: Sync.Run)
    requires Wf(t)
    ensures Wf(r.tree)
    ensures !cold ==> r.outcome != Fail(Panic)
    ensures r.outcome.Fail? ==> CoarseSync.RefreshError(r.outcome.error)
  {
    if cold then ColdRefresh(t, feed) else CoarseSync.CoarseSyncFeed(CoarseSync.NodeTree, t, feed)
  }

  /** The tree a pass starts from before its index is rebuilt, an error with the tree so far, or a listing that never ends. */
  datatype Loaded = Loaded(tree: Tree) | LoadFailed(error: Error, tree: Tree) | LoadUnending

  /**
   * The first part of a pass of loadOrRefresh (client/nodetree/nodetree.go:79-90):
   * the cache, or else a refresh that learns the checkpoint, a must-refresh
   * being ignored, followed by a fresh fetch. The missing ErrMustRefresh
   * is ErrMustFetchFresh. `cold` says that no index exists yet.
   */
  function Load(t: Tree, a: Attempt, cold: bool): (r: Loaded)
    requires Wf(t) && AttemptFits(a)
    ensures !r.LoadUnending? ==> Wf(r.tree)
    ensures r.LoadFailed? ==> CoarseSync.RefreshError(r.error) || r.error == ParsingURL
    ensures a.cache.Hit? ==> r == Loaded(a.cache.snapshot)
    ensures a.cache.Miss? && FirstRefresh(t, a.first, cold).outcome.Fail? ==>
      var e := FirstRefresh(t, a.first, cold).outcome.error;
      e != MustFetchFresh ==> r.LoadFailed? && r.error == e
    ensures r.LoadFailed? && r.error == Panic ==> cold && a.cache.Miss?
  {
    if a.cache.Hit? then Loaded(a.cache.snapshot)
    else
      var s0 := FirstRefresh(t, a.first, cold);
      if s0.outcome.Fail? && s0.outcome.error != MustFetchFresh then LoadFailed(s0.outcome.error, s0.tree)
      else match FetchFresh(s0.tree, a.listing)
        case FetchFailed(e) => LoadFailed(e, s0.tree)
        case FetchUnending => LoadUnending
        case Fetched(t0) => Loaded(t0)
  }

  /**
   * loadOrRefresh (client/nodetree/nodetree.go:77-106) with the test of the
   * removal left as a parameter: each pass loads the tree, rebuilds the
   * index from the root and refreshes; a must-refresh there removes the
   * cache and starts again, for as long as the service keeps asking,
   * unless the removal stops it; other refresh errors are wrapped; errors
   * before the second refresh are returned as they are. Running out of
   * attempts stands for a retry that never ends. `cold` says that the
   * first pass starts with no index, and `rooted` that nt.Node is set;
   * every later pass has both. When neither the cache nor the listing
   * sets nt.Node, buildNodeMap(nil) reads current.ID of a nil node
   * (client/nodetree/nodetree.go:90, 219-221) and panics.
   */
  function LoadOrRefreshWith(t: Tree, attempts: seq<Attempt>, stops: Removal -> bool, cold: bool, rooted: bool): (r: Boot)
    requires Wf(t) && AllFit(attempts)
    ensures r.Booted? ==> Wf(r.tree)
    ensures r.Booted? && r.outcome == Fail(Panic) ==>
      |attempts| > 0 && attempts[0].cache.Miss? && (cold || (!rooted && !ListsRoot(attempts[0].listing)))
    ensures r.Booted? && r.outcome.Pass? ==> r.rooted
    ensures r.Booted? && !r.rooted ==> !rooted
    decreases |attempts|
  {
    if |attempts| == 0 then Endless
    else
      var a := attempts[0];
      match Load(t, a, cold)
      case LoadUnending => Endless
      case LoadFailed(e, t0) => Booted(Fail(e), t0, rooted)
      case Loaded(t0) =>
        if !Rooted(a, rooted) then Booted(Fail(Panic), t0, false)
        else
          var s := CoarseSync.CoarseSyncFeed(CoarseSync.NodeTree, BuildNodeMap(t0), a.second);
          if s.outcome.Pass? then Booted(Pass, s.tree, true)
          else if s.outcome.error != MustFetchFresh then Booted(Fail(Wrapped(s.outcome.error)), s.tree, true)
          else if a.removal.RemoveFailed? && stops(a.removal) then Booted(Fail(OsError(a.removal.notExist)), s.tree, true)
          else
            LoadOrRefreshWith(s.tree, attempts[1..], stops, false, true)
  }

  /**
   * The start-up of New as evidently intended: the index exists before the
   * first refresh, and a failed removal stops it unless the file was
   * already missing. nt.Node is still nil, so the one panic left is the
   * buildNodeMap(nil) of a cache miss whose listing names no root.
   */
  function LoadOrRefresh(t: Tree, attempts: seq<Attempt>): (r: Boot)
    requires Wf(t) && AllFit(attempts)
    ensures r.Booted? && r.outcome.Fail? && r.outcome.error.OsError? ==> !r.outcome.error.notExist
    ensures r.Booted? && r.outcome == Fail(Panic) ==>
      |attempts| > 0 && attempts[0].cache.Miss? && !ListsRoot(attempts[0].listing)
    ensures r.Booted? && r.outcome.Pass? ==> r.rooted
  {
    LoadOrRefreshOsError(t, attempts, RemovalStops, false, false);
    LoadOrRefreshWith(t, attempts, RemovalStops, false, false)
  }

  /**
   * loadOrRefresh with the removal test as written, on a later pass, when
   * the index and the root exist: only a removal that failed on a missing
   * file stops it.
   */
  function LoadOrRefreshAsWritten(t: Tree, attempts: seq<Attempt>): (r: Boot)
    requires Wf(t) && AllFit(attempts)
    ensures r.Booted? && r.outcome.Fail? && r.outcome.error.OsError? ==> r.outcome.error.notExist
  {
    LoadOrRefreshOsError(t, attempts, RemovalStopsAsWritten, false, true);
    LoadOrRefreshWith(t, attempts, RemovalStopsAsWritten, false, true)
  }

  /** The corrected removal test on a later pass, when the index and the root exist. */
  function LoadOrRefreshLater(t: Tree, attempts: seq<Attempt>): (r: Boot)
    requires Wf(t) && AllFit(attempts)
    ensures r.Booted? && r.outcome.Fail? && r.outcome.error.OsError? ==> !r.outcome.error.notExist
    ensures !(r.Booted? && r.outcome == Fail(Panic))
  {
    LoadOrRefreshOsError(t, attempts, RemovalStops, false, true);
    LoadOrRefreshWith(t, attempts, RemovalStops, false, true)
  }

  /**
   * New (client/nodetree/nodetree.go:113-126) up to saving the cache:
   * loadOrRefresh as written, called before any index exists and with
   * nt.Node nil. A panic can only come from the first pass, on a cache
   * miss: from its first refresh, or from a listing that names no root.
   */
  function New(t: Tree, attempts: seq<Attempt>): (r: Boot)
    requires Wf(t) && AllFit(attempts)
    ensures r.Booted? && r.outcome.Fail? && r.outcome.error.OsError? ==> r.outcome.error.notExist
    ensures r.Booted? && r.outcome == Fail(Panic) ==> |attempts| > 0 && attempts[0].cache.Miss?
    ensures r.Booted? && r.outcome.Pass? ==> r.rooted
  {
    LoadOrRefreshOsError(t, attempts, RemovalStopsAsWritten, true, false);
    LoadOrRefreshWith(t, attempts, RemovalStopsAsWritten, true, false)
  }

  /**
   * On a cache miss whose first refresh answers with a record carrying
   * nodes, as most do since that request asks for one node, New panics;
   * with the index made first, loadOrRefresh does not, unless the listing
   * names no root.
   */
  lemma ColdStartPanicsAsWritten(t: Tree, attempts: seq<Attempt>)
    requires Wf(t) && AllFit(attempts) && |attempts| > 0 && attempts[0].cache.Miss?
    requires attempts[0].first.FeedAnswered? && Response.IsSuccess(attempts[0].first.status)
    requires |attempts[0].first.lines| > 0 && CarriesNodes(attempts[0].first.lines[0])
    ensures New(t, attempts).Booted? && New(t, attempts).outcome == Fail(Panic)
    ensures ListsRoot(attempts[0].listing) ==>
      !(LoadOrRefresh(t, attempts).Booted? && LoadOrRefresh(t, attempts).outcome == Fail(Panic))
  {
    ColdPanicsAtFirstNodes(t, attempts[0].first.lines, 0);
  }

  /** An OS error ends loadOrRefresh only through a removal that stops it, and it is that removal's error. */
  lemma {:induction false} LoadOrRefreshOsError(t: Tree, attempts: seq<Attempt>, stops: Removal -> bool, cold: bool, rooted: bool)
    requires Wf(t) && AllFit(attempts)
    ensures var r := LoadOrRefreshWith(t, attempts, stops, cold, rooted);
      r.Booted? && r.outcome.Fail? && r.outcome.error.OsError? ==>
        exists x: Removal :: x.RemoveFailed? && stops(x) && r.outcome.error == OsError(x.notExist)
    decreases |attempts|
  {
    if |attempts| > 0 {
      var a := attempts[0];
      match Load(t, a, cold)
      case LoadUnending =>
      case LoadFailed(e, t0) =>
      case Loaded(t0) =>
        if Rooted(a, rooted) {
          var s := CoarseSync.CoarseSyncFeed(CoarseSync.NodeTree, BuildNodeMap(t0), a.second);
          if s.outcome.Fail? && s.outcome.error == MustFetchFresh && !(a.removal.RemoveFailed? && stops(a.removal)) {
            LoadOrRefreshOsError(s.tree, attempts[1..], stops, false, true);
            assert LoadOrRefreshWith(t, attempts, stops, cold, rooted) == LoadOrRefreshWith(s.tree, attempts[1..], stops, false, true);
          }
        }
    }
  }

  /** Whether nt.Node is set once a pass has loaded: it was, or the cache or the listing sets it. */
  predicate Rooted(a: Attempt, rooted: bool)
    requires AttemptFits(a)
  {
    rooted || a.cache.Hit? || ListsRoot(a.listing)
  }

  /** The tree a pass refreshes a second time: the loaded one with its index rebuilt from the root. */
  function Second(t: Tree, a: Attempt, cold: bool): (r: Sync.Run)
    requires Wf(t) && AttemptFits(a) && Load(t, a, cold).Loaded?
    ensures Wf(r.tree)
  {
    CoarseSync.CoarseSyncFeed(CoarseSync.NodeTree, BuildNodeMap(Load(t, a, cold).tree), a.second)
  }

  /**
   * How the first pass ends loadOrRefresh: an error while loading is
   * returned as it is; a successful second refresh succeeds; an error of
   * the second refresh other than must-refresh comes back wrapped.
   */
  lemma LoadOrRefreshFirstPass(t: Tree, attempts: seq<Attempt>, stops: Removal -> bool, cold: bool, rooted: bool)
    requires Wf(t) && AllFit(attempts) && |attempts| > 0
    ensures var l := Load(t, attempts[0], cold);
      l.LoadFailed? ==> LoadOrRefreshWith(t, attempts, stops, cold, rooted) == Booted(Fail(l.error), l.tree, rooted)
    ensures var l := Load(t, attempts[0], cold);
      l.LoadUnending? ==> LoadOrRefreshWith(t, attempts, stops, cold, rooted) == Endless
    ensures Load(t, attempts[0], cold).Loaded? && !Rooted(attempts[0], rooted) ==>
      LoadOrRefreshWith(t, attempts, stops, cold, rooted) == Booted(Fail(Panic), Load(t, attempts[0], cold).tree, false)
    ensures Load(t, attempts[0], cold).Loaded? && Rooted(attempts[0], rooted) && Second(t, attempts[0], cold).outcome.Pass? ==>
      LoadOrRefreshWith(t, attempts, stops, cold, rooted) == Booted(Pass, Second(t, attempts[0], cold).tree, true)
    ensures Load(t, attempts[0], cold).Loaded? && Rooted(attempts[0], rooted) && Second(t, attempts[0], cold).outcome.Fail? ==>
      var e := Second(t, attempts[0], cold).outcome.error;
      e != MustFetchFresh ==>
        LoadOrRefreshWith(t, attempts, stops, cold, rooted) == Booted(Fail(Wrapped(e)), Second(t, attempts[0], cold).tree, true)
  {
  }

  /**
   * A second refresh that asks for a fresh start, with a removal that does
   * not stop the retry, is followed by the next pass on the tree the
   * refresh left.
   */
  lemma LoadOrRefreshRetries(t: Tree, attempts: seq<Attempt>, stops: Removal -> bool, cold: bool, rooted: bool)
    requires Wf(t) && AllFit(attempts) && |attempts| > 0 && Rooted(attempts[0], rooted)
    requires Load(t, attempts[0], cold).Loaded? && Second(t, attempts[0], cold).outcome == Fail(MustFetchFresh)
    requires !(attempts[0].removal.RemoveFailed? && stops(attempts[0].removal))
    ensures LoadOrRefreshWith(t, attempts, stops, cold, rooted) ==
      LoadOrRefreshWith(Second(t, attempts[0], cold).tree, attempts[1..], stops, false, true)
  {
  }

  /**
   * On a cache miss the must-refresh of the second refresh removes a cache
   * file that is not there. As written, that missing file ends
   * loadOrRefresh with the removal's error; as intended the pass is
   * simply repeated. A removal that fails for another reason is ignored as
   * written and stops loadOrRefresh as intended.
   */
  lemma MissingCacheEndsStartUpAsWritten(t: Tree, attempts: seq<Attempt>)
    requires Wf(t) && AllFit(attempts) && |attempts| > 0
    requires Load(t, attempts[0], false).Loaded? && Second(t, attempts[0], false).outcome == Fail(MustFetchFresh)
    ensures attempts[0].removal == RemoveFailed(true) ==>
      && LoadOrRefreshAsWritten(t, attempts) == Booted(Fail(OsError(true)), Second(t, attempts[0], false).tree, true)
      && LoadOrRefreshLater(t, attempts) == LoadOrRefreshLater(Second(t, attempts[0], false).tree, attempts[1..])
    ensures attempts[0].removal == RemoveFailed(false) ==>
      && LoadOrRefreshAsWritten(t, attempts) == LoadOrRefreshAsWritten(Second(t, attempts[0], false).tree, attempts[1..])
      && LoadOrRefreshLater(t, attempts) == Booted(Fail(OsError(false)), Second(t, attempts[0], false).tree, true)
  {
  }

  /**
   * A cache miss whose listing names no root: nt.Node stays nil, and the
   * buildNodeMap(nil) that follows panics, in New as written and with the
   * index made first alike.
   */
  lemma RootlessListingPanics(t: Tree, attempts: seq<Attempt>)
    requires Wf(t) && AllFit(attempts) && |attempts| > 0 && attempts[0].cache.Miss? && !ListsRoot(attempts[0].listing)
    ensures Load(t, attempts[0], false).Loaded? ==>
      LoadOrRefresh(t, attempts) == Booted(Fail(Panic), Load(t, attempts[0], false).tree, false)
    ensures Load(t, attempts[0], true).Loaded? ==>
      New(t, attempts) == Booted(Fail(Panic), Load(t, attempts[0], true).tree, false)
  {
    LoadOrRefreshFirstPass(t, attempts, RemovalStops, false, false);
    LoadOrRefreshFirstPass(t, attempts, RemovalStopsAsWritten, true, false);
  }

  /**
   * NewTree on a cache miss whose listing names no root: the sync runs
   * and start-up ends with its outcome but with nt.Node nil.
   */
  lemma RootlessStartUp(t: Tree, first: FetchAnswer, feed: Sync.Feed, again: FetchAnswer, feed2: Sync.Feed)
    requires Wf(t) && Fits(first) && Fits(again) && Collect(first.pages).Listed? && !ListsRoot(first)
    requires Sync.SyncFeed(FetchFresh(t, first).tree, feed).outcome != Fail(MustFetchFresh)
    ensures var s1 := Sync.SyncFeed(FetchFresh(t, first).tree, feed);
      LoadOrFetch(t, Miss, first, feed, again, feed2, false) == Booted(s1.outcome, s1.tree, false)
  {
    LoadOrFetchNoRetry(t, Miss, first, feed, again, feed2, false);
  }
}
