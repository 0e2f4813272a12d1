/**
 * The tree state and the read-only queries on it: path resolution in its
 * two variants (node/find.go, and client/node/find.go together with
 * client/nodetree/nodetree.go:229-263), lookup by ID, the index built from
 * reachability (buildNodeMap), and the structural edits that link and
 * unlink one child from a list of parents.
 *
 * `nodes` holds every node record the program still references, by ID;
 * `indexed` is the key set of the program's nodeMap. The two differ: a node
 * deleted by a change record leaves the index but keeps its record, and a
 * freshly created folder is linked under its parent without being indexed.
 */
module Trees {
  import opened Errors
  import opened Nodes
  import Paths

  datatype Tree = Tree(nodes: map<ID, Node>, indexed: set<ID>, root: ID, checkpoint: string)

  predicate Wf(t: Tree) {
    t.root in t.nodes && t.indexed <= t.nodes.Keys
  }

  /** A child's name matches a path segment, ignoring ASCII case when fold is set. */
  predicate Matches(name: string, part: string, fold: bool) {
    if fold then Paths.Lower(name) == Paths.Lower(part) else name == part
  }

  /**
   * The first child, in child-list order, whose name matches the segment.
   * Child IDs without a record are passed over.
   */
  function FirstMatch(t: Tree, kids: seq<ID>, part: string, fold: bool): (r: Option<ID>)
    ensures r.Some? ==> exists i :: (0 <= i < |kids| && kids[i] == r.value
      && forall j :: 0 <= j < i && kids[j] in t.nodes ==> !Matches(t.nodes[kids[j]].name, part, fold))
    ensures r.Some? ==> r.value in t.nodes && Matches(t.nodes[r.value].name, part, fold)
    ensures r.None? <==> forall j :: 0 <= j < |kids| && kids[j] in t.nodes ==> !Matches(t.nodes[kids[j]].name, part, fold)
  {
    if |kids| == 0 then None
    else if kids[0] in t.nodes && Matches(t.nodes[kids[0]].name, part, fold) then Some(kids[0])
    else
      var r := FirstMatch(t, kids[1..], part, fold);
      assert r.Some? ==> exists i :: (0 <= i < |kids| && kids[i] == r.value
          && forall j :: 0 <= j < i && kids[j] in t.nodes ==> !Matches(t.nodes[kids[j]].name, part, fold)) by {
        if r.Some? {
          var i :| 0 <= i < |kids[1..]| && kids[1..][i] == r.value
            && (forall j :: 0 <= j < i && kids[1..][j] in t.nodes ==> !Matches(t.nodes[kids[1..][j]].name, part, fold));
          assert kids[i + 1] == r.value;
        }
      }
      r
  }

  /**
   * The walk of both FindNode loops: each segment moves to the first
   * matching child of the current node, and a segment with no match ends
   * the walk with NodeNotFound.
   */
  function Walk(t: Tree, cur: ID, parts: seq<string>, fold: bool): (r: Result<ID>)
    requires cur in t.nodes
    ensures r.Ok? ==> r.value in t.nodes
    ensures r.Ok? && |parts| > 0 ==> Matches(t.nodes[r.value].name, parts[|parts| - 1], fold)
    ensures r.Err? ==> r.error == NodeNotFound
    ensures |parts| == 0 ==> r == Ok(cur)
    decreases |parts|
  {
    if |parts| == 0 then Ok(cur)
    else
      match FirstMatch(t, t.nodes[cur].children, parts[0], fold)
      case None => Err(NodeNotFound)
      case Some(next) =>
        var r := Walk(t, next, parts[1..], fold);
        assert |parts| > 1 ==> parts[1..][|parts[1..]| - 1] == parts[|parts| - 1];
        r
  }

  /** A child that matches, with no matching child before it, is the first match. */
  lemma FirstMatchAt(t: Tree, kids: seq<ID>, j: nat, name: string, fold: bool)
    requires j < |kids| && kids[j] in t.nodes && Matches(t.nodes[kids[j]].name, name, fold)
    requires forall i :: 0 <= i < j && kids[i] in t.nodes ==> !Matches(t.nodes[kids[i]].name, name, fold)
    ensures FirstMatch(t, kids, name, fold) == Some(kids[j])
  {
    var m := FirstMatch(t, kids, name, fold);
    assert m.Some?;
    var i :| 0 <= i < |kids| && kids[i] == m.value
      && forall q :: 0 <= q < i && kids[q] in t.nodes ==> !Matches(t.nodes[kids[q]].name, name, fold);
    assert !(i < j) && !(j < i);
  }

  /**
   * One step of the walk: with no child of the current node matching the
   * first segment the walk fails, and otherwise it goes on from the first
   * matching child, in child-list order, with the remaining segments.
   */
  lemma WalkStep(t: Tree, cur: ID, parts: seq<string>, fold: bool)
    requires cur in t.nodes && |parts| > 0
    ensures (forall j :: 0 <= j < |t.nodes[cur].children| && t.nodes[cur].children[j] in t.nodes ==>
        !Matches(t.nodes[t.nodes[cur].children[j]].name, parts[0], fold))
      ==> Walk(t, cur, parts, fold) == Err(NodeNotFound)
    ensures forall i :: (0 <= i < |t.nodes[cur].children| && t.nodes[cur].children[i] in t.nodes
        && Matches(t.nodes[t.nodes[cur].children[i]].name, parts[0], fold)
        && (forall j :: 0 <= j < i && t.nodes[cur].children[j] in t.nodes ==>
          !Matches(t.nodes[t.nodes[cur].children[j]].name, parts[0], fold))) ==>
          Walk(t, cur, parts, fold) == Walk(t, t.nodes[cur].children[i], parts[1..], fold)
  {
  }

  /** Walking a concatenation walks the first half, then the second from where it ended. */
  lemma {:induction false} WalkAppend(t: Tree, cur: ID, a: seq<string>, b: seq<string>, fold: bool)
    requires cur in t.nodes
    ensures Walk(t, cur, a + b, fold) ==
      match Walk(t, cur, a, fold)
      case Err(e) => Err(e)
      case Ok(mid) => Walk(t, mid, b, fold)
    decreases |a|
  {
    if |a| == 0 {
      assert a + b == b;
    } else {
      assert (a + b)[0] == a[0];
      assert (a + b)[1..] == a[1..] + b;
      match FirstMatch(t, t.nodes[cur].children, a[0], fold)
      case None =>
      case Some(next) =>
        WalkAppend(t, next, a[1..], b, fold);
    }
  }

  /**
   * FindNode of node/find.go: runs of separators collapse, one leading
   * separator goes, the empty remainder is the root, and otherwise the
   * segments are matched case-insensitively from the root.
   */
  function FindNode(t: Tree, path: string): (r: Result<ID>)
    requires Wf(t)
    ensures r.Ok? ==> r.value in t.nodes
    ensures r.Err? ==> r.error == NodeNotFound
    ensures Paths.TrimSlash(Paths.Collapse(path)) == "" ==> r == Ok(t.root)
  {
    var p := Paths.TrimSlash(Paths.Collapse(path));
    if p == "" then Ok(t.root) else Walk(t, t.root, Paths.Split(p, Paths.Slash), true)
  }

  /**
   * FindNode of client/node/find.go and client/nodetree/nodetree.go: one
   * leading separator goes, nothing is collapsed, and names must be equal.
   */
  function FindNodeExact(t: Tree, path: string): (r: Result<ID>)
    requires Wf(t)
    ensures r.Ok? ==> r.value in t.nodes
    ensures r.Err? ==> r.error == NodeNotFound
    ensures Paths.TrimSlash(path) == "" ==> r == Ok(t.root)
  {
    var p := Paths.TrimSlash(path);
    if p == "" then Ok(t.root) else Walk(t, t.root, Paths.Split(p, Paths.Slash), false)
  }

  /** The lookup shared by every variant: the node comes back exactly when its ID is indexed. */
  function FindByID(t: Tree, id: ID): (r: Result<Node>)
    requires Wf(t)
    ensures r.Ok? <==> id in t.indexed
    ensures r.Ok? ==> r.value == t.nodes[id]
    ensures r.Err? ==> r.error == NodeNotFound
  {
    if id in t.indexed then Ok(t.nodes[id]) else Err(NodeNotFound)
  }

  /** Extra separators anywhere in a path never change what it resolves to. */
  lemma FindNodeDoubleSlash(t: Tree, a: string, b: string)
    requires Wf(t)
    ensures FindNode(t, a + "//" + b) == FindNode(t, a + "/" + b)
  {
    assert a + "//" + b == a + [Paths.Slash, Paths.Slash] + b;
    assert a + "/" + b == a + [Paths.Slash] + b;
    Paths.CollapseDoubleSlash(a, b);
  }

  lemma {:induction false} CollapseSlashes(s: string)
    requires |s| > 0
    requires forall i :: 0 <= i < |s| ==> s[i] == Paths.Slash
    ensures Paths.Collapse(s) == "/"
    decreases |s|
  {
    if |s| >= 2 {
      CollapseSlashes(s[1..]);
    }
  }

  /** The empty path and every run of separators resolve to the root. */
  lemma FindNodeRoot(t: Tree, s: string)
    requires Wf(t)
    requires forall i :: 0 <= i < |s| ==> s[i] == Paths.Slash
    ensures FindNode(t, s) == Ok(t.root)
  {
    if |s| > 0 {
      CollapseSlashes(s);
    }
  }

  lemma {:induction false} WalkFolded(t: Tree, cur: ID, parts: seq<string>)
    requires cur in t.nodes
    ensures Walk(t, cur, Paths.LowerAll(parts), true) == Walk(t, cur, parts, true)
    decreases |parts|
  {
    if |parts| > 0 {
      var lp := Paths.LowerAll(parts);
      Paths.LowerIdempotent(parts[0]);
      FirstMatchFolded(t, t.nodes[cur].children, parts[0]);
      assert lp[1..] == Paths.LowerAll(parts[1..]);
      match FirstMatch(t, t.nodes[cur].children, parts[0], true)
      case None =>
      case Some(next) =>
        WalkFolded(t, next, parts[1..]);
    }
  }

  lemma {:induction false} FirstMatchFolded(t: Tree, kids: seq<ID>, part: string)
    ensures FirstMatch(t, kids, Paths.Lower(part), true) == FirstMatch(t, kids, part, true)
    decreases |kids|
  {
    Paths.LowerIdempotent(part);
    if |kids| > 0 {
      FirstMatchFolded(t, kids[1..], part);
    }
  }

  /** Resolution with case folding does not see the case of the query. */
  lemma FindNodeIgnoresCase(t: Tree, path: string)
    requires Wf(t)
    ensures FindNode(t, Paths.Lower(path)) == FindNode(t, path)
  {
    var p := Paths.TrimSlash(Paths.Collapse(path));
    Paths.LowerCollapse(path);
    Paths.LowerTrimSlash(Paths.Collapse(path));
    assert Paths.TrimSlash(Paths.Collapse(Paths.Lower(path))) == Paths.Lower(p);
    if p != "" {
      Paths.LowerSplit(p);
      WalkFolded(t, t.root, Paths.Split(p, Paths.Slash));
    }
  }

  /** The exact variant splits a doubled separator into an empty segment, which must match a child named "". */
  lemma FindNodeExactEmptySegment(t: Tree, a: string)
    requires Wf(t)
    requires |a| > 0 && a[0] != Paths.Slash && Paths.Slash !in a
    requires forall j :: 0 <= j < |t.nodes[t.root].children| && t.nodes[t.root].children[j] in t.nodes ==>
      t.nodes[t.nodes[t.root].children[j]].name != a
    ensures FindNodeExact(t, "/" + a) == Err(NodeNotFound)
  {
    Paths.SplitNoSeparator(a, Paths.Slash);
    assert Paths.TrimSlash("/" + a) == a;
  }

  // ---------------------------------------------------------------------
  // Reachability and the index (buildNodeMap)

  /** A walk from the root along child links, through nodes that have records. */
  ghost predicate IsPath(t: Tree, path: seq<ID>) {
    |path| >= 1 && path[0] == t.root
    && (forall i :: 0 <= i < |path| ==> path[i] in t.nodes)
    && (forall i :: 0 <= i < |path| - 1 ==> path[i] in t.nodes && path[i + 1] in t.nodes[path[i]].children)
  }

  ghost predicate Reachable(t: Tree, id: ID) {
    exists path :: IsPath(t, path) && path[|path| - 1] == id
  }

  /** The children with records of the nodes in s. */
  function Successors(t: Tree, s: set<ID>): (r: set<ID>)
    requires s <= t.nodes.Keys
    ensures r <= t.nodes.Keys
    ensures forall p, c :: p in s && c in t.nodes[p].children && c in t.nodes ==> c in r
    ensures forall c :: c in r ==> exists p :: p in s && c in t.nodes[p].children
  {
    set p, c | p in s && c in t.nodes[p].children && c in t.nodes :: c
  }

  /** Grows seen by the successors of the last layer until nothing new appears. */
  function Closure(t: Tree, seen: set<ID>, frontier: set<ID>): (r: set<ID>)
    requires seen <= t.nodes.Keys && frontier <= seen
    ensures seen <= r <= t.nodes.Keys
    decreases |t.nodes.Keys - seen|
  {
    var next := Successors(t, frontier) - seen;
    if next == {} then seen
    else
      assert t.nodes.Keys - (seen + next) < t.nodes.Keys - seen;
      Closure(t, seen + next, next)
  }

  ghost predicate ClosedOutside(t: Tree, seen: set<ID>, frontier: set<ID>)
    requires seen <= t.nodes.Keys
  {
    forall p, c :: p in seen - frontier && c in t.nodes[p].children && c in t.nodes ==> c in seen
  }

  ghost predicate AllReachable(t: Tree, s: set<ID>) {
    forall x :: x in s ==> Reachable(t, x)
  }

  lemma ExtendPath(t: Tree, path: seq<ID>, c: ID)
    requires IsPath(t, path)
    requires c in t.nodes && c in t.nodes[path[|path| - 1]].children
    ensures IsPath(t, path + [c])
  {
  }

  lemma {:induction false} ClosureSound(t: Tree, seen: set<ID>, frontier: set<ID>)
    requires seen <= t.nodes.Keys && frontier <= seen
    requires AllReachable(t, seen)
    ensures AllReachable(t, Closure(t, seen, frontier))
    decreases |t.nodes.Keys - seen|
  {
    var next := Successors(t, frontier) - seen;
    if next != {} {
      SuccessorsReachable(t, frontier);
      assert AllReachable(t, seen + next);
      assert t.nodes.Keys - (seen + next) < t.nodes.Keys - seen;
      ClosureSound(t, seen + next, next);
    }
  }

  /** A child of a reachable node is reachable. */
  lemma SuccessorsReachable(t: Tree, frontier: set<ID>)
    requires frontier <= t.nodes.Keys && AllReachable(t, frontier)
    ensures AllReachable(t, Successors(t, frontier))
  {
    forall c | c in Successors(t, frontier)
      ensures Reachable(t, c)
    {
      var p :| p in frontier && c in t.nodes[p].children;
      var path :| IsPath(t, path) && path[|path| - 1] == p;
      ExtendPath(t, path, c);
    }
  }

  lemma {:induction false} ClosureClosed(t: Tree, seen: set<ID>, frontier: set<ID>)
    requires seen <= t.nodes.Keys && frontier <= seen
    requires ClosedOutside(t, seen, frontier)
    ensures ClosedOutside(t, Closure(t, seen, frontier), {})
    decreases |t.nodes.Keys - seen|
  {
    var next := Successors(t, frontier) - seen;
    if next != {} {
      assert t.nodes.Keys - (seen + next) < t.nodes.Keys - seen;
      ClosureClosed(t, seen + next, next);
    }
  }

  lemma {:induction false} ClosedHoldsPath(t: Tree, s: set<ID>, path: seq<ID>)
    requires s <= t.nodes.Keys && ClosedOutside(t, s, {})
    requires IsPath(t, path) && t.root in s
    ensures path[|path| - 1] in s
    decreases |path|
  {
    if |path| > 1 {
      var init := path[..|path| - 1];
      assert IsPath(t, init);
      ClosedHoldsPath(t, s, init);
      assert path[|path| - 2] in s;
    }
  }

  /**
   * buildNodeMap (node/tree.go:146-154, client/nodetree/nodetree.go:218-226):
   * the index is rebuilt to hold exactly the nodes reachable from the root.
   * Nothing else in the tree changes.
   */
  function BuildNodeMap(t: Tree): (r: Tree)
    requires Wf(t)
    ensures Wf(r)
    ensures r.nodes == t.nodes && r.root == t.root && r.checkpoint == t.checkpoint
    ensures forall id :: id in r.indexed <==> Reachable(t, id)
  {
    var s := Closure(t, {t.root}, {t.root});
    assert IsPath(t, [t.root]);
    ClosureSound(t, {t.root}, {t.root});
    ClosureClosed(t, {t.root}, {t.root});
    forall id | Reachable(t, id)
      ensures id in s
    {
      var path :| IsPath(t, path) && path[|path| - 1] == id;
      ClosedHoldsPath(t, s, path);
    }
    t.(indexed := s)
  }

  /** Every node a path resolves to is reachable, so it is indexed once the index is rebuilt. */
  lemma {:induction false} WalkReachable(t: Tree, path: seq<ID>, parts: seq<string>, fold: bool)
    requires IsPath(t, path)
    ensures Walk(t, path[|path| - 1], parts, fold).Ok? ==> Reachable(t, Walk(t, path[|path| - 1], parts, fold).value)
    decreases |parts|
  {
    var cur := path[|path| - 1];
    if |parts| == 0 {
    } else {
      match FirstMatch(t, t.nodes[cur].children, parts[0], fold)
      case None =>
      case Some(next) =>
        ExtendPath(t, path, next);
        WalkReachable(t, path + [next], parts[1..], fold);
    }
  }

  lemma FindNodeIndexed(t: Tree, path: string)
    requires Wf(t)
    ensures FindNode(t, path).Ok? ==> FindNode(t, path).value in BuildNodeMap(t).indexed
    ensures FindNodeExact(t, path).Ok? ==> FindNodeExact(t, path).value in BuildNodeMap(t).indexed
  {
    assert IsPath(t, [t.root]);
    var p := Paths.TrimSlash(Paths.Collapse(path));
    WalkReachable(t, [t.root], Paths.Split(p, Paths.Slash), true);
    var q := Paths.TrimSlash(path);
    WalkReachable(t, [t.root], Paths.Split(q, Paths.Slash), false);
  }

  // ---------------------------------------------------------------------
  // Linking and unlinking a child under a list of parents

  /** s with the first k occurrences of x removed (all of them when there are fewer). */
  function RemoveN<T(==)>(s: seq<T>, x: T, k: nat): seq<T>
  {
    if |s| == 0 then []
    else if s[0] == x && k > 0 then RemoveN(s[1..], x, k - 1)
    else [s[0]] + RemoveN(s[1..], x, k)
  }

  lemma RemoveNCounts<T>(s: seq<T>, x: T, k: nat)
    ensures multiset(RemoveN(s, x, k))[x] == if multiset(s)[x] >= k then multiset(s)[x] - k else 0
    ensures forall y :: y != x ==> multiset(RemoveN(s, x, k))[y] == multiset(s)[y]
  {
    RemoveNCount(s, x, k, x);
    forall y | y != x
      ensures multiset(RemoveN(s, x, k))[y] == multiset(s)[y]
    {
      RemoveNCount(s, x, k, y);
    }
  }

  lemma {:induction false} RemoveNCount<T>(s: seq<T>, x: T, k: nat, y: T)
    ensures multiset(RemoveN(s, x, k))[y] ==
      if y != x then multiset(s)[y] else if multiset(s)[x] >= k then multiset(s)[x] - k else 0
  {
    if |s| > 0 {
      assert s == [s[0]] + s[1..];
      if s[0] == x && k > 0 {
        RemoveNCount(s[1..], x, k - 1, y);
      } else {
        RemoveNCount(s[1..], x, k, y);
      }
    }
  }

  lemma {:induction false} RemoveNAbsent<T>(s: seq<T>, x: T, k: nat)
    requires x !in s
    ensures RemoveN(s, x, k) == s
  {
    if |s| > 0 {
      assert x !in s[1..];
      RemoveNAbsent(s[1..], x, k);
      assert s == [s[0]] + s[1..];
    }
  }

  lemma {:induction false} RemoveNZero<T>(s: seq<T>, x: T)
    ensures RemoveN(s, x, 0) == s
  {
    if |s| > 0 {
      RemoveNZero(s[1..], x);
      assert s == [s[0]] + s[1..];
    }
  }

  lemma RemoveFirstCons<T>(s: seq<T>, x: T)
    requires |s| > 0 && s[0] != x && x in s
    ensures RemoveFirst(s, x) == [s[0]] + RemoveFirst(s[1..], x)
  {
    var t := s[1..];
    var i, j := FirstIndex(s, x), FirstIndex(t, x);
    assert i == j + 1;
    assert s[..i] == [s[0]] + t[..j];
    assert s[i + 1..] == t[j + 1..];
    Assoc([s[0]], t[..j], t[j + 1..]);
  }

  lemma Assoc<T>(a: seq<T>, b: seq<T>, c: seq<T>)
    ensures a + b + c == a + (b + c)
  {
  }

  /** Removing k + 1 occurrences is removing the first one, then k more. */
  lemma {:induction false} RemoveNFirst<T>(s: seq<T>, x: T, k: nat)
    ensures RemoveN(s, x, k + 1) == RemoveN(RemoveFirst(s, x), x, k)
  {
    if |s| == 0 {
    } else if s[0] == x {
      assert FirstIndex(s, x) == 0;
      assert RemoveFirst(s, x) == s[1..];
    } else if x in s {
      RemoveFirstCons(s, x);
      RemoveNFirst(s[1..], x, k);
      var u := RemoveFirst(s[1..], x);
      assert ([s[0]] + u)[0] == s[0] && ([s[0]] + u)[1..] == u;
    } else {
      RemoveNAbsent(s, x, k + 1);
      RemoveNAbsent(s, x, k);
    }
  }

  function Repeat<T>(x: T, k: nat): (r: seq<T>)
    ensures |r| == k && forall i :: 0 <= i < k ==> r[i] == x
  {
    if k == 0 then [] else [x] + Repeat(x, k - 1)
  }

  /** The node-level RemoveChild applied to the record of parent p. */
  function Unlink(t: Tree, p: ID, c: ID): Tree
    requires p in t.nodes
  {
    t.(nodes := t.nodes[p := RemoveChild(t.nodes[p], c)])
  }

  /**
   * For each parent ID in turn: look it up in the index and, when found,
   * remove the first occurrence of c from its children. Unindexed parents
   * are skipped. A parent listed k times loses up to k occurrences.
   */
  function UnlinkAll(t: Tree, ps: seq<ID>, c: ID): (r: Tree)
    requires Wf(t)
    ensures Wf(r) && r.nodes.Keys == t.nodes.Keys
    ensures r.indexed == t.indexed && r.root == t.root && r.checkpoint == t.checkpoint
    ensures forall q :: q in t.nodes && (q !in t.indexed || q !in ps) ==> r.nodes[q] == t.nodes[q]
    ensures forall q :: q in t.indexed ==>
      r.nodes[q] == t.nodes[q].(children := RemoveN(t.nodes[q].children, c, multiset(ps)[q]))
    decreases |ps|
  {
    if |ps| == 0 then
      assert forall q :: q in t.indexed ==> RemoveN(t.nodes[q].children, c, 0) == t.nodes[q].children by {
        forall q | q in t.indexed { RemoveNZero(t.nodes[q].children, c); }
      }
      t
    else
      var t1 := if ps[0] in t.indexed then Unlink(t, ps[0], c) else t;
      var r := UnlinkAll(t1, ps[1..], c);
      UnlinkAllStep(t, ps, c, t1, r);
      r
  }

  lemma UnlinkAllStep(t: Tree, ps: seq<ID>, c: ID, t1: Tree, r: Tree)
    requires Wf(t) && |ps| > 0
    requires t1 == if ps[0] in t.indexed then Unlink(t, ps[0], c) else t
    requires Wf(t1) && r.nodes.Keys == t1.nodes.Keys
    requires forall q :: q in t1.nodes && (q !in t1.indexed || q !in ps[1..]) ==> r.nodes[q] == t1.nodes[q]
    requires forall q :: q in t1.indexed ==>
      r.nodes[q] == t1.nodes[q].(children := RemoveN(t1.nodes[q].children, c, multiset(ps[1..])[q]))
    ensures forall q :: q in t.nodes && (q !in t.indexed || q !in ps) ==> r.nodes[q] == t.nodes[q]
    ensures forall q :: q in t.indexed ==>
      r.nodes[q] == t.nodes[q].(children := RemoveN(t.nodes[q].children, c, multiset(ps)[q]))
  {
    assert ps == [ps[0]] + ps[1..];
    forall q | q in t.indexed
      ensures r.nodes[q] == t.nodes[q].(children := RemoveN(t.nodes[q].children, c, multiset(ps)[q]))
    {
      var s := t.nodes[q].children;
      if q == ps[0] {
        assert multiset(ps)[q] == multiset(ps[1..])[q] + 1;
        RemoveNFirst(s, c, multiset(ps[1..])[q]);
      } else {
        assert multiset(ps)[q] == multiset(ps[1..])[q];
      }
    }
  }

  /** LinkAll: for each indexed parent ID in turn, c is appended to its children. */
  function LinkAll(t: Tree, ps: seq<ID>, c: ID): (r: Tree)
    requires Wf(t)
    ensures Wf(r) && r.nodes.Keys == t.nodes.Keys
    ensures r.indexed == t.indexed && r.root == t.root && r.checkpoint == t.checkpoint
    ensures forall q :: q in t.nodes && (q !in t.indexed || q !in ps) ==> r.nodes[q] == t.nodes[q]
    ensures forall q :: q in t.indexed ==>
      r.nodes[q] == t.nodes[q].(children := t.nodes[q].children + Repeat(c, multiset(ps)[q]))
    decreases |ps|
  {
    if |ps| == 0 then t
    else
      var t1 := if ps[0] in t.indexed then t.(nodes := t.nodes[ps[0] := AddChild(t.nodes[ps[0]], c)]) else t;
      var r := LinkAll(t1, ps[1..], c);
      LinkAllStep(t, ps, c, t1, r);
      r
  }

  lemma LinkAllStep(t: Tree, ps: seq<ID>, c: ID, t1: Tree, r: Tree)
    requires Wf(t) && |ps| > 0
    requires t1 == if ps[0] in t.indexed then t.(nodes := t.nodes[ps[0] := AddChild(t.nodes[ps[0]], c)]) else t
    requires Wf(t1) && r.nodes.Keys == t1.nodes.Keys
    requires forall q :: q in t1.nodes && (q !in t1.indexed || q !in ps[1..]) ==> r.nodes[q] == t1.nodes[q]
    requires forall q :: q in t1.indexed ==>
      r.nodes[q] == t1.nodes[q].(children := t1.nodes[q].children + Repeat(c, multiset(ps[1..])[q]))
    ensures forall q :: q in t.nodes && (q !in t.indexed || q !in ps) ==> r.nodes[q] == t.nodes[q]
    ensures forall q :: q in t.indexed ==>
      r.nodes[q] == t.nodes[q].(children := t.nodes[q].children + Repeat(c, multiset(ps)[q]))
  {
    assert ps == [ps[0]] + ps[1..];
    forall q | q in t.indexed
      ensures r.nodes[q] == t.nodes[q].(children := t.nodes[q].children + Repeat(c, multiset(ps)[q]))
    {
      var s := t.nodes[q].children;
      if q == ps[0] {
        var k := multiset(ps[1..])[q];
        assert multiset(ps)[q] == k + 1;
        assert Repeat(c, k + 1) == [c] + Repeat(c, k);
        Assoc(s, [c], Repeat(c, k));
      } else {
        assert multiset(ps)[q] == multiset(ps[1..])[q];
      }
    }
  }

  /** Linking a child under parents that did not list it, then unlinking it, restores the tree. */
  lemma UnlinkAfterLink(t: Tree, ps: seq<ID>, c: ID)
    requires Wf(t)
    requires forall q :: q in ps && q in t.nodes ==> c !in t.nodes[q].children
    ensures UnlinkAll(LinkAll(t, ps, c), ps, c) == t
  {
    var l := LinkAll(t, ps, c);
    var u := UnlinkAll(l, ps, c);
    forall q | q in t.nodes
      ensures u.nodes[q] == t.nodes[q]
    {
      if q in t.indexed && q in ps {
        RemoveNAppended(t.nodes[q].children, c, multiset(ps)[q]);
      }
    }
    assert u.nodes == t.nodes;
  }

  lemma {:induction false} RemoveNRun<T>(c: T, k: nat)
    ensures RemoveN(Repeat(c, k), c, k) == []
  {
    if k > 0 {
      assert Repeat(c, k)[1..] == Repeat(c, k - 1);
      RemoveNRun(c, k - 1);
    }
  }

  lemma {:induction false} RemoveNAppended<T>(s: seq<T>, c: T, k: nat)
    requires c !in s
    ensures RemoveN(s + Repeat(c, k), c, k) == s
  {
    if |s| == 0 {
      assert s + Repeat(c, k) == Repeat(c, k);
      RemoveNRun(c, k);
    } else {
      var t := s + Repeat(c, k);
      assert t[0] == s[0] && t[1..] == s[1..] + Repeat(c, k);
      assert c !in s[1..];
      RemoveNAppended(s[1..], c, k);
      assert s == [s[0]] + s[1..];
    }
  }

  // ---------------------------------------------------------------------
  // RemoveChild as written in client/nodetree/node.go:101-116

  /**
   * The loop variable of node.go:104 shadows the receiver, so on a match at
   * position i of the parent's list, lines 106-110 act on the CHILD's own
   * list: they drop its element i (its last element when i is past the
   * end) and panic when that list is empty. The parent's list is never
   * touched.
   */
  function RemoveChildAsWritten(t: Tree, parent: ID, child: ID): (r: Result<Tree>)
    requires parent in t.nodes && child in t.nodes
    ensures r.Ok? ==> r.value.nodes.Keys == t.nodes.Keys
    ensures r.Ok? && parent != child ==> r.value.nodes[parent] == t.nodes[parent]
    ensures r.Err? ==> r.error == Panic && child in t.nodes[parent].children && |t.nodes[child].children| == 0
  {
    var kids := t.nodes[parent].children;
    if child !in kids then Ok(t)
    else
      var i := FirstIndex(kids, child);
      var cs := t.nodes[child].children;
      if |cs| == 0 then Err(Panic)
      else
        var cs' := if i < |cs| - 1 then cs[..i] + cs[i + 1..] else cs[..|cs| - 1];
        Ok(t.(nodes := t.nodes[child := t.nodes[child].(children := cs')]))
  }

  /** A parent with one childless child: the code as written panics where the intended edit empties the list. */
  lemma RemoveChildAsWrittenPanics(leaf: Node, folder: Node)
    requires leaf.id == "c" && leaf.children == []
    requires folder.id == "p" && folder.children == ["c"]
    ensures RemoveChildAsWritten(Tree(map["p" := folder, "c" := leaf], {"p", "c"}, "p", ""), "p", "c") == Err(Panic)
    ensures RemoveChild(folder, "c").children == []
  {
  }

  /** With a non-empty child list the code as written drops one of the grandchildren and keeps the child. */
  lemma RemoveChildAsWrittenKeepsChild(leaf: Node, mid: Node, folder: Node)
    requires leaf.id == "g" && mid.id == "c" && folder.id == "p"
    requires mid.children == ["g"] && folder.children == ["c"]
    ensures RemoveChildAsWritten(Tree(map["p" := folder, "c" := mid, "g" := leaf], {"p", "c", "g"}, "p", ""), "p", "c")
      == Ok(Tree(map["p" := folder, "c" := mid.(children := []), "g" := leaf], {"p", "c", "g"}, "p", ""))
    ensures RemoveChild(folder, "c").children == [] && RemoveChild(mid, "c") == mid
  {
    var t := Tree(map["p" := folder, "c" := mid, "g" := leaf], {"p", "c", "g"}, "p", "");
    assert FirstIndex(["c"], "c") == 0;
    assert mid.children[..0] == [];
    assert t.nodes["c" := mid.(children := [])] == map["p" := folder, "c" := mid.(children := []), "g" := leaf];
  }
}
