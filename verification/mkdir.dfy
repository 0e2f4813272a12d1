/**
 * Creating a folder path with its missing ancestors: MkdirAll of
 * node/tree.go:79-137 and CreatePath of client/nodetree/nodetree.go:266-313.
 * The two run the same loop and differ only in the lookup they use: the
 * folding FindNode of node/find.go, or the exact one of client/nodetree.
 */
module Mkdir {
  import opened Errors
  import opened Nodes
  import opened Trees
  import Paths
  import Mutations

  /** The lookup a variant resolves paths with. */
  datatype Finder = Folding | Exact

  function Find(t: Tree, path: string, f: Finder): (r: Result<ID>)
    requires Wf(t)
    ensures r.Ok? ==> r.value in t.nodes
    ensures r.Err? ==> r.error == NodeNotFound
  {
    if f.Folding? then FindNode(t, path) else FindNodeExact(t, path)
  }

  /** The first i + 1 segments joined again: the path looked up at step i of the loop. */
  function Prefix(parts: seq<string>, i: nat): string
    requires i < |parts|
  {
    Paths.Join(parts[..i + 1], Paths.Slash)
  }

  /**
   * The loop over the segments from index i, with folder the node reached
   * so far: each prefix is looked up; a missing one is created as a folder
   * under the current node; a failed creation is returned (the lookups
   * fail only with NodeNotFound, so the branch that returns any other
   * lookup error cannot be taken); a node that is not a folder ends the
   * loop with CannotCreateANodeUnderAFile. The last node reached is the
   * result.
   */
  function MkdirFrom(t: Tree, f: Finder, parts: seq<string>, i: nat, folder: ID,
                     server: Mutations.Server, k: nat): (r: Mutations.Effect<ID>)
    requires Wf(t) && folder in t.nodes && i <= |parts|
    ensures Wf(r.tree) && t.nodes.Keys <= r.tree.nodes.Keys
    ensures r.tree.indexed == t.indexed && r.tree.root == t.root && r.tree.checkpoint == t.checkpoint
    ensures k <= r.next <= k + (|parts| - i)
    ensures r.result.Ok? ==> r.result.value in r.tree.nodes
    ensures r.result.Ok? && i < |parts| ==> IsDir(r.tree.nodes[r.result.value])
    ensures i == |parts| ==> r == Mutations.Effect(Ok(folder), t, k)
    ensures i < |parts| && Find(t, Prefix(parts, i), f).Ok? && !IsDir(t.nodes[Find(t, Prefix(parts, i), f).value]) ==>
      r == Mutations.Effect(Err(CannotCreateANodeUnderAFile), t, k)
    decreases |parts| - i
  {
    if i == |parts| then Mutations.Effect(Ok(folder), t, k)
    else
      var found := Find(t, Prefix(parts, i), f);
      var step := if found.Ok? then Mutations.Effect(Ok(found.value), t, k)
        else Mutations.CreateFolder(t, folder, parts[i], server, k);
      if step.result.Err? then step
      else if !IsDir(step.tree.nodes[step.result.value]) then
        Mutations.Effect(Err(CannotCreateANodeUnderAFile), step.tree, step.next)
      else MkdirFrom(step.tree, f, parts, i + 1, step.result.value, server, step.next)
  }

  /**
   * MkdirAll and CreatePath: a path that resolves to a folder is returned
   * without any call; one that resolves to a file is refused with
   * FileExistsAndIsNotFolder; otherwise one leading separator goes and the
   * loop runs over the segments from the root. The result is always a
   * folder, and at most one folder is created per segment.
   */
  function MkdirAll(t: Tree, path: string, f: Finder, server: Mutations.Server, k: nat): (r: Mutations.Effect<ID>)
    requires Wf(t)
    ensures Wf(r.tree) && t.nodes.Keys <= r.tree.nodes.Keys
    ensures r.tree.indexed == t.indexed && r.tree.root == t.root && r.tree.checkpoint == t.checkpoint
    ensures k <= r.next <= k + |Paths.Split(Paths.TrimSlash(path), Paths.Slash)|
    ensures r.result.Ok? ==> r.result.value in r.tree.nodes && IsDir(r.tree.nodes[r.result.value])
    ensures Find(t, path, f).Ok? && IsDir(t.nodes[Find(t, path, f).value]) ==>
      r == Mutations.Effect(Ok(Find(t, path, f).value), t, k)
    ensures Find(t, path, f).Ok? && !IsDir(t.nodes[Find(t, path, f).value]) ==>
      r == Mutations.Effect(Err(FileExistsAndIsNotFolder), t, k)
  {
    match Find(t, path, f)
    case Ok(n) =>
      if IsDir(t.nodes[n]) then Mutations.Effect(Ok(n), t, k)
      else Mutations.Effect(Err(FileExistsAndIsNotFolder), t, k)
    case Err(_) =>
      MkdirFrom(t, f, Paths.Split(Paths.TrimSlash(path), Paths.Slash), 0, t.root, server, k)
  }

  // ---------------------------------------------------------------------
  // The created path resolves

  /** Segments that name a folder each: not empty, no separator. */
  predicate Plain(parts: seq<string>) {
    |parts| >= 1 && forall i :: 0 <= i < |parts| ==> parts[i] != "" && Paths.Slash !in parts[i]
  }

  /** An ID the tree neither holds a record for nor lists as a child. */
  predicate Unused(t: Tree, x: ID) {
    x !in t.nodes && forall q :: q in t.nodes ==> x !in t.nodes[q].children
  }

  /**
   * A service that answers a folder creation, when it answers with a node,
   * with a childless node of the requested name and the ID issue(k) of
   * the k-th call.
   */
  ghost predicate Honest(server: Mutations.Server, issue: nat -> ID) {
    forall k: nat, name: string, ps: seq<ID> ::
      var ex := server(k, Mutations.CreateNode(name, KindFolder, ps));
      ex.Answered? && ex.body.Some? ==>
        ex.body.value.name == name && ex.body.value.children == [] && ex.body.value.id == issue(k)
  }

  ghost predicate Injective(issue: nat -> ID) {
    forall i: nat, j: nat :: i != j ==> issue(i) != issue(j)
  }

  lemma JoinHead(parts: seq<string>)
    requires Plain(parts)
    ensures |Paths.Join(parts, Paths.Slash)| > 0 && Paths.Join(parts, Paths.Slash)[0] == parts[0][0]
  {
  }

  lemma {:induction false} JoinNoDoubleSlash(parts: seq<string>)
    requires Plain(parts)
    ensures Paths.NoDoubleSlash(Paths.Join(parts, Paths.Slash))
    decreases |parts|
  {
    if |parts| > 1 {
      var a := parts[0];
      var b := Paths.Join(parts[1..], Paths.Slash);
      JoinNoDoubleSlash(parts[1..]);
      JoinHead(parts[1..]);
      var s := a + [Paths.Slash] + b;
      forall i | 0 <= i < |s| - 1
        ensures !(s[i] == Paths.Slash && s[i + 1] == Paths.Slash)
      {
        if i < |a| {
          assert s[i] == a[i];
        } else if i == |a| {
          assert s[i + 1] == b[0];
        } else {
          assert s[i] == b[i - |a| - 1] && s[i + 1] == b[i - |a|];
        }
      }
    }
  }

  /** A plain path is resolved by walking its segments from the root, in either lookup. */
  lemma FindPlain(t: Tree, parts: seq<string>, f: Finder)
    requires Wf(t) && Plain(parts)
    ensures Find(t, Paths.Join(parts, Paths.Slash), f) == Walk(t, t.root, parts, f.Folding?)
  {
    var p := Paths.Join(parts, Paths.Slash);
    JoinHead(parts);
    assert Paths.TrimSlash(p) == p;
    Paths.SplitJoin(parts, Paths.Slash);
    if f.Folding? {
      JoinNoDoubleSlash(parts);
      Paths.CollapseIdentity(p);
    }
  }

  /** The same for an absolute path: the leading separator is dropped by both lookups. */
  lemma FindRooted(t: Tree, parts: seq<string>, f: Finder)
    requires Wf(t) && Plain(parts)
    ensures Find(t, [Paths.Slash] + Paths.Join(parts, Paths.Slash), f) == Walk(t, t.root, parts, f.Folding?)
  {
    var j := Paths.Join(parts, Paths.Slash);
    var p := [Paths.Slash] + j;
    JoinHead(parts);
    assert p[1..] == j;
    assert Paths.TrimSlash(p) == j;
    Paths.SplitJoin(parts, Paths.Slash);
    if f.Folding? {
      JoinNoDoubleSlash(parts);
      forall i | 0 <= i < |p| - 1
        ensures !(p[i] == Paths.Slash && p[i + 1] == Paths.Slash)
      {
        if i == 0 {
          assert p[1] == j[0];
        } else {
          assert p[i] == j[i - 1] && p[i + 1] == j[i];
        }
      }
      Paths.CollapseIdentity(p);
    }
  }

  lemma {:induction false} FirstMatchSnoc(t: Tree, kids: seq<ID>, x: ID, part: string, fold: bool)
    ensures FirstMatch(t, kids + [x], part, fold) ==
      if FirstMatch(t, kids, part, fold).Some? then FirstMatch(t, kids, part, fold)
      else if x in t.nodes && Matches(t.nodes[x].name, part, fold) then Some(x)
      else None
    decreases |kids|
  {
    if |kids| > 0 {
      assert (kids + [x])[1..] == kids[1..] + [x];
      FirstMatchSnoc(t, kids[1..], x, part, fold);
    } else {
      assert kids + [x] == [x];
    }
  }

  /** FirstMatch reads only which children have records and their names. */
  lemma {:induction false} FirstMatchSameNames(t: Tree, u: Tree, kids: seq<ID>, part: string, fold: bool)
    requires forall i :: 0 <= i < |kids| ==> (kids[i] in t.nodes <==> kids[i] in u.nodes)
    requires forall i :: 0 <= i < |kids| && kids[i] in t.nodes ==> t.nodes[kids[i]].name == u.nodes[kids[i]].name
    ensures FirstMatch(u, kids, part, fold) == FirstMatch(t, kids, part, fold)
    decreases |kids|
  {
    if |kids| > 0 {
      FirstMatchSameNames(t, u, kids[1..], part, fold);
    }
  }

  /** Attaching a node under an unused ID keeps every walk that succeeded. */
  lemma {:induction false} WalkAttach(t: Tree, p: ID, n: Node, cur: ID, parts: seq<string>, fold: bool)
    requires Wf(t) && p in t.nodes && cur in t.nodes && Unused(t, n.id)
    requires Walk(t, cur, parts, fold).Ok?
    ensures Walk(Mutations.Attach(t, p, n), cur, parts, fold) == Walk(t, cur, parts, fold)
    decreases |parts|
  {
    if |parts| > 0 {
      var u := Mutations.Attach(t, p, n);
      var kids := t.nodes[cur].children;
      var next := FirstMatch(t, kids, parts[0], fold).value;
      FirstMatchSameNames(t, u, kids, parts[0], fold);
      if cur == p {
        FirstMatchSnoc(u, kids, n.id, parts[0], fold);
      }
      WalkAttach(t, p, n, next, parts[1..], fold);
    }
  }

  /** After a missing segment is created, the walk to it succeeds. */
  lemma WalkCreated(t: Tree, folder: ID, n: Node, parts: seq<string>, i: nat, fold: bool)
    requires Wf(t) && folder in t.nodes && Unused(t, n.id) && i < |parts|
    requires n.name == parts[i] && n.children == []
    requires Walk(t, t.root, parts[..i], fold) == Ok(folder)
    requires Walk(t, t.root, parts[..i + 1], fold).Err?
    ensures Walk(Mutations.Attach(t, folder, n), t.root, parts[..i + 1], fold) == Ok(n.id)
  {
    var u := Mutations.Attach(t, folder, n);
    var pre, x := parts[..i], parts[i];
    TakeSnoc(parts, i);
    WalkStops(t, pre, x, folder, fold);
    WalkAttach(t, folder, n, t.root, pre, fold);
    NewChildMatches(t, folder, n, x, fold);
    assert [x][1..] == [];
    assert Walk(u, folder, [x], fold) == Ok(n.id);
    WalkAppend(u, t.root, pre, [x], fold);
  }

  lemma TakeSnoc<T>(s: seq<T>, i: nat)
    requires i < |s|
    ensures s[..i + 1] == s[..i] + [s[i]]
  {
  }

  /** A walk that reaches a folder and fails one segment later found no child of that name. */
  lemma WalkStops(t: Tree, pre: seq<string>, x: string, folder: ID, fold: bool)
    requires Wf(t) && Walk(t, t.root, pre, fold) == Ok(folder)
    requires Walk(t, t.root, pre + [x], fold).Err?
    ensures FirstMatch(t, t.nodes[folder].children, x, fold).None?
  {
    WalkAppend(t, t.root, pre, [x], fold);
    assert [x][1..] == [];
  }

  /** A new child named x, attached where no child matched x, is the first match. */
  lemma NewChildMatches(t: Tree, folder: ID, n: Node, x: string, fold: bool)
    requires Wf(t) && folder in t.nodes && Unused(t, n.id) && n.name == x
    requires FirstMatch(t, t.nodes[folder].children, x, fold).None?
    ensures folder in Mutations.Attach(t, folder, n).nodes
    ensures FirstMatch(Mutations.Attach(t, folder, n), Mutations.Attach(t, folder, n).nodes[folder].children, x, fold) == Some(n.id)
  {
    var u := Mutations.Attach(t, folder, n);
    var kids := t.nodes[folder].children;
    assert u.nodes[folder].children == kids + [n.id];
    FirstMatchSameNames(t, u, kids, x, fold);
    FirstMatchSnoc(u, kids, n.id, x, fold);
    assert Matches(n.name, x, fold);
  }

  /** One creation by an honest service: the new prefix resolves to the new folder, and later IDs stay unused. */
  lemma CreatedStep(t: Tree, folder: ID, parts: seq<string>, i: nat, fold: bool,
                    server: Mutations.Server, k: nat, issue: nat -> ID)
    requires Wf(t) && folder in t.nodes && i < |parts|
    requires Walk(t, t.root, parts[..i], fold) == Ok(folder)
    requires Walk(t, t.root, parts[..i + 1], fold).Err?
    requires Honest(server, issue) && Injective(issue)
    requires forall j: nat :: j >= k ==> Unused(t, issue(j))
    requires Mutations.CreateFolder(t, folder, parts[i], server, k).result.Ok?
    ensures var step := Mutations.CreateFolder(t, folder, parts[i], server, k);
      && Walk(step.tree, step.tree.root, parts[..i + 1], fold) == Ok(step.result.value)
      && step.result.value in step.tree.nodes
      && forall j: nat :: j >= k + 1 ==> Unused(step.tree, issue(j))
  {
    var step := Mutations.CreateFolder(t, folder, parts[i], server, k);
    var ex := server(k, Mutations.FolderRequest(t.nodes[folder].id, parts[i]));
    var n := ex.body.value;
    assert n.name == parts[i] && n.children == [] && n.id == issue(k);
    assert Unused(t, n.id);
    assert step.tree == Mutations.Attach(t, folder, n);
    WalkCreated(t, folder, n, parts, i, fold);
    forall j: nat | j >= k + 1
      ensures Unused(step.tree, issue(j))
    {
      assert issue(j) != issue(k);
      assert Unused(t, issue(j));
    }
  }

  /**
   * Each prefix the loop gets past resolves, after the loop, to the node
   * it reached: a successful run leaves the whole path resolving to the
   * folder it returns. The service must answer with fresh IDs and the
   * names it was given.
   */
  lemma {:induction false} MkdirFromFinds(t: Tree, f: Finder, parts: seq<string>, i: nat, folder: ID,
                                          server: Mutations.Server, k: nat, issue: nat -> ID)
    requires Wf(t) && folder in t.nodes && i <= |parts| && Plain(parts)
    requires Walk(t, t.root, parts[..i], f.Folding?) == Ok(folder)
    requires Honest(server, issue) && Injective(issue)
    requires forall j: nat :: j >= k ==> Unused(t, issue(j))
    ensures var r := MkdirFrom(t, f, parts, i, folder, server, k);
      r.result.Ok? ==> Walk(r.tree, r.tree.root, parts, f.Folding?) == Ok(r.result.value)
    decreases |parts| - i, 1
  {
    if i == |parts| {
      TakeAll(parts);
    } else if Find(t, Prefix(parts, i), f).Ok? {
      FoundStepFinds(t, f, parts, i, folder, server, k, issue);
    } else {
      CreatedStepFinds(t, f, parts, i, folder, server, k, issue);
    }
  }

  lemma TakeAll<T>(s: seq<T>)
    ensures s[..|s|] == s
  {
  }

  /** The step of MkdirFromFinds where the next prefix already resolves. */
  lemma {:induction false} FoundStepFinds(t: Tree, f: Finder, parts: seq<string>, i: nat, folder: ID,
                                          server: Mutations.Server, k: nat, issue: nat -> ID)
    requires Wf(t) && folder in t.nodes && i <= |parts| && Plain(parts)
    requires Walk(t, t.root, parts[..i], f.Folding?) == Ok(folder)
    requires Honest(server, issue) && Injective(issue)
    requires forall j: nat :: j >= k ==> Unused(t, issue(j))
    requires i < |parts| && Find(t, Prefix(parts, i), f).Ok?
    ensures var r := MkdirFrom(t, f, parts, i, folder, server, k);
      r.result.Ok? ==> Walk(r.tree, r.tree.root, parts, f.Folding?) == Ok(r.result.value)
    decreases |parts| - i, 0
  {
    var found := Find(t, Prefix(parts, i), f);
    if IsDir(t.nodes[found.value]) {
      assert Walk(t, t.root, parts[..i + 1], f.Folding?) == Ok(found.value) by {
        PlainPrefix(parts, i + 1);
        FindPlain(t, parts[..i + 1], f);
      }
      assert MkdirFrom(t, f, parts, i, folder, server, k) == MkdirFrom(t, f, parts, i + 1, found.value, server, k);
      MkdirFromFinds(t, f, parts, i + 1, found.value, server, k, issue);
    }
  }

  /** The step of MkdirFromFinds where the next folder is created. */
  lemma {:induction false} CreatedStepFinds(t: Tree, f: Finder, parts: seq<string>, i: nat, folder: ID,
                                            server: Mutations.Server, k: nat, issue: nat -> ID)
    requires Wf(t) && folder in t.nodes && i <= |parts| && Plain(parts)
    requires Walk(t, t.root, parts[..i], f.Folding?) == Ok(folder)
    requires Honest(server, issue) && Injective(issue)
    requires forall j: nat :: j >= k ==> Unused(t, issue(j))
    requires i < |parts| && Find(t, Prefix(parts, i), f).Err?
    ensures var r := MkdirFrom(t, f, parts, i, folder, server, k);
      r.result.Ok? ==> Walk(r.tree, r.tree.root, parts, f.Folding?) == Ok(r.result.value)
    decreases |parts| - i, 0
  {
    var step := Mutations.CreateFolder(t, folder, parts[i], server, k);
    if step.result.Ok? && IsDir(step.tree.nodes[step.result.value]) {
      assert Walk(t, t.root, parts[..i + 1], f.Folding?).Err? by {
        PlainPrefix(parts, i + 1);
        FindPlain(t, parts[..i + 1], f);
      }
      CreatedStep(t, folder, parts, i, f.Folding?, server, k, issue);
      assert MkdirFrom(t, f, parts, i, folder, server, k) == MkdirFrom(step.tree, f, parts, i + 1, step.result.value, server, k + 1);
      MkdirFromFinds(step.tree, f, parts, i + 1, step.result.value, server, k + 1, issue);
    }
  }

  lemma PlainPrefix(parts: seq<string>, n: nat)
    requires Plain(parts) && 1 <= n <= |parts|
    ensures Plain(parts[..n])
  {
    forall j | 0 <= j < n
      ensures parts[..n][j] != "" && Paths.Slash !in parts[..n][j]
    {
      assert parts[..n][j] == parts[j];
    }
  }

  /**
   * Creating a plain path a second time finds what the first run left:
   * the same folder comes back, the tree is not touched and no call is
   * made.
   */
  lemma MkdirAllIdempotent(t: Tree, parts: seq<string>, f: Finder, server: Mutations.Server, k: nat,
                           issue: nat -> ID, again: Mutations.Server, k2: nat)
    requires Wf(t) && Plain(parts)
    requires Honest(server, issue) && Injective(issue)
    requires forall j: nat :: j >= k ==> Unused(t, issue(j))
    requires MkdirAll(t, Paths.Join(parts, Paths.Slash), f, server, k).result.Ok?
    ensures var r := MkdirAll(t, Paths.Join(parts, Paths.Slash), f, server, k);
      MkdirAll(r.tree, Paths.Join(parts, Paths.Slash), f, again, k2) == Mutations.Effect(Ok(r.result.value), r.tree, k2)
  {
    var path := Paths.Join(parts, Paths.Slash);
    var r := MkdirAll(t, path, f, server, k);
    if Find(t, path, f).Err? {
      JoinHead(parts);
      assert Paths.TrimSlash(path) == path;
      Paths.SplitJoin(parts, Paths.Slash);
      assert parts[..0] == [];
      MkdirFromFinds(t, f, parts, 0, t.root, server, k, issue);
      FindPlain(r.tree, parts, f);
    }
  }
}
