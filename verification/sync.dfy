/**
 * Incremental synchronisation with the change feed (node/sync.go): the
 * record loop of Sync and the reconciliation of one batch of changed nodes
 * in updateNodes, with the parent differences of node/util.go.
 *
 * node/sync.go:156 assigns the merged node through the payload pointer, so
 * the record held by the tree is never updated; the comment above it and
 * the rest of the function intend the stored record to receive it. The
 * model commits onto the stored record (Reconcile); ReconcileAsWritten
 * keeps the code as written for comparison.
 */
module Sync {
  import opened Errors
  import opened Nodes
  import opened Trees
  import opened Util
  import Response
  import Mutations

  /** One line of the feed, decoded: {"checkpoint", "nodes", "reset", "end"}. */
  datatype ChangeRecord = ChangeRecord(checkpoint: string, nodes: seq<Node>, reset: bool, end: bool)

  /** A line of the response body, which either decodes or does not. */
  datatype Line = Malformed | Decoded(record: ChangeRecord)

  /**
   * The answer to the changes request: failed before an answer, or a
   * status, the lines of the body, whether the body ends with a newline,
   * and whether reading the body failed. The lines are those a line
   * scanner gives: a last line without its newline is one of them, and
   * nothing follows a final newline.
   */
  datatype Feed =
    | FeedUnsent(failure: Mutations.SendFailure)
    | FeedAnswered(status: int, lines: seq<Line>, endsWithNewline: bool, readFailed: bool)

  /**
   * The pieces bytes.Split(body, "\n") gives (node/sync.go:66): the lines,
   * followed by an empty piece, which does not decode, when the body ends
   * with a newline or is empty. There is always at least one piece.
   */
  function Pieces(lines: seq<Line>, endsWithNewline: bool): (r: seq<Line>)
    ensures |r| > 0 && |lines| <= |r| <= |lines| + 1 && r[..|lines|] == lines
    ensures |r| == |lines| + 1 <==> endsWithNewline || |lines| == 0
    ensures |r| == |lines| + 1 ==> r[|lines|].Malformed?
  {
    if endsWithNewline || |lines| == 0 then lines + [Malformed] else lines
  }

  /**
   * The result of a pass over the lines: the error or nil returned, the
   * tree, how many lines were read, and whether the pass stopped before
   * running out of lines.
   */
  datatype Run = Run(outcome: Outcome, tree: Tree, consumed: nat, halted: bool)

  /** The outcome and tree of a batch or of a single node. */
  datatype Step = Step(outcome: Outcome, tree: Tree)

  predicate NoDup(s: seq<ID>) {
    forall i, j :: 0 <= i < j < |s| ==> s[i] != s[j]
  }

  /** An indexed node's parent list has no repeats and does not name the node. */
  ghost predicate CleanParents(t: Tree, c: ID)
    requires Wf(t) && c in t.indexed
  {
    NoDup(t.nodes[c].parents) && c !in t.nodes[c].parents
  }

  /**
   * Indexed q holds c among its children as many times as c, when indexed,
   * lists q as a parent, and never holds an unindexed child.
   */
  ghost predicate CountsAgree(t: Tree, q: ID, c: ID)
    requires Wf(t) && q in t.indexed
  {
    multiset(t.nodes[q].children)[c] == if c in t.indexed then multiset(t.nodes[c].parents)[q] else 0
  }

  /** The graph agrees with the parent lists over the index. */
  ghost predicate Consistent(t: Tree) {
    Wf(t)
    && (forall c :: c in t.indexed ==> CleanParents(t, c))
    && (forall q, c :: q in t.indexed ==> CountsAgree(t, q, c))
  }

  /** A payload of the change feed as the service sends it: no child list, distinct parents, not its own parent. */
  predicate PlainPayload(p: Node) {
    p.children == [] && NoDup(p.parents) && p.id !in p.parents
  }

  // ---------------------------------------------------------------------
  // updateNodes

  /** The IDs of a batch. */
  function Ids(ps: seq<Node>): (r: set<ID>)
    ensures forall i :: 0 <= i < |ps| ==> ps[i].id in r
    ensures forall x :: x in r ==> exists i :: 0 <= i < |ps| && ps[i].id == x
  {
    if |ps| == 0 then {}
    else
      var r := {ps[0].id} + Ids(ps[1..]);
      assert forall x :: x in Ids(ps[1..]) ==> exists i :: 0 <= i < |ps| && ps[i].id == x by {
        forall x | x in Ids(ps[1..])
          ensures exists i :: 0 <= i < |ps| && ps[i].id == x
        {
          var i :| 0 <= i < |ps[1..]| && ps[1..][i].id == x;
          assert ps[i + 1].id == x;
        }
      }
      r
  }

  /** The first payload of the batch that carries the ID. */
  function FirstWithId(ps: seq<Node>, x: ID): (p: Node)
    requires x in Ids(ps)
    ensures p.id == x
    ensures exists i :: 0 <= i < |ps| && ps[i] == p && forall j :: 0 <= j < i ==> ps[j].id != x
  {
    if ps[0].id == x then ps[0]
    else
      var p := FirstWithId(ps[1..], x);
      var i :| 0 <= i < |ps[1..]| && ps[1..][i] == p && forall j :: 0 <= j < i ==> ps[1..][j].id != x;
      assert ps[i + 1] == p && forall j :: 0 <= j < i + 1 ==> ps[j].id != x;
      p
  }

  /**
   * The first loop of updateNodes (node/sync.go:93-103): each ID missing
   * from the index gets a copy of its first payload with no parents, so
   * that the second loop sees all of its parents as added. Indexed records
   * are left alone.
   */
  function Seed(t: Tree, ps: seq<Node>): (r: Tree)
    requires Wf(t)
    ensures Wf(r) && r.root == t.root && r.checkpoint == t.checkpoint
    ensures r.indexed == t.indexed + Ids(ps) && r.nodes.Keys == t.nodes.Keys + Ids(ps)
    ensures forall q :: q in t.nodes && (q in t.indexed || q !in Ids(ps)) ==> r.nodes[q] == t.nodes[q]
    ensures forall q :: q in Ids(ps) - t.indexed ==> r.nodes[q] == FirstWithId(ps, q).(parents := [])
    decreases |ps|
  {
    if |ps| == 0 then t
    else
      var p := ps[0];
      var t1 := if p.id in t.indexed then t
        else t.(nodes := t.nodes[p.id := p.(parents := [])], indexed := t.indexed + {p.id});
      var r := Seed(t1, ps[1..]);
      SeedStep(t, ps, t1, r);
      r
  }

  /** One step of the seeding recursion: the head record's contribution. */
  lemma SeedStep(t: Tree, ps: seq<Node>, t1: Tree, r: Tree)
    requires Wf(t) && |ps| > 0
    requires t1 == if ps[0].id in t.indexed then t
      else t.(nodes := t.nodes[ps[0].id := ps[0].(parents := [])], indexed := t.indexed + {ps[0].id})
    requires r.indexed == t1.indexed + Ids(ps[1..]) && r.nodes.Keys == t1.nodes.Keys + Ids(ps[1..])
    requires forall q :: q in t1.nodes && (q in t1.indexed || q !in Ids(ps[1..])) ==> r.nodes[q] == t1.nodes[q]
    requires forall q :: q in Ids(ps[1..]) - t1.indexed ==> r.nodes[q] == FirstWithId(ps[1..], q).(parents := [])
    ensures r.indexed == t.indexed + Ids(ps) && r.nodes.Keys == t.nodes.Keys + Ids(ps)
    ensures forall q :: q in t.nodes && (q in t.indexed || q !in Ids(ps)) ==> r.nodes[q] == t.nodes[q]
    ensures forall q :: q in Ids(ps) - t.indexed ==> r.nodes[q] == FirstWithId(ps, q).(parents := [])
  {
    SeedStepSets(t, ps, t1, r);
    SeedStepKept(t, ps, t1, r);
    SeedStepFresh(t, ps, t1, r);
  }

  lemma SeedStepSets(t: Tree, ps: seq<Node>, t1: Tree, r: Tree)
    requires Wf(t) && |ps| > 0
    requires t1 == if ps[0].id in t.indexed then t
      else t.(nodes := t.nodes[ps[0].id := ps[0].(parents := [])], indexed := t.indexed + {ps[0].id})
    requires r.indexed == t1.indexed + Ids(ps[1..]) && r.nodes.Keys == t1.nodes.Keys + Ids(ps[1..])
    ensures r.indexed == t.indexed + Ids(ps) && r.nodes.Keys == t.nodes.Keys + Ids(ps)
  {
    var i := ps[0].id;
    assert Ids(ps) == {i} + Ids(ps[1..]);
    if i in t.indexed {
      assert t1.indexed + Ids(ps[1..]) == t.indexed + Ids(ps);
      assert t1.nodes.Keys + Ids(ps[1..]) == t.nodes.Keys + Ids(ps);
    } else {
      assert t1.indexed == t.indexed + {i};
      assert t1.nodes.Keys == t.nodes.Keys + {i};
    }
  }

  lemma SeedStepKept(t: Tree, ps: seq<Node>, t1: Tree, r: Tree)
    requires Wf(t) && |ps| > 0
    requires t1 == if ps[0].id in t.indexed then t
      else t.(nodes := t.nodes[ps[0].id := ps[0].(parents := [])], indexed := t.indexed + {ps[0].id})
    requires r.indexed == t1.indexed + Ids(ps[1..]) && r.nodes.Keys == t1.nodes.Keys + Ids(ps[1..])
    requires forall q :: q in t1.nodes && (q in t1.indexed || q !in Ids(ps[1..])) ==> r.nodes[q] == t1.nodes[q]
    requires forall q :: q in Ids(ps[1..]) - t1.indexed ==> r.nodes[q] == FirstWithId(ps[1..], q).(parents := [])
    ensures forall q :: q in t.nodes && (q in t.indexed || q !in Ids(ps)) ==> r.nodes[q] == t.nodes[q]
  {
    assert Ids(ps) == {ps[0].id} + Ids(ps[1..]);
    forall q | q in t.nodes && (q in t.indexed || q !in Ids(ps))
      ensures r.nodes[q] == t.nodes[q]
    {
      assert q in t1.nodes && t1.nodes[q] == t.nodes[q];
    }
  }

  lemma SeedStepFresh(t: Tree, ps: seq<Node>, t1: Tree, r: Tree)
    requires Wf(t) && |ps| > 0
    requires t1 == if ps[0].id in t.indexed then t
      else t.(nodes := t.nodes[ps[0].id := ps[0].(parents := [])], indexed := t.indexed + {ps[0].id})
    requires r.indexed == t1.indexed + Ids(ps[1..]) && r.nodes.Keys == t1.nodes.Keys + Ids(ps[1..])
    requires forall q :: q in t1.nodes && (q in t1.indexed || q !in Ids(ps[1..])) ==> r.nodes[q] == t1.nodes[q]
    requires forall q :: q in Ids(ps[1..]) - t1.indexed ==> r.nodes[q] == FirstWithId(ps[1..], q).(parents := [])
    ensures forall q :: q in Ids(ps) - t.indexed ==> r.nodes[q] == FirstWithId(ps, q).(parents := [])
  {
    assert Ids(ps) == {ps[0].id} + Ids(ps[1..]);
    forall q | q in Ids(ps) - t.indexed
      ensures r.nodes[q] == FirstWithId(ps, q).(parents := [])
    {
      if q == ps[0].id {
        assert FirstWithId(ps, q) == ps[0];
        assert q in t1.indexed && r.nodes[q] == t1.nodes[q];
      } else {
        assert FirstWithId(ps, q) == FirstWithId(ps[1..], q);
      }
    }
  }

  /**
   * The second loop of updateNodes for one payload (node/sync.go:106-156),
   * with the merged node committed onto the stored record:
   * - the ID must be indexed; it is not only when an earlier payload of the
   *   same batch deleted it, and the program then dereferences nil;
   * - the payload is merged into a copy of the stored record;
   * - a node no longer AVAILABLE leaves the children of its merged and its
   *   stored parents and leaves the index;
   * - otherwise the parents it lost drop it, the parents it gained add it,
   *   and the record becomes the merged node.
   */
  function Reconcile(t: Tree, p: Node): (r: Step)
    requires Wf(t)
    ensures Wf(r.tree) && r.tree.root == t.root && r.tree.checkpoint == t.checkpoint
    ensures r.tree.nodes.Keys == t.nodes.Keys
    ensures r.outcome.Fail? <==> p.id !in t.indexed
    ensures r.outcome.Fail? ==> r.outcome.error == Panic && r.tree == t
    ensures r.outcome.Pass? && !Available(Update(t.nodes[p.id], p)) ==>
      r.tree.indexed == t.indexed - {p.id}
    ensures r.outcome.Pass? && Available(Update(t.nodes[p.id], p)) ==>
      r.tree.indexed == t.indexed && r.tree.nodes[p.id] == Update(t.nodes[p.id], p)
  {
    if p.id !in t.indexed then Step(Fail(Panic), t)
    else
      var stored := t.nodes[p.id];
      var merged := Update(stored, p);
      if !Available(merged) then
        var t1 := UnlinkAll(t, merged.parents + stored.parents, p.id);
        Step(Pass, t1.(indexed := t1.indexed - {p.id}))
      else
        var t1 := UnlinkAll(t, Diff(stored.parents, merged.parents), p.id);
        var t2 := LinkAll(t1, Diff(merged.parents, stored.parents), p.id);
        Step(Pass, t2.(nodes := t2.nodes[p.id := merged]))
  }

  /**
   * Reconcile as node/sync.go:106-156 is written: the merged node is
   * assigned through the payload, which the tree does not hold, so the
   * stored record keeps its old fields and its old parent list.
   */
  function ReconcileAsWritten(t: Tree, p: Node): (r: Step)
    requires Wf(t)
    ensures Wf(r.tree) && r.tree.nodes.Keys == t.nodes.Keys
    ensures r.outcome.Pass? ==> p.id in t.indexed && r.tree.nodes[p.id].parents == t.nodes[p.id].parents
    ensures r.outcome.Fail? ==> r.tree == t
  {
    if p.id !in t.indexed then Step(Fail(Panic), t)
    else
      var stored := t.nodes[p.id];
      var merged := Update(stored, p);
      if !Available(merged) then
        var t1 := UnlinkAll(t, merged.parents + stored.parents, p.id);
        Step(Pass, t1.(indexed := t1.indexed - {p.id}))
      else
        var t1 := UnlinkAll(t, Diff(stored.parents, merged.parents), p.id);
        Step(Pass, LinkAll(t1, Diff(merged.parents, stored.parents), p.id))
  }

  /** The second loop: payloads in order, stopping at the first failure. */
  function ReconcileAll(t: Tree, ps: seq<Node>): (r: Step)
    requires Wf(t)
    ensures Wf(r.tree) && r.tree.root == t.root && r.tree.checkpoint == t.checkpoint
    ensures r.tree.nodes.Keys == t.nodes.Keys
    ensures r.outcome.Fail? ==> r.outcome.error == Panic
    decreases |ps|
  {
    if |ps| == 0 then Step(Pass, t)
    else
      var s := Reconcile(t, ps[0]);
      if s.outcome.Fail? then s else ReconcileAll(s.tree, ps[1..])
  }

  /** updateNodes (node/sync.go:91-160). */
  function UpdateNodes(t: Tree, ps: seq<Node>): (r: Step)
    requires Wf(t)
    ensures Wf(r.tree) && r.tree.root == t.root && r.tree.checkpoint == t.checkpoint
    ensures r.outcome.Fail? ==> r.outcome.error == Panic
  {
    ReconcileAll(Seed(t, ps), ps)
  }

  // ---------------------------------------------------------------------
  // The record loop

  function StoreCheckpoint(t: Tree, cp: string): Tree {
    if cp != "" then t.(checkpoint := cp) else t
  }

  /**
   * The last non-empty checkpoint among the decoded lines, or cp when there
   * is none: the checkpoint the tree should hold after reading them.
   */
  function LatestCheckpoint(cp: string, lines: seq<Line>): string
  {
    if |lines| == 0 then cp
    else
      var last := lines[|lines| - 1];
      if last.Decoded? && last.record.checkpoint != "" then last.record.checkpoint
      else LatestCheckpoint(cp, lines[..|lines| - 1])
  }

  predicate Stops(l: Line) {
    l.Malformed? || l.record.reset || l.record.end
  }

  /** The checkpoint held after reading one line. */
  function NextCheckpoint(cp: string, l: Line): string {
    if l.Decoded? && l.record.checkpoint != "" then l.record.checkpoint else cp
  }

  /** What one line does: the pass goes on with a tree, or stops with an outcome and a tree. */
  datatype Next = Continue(tree: Tree) | Stop(outcome: Outcome, tree: Tree)

  /**
   * The body of the loop of node/sync.go:66-86 for one line: a line that
   * does not decode fails the pass; a non-empty checkpoint is stored;
   * reset fails the pass with ErrMustFetchFresh, tested before end; end
   * stops the pass successfully; otherwise the nodes of the record are
   * applied, and a failure there stops the pass.
   */
  function ApplyLine(t: Tree, l: Line): (r: Next)
    requires Wf(t)
    ensures Wf(r.tree) && r.tree.root == t.root
    ensures r.tree.checkpoint == NextCheckpoint(t.checkpoint, l)
    ensures r.Continue? ==> !Stops(l)
    ensures r.Stop? && r.outcome == Fail(JSONDecodingResponseBody) <==> l.Malformed?
    ensures r.Stop? && r.outcome == Fail(MustFetchFresh) <==> l.Decoded? && l.record.reset
    ensures r.Stop? && r.outcome.Pass? <==> l.Decoded? && !l.record.reset && l.record.end
    ensures r.Stop? && r.outcome == Fail(Panic) <==> !Stops(l) && UpdateNodes(StoreCheckpoint(t, l.record.checkpoint), l.record.nodes).outcome.Fail?
    ensures l.Malformed? ==> r.tree == t
  {
    match l
    case Malformed => Stop(Fail(JSONDecodingResponseBody), t)
    case Decoded(cr) =>
      var t1 := StoreCheckpoint(t, cr.checkpoint);
      if cr.reset then Stop(Fail(MustFetchFresh), t1)
      else if cr.end then Stop(Pass, t1)
      else
        var u := UpdateNodes(t1, cr.nodes);
        if u.outcome.Fail? then Stop(u.outcome, u.tree) else Continue(u.tree)
  }

  /**
   * The loop of node/sync.go:66-86 over the lines of the body: lines in
   * order until one stops the pass. Records applied before a failure stay
   * applied.
   */
  function ApplyLines(t: Tree, lines: seq<Line>): (r: Run)
    requires Wf(t)
    ensures Wf(r.tree) && r.tree.root == t.root
    ensures r.consumed <= |lines|
    ensures !r.halted ==> r.consumed == |lines| && r.outcome.Pass?
    ensures r.halted ==> r.consumed > 0
    ensures r.outcome.Fail? ==> r.halted
    decreases |lines|
  {
    if |lines| == 0 then Run(Pass, t, 0, false)
    else
      match ApplyLine(t, lines[0])
      case Stop(outcome, t1) => Run(outcome, t1, 1, true)
      case Continue(t1) =>
        var r := ApplyLines(t1, lines[1..]);
        Run(r.outcome, r.tree, r.consumed + 1, r.halted)
  }

  lemma {:induction false} LatestCheckpointCons(cp: string, lines: seq<Line>, n: nat)
    requires |lines| > 0 && n < |lines|
    ensures LatestCheckpoint(cp, lines[..n + 1]) == LatestCheckpoint(NextCheckpoint(cp, lines[0]), lines[1..][..n])
    decreases n
  {
    if n > 0 {
      assert lines[..n + 1][..n] == lines[..n];
      assert lines[1..][..n][..n - 1] == lines[1..][..n - 1];
      assert lines[..n + 1][n] == lines[1..][..n][n - 1];
      LatestCheckpointCons(cp, lines, n - 1);
    } else {
      assert lines[..1][..0] == [];
    }
  }

  /** After a pass the tree holds the last non-empty checkpoint among the lines it read. */
  lemma {:induction false} ApplyLinesCheckpoint(t: Tree, lines: seq<Line>)
    requires Wf(t)
    ensures var r := ApplyLines(t, lines);
      r.tree.checkpoint == LatestCheckpoint(t.checkpoint, lines[..r.consumed])
    decreases |lines|
  {
    if |lines| > 0 {
      var n := ApplyLine(t, lines[0]);
      if n.Continue? {
        var r1 := ApplyLines(n.tree, lines[1..]);
        ApplyLinesCheckpoint(n.tree, lines[1..]);
        LatestCheckpointCons(t.checkpoint, lines, r1.consumed);
      } else {
        LatestCheckpointCons(t.checkpoint, lines, 0);
      }
    }
  }

  /** Every line before the one that stopped the pass went through; a pass that did not stop read only such lines. */
  lemma {:induction false} ApplyLinesPrefix(t: Tree, lines: seq<Line>)
    requires Wf(t)
    ensures var r := ApplyLines(t, lines);
      && (!r.halted ==> forall i :: 0 <= i < |lines| ==> !Stops(lines[i]))
      && (r.halted ==> forall i :: 0 <= i < r.consumed - 1 ==> !Stops(lines[i]))
    decreases |lines|
  {
    if |lines| > 0 {
      var n := ApplyLine(t, lines[0]);
      if n.Continue? {
        var r1 := ApplyLines(n.tree, lines[1..]);
        ApplyLinesPrefix(n.tree, lines[1..]);
        assert ApplyLines(t, lines) == Run(r1.outcome, r1.tree, r1.consumed + 1, r1.halted);
        assert !Stops(lines[0]);
        forall i | 0 < i < |lines| && (!r1.halted || i < r1.consumed)
          ensures !Stops(lines[i])
        {
          assert lines[i] == lines[1..][i - 1];
        }
      }
    }
  }

  /** How a pass ends: the outcome names the line that stopped it. */
  lemma {:induction false} ApplyLinesStop(t: Tree, lines: seq<Line>)
    requires Wf(t)
    ensures var r := ApplyLines(t, lines);
      && (r.outcome == Fail(JSONDecodingResponseBody) <==> r.halted && lines[r.consumed - 1].Malformed?)
      && (r.outcome == Fail(MustFetchFresh) <==> r.halted && lines[r.consumed - 1].Decoded? && lines[r.consumed - 1].record.reset)
      && (r.halted && r.outcome.Pass? <==> r.halted && lines[r.consumed - 1].Decoded? && !lines[r.consumed - 1].record.reset && lines[r.consumed - 1].record.end)
      && (r.outcome == Fail(Panic) ==> r.halted && !Stops(lines[r.consumed - 1]))
    decreases |lines|
  {
    if |lines| > 0 {
      var n := ApplyLine(t, lines[0]);
      if n.Continue? {
        var r1 := ApplyLines(n.tree, lines[1..]);
        ApplyLinesStop(n.tree, lines[1..]);
        assert ApplyLines(t, lines) == Run(r1.outcome, r1.tree, r1.consumed + 1, r1.halted);
        if r1.halted {
          assert lines[1..][r1.consumed - 1] == lines[r1.consumed];
        }
      } else {
        assert ApplyLines(t, lines) == Run(n.outcome, n.tree, 1, true);
      }
    }
  }

  /**
   * Sync (node/sync.go:31-89): the request fails, the status is an error,
   * the body cannot be read, or the lines are applied.
   */
  function SyncFeed(t: Tree, feed: Feed): (r: Run)
    requires Wf(t)
    ensures Wf(r.tree) && r.tree.root == t.root
    ensures feed.FeedUnsent? ==> r.outcome == Fail(Mutations.SendError(feed.failure)) && r.tree == t
    ensures feed.FeedAnswered? && !Response.IsSuccess(feed.status) ==> r.outcome.Fail? && r.tree == t
    ensures feed.FeedAnswered? && Response.IsSuccess(feed.status) && feed.readFailed ==>
      r.outcome == Fail(ReadingResponseBody) && r.tree == t
    ensures feed.FeedAnswered? && Response.IsSuccess(feed.status) && !feed.readFailed ==>
      r == ApplyLines(t, Pieces(feed.lines, feed.endsWithNewline))
  {
    match feed
    case FeedUnsent(f) => Run(Fail(Mutations.SendError(f)), t, 0, true)
    case FeedAnswered(status, lines, endsWithNewline, readFailed) =>
      var check := Response.CheckResponse(status);
      if check.Fail? then Run(check, t, 0, true)
      else if readFailed then Run(Fail(ReadingResponseBody), t, 0, true)
      else ApplyLines(t, Pieces(lines, endsWithNewline))
  }

  // ---------------------------------------------------------------------
  // Properties of the record loop

  /**
   * Reading more lines never changes a pass that has already stopped, and
   * one that ran out of lines goes on from where it was.
   */
  lemma {:induction false} ApplyLinesAppend(t: Tree, a: seq<Line>, b: seq<Line>)
    requires Wf(t)
    ensures var ra := ApplyLines(t, a);
      ApplyLines(t, a + b) ==
        if ra.halted then ra
        else
          var rb := ApplyLines(ra.tree, b);
          Run(rb.outcome, rb.tree, |a| + rb.consumed, rb.halted)
    decreases |a|
  {
    if |a| == 0 {
      assert a + b == b;
    } else {
      assert (a + b)[0] == a[0];
      assert (a + b)[1..] == a[1..] + b;
      var n := ApplyLine(t, a[0]);
      if n.Continue? {
        ApplyLinesAppend(n.tree, a[1..], b);
      }
    }
  }

  /** Whatever follows a line that stops the pass is never read. */
  lemma LinesAfterStopIgnored(t: Tree, a: seq<Line>, b: seq<Line>, b': seq<Line>)
    requires Wf(t) && ApplyLines(t, a).halted
    ensures ApplyLines(t, a + b) == ApplyLines(t, a + b') == ApplyLines(t, a)
  {
    ApplyLinesAppend(t, a, b);
    ApplyLinesAppend(t, a, b');
  }

  /** A record that asks for both a reset and the end is a reset, after its checkpoint is kept. */
  lemma ResetWinsOverEnd(t: Tree, cr: ChangeRecord, rest: seq<Line>)
    requires Wf(t) && cr.reset && cr.end
    ensures ApplyLines(t, [Decoded(cr)] + rest).outcome == Fail(MustFetchFresh)
    ensures ApplyLines(t, [Decoded(cr)] + rest).tree == StoreCheckpoint(t, cr.checkpoint)
  {
    assert ([Decoded(cr)] + rest)[0] == Decoded(cr);
  }

  // ---------------------------------------------------------------------
  // Consistency of the graph

  lemma RepeatCounts(s: seq<ID>, c: ID, k: nat)
    ensures multiset(s + Repeat(c, k))[c] == multiset(s)[c] + k
    ensures forall y :: y != c ==> multiset(s + Repeat(c, k))[y] == multiset(s)[y]
  {
    var r := Repeat(c, k);
    assert multiset(s + r) == multiset(s) + multiset(r);
    RepeatMultiset(c, k);
  }

  lemma {:induction false} RepeatMultiset(c: ID, k: nat)
    ensures multiset(Repeat(c, k))[c] == k
    ensures forall y :: y != c ==> multiset(Repeat(c, k))[y] == 0
    decreases k
  {
    if k > 0 {
      RepeatMultiset(c, k - 1);
      assert multiset(Repeat(c, k)) == multiset{c} + multiset(Repeat(c, k - 1));
    }
  }

  lemma NoDupCount(s: seq<ID>, x: ID)
    requires NoDup(s)
    ensures multiset(s)[x] == if x in s then 1 else 0
    decreases |s|
  {
    if |s| > 0 {
      assert s == [s[0]] + s[1..];
      assert NoDup(s[1..]) by {
        forall i, j | 0 <= i < j < |s[1..]|
          ensures s[1..][i] != s[1..][j]
        {
          assert s[i + 1] != s[j + 1];
        }
      }
      NoDupCount(s[1..], x);
      if s[0] == x {
        assert forall k :: 0 <= k < |s[1..]| ==> s[1..][k] != x by {
          forall k | 0 <= k < |s[1..]|
            ensures s[1..][k] != x
          {
            assert s[0] != s[k + 1];
          }
        }
      }
    }
  }

  /** The count of the relinked node under one indexed parent, after an available change. */
  lemma RelinkCount(stored: seq<ID>, merged: seq<ID>, kids: seq<ID>, c: ID, q: ID)
    requires NoDup(stored) && NoDup(merged)
    requires multiset(kids)[c] == multiset(stored)[q]
    ensures multiset(RemoveN(kids, c, multiset(Diff(stored, merged))[q]) + Repeat(c, multiset(Diff(merged, stored))[q]))[c]
      == multiset(merged)[q]
  {
    var k1 := multiset(Diff(stored, merged))[q];
    var k2 := multiset(Diff(merged, stored))[q];
    RemoveNCounts(kids, c, k1);
    RepeatCounts(RemoveN(kids, c, k1), c, k2);
    NoDupCount(stored, q);
    NoDupCount(merged, q);
  }

  lemma RelinkOthers(kids: seq<ID>, c: ID, k1: nat, k2: nat, y: ID)
    requires y != c
    ensures multiset(RemoveN(kids, c, k1) + Repeat(c, k2))[y] == multiset(kids)[y]
  {
    RemoveNCounts(kids, c, k1);
    RepeatCounts(RemoveN(kids, c, k1), c, k2);
  }

  /** The records after an available change: the node itself takes the merged record, its parents relink it. */
  lemma AvailableShape(t: Tree, p: Node)
    requires Wf(t) && p.id in t.indexed && Available(Update(t.nodes[p.id], p))
    ensures var stored := t.nodes[p.id];
      var merged := Update(stored, p);
      var r := Reconcile(t, p).tree;
      && r.indexed == t.indexed
      && r.nodes[p.id] == merged
      && forall q :: q in t.indexed && q != p.id ==>
           r.nodes[q] == t.nodes[q].(children := RemoveN(t.nodes[q].children, p.id, multiset(Diff(stored.parents, merged.parents))[q])
                                                 + Repeat(p.id, multiset(Diff(merged.parents, stored.parents))[q]))
  {
    var stored := t.nodes[p.id];
    var merged := Update(stored, p);
    var t1 := UnlinkAll(t, Diff(stored.parents, merged.parents), p.id);
    var t2 := LinkAll(t1, Diff(merged.parents, stored.parents), p.id);
    assert Reconcile(t, p).tree == t2.(nodes := t2.nodes[p.id := merged]);
  }

  /** One pair of the consistency invariant after an available change. */
  lemma AvailablePair(t: Tree, p: Node, q: ID, c: ID)
    requires Consistent(t) && PlainPayload(p)
    requires p.id in t.indexed && Available(Update(t.nodes[p.id], p))
    requires q in t.indexed
    ensures Wf(Reconcile(t, p).tree) && q in Reconcile(t, p).tree.indexed && CountsAgree(Reconcile(t, p).tree, q, c)
  {
    var id := p.id;
    var stored := t.nodes[id];
    var merged := Update(stored, p);
    var r := Reconcile(t, p).tree;
    AvailableShape(t, p);
    assert CountsAgree(t, q, c);
    assert c != id && c in t.indexed ==> r.nodes[c].parents == t.nodes[c].parents;
    if q == id {
      assert r.nodes[q].children == stored.children;
      if c == id {
        NoDupCount(merged.parents, id);
        NoDupCount(stored.parents, id);
      }
    } else {
      var kids := t.nodes[q].children;
      var k1 := multiset(Diff(stored.parents, merged.parents))[q];
      var k2 := multiset(Diff(merged.parents, stored.parents))[q];
      assert r.nodes[q].children == RemoveN(kids, id, k1) + Repeat(id, k2);
      if c == id {
        RelinkCount(stored.parents, merged.parents, kids, id, q);
      } else {
        RelinkOthers(kids, id, k1, k2, c);
      }
    }
  }

  /** An available change to an indexed node keeps the graph consistent with the parent lists. */
  lemma ReconcileAvailableConsistent(t: Tree, p: Node)
    requires Consistent(t) && PlainPayload(p)
    requires p.id in t.indexed && Available(Update(t.nodes[p.id], p))
    ensures Consistent(Reconcile(t, p).tree)
  {
    var r := Reconcile(t, p).tree;
    AvailableShape(t, p);
    forall c | c in r.indexed
      ensures CleanParents(r, c)
    {
      assert CleanParents(t, c);
    }
    forall q, c | q in r.indexed
      ensures CountsAgree(r, q, c)
    {
      AvailablePair(t, p, q, c);
    }
  }

  /** The records after a deletion: each indexed parent, merged or stored, drops the node. */
  lemma DeletedShape(t: Tree, p: Node)
    requires Wf(t) && p.id in t.indexed && !Available(Update(t.nodes[p.id], p))
    ensures var stored := t.nodes[p.id];
      var ps := Update(stored, p).parents + stored.parents;
      var r := Reconcile(t, p).tree;
      && r.indexed == t.indexed - {p.id}
      && forall q :: q in t.indexed ==>
           r.nodes[q] == t.nodes[q].(children := RemoveN(t.nodes[q].children, p.id, multiset(ps)[q]))
  {
  }

  /** One pair of the consistency invariant after a deletion. */
  lemma DeletedPair(t: Tree, p: Node, q: ID, c: ID)
    requires Consistent(t)
    requires p.id in t.indexed && !Available(Update(t.nodes[p.id], p))
    requires q in t.indexed - {p.id}
    ensures Wf(Reconcile(t, p).tree) && q in Reconcile(t, p).tree.indexed && CountsAgree(Reconcile(t, p).tree, q, c)
  {
    var id := p.id;
    var stored := t.nodes[id];
    var ps := Update(stored, p).parents + stored.parents;
    var r := Reconcile(t, p).tree;
    DeletedShape(t, p);
    var kids := t.nodes[q].children;
    assert CountsAgree(t, q, c);
    RemoveNCounts(kids, id, multiset(ps)[q]);
    assert multiset(ps)[q] == multiset(Update(stored, p).parents)[q] + multiset(stored.parents)[q];
  }

  /** Deleting an indexed node keeps the graph consistent: it leaves every parent and the index. */
  lemma ReconcileDeletedConsistent(t: Tree, p: Node)
    requires Consistent(t)
    requires p.id in t.indexed && !Available(Update(t.nodes[p.id], p))
    ensures Consistent(Reconcile(t, p).tree)
  {
    var r := Reconcile(t, p).tree;
    DeletedShape(t, p);
    forall c | c in r.indexed
      ensures CleanParents(r, c)
    {
      assert CleanParents(t, c);
    }
    forall q, c | q in r.indexed
      ensures CountsAgree(r, q, c)
    {
      DeletedPair(t, p, q, c);
    }
  }

  lemma ReconcileConsistent(t: Tree, p: Node)
    requires Consistent(t) && PlainPayload(p)
    ensures Consistent(Reconcile(t, p).tree)
  {
    if p.id in t.indexed {
      if Available(Update(t.nodes[p.id], p)) {
        ReconcileAvailableConsistent(t, p);
      } else {
        ReconcileDeletedConsistent(t, p);
      }
    }
  }

  /** Seeding one new ID keeps the graph consistent. */
  lemma SeedOneConsistent(t: Tree, p: Node)
    requires Consistent(t) && PlainPayload(p) && p.id !in t.indexed
    requires forall c :: c in t.indexed ==> p.id !in t.nodes[c].parents
    ensures Consistent(t.(nodes := t.nodes[p.id := p.(parents := [])], indexed := t.indexed + {p.id}))
  {
    var t1 := t.(nodes := t.nodes[p.id := p.(parents := [])], indexed := t.indexed + {p.id});
    forall q, c | q in t1.indexed
      ensures multiset(t1.nodes[q].children)[c] == if c in t1.indexed then multiset(t1.nodes[c].parents)[q] else 0
    {
      if q == p.id {
        if c in t.indexed {
          assert q !in t.nodes[c].parents;
        }
      } else {
        assert CountsAgree(t, q, c);
      }
    }
  }

  /**
   * Seeding keeps the graph consistent when no indexed node already lists
   * a new ID as a parent.
   */
  lemma {:induction false} SeedConsistent(t: Tree, ps: seq<Node>)
    requires Consistent(t)
    requires forall i :: 0 <= i < |ps| ==> PlainPayload(ps[i])
    requires forall i, c :: 0 <= i < |ps| && c in t.indexed && ps[i].id !in t.indexed ==> ps[i].id !in t.nodes[c].parents
    ensures Consistent(Seed(t, ps))
    decreases |ps|
  {
    if |ps| > 0 {
      var p := ps[0];
      if p.id !in t.indexed {
        var t1 := t.(nodes := t.nodes[p.id := p.(parents := [])], indexed := t.indexed + {p.id});
        SeedOneConsistent(t, p);
        forall i, c | 0 <= i < |ps[1..]| && c in t1.indexed && ps[1..][i].id !in t1.indexed
          ensures ps[1..][i].id !in t1.nodes[c].parents
        {
          assert ps[i + 1] == ps[1..][i];
        }
        SeedConsistent(t1, ps[1..]);
      } else {
        forall i, c | 0 <= i < |ps[1..]| && c in t.indexed && ps[1..][i].id !in t.indexed
          ensures ps[1..][i].id !in t.nodes[c].parents
        {
          assert ps[i + 1] == ps[1..][i];
        }
        SeedConsistent(t, ps[1..]);
      }
    }
  }

  lemma {:induction false} ReconcileAllConsistent(t: Tree, ps: seq<Node>)
    requires Consistent(t)
    requires forall i :: 0 <= i < |ps| ==> PlainPayload(ps[i])
    ensures Consistent(ReconcileAll(t, ps).tree)
    decreases |ps|
  {
    if |ps| > 0 {
      ReconcileConsistent(t, ps[0]);
      var s := Reconcile(t, ps[0]);
      if s.outcome.Pass? {
        ReconcileAllConsistent(s.tree, ps[1..]);
      }
    }
  }

  /**
   * A batch of plain payloads whose new IDs no indexed node lists as a
   * parent leaves the graph consistent with the parent lists.
   */
  lemma UpdateNodesConsistent(t: Tree, ps: seq<Node>)
    requires Consistent(t)
    requires forall i :: 0 <= i < |ps| ==> PlainPayload(ps[i])
    requires forall i, c :: 0 <= i < |ps| && c in t.indexed && ps[i].id !in t.indexed ==> ps[i].id !in t.nodes[c].parents
    ensures Consistent(UpdateNodes(t, ps).tree)
  {
    SeedConsistent(t, ps);
    ReconcileAllConsistent(Seed(t, ps), ps);
  }

  // ---------------------------------------------------------------------
  // The commit of node/sync.go:156

  const Folder := EmptyNode.(id := "P", kind := KindFolder, status := StatusAvailable)
  const Fresh := EmptyNode.(id := "N", name := "a", kind := KindFile, status := StatusAvailable, parents := ["P"])
  const Renamed := Fresh.(name := "b")

  const Start := Tree(map["P" := Folder], {"P"}, "P", "")

  /** The parent differences of a node seeded with no parents that arrives under P. */
  lemma DiffsUnderFolder()
    ensures Diff([], ["P"]) == [] && Diff(["P"], []) == ["P"]
  {
    DiffSingleton("P", []);
  }

  /** The first batch: N is seeded with no parents, then linked under P once. */
  lemma FirstBatch()
    ensures Seed(Start, [Fresh]).nodes["N"] == Fresh.(parents := [])
    ensures Seed(Start, [Fresh]).indexed == {"P", "N"}
    ensures Seed(Start, [Fresh]).nodes["P"] == Folder
  {
    assert Ids([Fresh]) == {"N"};
    assert FirstWithId([Fresh], "N") == Fresh;
  }

  /**
   * A new node N under an indexed folder P arrives, then arrives again
   * renamed. As written the stored stub keeps its empty parent list, so
   * the second batch links N under P a second time and the record keeps
   * the old name.
   */
  lemma CommitThroughPayloadDuplicatesChild()
    ensures var w1 := ReconcileAsWritten(Seed(Start, [Fresh]), Fresh).tree;
      var w2 := ReconcileAsWritten(Seed(w1, [Renamed]), Renamed).tree;
      w2.nodes["P"].children == ["N", "N"] && w2.nodes["N"].name == "a"
  {
    FirstBatchAsWritten();
    SecondBatchAsWritten(ReconcileAsWritten(Seed(Start, [Fresh]), Fresh).tree);
  }

  /** The renamed payload then finds N indexed with no parents, and links it under P again. */
  lemma SecondBatchAsWritten(w1: Tree)
    requires Wf(w1) && w1.indexed == {"P", "N"}
    requires w1.nodes["P"].children == ["N"] && w1.nodes["N"] == Fresh.(parents := [])
    ensures var w2 := ReconcileAsWritten(Seed(w1, [Renamed]), Renamed).tree;
      w2.nodes["P"].children == ["N", "N"] && w2.nodes["N"].name == "a"
  {
    assert Seed(w1, [Renamed]) == w1 by {
      assert Ids([Renamed]) == {"N"};
      SeedIndexed(w1, [Renamed]);
    }
    assert Update(w1.nodes["N"], Renamed).parents == ["P"];
    AsWrittenLinksUnderFolder(w1, Renamed);
    Twice("N");
  }

  /** After the first batch as written, N is linked under P once and keeps its empty parent list. */
  lemma FirstBatchAsWritten()
    ensures var w1 := ReconcileAsWritten(Seed(Start, [Fresh]), Fresh).tree;
      && Wf(w1) && w1.indexed == {"P", "N"}
      && w1.nodes["P"].children == ["N"] && w1.nodes["N"] == Fresh.(parents := [])
  {
    FirstBatch();
    var s1 := Seed(Start, [Fresh]);
    assert Update(s1.nodes["N"], Fresh).parents == ["P"];
    AsWrittenLinksUnderFolder(s1, Fresh);
    Once("N");
  }

  lemma Once<T>(x: T)
    ensures [] + [x] == [x]
  {
  }

  lemma Twice<T>(x: T)
    ensures [x] + [x] == [x, x]
  {
  }

  /** A batch with every ID indexed seeds nothing. */
  lemma SeedIndexed(t: Tree, ps: seq<Node>)
    requires Wf(t) && Ids(ps) <= t.indexed
    ensures Seed(t, ps) == t
  {
    var r := Seed(t, ps);
    assert r.nodes.Keys == t.nodes.Keys;
    assert r.nodes == t.nodes;
  }

  /**
   * As written, a payload under P for a record whose stored parent list is
   * empty links the ID under P once more and leaves the record as it was.
   */
  lemma AsWrittenLinksUnderFolder(w: Tree, p: Node)
    requires Wf(w) && p.id in w.indexed && "P" in w.indexed && p.id != "P"
    requires w.nodes[p.id].parents == [] && Update(w.nodes[p.id], p).parents == ["P"]
    requires Available(Update(w.nodes[p.id], p))
    ensures var r := ReconcileAsWritten(w, p).tree;
      && r.indexed == w.indexed && r.nodes.Keys == w.nodes.Keys
      && r.nodes["P"].children == w.nodes["P"].children + [p.id]
      && r.nodes[p.id] == w.nodes[p.id]
  {
    DiffsUnderFolder();
    var u := UnlinkAll(w, [], p.id);
    assert u == w by {
      assert u.nodes.Keys == w.nodes.Keys;
      assert u.nodes == w.nodes;
    }
    var l := LinkAll(w, ["P"], p.id);
    assert multiset(["P"])["P"] == 1 && multiset(["P"])[p.id] == 0;
    assert Repeat(p.id, 1) == [p.id];
    assert ReconcileAsWritten(w, p).tree == l;
  }

  /** With the commit onto the stored record, the same two batches leave N under P once, renamed. */
  lemma CommitOntoRecordLinksOnce()
    ensures var c1 := Reconcile(Seed(Start, [Fresh]), Fresh).tree;
      var c2 := Reconcile(Seed(c1, [Renamed]), Renamed).tree;
      c2.nodes["P"].children == ["N"] && c2.nodes["N"].name == "b" && c2.nodes["N"].parents == ["P"]
  {
    FirstBatchCommitted();
    SecondBatchCommitted(Reconcile(Seed(Start, [Fresh]), Fresh).tree);
  }

  lemma FirstBatchCommitted()
    ensures var c1 := Reconcile(Seed(Start, [Fresh]), Fresh).tree;
      && Wf(c1) && c1.indexed == {"P", "N"} && c1.nodes["P"].children == ["N"]
      && c1.nodes["N"] == Update(Fresh.(parents := []), Fresh)
  {
    FirstBatch();
    DiffsUnderFolder();
    var s1 := Seed(Start, [Fresh]);
    var m1 := Update(s1.nodes["N"], Fresh);
    assert m1.parents == ["P"] && Available(m1);
    var l1 := LinkAll(UnlinkAll(s1, [], "N"), ["P"], "N");
    var c1 := l1.(nodes := l1.nodes[("N") := m1]);
    assert Reconcile(s1, Fresh).tree == c1;
    assert c1.nodes["P"].children == ["N"];
  }

  lemma SecondBatchCommitted(c1: Tree)
    requires Wf(c1) && c1.indexed == {"P", "N"} && c1.nodes["P"].children == ["N"]
    requires c1.nodes["N"] == Update(Fresh.(parents := []), Fresh)
    ensures var c2 := Reconcile(Seed(c1, [Renamed]), Renamed).tree;
      c2.nodes["P"].children == ["N"] && c2.nodes["N"].name == "b" && c2.nodes["N"].parents == ["P"]
  {
    DiffsUnderFolder();
    assert Seed(c1, [Renamed]) == c1 by {
      assert Ids([Renamed]) == {"N"};
      SeedIndexed(c1, [Renamed]);
    }
    var m1 := c1.nodes["N"];
    assert m1.parents == ["P"];
    var m2 := Update(m1, Renamed);
    assert m2.parents == ["P"] && m2.name == "b" && Available(m2);
    DiffSelf(["P"]);
    var l2 := LinkAll(UnlinkAll(c1, [], "N"), [], "N");
    assert UnlinkAll(c1, [], "N") == c1 && l2 == c1;
    assert Reconcile(c1, Renamed).tree == c1.(nodes := c1.nodes[("N") := m2]);
  }
}
