/**
 * The two older change-feed passes, which give up on any change of an
 * available node's parents instead of relinking it: Sync and updateNodes of
 * client/node/sync.go, and refresh and updateNodes of
 * client/nodetree/nodetree.go. They share the shape of the finer pass of
 * node/sync.go and differ from it, and from each other, in the details the
 * Variant selects.
 *
 * Both compare the payload's parents with the merged parents
 * (client/node/sync.go:106-108, client/nodetree/nodetree.go:411-413). The
 * merged list is the payload's whenever the payload carries one, so the
 * comparison never sees a change, and it sees one whenever a payload comes
 * without parents. Both also hand the payload, not the stored node, to
 * RemoveChild when a node is deleted (client/node/sync.go:96,
 * client/nodetree/nodetree.go:404), and assign the merged node through the
 * payload (client/node/sync.go:114, client/nodetree/nodetree.go:419). No
 * child list holds the payload, so as written a deletion unlinks nothing,
 * and the stored record never takes a change. The model compares the
 * stored parents with the merged ones, unlinks the stored node and commits
 * onto the stored record, which is what the log messages and the reset
 * intend; CoarseReconcileAsWritten keeps all three as written.
 */
module CoarseSync {
  import opened Errors
  import opened Nodes
  import opened Trees
  import Response
  import Mutations
  import Sync

  /** Which of the two passes: client/node/sync.go, or client/nodetree/nodetree.go. */
  datatype Variant = ClientNode | NodeTree

  /** The body of the changes request: the checkpoint, and the chunk size and node limit when set. */
  datatype ChangesRequest = ChangesRequest(checkpoint: string, chunkSize: nat, maxNodes: nat)

  /**
   * The request of refresh (client/nodetree/nodetree.go:317-324): with no
   * checkpoint yet, it asks for a single node in a single chunk, which is
   * enough to learn a checkpoint. The other passes send the checkpoint only.
   */
  function RefreshRequest(checkpoint: string): (q: ChangesRequest)
    ensures q.checkpoint == checkpoint
    ensures checkpoint == "" <==> q.chunkSize == 1
    ensures checkpoint == "" <==> q.maxNodes == 1
    ensures checkpoint != "" ==> q.chunkSize == 0 && q.maxNodes == 0
  {
    if checkpoint == "" then ChangesRequest(checkpoint, 1, 1) else ChangesRequest(checkpoint, 0, 0)
  }

  /** The request of Sync in node/sync.go and client/node/sync.go: the checkpoint alone, always. */
  function SyncRequest(checkpoint: string): (q: ChangesRequest)
    ensures q.checkpoint == checkpoint && q.chunkSize == 0 && q.maxNodes == 0
  {
    ChangesRequest(checkpoint, 0, 0)
  }

  /**
   * The first loop of both updateNodes (client/node/sync.go:73-77,
   * client/nodetree/nodetree.go:377-381): an ID missing from the index is
   * indexed with the payload itself, parents included, and is linked under
   * none of them.
   */
  function CoarseSeed(t: Tree, ps: seq<Node>): (r: Tree)
    requires Wf(t)
    ensures Wf(r) && r.root == t.root && r.checkpoint == t.checkpoint
    ensures r.indexed == t.indexed + Sync.Ids(ps) && r.nodes.Keys == t.nodes.Keys + Sync.Ids(ps)
    ensures forall q :: q in t.nodes && (q in t.indexed || q !in Sync.Ids(ps)) ==> r.nodes[q] == t.nodes[q]
    ensures forall q :: q in Sync.Ids(ps) - t.indexed ==> r.nodes[q] == Sync.FirstWithId(ps, q)
    decreases |ps|
  {
    if |ps| == 0 then t
    else
      var p := ps[0];
      var t1 := if p.id in t.indexed then t
        else t.(nodes := t.nodes[p.id := p], indexed := t.indexed + {p.id});
      var r := CoarseSeed(t1, ps[1..]);
      CoarseSeedStep(t, ps, t1, r);
      r
  }

  /** One step of the seeding recursion: the head record's contribution. */
  lemma CoarseSeedStep(t: Tree, ps: seq<Node>, t1: Tree, r: Tree)
    requires Wf(t) && |ps| > 0
    requires t1 == if ps[0].id in t.indexed then t
      else t.(nodes := t.nodes[ps[0].id := ps[0]], indexed := t.indexed + {ps[0].id})
    requires r.indexed == t1.indexed + Sync.Ids(ps[1..]) && r.nodes.Keys == t1.nodes.Keys + Sync.Ids(ps[1..])
    requires forall q :: q in t1.nodes && (q in t1.indexed || q !in Sync.Ids(ps[1..])) ==> r.nodes[q] == t1.nodes[q]
    requires forall q :: q in Sync.Ids(ps[1..]) - t1.indexed ==> r.nodes[q] == Sync.FirstWithId(ps[1..], q)
    ensures r.indexed == t.indexed + Sync.Ids(ps) && r.nodes.Keys == t.nodes.Keys + Sync.Ids(ps)
    ensures forall q :: q in t.nodes && (q in t.indexed || q !in Sync.Ids(ps)) ==> r.nodes[q] == t.nodes[q]
    ensures forall q :: q in Sync.Ids(ps) - t.indexed ==> r.nodes[q] == Sync.FirstWithId(ps, q)
  {
    CoarseSeedStepSets(t, ps, t1, r);
    CoarseSeedStepKept(t, ps, t1, r);
    CoarseSeedStepFresh(t, ps, t1, r);
  }

  lemma CoarseSeedStepSets(t: Tree, ps: seq<Node>, t1: Tree, r: Tree)
    requires Wf(t) && |ps| > 0
    requires t1 == if ps[0].id in t.indexed then t
      else t.(nodes := t.nodes[ps[0].id := ps[0]], indexed := t.indexed + {ps[0].id})
    requires r.indexed == t1.indexed + Sync.Ids(ps[1..]) && r.nodes.Keys == t1.nodes.Keys + Sync.Ids(ps[1..])
    ensures r.indexed == t.indexed + Sync.Ids(ps) && r.nodes.Keys == t.nodes.Keys + Sync.Ids(ps)
  {
    var i := ps[0].id;
    assert Sync.Ids(ps) == {i} + Sync.Ids(ps[1..]);
    if i in t.indexed {
      assert t1.indexed + Sync.Ids(ps[1..]) == t.indexed + Sync.Ids(ps);
      assert t1.nodes.Keys + Sync.Ids(ps[1..]) == t.nodes.Keys + Sync.Ids(ps);
    } else {
      assert t1.indexed == t.indexed + {i};
      assert t1.nodes.Keys == t.nodes.Keys + {i};
    }
  }

  lemma CoarseSeedStepKept(t: Tree, ps: seq<Node>, t1: Tree, r: Tree)
    requires Wf(t) && |ps| > 0
    requires t1 == if ps[0].id in t.indexed then t
      else t.(nodes := t.nodes[ps[0].id := ps[0]], indexed := t.indexed + {ps[0].id})
    requires r.indexed == t1.indexed + Sync.Ids(ps[1..]) && r.nodes.Keys == t1.nodes.Keys + Sync.Ids(ps[1..])
    requires forall q :: q in t1.nodes && (q in t1.indexed || q !in Sync.Ids(ps[1..])) ==> r.nodes[q] == t1.nodes[q]
    requires forall q :: q in Sync.Ids(ps[1..]) - t1.indexed ==> r.nodes[q] == Sync.FirstWithId(ps[1..], q)
    ensures forall q :: q in t.nodes && (q in t.indexed || q !in Sync.Ids(ps)) ==> r.nodes[q] == t.nodes[q]
  {
    assert Sync.Ids(ps) == {ps[0].id} + Sync.Ids(ps[1..]);
    forall q | q in t.nodes && (q in t.indexed || q !in Sync.Ids(ps))
      ensures r.nodes[q] == t.nodes[q]
    {
      assert q in t1.nodes && t1.nodes[q] == t.nodes[q];
    }
  }

  lemma CoarseSeedStepFresh(t: Tree, ps: seq<Node>, t1: Tree, r: Tree)
    requires Wf(t) && |ps| > 0
    requires t1 == if ps[0].id in t.indexed then t
      else t.(nodes := t.nodes[ps[0].id := ps[0]], indexed := t.indexed + {ps[0].id})
    requires r.indexed == t1.indexed + Sync.Ids(ps[1..]) && r.nodes.Keys == t1.nodes.Keys + Sync.Ids(ps[1..])
    requires forall q :: q in t1.nodes && (q in t1.indexed || q !in Sync.Ids(ps[1..])) ==> r.nodes[q] == t1.nodes[q]
    requires forall q :: q in Sync.Ids(ps[1..]) - t1.indexed ==> r.nodes[q] == Sync.FirstWithId(ps[1..], q)
    ensures forall q :: q in Sync.Ids(ps) - t.indexed ==> r.nodes[q] == Sync.FirstWithId(ps, q)
  {
    assert Sync.Ids(ps) == {ps[0].id} + Sync.Ids(ps[1..]);
    forall q | q in Sync.Ids(ps) - t.indexed
      ensures r.nodes[q] == Sync.FirstWithId(ps, q)
    {
      if q == ps[0].id {
        assert Sync.FirstWithId(ps, q) == ps[0];
        assert q in t1.indexed && r.nodes[q] == t1.nodes[q];
      } else {
        assert Sync.FirstWithId(ps, q) == Sync.FirstWithId(ps[1..], q);
      }
    }
  }

  /** Whether the parent list of an available node changed, comparing the stored list with the merged one. */
  predicate ParentsChanged(stored: Node, merged: Node) {
    multiset(stored.parents) != multiset(merged.parents)
  }

  /** The comparison as written: the payload's list with the merged one. */
  predicate ParentsChangedAsWritten(payload: Node, merged: Node) {
    multiset(payload.parents) != multiset(merged.parents)
  }

  /**
   * Deletion in the two passes, with the stored node unlinked:
   * client/node/sync.go:89-101 unlinks the node from its merged and stored
   * parents and drops it from the index; client/nodetree/nodetree.go:393-407
   * unlinks it from its merged parents only and leaves it indexed, stored
   * record and all.
   */
  function CoarseDelete(v: Variant, t: Tree, id: ID, merged: Node): (r: Tree)
    requires Wf(t) && id in t.indexed
    ensures Wf(r) && r.nodes.Keys == t.nodes.Keys && r.root == t.root && r.checkpoint == t.checkpoint
    ensures v.ClientNode? ==> r.indexed == t.indexed - {id}
    ensures v.NodeTree? ==> r.indexed == t.indexed && r.nodes[id].parents == t.nodes[id].parents
  {
    match v
    case ClientNode =>
      var t1 := UnlinkAll(t, merged.parents + t.nodes[id].parents, id);
      t1.(indexed := t1.indexed - {id})
    case NodeTree =>
      assert id in merged.parents ==> id in t.indexed;
      UnlinkAll(t, merged.parents, id)
  }

  /**
   * Deletion as written: the payload is not in any child list, so no list
   * changes; client/node/sync.go still drops the node from the index.
   */
  function CoarseDeleteAsWritten(v: Variant, t: Tree, id: ID): (r: Tree)
    requires Wf(t)
    ensures Wf(r) && r.nodes == t.nodes && r.root == t.root && r.checkpoint == t.checkpoint
    ensures v.ClientNode? ==> r.indexed == t.indexed - {id}
    ensures v.NodeTree? ==> r == t
  {
    match v
    case ClientNode => t.(indexed := t.indexed - {id})
    case NodeTree => t
  }

  /**
   * The second loop for one payload (client/node/sync.go:80-115,
   * client/nodetree/nodetree.go:384-420), with the stored parents compared
   * and the merged node committed onto the stored record:
   * - an ID that left the index earlier in the batch is dereferenced as nil;
   * - a node no longer AVAILABLE is deleted as CoarseDelete says;
   * - an available node whose parents changed stops the batch with a
   *   must-refresh error, before its record is touched;
   * - otherwise the record becomes the merged node and no child list
   *   changes.
   */
  function CoarseReconcile(v: Variant, t: Tree, p: Node): (r: Sync.Step)
    requires Wf(t)
    ensures Wf(r.tree) && r.tree.root == t.root && r.tree.checkpoint == t.checkpoint
    ensures r.tree.nodes.Keys == t.nodes.Keys
    ensures r.outcome == Fail(Panic) <==> p.id !in t.indexed
    ensures r.outcome == Fail(MustFetchFresh) <==>
      p.id in t.indexed && Available(Update(t.nodes[p.id], p)) && ParentsChanged(t.nodes[p.id], Update(t.nodes[p.id], p))
    ensures r.outcome.Fail? ==> r.tree == t
    ensures r.outcome.Pass? && Available(Update(t.nodes[p.id], p)) ==>
      r.tree == t.(nodes := t.nodes[p.id := Update(t.nodes[p.id], p)])
    ensures r.outcome.Pass? && !Available(Update(t.nodes[p.id], p)) ==>
      r.tree == CoarseDelete(v, t, p.id, Update(t.nodes[p.id], p))
    ensures v.NodeTree? ==> r.tree.indexed == t.indexed
  {
    if p.id !in t.indexed then Sync.Step(Fail(Panic), t)
    else
      var stored := t.nodes[p.id];
      var merged := Update(stored, p);
      if !Available(merged) then Sync.Step(Pass, CoarseDelete(v, t, p.id, merged))
      else if ParentsChanged(stored, merged) then Sync.Step(Fail(MustFetchFresh), t)
      else Sync.Step(Pass, t.(nodes := t.nodes[p.id := merged]))
  }

  /**
   * CoarseReconcile as client/node/sync.go:80-115 and
   * client/nodetree/nodetree.go:384-420 are written: the payload's parents
   * are compared, a deletion goes through CoarseDeleteAsWritten, and the
   * merged node is assigned to the payload, so no record and no child list
   * ever changes; only client/node/sync.go's index shrinks on a deletion.
   * The stored record of a node seeded from the payload in the same batch
   * is the payload itself, and merging a node with itself changes nothing,
   * so that case changes nothing either.
   */
  function CoarseReconcileAsWritten(v: Variant, t: Tree, p: Node): (r: Sync.Step)
    requires Wf(t)
    ensures Wf(r.tree) && r.tree.nodes == t.nodes && r.tree.root == t.root && r.tree.checkpoint == t.checkpoint
    ensures r.outcome == Fail(Panic) <==> p.id !in t.indexed
    ensures r.outcome == Fail(MustFetchFresh) <==>
      p.id in t.indexed && Available(Update(t.nodes[p.id], p)) && ParentsChangedAsWritten(p, Update(t.nodes[p.id], p))
    ensures r.tree.indexed ==
      if v.ClientNode? && p.id in t.indexed && !Available(Update(t.nodes[p.id], p)) then t.indexed - {p.id}
      else t.indexed
  {
    if p.id !in t.indexed then Sync.Step(Fail(Panic), t)
    else
      var stored := t.nodes[p.id];
      var merged := Update(stored, p);
      if !Available(merged) then Sync.Step(Pass, CoarseDeleteAsWritten(v, t, p.id))
      else if ParentsChangedAsWritten(p, merged) then Sync.Step(Fail(MustFetchFresh), t)
      else Sync.Step(Pass, t)
  }

  /** The second loop: payloads in order, stopping at the first failure. */
  function CoarseReconcileAll(v: Variant, t: Tree, ps: seq<Node>): (r: Sync.Step)
    requires Wf(t)
    ensures Wf(r.tree) && r.tree.root == t.root && r.tree.checkpoint == t.checkpoint
    ensures r.tree.nodes.Keys == t.nodes.Keys
    ensures r.outcome.Fail? ==> r.outcome.error == Panic || r.outcome.error == MustFetchFresh
    ensures v.NodeTree? ==> r.tree.indexed == t.indexed
    ensures v.NodeTree? && Sync.Ids(ps) <= t.indexed ==> r.outcome != Fail(Panic)
    decreases |ps|
  {
    if |ps| == 0 then Sync.Step(Pass, t)
    else
      var s := CoarseReconcile(v, t, ps[0]);
      assert Sync.Ids(ps[1..]) <= Sync.Ids(ps);
      if s.outcome.Fail? then s else CoarseReconcileAll(v, s.tree, ps[1..])
  }

  /**
   * updateNodes of client/node/sync.go:71-118 and
   * client/nodetree/nodetree.go:375-423. nodetree's deletion keeps the node
   * indexed, so every ID of the batch stays indexed and nothing panics.
   */
  function CoarseUpdateNodes(v: Variant, t: Tree, ps: seq<Node>): (r: Sync.Step)
    requires Wf(t)
    ensures Wf(r.tree) && r.tree.root == t.root && r.tree.checkpoint == t.checkpoint
    ensures r.outcome.Fail? ==> r.outcome.error == Panic || r.outcome.error == MustFetchFresh
    ensures v.NodeTree? ==> r.outcome != Fail(Panic)
    ensures |ps| == 0 ==> r == Sync.Step(Pass, t)
  {
    CoarseReconcileAll(v, CoarseSeed(t, ps), ps)
  }

  /**
   * One line of the loops of client/node/sync.go:49-66 and
   * client/nodetree/nodetree.go:353-370: the record's checkpoint replaces
   * the stored one even when empty; client/node tests reset before end,
   * nodetree end before reset; otherwise the nodes are applied.
   */
  function CoarseApplyLine(v: Variant, t: Tree, l: Sync.Line): (r: Sync.Next)
    requires Wf(t)
    ensures Wf(r.tree) && r.tree.root == t.root
    ensures l.Malformed? ==> r == Sync.Stop(Fail(JSONDecodingResponseBody), t)
    ensures l.Decoded? ==> r.tree.checkpoint == l.record.checkpoint
    ensures r.Continue? ==> !Sync.Stops(l)
    ensures l.Decoded? && l.record.reset && l.record.end ==>
      r.Stop? && r.outcome == if v.ClientNode? then Fail(MustFetchFresh) else Pass
    ensures l.Decoded? && l.record.reset != l.record.end ==>
      r.Stop? && r.outcome == if l.record.reset then Fail(MustFetchFresh) else Pass
    ensures r.Stop? && r.outcome == Fail(Panic) ==>
      v.ClientNode? && l.Decoded? && !l.record.reset && !l.record.end && |l.record.nodes| > 0
  {
    match l
    case Malformed => Sync.Stop(Fail(JSONDecodingResponseBody), t)
    case Decoded(cr) =>
      var t1 := t.(checkpoint := cr.checkpoint);
      if v.ClientNode? && cr.reset then Sync.Stop(Fail(MustFetchFresh), t1)
      else if cr.end then Sync.Stop(Pass, t1)
      else if cr.reset then Sync.Stop(Fail(MustFetchFresh), t1)
      else
        var u := CoarseUpdateNodes(v, t1, cr.nodes);
        if u.outcome.Fail? then Sync.Stop(u.outcome, u.tree) else Sync.Continue(u.tree)
  }

  /**
   * The errors a refresh can end with: a failed send, a status the
   * response check refuses, an undecodable line, a change to an unindexed
   * node, and a request for a fresh fetch.
   */
  predicate RefreshError(e: Error) {
    e in {JSONEncoding, CreatingHTTPRequest, DoingHTTPRequest, ResponseUnknown,
          JSONDecodingResponseBody, Panic, MustFetchFresh}
    || Response.IsNamedResponseError(e)
  }

  /** The loop over the lines the scanner produced. */
  function CoarseApplyLines(v: Variant, t: Tree, lines: seq<Sync.Line>): (r: Sync.Run)
    requires Wf(t)
    ensures Wf(r.tree) && r.tree.root == t.root
    ensures r.consumed <= |lines|
    ensures !r.halted ==> r.consumed == |lines| && r.outcome.Pass?
    ensures r.halted ==> r.consumed > 0
    ensures r.outcome.Fail? ==> r.halted && RefreshError(r.outcome.error)
    ensures v.NodeTree? ==> r.outcome != Fail(Panic)
    decreases |lines|
  {
    if |lines| == 0 then Sync.Run(Pass, t, 0, false)
    else
      match CoarseApplyLine(v, t, lines[0])
      case Stop(outcome, t1) => Sync.Run(outcome, t1, 1, true)
      case Continue(t1) =>
        var r := CoarseApplyLines(v, t1, lines[1..]);
        Sync.Run(r.outcome, r.tree, r.consumed + 1, r.halted)
  }

  /** The checkpoint of the last decoded line, or cp when no line decoded. */
  function LastCheckpoint(cp: string, lines: seq<Sync.Line>): string
  {
    if |lines| == 0 then cp
    else
      var last := lines[|lines| - 1];
      if last.Decoded? then last.record.checkpoint else LastCheckpoint(cp, lines[..|lines| - 1])
  }

  lemma {:induction false} LastCheckpointCons(cp: string, lines: seq<Sync.Line>, n: nat)
    requires |lines| > 0 && n < |lines|
    ensures LastCheckpoint(cp, lines[..n + 1]) ==
      LastCheckpoint(if lines[0].Decoded? then lines[0].record.checkpoint else cp, lines[1..][..n])
    decreases n
  {
    if n > 0 {
      assert lines[..n + 1][..n] == lines[..n];
      assert lines[1..][..n][..n - 1] == lines[1..][..n - 1];
      assert lines[..n + 1][n] == lines[1..][..n][n - 1];
      LastCheckpointCons(cp, lines, n - 1);
    } else {
      assert lines[..1][..0] == [];
    }
  }

  /**
   * After a pass the tree holds the checkpoint of the last line read that
   * decoded, empty or not: a record without a checkpoint erases it.
   */
  lemma {:induction false} CoarseCheckpoint(v: Variant, t: Tree, lines: seq<Sync.Line>)
    requires Wf(t)
    ensures var r := CoarseApplyLines(v, t, lines);
      r.tree.checkpoint == LastCheckpoint(t.checkpoint, lines[..r.consumed])
    decreases |lines|
  {
    if |lines| > 0 {
      var n := CoarseApplyLine(v, t, lines[0]);
      if n.Continue? {
        var r1 := CoarseApplyLines(v, n.tree, lines[1..]);
        CoarseCheckpoint(v, n.tree, lines[1..]);
        LastCheckpointCons(t.checkpoint, lines, r1.consumed);
      } else {
        LastCheckpointCons(t.checkpoint, lines, 0);
      }
    }
  }

  /** A record without a checkpoint erases the stored one here, and leaves it in node/sync.go. */
  lemma EmptyCheckpointErases(v: Variant, t: Tree, cr: Sync.ChangeRecord)
    requires Wf(t) && cr.checkpoint == "" && cr.end && !cr.reset
    ensures CoarseApplyLines(v, t, [Sync.Decoded(cr)]).tree == t.(checkpoint := "")
    ensures Sync.ApplyLines(t, [Sync.Decoded(cr)]).tree == t
  {
  }

  /**
   * Sync of client/node/sync.go:16-69 and refresh of
   * client/nodetree/nodetree.go:315-373. The body is read by a scanner,
   * whose errors end the loop as the end of the body would: the lines read
   * before the error are applied and nil is returned.
   */
  function CoarseSyncFeed(v: Variant, t: Tree, feed: Sync.Feed): (r: Sync.Run)
    requires Wf(t)
    ensures Wf(r.tree) && r.tree.root == t.root
    ensures feed.FeedUnsent? ==> r.outcome == Fail(Mutations.SendError(feed.failure)) && r.tree == t
    ensures feed.FeedAnswered? && !Response.IsSuccess(feed.status) ==> r.outcome.Fail? && r.tree == t
    ensures feed.FeedAnswered? && Response.IsSuccess(feed.status) ==> r == CoarseApplyLines(v, t, feed.lines)
    ensures r.outcome.Fail? ==> RefreshError(r.outcome.error)
    ensures v.NodeTree? ==> r.outcome != Fail(Panic)
  {
    match feed
    case FeedUnsent(f) => Sync.Run(Fail(Mutations.SendError(f)), t, 0, true)
    case FeedAnswered(status, lines, _, _) =>
      var check := Response.CheckResponse(status);
      if check.Fail? then Sync.Run(check, t, 0, true)
      else CoarseApplyLines(v, t, lines)
  }

  // ---------------------------------------------------------------------
  // Properties

  /** A failed read of the body is an error in node/sync.go and goes unnoticed in the older passes. */
  lemma ReadFailureSilent(v: Variant, t: Tree, status: int, lines: seq<Sync.Line>, nl: bool)
    requires Wf(t) && Response.IsSuccess(status)
    ensures Sync.SyncFeed(t, Sync.FeedAnswered(status, lines, nl, true)).outcome == Fail(ReadingResponseBody)
    ensures CoarseSyncFeed(v, t, Sync.FeedAnswered(status, lines, nl, true)) ==
      CoarseSyncFeed(v, t, Sync.FeedAnswered(status, lines, nl, false))
  {
  }

  /**
   * node/sync.go splits the body at every newline, so a body that ends
   * with a newline after records none of which stopped the pass, or an
   * empty body, ends with an empty piece that does not decode. The
   * scanner of the older passes yields no such piece: for them the final
   * newline makes no difference, and an empty body passes with no change.
   */
  lemma TrailingNewline(v: Variant, t: Tree, status: int, lines: seq<Sync.Line>)
    requires Wf(t) && Response.IsSuccess(status) && !Sync.ApplyLines(t, lines).halted
    ensures Sync.SyncFeed(t, Sync.FeedAnswered(status, lines, true, false)).outcome == Fail(JSONDecodingResponseBody)
    ensures |lines| == 0 ==> Sync.SyncFeed(t, Sync.FeedAnswered(status, lines, false, false)).outcome == Fail(JSONDecodingResponseBody)
    ensures CoarseSyncFeed(v, t, Sync.FeedAnswered(status, lines, true, false)) ==
      CoarseSyncFeed(v, t, Sync.FeedAnswered(status, lines, false, false))
    ensures CoarseSyncFeed(v, t, Sync.FeedAnswered(status, [], true, false)) == Sync.Run(Pass, t, 0, false)
  {
    Sync.ApplyLinesAppend(t, lines, [Sync.Malformed]);
  }

  /**
   * A node first seen in a change record is indexed with its own record
   * and parents, but none of its parents lists it as a child: the older
   * passes never link new nodes into the graph.
   */
  lemma NewNodeNotLinked(v: Variant, t: Tree, p: Node)
    requires Wf(t) && p.id !in t.indexed && Available(p)
    ensures var r := CoarseUpdateNodes(v, t, [p]);
      && r.outcome == Pass
      && r.tree.indexed == t.indexed + {p.id}
      && r.tree.nodes[p.id] == p
      && forall q :: q in t.nodes && q != p.id ==> r.tree.nodes[q] == t.nodes[q]
  {
    assert Sync.Ids([p]) == {p.id};
    assert Sync.FirstWithId([p], p.id) == p;
    var s := CoarseSeed(t, [p]);
    assert s.nodes[p.id] == p;
    UpdateSelf(p);
    assert CoarseReconcileAll(v, s, [p]) == CoarseReconcile(v, s, p);
  }

  /**
   * With the stored node unlinked, a deletion in client/node/sync.go has
   * exactly the effect of a deletion in node/sync.go.
   */
  lemma ClientNodeDeletionAsFine(t: Tree, p: Node)
    requires Wf(t) && p.id in t.indexed && !Available(Update(t.nodes[p.id], p))
    ensures CoarseReconcile(ClientNode, t, p) == Sync.Reconcile(t, p)
  {
  }

  /**
   * A deletion in client/nodetree/nodetree.go leaves the node indexed with
   * its stored record, so FindByID still finds it, AVAILABLE as before.
   */
  lemma NodeTreeDeletionKeepsRecord(t: Tree, p: Node)
    requires Wf(t) && p.id in t.indexed && !Available(Update(t.nodes[p.id], p))
    requires p.id !in p.parents && p.id !in t.nodes[p.id].parents
    ensures var r := CoarseReconcile(NodeTree, t, p).tree;
      FindByID(r, p.id) == FindByID(t, p.id) == Ok(t.nodes[p.id])
    ensures var r := CoarseReconcileAsWritten(NodeTree, t, p).tree;
      r == t && FindByID(r, p.id) == Ok(t.nodes[p.id])
  {
    var merged := Update(t.nodes[p.id], p);
    assert p.id !in merged.parents;
    var r := UnlinkAll(t, merged.parents, p.id);
    assert CoarseReconcile(NodeTree, t, p).tree == r;
    assert r.nodes[p.id] == t.nodes[p.id];
  }

  /**
   * An available change with the same parents keeps the graph consistent
   * with the parent lists: only the record changes, and its parents are
   * the same multiset.
   */
  lemma CoarseAvailableConsistent(v: Variant, t: Tree, p: Node)
    requires Sync.Consistent(t) && p.children == [] && p.id in t.indexed && Available(Update(t.nodes[p.id], p))
    ensures Sync.Consistent(CoarseReconcile(v, t, p).tree)
  {
    var stored := t.nodes[p.id];
    var merged := Update(stored, p);
    var r := CoarseReconcile(v, t, p).tree;
    if !ParentsChanged(stored, merged) {
      assert merged.children == stored.children;
      forall c | c in r.indexed
        ensures Sync.CleanParents(r, c)
      {
        assert Sync.CleanParents(t, c);
        if c == p.id {
          SameMultisetNoDup(stored.parents, merged.parents);
          assert c !in multiset(merged.parents);
        }
      }
      forall q, c | q in r.indexed
        ensures Sync.CountsAgree(r, q, c)
      {
        assert Sync.CountsAgree(t, q, c);
      }
    }
  }

  lemma SameMultisetNoDup(a: seq<ID>, b: seq<ID>)
    requires Sync.NoDup(a) && multiset(a) == multiset(b)
    ensures Sync.NoDup(b)
  {
    forall i, j | 0 <= i < j < |b|
      ensures b[i] != b[j]
    {
      if b[i] == b[j] {
        assert b == b[..i] + [b[i]] + b[i + 1..j] + [b[j]] + b[j + 1..];
        assert multiset(b)[b[i]] >= 2;
        Sync.NoDupCount(a, b[i]);
        assert false;
      }
    }
  }

  /**
   * In client/node/sync.go a payload of an indexed node, with no child
   * list, keeps the graph consistent with the parent lists.
   */
  lemma ClientNodeReconcileConsistent(t: Tree, p: Node)
    requires Sync.Consistent(t) && p.children == []
    ensures Sync.Consistent(CoarseReconcile(ClientNode, t, p).tree)
  {
    if p.id in t.indexed {
      if Available(Update(t.nodes[p.id], p)) {
        CoarseAvailableConsistent(ClientNode, t, p);
      } else {
        ClientNodeDeletionAsFine(t, p);
        Sync.ReconcileDeletedConsistent(t, p);
      }
    }
  }

  // ---------------------------------------------------------------------
  // The parent comparison of client/node/sync.go:106-108

  const Known := EmptyNode.(id := "N", name := "a", kind := KindFile, status := StatusAvailable, parents := ["A"])
  const Moved := Known.(parents := ["B"])
  const Bare := Known.(parents := [])
  const Before := Tree(map["N" := Known], {"N"}, "N", "")

  /**
   * A node stored under A reported under B: as written the change goes
   * unnoticed and, with the copy and the record kept apart, the record
   * keeps its old parents; comparing the stored parents asks for a fresh
   * fetch.
   */
  lemma MoveUnnoticedAsWritten(v: Variant)
    ensures CoarseReconcileAsWritten(v, Before, Moved).outcome == Pass
    ensures CoarseReconcileAsWritten(v, Before, Moved).tree.nodes["N"].parents == ["A"]
    ensures CoarseReconcile(v, Before, Moved).outcome == Fail(MustFetchFresh)
  {
    assert multiset(["A"]) != multiset(["B"]) by {
      assert multiset(["A"])["A"] == 1;
    }
  }

  /**
   * A payload that carries no parents: as written the merged parents are
   * the stored ones, which differ from the payload's empty list, so a
   * fresh fetch is asked for; comparing the stored parents passes.
   */
  lemma BarePayloadResetsAsWritten(v: Variant)
    ensures CoarseReconcileAsWritten(v, Before, Bare).outcome == Fail(MustFetchFresh)
    ensures CoarseReconcile(v, Before, Bare).outcome == Pass
  {
    assert multiset(["A"])["A"] == 1;
  }

  // ---------------------------------------------------------------------
  // Deletion and commit through the payload

  const Renamed := Known.(name := "b")
  const Trashed := Known.(status := "TRASH")
  const Folder := EmptyNode.(id := "A", name := "", kind := KindFolder, status := StatusAvailable, children := ["N"])
  const Listed := Tree(map["A" := Folder, "N" := Known], {"A", "N"}, "A", "")

  /**
   * A rename of an indexed node: as written the record keeps its old name;
   * committed onto the record, the new name is stored.
   */
  lemma RenameLostAsWritten(v: Variant)
    ensures CoarseReconcileAsWritten(v, Before, Renamed) == Sync.Step(Pass, Before)
    ensures CoarseReconcileAsWritten(v, Before, Renamed).tree.nodes["N"].name == "a"
    ensures CoarseReconcile(v, Before, Renamed).tree.nodes["N"].name == "b"
  {
  }

  /**
   * Folder A lists N, and N is trashed: as written A still lists N in both
   * passes, although client/node/sync.go has dropped N from the index;
   * unlinking the stored node empties A's list.
   */
  lemma DanglingChildAsWritten(v: Variant)
    ensures CoarseReconcileAsWritten(v, Listed, Trashed).outcome == Pass
    ensures CoarseReconcileAsWritten(v, Listed, Trashed).tree.nodes["A"].children == ["N"]
    ensures v.ClientNode? ==> "N" !in CoarseReconcileAsWritten(v, Listed, Trashed).tree.indexed
    ensures CoarseReconcile(v, Listed, Trashed).tree.nodes["A"].children == []
  {
    var merged := Update(Known, Trashed);
    assert merged.parents == ["A"];
    assert RemoveChild(Folder, "N").children == [] by {
      assert FirstIndex(Folder.children, "N") == 0;
    }
  }

  /**
   * In general, as client/node/sync.go is written, deleting a node that an
   * indexed parent lists breaks the agreement of the graph with the parent
   * lists: the parent keeps a child that has left the index. The deletion
   * that unlinks the stored node keeps the agreement.
   */
  lemma DeletionBreaksConsistencyAsWritten(t: Tree, p: Node, q: ID)
    requires Sync.Consistent(t) && p.children == []
    requires p.id in t.indexed && !Available(Update(t.nodes[p.id], p))
    requires q in t.indexed && p.id in t.nodes[q].children
    ensures !Sync.Consistent(CoarseReconcileAsWritten(ClientNode, t, p).tree)
    ensures Sync.Consistent(CoarseReconcile(ClientNode, t, p).tree)
  {
    var r := CoarseReconcileAsWritten(ClientNode, t, p).tree;
    assert Sync.CountsAgree(t, q, p.id);
    assert Sync.CleanParents(t, p.id);
    assert q != p.id;
    assert multiset(r.nodes[q].children)[p.id] > 0;
    assert !Sync.CountsAgree(r, q, p.id);
    ClientNodeReconcileConsistent(t, p);
  }
}
