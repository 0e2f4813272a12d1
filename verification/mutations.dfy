/**
 * The calls that change the remote tree and their local effect
 * (client/nodetree/node_upload.go, and the identical CreateFolder, Upload and
 * Overwrite of client/node/upload.go; RemoveNode of node/tree.go and
 * client/nodetree/nodetree.go). The remote service is an oracle: for the
 * k-th call and the request sent it gives the exchange that happened, and
 * the status it answered is classified by CheckResponse.
 */
module Mutations {
  import opened Errors
  import opened Nodes
  import opened Trees
  import Response

  /** What the program asks the service for. */
  datatype Request =
    | CreateNode(name: string, kind: string, parents: seq<ID>)
    | OverwriteContent(id: ID)
    | TrashNode(id: ID)

  /** The step before an answer at which a call failed. */
  datatype SendFailure = EncodeFailed | RequestFailed | TransportFailed

  /**
   * One exchange with the service: it failed before an answer, or the
   * service answered with a status and a body that decodes to a node or
   * not. For uploads, producer is the error the goroutine writing the
   * multipart body had reported by the time the answer arrived, if any.
   */
  datatype Exchange =
    | Unsent(failure: SendFailure)
    | Answered(status: int, producer: Option<Error>, body: Option<Node>)

  /** The service: the exchange of the k-th call, given the request. */
  type Server = (nat, Request) -> Exchange

  /** A result, the tree after the call, and the index of the next call. */
  datatype Effect<+T> = Effect(result: Result<T>, tree: Tree, next: nat)

  function SendError(f: SendFailure): Error {
    match f
    case EncodeFailed => JSONEncoding
    case RequestFailed => CreatingHTTPRequest
    case TransportFailed => DoingHTTPRequest
  }

  /**
   * The reply of CreateFolder (node_upload.go:22-49): a send failure, then
   * the status, then the body decides. The producer error is not looked at.
   */
  function MetadataReply(ex: Exchange): (r: Result<Node>)
    ensures r.Ok? <==> ex.Answered? && Response.IsSuccess(ex.status) && ex.body.Some?
    ensures r.Ok? ==> r.value == ex.body.value
    ensures ex.Unsent? ==> r == Err(SendError(ex.failure))
    ensures ex.Answered? && !Response.IsSuccess(ex.status) ==> r == Err(Response.CheckResponse(ex.status).error)
    ensures ex.Answered? && Response.IsSuccess(ex.status) && ex.body.None? ==> r == Err(JSONDecodingResponseBody)
  {
    match ex
    case Unsent(f) => Err(SendError(f))
    case Answered(status, _, body) =>
      var check := Response.CheckResponse(status);
      if check.Fail? then Err(check.error)
      else if body.None? then Err(JSONDecodingResponseBody)
      else Ok(body.value)
  }

  /**
   * The reply of upload (node_upload.go:119-150): as MetadataReply, except
   * that an error the body producer has already reported wins over
   * decoding the body, once the status has passed.
   */
  function UploadReply(ex: Exchange): (r: Result<Node>)
    ensures r.Ok? <==> ex.Answered? && Response.IsSuccess(ex.status) && ex.producer.None? && ex.body.Some?
    ensures r.Ok? ==> r.value == ex.body.value
    ensures ex.Answered? && Response.IsSuccess(ex.status) && ex.producer.Some? ==> r == Err(ex.producer.value)
    ensures ex.Unsent? || ex.producer.None? ==> r == MetadataReply(ex)
  {
    match ex
    case Unsent(f) => Err(SendError(f))
    case Answered(status, producer, body) =>
      var check := Response.CheckResponse(status);
      if check.Fail? then Err(check.error)
      else if producer.Some? then Err(producer.value)
      else if body.None? then Err(JSONDecodingResponseBody)
      else Ok(body.value)
  }

  /** The new node is recorded and appended as the last child of the parent. */
  function Attach(t: Tree, parent: ID, n: Node): (r: Tree)
    requires Wf(t) && parent in t.nodes
    ensures Wf(r) && r.nodes.Keys == t.nodes.Keys + {n.id}
    ensures r.indexed == t.indexed && r.root == t.root && r.checkpoint == t.checkpoint
    ensures n.id != parent ==> r.nodes[n.id] == n && r.nodes[parent] == AddChild(t.nodes[parent], n.id)
    ensures forall q :: q in t.nodes && q != parent && q != n.id ==> r.nodes[q] == t.nodes[q]
  {
    var nodes := t.nodes[n.id := n];
    t.(nodes := nodes[parent := AddChild(nodes[parent], n.id)])
  }

  function FolderRequest(parentId: ID, name: string): (q: Request)
    ensures q.CreateNode? && q.kind == KindFolder && q.parents == [parentId] && q.name == name
  {
    CreateNode(name, KindFolder, [parentId])
  }

  function FileRequest(parentId: ID, name: string): (q: Request)
    ensures q.CreateNode? && q.kind == KindFile && q.parents == [parentId] && q.name == name
  {
    CreateNode(name, KindFile, [parentId])
  }

  /**
   * CreateFolder (node_upload.go:16-53): a FOLDER named name is requested
   * under the parent; on any failure the tree is unchanged, on success the
   * decoded node is appended to the parent's children and returned.
   */
  function CreateFolder(t: Tree, parent: ID, name: string, server: Server, k: nat): (r: Effect<ID>)
    requires Wf(t) && parent in t.nodes
    ensures r.next == k + 1
    ensures var reply := MetadataReply(server(k, FolderRequest(t.nodes[parent].id, name)));
      && (r.result.Err? ==> r.tree == t && reply == Err(r.result.error))
      && (r.result.Ok? ==> reply.Ok? && reply.value.id == r.result.value)
    ensures r.result.Ok? ==> (Wf(r.tree) && r.tree.nodes.Keys == t.nodes.Keys + {r.result.value}
      && r.result.value in r.tree.nodes[parent].children)
    ensures r.result.Ok? && r.result.value != parent ==>
      (r.tree.nodes[parent] == AddChild(t.nodes[parent], r.result.value)
      && MetadataReply(server(k, FolderRequest(t.nodes[parent].id, name))) == Ok(r.tree.nodes[r.result.value]))
    ensures r.result.Ok? ==> r.tree.indexed == t.indexed && r.tree.root == t.root && r.tree.checkpoint == t.checkpoint
    ensures r.result.Ok? ==> forall q :: q in t.nodes && q != parent && q != r.result.value ==> r.tree.nodes[q] == t.nodes[q]
  {
    match MetadataReply(server(k, FolderRequest(t.nodes[parent].id, name)))
    case Err(e) => Effect(Err(e), t, k + 1)
    case Ok(n) => Effect(Ok(n.id), Attach(t, parent, n), k + 1)
  }

  /**
   * Upload (node_upload.go:56-76): a FILE named name is requested under the
   * parent and appended to its children only once the upload succeeded.
   */
  function Upload(t: Tree, parent: ID, name: string, server: Server, k: nat): (r: Effect<ID>)
    requires Wf(t) && parent in t.nodes
    ensures r.next == k + 1
    ensures var reply := UploadReply(server(k, FileRequest(t.nodes[parent].id, name)));
      && (r.result.Err? ==> r.tree == t && reply == Err(r.result.error))
      && (r.result.Ok? ==> reply.Ok? && reply.value.id == r.result.value)
    ensures r.result.Ok? ==> (Wf(r.tree) && r.tree.nodes.Keys == t.nodes.Keys + {r.result.value}
      && r.result.value in r.tree.nodes[parent].children)
    ensures r.result.Ok? && r.result.value != parent ==>
      (r.tree.nodes[parent] == AddChild(t.nodes[parent], r.result.value)
      && UploadReply(server(k, FileRequest(t.nodes[parent].id, name))) == Ok(r.tree.nodes[r.result.value]))
    ensures r.result.Ok? ==> r.tree.indexed == t.indexed && r.tree.root == t.root && r.tree.checkpoint == t.checkpoint
    ensures r.result.Ok? ==> forall q :: q in t.nodes && q != parent && q != r.result.value ==> r.tree.nodes[q] == t.nodes[q]
  {
    match UploadReply(server(k, FileRequest(t.nodes[parent].id, name)))
    case Err(e) => Effect(Err(e), t, k + 1)
    case Ok(n) => Effect(Ok(n.id), Attach(t, parent, n), k + 1)
  }

  /**
   * Overwrite (node_upload.go:78-87): new contents for an existing node; the
   * answer is merged into the node with update and no child is added.
   */
  function Overwrite(t: Tree, id: ID, server: Server, k: nat): (r: Effect<ID>)
    requires Wf(t) && id in t.nodes
    ensures r.next == k + 1
    ensures Wf(r.tree) && r.tree.nodes.Keys == t.nodes.Keys && r.tree.indexed == t.indexed && r.tree.root == t.root
    ensures forall q :: q in t.nodes && q != id ==> r.tree.nodes[q] == t.nodes[q]
    ensures var reply := UploadReply(server(k, OverwriteContent(t.nodes[id].id)));
      && (r.result.Err? ==> r.tree == t && reply == Err(r.result.error))
      && (r.result.Ok? ==>
            r.result.value == id && reply.Ok?
            && r.tree.nodes[id] == Update(t.nodes[id], reply.value)
            && (reply.value.children == [] ==> r.tree.nodes[id].children == t.nodes[id].children))
  {
    match UploadReply(server(k, OverwriteContent(t.nodes[id].id)))
    case Err(e) => Effect(Err(e), t, k + 1)
    case Ok(n) => Effect(Ok(id), t.(nodes := t.nodes[id := Update(t.nodes[id], n)]), k + 1)
  }

  /**
   * RemoveNode (node/tree.go:37-52): the node goes to the trash first; if
   * that fails nothing changes locally, otherwise the node leaves the
   * children of each of its parents that is indexed. The index itself is
   * left as it was. The RemoveNode of client/nodetree/nodetree.go:57-75 has
   * the same shape but calls the RemoveChild whose loop variable shadows
   * its receiver (Trees.RemoveChildAsWritten), so there a leaf listed by
   * an indexed folder panics after the trash call.
   */
  function RemoveNode(t: Tree, id: ID, server: Server, k: nat): (r: Effect<()>)
    requires Wf(t) && id in t.nodes
    ensures r.next == k + 1
    ensures r.result.Err? ==> (r.tree == t
      && TrashOutcome(server(k, TrashNode(t.nodes[id].id))) == Fail(r.result.error))
    ensures Wf(r.tree) && r.tree.indexed == t.indexed && r.tree.nodes.Keys == t.nodes.Keys
    ensures r.result.Ok? ==> forall q :: q in t.indexed && q in t.nodes[id].parents && id in t.nodes[q].children ==>
      multiset(r.tree.nodes[q].children)[id] < multiset(t.nodes[q].children)[id]
    ensures r.result.Ok? ==> forall q :: q in t.nodes && (q !in t.indexed || q !in t.nodes[id].parents) ==>
      r.tree.nodes[q] == t.nodes[q]
    ensures r.result.Ok? ==> forall q :: q in t.indexed ==>
      r.tree.nodes[q] == t.nodes[q].(children := RemoveN(t.nodes[q].children, id, multiset(t.nodes[id].parents)[q]))
  {
    var ex := server(k, TrashNode(t.nodes[id].id));
    var check := TrashOutcome(ex);
    if check.Fail? then Effect(Err(check.error), t, k + 1)
    else
      var r := UnlinkAll(t, t.nodes[id].parents, id);
      forall q | q in t.indexed && q in t.nodes[id].parents && id in t.nodes[q].children
        ensures multiset(r.nodes[q].children)[id] < multiset(t.nodes[q].children)[id]
      {
        RemoveNCounts(t.nodes[q].children, id, multiset(t.nodes[id].parents)[q]);
      }
      Effect(Ok(()), r, k + 1)
  }

  /** Remove (node_remove.go:13-32): the status decides; the body is not read. */
  function TrashOutcome(ex: Exchange): (r: Outcome)
    ensures r.Pass? <==> ex.Answered? && Response.IsSuccess(ex.status)
    ensures r.Fail? ==> MetadataReply(ex) == Err(r.error)
  {
    match ex
    case Unsent(f) => Fail(SendError(f))
    case Answered(status, _, _) => Response.CheckResponse(status)
  }

  /** A successful creation followed by RemoveChild gives back the parent record. */
  lemma CreateFolderUndone(t: Tree, parent: ID, name: string, server: Server, k: nat)
    requires Wf(t) && parent in t.nodes
    requires CreateFolder(t, parent, name, server, k).result.Ok?
    requires CreateFolder(t, parent, name, server, k).result.value != parent
    requires CreateFolder(t, parent, name, server, k).result.value !in t.nodes[parent].children
    ensures var r := CreateFolder(t, parent, name, server, k);
      RemoveChild(r.tree.nodes[parent], r.result.value) == t.nodes[parent]
  {
    var r := CreateFolder(t, parent, name, server, k);
    RemoveAddChild(t.nodes[parent], r.result.value);
  }

  /**
   * A folder created under an indexed parent and then removed gives back
   * the parent's record as it was before the creation, and every other
   * record; only the new record stays, unindexed. This holds when the
   * service reports the new folder under that parent alone.
   */
  lemma CreateFolderThenRemove(t: Tree, parent: ID, name: string, server: Server, k: nat)
    requires Wf(t) && parent in t.indexed
    requires CreateFolder(t, parent, name, server, k).result.Ok?
    requires var c := CreateFolder(t, parent, name, server, k);
      c.result.value != parent && c.result.value !in t.nodes[parent].children
      && c.tree.nodes[c.result.value].parents == [parent]
    requires var c := CreateFolder(t, parent, name, server, k);
      RemoveNode(c.tree, c.result.value, server, k + 1).result.Ok?
    ensures var c := CreateFolder(t, parent, name, server, k);
      var r := RemoveNode(c.tree, c.result.value, server, k + 1).tree;
      && r.nodes[parent] == t.nodes[parent]
      && r.indexed == t.indexed
      && r.nodes.Keys == t.nodes.Keys + {c.result.value}
      && forall q :: q in t.nodes && q != c.result.value ==> r.nodes[q] == t.nodes[q]
  {
    var c := CreateFolder(t, parent, name, server, k);
    var id := c.result.value;
    var r := RemoveNode(c.tree, id, server, k + 1).tree;
    assert multiset([parent])[parent] == 1;
    RemoveNSnoc(t.nodes[parent].children, id);
    assert r.nodes[parent] == t.nodes[parent];
  }

  /** Removing one occurrence of an element just appended, and found nowhere before, gives back the list. */
  lemma {:induction false} RemoveNSnoc<T>(s: seq<T>, x: T)
    requires x !in s
    ensures RemoveN(s + [x], x, 1) == s
  {
    if |s| > 0 {
      assert (s + [x])[1..] == s[1..] + [x];
      RemoveNSnoc(s[1..], x);
    }
  }
}
