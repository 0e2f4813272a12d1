/**
 * One node of the remote file tree (client/nodetree/node.go): its metadata,
 * the list of its children, and the operations on a single node. Children
 * are held by ID rather than by pointer; the tree maps IDs to nodes.
 */
module Nodes {

  type ID = string

  /** A time.Time; 0 stands for the zero time. */
  type Time = int

  const KindFile := "FILE"
  const KindFolder := "FOLDER"
  const StatusAvailable := "AVAILABLE"

  datatype ContentProperties = ContentProperties(
    version: nat,
    extension: string,
    size: nat,
    md5: string,
    contentType: string,
    contentDate: Time)

  datatype Node = Node(
    id: ID,
    name: string,
    kind: string,
    parents: seq<ID>,
    status: string,
    labels: seq<string>,
    createdBy: string,
    creationDate: Time,
    modifiedDate: Time,
    version: nat,
    tempLink: string,
    content: ContentProperties,
    children: seq<ID>,
    root: bool)

  const EmptyContent := ContentProperties(0, "", 0, "", "", 0)

  /** The zero Node of Go: every field empty. */
  const EmptyNode := Node("", "", "", [], "", [], "", 0, 0, 0, "", EmptyContent, [], false)

  predicate IsFile(n: Node) {
    n.kind == KindFile
  }

  predicate IsDir(n: Node) {
    n.kind == KindFolder
  }

  predicate Available(n: Node) {
    n.status == StatusAvailable
  }

  /** AddChild: the child goes to the end of the list. */
  function AddChild(n: Node, child: ID): (r: Node)
    ensures r.children == n.children + [child]
    ensures r.(children := n.children) == n
  {
    n.(children := n.children + [child])
  }

  /** The position of the first occurrence of x. */
  function FirstIndex<T(==)>(s: seq<T>, x: T): (i: nat)
    requires x in s
    ensures i < |s| && s[i] == x && x !in s[..i]
  {
    if s[0] == x then 0 else FirstIndex(s[1..], x) + 1
  }

  /**
   * The list without the first occurrence of x, or the list itself when x
   * does not occur in it.
   */
  function RemoveFirst<T(==)>(s: seq<T>, x: T): (r: seq<T>)
    ensures x !in s ==> r == s
    ensures x in s ==> multiset(r) == multiset(s) - multiset{x} && |r| == |s| - 1
    ensures x !in s ==> multiset(r) == multiset(s)
    ensures x in s ==> r == s[..FirstIndex(s, x)] + s[FirstIndex(s, x) + 1..]
  {
    if x in s then
      var i := FirstIndex(s, x);
      assert s == s[..i] + [x] + s[i + 1..];
      s[..i] + s[i + 1..]
    else s
  }

  /**
   * RemoveChild as its name and callers intend: the first occurrence of the
   * child leaves the node's list, and nothing else changes.
   */
  function RemoveChild(n: Node, child: ID): (r: Node)
    ensures child in n.children ==> multiset(r.children) == multiset(n.children) - multiset{child}
    ensures child in n.children ==>
      r.children == n.children[..FirstIndex(n.children, child)] + n.children[FirstIndex(n.children, child) + 1..]
    ensures child !in n.children ==> r == n
    ensures r.(children := n.children) == n
  {
    n.(children := RemoveFirst(n.children, child))
  }

  /** Removing a child just added gives the node back. */
  lemma RemoveFirstSnoc(s: seq<ID>, x: ID)
    requires x !in s
    ensures RemoveFirst(s + [x], x) == s
  {
    var t := s + [x];
    assert forall k :: 0 <= k < |s| ==> t[k] != x;
    assert FirstIndex(t, x) == |s|;
    assert t[..|s|] == s;
  }

  lemma RemoveAddChild(n: Node, child: ID)
    requires child !in n.children
    ensures RemoveChild(AddChild(n, child), child) == n
  {
    RemoveFirstSnoc(n.children, child);
  }

  function PickSeq<T>(stored: seq<T>, sent: seq<T>): seq<T> {
    if |sent| > 0 then sent else stored
  }

  function PickNat(stored: nat, sent: nat): nat {
    if sent != 0 then sent else stored
  }

  function UpdateContent(c: ContentProperties, p: ContentProperties): ContentProperties
  {
    ContentProperties(
      PickNat(c.version, p.version),
      PickSeq(c.extension, p.extension),
      PickNat(c.size, p.size),
      PickSeq(c.md5, p.md5),
      PickSeq(c.contentType, p.contentType),
      p.contentDate)
  }

  /**
   * update (node.go:118-133): the payload is encoded to JSON and decoded onto
   * the node. Fields tagged omitempty that are empty in the payload are not
   * encoded and keep their old value; non-empty strings, lists and numbers
   * replace the old value; time values and the content properties are
   * structs, which omitempty never omits, so their times are always
   * replaced; a false root flag is omitted, so the flag only turns on.
   */
  function Update(n: Node, p: Node): (r: Node)
    ensures r.creationDate == p.creationDate && r.modifiedDate == p.modifiedDate
    ensures r.content.contentDate == p.content.contentDate
    ensures r.root <==> n.root || p.root
    ensures |p.children| > 0 ==> r.children == p.children
    ensures |p.children| == 0 ==> r.children == n.children
    // an omitted (empty) field keeps the stored value
    ensures p.id == "" ==> r.id == n.id
    ensures p.name == "" ==> r.name == n.name
    ensures p.kind == "" ==> r.kind == n.kind
    ensures |p.parents| == 0 ==> r.parents == n.parents
    ensures p.status == "" ==> r.status == n.status
    ensures |p.labels| == 0 ==> r.labels == n.labels
    ensures p.createdBy == "" ==> r.createdBy == n.createdBy
    ensures p.version == 0 ==> r.version == n.version
    ensures p.tempLink == "" ==> r.tempLink == n.tempLink
    ensures p.content.version == 0 ==> r.content.version == n.content.version
    ensures p.content.extension == "" ==> r.content.extension == n.content.extension
    ensures p.content.size == 0 ==> r.content.size == n.content.size
    ensures p.content.md5 == "" ==> r.content.md5 == n.content.md5
    ensures p.content.contentType == "" ==> r.content.contentType == n.content.contentType
  {
    Node(
      PickSeq(n.id, p.id),
      PickSeq(n.name, p.name),
      PickSeq(n.kind, p.kind),
      PickSeq(n.parents, p.parents),
      PickSeq(n.status, p.status),
      PickSeq(n.labels, p.labels),
      PickSeq(n.createdBy, p.createdBy),
      p.creationDate,
      p.modifiedDate,
      PickNat(n.version, p.version),
      PickSeq(n.tempLink, p.tempLink),
      UpdateContent(n.content, p.content),
      PickSeq(n.children, p.children),
      n.root || p.root)
  }

  /** A payload in which every field is set: it replaces the node, except that a root stays a root. */
  predicate Complete(p: Node) {
    p.id != "" && p.name != "" && p.kind != "" && |p.parents| > 0 && p.status != ""
    && |p.labels| > 0 && p.createdBy != "" && p.version != 0 && p.tempLink != ""
    && p.content.version != 0 && p.content.extension != "" && p.content.size != 0
    && p.content.md5 != "" && p.content.contentType != "" && |p.children| > 0
  }

  lemma UpdateComplete(n: Node, p: Node)
    requires Complete(p)
    ensures Update(n, p) == p.(root := n.root || p.root)
  {
  }

  /** Applying the same payload twice is the same as applying it once. */
  lemma UpdateIdempotent(n: Node, p: Node)
    ensures Update(Update(n, p), p) == Update(n, p)
  {
  }

  /** A node updated with itself is unchanged. */
  lemma UpdateSelf(n: Node)
    ensures Update(n, n) == n
  {
  }

  /** The zero payload resets only the three time values. */
  lemma UpdateEmpty(n: Node)
    ensures Update(n, EmptyNode) == n.(creationDate := 0, modifiedDate := 0, content := n.content.(contentDate := 0))
  {
  }

  /** A payload that sets a field wins over the stored value, whatever it was. */
  lemma UpdateOverrides(n: Node, m: Node, p: Node)
    ensures p.id != "" ==> Update(n, p).id == Update(m, p).id == p.id
    ensures p.name != "" ==> Update(n, p).name == Update(m, p).name == p.name
    ensures p.kind != "" ==> Update(n, p).kind == Update(m, p).kind == p.kind
    ensures |p.parents| > 0 ==> Update(n, p).parents == Update(m, p).parents == p.parents
    ensures p.status != "" ==> Update(n, p).status == Update(m, p).status == p.status
    ensures |p.labels| > 0 ==> Update(n, p).labels == Update(m, p).labels == p.labels
    ensures p.createdBy != "" ==> Update(n, p).createdBy == Update(m, p).createdBy == p.createdBy
    ensures p.version != 0 ==> Update(n, p).version == Update(m, p).version == p.version
    ensures p.tempLink != "" ==> Update(n, p).tempLink == Update(m, p).tempLink == p.tempLink
    ensures p.content.version != 0 ==> Update(n, p).content.version == Update(m, p).content.version == p.content.version
    ensures p.content.extension != "" ==> Update(n, p).content.extension == Update(m, p).content.extension == p.content.extension
    ensures p.content.size != 0 ==> Update(n, p).content.size == Update(m, p).content.size == p.content.size
    ensures p.content.md5 != "" ==> Update(n, p).content.md5 == Update(m, p).content.md5 == p.content.md5
    ensures p.content.contentType != "" ==>
      Update(n, p).content.contentType == Update(m, p).content.contentType == p.content.contentType
    ensures |p.children| > 0 ==> Update(n, p).children == Update(m, p).children == p.children
  {
  }
}
