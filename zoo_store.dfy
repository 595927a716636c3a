/**
 * The ZooKeeper session as the file layer sees it.
 *
 * ZooKeeper itself has no files and no directories: every znode has a payload
 * and a list of children. The C client's calls (zoo_exists, zoo_get_children,
 * zoo_get, zoo_set, zoo_create, zoo_delete) are modelled here as functions on
 * one state of the store that give back the client's result code instead of
 * raising anything. What other writers do between two calls is not modelled
 * here: an operation that makes several calls is given one store state per call.
 */
module ZooStore {

  newtype byte = b: int | 0 <= b < 256

  type Path = string

  /** One znode: its payload and the names of its children, as the server lists them. */
  datatype ZNode = ZNode(content: seq<byte>, children: seq<string>)

  /** The result codes of the C client that this layer tells apart. */
  datatype Rc = ZOk | ZNoNode | ZNodeExists | ZNotEmpty | ZSessionError(code: int)

  /** Whether calls reach the ensemble; while the link is lost every call fails with its code. */
  datatype Link = Connected | Lost(code: int)

  datatype Store = Store(nodes: map<Path, ZNode>, link: Link)

  /**
   * What one operation of the file layer gives back: a value, the error code of
   * the store call that failed (the source throws a ZooFileException carrying
   * it), or Incomplete when the operation would have made more store calls than
   * the model was given store states for.
   */
  datatype Outcome<T> = Done(value: T) | StoreError(rc: Rc) | Incomplete

  /** The code a call that reads the node at p returns. */
  function CallRc(s: Store, p: Path): (rc: Rc)
    ensures rc == ZOk <==> s.link.Connected? && p in s.nodes
  {
    match s.link
    case Lost(code) => ZSessionError(code)
    case Connected => if p in s.nodes then ZOk else ZNoNode
  }

  /** zoo_exists without a watch. */
  function ZooExists(s: Store, p: Path): Rc
  {
    CallRc(s, p)
  }

  datatype ChildrenReply = ChildrenReply(rc: Rc, children: seq<string>)

  /** zoo_get_children without a watch. */
  function ZooGetChildren(s: Store, p: Path): (r: ChildrenReply)
    ensures r.rc == CallRc(s, p)
    ensures r.rc == ZOk ==> r.children == s.nodes[p].children
  {
    if CallRc(s, p) == ZOk then ChildrenReply(ZOk, s.nodes[p].children)
    else ChildrenReply(CallRc(s, p), [])
  }

  /** The reply of zoo_get: the bytes copied into the caller's buffer and the length the call reports. */
  datatype GetReply = GetReply(rc: Rc, data: seq<byte>, reported: nat)

  /**
   * zoo_get into a buffer of `capacity` bytes: it copies as much of the payload
   * as fits and reports the payload's whole length.
   */
  function ZooGet(s: Store, p: Path, capacity: nat): (r: GetReply)
    ensures r.rc == CallRc(s, p)
    ensures r.rc == ZOk ==> r.reported == |s.nodes[p].content|
    ensures r.rc == ZOk ==> |r.data| <= capacity
    ensures r.rc == ZOk && r.reported <= capacity ==> r.data == s.nodes[p].content
  {
    if CallRc(s, p) != ZOk then GetReply(CallRc(s, p), [], 0)
    else
      var payload := s.nodes[p].content;
      GetReply(ZOk, if |payload| <= capacity then payload else payload[..capacity], |payload|)
  }

  /** zoo_set with version -1: overwrites the payload whatever its version. */
  function ZooSet(s: Store, p: Path, data: seq<byte>): (r: (Rc, Store))
    ensures r.0 == CallRc(s, p)
    ensures r.0 != ZOk ==> r.1 == s
  {
    if CallRc(s, p) != ZOk then (CallRc(s, p), s)
    else (ZOk, s.(nodes := s.nodes[p := s.nodes[p].(content := data)]))
  }

  /** zoo_create of a persistent, non-sequential node with no payload. */
  function ZooCreate(s: Store, p: Path): (r: (Rc, Store))
    ensures r.0 == ZOk <==> s.link.Connected? && p !in s.nodes
    ensures r.0 != ZOk ==> r.1 == s
  {
    match s.link
    case Lost(code) => (ZSessionError(code), s)
    case Connected =>
      if p in s.nodes then (ZNodeExists, s)
      else (ZOk, s.(nodes := s.nodes[p := ZNode([], [])]))
  }

  /** zoo_delete with version -1: only a node without children can be deleted. */
  function ZooDelete(s: Store, p: Path): (r: (Rc, Store))
    ensures r.0 == ZOk <==> s.link.Connected? && p in s.nodes && s.nodes[p].children == []
    ensures r.0 == ZOk ==> p !in r.1.nodes
    ensures r.0 != ZOk ==> r.1 == s
  {
    match s.link
    case Lost(code) => (ZSessionError(code), s)
    case Connected =>
      if p !in s.nodes then (ZNoNode, s)
      else if s.nodes[p].children != [] then (ZNotEmpty, s)
      else (ZOk, s.(nodes := s.nodes - {p}))
  }
}
