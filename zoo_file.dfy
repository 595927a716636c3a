/**
 * The ZooFile handle: one path on one session. Existence, the child listing,
 * the file-or-directory decision, writing the payload and creating the node.
 * Reading the payload is in ContentRead; marking and removal, which change the
 * process-wide cache, are in Classification.ProcessCache.
 */
module ZooFile {
  import opened ZooStore
  import opened Classification
  import opened ContentRead

  const Root: Path := "/"

  /** exists: a missing node is a plain false, every other failure an error. */
  function Exists(s: Store, p: Path): (r: Outcome<bool>)
    ensures r == Done(true) <==> s.link.Connected? && p in s.nodes
    ensures r == Done(false) <==> s.link.Connected? && p !in s.nodes
    ensures r.StoreError? <==> s.link.Lost?
    ensures r.StoreError? ==> r.rc == ZSessionError(s.link.code)
  {
    var rc := ZooExists(s, p);
    if rc == ZNoNode then Done(false)
    else if rc != ZOk then StoreError(rc)
    else Done(true)
  }

  /** What getChildren returns: the node's children in the server's order, or the failing code. */
  function Listing(s: Store, p: Path): (r: Outcome<seq<string>>)
    ensures r.Done? <==> s.link.Connected? && p in s.nodes
    ensures r.Done? ==> r.value == s.nodes[p].children
    ensures !r.Done? ==> r == StoreError(CallRc(s, p)) && r.rc != ZOk
  {
    var reply := ZooGetChildren(s, p);
    if reply.rc != ZOk then StoreError(reply.rc) else Done(reply.children)
  }

  /** getChildren: asks the session for the children and copies them one by one. */
  method GetChildren(s: Store, p: Path) returns (r: Outcome<seq<string>>)
    ensures r == Listing(s, p)
  {
    var reply := ZooGetChildren(s, p);
    if reply.rc != ZOk {
      return StoreError(reply.rc);
    }
    var names: seq<string> := [];
    var i := 0;
    while i < |reply.children|
      invariant 0 <= i <= |reply.children|
      invariant names == reply.children[..i]
    {
      names := names + [reply.children[i]];
      i := i + 1;
    }
    assert reply.children[..i] == reply.children;
    return Done(names);
  }

  /** hasChildren: whether getChildren returns a non-empty listing. */
  function HasChildren(s: Store, p: Path): (r: Outcome<bool>)
    ensures r == Done(true) <==> s.link.Connected? && p in s.nodes && s.nodes[p].children != []
    ensures r == Done(false) <==> s.link.Connected? && p in s.nodes && s.nodes[p].children == []
    ensures !r.Done? ==> r == StoreError(CallRc(s, p)) && r.rc != ZOk
  {
    match Listing(s, p)
    case Done(children) => Done(|children| > 0)
    case StoreError(rc) => StoreError(rc)
    case Incomplete => Incomplete
  }

  /**
   * isDir. It only reads the cache. views[0] is the store as getChildren finds
   * it and views[1..] are the states getLength's reads see.
   */
  function IsDir(c: Cache, p: Path, views: seq<Store>): (r: Outcome<bool>)
    ensures r.StoreError? ==> r.rc != ZOk
    ensures c.hybrid && (p == Root || KindOf(c, p) != Unclassified) ==> r.Done?
    ensures r.StoreError? ==> views != [] && (CallRc(views[0], p) == r.rc || GetLength(p, views[1..]) == StoreError(r.rc))
  {
    if !c.hybrid then
      if views == [] then Incomplete
      else match Listing(views[0], p)
        case Done(children) => Done(children != [])
        case StoreError(rc) => StoreError(rc)
        case Incomplete => Incomplete
    else if p == Root then Done(true)
    else if p !in c.files then
      if p !in c.dirs then
        if views == [] then Incomplete
        else match Listing(views[0], p)
          case Done(children) =>
            if children == [] then
              match GetLength(p, views[1..])
              case Done(n) => Done(n == 0)
              case StoreError(rc) => StoreError(rc)
              case Incomplete => Incomplete
            else Done(true)
          case StoreError(rc) => StoreError(rc)
          case Incomplete => Incomplete
      else Done(true)
    else Done(false)
  }

  /**
   * The intended classification of a node that does not change. Without
   * hybrid mode a node is a directory when it has children. With it, the root
   * is a directory, a cached answer is final (files first), and otherwise a
   * node is a directory when it has children or no payload.
   */
  ghost predicate ClassifiedAsDirectory(c: Cache, p: Path, node: ZNode)
  {
    if !c.hybrid then node.children != []
    else if p == Root then true
    else if KindOf(c, p) != Unclassified then KindOf(c, p) == Directory
    else node.children != [] || node.content == []
  }

  /** With hybrid mode off, isDir is hasChildren, whatever the cache holds. */
  lemma SimpleModeIsHasChildren(c: Cache, p: Path, views: seq<Store>)
    requires !c.hybrid && views != []
    ensures IsDir(c, p, views) == HasChildren(views[0], p)
  {
  }

  /** With hybrid mode on, the root is a directory, decided with no store call at all. */
  lemma RootIsDirectory(c: Cache, views: seq<Store>)
    requires c.hybrid
    ensures IsDir(c, Root, views) == Done(true)
  {
  }

  /** With hybrid mode on, a cached classification is the answer and the store is not asked. */
  lemma CachedClassificationDecides(c: Cache, p: Path, views: seq<Store>)
    requires c.hybrid && p != Root && KindOf(c, p) != Unclassified
    ensures IsDir(c, p, views) == Done(KindOf(c, p) == Directory)
    ensures IsDir(c, p, views) == IsDir(c, p, [])
  {
  }

  /**
   * With hybrid mode on, an unclassified path is a directory when it has
   * children, and otherwise exactly when getLength reports 0.
   */
  lemma UnclassifiedFallsBackToStore(c: Cache, p: Path, views: seq<Store>)
    requires c.hybrid && p != Root && KindOf(c, p) == Unclassified && views != []
    requires Listing(views[0], p).Done?
    ensures Listing(views[0], p).value != [] ==> IsDir(c, p, views) == Done(true)
    ensures Listing(views[0], p).value == [] && GetLength(p, views[1..]).Done?
            ==> IsDir(c, p, views) == Done(GetLength(p, views[1..]).value == 0)
  {
  }

  /**
   * A failing store call inside isDir ends it with that call's code: the
   * listing's, in either mode, and in hybrid mode getLength's.
   */
  lemma IsDirPropagatesErrors(c: Cache, p: Path, views: seq<Store>)
    requires views != []
    requires !c.hybrid || (p != Root && KindOf(c, p) == Unclassified)
    ensures CallRc(views[0], p) != ZOk ==> IsDir(c, p, views) == StoreError(CallRc(views[0], p))
    ensures c.hybrid && CallRc(views[0], p) == ZOk && views[0].nodes[p].children == []
            && GetLength(p, views[1..]).StoreError?
            ==> IsDir(c, p, views) == StoreError(GetLength(p, views[1..]).rc)
  {
  }

  /**
   * On a store nobody writes to, isDir gives the intended classification;
   * three store states are enough for every path through it.
   */
  lemma IsDirOnSteadyStore(c: Cache, p: Path, s: Store, views: seq<Store>)
    requires |views| >= 3
    requires forall k | 0 <= k < |views| :: views[k] == s
    requires s.link.Connected? && p in s.nodes
    ensures IsDir(c, p, views) == Done(ClassifiedAsDirectory(c, p, s.nodes[p]))
  {
  }

  /** setContent: overwrite the payload whatever its version; last writer wins. */
  function SetContent(s: Store, p: Path, data: seq<byte>): (r: (Outcome<()>, Store))
    ensures r.0.Done? <==> s.link.Connected? && p in s.nodes
    ensures !r.0.Done? ==> r.0 == StoreError(CallRc(s, p)) && r.1 == s
    ensures r.0.Done? ==> HoldsPayload(r.1, p, data) && r.1.nodes[p].children == s.nodes[p].children
    ensures r.0.Done? ==> r.1.nodes.Keys == s.nodes.Keys
    ensures forall q | q != p && q in s.nodes :: q in r.1.nodes && r.1.nodes[q] == s.nodes[q]
  {
    var (rc, after) := ZooSet(s, p, data);
    if rc != ZOk then (StoreError(rc), after) else (Done(()), after)
  }

  /** create: a new node with no payload; it fails if the node exists. */
  function Create(s: Store, p: Path): (r: (Outcome<()>, Store))
    ensures r.0.Done? <==> s.link.Connected? && p !in s.nodes
    ensures !r.0.Done? ==> r.0 == StoreError(ZooCreate(s, p).0) && r.0.rc != ZOk
    ensures s.link.Connected? && p in s.nodes ==> r.0 == StoreError(ZNodeExists)
    ensures s.link.Lost? ==> r.0 == StoreError(ZSessionError(s.link.code))
    ensures r.0.Done? ==> HoldsPayload(r.1, p, []) && r.1.nodes[p].children == []
    ensures r.0.Done? ==> r.1.nodes.Keys == s.nodes.Keys + {p}
    ensures forall q | q != p && q in s.nodes :: q in r.1.nodes && r.1.nodes[q] == s.nodes[q]
    ensures !r.0.Done? ==> r.1 == s
  {
    var (rc, after) := ZooCreate(s, p);
    if rc != ZOk then (StoreError(rc), after) else (Done(()), after)
  }

  /** What is written is what is read back, empty or larger than the first read's buffer. */
  lemma SetThenGetContent(s: Store, p: Path, data: seq<byte>, views: seq<Store>)
    requires SetContent(s, p, data).0.Done?
    requires |views| >= 2
    requires forall k | 0 <= k < |views| :: views[k] == SetContent(s, p, data).1
    ensures ReadContent(p, views) == Done(data)
  {
    SteadyStoreReadsPayload(p, SetContent(s, p, data).1, views);
  }

  /** After a successful delete the node no longer exists. */
  lemma RemovedNodeDoesNotExist(s: Store, p: Path)
    requires ZooDelete(s, p).0 == ZOk
    ensures Exists(ZooDelete(s, p).1, p) == Done(false)
  {
  }

  /**
   * An empty, childless, unclassified node is a directory in hybrid mode until
   * it gets a payload; nothing was cached by the first answer.
   */
  lemma EmptyLeafBecomesFile()
    ensures var s := Store(map[Root := ZNode([], ["a"]), "/a" := ZNode([], [])], Connected);
            var c := EnableHybrid(Initial);
            var written := SetContent(s, "/a", [120]).1;
            IsDir(c, "/a", [s, s, s]) == Done(true) &&
            IsDir(c, "/a", [written, written, written]) == Done(false)
  {
  }

  /** A path marked as a directory stays one in hybrid mode after it gets a payload. */
  lemma MarkedDirectoryIgnoresPayload(s: Store, data: seq<byte>)
    requires SetContent(s, "/b", data).0.Done?
    ensures var written := SetContent(s, "/b", data).1;
            IsDir(MarkDirectory(EnableHybrid(Initial), "/b"), "/b", [written, written, written]) == Done(true)
  {
  }
}
