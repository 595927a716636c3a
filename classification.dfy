/**
 * The process-wide classification cache: the set of paths known to be files,
 * the set of paths known to be directories, and the one-way hybrid-mode flag.
 *
 * `Cache` is the value of these three globals; the functions below are what
 * each operation does to it, and `ProcessCache` holds the globals themselves
 * and changes them in place.
 */
module Classification {
  import opened ZooStore

  datatype Cache = Cache(files: set<Path>, dirs: set<Path>, hybrid: bool)

  /** The invariant the marking guards keep: no path is both a file and a directory. */
  predicate Disjoint(c: Cache)
  {
    c.files !! c.dirs
  }

  /** The state of the globals when the process starts. */
  const Initial := Cache({}, {}, false)

  datatype Kind = File | Directory | Unclassified

  function KindOf(c: Cache, p: Path): Kind
  {
    if p in c.files then File else if p in c.dirs then Directory else Unclassified
  }

  /** markAsFile: record p as a file unless it is already recorded as a directory. */
  function MarkFile(c: Cache, p: Path): (r: Cache)
    ensures Disjoint(c) ==> Disjoint(r)
    ensures p in r.files || p in r.dirs
    ensures p in c.dirs ==> r == c
    ensures r.files - {p} == c.files - {p}
    ensures r.dirs == c.dirs && r.hybrid == c.hybrid
  {
    if p in c.dirs then c else c.(files := c.files + {p})
  }

  /** markAsDirectory: record p as a directory unless it is already recorded as a file. */
  function MarkDirectory(c: Cache, p: Path): (r: Cache)
    ensures Disjoint(c) ==> Disjoint(r)
    ensures p in r.files || p in r.dirs
    ensures p in c.files ==> r == c
    ensures r.dirs - {p} == c.dirs - {p}
    ensures r.files == c.files && r.hybrid == c.hybrid
  {
    if p in c.files then c else c.(dirs := c.dirs + {p})
  }

  /** What a successful remove does to the cache: p is forgotten in both sets. */
  function Evict(c: Cache, p: Path): (r: Cache)
    ensures Disjoint(c) ==> Disjoint(r)
    ensures KindOf(r, p) == Unclassified
    ensures r.files - {p} == c.files - {p} && r.dirs - {p} == c.dirs - {p}
    ensures r.hybrid == c.hybrid
  {
    c.(files := c.files - {p}, dirs := c.dirs - {p})
  }

  /** enableHybridMode: the flag is set, and there is no way to clear it. */
  function EnableHybrid(c: Cache): (r: Cache)
    ensures r.hybrid
    ensures r.files == c.files && r.dirs == c.dirs
  {
    c.(hybrid := true)
  }

  /** The operations that change the cache, with remove standing for a remove whose delete succeeded. */
  datatype CacheEvent = MarkedFile(path: Path) | MarkedDirectory(path: Path) | Removed(path: Path) | HybridEnabled

  function Apply(c: Cache, e: CacheEvent): Cache
  {
    match e
    case MarkedFile(p) => MarkFile(c, p)
    case MarkedDirectory(p) => MarkDirectory(c, p)
    case Removed(p) => Evict(c, p)
    case HybridEnabled => EnableHybrid(c)
  }

  /** The cache after the events, applied in order. */
  function Replay(c: Cache, events: seq<CacheEvent>): Cache
    decreases |events|
  {
    if events == [] then c else Replay(Apply(c, events[0]), events[1..])
  }

  predicate Mentions(e: CacheEvent, p: Path)
  {
    !e.HybridEnabled? && e.path == p
  }

  /** No sequence of marks and successful removes puts a path in both sets. */
  lemma {:induction false} ReplayKeepsDisjoint(c: Cache, events: seq<CacheEvent>)
    requires Disjoint(c)
    ensures Disjoint(Replay(c, events))
    decreases |events|
  {
    if events != [] {
      ReplayKeepsDisjoint(Apply(c, events[0]), events[1..]);
    }
  }

  /** Every operation touches only its own path: a path no event names keeps its classification. */
  lemma {:induction false} ReplayIsLocal(c: Cache, events: seq<CacheEvent>, p: Path)
    requires forall i | 0 <= i < |events| :: !Mentions(events[i], p)
    ensures p in Replay(c, events).files <==> p in c.files
    ensures p in Replay(c, events).dirs <==> p in c.dirs
    decreases |events|
  {
    if events != [] {
      assert !Mentions(events[0], p);
      assert forall i | 0 <= i < |events[1..]| :: events[1..][i] == events[i + 1];
      ReplayIsLocal(Apply(c, events[0]), events[1..], p);
    }
  }

  /**
   * The first classification recorded for a path wins: until a successful remove
   * of that path, no mark changes it.
   */
  lemma {:induction false} FirstClassificationSticks(c: Cache, events: seq<CacheEvent>, p: Path)
    requires KindOf(c, p) != Unclassified
    requires forall i | 0 <= i < |events| :: events[i] != Removed(p)
    ensures KindOf(Replay(c, events), p) == KindOf(c, p)
    decreases |events|
  {
    if events != [] {
      var next := Apply(c, events[0]);
      assert KindOf(next, p) == KindOf(c, p);
      FirstClassificationSticks(next, events[1..], p);
    }
  }

  /** Hybrid mode is one-way: once enabled, no event disables it. */
  lemma {:induction false} HybridStaysEnabled(c: Cache, events: seq<CacheEvent>)
    requires c.hybrid
    ensures Replay(c, events).hybrid
    decreases |events|
  {
    if events != [] {
      HybridStaysEnabled(Apply(c, events[0]), events[1..]);
    }
  }

  /**
   * A second mark of the other kind leaves the cache as the first mark left it,
   * whatever the cache held; for an unclassified path the first mark decides
   * its kind.
   */
  lemma FirstMarkWins(c: Cache, p: Path)
    ensures MarkDirectory(MarkFile(c, p), p) == MarkFile(c, p)
    ensures MarkFile(MarkDirectory(c, p), p) == MarkDirectory(c, p)
    ensures KindOf(c, p) == Unclassified ==> KindOf(MarkDirectory(MarkFile(c, p), p), p) == File
    ensures KindOf(c, p) == Unclassified ==> KindOf(MarkFile(MarkDirectory(c, p), p), p) == Directory
  {
  }

  /** Marking a path twice the same way is the same as marking it once. */
  lemma MarkIsIdempotent(c: Cache, p: Path)
    ensures MarkFile(MarkFile(c, p), p) == MarkFile(c, p)
    ensures MarkDirectory(MarkDirectory(c, p), p) == MarkDirectory(c, p)
  {
  }

  /** The globals `for_sure_files`, `for_sure_directories` and `is_hybrid_mode`, updated in place. */
  class ProcessCache {
    var files: set<Path>
    var dirs: set<Path>
    var hybrid: bool

    function State(): Cache
      reads this
    {
      Cache(files, dirs, hybrid)
    }

    ghost predicate Valid()
      reads this
    {
      Disjoint(State())
    }

    constructor ()
      ensures Valid() && State() == Initial
    {
      files, dirs, hybrid := {}, {}, false;
    }

    method MarkAsDirectory(p: Path)
      requires Valid()
      modifies this
      ensures Valid()
      ensures State() == MarkDirectory(old(State()), p)
    {
      if p !in files {
        dirs := dirs + {p};
      }
    }

    method MarkAsFile(p: Path)
      requires Valid()
      modifies this
      ensures Valid()
      ensures State() == MarkFile(old(State()), p)
    {
      if p !in dirs {
        files := files + {p};
      }
    }

    method EnableHybridMode()
      requires Valid()
      modifies this
      ensures Valid()
      ensures State() == EnableHybrid(old(State()))
    {
      hybrid := true;
    }

    /**
     * remove: delete the node through the session; only when the delete
     * succeeds is the path forgotten by both sets.
     */
    method Remove(s: Store, p: Path) returns (r: Outcome<()>, after: Store)
      requires Valid()
      modifies this
      ensures Valid()
      ensures r == Done(()) <==> s.link.Connected? && p in s.nodes && s.nodes[p].children == []
      ensures r != Done(()) ==> r == StoreError(ZooDelete(s, p).0) && r.rc != ZOk
      ensures after == ZooDelete(s, p).1
      ensures r.Done? ==> p !in after.nodes
      ensures State() == if r.Done? then Evict(old(State()), p) else old(State())
    {
      var res := ZooDelete(s, p);
      after := res.1;
      if res.0 != ZOk {
        return StoreError(res.0), after;
      }
      files := files - {p};
      dirs := dirs - {p};
      r := Done(());
    }
  }
}
