/**
 * Reading a znode's payload.
 *
 * getContent first reads into a buffer of MAX_FILE_SIZE bytes. If the length the
 * store reports is larger, it reads again into a buffer of exactly that length,
 * and if the second read reports another length (someone rewrote the node in
 * between) it starts over. Each zoo_get call here sees the next element of
 * `views`: the store as it stands when that call reaches it. The retry has no
 * bound in the source; here it ends when the views run out, with Incomplete.
 */
module ContentRead {
  import opened ZooStore

  /** The size of the first, bounded read. */
  const MAX_FILE_SIZE: nat := 262144

  /** The node at p exists in s and b is its whole payload. */
  predicate HoldsPayload(s: Store, p: Path, b: seq<byte>)
  {
    s.link.Connected? && p in s.nodes && s.nodes[p].content == b
  }

  /** What getContent returns when the store does not change while it reads. */
  function SteadyRead(s: Store, p: Path): (r: Outcome<seq<byte>>)
    ensures r.Done? <==> s.link.Connected? && p in s.nodes
    ensures r.Done? ==> HoldsPayload(s, p, r.value)
    ensures !r.Done? ==> r == StoreError(CallRc(s, p)) && r.rc != ZOk
  {
    if CallRc(s, p) == ZOk then Done(s.nodes[p].content) else StoreError(CallRc(s, p))
  }

  /** getContent, as a function of the store states its successive zoo_get calls see. */
  function ReadContent(p: Path, views: seq<Store>): (r: Outcome<seq<byte>>)
    ensures r.StoreError? ==> r.rc != ZOk
    ensures r.Done? ==> |views| > 0 && CallRc(views[0], p) == ZOk
    decreases |views|
  {
    if views == [] then Incomplete
    else
      var first := ZooGet(views[0], p, MAX_FILE_SIZE);
      if first.rc != ZOk then StoreError(first.rc)
      else if first.reported <= MAX_FILE_SIZE then
        if first.reported > 0 then Done(first.data[..first.reported]) else Done([])
      else if |views| == 1 then Incomplete
      else
        var previousLength := first.reported;
        var second := ZooGet(views[1], p, previousLength);
        if second.rc != ZOk then StoreError(second.rc)
        else if second.reported != previousLength then ReadContent(p, views[2..])
        else Done(second.data[..second.reported])
  }

  /** getContent: the bounded read, the full read when it did not fit, and the retry as a loop. */
  method GetContent(p: Path, views: seq<Store>) returns (r: Outcome<seq<byte>>)
    ensures r == ReadContent(p, views)
  {
    var next := 0;  // the view the next zoo_get call sees
    while true
      invariant 0 <= next <= |views|
      invariant ReadContent(p, views[next..]) == ReadContent(p, views)
      decreases |views| - next
    {
      if next == |views| {
        return Incomplete;
      }
      var first := ZooGet(views[next], p, MAX_FILE_SIZE);
      if first.rc != ZOk {
        return StoreError(first.rc);
      }
      if first.reported <= MAX_FILE_SIZE {
        if first.reported > 0 {
          return Done(first.data[..first.reported]);
        }
        return Done([]);
      }
      if next + 1 == |views| {
        return Incomplete;
      }
      var previousLength := first.reported;
      var second := ZooGet(views[next + 1], p, previousLength);
      if second.rc != ZOk {
        return StoreError(second.rc);
      }
      if second.reported == previousLength {
        return Done(second.data[..second.reported]);
      }
      // The payload was modified in transit: start over.
      assert views[next..][2..] == views[next + 2..];
      next := next + 2;
    }
  }

  /** getLength: the length of what getContent returns, with its errors. */
  function GetLength(p: Path, views: seq<Store>): (r: Outcome<nat>)
    ensures r.Done? <==> ReadContent(p, views).Done?
    ensures r.Done? ==> r.value == |ReadContent(p, views).value|
    ensures r.StoreError? <==> ReadContent(p, views).StoreError?
    ensures r.StoreError? ==> r.rc == ReadContent(p, views).rc
  {
    match ReadContent(p, views)
    case Done(b) => Done(|b|)
    case StoreError(rc) => StoreError(rc)
    case Incomplete => Incomplete
  }

  /** A first read that fits the buffer is the answer: the payload, whole. */
  lemma FirstReadFits(p: Path, views: seq<Store>)
    requires views != []
    requires CallRc(views[0], p) == ZOk && |views[0].nodes[p].content| <= MAX_FILE_SIZE
    ensures ReadContent(p, views) == Done(views[0].nodes[p].content)
  {
    var payload := views[0].nodes[p].content;
    assert payload[..|payload|] == payload;
  }

  /** An oversized first read is followed by a full read, which is the answer if its length agrees. */
  lemma SecondReadAgrees(p: Path, views: seq<Store>)
    requires |views| >= 2
    requires CallRc(views[0], p) == ZOk && |views[0].nodes[p].content| > MAX_FILE_SIZE
    requires CallRc(views[1], p) == ZOk && |views[1].nodes[p].content| == |views[0].nodes[p].content|
    ensures ReadContent(p, views) == Done(views[1].nodes[p].content)
  {
    var payload := views[1].nodes[p].content;
    assert payload[..|payload|] == payload;
  }

  /** An oversized first read followed by a full read of another length starts the protocol over. */
  lemma LengthChangeRestarts(p: Path, views: seq<Store>)
    requires |views| >= 2
    requires CallRc(views[0], p) == ZOk && |views[0].nodes[p].content| > MAX_FILE_SIZE
    requires CallRc(views[1], p) == ZOk && |views[1].nodes[p].content| != |views[0].nodes[p].content|
    ensures ReadContent(p, views) == ReadContent(p, views[2..])
  {
  }

  /** A failed zoo_get at either read ends getContent with that call's code; there is no retry. */
  lemma ReadErrorsAreFinal(p: Path, views: seq<Store>)
    requires views != []
    ensures CallRc(views[0], p) != ZOk ==> ReadContent(p, views) == StoreError(CallRc(views[0], p))
    ensures |views| >= 2 && CallRc(views[0], p) == ZOk && |views[0].nodes[p].content| > MAX_FILE_SIZE
            && CallRc(views[1], p) != ZOk
            ==> ReadContent(p, views) == StoreError(CallRc(views[1], p))
  {
  }

  /**
   * No torn reads: whatever getContent returns was, at the moment of one of its
   * zoo_get calls, the node's whole payload.
   */
  lemma {:induction false} ReadIsSnapshot(p: Path, views: seq<Store>)
    ensures ReadContent(p, views).Done? ==>
              exists k | 0 <= k < |views| :: HoldsPayload(views[k], p, ReadContent(p, views).value)
    decreases |views|
  {
    if views != [] && ReadContent(p, views).Done? {
      var b := ReadContent(p, views).value;
      var first := ZooGet(views[0], p, MAX_FILE_SIZE);
      if first.reported <= MAX_FILE_SIZE {
        assert HoldsPayload(views[0], p, b);
      } else {
        var second := ZooGet(views[1], p, first.reported);
        if second.reported != first.reported {
          ReadIsSnapshot(p, views[2..]);
          var k :| 0 <= k < |views[2..]| && HoldsPayload(views[2..][k], p, b);
          assert HoldsPayload(views[k + 2], p, b);
        } else {
          assert HoldsPayload(views[1], p, b);
        }
      }
    }
  }

  /** An error from getContent is the code one of its zoo_get calls returned. */
  lemma {:induction false} ReadErrorIsObserved(p: Path, views: seq<Store>)
    ensures ReadContent(p, views).StoreError? ==>
              ReadContent(p, views).rc != ZOk &&
              exists k | 0 <= k < |views| :: CallRc(views[k], p) == ReadContent(p, views).rc
    decreases |views|
  {
    if views != [] && ReadContent(p, views).StoreError? {
      var rc := ReadContent(p, views).rc;
      var first := ZooGet(views[0], p, MAX_FILE_SIZE);
      if first.rc != ZOk {
        assert CallRc(views[0], p) == rc;
      } else {
        var second := ZooGet(views[1], p, first.reported);
        if second.rc != ZOk {
          assert CallRc(views[1], p) == rc;
        } else {
          ReadErrorIsObserved(p, views[2..]);
          var k :| 0 <= k < |views[2..]| && CallRc(views[2..][k], p) == rc;
          assert CallRc(views[k + 2], p) == rc;
        }
      }
    }
  }

  /** Against a store nobody writes to, two calls suffice and getContent returns the payload, large or small. */
  lemma SteadyStoreReadsPayload(p: Path, s: Store, views: seq<Store>)
    requires |views| >= 2
    requires forall k | 0 <= k < |views| :: views[k] == s
    ensures ReadContent(p, views) == SteadyRead(s, p)
  {
    assert views[0] == s && views[1] == s;
    if CallRc(s, p) == ZOk {
      var payload := s.nodes[p].content;
      assert payload[..|payload|] == payload;
    }
  }

  /**
   * Once the writers stop, getContent finishes: if every view holds the node and
   * the views from j on are all the same, with at least three of them after j,
   * the read returns a payload (by ReadIsSnapshot, a whole one).
   */
  lemma {:induction false} ReadSettles(p: Path, views: seq<Store>, j: nat)
    requires forall k | 0 <= k < |views| :: CallRc(views[k], p) == ZOk
    requires j + 3 <= |views|
    requires forall k | j <= k < |views| :: views[k] == views[j]
    ensures ReadContent(p, views).Done?
    decreases |views|
  {
    var first := ZooGet(views[0], p, MAX_FILE_SIZE);
    if first.reported > MAX_FILE_SIZE {
      var second := ZooGet(views[1], p, first.reported);
      if second.reported != first.reported {
        assert j >= 1;
        assert forall k | 0 <= k < |views[2..]| :: views[2..][k] == views[k + 2];
        if j == 1 {
          SteadyStoreReadsPayload(p, views[1], views[2..]);
        } else {
          ReadSettles(p, views[2..], j - 2);
        }
      }
    }
  }

  /**
   * A writer who keeps resizing a large payload and then stops: every change of
   * length before view j sends getContent round again, and the payload it
   * finally returns is the one the writer left, the payload of view j.
   */
  lemma {:induction false} GrowingThenStable(p: Path, views: seq<Store>, j: nat)
    requires forall k | 0 <= k < |views| ::
               views[k].link.Connected? && p in views[k].nodes && |views[k].nodes[p].content| > MAX_FILE_SIZE
    requires j + 3 <= |views|
    requires forall k | 0 <= k < j :: |views[k].nodes[p].content| != |views[k + 1].nodes[p].content|
    requires forall k | j <= k < |views| :: views[k] == views[j]
    ensures ReadContent(p, views) == Done(views[j].nodes[p].content)
    decreases |views|
  {
    if j == 0 {
      SecondReadAgrees(p, views);
    } else {
      LengthChangeRestarts(p, views);
      assert forall k | 0 <= k < |views[2..]| :: views[2..][k] == views[k + 2];
      if j == 1 {
        SteadyStoreReadsPayload(p, views[1], views[2..]);
      } else {
        GrowingThenStable(p, views[2..], j - 2);
      }
    }
  }

  /** The `contentLength` bytes src/ZooFile.cpp:51 copies lie inside the MAX_FILE_SIZE stack buffer. */
  predicate WatchCopyFits(reply: GetReply)
  {
    reply.reported <= MAX_FILE_SIZE
  }

  /**
   * getContentAndSetWatch as written: defined only where the copy stays inside
   * the buffer, since past it the source reads memory it does not own.
   */
  function GetContentAndSetWatchAsWritten(s: Store, p: Path): (r: Outcome<seq<byte>>)
    requires CallRc(s, p) == ZOk ==> WatchCopyFits(ZooGet(s, p, MAX_FILE_SIZE))
    ensures r.Done? <==> CallRc(s, p) == ZOk
    ensures !r.Done? ==> r == StoreError(CallRc(s, p)) && r.rc != ZOk
    ensures r.Done? ==> HoldsPayload(s, p, r.value) && |r.value| == |s.nodes[p].content|
  {
    var reply := ZooGet(s, p, MAX_FILE_SIZE);
    if reply.rc != ZOk then StoreError(reply.rc)
    else if reply.reported > 0 then Done(reply.data[..reply.reported])
    else Done([])
  }

  /** A payload one byte over MAX_FILE_SIZE: zoo_get succeeds and src/ZooFile.cpp:51 copies past the buffer. */
  lemma WatchReadOverruns()
    ensures var s := Store(map["/big" := ZNode(seq(MAX_FILE_SIZE + 1, _ => 0), [])], Connected);
            var reply := ZooGet(s, "/big", MAX_FILE_SIZE);
            reply.rc == ZOk && !WatchCopyFits(reply)
  {
  }

  /**
   * getContentAndSetWatch with the copy bounded by the buffer: the single
   * bounded read of getContent, with no second read. The watch it arms is not
   * modelled.
   */
  function GetContentAndSetWatch(s: Store, p: Path): (r: Outcome<seq<byte>>)
    ensures r.Done? <==> s.link.Connected? && p in s.nodes
    ensures !r.Done? ==> r == StoreError(CallRc(s, p)) && r.rc != ZOk
    ensures r.Done? ==> r.value <= s.nodes[p].content && |r.value| == Min(|s.nodes[p].content|, MAX_FILE_SIZE)
  {
    var reply := ZooGet(s, p, MAX_FILE_SIZE);
    if reply.rc != ZOk then StoreError(reply.rc)
    else if reply.reported > 0 then Done(reply.data[..Min(reply.reported, MAX_FILE_SIZE)])
    else Done([])
  }

  function Min(a: nat, b: nat): nat
  {
    if a <= b then a else b
  }

  /** Where the payload fits the buffer, the watching read and getContent agree. */
  lemma WatchReadMatchesGetContent(p: Path, s: Store, views: seq<Store>)
    requires |views| >= 2
    requires forall k | 0 <= k < |views| :: views[k] == s
    requires CallRc(s, p) == ZOk ==> |s.nodes[p].content| <= MAX_FILE_SIZE
    ensures GetContentAndSetWatch(s, p) == ReadContent(p, views)
  {
  }
}
