/**
 * Properties of the reassembler's `insert`, proved about the functions of
 * ReassemblerSpec: the invariant it keeps, the window it respects, when it
 * closes the stream, and that it writes the stream's bytes in order.
 */
module ReassemblerProofs {
  import opened ByteStreams
  import opened SegmentSets
  import opened ReassemblerSpec

  // ---------------------------------------------------------------------
  // The flush loop

  /** One round of the flush loop keeps the stored shape and does not shrink the window. */
  lemma PushFirstKeepsStored(a: State)
    requires Stored(a) && |a.segments| > 0 && a.segments[0].start == a.firstUnassembled
    ensures Stored(PushFirst(a))
    ensures Edge(PushFirst(a)) >= Edge(a)
    ensures PushFirst(a).output.pushed >= a.output.pushed
    ensures PushFirst(a).output.popped == a.output.popped
    ensures PushFirst(a).output.capacity == a.output.capacity
    ensures a.output.error ==> PushFirst(a).output.error
    ensures a.output.closed ==> PushFirst(a).output.closed
  {
    var b := PushFirst(a);
    assert a.segments[0].End() <= Edge(a);
    assert Edge(b) >= Edge(a);
    DropFirstKeepsOrder(a.segments);
    TotalFront(a.segments);
    forall i | 0 <= i < |b.segments|
      ensures b.firstUnassembled <= b.segments[i].start && b.segments[i].End() <= Edge(b)
    {
      assert b.segments[i] == a.segments[i + 1];
      assert EndsBy(a.segments[0], a.segments[i + 1]);
    }
  }

  /**
   * Flushing turns the stored shape into the invariant: afterwards no stored
   * segment starts at the next expected byte. The next expected byte, the
   * counts of pushed and popped bytes and the window's end never go back.
   */
  lemma {:induction false} CheckPushKeepsInv(a: State)
    requires Stored(a)
    ensures Progress(a, CheckPush(a))
    decreases |a.segments|
  {
    if |a.segments| > 0 && a.segments[0].start == a.firstUnassembled {
      PushFirstKeepsStored(a);
      CheckPushKeepsInv(PushFirst(a));
    } else {
      forall i | 0 <= i < |a.segments|
        ensures a.firstUnassembled < a.segments[i].start
      {
        assert i > 0 ==> StartsBefore(a.segments[0], a.segments[i]);
      }
    }
  }

  /**
   * The flush closes the stream exactly when it was closed already, or at
   * least one segment was pushed and the next expected byte has reached the
   * final index.
   */
  lemma {:induction false} CheckPushCloses(a: State)
    requires a.output.Valid() && Total(a.segments) <= a.bytesWaiting
    ensures var r := CheckPush(a);
            r.output.closed <==>
              a.output.closed ||
              (|a.segments| > 0 && a.segments[0].start == a.firstUnassembled &&
               r.firstUnassembled >= a.finalIndex)
    decreases |a.segments|
  {
    if |a.segments| > 0 && a.segments[0].start == a.firstUnassembled {
      CheckPushCloses(PushFirst(a));
      CheckPushAdvances(PushFirst(a));
    }
  }

  /**
   * The flush closes the stream only at the end: closed afterwards means
   * closed before or the next expected byte has reached the final index;
   * and a flush that writes up to or past the final index closes it.
   */
  lemma CheckPushClosesOnlyAtEnd(a: State)
    requires a.output.Valid() && Total(a.segments) <= a.bytesWaiting
    ensures var r := CheckPush(a);
            r.output.closed ==> a.output.closed || r.firstUnassembled >= r.finalIndex
    ensures var r := CheckPush(a);
            r.firstUnassembled > a.firstUnassembled && r.firstUnassembled >= r.finalIndex ==>
              r.output.closed
  {
    CheckPushCloses(a);
  }

  /**
   * Until a last substring has been seen the final index is the sentinel,
   * so a flush that leaves the next expected byte below it never closes
   * the stream.
   */
  lemma FlushBeforeLastLeavesOpen(a: State)
    requires a.output.Valid() && Total(a.segments) <= a.bytesWaiting
    requires !a.output.closed && a.finalIndex == NoFinalIndex
    requires CheckPush(a).firstUnassembled < NoFinalIndex
    ensures !CheckPush(a).output.closed
  {
    CheckPushClosesOnlyAtEnd(a);
  }

  /** Flushing never moves the next expected byte backwards. */
  lemma {:induction false} CheckPushAdvances(a: State)
    requires a.output.Valid() && Total(a.segments) <= a.bytesWaiting
    ensures CheckPush(a).firstUnassembled >= a.firstUnassembled
    decreases |a.segments|
  {
    if |a.segments| > 0 && a.segments[0].start == a.firstUnassembled {
      CheckPushAdvances(PushFirst(a));
    }
  }

  // ---------------------------------------------------------------------
  // Overlap resolution and storing

  /**
   * The overlap scan keeps the segments inside the bounds they were in and
   * keeps clear what was clear before the data.
   */
  lemma DropCoveredKeepsBounds(segs: seq<Seg>, first: nat, lastIndex: nat,
                               data: seq<byte>, waiting: nat, lo: nat, hi: nat)
    requires Ascending(segs) && Total(segs) <= waiting
    requires TrimOk(segs, first, lastIndex, data) && Within(segs, lo, hi)
    ensures var r := DropCovered(segs, first, lastIndex, data, waiting);
            Within(r.segments, lo, hi) &&
            (ClearBefore(segs, first) ==> ClearBefore(r.segments, first))
  {
    var r := DropCovered(segs, first, lastIndex, data, waiting);
    DropCoveredMeets(segs, first, lastIndex, data, waiting);
    forall i | 0 <= i < |r.segments|
      ensures lo <= r.segments[i].start && r.segments[i].End() <= hi
      ensures ClearBefore(segs, first) && r.segments[i].start < first ==>
                r.segments[i].End() <= first
    {
      assert r.segments[i] in segs;
    }
  }

  /** Storing a substring that overlaps no stored segment keeps the stored shape. */
  lemma StoreKeepsStored(a: State, segs: seq<Seg>, waiting: nat, x: Seg)
    requires a.output.Valid()
    requires Ascending(segs) && NonOverlapping(segs) && waiting == Total(segs)
    requires Within(segs, a.firstUnassembled, Edge(a))
    requires a.firstUnassembled <= x.start && x.End() <= Edge(a)
    requires ClearBefore(segs, x.start) && EndsBefore(segs, x.start, x.data)
    ensures Stored(a.(segments := InsertSeg(segs, x), bytesWaiting := waiting + |x.data|))
  {
    var k := LowerBound(segs, x.start);
    if k < |segs| && segs[k].start == x.start {
      assert |x.data| == 0;
      assert InsertSeg(segs, x) == segs;
    } else {
      forall i | 0 <= i < |segs|
        ensures segs[i].start != x.start
      {
        LowerBoundSplits(segs, x.start, i);
        if k < i {
          assert StartsBefore(segs[k], segs[i]);
        }
      }
      assert 0 < k ==> segs[k - 1].End() <= x.start;
      assert k < |segs| ==> x.End() <= segs[k].start;
      SpliceKeepsDisjoint(segs, k, x);
      SpliceKeepsWithin(segs, k, x, a.firstUnassembled, Edge(a));
    }
  }

  // ---------------------------------------------------------------------
  // One call of insert

  /** Storing keeps the stored shape. */
  lemma StoreSubstringKeepsStored(a: State, lastIndex: nat, inWindow: Seg)
    requires Inv(a) && Clipped(a, lastIndex, inWindow) && Storable(a, lastIndex, inWindow)
    ensures Stored(StoreSubstring(a, lastIndex, inWindow))
  {
    var sub := TrimPredecessor(a.segments, inWindow);
    TrimPredecessorClears(a.segments, inWindow, a.firstUnassembled, Edge(a));
    var scan := DropCovered(a.segments, sub.start, lastIndex, sub.data, a.bytesWaiting);
    DropCoveredKeepsBounds(a.segments, sub.start, lastIndex, sub.data, a.bytesWaiting,
                           a.firstUnassembled, Edge(a));
    DropCoveredMeets(a.segments, sub.start, lastIndex, sub.data, a.bytesWaiting);
    StoreKeepsStored(a, scan.segments, scan.bytesWaiting, Seg(sub.start, scan.data));
  }

  /**
   * A substring that begins at the next expected byte becomes the first
   * stored segment, even when it carries no bytes: every stored segment
   * starts after that byte, so no predecessor trims it, the scan keeps only
   * later segments, and the set insert puts it in front.
   */
  lemma StoreAtNextComesFirst(a: State, lastIndex: nat, inWindow: Seg)
    requires Inv(a) && Storable(a, lastIndex, inWindow)
    requires inWindow.start == a.firstUnassembled
    ensures var r := StoreSubstring(a, lastIndex, inWindow);
            |r.segments| > 0 && r.segments[0].start == a.firstUnassembled
  {
    var segs := a.segments;
    assert LowerBound(segs, inWindow.start) == 0;
    var sub := TrimPredecessor(segs, inWindow);
    assert sub == inWindow;
    DropCoveredMeets(segs, sub.start, lastIndex, sub.data, a.bytesWaiting);
    var scan := DropCovered(segs, sub.start, lastIndex, sub.data, a.bytesWaiting);
    forall i | 0 <= i < |scan.segments|
      ensures a.firstUnassembled < scan.segments[i].start
    {
      assert scan.segments[i] in segs;
    }
    var x := Seg(sub.start, scan.data);
    assert LowerBound(scan.segments, x.start) == 0;
    assert InsertSeg(scan.segments, x)[0] == x;
  }

  /**
   * Reading from the stream keeps the invariant: popping frees room, so the
   * window's end moves forward and every stored segment still fits.
   */
  lemma PopKeepsInv(a: State, len: nat)
    requires Inv(a)
    ensures Inv(a.(output := a.output.Pop(len)))
    ensures Edge(a.(output := a.output.Pop(len))) >= Edge(a)
  {
    var b := a.(output := a.output.Pop(len));
    assert Edge(b) >= Edge(a);
  }

  /**
   * A substring that begins after the next expected byte leaves a gap: every
   * stored segment still starts after that byte, so the flush pushes nothing
   * and the stream and the next expected byte stay as they were.
   */
  lemma StoreAfterNextFlushesNothing(a: State, lastIndex: nat, inWindow: Seg)
    requires Inv(a) && Storable(a, lastIndex, inWindow)
    requires a.firstUnassembled < inWindow.start
    ensures var stored := StoreSubstring(a, lastIndex, inWindow);
            CheckPush(stored) == stored
  {
    var segs := a.segments;
    var sub := TrimPredecessor(segs, inWindow);
    DropCoveredMeets(segs, sub.start, lastIndex, sub.data, a.bytesWaiting);
    var scan := DropCovered(segs, sub.start, lastIndex, sub.data, a.bytesWaiting);
    var x := Seg(sub.start, scan.data);
    InsertSegMembers(scan.segments, x);
    var r := InsertSeg(scan.segments, x);
    if |r| > 0 {
      assert r[0] in r;
      assert r[0] == x || r[0] in segs;
    }
  }

  /** Flushing a store built on `a`'s stream and next expected byte makes progress from `a`. */
  lemma FlushFromStored(a: State, stored: State)
    requires Stored(stored) && a.output.Valid()
    requires stored.output == a.output && stored.firstUnassembled == a.firstUnassembled
    ensures Progress(a, CheckPush(stored))
  {
    CheckPushKeepsInv(stored);
  }
}
