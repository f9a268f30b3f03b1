/**
 * What one call of the reassembler's `insert` does, as functions on a value
 * of the reassembler's state. The steps follow the source in order: record
 * the final index, trim what was already assembled, discard or trim what lies
 * beyond the window, resolve overlaps with the stored segments, store, flush.
 */
module ReassemblerSpec {
  import opened ByteStreams
  import opened SegmentSets

  /** The final index before any last substring has been seen (INT64_MAX). */
  const NoFinalIndex: nat := 0x7FFF_FFFF_FFFF_FFFF

  /**
   * The reassembler's fields: the stream it writes into, the stored
   * segments, the cached count of their bytes, the index of the next byte
   * the stream expects, and the index one past the last byte of the stream.
   */
  datatype State = State(output: Stream, segments: seq<Seg>, bytesWaiting: nat,
                         firstUnassembled: nat, finalIndex: nat)

  /** A new reassembler writing into `output`. */
  function Init(output: Stream): (a: State)
    ensures output.Valid() ==> Inv(a)
    ensures a.output == output && a.bytesWaiting == 0 && a.segments == []
    ensures a.firstUnassembled == 0 && a.finalIndex == NoFinalIndex
  {
    State(output, [], 0, 0, NoFinalIndex)
  }

  /** The first index that does not fit in the stream: the end of the window. */
  function Edge(a: State): (e: nat)
    requires a.output.Valid()
    ensures a.firstUnassembled <= e
    ensures (e - a.firstUnassembled) + |a.output.buffer| == a.output.capacity
  {
    a.firstUnassembled + a.output.AvailableCapacity()
  }

  /**
   * The shape of the store between the storing step and the flush: segments
   * ordered by start and pairwise disjoint, none before the next expected
   * byte, none past the window, and `bytesWaiting` their total length.
   */
  ghost predicate Stored(a: State) {
    && a.output.Valid()
    && Ascending(a.segments)
    && NonOverlapping(a.segments)
    && a.bytesWaiting == Total(a.segments)
    && Within(a.segments, a.firstUnassembled, Edge(a))
  }

  /** The reassembler's invariant between calls: as `Stored`, and no stored
      segment starts at the next expected byte (it would have been flushed). */
  ghost predicate Inv(a: State) {
    Stored(a) && forall i :: 0 <= i < |a.segments| ==> a.firstUnassembled < a.segments[i].start
  }

  /**
   * From `a` to `r`: `r` satisfies the invariant; the next expected byte,
   * the window's end and the stream's counts have not gone back; the
   * stream's capacity is the same; error and closed have stayed raised.
   */
  ghost predicate Progress(a: State, r: State)
    requires a.output.Valid()
  {
    && Inv(r)
    && r.firstUnassembled >= a.firstUnassembled
    && Edge(r) >= Edge(a)
    && r.output.pushed >= a.output.pushed
    && r.output.popped == a.output.popped
    && r.output.capacity == a.output.capacity
    && (a.output.error ==> r.output.error)
    && (a.output.closed ==> r.output.closed)
  }

  /**
   * One round of the flush loop: push the first stored segment, advance past
   * it, forget it, and close the stream when the final index has been reached.
   */
  function PushFirst(a: State): (r: State)
    requires a.output.Valid() && Total(a.segments) <= a.bytesWaiting && |a.segments| > 0
    ensures r.output.Valid() && Total(r.segments) <= r.bytesWaiting
    ensures r.segments == a.segments[1..] && r.finalIndex == a.finalIndex
    ensures r.firstUnassembled == a.firstUnassembled + |a.segments[0].data|
  {
    TotalFront(a.segments);
    var seg := a.segments[0];
    var written := a.output.Push(seg.data);
    var next := a.firstUnassembled + |seg.data|;
    var output := if next >= a.finalIndex then written.Close() else written;
    a.(output := output, segments := a.segments[1..],
       bytesWaiting := a.bytesWaiting - |seg.data|, firstUnassembled := next)
  }

  /** The flush loop: flush while the first stored segment starts exactly at
      the next expected byte. */
  function CheckPush(a: State): (r: State)
    requires a.output.Valid() && Total(a.segments) <= a.bytesWaiting
    ensures r.output.Valid() && Total(r.segments) <= r.bytesWaiting
    ensures r.finalIndex == a.finalIndex
    decreases |a.segments|
  {
    if |a.segments| > 0 && a.segments[0].start == a.firstUnassembled then
      CheckPush(PushFirst(a))
    else
      a
  }

  /** What the overlap scan leaves: the store, the new data, the byte count. */
  datatype Scan = Scan(segments: seq<Seg>, data: seq<byte>, bytesWaiting: nat)

  /**
   * The overlap scan may cut the new data where a stored segment begins; this
   * is what makes that cut stay inside the data: the new data is empty and
   * starts past the substring's original end, or ends at that end, or ends
   * before it and no stored segment from its start on reaches past it.
   */
  ghost predicate TrimOk(segs: seq<Seg>, first: nat, lastIndex: nat, data: seq<byte>) {
    || (lastIndex <= first && |data| == 0)
    || first + |data| == lastIndex
    || (first + |data| <= lastIndex &&
        forall i :: 0 <= i < |segs| && first <= segs[i].start ==> segs[i].End() <= lastIndex)
  }

  /** Forgetting a stored segment keeps the new data's end where `TrimOk` allows it. */
  lemma EraseKeepsTrimOk(segs: seq<Seg>, k: nat, first: nat, lastIndex: nat, data: seq<byte>)
    requires k < |segs| && TrimOk(segs, first, lastIndex, data)
    ensures TrimOk(Erase(segs, k), first, lastIndex, data)
  {
    var rest := Erase(segs, k);
    if !(lastIndex <= first && |data| == 0) && first + |data| != lastIndex {
      forall i | 0 <= i < |rest| && first <= rest[i].start
        ensures rest[i].End() <= lastIndex
      {
        if i < k {
          assert rest[i] == segs[i];
        } else {
          assert rest[i] == segs[i + 1];
        }
      }
    }
  }

  /**
   * Trims the front of the substring that the nearest stored segment starting
   * before it already covers; the substring then starts where that segment ends.
   */
  function TrimPredecessor(segs: seq<Seg>, sub: Seg): (r: Seg)
    requires Ascending(segs)
    ensures sub.start <= r.start
    ensures r.start <= sub.End() ==> r.End() == sub.End()
    ensures sub.End() < r.start ==> r.data == []
  {
    var k := LowerBound(segs, sub.start);
    if k > 0 && segs[k - 1].End() > sub.start then
      var n := segs[k - 1].End() - sub.start;
      Seg(segs[k - 1].End(), sub.data[Min(n, |sub.data|)..])
    else
      sub
  }

  /**
   * The scan over the stored segments that start at or after `first` and
   * before the substring's original end `lastIndex`: segments the new data
   * covers entirely are dropped and their bytes uncounted; at the first one
   * that reaches past `lastIndex`, the new data is cut where it begins.
   * The kept segments stay ordered and the count still covers them;
   * `DropCoveredMeets` states the rest of what the scan leaves.
   */
  function DropCovered(segs: seq<Seg>, first: nat, lastIndex: nat, data: seq<byte>,
                       waiting: nat): (r: Scan)
    requires Ascending(segs) && Total(segs) <= waiting
    requires TrimOk(segs, first, lastIndex, data)
    ensures Ascending(r.segments) && Total(r.segments) <= r.bytesWaiting
    decreases |segs|
  {
    var k := LowerBound(segs, first);
    if k < |segs| && segs[k].start < lastIndex then
      if segs[k].End() <= lastIndex then
        EraseKeepsTrimOk(segs, k, first, lastIndex, data);
        DropCovered(Erase(segs, k), first, lastIndex, data, waiting - |segs[k].data|)
      else
        Scan(segs, data[..segs[k].start - first], waiting)
    else
      Scan(segs, data, waiting)
  }

  /**
   * What the scan leaves: the new data is a prefix of `data` that ends at or
   * before every remaining segment from `first` on; if it was cut, a kept
   * segment starts at the cut and reaches past `lastIndex`; the kept segments
   * were all stored before and, if the stored ones were, stay disjoint.
   */
  ghost predicate ScanMeets(segs: seq<Seg>, first: nat, lastIndex: nat, data: seq<byte>, r: Scan) {
    && |r.data| <= |data| && r.data == data[..|r.data|]
    && EndsBefore(r.segments, first, r.data)
    && (|r.data| < |data| ==>
          exists i :: 0 <= i < |r.segments| && r.segments[i].start == first + |r.data| &&
                      r.segments[i].End() > lastIndex)
    && (forall x :: x in r.segments ==> x in segs)
    && (NonOverlapping(segs) ==> NonOverlapping(r.segments))
  }

  /** The scan leaves what `ScanMeets` describes, and the count drops by
      exactly the bytes of the dropped segments. */
  lemma {:induction false} DropCoveredMeets(segs: seq<Seg>, first: nat, lastIndex: nat,
                                            data: seq<byte>, waiting: nat)
    requires Ascending(segs) && Total(segs) <= waiting
    requires TrimOk(segs, first, lastIndex, data)
    ensures ScanMeets(segs, first, lastIndex, data,
                      DropCovered(segs, first, lastIndex, data, waiting))
    ensures DropCovered(segs, first, lastIndex, data, waiting).bytesWaiting -
            Total(DropCovered(segs, first, lastIndex, data, waiting).segments) ==
              waiting - Total(segs)
    decreases |segs|
  {
    var k := LowerBound(segs, first);
    if k < |segs| && segs[k].start < lastIndex {
      if segs[k].End() <= lastIndex {
        var rest := Erase(segs, k);
        var left := waiting - |segs[k].data|;
        DropCoveredErases(segs, first, lastIndex, data, waiting, k, rest, left);
        DropCoveredMeets(rest, first, lastIndex, data, left);
        EraseForgets(segs, k);
        MeetsFromRest(segs, rest, first, lastIndex, data,
                      DropCovered(rest, first, lastIndex, data, left));
      } else {
        DropCoveredCuts(segs, first, lastIndex, data, waiting, k);
        StopsBefore(segs, first, segs[k].start);
      }
    } else {
      DropCoveredStops(segs, first, lastIndex, data, waiting);
      StopsBefore(segs, first, first + |data|);
    }
  }

  /** What the scan leaves of fewer segments it also leaves of the segments they came from. */
  lemma MeetsFromRest(segs: seq<Seg>, rest: seq<Seg>, first: nat, lastIndex: nat, data: seq<byte>,
                      r: Scan)
    requires ScanMeets(rest, first, lastIndex, data, r)
    requires forall x :: x in rest ==> x in segs
    requires NonOverlapping(segs) ==> NonOverlapping(rest)
    ensures ScanMeets(segs, first, lastIndex, data, r)
  {
  }

  /** One round of the scan, for the loop that computes it: a covered segment is dropped
      and uncounted, and the scan goes on over the rest. */
  lemma DropCoveredErases(segs: seq<Seg>, first: nat, lastIndex: nat, data: seq<byte>, waiting: nat,
                          k: nat, rest: seq<Seg>, left: nat)
    requires Ascending(segs) && Total(segs) <= waiting
    requires TrimOk(segs, first, lastIndex, data)
    requires k == LowerBound(segs, first) && k < |segs|
    requires segs[k].start < lastIndex && segs[k].End() <= lastIndex
    requires rest == Erase(segs, k) && left == waiting - |segs[k].data|
    ensures Ascending(rest) && Total(rest) <= left
    ensures TrimOk(rest, first, lastIndex, data)
    ensures DropCovered(segs, first, lastIndex, data, waiting) ==
            DropCovered(rest, first, lastIndex, data, left)
  {
    EraseKeepsTrimOk(segs, k, first, lastIndex, data);
  }

  /**
   * The last round of the scan when a longer segment starts inside the
   * data: the data is cut there.
   */
  lemma DropCoveredCuts(segs: seq<Seg>, first: nat, lastIndex: nat, data: seq<byte>, waiting: nat,
                        k: nat)
    requires Ascending(segs) && Total(segs) <= waiting
    requires TrimOk(segs, first, lastIndex, data)
    requires k == LowerBound(segs, first) && k < |segs|
    requires segs[k].start < lastIndex < segs[k].End()
    ensures first <= segs[k].start <= first + |data|
    ensures DropCovered(segs, first, lastIndex, data, waiting) ==
            Scan(segs, data[..segs[k].start - first], waiting)
  {
  }

  /** The scan stops when no segment from `first` on starts before the original end. */
  lemma DropCoveredStops(segs: seq<Seg>, first: nat, lastIndex: nat, data: seq<byte>, waiting: nat)
    requires Ascending(segs) && Total(segs) <= waiting
    requires TrimOk(segs, first, lastIndex, data)
    requires var k := LowerBound(segs, first); !(k < |segs| && segs[k].start < lastIndex)
    ensures DropCovered(segs, first, lastIndex, data, waiting) == Scan(segs, data, waiting)
  {
  }

  /** Data ending at or before the first segment from `first` on ends before all of them. */
  lemma StopsBefore(segs: seq<Seg>, first: nat, end: nat)
    requires Ascending(segs)
    requires var k := LowerBound(segs, first); k < |segs| ==> end <= segs[k].start
    ensures forall i :: 0 <= i < |segs| && first <= segs[i].start ==> end <= segs[i].start
  {
    var k := LowerBound(segs, first);
    forall i | 0 <= i < |segs| && first <= segs[i].start
      ensures end <= segs[i].start
    {
      LowerBoundSplits(segs, first, i);
      assert k < i ==> StartsBefore(segs[k], segs[i]);
    }
  }

  /** The substring as `insert` has it after the trims against the assembled
      bytes and the window, when the window check lets it through. */
  ghost predicate Clipped(a: State, lastIndex: nat, sub: Seg)
    requires a.output.Valid()
  {
    && a.firstUnassembled <= sub.start < Edge(a)
    && sub.End() == (if lastIndex > Edge(a) then Edge(a) else lastIndex)
  }

  /** After the predecessor trim, every stored segment that starts before
      the substring ends at or before its start, and the substring still
      ends inside the bounds. */
  lemma TrimPredecessorClears(segs: seq<Seg>, sub: Seg, lo: nat, hi: nat)
    requires Ascending(segs) && NonOverlapping(segs) && Within(segs, lo, hi) && sub.End() <= hi
    ensures ClearBefore(segs, TrimPredecessor(segs, sub).start)
    ensures TrimPredecessor(segs, sub).End() <= hi
  {
    var r := TrimPredecessor(segs, sub);
    var k := LowerBound(segs, sub.start);
    forall i | 0 <= i < |segs| && segs[i].start < r.start
      ensures segs[i].End() <= r.start
    {
      LowerBoundSplits(segs, sub.start, i);
      assert i < k - 1 ==> EndsBy(segs[i], segs[k - 1]);
      assert 0 < k <= i ==> EndsBy(segs[k - 1], segs[i]);
    }
  }

  /**
   * What the storing step needs: the store is ordered, the count covers it,
   * and the substring after the predecessor trim ends where the overlap
   * scan's cut stays inside it.
   */
  ghost predicate Storable(a: State, lastIndex: nat, inWindow: Seg) {
    && Ascending(a.segments)
    && Total(a.segments) <= a.bytesWaiting
    && TrimOk(a.segments, TrimPredecessor(a.segments, inWindow).start, lastIndex,
              TrimPredecessor(a.segments, inWindow).data)
  }

  /** A substring trimmed to the window can be stored. */
  lemma TrimmedFits(a: State, lastIndex: nat, inWindow: Seg)
    requires Inv(a) && Clipped(a, lastIndex, inWindow)
    ensures Storable(a, lastIndex, inWindow)
  {
    TrimPredecessorClears(a.segments, inWindow, a.firstUnassembled, Edge(a));
  }

  /**
   * Overlap resolution and storing, for a substring already trimmed to the
   * window: trim what the stored predecessor covers, drop the stored segments
   * it covers, cut it where a longer stored segment begins, then store it and
   * count its bytes. (On an empty store the trim and the scan change nothing.)
   */
  function StoreSubstring(a: State, lastIndex: nat, inWindow: Seg): (r: State)
    requires Storable(a, lastIndex, inWindow)
    ensures r.output == a.output && r.firstUnassembled == a.firstUnassembled
    ensures r.finalIndex == a.finalIndex && Total(r.segments) <= r.bytesWaiting
  {
    var sub := TrimPredecessor(a.segments, inWindow);
    var scan := DropCovered(a.segments, sub.start, lastIndex, sub.data, a.bytesWaiting);
    a.(segments := InsertSeg(scan.segments, Seg(sub.start, scan.data)),
       bytesWaiting := scan.bytesWaiting + |scan.data|)
  }

  /**
   * Left trim: the part of the substring at or after the next expected byte.
   * Used only when the substring reaches past that byte.
   */
  function ClipAssembled(a: State, firstIndex: nat, data: seq<byte>): (r: Seg)
    requires a.firstUnassembled <= firstIndex || a.firstUnassembled < firstIndex + |data|
    ensures r.start == if firstIndex < a.firstUnassembled then a.firstUnassembled else firstIndex
    ensures r.End() == firstIndex + |data|
    ensures firstIndex < a.firstUnassembled ==> r.data == data[a.firstUnassembled - firstIndex..]
    ensures a.firstUnassembled <= firstIndex ==> r.data == data
  {
    if firstIndex < a.firstUnassembled then
      Seg(a.firstUnassembled, data[a.firstUnassembled - firstIndex..])
    else
      Seg(firstIndex, data)
  }

  /**
   * Right trim: the part of the substring before the end of the window, as
   * measured when `insert` was entered. Used only when the substring starts
   * inside the window.
   */
  function ClipWindow(a: State, lastIndex: nat, clipped: Seg): (r: Seg)
    requires a.output.Valid()
    requires a.firstUnassembled <= clipped.start < Edge(a) && clipped.End() == lastIndex
    ensures Clipped(a, lastIndex, r)
    ensures r.start == clipped.start && |r.data| <= |clipped.data|
    ensures r.data == clipped.data[..|r.data|]
  {
    if lastIndex > Edge(a) then
      Seg(clipped.start, clipped.data[..Edge(a) - clipped.start])
    else
      clipped
  }

  /** A last substring sets the final index to its own end, before any trimming. */
  function MarkLast(a: State, lastIndex: nat, isLastSubstring: bool): (r: State)
    ensures r.finalIndex == if isLastSubstring then lastIndex else a.finalIndex
    ensures r.output == a.output && r.segments == a.segments
    ensures r.bytesWaiting == a.bytesWaiting && r.firstUnassembled == a.firstUnassembled
    ensures Inv(a) ==> Inv(r)
  {
    if isLastSubstring then a.(finalIndex := lastIndex) else a
  }
}
