/**
 * One call of the reassembler's `insert`, built from the steps in
 * ReassemblerSpec, and what it promises across calls.
 */
module ReassemblerInsert {
  import opened ByteStreams
  import opened SegmentSets
  import opened ReassemblerSpec
  import opened ReassemblerProofs
  import opened ReassemblerCoverage
  import opened ReassemblerDelivery

  /**
   * One call of `insert(firstIndex, data, isLastSubstring)`: record the
   * final index; a substring wholly before the next expected byte only
   * triggers a flush; one starting at or past the window's end is dropped
   * without a flush; anything else is clipped to the window, stored and
   * flushed. The result keeps the invariant and makes progress from `a`;
   * it records the final index of a last substring untrimmed; and it closes
   * the stream only once the next expected byte reaches the final index;
   * it closes it when it advances the next expected byte up to or past the
   * final index; and a substring that starts at or before the next expected
   * byte, reaches it, and finds room in the window closes the stream exactly
   * when the final index has been reached, even if it carries no bytes;
   * a substring that starts after the next expected byte leaves a gap, so
   * the stream and the next expected byte stay exactly as they were.
   */
  function Insert(a: State, firstIndex: nat, data: seq<byte>, isLastSubstring: bool): (r: State)
    requires Inv(a)
    ensures Progress(a, r)
    ensures r.finalIndex == if isLastSubstring then firstIndex + |data| else a.finalIndex
    ensures r.output.closed ==> a.output.closed || r.firstUnassembled >= r.finalIndex
    ensures r.firstUnassembled > a.firstUnassembled && r.firstUnassembled >= r.finalIndex ==>
              r.output.closed
    ensures firstIndex <= a.firstUnassembled < Edge(a) &&
            !(firstIndex < a.firstUnassembled && firstIndex + |data| <= a.firstUnassembled) ==>
              (r.output.closed <==> a.output.closed || r.firstUnassembled >= r.finalIndex)
    ensures a.firstUnassembled < firstIndex ==>
              r.output == a.output && r.firstUnassembled == a.firstUnassembled
    ensures forall s :: Consistent(a, s) && Agrees(Seg(firstIndex, data), s) ==> Consistent(r, s)
    ensures Learns(a, r, firstIndex, data)
  {
    var lastIndex := firstIndex + |data|;
    var firstUnacceptable := Edge(a);
    var marked := MarkLast(a, lastIndex, isLastSubstring);
    if firstIndex < a.firstUnassembled && lastIndex <= a.firstUnassembled then
      FlushFromStored(a, marked);
      CheckPushClosesOnlyAtEnd(marked);
      FlushKeepsConsistent(a, marked);
      FlushLearns(a, marked, firstIndex, data);
      CheckPush(marked)
    else if firstUnacceptable <= ClipAssembled(marked, firstIndex, data).start then
      FlushKeepsConsistent(a, marked);
      DropLearns(a, marked, firstIndex, data);
      marked
    else
      StorePath(a, firstIndex, data, isLastSubstring)
  }

  /**
   * The storing path of `insert`, for a substring that reaches past the
   * next expected byte and starts, once trimmed, inside the window: record
   * the final index, clip the substring to the window, store it and flush.
   * It promises what `Insert` promises.
   */
  function StorePath(a: State, firstIndex: nat, data: seq<byte>, isLastSubstring: bool): (r: State)
    requires Inv(a)
    requires !(firstIndex < a.firstUnassembled && firstIndex + |data| <= a.firstUnassembled)
    requires (if firstIndex < a.firstUnassembled then a.firstUnassembled else firstIndex) < Edge(a)
    ensures Progress(a, r)
    ensures r.finalIndex == if isLastSubstring then firstIndex + |data| else a.finalIndex
    ensures r.output.closed ==> a.output.closed || r.firstUnassembled >= r.finalIndex
    ensures r.firstUnassembled > a.firstUnassembled && r.firstUnassembled >= r.finalIndex ==>
              r.output.closed
    ensures firstIndex <= a.firstUnassembled ==>
              (r.output.closed <==> a.output.closed || r.firstUnassembled >= r.finalIndex)
    ensures a.firstUnassembled < firstIndex ==>
              r.output == a.output && r.firstUnassembled == a.firstUnassembled
    ensures forall s :: Consistent(a, s) && Agrees(Seg(firstIndex, data), s) ==> Consistent(r, s)
    ensures Learns(a, r, firstIndex, data)
  {
    var lastIndex := firstIndex + |data|;
    var marked := MarkLast(a, lastIndex, isLastSubstring);
    var clipped := ClipAssembled(marked, firstIndex, data);
    var inWindow := ClipWindow(marked, lastIndex, clipped);
    TrimmedFits(marked, lastIndex, inWindow);
    StoreLearns(a, marked, firstIndex, data, lastIndex, inWindow);
    StoreAndFlushKeepsConsistent(a, marked, firstIndex, data, lastIndex, clipped, inWindow);
    StoreSubstringKeepsStored(marked, lastIndex, inWindow);
    FlushFromStored(a, StoreSubstring(marked, lastIndex, inWindow));
    CheckPushClosesOnlyAtEnd(StoreSubstring(marked, lastIndex, inWindow));
    CheckPushCloses(StoreSubstring(marked, lastIndex, inWindow));
    if firstIndex <= a.firstUnassembled then
      StoreAtNextComesFirst(marked, lastIndex, inWindow);
      CheckPush(StoreSubstring(marked, lastIndex, inWindow))
    else
      StoreAfterNextFlushesNothing(marked, lastIndex, inWindow);
      CheckPush(StoreSubstring(marked, lastIndex, inWindow))
  }

  /**
   * A substring that ends at or before the next expected byte stores
   * nothing and writes nothing: the flush it triggers finds no stored
   * segment at the next expected byte.
   */
  lemma InsertRedundantStoresNothing(a: State, firstIndex: nat, data: seq<byte>,
                                     isLastSubstring: bool)
    requires Inv(a)
    requires firstIndex < a.firstUnassembled && firstIndex + |data| <= a.firstUnassembled
    ensures var r := Insert(a, firstIndex, data, isLastSubstring);
            && r.output == a.output && r.segments == a.segments
            && r.bytesWaiting == a.bytesWaiting && r.firstUnassembled == a.firstUnassembled
  {
    var marked := MarkLast(a, firstIndex + |data|, isLastSubstring);
    assert |marked.segments| > 0 ==> marked.firstUnassembled < marked.segments[0].start;
  }

  /**
   * A substring whose first new byte lies at or past the window's end, as
   * measured on entry, is dropped: nothing is stored, no flush runs and the
   * pending count stays as it was.
   */
  lemma InsertBeyondWindowDropped(a: State, firstIndex: nat, data: seq<byte>, isLastSubstring: bool)
    requires Inv(a)
    requires !(firstIndex < a.firstUnassembled && firstIndex + |data| <= a.firstUnassembled)
    requires Edge(a) <= if firstIndex < a.firstUnassembled then a.firstUnassembled else firstIndex
    ensures var r := Insert(a, firstIndex, data, isLastSubstring);
            && r.output == a.output && r.segments == a.segments
            && r.bytesWaiting == a.bytesWaiting && r.firstUnassembled == a.firstUnassembled
  {
    var marked := MarkLast(a, firstIndex + |data|, isLastSubstring);
    assert ClipAssembled(marked, firstIndex, data).start >= Edge(a);
  }

  /** A substring wholly before the next expected byte only triggers the flush. */
  lemma InsertRedundantPath(a: State, firstIndex: nat, data: seq<byte>, isLastSubstring: bool,
                            r: State)
    requires Inv(a)
    requires firstIndex < a.firstUnassembled && firstIndex + |data| <= a.firstUnassembled
    requires r == CheckPush(MarkLast(a, firstIndex + |data|, isLastSubstring))
    ensures r == Insert(a, firstIndex, data, isLastSubstring) && Inv(r)
  {
  }

  /** A substring whose trimmed start is at or past the window's end changes
      nothing but the final index. */
  lemma InsertDroppedPath(a: State, firstIndex: nat, data: seq<byte>, isLastSubstring: bool,
                          r: State)
    requires Inv(a)
    requires !(firstIndex < a.firstUnassembled && firstIndex + |data| <= a.firstUnassembled)
    requires Edge(a) <= if firstIndex < a.firstUnassembled then a.firstUnassembled else firstIndex
    requires r == MarkLast(a, firstIndex + |data|, isLastSubstring)
    ensures r == Insert(a, firstIndex, data, isLastSubstring) && Inv(r)
  {
  }

  /** Any other substring is trimmed to the window, stored and flushed. */
  lemma InsertStorePath(a: State, firstIndex: nat, data: seq<byte>, isLastSubstring: bool,
                        marked: State, inWindow: Seg, stored: State, r: State)
    requires Inv(a)
    requires !(firstIndex < a.firstUnassembled && firstIndex + |data| <= a.firstUnassembled)
    requires (if firstIndex < a.firstUnassembled then a.firstUnassembled else firstIndex) < Edge(a)
    requires marked == MarkLast(a, firstIndex + |data|, isLastSubstring)
    requires inWindow ==
               ClipWindow(marked, firstIndex + |data|, ClipAssembled(marked, firstIndex, data))
    requires Storable(marked, firstIndex + |data|, inWindow)
    requires stored == StoreSubstring(marked, firstIndex + |data|, inWindow)
    requires r == CheckPush(stored)
    ensures r == Insert(a, firstIndex, data, isLastSubstring) && Inv(r)
  {
    assert r == StorePath(a, firstIndex, data, isLastSubstring);
  }

  /** A substring clipped to the window can be stored, whichever way its end is written. */
  lemma StoreFits(m: State, firstIndex: nat, data: seq<byte>, lastIndex: nat, inWindow: Seg)
    requires Inv(m) && lastIndex == firstIndex + |data|
    requires Clipped(m, firstIndex + |data|, inWindow)
    ensures Storable(m, lastIndex, inWindow) && Storable(m, firstIndex + |data|, inWindow)
  {
    TrimmedFits(m, lastIndex, inWindow);
  }

  /** Storing up to `lastIndex` is storing up to the substring's end. */
  lemma StoredAt(m: State, firstIndex: nat, data: seq<byte>, lastIndex: nat, inWindow: Seg,
                 stored: State)
    requires lastIndex == firstIndex + |data|
    requires Storable(m, lastIndex, inWindow) && Storable(m, firstIndex + |data|, inWindow)
    requires stored == StoreSubstring(m, lastIndex, inWindow)
    ensures stored == StoreSubstring(m, firstIndex + |data|, inWindow)
  {
  }

  /**
   * A last substring that lies wholly before the next expected byte leaves
   * the stream open, even though the next expected byte has reached the
   * final index: closing happens only right after a segment is pushed.
   */
  lemma RedundantLastSubstringLeavesOpen(a: State, firstIndex: nat, data: seq<byte>)
    requires Inv(a) && !a.output.closed
    requires firstIndex < a.firstUnassembled && firstIndex + |data| <= a.firstUnassembled
    ensures var r := Insert(a, firstIndex, data, true);
            r.finalIndex <= r.firstUnassembled && !r.output.closed
  {
    InsertRedundantStoresNothing(a, firstIndex, data, true);
  }

  /**
   * A last substring with no bytes at the next expected byte closes the
   * stream when the window has room: it is stored as an empty segment, and
   * the flush pushes it and finds the final index reached.
   */
  lemma EmptyLastSubstringCloses(a: State)
    requires Inv(a) && a.firstUnassembled < Edge(a)
    ensures Insert(a, a.firstUnassembled, [], true).output.closed
  {
  }

  /**
   * Sending that empty last substring again after the stream has closed
   * raises the stream's error flag: it is stored and pushed again, and a
   * push into a closed stream is an error.
   */
  lemma LastSubstringAfterCloseRaisesError(a: State)
    requires Inv(a) && a.output.closed && a.firstUnassembled < Edge(a)
    ensures Insert(a, a.firstUnassembled, [], true).output.error
  {
    var next := a.firstUnassembled;
    var marked := MarkLast(a, next, true);
    var inWindow := ClipWindow(marked, next, ClipAssembled(marked, next, []));
    TrimmedFits(marked, next, inWindow);
    var stored := StoreSubstring(marked, next, inWindow);
    StoreIntoClosedRaisesError(marked, next, inWindow);
    InsertStorePath(a, next, [], true, marked, inWindow, stored, CheckPush(stored));
  }

  /** Storing a substring at the next expected byte of a closed stream and
      flushing pushes into the closed stream, which raises the error flag. */
  lemma StoreIntoClosedRaisesError(m: State, lastIndex: nat, inWindow: Seg)
    requires Inv(m) && Clipped(m, lastIndex, inWindow) && Storable(m, lastIndex, inWindow)
    requires inWindow.start == m.firstUnassembled && m.output.closed
    ensures CheckPush(StoreSubstring(m, lastIndex, inWindow)).output.error
  {
    var stored := StoreSubstring(m, lastIndex, inWindow);
    StoreSubstringKeepsStored(m, lastIndex, inWindow);
    StoreAtNextComesFirst(m, lastIndex, inWindow);
    PushFirstKeepsStored(stored);
    CheckPushKeepsInv(PushFirst(stored));
  }

  /**
   * While the buffer is full the window is empty, so a last substring at or
   * after the next expected byte is discarded: the final index is recorded
   * but nothing is stored and the stream stays open. It stays open until a
   * later insert flushes once the next expected byte has reached the
   * recorded final index (`FlushAfterFinalIndexCloses`), for instance the
   * same substring sent again once there is room.
   */
  lemma FullBufferDropsLastSubstring(a: State, firstIndex: nat, data: seq<byte>)
    requires Inv(a) && !a.output.closed && a.output.AvailableCapacity() == 0
    requires a.firstUnassembled <= firstIndex
    ensures var r := Insert(a, firstIndex, data, true);
            && r.finalIndex == firstIndex + |data| && !r.output.closed
            && r.segments == a.segments && r.firstUnassembled == a.firstUnassembled
  {
    InsertBeyondWindowDropped(a, firstIndex, data, true);
  }

  /**
   * Once the next expected byte has reached the recorded final index, any
   * insert at that byte with room in the window closes the stream, even an
   * empty substring that is not marked last: it is stored, pushed, and the
   * flush finds the final index reached.
   */
  lemma FlushAfterFinalIndexCloses(a: State, isLastSubstring: bool)
    requires Inv(a) && a.finalIndex <= a.firstUnassembled < Edge(a)
    ensures Insert(a, a.firstUnassembled, [], isLastSubstring).output.closed
  {
  }

  /**
   * The way out of `FullBufferDropsLastSubstring`: an empty last substring
   * dropped at the next expected byte of a full buffer leaves the stream
   * open, and after the stream is read from, an ordinary empty insert at
   * that byte closes it.
   */
  lemma DroppedLastSubstringClosesAfterPop(a: State, len: nat)
    requires Inv(a) && !a.output.closed && a.output.AvailableCapacity() == 0
    requires 0 < len
    requires 0 < |a.output.buffer|
    ensures var b := Insert(a, a.firstUnassembled, [], true);
            var c := b.(output := b.output.Pop(len));
            && !b.output.closed && b.finalIndex == a.firstUnassembled
            && Insert(c, c.firstUnassembled, [], false).output.closed
  {
    var b := Insert(a, a.firstUnassembled, [], true);
    FullBufferDropsLastSubstring(a, a.firstUnassembled, []);
    var c := b.(output := b.output.Pop(len));
    PopKeepsInv(b, len);
    assert c.firstUnassembled < Edge(c);
    FlushAfterFinalIndexCloses(c, false);
  }
}
