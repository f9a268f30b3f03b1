/**
 * What the reassembler writes: when every substring handed to `insert` is
 * a piece of one byte stream `s`, the stream object only ever holds bytes of
 * `s`, in order and without gaps, and the stored segments hold bytes of `s`
 * at their own indices.
 */
module ReassemblerDelivery {
  import opened ByteStreams
  import opened SegmentSets
  import opened ReassemblerSpec
  import opened ReassemblerProofs
  import opened ReassemblerCoverage

  /** `seg` carries the bytes of `s` at its indices. */
  ghost predicate Agrees(seg: Seg, s: seq<byte>) {
    seg.End() <= |s| && seg.data == s[seg.start..seg.End()]
  }

  /** Every stored segment carries the bytes of `s` at its indices. */
  ghost predicate AllAgree(segs: seq<Seg>, s: seq<byte>) {
    forall x :: x in segs ==> Agrees(x, s)
  }

  /**
   * The reassembler's state is in step with the byte stream `s`: the stream
   * object's buffer holds exactly the bytes of `s` between the counts of
   * popped and pushed bytes; nothing has been pushed past the next expected
   * byte, and as long as no error was raised every byte before it has been
   * pushed; the stored segments agree with `s`.
   */
  ghost predicate Consistent(a: State, s: seq<byte>) {
    && a.output.Valid()
    && a.output.pushed <= a.firstUnassembled <= |s|
    && a.output.buffer == s[a.output.popped..a.output.pushed]
    && (!a.output.error ==> a.output.pushed == a.firstUnassembled)
    && AllAgree(a.segments, s)
  }

  /** A new reassembler over a fresh stream is in step with every byte stream. */
  lemma InitConsistent(capacity: nat, s: seq<byte>)
    ensures Consistent(Init(Fresh(capacity)), s)
  {
    assert s[0..0] == [];
  }

  /** A piece of a segment that agrees with `s` agrees with `s` too. */
  lemma PieceAgrees(seg: Seg, s: seq<byte>, i: nat, j: nat)
    requires Agrees(seg, s) && i <= j <= |seg.data|
    ensures Agrees(Seg(seg.start + i, seg.data[i..j]), s)
  {
    var piece := seg.data[i..j];
    forall t | 0 <= t < j - i
      ensures piece[t] == s[seg.start + i + t]
    {
      assert piece[t] == seg.data[i + t];
    }
    assert piece == s[seg.start + i..seg.start + j];
  }

  /** Consecutive slices join. */
  lemma SlicesJoin(s: seq<byte>, i: nat, j: nat, k: nat)
    requires i <= j <= k <= |s|
    ensures s[i..j] + s[j..k] == s[i..k]
  {
  }

  /**
   * One round of the flush loop keeps the state in step with `s`: the
   * segment at the next expected byte fits in the window, so the push
   * appends all of it, and those are the next bytes of `s`.
   */
  lemma PushFirstKeepsConsistent(a: State, s: seq<byte>)
    requires Stored(a) && Consistent(a, s)
    requires |a.segments| > 0 && a.segments[0].start == a.firstUnassembled
    ensures Consistent(PushFirst(a), s)
  {
    var seg := a.segments[0];
    assert seg in a.segments;
    var b := PushFirst(a);
    if !(a.output.closed || a.output.error) {
      assert |seg.data| <= a.output.AvailableCapacity();
      SlicesJoin(s, a.output.popped, a.output.pushed, seg.End());
    }
    forall x | x in b.segments
      ensures Agrees(x, s)
    {
      assert x in a.segments;
    }
  }

  /** The flush loop keeps the state in step with `s`. */
  lemma {:induction false} CheckPushKeepsConsistent(a: State, s: seq<byte>)
    requires Stored(a) && Consistent(a, s)
    ensures Consistent(CheckPush(a), s)
    decreases |a.segments|
  {
    if |a.segments| > 0 && a.segments[0].start == a.firstUnassembled {
      PushFirstKeepsConsistent(a, s);
      PushFirstKeepsStored(a);
      CheckPushKeepsConsistent(PushFirst(a), s);
    }
  }

  /** Trimming what the predecessor covers keeps a substring in step with `s`. */
  lemma TrimPredecessorAgrees(segs: seq<Seg>, sub: Seg, s: seq<byte>)
    requires Ascending(segs) && AllAgree(segs, s) && Agrees(sub, s)
    ensures Agrees(TrimPredecessor(segs, sub), s)
  {
    var k := LowerBound(segs, sub.start);
    if k > 0 && segs[k - 1].End() > sub.start {
      assert segs[k - 1] in segs;
    }
  }

  /** Storing a substring that agrees with `s` keeps every stored segment in step with `s`. */
  lemma StoreSubstringAgrees(a: State, lastIndex: nat, inWindow: Seg, s: seq<byte>)
    requires Inv(a) && Clipped(a, lastIndex, inWindow) && Storable(a, lastIndex, inWindow)
    requires AllAgree(a.segments, s) && Agrees(inWindow, s)
    ensures AllAgree(StoreSubstring(a, lastIndex, inWindow).segments, s)
  {
    var sub := TrimPredecessor(a.segments, inWindow);
    TrimPredecessorAgrees(a.segments, inWindow, s);
    var scan := DropCovered(a.segments, sub.start, lastIndex, sub.data, a.bytesWaiting);
    DropCoveredMeets(a.segments, sub.start, lastIndex, sub.data, a.bytesWaiting);
    var x := Seg(sub.start, scan.data);
    PieceAgrees(sub, s, 0, |scan.data|);
    assert sub.data[0..|scan.data|] == scan.data;
    assert Agrees(x, s);
    forall y | y in scan.segments
      ensures Agrees(y, s)
    {
      assert y in a.segments;
    }
    InsertSegAgrees(scan.segments, x, s);
  }

  /**
   * Inserting a segment in step with `s` among segments in step with `s`
   * keeps them all in step.
   */
  lemma InsertSegAgrees(segs: seq<Seg>, x: Seg, s: seq<byte>)
    requires Ascending(segs) && AllAgree(segs, s) && Agrees(x, s)
    ensures AllAgree(InsertSeg(segs, x), s)
  {
    InsertSegMembers(segs, x);
  }

  /** Storing a substring in step with `s`, then flushing, keeps the state in step with `s`. */
  lemma StoreAndFlushConsistent(a: State, lastIndex: nat, inWindow: Seg, s: seq<byte>)
    requires Inv(a) && Clipped(a, lastIndex, inWindow) && Storable(a, lastIndex, inWindow)
    requires Consistent(a, s) && Agrees(inWindow, s)
    ensures Consistent(CheckPush(StoreSubstring(a, lastIndex, inWindow)), s)
  {
    StoreSubstringAgrees(a, lastIndex, inWindow, s);
    StoreSubstringKeepsStored(a, lastIndex, inWindow);
    CheckPushKeepsConsistent(StoreSubstring(a, lastIndex, inWindow), s);
  }

  /**
   * The store-and-flush path of `insert` keeps every state that was in step
   * with a byte stream `s` in step with it, when the substring it was given,
   * before clipping, is the piece of `s` at its index.
   */
  lemma StoreAndFlushKeepsConsistent(a: State, m: State, firstIndex: nat, data: seq<byte>,
                                     lastIndex: nat, clipped: Seg, inWindow: Seg)
    requires Inv(m) && Clipped(m, lastIndex, inWindow) && Storable(m, lastIndex, inWindow)
    requires m.output == a.output && m.segments == a.segments
    requires m.firstUnassembled == a.firstUnassembled
    requires m.firstUnassembled <= firstIndex || m.firstUnassembled < firstIndex + |data|
    requires clipped == ClipAssembled(m, firstIndex, data)
    requires inWindow.start == clipped.start && |inWindow.data| <= |clipped.data|
    requires inWindow.data == clipped.data[..|inWindow.data|]
    ensures forall s :: Consistent(a, s) && Agrees(Seg(firstIndex, data), s) ==>
                        Consistent(CheckPush(StoreSubstring(m, lastIndex, inWindow)), s)
  {
    forall s | Consistent(a, s) && Agrees(Seg(firstIndex, data), s)
      ensures Consistent(CheckPush(StoreSubstring(m, lastIndex, inWindow)), s)
    {
      if firstIndex < m.firstUnassembled {
        PieceAgrees(Seg(firstIndex, data), s, m.firstUnassembled - firstIndex, |data|);
      }
      PieceAgrees(clipped, s, 0, |inWindow.data|);
      StoreAndFlushConsistent(m, lastIndex, inWindow, s);
    }
  }

  /**
   * The paths of `insert` that store nothing keep every state that was in
   * step with a byte stream in step with it, whether they flush or not.
   */
  lemma FlushKeepsConsistent(a: State, m: State)
    requires Stored(m)
    requires m.output == a.output && m.segments == a.segments
    requires m.firstUnassembled == a.firstUnassembled
    ensures forall s :: Consistent(a, s) ==> Consistent(m, s) && Consistent(CheckPush(m), s)
  {
    forall s | Consistent(a, s)
      ensures Consistent(m, s) && Consistent(CheckPush(m), s)
    {
      CheckPushKeepsConsistent(m, s);
    }
  }

  /**
   * Reading keeps the state in step with `s`: popping removes the oldest
   * buffered bytes, which are the bytes of `s` at the popped count.
   */
  lemma PopKeepsConsistent(a: State, len: nat, s: seq<byte>)
    requires Consistent(a, s)
    ensures Consistent(a.(output := a.output.Pop(len)), s)
  {
  }

  /**
   * Between calls the next expected byte is never known, so the bytes known
   * without a gap from index 0 are exactly those before it; with no error
   * raised, those are exactly the bytes pushed into the stream.
   */
  lemma KnownPrefixIsPushed(a: State, s: seq<byte>, p: nat)
    requires Inv(a) && Consistent(a, s) && !a.output.error
    ensures (forall q: nat :: q <= p ==> Known(a, q)) <==> p < a.output.pushed
  {
    if a.output.pushed <= p {
      assert !Known(a, a.firstUnassembled);
    }
  }
}
