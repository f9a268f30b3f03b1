/**
 * What the reassembler knows: the bytes it has passed to the stream and the
 * bytes it holds in its store. Each path of `insert` forgets no byte it knew
 * and learns every byte of its substring that lies inside the window.
 */
module ReassemblerCoverage {
  import opened ByteStreams
  import opened SegmentSets
  import opened ReassemblerSpec
  import opened ReassemblerProofs

  /** The byte at stream index `p` is known: it was passed on, or it is stored. */
  ghost predicate Known(a: State, p: nat) {
    p < a.firstUnassembled || Held(a.segments, p)
  }

  /**
   * From `a` to `r`, nothing known is forgotten and every byte of the
   * substring `data` at `firstIndex` that lies before `a`'s window end is
   * learnt. Bytes at or past the window's end are the ones discarded.
   */
  ghost predicate Learns(a: State, r: State, firstIndex: nat, data: seq<byte>)
    requires a.output.Valid()
  {
    forall p: nat :: Known(a, p) || (firstIndex <= p < firstIndex + |data| && p < Edge(a)) ==>
                       Known(r, p)
  }

  /**
   * The new data reaches as far as every stored segment from `first` on
   * that ends by the substring's original end `lastIndex`: the data was
   * clipped only at the window's end, which no stored segment passes.
   */
  ghost predicate Reaches(segs: seq<Seg>, first: nat, lastIndex: nat, data: seq<byte>) {
    forall i :: 0 <= i < |segs| && first <= segs[i].start && segs[i].End() <= lastIndex ==>
                  segs[i].End() <= first + |data|
  }

  /** Forgetting a stored segment keeps `Reaches`. */
  lemma EraseKeepsReaches(segs: seq<Seg>, k: nat, first: nat, lastIndex: nat, data: seq<byte>)
    requires k < |segs| && Reaches(segs, first, lastIndex, data)
    ensures Reaches(Erase(segs, k), first, lastIndex, data)
  {
    var rest := Erase(segs, k);
    forall i | 0 <= i < |rest| && first <= rest[i].start && rest[i].End() <= lastIndex
      ensures rest[i].End() <= first + |data|
    {
      assert rest[i] == if i < k then segs[i] else segs[i + 1];
    }
  }

  /**
   * The overlap scan forgets no byte: a byte held by a stored segment, or
   * carried by the new data, is afterwards held by a kept segment or carried
   * by what is left of the new data.
   */
  lemma {:induction false} DropCoveredKeepsHeld(segs: seq<Seg>, first: nat, lastIndex: nat,
                                                data: seq<byte>, waiting: nat, p: nat)
    requires Ascending(segs) && Total(segs) <= waiting
    requires TrimOk(segs, first, lastIndex, data) && Reaches(segs, first, lastIndex, data)
    requires Held(segs, p) || first <= p < first + |data|
    ensures var r := DropCovered(segs, first, lastIndex, data, waiting);
            Held(r.segments, p) || first <= p < first + |r.data|
    decreases |segs|
  {
    var k := LowerBound(segs, first);
    if k < |segs| && segs[k].start < lastIndex {
      if segs[k].End() <= lastIndex {
        var rest := Erase(segs, k);
        var left := waiting - |segs[k].data|;
        DropCoveredErases(segs, first, lastIndex, data, waiting, k, rest, left);
        EraseKeepsReaches(segs, k, first, lastIndex, data);
        if segs[k].start <= p < segs[k].End() {
          assert first <= p < first + |data|;
        } else if Held(segs, p) {
          EraseKeepsHeld(segs, k, p);
        }
        DropCoveredKeepsHeld(rest, first, lastIndex, data, left, p);
      } else {
        DropCoveredCuts(segs, first, lastIndex, data, waiting, k);
        if first <= p < first + |data| && segs[k].start <= p {
          assert HoldsAt(segs, k, p);
        }
      }
    } else {
      DropCoveredStops(segs, first, lastIndex, data, waiting);
    }
  }

  /** The bytes the predecessor trim takes off the front are held by the predecessor. */
  lemma TrimmedFrontHeld(segs: seq<Seg>, sub: Seg, p: nat)
    requires Ascending(segs)
    requires sub.start <= p < TrimPredecessor(segs, sub).start
    ensures Held(segs, p)
  {
    var k := LowerBound(segs, sub.start);
    assert HoldsAt(segs, k - 1, p);
  }

  /** After the predecessor trim, the substring clipped to the window reaches every
      stored segment it covers. */
  lemma TrimmedReaches(a: State, lastIndex: nat, inWindow: Seg)
    requires Inv(a) && Clipped(a, lastIndex, inWindow)
    ensures var sub := TrimPredecessor(a.segments, inWindow);
            Reaches(a.segments, sub.start, lastIndex, sub.data)
  {
    var segs := a.segments;
    var sub := TrimPredecessor(segs, inWindow);
    forall i | 0 <= i < |segs| && sub.start <= segs[i].start && segs[i].End() <= lastIndex
      ensures segs[i].End() <= sub.start + |sub.data|
    {
      assert segs[i].End() <= Edge(a);
    }
  }

  /**
   * Storing forgets no byte and keeps every byte of the substring clipped
   * to the window.
   */
  lemma StoreSubstringKeepsKnown(a: State, lastIndex: nat, inWindow: Seg, p: nat)
    requires Inv(a) && Clipped(a, lastIndex, inWindow) && Storable(a, lastIndex, inWindow)
    requires Known(a, p) || inWindow.start <= p < inWindow.End()
    ensures Known(StoreSubstring(a, lastIndex, inWindow), p)
  {
    if a.firstUnassembled <= p {
      var segs := a.segments;
      var sub := TrimPredecessor(segs, inWindow);
      if !Held(segs, p) && p < sub.start {
        TrimmedFrontHeld(segs, inWindow, p);
      }
      TrimmedReaches(a, lastIndex, inWindow);
      DropCoveredKeepsHeld(segs, sub.start, lastIndex, sub.data, a.bytesWaiting, p);
      DropCoveredMeets(segs, sub.start, lastIndex, sub.data, a.bytesWaiting);
      var scan := DropCovered(segs, sub.start, lastIndex, sub.data, a.bytesWaiting);
      InsertSegKeepsHeld(scan.segments, Seg(sub.start, scan.data), p);
    }
  }

  /** Flushing forgets no byte: a pushed segment's bytes fall before the next expected byte. */
  lemma {:induction false} CheckPushKeepsKnown(a: State, p: nat)
    requires a.output.Valid() && Total(a.segments) <= a.bytesWaiting
    requires Known(a, p)
    ensures Known(CheckPush(a), p)
    decreases |a.segments|
  {
    if |a.segments| > 0 && a.segments[0].start == a.firstUnassembled {
      var b := PushFirst(a);
      if b.firstUnassembled <= p {
        var i :| HoldsAt(a.segments, i, p);
        assert b.segments[i - 1] == a.segments[i];
        assert HoldsAt(b.segments, i - 1, p);
      }
      CheckPushKeepsKnown(b, p);
    }
  }

  /**
   * The flush-only path: a substring that ends by the next expected byte
   * holds nothing new, and the flush forgets nothing.
   */
  lemma FlushLearns(a: State, m: State, firstIndex: nat, data: seq<byte>)
    requires Stored(m) && a.output.Valid()
    requires m.output == a.output && m.segments == a.segments
    requires m.firstUnassembled == a.firstUnassembled
    requires firstIndex + |data| <= a.firstUnassembled
    ensures Learns(a, CheckPush(m), firstIndex, data)
  {
    forall p: nat | Known(a, p) || (firstIndex <= p < firstIndex + |data| && p < Edge(a))
      ensures Known(CheckPush(m), p)
    {
      CheckPushKeepsKnown(m, p);
    }
  }

  /**
   * The discarding path: a substring whose first new byte is at or past the
   * window's end has no byte to learn, and the state keeps what it knew.
   */
  lemma DropLearns(a: State, m: State, firstIndex: nat, data: seq<byte>)
    requires a.output.Valid()
    requires m.segments == a.segments && m.firstUnassembled == a.firstUnassembled
    requires Edge(a) <= if firstIndex < a.firstUnassembled then a.firstUnassembled else firstIndex
    ensures Learns(a, m, firstIndex, data)
  {
  }

  /**
   * The storing path: storing the substring clipped to the window and then
   * flushing forgets nothing and learns every byte of the substring before
   * the window's end.
   */
  lemma StoreLearns(a: State, m: State, firstIndex: nat, data: seq<byte>, lastIndex: nat,
                    inWindow: Seg)
    requires Inv(m) && Clipped(m, lastIndex, inWindow) && Storable(m, lastIndex, inWindow)
    requires m.output == a.output && m.segments == a.segments
    requires m.firstUnassembled == a.firstUnassembled
    requires lastIndex == firstIndex + |data|
    requires inWindow.start ==
               if firstIndex < a.firstUnassembled then a.firstUnassembled else firstIndex
    ensures Learns(a, CheckPush(StoreSubstring(m, lastIndex, inWindow)), firstIndex, data)
  {
    forall p: nat | Known(a, p) || (firstIndex <= p < firstIndex + |data| && p < Edge(a))
      ensures Known(CheckPush(StoreSubstring(m, lastIndex, inWindow)), p)
    {
      StoreSubstringKeepsKnown(m, lastIndex, inWindow, p);
      CheckPushKeepsKnown(StoreSubstring(m, lastIndex, inWindow), p);
    }
  }
}
