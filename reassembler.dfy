/**
 * The reassembler as the object the source has: it owns the stream it
 * writes into, which is moved into it on construction, and updates its
 * store, its byte count and its indices in place. Every method is proved
 * to leave the object in the state the functions of ReassemblerSpec and
 * ReassemblerInsert describe, so the properties proved about those
 * functions hold of the object.
 */
module Reassembly {
  import opened ByteStreams
  import opened SegmentSets
  import opened ReassemblerSpec
  import opened ReassemblerProofs
  import opened ReassemblerInsert

  class Reassembler {
    /** The stream the reassembler writes into; no other object refers to it. */
    const output: ByteStream
    /** The stored substrings, ordered by start index. */
    var segments: seq<Seg>
    /** The cached count of stored bytes. */
    var bytesWaiting: nat
    /** The index of the next byte the stream expects. */
    var firstUnassembled: nat
    /** One past the last byte of the stream, once a last substring has been seen. */
    var finalIndex: nat

    /** The current state as a value. */
    function Value(): State
      reads this, output
    {
      State(output.Value(), segments, bytesWaiting, firstUnassembled, finalIndex)
    }

    ghost predicate Valid()
      reads this, output
    {
      Inv(Value())
    }

    /**
     * A reassembler that takes over the stream `source`, with nothing
     * stored: the state of `source` moves into a stream object of its own.
     */
    constructor (source: ByteStream)
      requires source.Valid()
      ensures fresh(output)
      ensures Value() == Init(old(source.Value())) && Valid()
    {
      output := new ByteStream.Holding(source.Value());
      segments := [];
      bytesWaiting := 0;
      firstUnassembled := 0;
      finalIndex := NoFinalIndex;
    }

    /** How many bytes are stored in the reassembler itself. */
    function BytesPending(): (n: nat)
      reads this, output
      requires Valid()
      ensures n == Total(segments)
    {
      bytesWaiting
    }

    /**
     * The flush loop: push the stored segments that continue the stream.
     * Private in the source; an internal step of `Insert`. Run on the shape
     * a store leaves, it restores the invariant.
     */
    method CheckPush()
      requires output.Valid() && Total(segments) <= bytesWaiting
      modifies this, output
      ensures Value() == ReassemblerSpec.CheckPush(old(Value()))
      ensures Stored(old(Value())) ==> Valid()
    {
      ghost var a := Value();
      if Stored(a) {
        CheckPushKeepsInv(a);
      }
      while |segments| > 0
        invariant output.Valid() && Total(segments) <= bytesWaiting
        invariant ReassemblerSpec.CheckPush(Value()) == ReassemblerSpec.CheckPush(old(Value()))
        decreases |segments|
      {
        var seg := segments[0];
        if seg.start == firstUnassembled {
          ghost var before := Value();
          output.Push(seg.data);
          firstUnassembled := firstUnassembled + |seg.data|;
          bytesWaiting := bytesWaiting - |seg.data|;
          segments := segments[1..];
          if firstUnassembled >= finalIndex {
            output.Close();
          }
          assert Value() == PushFirst(before);
        } else {
          break;
        }
      }
    }

    /**
     * `insert`: record the final index, trim what was already assembled,
     * drop or trim what lies beyond the window, store what is left and flush.
     */
    method Insert(firstIndex: nat, data: seq<byte>, isLastSubstring: bool)
      requires Valid()
      modifies this, output
      ensures Valid()
      ensures Value() == ReassemblerInsert.Insert(old(Value()), firstIndex, data, isLastSubstring)
    {
      ghost var a := Value();
      var first := firstIndex;
      var bytes := data;
      var lastIndex := firstIndex + |data|;
      var firstUnacceptable := firstUnassembled + output.AvailableCapacity();
      if isLastSubstring {
        finalIndex := lastIndex;
      }
      ghost var marked := MarkLast(a, firstIndex + |data|, isLastSubstring);
      assert Value() == marked;
      if first < firstUnassembled {
        if first + |bytes| <= firstUnassembled {
          CheckPush();
          InsertRedundantPath(a, firstIndex, data, isLastSubstring, Value());
          return;
        } else {
          bytes := bytes[firstUnassembled - first..];
          first := firstUnassembled;
        }
      }
      if firstUnacceptable <= first {
        InsertDroppedPath(a, firstIndex, data, isLastSubstring, Value());
        return;
      }
      assert Seg(first, bytes) == ClipAssembled(marked, firstIndex, data);
      if lastIndex > firstUnacceptable {
        bytes := bytes[..firstUnacceptable - first];
      }
      assert Seg(first, bytes) ==
             ClipWindow(marked, firstIndex + |data|, ClipAssembled(marked, firstIndex, data));
      StoreAndFlush(a, firstIndex, data, isLastSubstring, first, bytes);
    }

    /**
     * The end of `insert` for a substring clipped to the window: store it
     * (resolving overlaps), then flush.
     */
    method StoreAndFlush(ghost a: State, firstIndex: nat, data: seq<byte>,
                         ghost isLastSubstring: bool, first: nat, bytes: seq<byte>)
      requires Inv(a)
      requires !(firstIndex < a.firstUnassembled && firstIndex + |data| <= a.firstUnassembled)
      requires (if firstIndex < a.firstUnassembled then a.firstUnassembled else firstIndex)
               < Edge(a)
      requires Value() == MarkLast(a, firstIndex + |data|, isLastSubstring)
      requires Seg(first, bytes) ==
               ClipWindow(Value(), firstIndex + |data|, ClipAssembled(Value(), firstIndex, data))
      modifies this, output
      ensures Valid()
      ensures Value() == ReassemblerInsert.Insert(a, firstIndex, data, isLastSubstring)
    {
      ghost var marked := Value();
      ghost var inWindow := Seg(first, bytes);
      var lastIndex := firstIndex + |data|;
      StoreFits(marked, firstIndex, data, lastIndex, inWindow);
      Store(lastIndex, first, bytes);
      ghost var stored := Value();
      StoredAt(marked, firstIndex, data, lastIndex, inWindow, stored);
      ghost var r := ReassemblerSpec.CheckPush(stored);
      InsertStorePath(a, firstIndex, data, isLastSubstring, marked, inWindow, stored, r);
      CheckPush();
    }

    /**
     * The storing part of `insert`, for a substring already trimmed to the
     * window: resolve its overlaps with the store, then write the new store
     * and byte count back. An internal step of `Insert`: between it and the
     * flush that follows, a segment may start at the next expected byte, so
     * the object is in the stored shape rather than satisfying `Valid()`.
     */
    method Store(lastIndex: nat, first: nat, bytes: seq<byte>)
      requires Storable(Value(), lastIndex, Seg(first, bytes))
      modifies this
      ensures Value() == StoreSubstring(old(Value()), lastIndex, Seg(first, bytes))
    {
      ghost var a := Value();
      segments, bytesWaiting := Resolve(a, segments, bytesWaiting, first, bytes, lastIndex);
    }

    /**
     * Overlap resolution on the store as a value: trim what the stored
     * predecessor covers, drop the stored segments the substring covers,
     * cut it where a longer one begins, then insert it and count its bytes.
     */
    static method Resolve(ghost a: State, segments: seq<Seg>, bytesWaiting: nat,
                        firstIndex: nat, data: seq<byte>, lastIndex: nat)
      returns (segs: seq<Seg>, waiting: nat)
      requires Storable(a, lastIndex, Seg(firstIndex, data))
      requires segments == a.segments && bytesWaiting == a.bytesWaiting
      ensures segs == StoreSubstring(a, lastIndex, Seg(firstIndex, data)).segments
      ensures waiting == StoreSubstring(a, lastIndex, Seg(firstIndex, data)).bytesWaiting
    {
      ghost var sub := TrimPredecessor(a.segments, Seg(firstIndex, data));
      ghost var target := DropCovered(a.segments, sub.start, lastIndex, sub.data, a.bytesWaiting);
      var first := firstIndex;
      var bytes := data;
      segs := segments;
      waiting := bytesWaiting;
      if |segs| > 0 {
        var k := LowerBound(segs, first);
        if k > 0 {
          var prev := segs[k - 1];
          if prev.End() > first {
            bytes := bytes[Min(prev.End() - first, |bytes|)..];
            first := prev.End();
          }
        }
        assert Seg(first, bytes) == sub;
        segs, bytes, waiting := DropCoveredLoop(segs, first, lastIndex, bytes, waiting);
      } else {
        assert Seg(first, bytes) == sub;
        DropCoveredStops(segs, first, lastIndex, bytes, waiting);
      }
      assert first == sub.start && Scan(segs, bytes, waiting) == target;
      segs := InsertSeg(segs, Seg(first, bytes));
      waiting := waiting + |bytes|;
    }

    /**
     * The overlap scan of `insert`: from the first stored segment at or
     * after `first`, while segments start before the substring's original
     * end, drop each one the data covers (uncounting its bytes), and cut the
     * data where the first longer one begins.
     */
    static method DropCoveredLoop(segments: seq<Seg>, first: nat, lastIndex: nat, data: seq<byte>,
                                  bytesWaiting: nat)
      returns (segs: seq<Seg>, bytes: seq<byte>, waiting: nat)
      requires Ascending(segments) && Total(segments) <= bytesWaiting
      requires TrimOk(segments, first, lastIndex, data)
      ensures Scan(segs, bytes, waiting) ==
              DropCovered(segments, first, lastIndex, data, bytesWaiting)
    {
      segs, waiting := segments, bytesWaiting;
      ghost var target := DropCovered(segments, first, lastIndex, data, bytesWaiting);
      var k := LowerBound(segs, first);
      while k < |segs| && segs[k].start < lastIndex
        invariant Ascending(segs) && Total(segs) <= waiting
        invariant TrimOk(segs, first, lastIndex, data)
        invariant k == LowerBound(segs, first)
        invariant DropCovered(segs, first, lastIndex, data, waiting) == target
        decreases |segs|
      {
        if segs[k].End() <= lastIndex {
          var rest := Erase(segs, k);
          var left := waiting - |segs[k].data|;
          DropCoveredErases(segs, first, lastIndex, data, waiting, k, rest, left);
          segs, waiting := rest, left;
          k := LowerBound(segs, first);
        } else {
          DropCoveredCuts(segs, first, lastIndex, data, waiting, k);
          bytes := data[..segs[k].start - first];
          return;
        }
      }
      DropCoveredStops(segs, first, lastIndex, data, waiting);
      bytes := data;
    }

    /**
     * Reading through the reassembler's reader: pop up to `len` bytes from
     * the stream. The reassembler's state holds on and its window grows.
     */
    method Pop(len: nat)
      requires Valid()
      modifies output
      ensures Valid()
      ensures Value() == old(Value()).(output := old(Value()).output.Pop(len))
    {
      PopKeepsInv(Value(), len);
      output.Pop(len);
    }
  }
}
