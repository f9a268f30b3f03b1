/**
 * A run of the reassembler: substrings handed to `insert` one after another,
 * in whatever order they arrive. When they are all pieces of one byte stream
 * and together cover it, the stream object ends up holding that byte stream.
 */
module ReassemblerRuns {
  import opened ByteStreams
  import opened SegmentSets
  import opened ReassemblerSpec
  import opened ReassemblerCoverage
  import opened ReassemblerDelivery
  import opened ReassemblerInsert

  /** The arguments of one call of `insert`. */
  datatype Piece = Piece(firstIndex: nat, data: seq<byte>, isLast: bool)

  /** The piece at position `i` carries the byte at stream index `p`. */
  ghost predicate CarriesAt(pieces: seq<Piece>, i: int, p: nat) {
    0 <= i < |pieces| && pieces[i].firstIndex <= p < pieces[i].firstIndex + |pieces[i].data|
  }

  /** Some piece carries the byte at stream index `p`. */
  ghost predicate Covers(pieces: seq<Piece>, p: nat) {
    exists i :: CarriesAt(pieces, i, p)
  }

  /** Every piece carries the bytes of `s` at its indices. */
  ghost predicate AllPiecesAgree(pieces: seq<Piece>, s: seq<byte>) {
    forall i :: 0 <= i < |pieces| ==> Agrees(Seg(pieces[i].firstIndex, pieces[i].data), s)
  }

  /**
   * The pieces inserted in order, with nothing read from the stream in
   * between. The invariant holds throughout, nothing is popped, and the
   * window's end never moves back.
   */
  function InsertAll(a: State, pieces: seq<Piece>): (r: State)
    requires Inv(a)
    ensures Inv(r) && r.output.popped == a.output.popped && Edge(r) >= Edge(a)
    decreases |pieces|
  {
    if |pieces| == 0 then
      a
    else
      var b := Insert(a, pieces[0].firstIndex, pieces[0].data, pieces[0].isLast);
      InsertAll(b, pieces[1..])
  }

  /**
   * A run forgets no byte it knew, and learns every byte a piece carries
   * that lies inside the window as it stood before the run.
   */
  lemma {:induction false} InsertAllLearns(a: State, pieces: seq<Piece>, p: nat)
    requires Inv(a)
    requires Known(a, p) || (Covers(pieces, p) && p < Edge(a))
    ensures Known(InsertAll(a, pieces), p)
    decreases |pieces|
  {
    if |pieces| > 0 {
      var b := Insert(a, pieces[0].firstIndex, pieces[0].data, pieces[0].isLast);
      if !Known(a, p) && !CarriesAt(pieces, 0, p) {
        var i :| CarriesAt(pieces, i, p);
        assert CarriesAt(pieces[1..], i - 1, p);
      }
      InsertAllLearns(b, pieces[1..], p);
    }
  }

  /** A run of pieces of `s` keeps the state in step with `s`. */
  lemma {:induction false} InsertAllConsistent(a: State, pieces: seq<Piece>, s: seq<byte>)
    requires Inv(a) && Consistent(a, s) && AllPiecesAgree(pieces, s)
    ensures Consistent(InsertAll(a, pieces), s)
    decreases |pieces|
  {
    if |pieces| > 0 {
      var b := Insert(a, pieces[0].firstIndex, pieces[0].data, pieces[0].isLast);
      assert Agrees(Seg(pieces[0].firstIndex, pieces[0].data), s);
      assert AllPiecesAgree(pieces[1..], s) by {
        forall i | 0 <= i < |pieces| - 1
          ensures Agrees(Seg(pieces[1..][i].firstIndex, pieces[1..][i].data), s)
        {
          assert pieces[1..][i] == pieces[i + 1];
        }
      }
      InsertAllConsistent(b, pieces[1..], s);
    }
  }

  /**
   * Reassembly: a fresh reassembler over a stream with room for all of `s`,
   * given pieces of `s` in any order that together cover every index of
   * `s`, has written exactly `s` into the stream, unless the stream raised
   * its error flag.
   */
  lemma Reassembles(capacity: nat, pieces: seq<Piece>, s: seq<byte>)
    requires |s| <= capacity
    requires AllPiecesAgree(pieces, s)
    requires forall p: nat :: p < |s| ==> Covers(pieces, p)
    ensures var r := InsertAll(Init(Fresh(capacity)), pieces);
            !r.output.error ==> r.output.buffer == s && r.output.pushed == |s|
  {
    var a := Init(Fresh(capacity));
    InitConsistent(capacity, s);
    InsertAllConsistent(a, pieces, s);
    var r := InsertAll(a, pieces);
    forall p: nat | p < |s|
      ensures Known(r, p)
    {
      InsertAllLearns(a, pieces, p);
    }
    if !r.output.error && |s| > 0 {
      KnownPrefixIsPushed(r, s, |s| - 1);
    }
    assert r.output.pushed == |s| ==> s[0..r.output.pushed] == s;
  }
}
