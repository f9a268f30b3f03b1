/**
 * The reassembler's store of pending substrings: an ordered set of segments
 * keyed only by their start index. The set is a sequence sorted by start;
 * `LowerBound`, `Erase` and `InsertSeg` are the three set operations the
 * reassembler uses.
 */
module SegmentSets {
  import opened ByteStreams

  /** A substring together with the stream index of its first byte. */
  datatype Seg = Seg(start: nat, data: seq<byte>)
  {
    /** One past the stream index of the last byte. */
    function End(): nat {
      start + |data|
    }
  }

  /**
   * `x` starts strictly before `y`: the set's ordering. Segments with the
   * same start index are equivalent under it, so the set keeps at most one
   * segment per start index.
   */
  predicate StartsBefore(x: Seg, y: Seg) {
    x.start < y.start
  }

  /**
   * The set's ordering is a strict weak order, as `std::set` needs of its
   * comparator: irreflexive, asymmetric and transitive, and two segments are
   * equivalent under it exactly when they share a start index.
   */
  lemma StartsBeforeIsStrictWeakOrder(x: Seg, y: Seg, z: Seg)
    ensures !StartsBefore(x, x)
    ensures StartsBefore(x, y) ==> !StartsBefore(y, x)
    ensures StartsBefore(x, y) && StartsBefore(y, z) ==> StartsBefore(x, z)
    ensures !StartsBefore(x, y) && !StartsBefore(y, x) <==> x.start == y.start
  {
  }

  /** `x` ends at or before the start of `y`: they share no index. */
  predicate EndsBy(x: Seg, y: Seg) {
    x.End() <= y.start
  }

  /** Start indices strictly increase: segments are compared by start index
      only, so a set holds at most one segment per start index. */
  ghost predicate Ascending(segs: seq<Seg>) {
    forall i, j {:trigger StartsBefore(segs[i], segs[j])} ::
      0 <= i < j < |segs| ==> StartsBefore(segs[i], segs[j])
  }

  /** No stored segment reaches into a later one. */
  ghost predicate NonOverlapping(segs: seq<Seg>) {
    forall i, j {:trigger EndsBy(segs[i], segs[j])} ::
      0 <= i < j < |segs| ==> EndsBy(segs[i], segs[j])
  }

  /** Every segment starts at or after `lo` and ends at or before `hi`. */
  ghost predicate Within(segs: seq<Seg>, lo: nat, hi: nat) {
    forall i :: 0 <= i < |segs| ==> lo <= segs[i].start && segs[i].End() <= hi
  }

  /** Every segment that starts before `p` ends at or before `p`. */
  ghost predicate ClearBefore(segs: seq<Seg>, p: nat) {
    forall i :: 0 <= i < |segs| && segs[i].start < p ==> segs[i].End() <= p
  }

  /** Data placed at `first` ends at or before every segment that starts at
      or after `first`. */
  ghost predicate EndsBefore(segs: seq<Seg>, first: nat, data: seq<byte>) {
    forall i :: 0 <= i < |segs| && first <= segs[i].start ==> first + |data| <= segs[i].start
  }

  /** The number of bytes held in the segments. */
  function Total(segs: seq<Seg>): nat {
    Sum(segs, |segs|)
  }

  /** The number of bytes held in the first `n` segments. */
  function Sum(segs: seq<Seg>, n: nat): nat
    requires n <= |segs|
  {
    if n == 0 then 0 else Sum(segs, n - 1) + |segs[n - 1].data|
  }

  /** What follows a prefix does not count towards the prefix's bytes. */
  lemma {:induction false} SumPrefix(a: seq<Seg>, b: seq<Seg>, n: nat)
    requires n <= |a|
    ensures Sum(a + b, n) == Sum(a, n)
  {
    if n > 0 {
      SumPrefix(a, b, n - 1);
      assert (a + b)[n - 1] == a[n - 1];
    }
  }

  /** The bytes of the segments after a prefix add to the prefix's bytes. */
  lemma {:induction false} SumSuffix(a: seq<Seg>, b: seq<Seg>, m: nat)
    requires m <= |b|
    ensures Sum(a + b, |a| + m) == Total(a) + Sum(b, m)
  {
    if m == 0 {
      SumPrefix(a, b, |a|);
    } else {
      SumSuffix(a, b, m - 1);
      assert (a + b)[|a| + m - 1] == b[m - 1];
    }
  }

  lemma TotalAppend(a: seq<Seg>, b: seq<Seg>)
    ensures Total(a + b) == Total(a) + Total(b)
  {
    SumSuffix(a, b, |b|);
  }

  /** A single segment holds its own bytes. */
  lemma TotalSingle(x: Seg)
    ensures Total([x]) == |x.data|
  {
    assert Sum([x], 1) == |x.data|;
  }

  /** The bytes of the first segment and of the rest make up the total. */
  lemma TotalFront(segs: seq<Seg>)
    requires |segs| > 0
    ensures Total(segs) == |segs[0].data| + Total(segs[1..])
  {
    assert segs == [segs[0]] + segs[1..];
    TotalAppend([segs[0]], segs[1..]);
    TotalSingle(segs[0]);
  }

  /**
   * `lower_bound`: the position of the first segment whose start is not less
   * than `key`, that is, the number of segments that start before `key`.
   */
  function LowerBound(segs: seq<Seg>, key: nat): (k: nat)
    requires Ascending(segs)
    ensures k <= |segs|
    ensures 0 < k ==> segs[k - 1].start < key
    ensures k < |segs| ==> key <= segs[k].start
  {
    if |segs| == 0 || key <= segs[0].start then 0 else 1 + LowerBound(segs[1..], key)
  }

  /** In an ascending sequence, the segments before the lower bound start
      before the key and the others do not. */
  lemma LowerBoundSplits(segs: seq<Seg>, key: nat, i: nat)
    requires Ascending(segs) && i < |segs|
    ensures i < LowerBound(segs, key) <==> segs[i].start < key
  {
    var k := LowerBound(segs, key);
    if i < k - 1 {
      assert StartsBefore(segs[i], segs[k - 1]);
    } else if k < i {
      assert StartsBefore(segs[k], segs[i]);
    }
  }

  /** A segment with start index `key` is stored exactly when the lower
      bound points at one. */
  lemma LowerBoundFinds(segs: seq<Seg>, key: nat)
    requires Ascending(segs)
    ensures (exists i :: 0 <= i < |segs| && segs[i].start == key) <==>
            (LowerBound(segs, key) < |segs| && segs[LowerBound(segs, key)].start == key)
  {
    var k := LowerBound(segs, key);
    forall i | 0 <= i < |segs| && segs[i].start == key
      ensures k < |segs| && segs[k].start == key
    {
      LowerBoundSplits(segs, key, i);
      assert k < i ==> StartsBefore(segs[k], segs[i]);
    }
  }

  /** Removes the segment at position `k`: the segments before it stay
      where they are, the segments after it move down by one. */
  function Erase(segs: seq<Seg>, k: nat): (r: seq<Seg>)
    requires k < |segs|
    ensures |r| + 1 == |segs|
    ensures Total(r) + |segs[k].data| == Total(segs)
    ensures Ascending(segs) ==> Ascending(r)
    ensures NonOverlapping(segs) ==> NonOverlapping(r)
  {
    assert segs == segs[..k] + [segs[k]] + segs[k + 1..];
    TotalAppend(segs[..k] + [segs[k]], segs[k + 1..]);
    TotalAppend(segs[..k], [segs[k]]);
    TotalAppend(segs[..k], segs[k + 1..]);
    TotalSingle(segs[k]);
    var r := segs[..k] + segs[k + 1..];
    forall i | 0 <= i < |r|
      ensures r[i] == EraseAt(segs, k, i)
    {
    }
    ShiftKeepsOrder(segs, r, k);
    r
  }

  /** The segment at position `i` after erasing position `k`. */
  function EraseAt(segs: seq<Seg>, k: nat, i: nat): Seg
    requires k < |segs| && i + 1 < |segs|
  {
    if i < k then segs[i] else segs[i + 1]
  }

  /** A sequence that is `segs` with position `k` left out keeps its order. */
  lemma ShiftKeepsOrder(segs: seq<Seg>, r: seq<Seg>, k: nat)
    requires k < |segs| && |r| + 1 == |segs|
    requires forall i :: 0 <= i < |r| ==> r[i] == EraseAt(segs, k, i)
    ensures Ascending(segs) ==> Ascending(r)
    ensures NonOverlapping(segs) ==> NonOverlapping(r)
  {
    forall i, j | 0 <= i < j < |r|
      ensures Ascending(segs) ==> StartsBefore(r[i], r[j])
      ensures NonOverlapping(segs) ==> EndsBy(r[i], r[j])
    {
      var i' := if i < k then i else i + 1;
      var j' := if j < k then j else j + 1;
      assert r[i] == segs[i'] && r[j] == segs[j'];
      assert Ascending(segs) ==> StartsBefore(segs[i'], segs[j']);
      assert NonOverlapping(segs) ==> EndsBy(segs[i'], segs[j']);
    }
  }

  /** Erasing only forgets: every segment left was there before. */
  lemma EraseForgets(segs: seq<Seg>, k: nat)
    requires k < |segs|
    ensures forall x :: x in Erase(segs, k) ==> x in segs
  {
    var r := Erase(segs, k);
    forall x | x in r
      ensures x in segs
    {
      var i :| 0 <= i < |r| && r[i] == x;
      assert x == (segs[..k] + segs[k + 1..])[i];
    }
  }

  /**
   * Erasing removes exactly the segment at `k`: every other segment is
   * still there, and in a set ordered by start the erased one is gone.
   */
  lemma EraseKeepsOthers(segs: seq<Seg>, k: nat)
    requires k < |segs|
    ensures forall i :: 0 <= i < |segs| && i != k ==> segs[i] in Erase(segs, k)
    ensures Ascending(segs) ==> segs[k] !in Erase(segs, k)
  {
    var r := Erase(segs, k);
    forall i | 0 <= i < |segs| && i != k
      ensures segs[i] in r
    {
      var j := if i < k then i else i - 1;
      assert r[j] == (segs[..k] + segs[k + 1..])[j] == segs[i];
    }
    if Ascending(segs) {
      forall j | 0 <= j < |r|
        ensures r[j] != segs[k]
      {
        var i := if j < k then j else j + 1;
        assert r[j] == (segs[..k] + segs[k + 1..])[j] == segs[i];
        assert i < k ==> StartsBefore(segs[i], segs[k]);
        assert k < i ==> StartsBefore(segs[k], segs[i]);
      }
    }
  }

  /** Dropping the first segment keeps the order. */
  lemma DropFirstKeepsOrder(segs: seq<Seg>)
    requires |segs| > 0
    ensures Ascending(segs) ==> Ascending(segs[1..])
    ensures NonOverlapping(segs) ==> NonOverlapping(segs[1..])
  {
    var r := segs[1..];
    forall i, j | 0 <= i < j < |r|
      ensures Ascending(segs) ==> StartsBefore(r[i], r[j])
      ensures NonOverlapping(segs) ==> EndsBy(r[i], r[j])
    {
      assert Ascending(segs) ==> StartsBefore(segs[i + 1], segs[j + 1]);
      assert NonOverlapping(segs) ==> EndsBy(segs[i + 1], segs[j + 1]);
    }
  }

  /**
   * Set insertion: the segment goes in at its ordered position, unless a
   * segment with the same start index is already stored, in which case the
   * set is left as it is.
   */
  function InsertSeg(segs: seq<Seg>, s: Seg): (r: seq<Seg>)
    requires Ascending(segs)
    ensures Ascending(r)
    ensures r == segs || Total(r) == Total(segs) + |s.data|
  {
    var k := LowerBound(segs, s.start);
    if k < |segs| && segs[k].start == s.start then
      segs
    else
      SpliceFacts(segs, k, s);
      segs[..k] + [s] + segs[k..]
  }

  /**
   * InsertSeg is insertion into a set ordered by start index: a segment
   * whose start is already present leaves the set as it is; otherwise the
   * segment goes in between the segments starting before it and those
   * starting after it, and its bytes are added to the total.
   */
  lemma InsertSegIsSetInsert(segs: seq<Seg>, s: Seg)
    requires Ascending(segs)
    ensures (exists i :: 0 <= i < |segs| && segs[i].start == s.start) ==> InsertSeg(segs, s) == segs
    ensures (forall i :: 0 <= i < |segs| ==> segs[i].start != s.start) ==>
              var k := LowerBound(segs, s.start);
              && InsertSeg(segs, s) == segs[..k] + [s] + segs[k..]
              && (forall i :: 0 <= i < k ==> segs[i].start < s.start)
              && (forall i :: k <= i < |segs| ==> s.start < segs[i].start)
              && Total(InsertSeg(segs, s)) == Total(segs) + |s.data|
  {
    var k := LowerBound(segs, s.start);
    LowerBoundFinds(segs, s.start);
    if !(k < |segs| && segs[k].start == s.start) {
      forall i | 0 <= i < |segs|
        ensures i < k <==> segs[i].start < s.start
      {
        LowerBoundSplits(segs, s.start, i);
      }
      SpliceFacts(segs, k, s);
    }
  }

  /** Set insertion adds the segment and forgets nothing. */
  lemma InsertSegMembers(segs: seq<Seg>, s: Seg)
    requires Ascending(segs)
    ensures forall x :: x in InsertSeg(segs, s) ==> x == s || x in segs
    ensures forall x :: x in segs ==> x in InsertSeg(segs, s)
  {
    var k := LowerBound(segs, s.start);
    if !(k < |segs| && segs[k].start == s.start) {
      var r := segs[..k] + [s] + segs[k..];
      forall x | x in r
        ensures x == s || x in segs
      {
        var i :| 0 <= i < |r| && r[i] == x;
        SpliceAt(segs, k, s, i);
      }
      forall x | x in segs
        ensures x in r
      {
        var i :| 0 <= i < |segs| && segs[i] == x;
        SpliceAt(segs, k, s, if i < k then i else i + 1);
      }
    }
  }

  lemma SpliceFacts(segs: seq<Seg>, k: nat, s: Seg)
    requires Ascending(segs) && k <= |segs|
    requires 0 < k ==> segs[k - 1].start < s.start
    requires k < |segs| ==> s.start < segs[k].start
    ensures Ascending(segs[..k] + [s] + segs[k..])
    ensures Total(segs[..k] + [s] + segs[k..]) == Total(segs) + |s.data|
  {
    var r := segs[..k] + [s] + segs[k..];
    forall i, j | 0 <= i < j < |r|
      ensures StartsBefore(r[i], r[j])
    {
      SpliceAt(segs, k, s, i);
      SpliceAt(segs, k, s, j);
      if j < k {
        assert StartsBefore(segs[i], segs[j]);
      } else if j == k {
        if i < k - 1 {
          assert StartsBefore(segs[i], segs[k - 1]);
        }
      } else if i < k {
        assert StartsBefore(segs[i], segs[j - 1]);
      } else if i == k {
        if k < j - 1 {
          assert StartsBefore(segs[k], segs[j - 1]);
        }
      } else {
        assert StartsBefore(segs[i - 1], segs[j - 1]);
      }
    }
    SpliceTotal(segs, k, s);
  }

  lemma SpliceAt(segs: seq<Seg>, k: nat, s: Seg, i: nat)
    requires k <= |segs| && i <= |segs|
    ensures (segs[..k] + [s] + segs[k..])[i] ==
              if i < k then segs[i] else if i == k then s else segs[i - 1]
  {
  }

  /** A segment that fits between its neighbours keeps the segments disjoint. */
  lemma SpliceKeepsDisjoint(segs: seq<Seg>, k: nat, s: Seg)
    requires NonOverlapping(segs) && k <= |segs|
    requires 0 < k ==> segs[k - 1].End() <= s.start
    requires k < |segs| ==> s.End() <= segs[k].start
    ensures NonOverlapping(segs[..k] + [s] + segs[k..])
  {
    var r := segs[..k] + [s] + segs[k..];
    forall i, j | 0 <= i < j < |r|
      ensures EndsBy(r[i], r[j])
    {
      SpliceAt(segs, k, s, i);
      SpliceAt(segs, k, s, j);
      if j < k {
        assert EndsBy(segs[i], segs[j]);
      } else if j == k {
        if i < k - 1 {
          assert EndsBy(segs[i], segs[k - 1]);
        }
      } else if i < k {
        assert EndsBy(segs[i], segs[j - 1]);
      } else if i == k {
        if k < j - 1 {
          assert EndsBy(segs[k], segs[j - 1]);
        }
      } else {
        assert EndsBy(segs[i - 1], segs[j - 1]);
      }
    }
  }

  /** A segment inside the bounds keeps the segments inside them. */
  lemma SpliceKeepsWithin(segs: seq<Seg>, k: nat, s: Seg, lo: nat, hi: nat)
    requires Within(segs, lo, hi) && k <= |segs|
    requires lo <= s.start && s.End() <= hi
    ensures Within(segs[..k] + [s] + segs[k..], lo, hi)
  {
    var r := segs[..k] + [s] + segs[k..];
    forall i | 0 <= i < |r|
      ensures lo <= r[i].start && r[i].End() <= hi
    {
      SpliceAt(segs, k, s, i);
    }
  }

  lemma SpliceTotal(segs: seq<Seg>, k: nat, s: Seg)
    requires k <= |segs|
    ensures Total(segs[..k] + [s] + segs[k..]) == Total(segs) + |s.data|
  {
    assert segs == segs[..k] + segs[k..];
    TotalAppend(segs[..k], segs[k..]);
    TotalAppend(segs[..k] + [s], segs[k..]);
    TotalAppend(segs[..k], [s]);
    TotalSingle(s);
  }

  // ---------------------------------------------------------------------
  // Which stream indices the set holds

  /** The segment at position `i` holds the byte at stream index `p`. */
  ghost predicate HoldsAt(segs: seq<Seg>, i: int, p: nat) {
    0 <= i < |segs| && segs[i].start <= p < segs[i].End()
  }

  /** Some segment of `segs` holds the byte at stream index `p`. */
  ghost predicate Held(segs: seq<Seg>, p: nat) {
    exists i :: HoldsAt(segs, i, p)
  }

  /** Erasing a segment that does not hold `p` keeps `p` held. */
  lemma EraseKeepsHeld(segs: seq<Seg>, k: nat, p: nat)
    requires k < |segs| && Held(segs, p) && !(segs[k].start <= p < segs[k].End())
    ensures Held(Erase(segs, k), p)
  {
    var i :| HoldsAt(segs, i, p);
    var rest := Erase(segs, k);
    var j := if i < k then i else i - 1;
    assert rest[j] == segs[i];
    assert HoldsAt(rest, j, p);
  }

  /**
   * Inserting a segment keeps every held index held and, when no stored
   * segment from its start on begins before its end, holds its own indices.
   */
  lemma InsertSegKeepsHeld(segs: seq<Seg>, s: Seg, p: nat)
    requires Ascending(segs) && EndsBefore(segs, s.start, s.data)
    requires Held(segs, p) || s.start <= p < s.End()
    ensures Held(InsertSeg(segs, s), p)
  {
    var r := InsertSeg(segs, s);
    InsertSegMembers(segs, s);
    if Held(segs, p) {
      var i :| HoldsAt(segs, i, p);
      assert segs[i] in r;
      var j :| 0 <= j < |r| && r[j] == segs[i];
      assert HoldsAt(r, j, p);
    } else {
      forall i | 0 <= i < |segs|
        ensures segs[i].start != s.start
      {
      }
      InsertSegAdds(segs, s);
      var j :| 0 <= j < |r| && r[j] == s;
      assert HoldsAt(r, j, p);
    }
  }

  /** A segment whose start index is not yet stored is in the set after insertion. */
  lemma InsertSegAdds(segs: seq<Seg>, s: Seg)
    requires Ascending(segs)
    requires forall i :: 0 <= i < |segs| ==> segs[i].start != s.start
    ensures s in InsertSeg(segs, s)
  {
    var k := LowerBound(segs, s.start);
    SpliceAt(segs, k, s, k);
  }
}
