/** The growable array of element records. */
module ElemPosTree {
  // Segments of 65536 cells, of which only the last is partly used.

  import opened ElemForest

  const SEG_SIZE := 65536

  /** How many segments n cells take. */
  function SegsFor(n: nat): nat { if n == 0 then 0 else (n - 1) / SEG_SIZE + 1 }

  /** The length of segment s when there are n cells: all but the last are full. */
  function SegLength(n: nat, s: nat): nat
    requires s < SegsFor(n)
  {
    if s + 1 < SegsFor(n) then SEG_SIZE else n - s * SEG_SIZE
  }

  lemma IndexInSegment(n: nat, i: nat)
    requires i < n
    ensures i / SEG_SIZE < SegsFor(n) && i % SEG_SIZE < SegLength(n, i / SEG_SIZE)
    ensures i / SEG_SIZE * SEG_SIZE + i % SEG_SIZE == i
  {
  }

  /** Segment counts and lengths before and after growth to n cells, the last in segment s. */
  lemma GrowthFits(size: nat, s0: nat, n: nat, s: nat)
    requires size < n && s0 == (if size != 0 then size - 1 else 0) / SEG_SIZE && s == (n - 1) / SEG_SIZE <= s0 + 1
    ensures SegsFor(n) == s + 1 && SegsFor(size) == (if size == 0 then 0 else s0 + 1) && s0 * SEG_SIZE <= size &&
      s * SEG_SIZE < n
    ensures SegLength(n, s) == n - s * SEG_SIZE <= SEG_SIZE && (s != s0 ==> SegLength(n, s0) == SEG_SIZE)
    ensures size != 0 ==>
      SegLength(size, s0) == size - s0 * SEG_SIZE && (s == s0 ==> size - s0 * SEG_SIZE < n - s * SEG_SIZE)
    ensures size - s0 * SEG_SIZE <= SEG_SIZE
    ensures forall k: nat :: k < s0 && size != 0 ==> SegLength(n, k) == SegLength(size, k) == SEG_SIZE
  {
  }

  class Tree {
    var segs: seq<array?<ElemPos>>
    var size: nat

    ghost predicate Valid()
      reads this
    {
      SegsFor(size) <= |segs| && forall s :: 0 <= s < SegsFor(size) ==>
        segs[s] != null && segs[s].Length == SegLength(size, s)
    }

    /** The cell of index i, found by shift and mask. */
    function At(i: nat): ElemPos
      requires Valid() && i < size
      reads this, if i / SEG_SIZE < |segs| && segs[i / SEG_SIZE] != null then {segs[i / SEG_SIZE]} else {}
    {
      IndexInSegment(size, i);
      segs[i / SEG_SIZE][i % SEG_SIZE]
    }

    constructor ()
      ensures Valid() && size == 0
    {
      segs, size := [], 0;
    }

    /** A segment of n cells that begins with the first m cells of old. */
    method CopySegment(old_: array?<ElemPos>, m: nat, n: nat) returns (r: array<ElemPos>)
      requires m <= n && (m > 0 ==> old_ != null && m <= old_.Length)
      ensures fresh(r) && r.Length == n && forall i :: 0 <= i < m ==> r[i] == old_[i]
    {
      r := new ElemPos[n];
      for i := 0 to m
        invariant forall j :: 0 <= j < i ==> r[j] == old_[j]
      {
        r[i] := old_[i];
      }
    }

    /** Room for the segments up to nNewSeg; the pointers in use stay. */
    method GrowSegments(nNewSeg: nat)
      requires Valid()
      modifies this`segs
      ensures Valid() && nNewSeg < |segs|
      ensures forall s :: 0 <= s < SegsFor(size) ==> segs[s] == old(segs)[s]
    {
      if |segs| <= nNewSeg {
        var nNewSegments := 4 + nNewSeg * 2;
        segs := segs[..SegsFor(size)] + seq(nNewSegments - SegsFor(size), _ => null);
      }
    }

    /**
      Grow to the new size, but by no more than one segment beyond the current one. The last segment
      in use is the only one that may be replaced.
     */
    method GrowElemPosTree(nNewSize0: nat)
      requires Valid() && nNewSize0 > size
      modifies this
      ensures Valid() && old(size) < size <= nNewSize0
      ensures size == nNewSize0 ||
        (size % SEG_SIZE == 0 && size / SEG_SIZE == (if old(size) == 0 then 0 else (old(size) - 1) / SEG_SIZE) + 2)
      ensures forall i: nat :: i < old(size) ==> At(i) == old(At(i))
      ensures forall s :: 0 <= s < SegsFor(old(size)) - 1 ==> segs[s] == old(segs)[s]
    {
      var nNewSize := nNewSize0;
      var nSeg := (if size != 0 then size - 1 else 0) / SEG_SIZE;
      var nNewSeg := (nNewSize - 1) / SEG_SIZE;
      if nNewSeg > nSeg + 1 {
        nNewSeg := nSeg + 1;
        nNewSize := (nNewSeg + 1) * SEG_SIZE;
      }
      GrowthFits(size, nSeg, nNewSize, nNewSeg);
      hide SegsFor, SegLength;
      GrowSegments(nNewSeg);
      var nSegSize := size - nSeg * SEG_SIZE;
      var nNewSegSize := nNewSize - nNewSeg * SEG_SIZE;
      if nSeg < nNewSeg && nSegSize < SEG_SIZE {
        var pNewFirstSeg := CopySegment(segs[nSeg], nSegSize, SEG_SIZE);
        segs := segs[nSeg := pNewFirstSeg];
      }
      var pNewSeg := CopySegment(segs[nNewSeg], if nNewSeg == nSeg then nSegSize else 0, nNewSegSize);
      segs := segs[nNewSeg := pNewSeg];
      size := nNewSize;
    }

    /** Make room for a number of cells, by default half as many again as are used. */
    method AllocElemPos(iPosFree: nat, nNewSize0: nat)
      requires Valid()
      modifies this
      ensures Valid() && size >= old(size) && forall i: nat :: i < old(size) ==> At(i) == old(At(i))
      ensures if nNewSize0 != 0 then nNewSize0 > old(size) ==> size > old(size)
              else iPosFree + iPosFree / 2 > old(size) ==> size > old(size)
    {
      var nNewSize := nNewSize0;
      if nNewSize == 0 {
        nNewSize := iPosFree + iPosFree / 2;
      }
      if size < nNewSize {
        GrowElemPosTree(nNewSize);
      }
    }

    /** The next free index: its cell exists, and no cell in use has changed. */
    method GetFreePos(iPosFree: nat) returns (iPos: nat)
      requires Valid() && iPosFree <= size && GrowsBy(size)
      modifies this
      ensures Valid() && iPos == iPosFree < size && size >= old(size)
      ensures forall i: nat :: i < old(size) ==> At(i) == old(At(i))
    {
      if iPosFree == size {
        AllocElemPos(iPosFree, 0);
      }
      iPos := iPosFree;
    }
  }

  /** Growing by half makes a difference. */
  predicate GrowsBy(n: nat) { n + n / 2 > n }

  /** With fewer than two cells it does not: the free position would have no cell. */
  lemma GrowsFromTwo(n: nat)
    ensures GrowsBy(n) <==> n >= 2
  {
  }
}
