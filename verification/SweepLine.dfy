/** The segment tree of the sweep-line program. */
module SweepLine {
  // Permanent cover counts are kept in one array with heap numbering, driven by the sorted
  // horizontal edges of the rectangles.

  datatype Rect = Rect(x1: int, y1: int, x2: int, y2: int)

  /** A horizontal edge: val is 1 for a bottom edge and -1 for a top edge. */
  datatype Segment = Segment(l: int, r: int, h: int, val: int)

  datatype SegNode = SegNode(l: int, r: int, sum: int, len: int)

  /** The x-range of a node's parent; the root has none. */
  datatype Parent = NoParent | Range(l: nat, r: nat)

  // ---------------------------------------------------------------- geometry

  ghost predicate Increasing(xs: seq<int>) {
    forall i, j :: 1 <= i < j < |xs| ==> xs[i] < xs[j]
  }

  /** [l..r] names elementary intervals; xs is used from index 1. */
  ghost predicate InRange(xs: seq<int>, l: int, r: int) {
    1 <= l <= r && r + 1 < |xs|
  }

  predicate Full(xs: seq<int>, L: int, R: int, l: nat, r: nat)
    requires l < |xs| && r + 1 < |xs|
  {
    L <= xs[l] && xs[r + 1] <= R
  }

  predicate Pruned(xs: seq<int>, L: int, R: int, l: nat, r: nat)
    requires l < |xs| && r + 1 < |xs|
  {
    xs[r + 1] <= L || R <= xs[l]
  }

  ghost predicate FullIn(xs: seq<int>, L: int, R: int, p: Parent) {
    p.Range? && p.l < |xs| && p.r + 1 < |xs| && Full(xs, L, R, p.l, p.r)
  }

  /** An edge is charged to the highest nodes that it covers entirely. */
  ghost predicate Hit(xs: seq<int>, L: int, R: int, l: nat, r: nat, p: Parent)
    requires l < |xs| && r + 1 < |xs|
  {
    Full(xs, L, R, l, r) && !FullIn(xs, L, R, p)
  }

  ghost predicate Within(xs: seq<int>, l: nat, r: nat, p: Parent) {
    p.Range? ==> 1 <= p.l <= l <= r <= p.r && p.r + 1 < |xs|
  }

  /** Net charge of a list of edges on one node. */
  ghost function SumHit(xs: seq<int>, evs: seq<Segment>, l: nat, r: nat, p: Parent): int
    requires l < |xs| && r + 1 < |xs|
  {
    if evs == [] then 0
    else
      var e := evs[|evs| - 1];
      SumHit(xs, evs[..|evs| - 1], l, r, p) + if Hit(xs, e.l, e.r, l, r, p) then e.val else 0
  }

  // ---------------------------------------------------------- heap numbering

  /** How a range is split into halves, down to single elementary intervals. */
  datatype Shape = Leaf | Fork(mid: nat, left: Shape, right: Shape)

  ghost function Halves(l: nat, r: nat): Shape
    requires l <= r
    decreases r - l
  {
    if l == r then Leaf
    else var mid := (l + r) / 2; Fork(mid, Halves(l, mid), Halves(mid + 1, r))
  }

  /** j is a cell of the subtree rooted at cell k. */
  ghost predicate InSub(j: nat, k: nat)
    decreases j
  {
    j == k || (j > k && InSub(j / 2, k))
  }

  lemma {:induction false} SubOfChild(j: nat, k: nat)
    requires 1 <= k
    ensures InSub(j, k) <==> j == k || InSub(j, 2 * k) || InSub(j, 2 * k + 1)
    ensures !(InSub(j, 2 * k) && InSub(j, 2 * k + 1))
    ensures !InSub(k, 2 * k) && !InSub(k, 2 * k + 1)
    decreases j
  {
    if j > k {
      SubOfChild(j / 2, k);
    }
  }

  /** Every cell that building and updating [l..r] at k can touch lies below size. */
  ghost predicate Fits(k: nat, l: int, r: int, size: nat)
    decreases r - l
  {
    2 * k + 1 < size &&
    (l < r ==>
       var mid := (l + r) / 2;
       Fits(2 * k, l, mid, size) && Fits(2 * k + 1, mid + 1, r, size))
  }

  function Pow2(d: nat): nat { if d == 0 then 1 else 2 * Pow2(d - 1) }

  /** A tree over at most 2^d elementary intervals needs at most (k+1) 2^(d+1) cells. */
  lemma {:induction false} FitsPow2(k: nat, l: int, r: int, d: nat, size: nat)
    requires 1 <= k && l <= r && r - l + 1 <= Pow2(d)
    requires (k + 1) * Pow2(d + 1) <= size
    ensures Fits(k, l, r, size)
    decreases d
  {
    assert Pow2(d + 1) == 2 * Pow2(d);
    if d == 0 {
      assert Pow2(1) == 2;
      assert (k + 1) * 2 == (k + 1) * Pow2(d + 1);
    } else {
      assert Pow2(d) == 2 * Pow2(d - 1);
      assert (2 * k + 1 + 1) * Pow2(d) == (k + 1) * Pow2(d + 1);
      assert Pow2(d) >= 2 by { Pow2Positive(d - 1); }
      assert (2 * k + 1) * Pow2(d) <= (2 * k + 2) * Pow2(d);
      var mid := (l + r) / 2;
      if l < r {
        FitsPow2(2 * k, l, mid, d - 1, size);
        FitsPow2(2 * k + 1, mid + 1, r, d - 1, size);
      }
      assert 2 * k + 2 <= (k + 1) * Pow2(d + 1) by {
        assert (k + 1) * Pow2(d + 1) >= (k + 1) * 2;
      }
    }
  }

  lemma {:induction false} Pow2Positive(d: nat)
    ensures Pow2(d) >= 1
  {
    if d > 0 { Pow2Positive(d - 1); }
  }

  /** One interval more needs two cells more on the level below, at the left end. */
  lemma {:induction false} FitsOneMore(k: nat, l: int, r: int, d: nat, size: nat)
    requires 1 <= k && l <= r && r - l + 1 <= Pow2(d) + 1
    requires (k + 1) * Pow2(d + 1) <= size && k * Pow2(d + 2) + 3 < size
    ensures Fits(k, l, r, size)
    decreases d
  {
    var mid := (l + r) / 2;
    if d == 0 {
      assert Pow2(2) == 4 && Pow2(1) == 2;
      if l < r { assert mid == l && r == l + 1; }
    } else {
      Doubled(k, d);
      Pow2Positive(d - 1);
      if l < r {
        FitsOneMore(2 * k, l, mid, d - 1, size);
        FitsPow2(2 * k + 1, mid + 1, r, d - 1, size);
      }
    }
  }

  /** What the children of k need in terms of what k needs. */
  lemma Doubled(k: nat, d: nat)
    requires d > 0
    ensures Pow2(d) == 2 * Pow2(d - 1) && Pow2(d + 1) == 4 * Pow2(d - 1)
    ensures (2 * k + 1) * Pow2(d) <= (k + 1) * Pow2(d + 1) == (2 * k + 1 + 1) * Pow2(d)
    ensures 2 * k * Pow2(d + 1) == k * Pow2(d + 2) && 2 * k + 1 < k * Pow2(d + 2) + 3
  {
    Pow2Positive(d - 1);
    assert Pow2(d) == 2 * Pow2(d - 1);
    assert Pow2(d + 1) == 2 * Pow2(d);
    assert Pow2(d + 2) == 2 * Pow2(d + 1);
    hide Pow2;
    Multiples(k, Pow2(d - 1));
  }

  lemma Multiples(k: nat, a: nat)
    requires a >= 1
    ensures (2 * k + 1) * (2 * a) <= (k + 1) * (4 * a) == (2 * k + 1 + 1) * (2 * a)
    ensures 2 * k * (4 * a) == k * (8 * a) && 2 * k + 1 < k * (8 * a) + 3
  {
    var x := k * a;
    assert k <= x;
    assert (2 * k + 1) * (2 * a) == 4 * x + 2 * a;
    assert (k + 1) * (4 * a) == 4 * x + 4 * a;
    assert k * (8 * a) == 8 * x;
  }

  /** The cells at the left end of a level are reached if there is one interval too many. */
  lemma {:induction false} LeftEndFails(k: nat, l: int, r: int, d: nat, size: nat)
    requires 1 <= k && r - l + 1 >= Pow2(d) + 1 && size <= k * Pow2(d + 2) + 1
    ensures !Fits(k, l, r, size)
    decreases d
  {
    Pow2Positive(d);
    var mid := (l + r) / 2;
    if d == 0 {
      assert Pow2(2) == 4;
    } else {
      Doubled(k, d);
      LeftEndFails(2 * k, l, mid, d - 1, size);
    }
  }

  lemma Pow2Values()
    ensures Pow2(16) == 65536 && Pow2(17) == 131072 && Pow2(18) == 262144
  {
    assert Pow2(5) == 32;
    assert Pow2(10) == 1024;
    assert Pow2(15) == 32768;
  }

  lemma HalvesFit(k: nat, l: int, r: int, size: nat)
    requires 2 * k + 1 < size && l < r && Fits(2 * k, l, (l + r) / 2, size) && Fits(2 * k + 1, (l + r) / 2 + 1, r, size)
    ensures Fits(k, l, r, size)
  {
  }

  lemma FourParts(m: nat, mid: nat, q: nat, t: nat, size: nat)
    requires 4 <= m && mid == (1 + m) / 2 && q == (1 + mid) / 2 && t == (mid + 1 + m) / 2 && size > 7
    requires Fits(4, 1, q, size) && Fits(5, q + 1, mid, size) && Fits(6, mid + 1, t, size) && Fits(7, t + 1, m, size)
    ensures Fits(1, 1, m, size)
  {
    hide Fits;
    HalvesFit(2, 1, mid, size);
    HalvesFit(3, mid + 1, m, size);
    HalvesFit(1, 1, m, size);
  }

  lemma QuartersFit(m: nat)
    requires 4 <= m <= 262147
    ensures Fits(1, 1, m, 1600010)
  {
    hide Fits, Pow2;
    Pow2Values();
    var mid := (1 + m) / 2;
    var q, t := (1 + mid) / 2, (mid + 1 + m) / 2;
    FitsOneMore(4, 1, q, 16, 1600010);
    FitsOneMore(5, q + 1, mid, 16, 1600010);
    FitsOneMore(6, mid + 1, t, 16, 1600010);
    FitsPow2(7, t + 1, m, 16, 1600010);
    FourParts(m, mid, q, t, 1600010);
  }

  lemma LastQuarterFails(m: nat)
    requires m > 262147
    ensures !Fits(1, 1, m, 1600010)
  {
    hide Pow2;
    Pow2Values();
    var mid := (1 + m) / 2;
    var t := (mid + 1 + m) / 2;
    LeftEndFails(7, t + 1, m, 16, 1600010);
    assert !Fits(3, mid + 1, m, 1600010);
  }

  /** The array declared in the program is large enough for exactly 2^18 + 3 elementary intervals. */
  lemma DeclaredTreeFits(m: nat)
    requires 1 <= m
    ensures Fits(1, 1, m, 1600010) <==> m <= 262147
  {
    if m > 262147 {
      LastQuarterFails(m);
    } else if m >= 4 {
      QuartersFit(m);
    } else {
      FitsPow2(1, 1, m, 2, 1600010);
    }
  }

  // -------------------------------------------------------- the tree invariant

  /**
    Cell k stands for elementary intervals l..r, its cover count is the net charge of
    the edges seen so far, and its length is its full width when the count is non-zero
    and otherwise what its children cover.
   */
  ghost predicate Rep(t: seq<SegNode>, xs: seq<int>, sh: Shape, k: nat, l: nat, r: nat, p: Parent, evs: seq<Segment>)
    requires InRange(xs, l, r)
    decreases sh
  {
    NodeOk(t, xs, k, l, r, p, evs) &&
    match sh
    case Leaf => l == r && t[2 * k].len == 0 && t[2 * k + 1].len == 0
    case Fork(mid, a, b) =>
      l <= mid < r &&
      Rep(t, xs, a, 2 * k, l, mid, Range(l, r), evs) &&
      Rep(t, xs, b, 2 * k + 1, mid + 1, r, Range(l, r), evs)
  }

  ghost predicate NodeOk(t: seq<SegNode>, xs: seq<int>, k: nat, l: nat, r: nat, p: Parent, evs: seq<Segment>)
    requires InRange(xs, l, r)
  {
    1 <= k && 2 * k + 1 < |t| &&
    t[k].l == l && t[k].r == r &&
    t[k].sum == SumHit(xs, evs, l, r, p) &&
    t[k].len == if t[k].sum != 0 then xs[r + 1] - xs[l] else t[2 * k].len + t[2 * k + 1].len
  }

  /** t and t' differ at most in the cells of the subtree at k. */
  ghost predicate Same(t: seq<SegNode>, t': seq<SegNode>, k: nat) {
    |t| == |t'| && forall j :: 0 <= j < |t| && !InSub(j, k) ==> t[j] == t'[j]
  }

  /** t and t' differ at most in cell k. */
  ghost predicate SameBut(t: seq<SegNode>, t': seq<SegNode>, k: nat) {
    |t| == |t'| && forall j :: 0 <= j < |t| && j != k ==> t[j] == t'[j]
  }

  lemma SameUp(t: seq<SegNode>, t': seq<SegNode>, k: nat, c: nat)
    requires 1 <= k && (c == 2 * k || c == 2 * k + 1) && Same(t, t', c)
    ensures Same(t, t', k)
    ensures k < |t| ==> t[k] == t'[k]
  {
    forall j: nat | !InSub(j, k) ensures !InSub(j, c) { SubOfChild(j, k); }
    SubOfChild(k, k);
  }

  lemma SameCell(t0: seq<SegNode>, t: seq<SegNode>, t': seq<SegNode>, k: nat)
    requires Same(t0, t, k) && SameBut(t, t', k)
    ensures Same(t0, t', k)
  {
    assert InSub(k, k);
  }

  lemma {:induction false} RepFrame(t: seq<SegNode>, t': seq<SegNode>, xs: seq<int>, sh: Shape,
                                    k: nat, l: nat, r: nat, p: Parent, evs: seq<Segment>)
    requires InRange(xs, l, r) && Rep(t, xs, sh, k, l, r, p, evs)
    requires |t| == |t'| && forall j :: 0 <= j < |t| && InSub(j, k) ==> t[j] == t'[j]
    ensures Rep(t', xs, sh, k, l, r, p, evs)
    decreases sh
  {
    assert InSub(k, k) && InSub(2 * k, k) && InSub(2 * k + 1, k);
    if sh.Fork? {
      forall j: nat | InSub(j, 2 * k) ensures InSub(j, k) { SubOfChild(j, k); }
      forall j: nat | InSub(j, 2 * k + 1) ensures InSub(j, k) { SubOfChild(j, k); }
      RepFrame(t, t', xs, sh.left, 2 * k, l, sh.mid, Range(l, r), evs);
      RepFrame(t, t', xs, sh.right, 2 * k + 1, sh.mid + 1, r, Range(l, r), evs);
    }
  }

  /** A change confined to one child's subtree leaves the other child's alone. */
  lemma RepSibling(t: seq<SegNode>, t': seq<SegNode>, xs: seq<int>, sh: Shape, k: nat, c: nat, d: nat,
                   l: nat, r: nat, p: Parent, evs: seq<Segment>)
    requires InRange(xs, l, r) && 1 <= k
    requires (c == 2 * k && d == 2 * k + 1) || (d == 2 * k && c == 2 * k + 1)
    requires Same(t, t', c) && Rep(t, xs, sh, d, l, r, p, evs)
    ensures Rep(t', xs, sh, d, l, r, p, evs)
  {
    forall j: nat | InSub(j, d) ensures !InSub(j, c) { SubOfChild(j, k); }
    RepFrame(t, t', xs, sh, d, l, r, p, evs);
  }

  /** A change to one cell leaves the subtrees of its children alone. */
  lemma RepBelow(t: seq<SegNode>, t': seq<SegNode>, xs: seq<int>, sh: Shape, k: nat, c: nat,
                 l: nat, r: nat, p: Parent, evs: seq<Segment>)
    requires InRange(xs, l, r) && 1 <= k && (c == 2 * k || c == 2 * k + 1)
    requires SameBut(t, t', k)
    requires Rep(t, xs, sh, c, l, r, p, evs)
    ensures Rep(t', xs, sh, c, l, r, p, evs)
  {
    SubOfChild(k, k);
    RepFrame(t, t', xs, sh, c, l, r, p, evs);
  }

  /** An edge that covers the parent, or misses the node, leaves the subtree as it is. */
  lemma {:induction false} RepInert(t: seq<SegNode>, xs: seq<int>, sh: Shape, k: nat, l: nat, r: nat,
                                    p: Parent, evs: seq<Segment>, ev: Segment)
    requires InRange(xs, l, r) && Increasing(xs) && Rep(t, xs, sh, k, l, r, p, evs)
    requires Within(xs, l, r, p)
    requires FullIn(xs, ev.l, ev.r, p) || Pruned(xs, ev.l, ev.r, l, r)
    ensures Rep(t, xs, sh, k, l, r, p, evs + [ev])
    decreases sh
  {
    assert (evs + [ev])[..|evs + [ev]| - 1] == evs;
    assert xs[l] < xs[r + 1];
    assert !Hit(xs, ev.l, ev.r, l, r, p);
    if sh.Fork? {
      var mid := sh.mid;
      assert xs[l] < xs[mid + 1] < xs[r + 1];
      if p.Range? {
        assert p.l == l || xs[p.l] < xs[l];
        assert p.r == r || xs[r + 1] < xs[p.r + 1];
      }
      RepInert(t, xs, sh.left, 2 * k, l, mid, Range(l, r), evs, ev);
      RepInert(t, xs, sh.right, 2 * k + 1, mid + 1, r, Range(l, r), evs, ev);
    }
  }

  /** Recomputing a node's length from correct children restores the invariant at the node. */
  lemma RepJoin(t: seq<SegNode>, t': seq<SegNode>, xs: seq<int>, sh: Shape, k: nat,
                l: nat, r: nat, p: Parent, evs: seq<Segment>)
    requires InRange(xs, l, r) && SameBut(t, t', k) && NodeOk(t', xs, k, l, r, p, evs)
    requires sh.Leaf? ==> l == r && t[2 * k].len == 0 && t[2 * k + 1].len == 0
    requires sh.Fork? ==> l <= sh.mid < r
    requires sh.Fork? ==> Rep(t, xs, sh.left, 2 * k, l, sh.mid, Range(l, r), evs)
    requires sh.Fork? ==> Rep(t, xs, sh.right, 2 * k + 1, sh.mid + 1, r, Range(l, r), evs)
    ensures Rep(t', xs, sh, k, l, r, p, evs)
  {
    if sh.Fork? {
      RepBelow(t, t', xs, sh.left, k, 2 * k, l, sh.mid, Range(l, r), evs);
      RepBelow(t, t', xs, sh.right, k, 2 * k + 1, sh.mid + 1, r, Range(l, r), evs);
    }
  }

  /** The endpoints of an edge are among the coordinates. */
  ghost predicate Known(xs: seq<int>, L: int, R: int) {
    (exists a :: 1 <= a < |xs| && xs[a] == L) && (exists b :: 1 <= b < |xs| && xs[b] == R)
  }

  /** No coordinate lies strictly inside an elementary interval. */
  lemma LeafNotPartial(xs: seq<int>, L: int, R: int, l: nat)
    requires InRange(xs, l, l) && Increasing(xs) && Known(xs, L, R)
    requires !Pruned(xs, L, R, l, l)
    ensures Full(xs, L, R, l, l)
  {
    var a :| 1 <= a < |xs| && xs[a] == L;
    var b :| 1 <= b < |xs| && xs[b] == R;
    assert a <= l;
    assert l + 1 <= b;
  }

  // ---------------------------------------------------------------- the program

  method Build(tree: array<SegNode>, xs: seq<int>, k: nat, l: nat, r: nat, ghost p: Parent)
    requires InRange(xs, l, r) && 1 <= k && Fits(k, l, r, tree.Length)
    requires forall j :: 0 <= j < tree.Length ==> tree[j].len == 0
    modifies tree
    ensures Rep(tree[..], xs, Halves(l, r), k, l, r, p, [])
    ensures Same(old(tree[..]), tree[..], k)
    ensures forall j :: 0 <= j < tree.Length ==> tree[j].len == 0
    decreases r - l
  {
    ghost var t0 := tree[..];
    tree[k] := SegNode(l, r, 0, 0);
    ghost var t1 := tree[..];
    assert Same(t0, t1, k) by { assert InSub(k, k); }
    if l == r {
      return;
    }
    var mid := (l + r) / 2;
    Build(tree, xs, 2 * k, l, mid, Range(l, r));
    ghost var t2 := tree[..];
    SameUp(t1, t2, k, 2 * k);
    Build(tree, xs, 2 * k + 1, mid + 1, r, Range(l, r));
    SameUp(t2, tree[..], k, 2 * k + 1);
    RepSibling(t2, tree[..], xs, Halves(l, mid), k, 2 * k + 1, 2 * k, l, mid, Range(l, r), []);
  }

  method PushUp(tree: array<SegNode>, xs: seq<int>, k: nat)
    requires 2 * k + 1 < tree.Length && 1 <= k
    requires 0 <= tree[k].l < |xs| && 0 <= tree[k].r + 1 < |xs|
    modifies tree
    ensures tree[k] == old(tree[k]).(len := if old(tree[k].sum) != 0
                                            then xs[old(tree[k].r) + 1] - xs[old(tree[k].l)]
                                            else old(tree[2 * k].len) + old(tree[2 * k + 1].len))
    ensures SameBut(old(tree[..]), tree[..], k)
  {
    var l, r := tree[k].l, tree[k].r;
    if tree[k].sum != 0 {
      tree[k] := tree[k].(len := xs[r + 1] - xs[l]);
    } else {
      tree[k] := tree[k].(len := tree[2 * k].len + tree[2 * k + 1].len);
    }
  }

  method Update(tree: array<SegNode>, xs: seq<int>, k: nat, ev: Segment,
                ghost sh: Shape, ghost l: nat, ghost r: nat, ghost p: Parent, ghost evs: seq<Segment>)
    requires InRange(xs, l, r) && Increasing(xs) && Within(xs, l, r, p)
    requires Rep(tree[..], xs, sh, k, l, r, p, evs)
    requires Known(xs, ev.l, ev.r) && !FullIn(xs, ev.l, ev.r, p)
    modifies tree
    ensures Rep(tree[..], xs, sh, k, l, r, p, evs + [ev])
    ensures Same(old(tree[..]), tree[..], k)
    decreases sh
  {
    hide Rep, Same, SumHit;
    ghost var t0 := tree[..];
    RepParts(t0, xs, sh, k, l, r, p, evs);
    var nl, nr := tree[k].l, tree[k].r;
    if Pruned(xs, ev.l, ev.r, nl, nr) {
      RepInert(t0, xs, sh, k, l, r, p, evs, ev);
      SameSelf(t0, k);
      return;
    }
    if Full(xs, ev.l, ev.r, nl, nr) {
      tree[k] := tree[k].(sum := tree[k].sum + ev.val);
      PushUp(tree, xs, k);
      RepAfterFull(t0, tree[..], xs, sh, k, ev, l, r, p, evs);
      return;
    }
    if sh.Leaf? { LeafNotPartial(xs, ev.l, ev.r, l); }
    Update(tree, xs, 2 * k, ev, sh.left, l, sh.mid, Range(l, r), evs);
    ghost var t1 := tree[..];
    RepSibling(t0, t1, xs, sh.right, k, 2 * k, 2 * k + 1, sh.mid + 1, r, Range(l, r), evs);
    Update(tree, xs, 2 * k + 1, ev, sh.right, sh.mid + 1, r, Range(l, r), evs);
    ghost var t2 := tree[..];
    RepAfterSplit(t0, t1, t2, xs, sh, k, ev, l, r, p, evs);
    PushUp(tree, xs, k);
    RepJoin(t2, tree[..], xs, sh, k, l, r, p, evs + [ev]);
    SameCell(t0, t2, tree[..], k);
  }

  lemma SameSelf(t: seq<SegNode>, k: nat)
    ensures Same(t, t, k)
  {
  }

  lemma RepParts(t: seq<SegNode>, xs: seq<int>, sh: Shape, k: nat, l: nat, r: nat, p: Parent, evs: seq<Segment>)
    requires InRange(xs, l, r) && Rep(t, xs, sh, k, l, r, p, evs)
    ensures NodeOk(t, xs, k, l, r, p, evs)
    ensures sh.Leaf? ==> l == r && t[2 * k].len == 0 && t[2 * k + 1].len == 0
    ensures sh.Fork? ==> l <= sh.mid < r && Rep(t, xs, sh.left, 2 * k, l, sh.mid, Range(l, r), evs)
    ensures sh.Fork? ==> Rep(t, xs, sh.right, 2 * k + 1, sh.mid + 1, r, Range(l, r), evs)
  {
  }

  lemma SumHitAppend(xs: seq<int>, evs: seq<Segment>, ev: Segment, l: nat, r: nat, p: Parent)
    requires l < |xs| && r + 1 < |xs|
    ensures SumHit(xs, evs + [ev], l, r, p)
         == SumHit(xs, evs, l, r, p) + if Hit(xs, ev.l, ev.r, l, r, p) then ev.val else 0
  {
    assert (evs + [ev])[..|evs + [ev]| - 1] == evs;
  }

  lemma RepAfterFull(t: seq<SegNode>, t': seq<SegNode>, xs: seq<int>, sh: Shape, k: nat, ev: Segment,
                     l: nat, r: nat, p: Parent, evs: seq<Segment>)
    requires InRange(xs, l, r) && Increasing(xs) && Rep(t, xs, sh, k, l, r, p, evs)
    requires Full(xs, ev.l, ev.r, l, r) && !FullIn(xs, ev.l, ev.r, p)
    requires SameBut(t, t', k)
    requires t'[k].l == l && t'[k].r == r && t'[k].sum == t[k].sum + ev.val
    requires t'[k].len == if t'[k].sum != 0 then xs[r + 1] - xs[l] else t[2 * k].len + t[2 * k + 1].len
    ensures Rep(t', xs, sh, k, l, r, p, evs + [ev]) && Same(t, t', k)
  {
    SumHitAppend(xs, evs, ev, l, r, p);
    if sh.Fork? {
      RepInert(t, xs, sh.left, 2 * k, l, sh.mid, Range(l, r), evs, ev);
      RepInert(t, xs, sh.right, 2 * k + 1, sh.mid + 1, r, Range(l, r), evs, ev);
    }
    RepJoin(t, t', xs, sh, k, l, r, p, evs + [ev]);
    SameCell(t, t, t', k);
  }

  lemma RepAfterSplit(t0: seq<SegNode>, t1: seq<SegNode>, t2: seq<SegNode>, xs: seq<int>, sh: Shape, k: nat,
                      ev: Segment, l: nat, r: nat, p: Parent, evs: seq<Segment>)
    requires InRange(xs, l, r) && sh.Fork? && Rep(t0, xs, sh, k, l, r, p, evs)
    requires !Full(xs, ev.l, ev.r, l, r)
    requires Same(t0, t1, 2 * k) && Same(t1, t2, 2 * k + 1)
    requires Rep(t1, xs, sh.left, 2 * k, l, sh.mid, Range(l, r), evs + [ev])
    ensures t2[k] == t0[k] && t2[k].sum == SumHit(xs, evs + [ev], l, r, p) && Same(t0, t2, k)
    ensures Rep(t2, xs, sh.left, 2 * k, l, sh.mid, Range(l, r), evs + [ev])
  {
    SumHitAppend(xs, evs, ev, l, r, p);
    SameUp(t0, t1, k, 2 * k);
    SameUp(t1, t2, k, 2 * k + 1);
    RepSibling(t1, t2, xs, sh.left, k, 2 * k + 1, 2 * k, l, sh.mid, Range(l, r), evs + [ev]);
  }
}
