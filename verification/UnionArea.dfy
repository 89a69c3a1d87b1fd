/** What the sweep computes: the cells covered. */
module UnionArea {
  import opened SweepLine

  /** The unit cells of the plane covered by at least one rectangle. */
  ghost function Cells(rects: seq<Rect>): set<(int, int)> {
    set q, x, y | q in rects && q.x1 <= x < q.x2 && q.y1 <= y < q.y2 :: (x, y)
  }

  ghost function CellsBelow(rects: seq<Rect>, h: int): set<(int, int)> {
    set c | c in Cells(rects) && c.1 < h
  }

  /** The abscissas at which a rectangle begins or ends. */
  ghost function Abscissas(rects: seq<Rect>): set<int> {
    (set q | q in rects :: q.x1) + (set q | q in rects :: q.x2)
  }

  ghost predicate Upright(rects: seq<Rect>) {
    forall q :: q in rects ==> q.x1 <= q.x2 && q.y1 <= q.y2
  }

  ghost predicate Active(q: Rect, h: int) { q.y1 <= h < q.y2 }

  ghost function Span(a: int, b: int): (s: set<int>)
    ensures forall x :: x in s <==> a <= x < b
    decreases b - a
  {
    if a >= b then {} else Span(a, b - 1) + {b - 1}
  }

  lemma {:induction false} SpanSize(a: int, b: int)
    requires a <= b
    ensures |Span(a, b)| == b - a
    decreases b - a
  {
    if a < b {
      SpanSize(a, b - 1);
    }
  }

  // ------------------------------------------------- what a tree node covers

  ghost function Covered(t: seq<SegNode>, xs: seq<int>, sh: Shape, k: nat, l: nat, r: nat): set<int>
    requires InRange(xs, l, r)
    decreases sh
  {
    if k < |t| && t[k].sum != 0 then Span(xs[l], xs[r + 1])
    else match sh
      case Leaf => {}
      case Fork(mid, a, b) =>
        if l <= mid < r then Covered(t, xs, a, 2 * k, l, mid) + Covered(t, xs, b, 2 * k + 1, mid + 1, r)
        else {}
  }

  ghost predicate Between(A: set<int>, a: int, b: int) {
    forall x :: x in A ==> a <= x < b
  }

  lemma AdjacentMeasure(A: set<int>, B: set<int>, a: int, b: int, c: int)
    requires a <= b <= c && Between(A, a, b) && Between(B, b, c)
    ensures |A + B| == |A| + |B| && Between(A + B, a, c)
  {
    forall x | x in A ensures x !in B { }
    DisjointUnionSize(A, B);
  }

  lemma DisjointUnionSize<T>(A: set<T>, B: set<T>)
    requires forall x :: x in A ==> x !in B
    ensures |A + B| == |A| + |B|
  {
    assert A !! B;
  }

  /** The length kept at a node is the measure of what its subtree covers. */
  lemma {:induction false} LenIsMeasure(t: seq<SegNode>, xs: seq<int>, sh: Shape, k: nat, l: nat, r: nat,
                                        p: Parent, evs: seq<Segment>)
    requires InRange(xs, l, r) && Increasing(xs) && Rep(t, xs, sh, k, l, r, p, evs)
    ensures |Covered(t, xs, sh, k, l, r)| == t[k].len
    ensures Between(Covered(t, xs, sh, k, l, r), xs[l], xs[r + 1])
    decreases sh
  {
    hide Rep, SumHit, Covered, Span;
    RepParts(t, xs, sh, k, l, r, p, evs);
    CoveredParts(t, xs, sh, k, l, r);
    assert xs[l] < xs[r + 1];
    if t[k].sum != 0 {
      SpanSize(xs[l], xs[r + 1]);
      SpanBetween(xs[l], xs[r + 1]);
    } else if sh.Fork? {
      assert xs[l] < xs[sh.mid + 1] < xs[r + 1];
      LenIsMeasure(t, xs, sh.left, 2 * k, l, sh.mid, Range(l, r), evs);
      LenIsMeasure(t, xs, sh.right, 2 * k + 1, sh.mid + 1, r, Range(l, r), evs);
      AdjacentMeasure(Covered(t, xs, sh.left, 2 * k, l, sh.mid),
                      Covered(t, xs, sh.right, 2 * k + 1, sh.mid + 1, r),
                      xs[l], xs[sh.mid + 1], xs[r + 1]);
    }
  }

  lemma CoveredParts(t: seq<SegNode>, xs: seq<int>, sh: Shape, k: nat, l: nat, r: nat)
    requires InRange(xs, l, r) && k < |t|
    ensures t[k].sum != 0 ==> Covered(t, xs, sh, k, l, r) == Span(xs[l], xs[r + 1])
    ensures t[k].sum == 0 && sh.Leaf? ==> Covered(t, xs, sh, k, l, r) == {}
    ensures t[k].sum == 0 && sh.Fork? && l <= sh.mid < r ==>
      Covered(t, xs, sh, k, l, r)
        == Covered(t, xs, sh.left, 2 * k, l, sh.mid) + Covered(t, xs, sh.right, 2 * k + 1, sh.mid + 1, r)
  {
  }

  lemma SpanBetween(a: int, b: int)
    ensures Between(Span(a, b), a, b)
  {
  }

  // -------------------------------------------- net charges count active rectangles

  ghost function Charge(xs: seq<int>, e: Segment, h: int, l: nat, r: nat, p: Parent): int
    requires l < |xs| && r + 1 < |xs|
  {
    if e.h <= h && Hit(xs, e.l, e.r, l, r, p) then e.val else 0
  }

  ghost function ChargeUpTo(xs: seq<int>, evs: seq<Segment>, h: int, l: nat, r: nat, p: Parent): int
    requires l < |xs| && r + 1 < |xs|
  {
    if evs == [] then 0
    else ChargeUpTo(xs, evs[..|evs| - 1], h, l, r, p) + Charge(xs, evs[|evs| - 1], h, l, r, p)
  }

  ghost function CountHit(xs: seq<int>, rects: seq<Rect>, h: int, l: nat, r: nat, p: Parent): nat
    requires l < |xs| && r + 1 < |xs|
  {
    if rects == [] then 0
    else
      var q := rects[|rects| - 1];
      CountHit(xs, rects[..|rects| - 1], h, l, r, p) +
      if Active(q, h) && Hit(xs, q.x1, q.x2, l, r, p) then 1 else 0
  }

  /** The edges in input order: bottom then top of each rectangle. */
  ghost function Edges(rects: seq<Rect>): seq<Segment> {
    if rects == [] then []
    else
      var q := rects[|rects| - 1];
      Edges(rects[..|rects| - 1]) + [Segment(q.x1, q.x2, q.y1, 1), Segment(q.x1, q.x2, q.y2, -1)]
  }

  lemma {:induction false} ChargeConcat(xs: seq<int>, a: seq<Segment>, b: seq<Segment>, h: int, l: nat, r: nat,
    p: Parent)
    requires l < |xs| && r + 1 < |xs|
    ensures ChargeUpTo(xs, a + b, h, l, r, p) == ChargeUpTo(xs, a, h, l, r, p) + ChargeUpTo(xs, b, h, l, r, p)
    decreases |b|
  {
    if b == [] {
      assert a + b == a;
    } else {
      assert (a + b)[..|a + b| - 1] == a + b[..|b| - 1];
      ChargeConcat(xs, a, b[..|b| - 1], h, l, r, p);
    }
  }

  /** The order of the edges does not matter. */
  lemma {:induction false} ChargePermutation(xs: seq<int>, a: seq<Segment>, b: seq<Segment>, h: int, l: nat, r: nat,
    p: Parent)
    requires l < |xs| && r + 1 < |xs| && multiset(a) == multiset(b)
    ensures ChargeUpTo(xs, a, h, l, r, p) == ChargeUpTo(xs, b, h, l, r, p)
    decreases |a|
  {
    if a == [] {
      assert |multiset(b)| == 0;
    } else {
      var e := a[|a| - 1];
      var j := IndexOf(a, b, e);
      var u, v := b[..j], b[j + 1..];
      RemoveOne(a, b, j);
      ChargePermutation(xs, a[..|a| - 1], u + v, h, l, r, p);
      ChargeConcat(xs, u + [e], v, h, l, r, p);
      ChargeConcat(xs, u, [e], h, l, r, p);
      ChargeConcat(xs, u, v, h, l, r, p);
      ChargeOne(xs, e, h, l, r, p);
    }
  }

  lemma ChargeOne(xs: seq<int>, e: Segment, h: int, l: nat, r: nat, p: Parent)
    requires l < |xs| && r + 1 < |xs|
    ensures ChargeUpTo(xs, [e], h, l, r, p) == Charge(xs, e, h, l, r, p)
  {
    assert [e][..|[e]| - 1] == [];
  }

  lemma IndexOf(a: seq<Segment>, b: seq<Segment>, e: Segment) returns (j: nat)
    requires multiset(a) == multiset(b) && e in a
    ensures j < |b| && b[j] == e
  {
    assert e in multiset(b);
    j :| 0 <= j < |b| && b[j] == e;
  }

  lemma RemoveOne(a: seq<Segment>, b: seq<Segment>, j: nat)
    requires a != [] && j < |b| && b[j] == a[|a| - 1] && multiset(a) == multiset(b)
    ensures b == b[..j] + [b[j]] + b[j + 1..]
    ensures multiset(a[..|a| - 1]) == multiset(b[..j] + b[j + 1..])
  {
    var e := b[j];
    assert a == a[..|a| - 1] + [e];
    assert b == b[..j] + [e] + b[j + 1..];
    assert multiset(a[..|a| - 1]) == multiset(a) - multiset{e};
    assert multiset(b[..j] + b[j + 1..]) == multiset(b) - multiset{e};
  }

  lemma {:induction false} EdgesCountActive(xs: seq<int>, rects: seq<Rect>, h: int, l: nat, r: nat, p: Parent)
    requires l < |xs| && r + 1 < |xs| && Upright(rects)
    ensures ChargeUpTo(xs, Edges(rects), h, l, r, p) == CountHit(xs, rects, h, l, r, p)
  {
    if rects != [] {
      var q := rects[|rects| - 1];
      var rest := rects[..|rects| - 1];
      EdgesCountActive(xs, rest, h, l, r, p);
      var two := [Segment(q.x1, q.x2, q.y1, 1), Segment(q.x1, q.x2, q.y2, -1)];
      ChargeConcat(xs, Edges(rest), two, h, l, r, p);
      assert two == [two[0]] + [two[1]];
      ChargeConcat(xs, [two[0]], [two[1]], h, l, r, p);
      ChargeOne(xs, two[0], h, l, r, p);
      ChargeOne(xs, two[1], h, l, r, p);
      assert q in rects;
    }
  }

  ghost predicate SortedByHeight(segs: seq<Segment>) {
    forall i, j :: 0 <= i < j < |segs| ==> segs[i].h <= segs[j].h
  }

  lemma {:induction false} ChargeAboveIsZero(xs: seq<int>, evs: seq<Segment>, h: int, l: nat, r: nat, p: Parent)
    requires l < |xs| && r + 1 < |xs| && forall e :: e in evs ==> e.h > h
    ensures ChargeUpTo(xs, evs, h, l, r, p) == 0
  {
    if evs != [] {
      assert evs[|evs| - 1] in evs;
      ChargeAboveIsZero(xs, evs[..|evs| - 1], h, l, r, p);
    }
  }

  lemma {:induction false} ChargeBelowIsSum(xs: seq<int>, evs: seq<Segment>, h: int, l: nat, r: nat, p: Parent)
    requires l < |xs| && r + 1 < |xs| && forall e :: e in evs ==> e.h <= h
    ensures ChargeUpTo(xs, evs, h, l, r, p) == SumHit(xs, evs, l, r, p)
  {
    if evs != [] {
      assert evs[|evs| - 1] in evs;
      ChargeBelowIsSum(xs, evs[..|evs| - 1], h, l, r, p);
    }
  }

  /** Between two heights, a node's cover count is the number of active rectangles charged to it. */
  lemma SumIsActiveCount(xs: seq<int>, rects: seq<Rect>, segs: seq<Segment>, i: nat, l: nat, r: nat, p: Parent)
    requires l < |xs| && r + 1 < |xs| && Upright(rects)
    requires SortedByHeight(segs) && multiset(segs) == multiset(Edges(rects))
    requires 1 <= i < |segs| && segs[i - 1].h < segs[i].h
    ensures SumHit(xs, segs[..i], l, r, p) == CountHit(xs, rects, segs[i - 1].h, l, r, p)
  {
    var h := segs[i - 1].h;
    assert segs == segs[..i] + segs[i..];
    ChargeConcat(xs, segs[..i], segs[i..], h, l, r, p);
    ChargeAboveIsZero(xs, segs[i..], h, l, r, p);
    ChargeBelowIsSum(xs, segs[..i], h, l, r, p);
    ChargePermutation(xs, segs, Edges(rects), h, l, r, p);
    EdgesCountActive(xs, rects, h, l, r, p);
  }

  lemma {:induction false} CountHitPositive(xs: seq<int>, rects: seq<Rect>, h: int, l: nat, r: nat, p: Parent, q: Rect)
    requires l < |xs| && r + 1 < |xs|
    requires q in rects && Active(q, h) && Hit(xs, q.x1, q.x2, l, r, p)
    ensures CountHit(xs, rects, h, l, r, p) > 0
  {
    if q != rects[|rects| - 1] {
      assert q in rects[..|rects| - 1];
      CountHitPositive(xs, rects[..|rects| - 1], h, l, r, p, q);
    }
  }

  lemma {:induction false} CountHitWitness(xs: seq<int>, rects: seq<Rect>, h: int, l: nat, r: nat,
    p: Parent)
    returns (q: Rect)
    requires l < |xs| && r + 1 < |xs|
    requires CountHit(xs, rects, h, l, r, p) > 0
    ensures q in rects && Active(q, h) && Hit(xs, q.x1, q.x2, l, r, p)
  {
    q := rects[|rects| - 1];
    if !(Active(q, h) && Hit(xs, q.x1, q.x2, l, r, p)) {
      q := CountHitWitness(xs, rects[..|rects| - 1], h, l, r, p);
    }
  }

  // ------------------------------------------ the root covers the active rectangles

  ghost predicate ActiveAt(rects: seq<Rect>, h: int, x: int) {
    exists q :: q in rects && Active(q, h) && q.x1 <= x < q.x2
  }

  ghost predicate AllKnown(xs: seq<int>, rects: seq<Rect>) {
    forall q :: q in rects ==> Known(xs, q.x1, q.x2)
  }

  lemma {:induction false} CoveredIsActive(t: seq<SegNode>, xs: seq<int>, sh: Shape, k: nat, l: nat, r: nat, p: Parent,
                                           rects: seq<Rect>, segs: seq<Segment>, i: nat, x: int)
    requires InRange(xs, l, r) && Increasing(xs) && Upright(rects)
    requires SortedByHeight(segs) && multiset(segs) == multiset(Edges(rects))
    requires 1 <= i < |segs| && segs[i - 1].h < segs[i].h
    requires Rep(t, xs, sh, k, l, r, p, segs[..i])
    requires x in Covered(t, xs, sh, k, l, r)
    ensures ActiveAt(rects, segs[i - 1].h, x)
    decreases sh
  {
    if t[k].sum != 0 {
      SumIsActiveCount(xs, rects, segs, i, l, r, p);
      var q := CountHitWitness(xs, rects, segs[i - 1].h, l, r, p);
      assert q.x1 <= x < q.x2;
    } else if x in Covered(t, xs, sh.left, 2 * k, l, sh.mid) {
      CoveredIsActive(t, xs, sh.left, 2 * k, l, sh.mid, Range(l, r), rects, segs, i, x);
    } else {
      CoveredIsActive(t, xs, sh.right, 2 * k + 1, sh.mid + 1, r, Range(l, r), rects, segs, i, x);
    }
  }

  lemma {:induction false} ActiveIsCovered(t: seq<SegNode>, xs: seq<int>, sh: Shape, k: nat, l: nat, r: nat, p: Parent,
                                           rects: seq<Rect>, segs: seq<Segment>, i: nat, q: Rect, x: int)
    requires InRange(xs, l, r) && Increasing(xs) && Upright(rects) && AllKnown(xs, rects)
    requires SortedByHeight(segs) && multiset(segs) == multiset(Edges(rects))
    requires 1 <= i < |segs| && segs[i - 1].h < segs[i].h
    requires Rep(t, xs, sh, k, l, r, p, segs[..i])
    requires q in rects && Active(q, segs[i - 1].h) && q.x1 <= x < q.x2
    requires !FullIn(xs, q.x1, q.x2, p) && xs[l] <= x < xs[r + 1]
    ensures x in Covered(t, xs, sh, k, l, r)
    decreases sh
  {
    if Full(xs, q.x1, q.x2, l, r) {
      SumIsActiveCount(xs, rects, segs, i, l, r, p);
      CountHitPositive(xs, rects, segs[i - 1].h, l, r, p, q);
    } else if sh.Leaf? {
      LeafNotPartial(xs, q.x1, q.x2, l);
    } else if x < xs[sh.mid + 1] {
      ActiveIsCovered(t, xs, sh.left, 2 * k, l, sh.mid, Range(l, r), rects, segs, i, q, x);
    } else {
      ActiveIsCovered(t, xs, sh.right, 2 * k + 1, sh.mid + 1, r, Range(l, r), rects, segs, i, q, x);
    }
  }

  lemma KnownInRange(xs: seq<int>, L: int, R: int, m: nat)
    requires Increasing(xs) && Known(xs, L, R) && m + 2 == |xs| && 1 <= m
    ensures xs[1] <= L <= xs[m + 1] && xs[1] <= R <= xs[m + 1]
  {
    var a :| 1 <= a < |xs| && xs[a] == L;
    var b :| 1 <= b < |xs| && xs[b] == R;
    assert a == 1 || xs[1] < xs[a];
    assert b == 1 || xs[1] < xs[b];
    assert a == m + 1 || xs[a] < xs[m + 1];
    assert b == m + 1 || xs[b] < xs[m + 1];
  }

  lemma RootCoversActive(t: seq<SegNode>, xs: seq<int>, sh: Shape, m: nat,
                         rects: seq<Rect>, segs: seq<Segment>, i: nat)
    requires InRange(xs, 1, m) && m + 2 == |xs| && Increasing(xs) && Upright(rects) && AllKnown(xs, rects)
    requires SortedByHeight(segs) && multiset(segs) == multiset(Edges(rects))
    requires 1 <= i < |segs| && segs[i - 1].h < segs[i].h
    requires Rep(t, xs, sh, 1, 1, m, NoParent, segs[..i])
    ensures forall x :: x in Covered(t, xs, sh, 1, 1, m) <==> ActiveAt(rects, segs[i - 1].h, x)
  {
    forall x
      ensures x in Covered(t, xs, sh, 1, 1, m) <==> ActiveAt(rects, segs[i - 1].h, x)
    {
      if x in Covered(t, xs, sh, 1, 1, m) {
        CoveredIsActive(t, xs, sh, 1, 1, m, NoParent, rects, segs, i, x);
      }
      if ActiveAt(rects, segs[i - 1].h, x) {
        var q :| q in rects && Active(q, segs[i - 1].h) && q.x1 <= x < q.x2;
        KnownInRange(xs, q.x1, q.x2, m);
        ActiveIsCovered(t, xs, sh, 1, 1, m, NoParent, rects, segs, i, q, x);
      }
    }
  }

  // ------------------------------------------------------------ one strip of the sweep

  ghost function Strip(A: set<int>, h: int, h': int): set<(int, int)> {
    set x, y | x in A && y in Span(h, h') :: (x, y)
  }

  lemma Pick<T>(A: set<T>) returns (a: T)
    requires A != {}
    ensures a in A
  {
    a :| a in A;
  }

  lemma {:induction false} StripSize(A: set<int>, h: int, h': int)
    requires h <= h'
    ensures |Strip(A, h, h')| == |A| * (h' - h)
    decreases A
  {
    if A == {} {
      assert Strip(A, h, h') == {};
    } else {
      var a := Pick(A);
      var B := A - {a};
      StripSize(B, h, h');
      ColumnSize(a, h, h');
      StripAdd(B, a, h, h');
      assert A == B + {a};
    }
  }

  lemma StripAdd(B: set<int>, a: int, h: int, h': int)
    requires a !in B
    ensures |Strip(B + {a}, h, h')| == |Strip(B, h, h')| + |Strip({a}, h, h')|
  {
    var S, C := Strip(B, h, h'), Strip({a}, h, h');
    assert Strip(B + {a}, h, h') == S + C;
    DisjointUnionSize(S, C);
  }

  lemma {:induction false} ColumnSize(a: int, h: int, h': int)
    requires h <= h'
    ensures |Strip({a}, h, h')| == h' - h
    decreases h' - h
  {
    if h == h' {
      assert Strip({a}, h, h') == {};
    } else {
      ColumnSize(a, h, h' - 1);
      assert Strip({a}, h, h') == Strip({a}, h, h' - 1) + {(a, h' - 1)};
    }
  }

  lemma {:induction false} EdgesContain(rects: seq<Rect>, q: Rect)
    requires q in rects
    ensures Segment(q.x1, q.x2, q.y1, 1) in Edges(rects) && Segment(q.x1, q.x2, q.y2, -1) in Edges(rects)
  {
    if q != rects[|rects| - 1] {
      assert q in rects[..|rects| - 1];
      EdgesContain(rects[..|rects| - 1], q);
    }
  }

  /** No edge height of any rectangle lies strictly between h and h'. */
  ghost predicate NoEdgeBetween(rects: seq<Rect>, h: int, h': int) {
    forall q :: q in rects ==> (q.y1 <= h || q.y1 >= h') && (q.y2 <= h || q.y2 >= h')
  }

  lemma PlaceOf<T>(s: seq<T>, x: T) returns (k: nat)
    requires x in multiset(s)
    ensures k < |s| && s[k] == x
  {
    k :| 0 <= k < |s| && s[k] == x;
  }

  lemma ConsecutiveHeights(rects: seq<Rect>, segs: seq<Segment>, i: nat)
    requires SortedByHeight(segs) && multiset(segs) == multiset(Edges(rects))
    requires 1 <= i < |segs|
    ensures NoEdgeBetween(rects, segs[i - 1].h, segs[i].h)
  {
    forall q | q in rects
      ensures (q.y1 <= segs[i - 1].h || q.y1 >= segs[i].h) && (q.y2 <= segs[i - 1].h || q.y2 >= segs[i].h)
    {
      EdgesContain(rects, q);
      NoneBetween(segs, Segment(q.x1, q.x2, q.y1, 1), i);
      NoneBetween(segs, Segment(q.x1, q.x2, q.y2, -1), i);
    }
  }

  lemma NoneBetween(segs: seq<Segment>, g: Segment, i: nat)
    requires SortedByHeight(segs) && g in multiset(segs) && 1 <= i < |segs|
    ensures g.h <= segs[i - 1].h || g.h >= segs[i].h
  {
    var a := PlaceOf(segs, g);
  }

  lemma StripInCells(rects: seq<Rect>, A: set<int>, h: int, h': int, x: int, y: int)
    requires h <= h' && NoEdgeBetween(rects, h, h')
    requires x in A <==> ActiveAt(rects, h, x)
    requires h <= y < h'
    ensures (x, y) in Cells(rects) <==> x in A
  {
    if (x, y) in Cells(rects) {
      var q :| q in rects && q.x1 <= x < q.x2 && q.y1 <= y < q.y2;
      assert Active(q, h);
    }
    if x in A {
      var q :| q in rects && Active(q, h) && q.x1 <= x < q.x2;
      assert q.y1 <= y < q.y2;
    }
  }

  lemma StripGrowsCells(rects: seq<Rect>, A: set<int>, h: int, h': int)
    requires h <= h' && NoEdgeBetween(rects, h, h')
    requires h < h' ==> forall x :: x in A <==> ActiveAt(rects, h, x)
    ensures |CellsBelow(rects, h')| == |CellsBelow(rects, h)| + |A| * (h' - h)
  {
    var S, B, B' := Strip(A, h, h'), CellsBelow(rects, h), CellsBelow(rects, h');
    StripSize(A, h, h');
    forall x, y
      ensures (x, y) in B' <==> (x, y) in B || (x, y) in S
      ensures !((x, y) in B && (x, y) in S)
    {
      if h <= y < h' {
        StripInCells(rects, A, h, h', x, y);
      }
    }
    PairUnion(B', B, S);
    DisjointUnionSize(B, S);
  }

  lemma PairUnion<X(!new), Y(!new)>(C: set<(X, Y)>, B: set<(X, Y)>, S: set<(X, Y)>)
    requires forall x, y :: (x, y) in C <==> (x, y) in B || (x, y) in S
    requires forall x, y :: !((x, y) in B && (x, y) in S)
    ensures C == B + S && B !! S
  {
    forall c: (X, Y) ensures c in C <==> c in B + S {
      assert c == (c.0, c.1);
    }
    forall c: (X, Y) ensures !(c in B && c in S) {
      assert c == (c.0, c.1);
    }
  }

  // -------------------------------------------------------------- library calls

  ghost predicate Ascending(s: seq<int>) {
    forall i, j :: 0 <= i < j < |s| ==> s[i] <= s[j]
  }

  lemma InsertMultiset<T>(t: seq<T>, i: nat, x: T)
    requires i <= |t|
    ensures multiset(t[..i] + [x] + t[i..]) == multiset(t) + multiset{x}
  {
    assert t == t[..i] + t[i..];
  }

  /** std::sort on the abscissas. */
  method SortAbscissas(s: seq<int>) returns (t: seq<int>)
    ensures Ascending(t) && multiset(t) == multiset(s)
  {
    t := [];
    for n := 0 to |s|
      invariant Ascending(t) && multiset(t) == multiset(s[..n])
    {
      var i := |t|;
      while i > 0 && t[i - 1] > s[n]
        invariant 0 <= i <= |t| && forall j :: i <= j < |t| ==> t[j] > s[n]
      {
        i := i - 1;
      }
      assert s[..n + 1] == s[..n] + [s[n]];
      InsertMultiset(t, i, s[n]);
      t := t[..i] + [s[n]] + t[i..];
    }
    assert s[..|s|] == s;
  }

  /** std::sort on the edges: any order is allowed among equal heights. */
  method SortEdges(s: seq<Segment>) returns (t: seq<Segment>)
    ensures SortedByHeight(t) && multiset(t) == multiset(s)
  {
    t := [];
    for n := 0 to |s|
      invariant SortedByHeight(t) && multiset(t) == multiset(s[..n])
    {
      var i := |t|;
      while i > 0 && t[i - 1].h > s[n].h
        invariant 0 <= i <= |t| && forall j :: i <= j < |t| ==> t[j].h > s[n].h
      {
        i := i - 1;
      }
      assert s[..n + 1] == s[..n] + [s[n]];
      InsertMultiset(t, i, s[n]);
      t := t[..i] + [s[n]] + t[i..];
    }
    assert s[..|s|] == s;
  }

  /** std::unique on a sorted range; the result is kept from index 1 on. */
  method Unique(s: seq<int>) returns (xs: seq<int>)
    requires Ascending(s)
    ensures |xs| >= 1 && Increasing(xs)
    ensures forall x :: x in xs[1..] <==> x in s
  {
    xs := [0];
    for n := 0 to |s|
      invariant |xs| >= 1 && Increasing(xs)
      invariant forall x :: x in xs[1..] <==> x in s[..n]
      invariant n > 0 ==> |xs| > 1 && xs[|xs| - 1] == s[n - 1]
    {
      assert s[..n + 1] == s[..n] + [s[n]];
      if |xs| == 1 || xs[|xs| - 1] != s[n] {
        assert |xs| > 1 ==> xs[|xs| - 1] in s[..n];
        assert (xs + [s[n]])[1..] == xs[1..] + [s[n]];
        xs := xs + [s[n]];
      }
    }
    assert s[..|s|] == s;
  }

  lemma {:induction false} DistinctSize<T>(s: seq<T>)
    requires forall i, j :: 0 <= i < j < |s| ==> s[i] != s[j]
    ensures |set x | x in s| == |s|
  {
    if s != [] {
      var r := s[..|s| - 1];
      DistinctSize(r);
      assert s == r + [s[|s| - 1]];
      assert (set x | x in s) == (set x | x in r) + {s[|s| - 1]};
    }
  }

  lemma IncreasingSize(xs: seq<int>)
    requires |xs| >= 1 && Increasing(xs)
    ensures |set x | x in xs[1..]| == |xs| - 1
  {
    DistinctSize(xs[1..]);
  }

  // --------------------------------------------------------------- the main program

  /** Reads the rectangles into the abscissas and the edges. */
  method Read(rects: seq<Rect>) returns (xs: seq<int>, segs: seq<Segment>)
    ensures segs == Edges(rects) && |segs| == 2 * |rects|
    ensures forall x :: x in xs <==> x in Abscissas(rects)
  {
    xs, segs := [], [];
    for n := 0 to |rects|
      invariant segs == Edges(rects[..n]) && |segs| == 2 * n
      invariant forall x :: x in xs <==> x in Abscissas(rects[..n])
    {
      var q := rects[n];
      assert rects[..n + 1][..|rects[..n + 1]| - 1] == rects[..n];
      AbscissasAppend(rects[..n], q);
      assert rects[..n + 1] == rects[..n] + [q];
      xs := xs + [q.x1, q.x2];
      segs := segs + [Segment(q.x1, q.x2, q.y1, 1), Segment(q.x1, q.x2, q.y2, -1)];
    }
    assert rects[..|rects|] == rects;
  }

  lemma AbscissasAppend(rects: seq<Rect>, q: Rect)
    ensures Abscissas(rects + [q]) == Abscissas(rects) + {q.x1, q.x2}
  {
    assert forall z :: z in rects + [q] <==> z in rects || z == q;
  }

  /** The sweep itself, over sorted edges and distinct abscissas. */
  method Sweep(rects: seq<Rect>, xs: seq<int>, segs: seq<Segment>, tree: array<SegNode>) returns (ans: int)
    requires Upright(rects) && Increasing(xs) && |xs| >= 3 && AllKnown(xs, rects)
    requires SortedByHeight(segs) && multiset(segs) == multiset(Edges(rects)) && |segs| > 0
    requires Fits(1, 1, |xs| - 2, tree.Length)
    requires forall j :: 0 <= j < tree.Length ==> tree[j].len == 0
    modifies tree
    ensures ans == |Cells(rects)|
  {
    var m := |xs| - 2;
    Build(tree, xs, 1, 1, m, NoParent);
    ghost var sh := Halves(1, m);
    ans := 0;
    FirstHeight(rects, segs);
    for i := 1 to |segs|
      invariant Rep(tree[..], xs, sh, 1, 1, m, NoParent, segs[..i - 1])
      invariant ans == |CellsBelow(rects, segs[i - 1].h)|
    {
      EdgeKnown(rects, xs, segs, i - 1);
      Update(tree, xs, 1, segs[i - 1], sh, 1, m, NoParent, segs[..i - 1]);
      assert segs[..i - 1] + [segs[i - 1]] == segs[..i];
      SweepStep(tree[..], xs, sh, m, rects, segs, i);
      ans := ans + tree[1].len * (segs[i].h - segs[i - 1].h);
    }
    LastHeight(rects, segs);
  }

  /**
    The whole program: reads the rectangles, sorts edges and abscissas, removes duplicate
    abscissas, builds the tree over the elementary intervals and sweeps. The tree array
    starts zeroed, as the program's global does.
   */
  method Area(rects: seq<Rect>, tree: array<SegNode>) returns (ans: int)
    requires Upright(rects)
    requires |Abscissas(rects)| >= 2
    requires Fits(1, 1, |Abscissas(rects)| - 1, tree.Length)
    requires forall j :: 0 <= j < tree.Length ==> tree[j].len == 0
    modifies tree
    ensures ans == |Cells(rects)|
  {
    var xs0, segs0 := Read(rects);
    var segs := SortEdges(segs0);
    var xs1 := SortAbscissas(xs0);
    var xs := Unique(xs1);
    SetUp(rects, xs0, xs1, xs);
    assert |segs| == |multiset(segs)| == |multiset(segs0)| == |segs0|;
    assert Abscissas([]) == {};
    ans := Sweep(rects, xs, segs, tree);
  }

  lemma SetUp(rects: seq<Rect>, xs0: seq<int>, xs1: seq<int>, xs: seq<int>)
    requires forall x :: x in xs0 <==> x in Abscissas(rects)
    requires multiset(xs1) == multiset(xs0) && |xs| >= 1 && Increasing(xs)
    requires forall x :: x in xs[1..] <==> x in xs1
    ensures |xs| - 1 == |Abscissas(rects)| && AllKnown(xs, rects)
  {
    forall x ensures x in xs1 <==> x in xs0 {
      assert x in multiset(xs1) <==> x in multiset(xs0);
    }
    IncreasingSize(xs);
    assert (set x | x in xs[1..]) == Abscissas(rects);
    forall q | q in rects ensures Known(xs, q.x1, q.x2) {
      assert q.x1 in xs[1..] && q.x2 in xs[1..];
      var a :| 0 <= a < |xs[1..]| && xs[1..][a] == q.x1;
      var b :| 0 <= b < |xs[1..]| && xs[1..][b] == q.x2;
      assert xs[a + 1] == q.x1 && xs[b + 1] == q.x2;
    }
  }

  lemma {:induction false} EdgeOfRect(rects: seq<Rect>, e: Segment) returns (q: Rect)
    requires e in Edges(rects)
    ensures q in rects && e.l == q.x1 && e.r == q.x2 && (e.h == q.y1 || e.h == q.y2)
  {
    q := rects[|rects| - 1];
    if e in Edges(rects[..|rects| - 1]) {
      q := EdgeOfRect(rects[..|rects| - 1], e);
    }
  }

  lemma EdgeKnown(rects: seq<Rect>, xs: seq<int>, segs: seq<Segment>, i: nat)
    requires AllKnown(xs, rects) && multiset(segs) == multiset(Edges(rects)) && i < |segs|
    ensures Known(xs, segs[i].l, segs[i].r)
  {
    assert segs[i] in multiset(segs);
    var q := EdgeOfRect(rects, segs[i]);
  }

  /** Nothing lies below the first edge. */
  lemma FirstHeight(rects: seq<Rect>, segs: seq<Segment>)
    requires SortedByHeight(segs) && multiset(segs) == multiset(Edges(rects)) && |segs| > 0
    ensures |CellsBelow(rects, segs[0].h)| == 0
  {
    forall c | c in Cells(rects) ensures c.1 >= segs[0].h {
      var q :| q in rects && q.x1 <= c.0 < q.x2 && q.y1 <= c.1 < q.y2;
      EdgesContain(rects, q);
      assert Segment(q.x1, q.x2, q.y1, 1) in multiset(segs);
    }
    assert CellsBelow(rects, segs[0].h) == {};
  }

  /** Everything lies below the last edge. */
  lemma LastHeight(rects: seq<Rect>, segs: seq<Segment>)
    requires SortedByHeight(segs) && multiset(segs) == multiset(Edges(rects)) && |segs| > 0
    ensures CellsBelow(rects, segs[|segs| - 1].h) == Cells(rects)
  {
    forall c | c in Cells(rects) ensures c.1 < segs[|segs| - 1].h {
      var q :| q in rects && q.x1 <= c.0 < q.x2 && q.y1 <= c.1 < q.y2;
      EdgesContain(rects, q);
      assert Segment(q.x1, q.x2, q.y2, -1) in multiset(segs);
    }
  }

  lemma SweepStep(t: seq<SegNode>, xs: seq<int>, sh: Shape, m: nat, rects: seq<Rect>, segs: seq<Segment>, i: nat)
    requires InRange(xs, 1, m) && m + 2 == |xs| && Increasing(xs) && Upright(rects) && AllKnown(xs, rects)
    requires SortedByHeight(segs) && multiset(segs) == multiset(Edges(rects))
    requires 1 <= i < |segs| && Rep(t, xs, sh, 1, 1, m, NoParent, segs[..i])
    ensures |CellsBelow(rects, segs[i].h)|
         == |CellsBelow(rects, segs[i - 1].h)| + t[1].len * (segs[i].h - segs[i - 1].h)
  {
    hide Rep, Covered, CellsBelow, Edges, NoEdgeBetween;
    var A := Covered(t, xs, sh, 1, 1, m);
    LenIsMeasure(t, xs, sh, 1, 1, m, NoParent, segs[..i]);
    ConsecutiveHeights(rects, segs, i);
    if segs[i - 1].h < segs[i].h {
      RootCoversActive(t, xs, sh, m, rects, segs, i);
    }
    StripGrowsCells(rects, A, segs[i - 1].h, segs[i].h);
  }
}
