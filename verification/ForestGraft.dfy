/**
  Replacing one element of a forest in place: what the rest of the forest, its index and its
  text keep.
 */
module ForestGraft {
  import opened ElemForest
  import opened ForestEdit

  lemma {:induction false} GraftIds(f: Forest, p: nat, n: Forest)
    requires p in Ids(f) && Distinct(f) && n.Node?
    ensures forall j :: j in Ids(Graft(f, p, n)) <==> (j in Ids(f) && j !in Ids(Find(f, p).kids)) || j in Ids(n.kids)
    ensures First(Graft(f, p, n)) == First(f)
    ensures forall b :: Last(Graft(f, p, n), b) == Last(f, b)
  {
    if f.id != p {
      if p in Ids(f.kids) {
        FindInside(f.kids, p);
        GraftIds(f.kids, p, n);
      } else {
        FindInside(f.rest, p);
        GraftIds(f.rest, p, n);
      }
    }
  }

  /** New descendants of p are new to the forest, or were below p already. */
  ghost predicate FitsBelow(f: Forest, p: nat, k: Forest)
    requires p in Ids(f)
  {
    Distinct(k) && p !in Ids(k) && forall j :: j in Ids(k) ==> j !in Ids(f) || j in Ids(Find(f, p).kids)
  }

  lemma {:induction false} GraftDistinct(f: Forest, p: nat, n: Forest)
    requires p in Ids(f) && Distinct(f) && n.Node? && FitsBelow(f, p, n.kids)
    ensures Distinct(Graft(f, p, n))
  {
    if f.id != p {
      if p in Ids(f.kids) {
        FindInside(f.kids, p);
        GraftIds(f.kids, p, n);
        GraftDistinct(f.kids, p, n);
      } else {
        FindInside(f.rest, p);
        GraftIds(f.rest, p, n);
        GraftDistinct(f.rest, p, n);
      }
    } else {
      assert forall j :: j in Ids(n.kids) ==> j !in Ids(f.rest);
    }
  }

  /** Outside p and what is below it, the records of f are the same. */
  ghost predicate Outside(f: Forest, p: nat, j: nat)
    requires p in Ids(f)
  {
    j in Ids(f) && j != p && j !in Ids(Find(f, p).kids)
  }

  lemma {:induction false} GraftLinks(e: Index, e': Index, f: Forest, parent: nat, p: nat, n: Forest)
    requires p in Ids(f) && Distinct(f) && n.Node? && Links(e, f, parent) && |e| <= |e'|
    requires forall j: nat :: Outside(f, p, j) ==> j < |e| && SameLinks(e[j], e'[j])
    requires p < |e| && SameLinks(e[p].(child := First(n.kids)), e'[p]) && Links(e', n.kids, p)
    ensures Links(e', Graft(f, p, n), parent)
  {
    if f.id == p {
      assert forall j :: j in Ids(f.rest) ==> Outside(f, p, j);
      LinksFrame(e, e', f.rest, parent);
    } else if p in Ids(f.kids) {
      FindInside(f.kids, p);
      assert forall j :: j in Ids(f.rest) ==> Outside(f, p, j);
      assert forall j: nat :: Outside(f.kids, p, j) ==> Outside(f, p, j);
      assert Outside(f, p, f.id);
      LinksFrame(e, e', f.rest, parent);
      GraftIds(f.kids, p, n);
      GraftLinks(e, e', f.kids, f.id, p, n);
    } else {
      FindInside(f.rest, p);
      assert forall j :: j in Ids(f.kids) ==> Outside(f, p, j);
      assert forall j: nat :: Outside(f.rest, p, j) ==> Outside(f, p, j);
      assert Outside(f, p, f.id);
      LinksFrame(e, e', f.kids, f.id);
      GraftIds(f.rest, p, n);
      GraftLinks(e, e', f.rest, parent, p, n);
    }
  }

  lemma {:induction false} GraftRing(e: Index, e': Index, f: Forest, p: nat, n: Forest)
    requires p in Ids(f) && Distinct(f) && n.Node? && Ring(e, f) && |e| <= |e'|
    requires forall j: nat :: Outside(f, p, j) ==> j < |e| && SameRing(e[j], e'[j])
    requires p < |e| && SameRing(e[p], e'[p])
    requires Ring(e', n.kids)
    ensures Ring(e', Graft(f, p, n))
    decreases f, 1
  {
    if f.id == p {
      assert forall j :: j in Ids(f.rest) ==> Outside(f, p, j);
      RingRestFrame(e, e', f.rest, f.id);
    } else if p in Ids(f.kids) {
      FindInside(f.kids, p);
      assert forall j :: j in Ids(f.rest) ==> Outside(f, p, j);
      assert forall j: nat :: Outside(f.kids, p, j) ==> Outside(f, p, j);
      assert Outside(f, p, f.id);
      RingRestFrame(e, e', f.rest, f.id);
      GraftRing(e, e', f.kids, p, n);
    } else {
      FindInside(f.rest, p);
      assert forall j :: j in Ids(f.kids) ==> Outside(f, p, j);
      assert forall j: nat :: Outside(f.rest, p, j) ==> Outside(f, p, j);
      assert Outside(f, p, f.id);
      RingFrame(e, e', f.kids);
      GraftIds(f.rest, p, n);
      GraftRingRest(e, e', f.rest, f.id, p, n);
    }
  }

  lemma {:induction false} GraftRingRest(e: Index, e': Index, f: Forest, before: nat, p: nat, n: Forest)
    requires p in Ids(f) && Distinct(f) && n.Node? && RingRest(e, f, before) && |e| <= |e'|
    requires forall j: nat :: Outside(f, p, j) ==> j < |e| && SameRing(e[j], e'[j])
    requires p < |e| && SameRing(e[p], e'[p])
    requires Ring(e', n.kids)
    ensures RingRest(e', Graft(f, p, n), before)
    decreases f, 0
  {
    if f.id == p {
      assert forall j :: j in Ids(f.rest) ==> Outside(f, p, j);
      RingRestFrame(e, e', f.rest, f.id);
    } else if p in Ids(f.kids) {
      FindInside(f.kids, p);
      assert forall j :: j in Ids(f.rest) ==> Outside(f, p, j);
      assert forall j: nat :: Outside(f.kids, p, j) ==> Outside(f, p, j);
      assert Outside(f, p, f.id);
      RingRestFrame(e, e', f.rest, f.id);
      GraftRing(e, e', f.kids, p, n);
    } else {
      FindInside(f.rest, p);
      assert forall j :: j in Ids(f.kids) ==> Outside(f, p, j);
      assert forall j: nat :: Outside(f.rest, p, j) ==> Outside(f, p, j);
      assert Outside(f, p, f.id);
      RingFrame(e, e', f.kids);
      GraftRingRest(e, e', f.rest, f.id, p, n);
    }
  }

  // ------------------------------------------------------------------------------- text

  /** The text in front of the start tag of p, and the text after its end tag. */
  function Front(f: Forest, p: nat): string {
    if f.Nil? then ""
    else if f.id == p then f.gap
    else if p in Ids(f.kids) then f.gap + f.tag + Front(f.kids, p)
    else f.gap + f.tag + Text(f.kids) + f.close + Front(f.rest, p)
  }

  function Back(f: Forest, p: nat): string {
    if f.Nil? then ""
    else if f.id == p then Text(f.rest)
    else if p in Ids(f.kids) then Back(f.kids, p) + f.close + Text(f.rest)
    else Back(f.rest, p)
  }

  function NodeText(n: Forest): string
    requires n.Node?
  {
    n.tag + Text(n.kids) + n.close
  }

  lemma Regroup5(a: string, b: string, c: string, d: string, r: string)
    ensures a + b + c + d + r == a + (b + c + d) + r
  {
  }

  lemma Regroup7(a: string, b: string, x: string, y: string, z: string, d: string, r: string)
    ensures a + b + (x + y + z) + d + r == (a + b + x) + y + (z + d + r)
  {
  }

  lemma Regroup6(h: string, x: string, y: string, z: string)
    ensures h + (x + y + z) == (h + x) + y + z
  {
  }

  lemma {:induction false} GraftText(f: Forest, p: nat, n: Forest)
    requires p in Ids(f) && n.Node?
    ensures Text(f) == Front(f, p) + NodeText(Find(f, p)) + Back(f, p)
    ensures Text(Graft(f, p, n)) == Front(f, p) + NodeText(n) + Back(f, p)
  {
    if f.id == p {
      Regroup5(f.gap, f.tag, Text(f.kids), f.close, Text(f.rest));
      Regroup5(f.gap, n.tag, Text(n.kids), n.close, Text(f.rest));
    } else if p in Ids(f.kids) {
      GraftText(f.kids, p, n);
      Regroup7(f.gap, f.tag, Front(f.kids, p), NodeText(Find(f, p)), Back(f.kids, p), f.close, Text(f.rest));
      Regroup7(f.gap, f.tag, Front(f.kids, p), NodeText(n), Back(f.kids, p), f.close, Text(f.rest));
    } else {
      GraftText(f.rest, p, n);
      var h := f.gap + f.tag + Text(f.kids) + f.close;
      Regroup6(h, Front(f.rest, p), NodeText(Find(f, p)), Back(f.rest, p));
      Regroup6(h, Front(f.rest, p), NodeText(n), Back(f.rest, p));
    }
  }

  /** The record of p starts where its start tag stands in the text. */
  lemma {:induction false} SpanOfNode(e: Index, f: Forest, p: nat, o: int)
    requires p in Ids(f) && Spans(e, f, o)
    ensures 0 < p < |e| && NodeSpan(e[p], Find(f, p), o + |Front(f, p)|)
    ensures Spans(e, Find(f, p).kids, o + |Front(f, p)| + |Find(f, p).tag|)
  {
    if f.id != p {
      if p in Ids(f.kids) {
        SpanOfNode(e, f.kids, p, o + |f.gap| + |f.tag|);
      } else {
        SpanOfNode(e, f.rest, p, o + |f.gap| + Width(f));
      }
    }
  }

  // ------------------------------------------------------------------------------- spans

  /** Starts and lengths after p has grown by d. */
  ghost predicate GrownBy(p: ElemPos, q: ElemPos, following: bool, above: bool, d: int) {
    q.start == p.start + (if following then d else 0) && q.length == p.length + (if above then d else 0) &&
    q.startTagLen == p.startTagLen && q.endTagLen == p.endTagLen
  }

  lemma {:induction false} FollowingInside(f: Forest, p: nat)
    requires p in Ids(f)
    ensures Following(f, p) <= Ids(f) && Ancestors(f, p) <= Ids(f)
  {
    if f.id != p {
      if p in Ids(f.kids) { FollowingInside(f.kids, p); } else { FollowingInside(f.rest, p); }
    }
  }

  lemma GrownIsShift(e: Index, e': Index, k: Forest, o: int, d: int, following: bool)
    requires Spans(e, k, o) && |e| <= |e'|
    requires forall j :: j in Ids(k) ==> j < |e| && GrownBy(e[j], e'[j], following, false, d)
    ensures Spans(e', k, o + if following then d else 0)
  {
    SpansShift(e, e', k, o, if following then d else 0);
  }

  /** Around p the records have moved as they do when p grows by d. */
  ghost predicate MovedAround(e: Index, e': Index, f: Forest, p: nat, d: int)
    requires p in Ids(f)
  {
    |e| <= |e'| &&
    forall j: nat :: Outside(f, p, j) ==>
      j < |e| && GrownBy(e[j], e'[j], j in Following(f, p), j in Ancestors(f, p), d)
  }

  /** The record of p has the spans of n, its children included. */
  ghost predicate Replaced(e: Index, p: nat, n: Forest, start: int)
    requires n.Node?
  {
    0 < p < |e| && NodeSpan(e[p], n, start) && Spans(e, n.kids, start + |n.tag|)
  }

  lemma {:induction false} GraftSpans(e: Index, e': Index, f: Forest, p: nat, n: Forest, o: int, d: int)
    requires p in Ids(f) && Distinct(f) && n.Node? && Spans(e, f, o)
    requires d == Width(n) - Width(Find(f, p))
    requires MovedAround(e, e', f, p, d) && Replaced(e', p, n, o + |Front(f, p)|)
    ensures Spans(e', Graft(f, p, n), o)
  {
    hide MovedAround, Replaced, Following, Ancestors;
    if f.id == p {
      GraftSpansHere(e, e', f, n, o, d);
    } else if p in Ids(f.kids) {
      GraftSpansKids(e, e', f, p, n, o, d);
      GraftSpans(e, e', f.kids, p, n, o + |f.gap| + |f.tag|, d);
      GraftLength(f.kids, p, n);
      JoinKids(e, e', f, Graft(f.kids, p, n), o, d);
    } else {
      GraftSpansRest(e, e', f, p, n, o, d);
      GraftSpans(e, e', f.rest, p, n, o + |f.gap| + Width(f), d);
      JoinRest(e, e', f, Graft(f.rest, p, n), o, d);
    }
  }

  lemma JoinKids(e: Index, e': Index, f: Forest, k': Forest, o: int, d: int)
    requires f.Node? && Spans(e, f, o) && |e| <= |e'| && GrownBy(e[f.id], e'[f.id], false, true, d)
    requires |Text(k')| == |Text(f.kids)| + d && Spans(e', k', o + |f.gap| + |f.tag|)
    requires Spans(e', f.rest, o + |f.gap| + Width(f) + d)
    ensures Spans(e', f.(kids := k'), o)
  {
  }

  lemma JoinRest(e: Index, e': Index, f: Forest, r': Forest, o: int, d: int)
    requires f.Node? && Spans(e, f, o) && |e| <= |e'| && GrownBy(e[f.id], e'[f.id], false, false, d)
    requires Spans(e', f.kids, o + |f.gap| + |f.tag|)
    requires Spans(e', r', o + |f.gap| + Width(f))
    ensures Spans(e', f.(rest := r'), o)
  {
  }

  lemma GraftLength(f: Forest, p: nat, n: Forest)
    requires p in Ids(f) && n.Node?
    ensures |Text(Graft(f, p, n))| == |Text(f)| + Width(n) - Width(Find(f, p))
  {
    GraftText(f, p, n);
  }

  lemma GraftSpansHere(e: Index, e': Index, f: Forest, n: Forest, o: int, d: int)
    requires f.Node? && Distinct(f) && n.Node? && Spans(e, f, o)
    requires d == Width(n) - Width(f)
    requires MovedAround(e, e', f, f.id, d) && Replaced(e', f.id, n, o + |f.gap|)
    ensures Spans(e', Graft(f, f.id, n), o)
  {
    assert forall j :: j in Ids(f.rest) ==> Outside(f, f.id, j) && j !in Ancestors(f, f.id);
    GrownIsShift(e, e', f.rest, o + |f.gap| + Width(f), d, true);
  }

  lemma GraftSpansKids(e: Index, e': Index, f: Forest, p: nat, n: Forest, o: int, d: int)
    requires p in Ids(f) && Distinct(f) && f.id != p && p in Ids(f.kids) && Spans(e, f, o)
    requires MovedAround(e, e', f, p, d)
    ensures MovedAround(e, e', f.kids, p, d)
    ensures GrownBy(e[f.id], e'[f.id], false, true, d)
    ensures Spans(e', f.rest, o + |f.gap| + Width(f) + d)
  {
    FindInside(f.kids, p);
    FollowingInside(f.kids, p);
    assert Outside(f, p, f.id) && f.id !in Following(f, p);
    assert forall j :: j in Ids(f.rest) ==> Outside(f, p, j) && j !in Ancestors(f, p);
    GrownIsShift(e, e', f.rest, o + |f.gap| + Width(f), d, true);
    assert forall j: nat :: Outside(f.kids, p, j) ==> Outside(f, p, j) && j != f.id;
  }

  lemma GraftSpansRest(e: Index, e': Index, f: Forest, p: nat, n: Forest, o: int, d: int)
    requires p in Ids(f) && Distinct(f) && f.id != p && p in Ids(f.rest) && Spans(e, f, o)
    requires MovedAround(e, e', f, p, d)
    ensures MovedAround(e, e', f.rest, p, d)
    ensures GrownBy(e[f.id], e'[f.id], false, false, d)
    ensures Spans(e', f.kids, o + |f.gap| + |f.tag|)
  {
    FindInside(f.rest, p);
    FollowingInside(f.rest, p);
    assert Outside(f, p, f.id) && f.id !in Following(f, p) && f.id !in Ancestors(f, p);
    assert forall j :: j in Ids(f.kids) ==> Outside(f, p, j) && j !in Following(f, p) && j !in Ancestors(f, p);
    GrownIsShift(e, e', f.kids, o + |f.gap| + |f.tag|, d, false);
    assert forall j: nat :: Outside(f.rest, p, j) ==> Outside(f, p, j);
  }

  // ---------------------------------------------------------------- where new children stand

  lemma {:induction false} GraftFind(f: Forest, p: nat, n: Forest)
    requires p in Ids(f) && Distinct(f) && n.Node? && FitsBelow(f, p, n.kids)
    ensures p in Ids(Graft(f, p, n)) && Find(Graft(f, p, n), p).kids == n.kids
    ensures Find(Graft(f, p, n), p).tag == n.tag && Find(Graft(f, p, n), p).close == n.close
    ensures Following(Graft(f, p, n), p) == Following(f, p) && Ancestors(Graft(f, p, n), p) == Ancestors(f, p)
  {
    if f.id != p {
      if p in Ids(f.kids) {
        FindInside(f.kids, p);
        GraftIds(f.kids, p, n);
        GraftFind(f.kids, p, n);
      } else {
        FindInside(f.rest, p);
        GraftIds(f.rest, p, n);
        GraftFind(f.rest, p, n);
      }
    }
  }

  lemma {:induction false} BelowNode(f: Forest, p: nat, x: nat)
    requires p in Ids(f) && Distinct(f) && x in Ids(Find(f, p).kids)
    ensures x in Ids(f) && Find(f, x) == Find(Find(f, p).kids, x)
    ensures Following(f, x) == Following(Find(f, p).kids, x) + Following(f, p)
    ensures Ancestors(f, x) == Ancestors(f, p) + {p} + Ancestors(Find(f, p).kids, x)
  {
    FindInside(f, p);
    if f.id != p {
      if p in Ids(f.kids) {
        FindInside(f.kids, p);
        BelowNode(f.kids, p, x);
      } else {
        FindInside(f.rest, p);
        BelowNode(f.rest, p, x);
      }
    }
  }
}
