/**
  The agreement of the index with a document, and how the edits of one element, of its tags or of
  its content, keep it.
 */
module Agreement {
  import opened ElemForest
  import opened AdjustWalk
  import opened ForestEdit
  import opened ForestGraft
  import opened SiblingLinks

  /** The index holds exactly the links, rings and offsets of the document f; record 0 is the virtual parent. */
  ghost predicate Agree(e: Index, f: Forest) {
    |e| > 0 && Virtual(e[0], f) && Distinct(f) && Links(e, f, 0) && Ring(e, f) && Spans(e, f, 0)
  }

  ghost predicate Virtual(p: ElemPos, f: Forest) {
    p.startTagLen == 0 && p.endTagLen == 0 && p.start == 0 && p.length == |Text(f)| && p.child == First(f) &&
    !p.nonEnded && !p.deleted
  }

  /** No element lacks its end tag. */
  ghost predicate Ended(e: Index, f: Forest) {
    forall j :: j in Ids(f) ==> j < |e| && !e[j].nonEnded
  }

  /** The children of p; of the virtual parent when p is 0. */
  ghost function KidsOf(f: Forest, p: nat): Forest
    requires p == 0 || p in Ids(f)
  {
    if p == 0 then f else Find(f, p).kids
  }

  lemma {:induction false} NodeRecord(e: Index, f: Forest, p: nat, parent: nat)
    requires p in Ids(f) && Links(e, f, parent) && Ring(e, f) && Distinct(f)
    ensures Siblings(e, Find(f, p).kids, p) && 0 < p < |e| && e[p].child == First(Find(f, p).kids) && !e[p].deleted
    decreases f, 1
  {
    if f.id != p {
      if p in Ids(f.kids) { NodeRecord(e, f.kids, p, f.id); } else { NodeRecordRest(e, f.rest, p, parent, f.id); }
    }
  }

  lemma {:induction false} NodeRecordRest(e: Index, f: Forest, p: nat, parent: nat, before: nat)
    requires p in Ids(f) && Links(e, f, parent) && RingRest(e, f, before) && Distinct(f)
    ensures Siblings(e, Find(f, p).kids, p) && 0 < p < |e| && e[p].child == First(Find(f, p).kids) && !e[p].deleted
    decreases f, 0
  {
    if f.id != p {
      if p in Ids(f.kids) { NodeRecord(e, f.kids, p, f.id); } else { NodeRecordRest(e, f.rest, p, parent, f.id); }
    }
  }

  /** Where the content of p begins. */
  function ContentStart(e: Index, p: nat): int
    requires p < |e|
  {
    if p == 0 then 0 else e[p].start + e[p].startTagLen
  }

  lemma KidsFacts(e: Index, f: Forest, p: nat)
    requires Agree(e, f) && (p == 0 || p in Ids(f))
    ensures p < |e| && Siblings(e, KidsOf(f, p), p) && e[p].child == First(KidsOf(f, p))
    ensures Spans(e, KidsOf(f, p), ContentStart(e, p))
    ensures Ids(KidsOf(f, p)) <= Ids(f)
    ensures p != 0 ==> NodeSpan(e[p], Find(f, p), |Front(f, p)|)
  {
    DistinctNoZero(f);
    if p != 0 {
      NodeRecord(e, f, p, 0);
      SpanOfNode(e, f, p, 0);
      FindInside(f, p);
    }
  }

  lemma TaggedOpened(e: Index, f: Forest, o: int)
    requires Spans(e, f, o) && Tagged(f)
    ensures Opened(e, f)
  {
    if f.Node? {
      TaggedOpened(e, f.kids, o + |f.gap| + |f.tag|);
      TaggedOpened(e, f.rest, o + |f.gap| + Width(f));
    }
  }

  // ------------------------------------------------------------- an element changes in place

  /**
    One element i is given new tags, and keeps its children or has none before and after. e1 is
    the index with the new tag lengths and length of i; the rest is left to x_Adjust.
   */
  ghost predicate ChangesInPlace(e: Index, e1: Index, f: Forest, i: nat, n: Forest, d: int) {
    i in Ids(f) && n.Node? && d == Width(n) - Width(Find(f, i)) &&
    (Find(f, i).kids == n.kids || (Find(f, i).kids.Nil? && n.kids.Nil?)) &&
    (n.kids.Node? ==> d == |n.tag| - |Find(f, i).tag|) &&
    i < |e| == |e1| && (forall j :: 0 <= j < |e| && j != i ==> e1[j] == e[j]) &&
    RecordChanged(e[i], e1[i], n)
  }

  ghost predicate RecordChanged(p: ElemPos, q: ElemPos, n: Forest)
    requires n.Node?
  {
    q == p.(length := Width(n), startTagLen := |n.tag|, endTagLen := |n.close|, nonEnded := q.nonEnded,
      illData := q.illData)
  }

  lemma InPlace(e: Index, e1: Index, f: Forest, i: nat, n: Forest, d: int)
    requires Agree(e, f) && ChangesInPlace(e, e1, f, i, n, d)
    ensures Agree(Adjusted(e1, f, i, d, false), Graft(f, i, n))
  {
    InPlaceSpans(e, e1, f, i, n, d);
    InPlaceWeb(e, e1, f, i, n, d);
    InPlaceRoot(e, e1, f, i, n, d);
  }

  /** Links and rings are the same record for record. */
  ghost predicate SameWeb(e: Index, e': Index) {
    |e| == |e'| && forall j :: 0 <= j < |e| ==> SameLinks(e[j], e'[j]) && SameRing(e[j], e'[j])
  }

  lemma InPlaceRoot(e: Index, e1: Index, f: Forest, i: nat, n: Forest, d: int)
    requires |e| > 0 && Virtual(e[0], f) && Distinct(f) && ChangesInPlace(e, e1, f, i, n, d)
    ensures |e1| > 0 && Virtual(Adjusted(e1, f, i, d, false)[0], Graft(f, i, n))
  {
    hide Graft, Find, Following, Ancestors, Text, Distinct;
    var e3 := Adjusted(e1, f, i, d, false);
    DistinctNoZero(f);
    GraftIds(f, i, n);
    GraftLength(f, i, n);
    FollowingInside(f, i);
    FindInside(f, i);
    assert e3[0] == MovedOne(e1[0], false, true, d);
  }

  lemma InPlaceSpans(e: Index, e1: Index, f: Forest, i: nat, n: Forest, d: int)
    requires Distinct(f) && Spans(e, f, 0) && ChangesInPlace(e, e1, f, i, n, d)
    ensures Spans(Adjusted(e1, f, i, d, false), Graft(f, i, n), 0)
  {
    hide Spans, Find, Graft, Following, Ancestors, Front, Ids, Distinct, Adjusted, MovedAround;
    var e3 := Adjusted(e1, f, i, d, false);
    MovedAroundInPlace(e, e1, f, i, n, d);
    SpanOfNode(e, f, i, 0);
    AdjustedAtAndBelow(e1, f, i, d);
    assert NodeSpan(e3[i], n, |Front(f, i)|);
    if n.kids.Node? {
      KidsShiftInPlace(e, e1, f, i, n, d);
    } else {
      NilSpans(e3, n.kids, |Front(f, i)| + |n.tag|);
    }
    GraftSpans(e, e3, f, i, n, 0, d);
  }

  lemma NilSpans(e: Index, k: Forest, o: int)
    requires k.Nil?
    ensures Spans(e, k, o)
  {
  }

  lemma AdjustedAtAndBelow(e1: Index, f: Forest, i: nat, d: int)
    requires i in Ids(f) && Distinct(f) && i < |e1|
    ensures |Adjusted(e1, f, i, d, false)| == |e1|
    ensures Adjusted(e1, f, i, d, false)[i] == e1[i]
    ensures forall j :: j in Ids(Find(f, i).kids) && j < |e1| ==>
      Adjusted(e1, f, i, d, false)[j] == MovedOne(e1[j], true, false, d)
  {
    hide Find, Following, Ancestors;
    DistinctNoZero(f);
    FindInside(f, i);
    FollowingOutside(f, i);
    KidsNotSelf(f, i);
  }

  lemma {:induction false} KidsNotSelf(f: Forest, i: nat)
    requires i in Ids(f) && Distinct(f)
    ensures i !in Ids(Find(f, i).kids) && Distinct(Find(f, i).kids)
  {
    if f.id != i {
      if i in Ids(f.kids) { KidsNotSelf(f.kids, i); } else { KidsNotSelf(f.rest, i); }
    }
  }

  lemma KidsShiftInPlace(e: Index, e1: Index, f: Forest, i: nat, n: Forest, d: int)
    requires Distinct(f) && Spans(e, f, 0) && ChangesInPlace(e, e1, f, i, n, d)
    ensures Spans(Adjusted(e1, f, i, d, false), Find(f, i).kids, |Front(f, i)| + |Find(f, i).tag| + d)
  {
    hide Find, Following, Ancestors, Front, Distinct, Adjusted, Spans, Ids;
    var e3, k := Adjusted(e1, f, i, d, false), Find(f, i).kids;
    SpanOfNode(e, f, i, 0);
    AdjustedAtAndBelow(e1, f, i, d);
    SpansInRange(e, k, |Front(f, i)| + |Find(f, i).tag|);
    KidsNotSelf(f, i);
    forall j | j in Ids(k) ensures j < |e| && SameSpan(e[j], e3[j], d) {
      assert e3[j] == MovedOne(e[j], true, false, d);
    }
    SpansShift(e, e3, k, |Front(f, i)| + |Find(f, i).tag|, d);
  }

  lemma {:induction false} SpansInRange(e: Index, k: Forest, o: int)
    requires Spans(e, k, o)
    ensures forall j :: j in Ids(k) ==> 0 < j < |e|
  {
    if k.Node? {
      SpansInRange(e, k.kids, o + |k.gap| + |k.tag|);
      SpansInRange(e, k.rest, o + |k.gap| + Width(k));
    }
  }

  lemma MovedAroundInPlace(e: Index, e1: Index, f: Forest, i: nat, n: Forest, d: int)
    requires Distinct(f) && Spans(e, f, 0) && ChangesInPlace(e, e1, f, i, n, d)
    ensures MovedAround(e, Adjusted(e1, f, i, d, false), f, i, d)
  {
    hide Find, Following, Ancestors, Distinct, Spans, Text;
    DistinctNoZero(f);
    SpansInRange(e, f, 0);
  }

  lemma InPlaceWeb(e: Index, e1: Index, f: Forest, i: nat, n: Forest, d: int)
    requires Distinct(f) && Links(e, f, 0) && Ring(e, f) && ChangesInPlace(e, e1, f, i, n, d)
    ensures Links(Adjusted(e1, f, i, d, false), Graft(f, i, n), 0)
    ensures Ring(Adjusted(e1, f, i, d, false), Graft(f, i, n))
    ensures Distinct(Graft(f, i, n))
  {
    hide Links, Ring, Find, Graft, Following, Ancestors, Ids, Distinct;
    var e3 := Adjusted(e1, f, i, d, false);
    forall j | 0 <= j < |e| ensures SameLinks(e[j], e3[j]) && SameRing(e[j], e3[j]) {
    }
    InPlaceLinks(e, e3, f, i, n);
    KidsNotSelf(f, i);
    InPlaceFits(f, i, n.kids);
    GraftDistinct(f, i, n);
  }

  lemma InPlaceFits(f: Forest, i: nat, k: Forest)
    requires i in Ids(f) && Distinct(f) && (Find(f, i).kids == k || k.Nil?)
    ensures FitsBelow(f, i, k)
  {
    KidsNotSelf(f, i);
  }

  lemma InPlaceLinks(e: Index, e': Index, f: Forest, i: nat, n: Forest)
    requires i in Ids(f) && n.Node? && Distinct(f) && Links(e, f, 0) && Ring(e, f) && SameWeb(e, e')
    requires Find(f, i).kids == n.kids || (Find(f, i).kids.Nil? && n.kids.Nil?)
    ensures Links(e', Graft(f, i, n), 0) && Ring(e', Graft(f, i, n))
  {
    hide Links, Ring, Find, Graft, Distinct;
    var m := Find(f, i);
    NodeRecord(e, f, i, 0);
    LinksInRange(e, f, 0);
    FindInside(f, i);
    LinksFrame(e, e', m.kids, i);
    RingFrame(e, e', m.kids);
    assert First(n.kids) == First(m.kids);
    NilWeb(e', n.kids, i);
    GraftLinks(e, e', f, 0, i, n);
    GraftRing(e, e', f, i, n);
  }

  lemma NilWeb(e: Index, k: Forest, p: nat)
    ensures k.Nil? ==> Links(e, k, p) && Ring(e, k)
  {
  }

  /** The element itself and what is below it neither follow it nor contain it. */
  lemma {:induction false} FollowingOutside(f: Forest, i: nat)
    requires i in Ids(f) && Distinct(f)
    ensures i !in Following(f, i) && i !in Ancestors(f, i)
    ensures forall j :: j in Ids(Find(f, i).kids) ==> j !in Following(f, i) && j !in Ancestors(f, i)
    ensures forall j :: j in Ancestors(f, i) ==> j !in Following(f, i)
  {
    if f.id != i {
      if i in Ids(f.kids) {
        FindInside(f.kids, i);
        FollowingInside(f.kids, i);
        FollowingOutside(f.kids, i);
      } else {
        FindInside(f.rest, i);
        FollowingInside(f.rest, i);
        FollowingOutside(f.rest, i);
      }
    }
  }
}
