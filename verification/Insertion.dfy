/**
  Inserting a new element among the children of p, with its own gap and the gap behind it, keeps
  the index in agreement with the text.
 */
module Insertion {
  import opened ElemForest
  import opened AdjustWalk
  import opened ForestEdit
  import opened ForestGraft
  import opened SiblingLinks
  import opened Agreement

  /**
    A new element n, without children, goes behind the child b of p (0: in front of the first);
    p may get new tags T and C at the same time, but only if it had no children.
   */
  datatype Insert = Insert(p: nat, b: nat, n: Forest, v: string, T: string, C: string)

  ghost predicate Fits(f: Forest, a: Insert) {
    (a.p == 0 || a.p in Ids(f)) && a.n.Node? && a.n.kids.Nil? && a.n.id != 0 && a.n.id !in Ids(f) && a.n.id != a.p &&
    (a.b == 0 || a.b in Tops(KidsOf(f, a.p))) &&
    (a.p == 0 ==> a.T == "" && a.C == "") &&
    (a.p != 0 && KidsOf(f, a.p).Node? ==> a.T == Find(f, a.p).tag && a.C == Find(f, a.p).close)
  }

  /** The new list of children of p. */
  ghost function NewKids(f: Forest, a: Insert): Forest
    requires Fits(f, a)
  {
    InsertIn(KidsOf(f, a.p), a.b, a.n, a.v)
  }

  ghost function NewParent(f: Forest, a: Insert): (n: Forest)
    requires Fits(f, a)
    ensures n.Node? && n.kids == NewKids(f, a) && n.tag == a.T && n.close == a.C
  {
    Node("", a.p, a.T, NewKids(f, a), a.C, Nil(""))
  }

  /** The document after the insertion. */
  ghost function Inserted(f: Forest, a: Insert): Forest
    requires Fits(f, a)
  {
    if a.p == 0 then NewKids(f, a) else Graft(f, a.p, NewParent(f, a))
  }

  /** How much longer the document has become. */
  ghost function Growth(f: Forest, a: Insert): int
    requires Fits(f, a)
  {
    |Text(Inserted(f, a))| - |Text(f)|
  }

  ghost function ContentAt(f: Forest, a: Insert): int
    requires Fits(f, a)
  {
    if a.p == 0 then 0 else |Front(f, a.p)| + |a.T|
  }

  /** e1 has the record of the new element, and the new tag lengths of p. */
  ghost predicate Prepared(e: Index, e1: Index, f: Forest, a: Insert)
    requires Fits(f, a)
  {
    a.n.id == |e| && |e1| == |e| + 1 && a.p < |e| &&
    (forall j :: 0 <= j < |e| && j != a.p ==> e1[j] == e[j]) &&
    (a.p == 0 ==> e1[0] == e[0]) &&
    (a.p != 0 ==> RetaggedRecord(e[a.p], e1[a.p], |a.T|, |a.C|)) &&
    NewRecord(e1[a.n.id], a.n, ContentAt(f, a) + EndOf(KidsOf(f, a.p), a.b) + |a.n.gap|)
  }

  ghost predicate RetaggedRecord(p: ElemPos, q: ElemPos, tagLen: nat, closeLen: nat) {
    q == p.(startTagLen := tagLen, endTagLen := closeLen, nonEnded := q.nonEnded)
  }

  ghost predicate NewRecord(p: ElemPos, n: Forest, start: int)
    requires n.Node?
  {
    NodeSpan(p, n, start) && p.child == 0 && !p.deleted && !p.nonEnded
  }

  /** e2 has the new element linked in. */
  ghost predicate LinkedIn(e1: Index, e2: Index, f: Forest, a: Insert)
    requires Fits(f, a) && a.p < |e1|
  {
    Siblings(e2, NewKids(f, a), a.p) && |e2| == |e1| &&
    e2[a.p] == e1[a.p].(child := First(NewKids(f, a))) &&
    Relinked(e1, e2, Ids(KidsOf(f, a.p)) + {a.n.id}, a.p)
  }

  // -------------------------------------------------------------------------- the new forest

  lemma NewKidsFacts(f: Forest, a: Insert)
    requires Fits(f, a) && Distinct(f)
    ensures Ids(NewKids(f, a)) == Ids(KidsOf(f, a.p)) + {a.n.id}
    ensures Distinct(NewKids(f, a)) && a.p !in Ids(NewKids(f, a))
    ensures Ids(KidsOf(f, a.p)) <= Ids(f)
  {
    hide Find, Distinct;
    DistinctNoZero(f);
    if a.p != 0 {
      KidsNotSelf(f, a.p);
      FindInside(f, a.p);
    }
    InsertIds(KidsOf(f, a.p), a.b, a.n, a.v);
    KidsDistinct(f, a.p);
    NilDistinct(a.n.kids);
    InsertDistinct(KidsOf(f, a.p), a.b, a.n, a.v);
  }

  lemma NilDistinct(k: Forest)
    requires k.Nil?
    ensures Distinct(k) && Ids(k) == {}
  {
  }

  lemma KidsDistinct(f: Forest, p: nat)
    requires (p == 0 || p in Ids(f)) && Distinct(f)
    ensures Distinct(KidsOf(f, p))
  {
    if p != 0 { KidsNotSelf(f, p); }
  }

  lemma InsertedIds(f: Forest, a: Insert)
    requires Fits(f, a) && Distinct(f)
    ensures forall j :: j in Ids(Inserted(f, a)) <==> j in Ids(f) || j == a.n.id
    ensures Distinct(Inserted(f, a))
  {
    hide Find, Graft, Distinct;
    NewKidsFacts(f, a);
    if a.p != 0 {
      GraftIds(f, a.p, NewParent(f, a));
      FindInside(f, a.p);
      assert FitsBelow(f, a.p, NewKids(f, a));
      GraftDistinct(f, a.p, NewParent(f, a));
      OldIdsStay(f, a);
    }
  }

  lemma OldIdsStay(f: Forest, a: Insert)
    requires Fits(f, a) && a.p != 0 && Distinct(f)
    ensures forall j :: j in Ids(Find(f, a.p).kids) ==> j in Ids(NewKids(f, a))
  {
    NewKidsFacts(f, a);
  }

  /** What follows the new element, and what contains it. */
  lemma InsertedAround(f: Forest, a: Insert)
    requires Fits(f, a) && Distinct(f)
    ensures a.n.id in Ids(Inserted(f, a)) && Ids(Find(Inserted(f, a), a.n.id).kids) == {}
    ensures Following(Inserted(f, a), a.n.id)
         == AfterIds(KidsOf(f, a.p), a.b) + if a.p == 0 then {} else Following(f, a.p)
    ensures Ancestors(Inserted(f, a), a.n.id) == if a.p == 0 then {} else Ancestors(f, a.p) + {a.p}
  {
    hide Find, Graft, Distinct, Following, Ancestors;
    NewKidsFacts(f, a);
    InsertedIds(f, a);
    NotInKids(f, a);
    InsertFollowing(KidsOf(f, a.p), a.b, a.n, a.v);
    NilDistinct(a.n.kids);
    if a.p != 0 {
      FindInside(f, a.p);
      assert FitsBelow(f, a.p, NewKids(f, a));
      GraftFind(f, a.p, NewParent(f, a));
      BelowNode(Inserted(f, a), a.p, a.n.id);
    }
  }

  lemma NotInKids(f: Forest, a: Insert)
    requires Fits(f, a) && Distinct(f)
    ensures a.n.id !in Ids(KidsOf(f, a.p))
  {
    NewKidsFacts(f, a);
  }

  // ----------------------------------------------------------------------------------- links

  lemma InsertedWeb(e: Index, e1: Index, e2: Index, f: Forest, a: Insert)
    requires Fits(f, a) && Agree(e, f) && Prepared(e, e1, f, a) && LinkedIn(e1, e2, f, a)
    ensures Links(e2, Inserted(f, a), 0) && Ring(e2, Inserted(f, a))
  {
    if a.p != 0 {
      hide Links, Ring, Spans, Find, Graft, Distinct, Virtual;
      LinksInRange(e, f, 0);
      NodeRecord(e, f, a.p, 0);
      SameOutside(e, e1, e2, f, a);
      GraftLinks(e, e2, f, 0, a.p, NewParent(f, a));
      GraftRing(e, e2, f, a.p, NewParent(f, a));
    }
  }

  lemma SameOutside(e: Index, e1: Index, e2: Index, f: Forest, a: Insert)
    requires Fits(f, a) && a.p != 0 && Prepared(e, e1, f, a) && LinkedIn(e1, e2, f, a)
    ensures forall j: nat :: Outside(f, a.p, j) && j < |e| ==> e2[j] == e[j]
  {
    hide Siblings, Find, InsertIn;
  }

  // ----------------------------------------------------------------------------------- spans

  /** The text of the children has grown by what was inserted beyond the old gap. */
  lemma InsertedLength(f: Forest, a: Insert)
    requires Fits(f, a)
    ensures var k := KidsOf(f, a.p);
      |Text(NewKids(f, a))| == |Text(k)| + |a.n.gap| + Width(a.n) + |a.v| - |GapAfter(k, a.b)|
    ensures a.p != 0 ==> Growth(f, a) == Width(NewParent(f, a)) - Width(Find(f, a.p))
  {
    hide Find, Graft;
    InsertText(KidsOf(f, a.p), a.b, a.n, a.v);
    if a.p != 0 {
      GraftLength(f, a.p, NewParent(f, a));
    }
  }

  /** e3 is the index after x_Adjust. */
  ghost predicate Shifted(e2: Index, e3: Index, f: Forest, a: Insert)
    requires Fits(f, a)
  {
    a.n.id in Ids(Inserted(f, a)) && e3 == Adjusted(e2, Inserted(f, a), a.n.id, Growth(f, a), false)
  }

  /** What has happened to the records, seen from the old document. */
  ghost predicate AllSettled(e1: Index, e3: Index, f: Forest, a: Insert, d: int)
    requires Fits(f, a)
  {
    |e3| == |e1| == a.n.id + 1 &&
    NodeSpan(e3[a.n.id], a.n, ContentAt(f, a) + EndOf(KidsOf(f, a.p), a.b) + |a.n.gap|) &&
    forall j :: 0 <= j < a.n.id ==>
      GrownBy(e1[j], e3[j], j in AfterIds(KidsOf(f, a.p), a.b) || (a.p != 0 && j in Following(f, a.p)),
              j == a.p || j == 0 || (a.p != 0 && j in Ancestors(f, a.p)), d)
  }

  lemma SettledRecords(e: Index, e1: Index, e2: Index, e3: Index, f: Forest, a: Insert)
    requires Fits(f, a) && Distinct(f) && Prepared(e, e1, f, a) && LinkedIn(e1, e2, f, a) && Shifted(e2, e3, f, a)
    ensures AllSettled(e1, e3, f, a, Growth(f, a))
  {
    hide Find, Graft, Distinct, Following, Ancestors, Inserted, InsertIn, Growth, EndOf, ContentAt, AfterIds, KidsOf;
    hide Prepared, LinkedIn, Shifted, GrownBy, NodeSpan;
    InsertedAround(f, a);
    NewSettled(e, e1, e2, e3, f, a);
    forall j | 0 <= j < a.n.id
      ensures GrownBy(e1[j], e3[j], j in AfterIds(KidsOf(f, a.p), a.b) || (a.p != 0 && j in Following(f, a.p)),
                      j == a.p || j == 0 || (a.p != 0 && j in Ancestors(f, a.p)), Growth(f, a))
    {
      OneSettled(e, e1, e2, e3, f, a, j);
    }
  }

  lemma NewSettled(e: Index, e1: Index, e2: Index, e3: Index, f: Forest, a: Insert)
    requires Fits(f, a) && Distinct(f) && Prepared(e, e1, f, a) && LinkedIn(e1, e2, f, a) && Shifted(e2, e3, f, a)
    ensures |e3| == |e1| == a.n.id + 1 &&
      NodeSpan(e3[a.n.id], a.n, ContentAt(f, a) + EndOf(KidsOf(f, a.p), a.b) + |a.n.gap|)
  {
    hide Find, Graft, Distinct, Following, Ancestors, Inserted, InsertIn, Growth, EndOf, ContentAt, AfterIds, Siblings;
    InsertedAround(f, a);
    NotFollowing(f, a);
  }

  lemma OneSettled(e: Index, e1: Index, e2: Index, e3: Index, f: Forest, a: Insert, j: nat)
    requires Fits(f, a) && Prepared(e, e1, f, a) && LinkedIn(e1, e2, f, a) && Shifted(e2, e3, f, a) && j < a.n.id
    requires Ids(Find(Inserted(f, a), a.n.id).kids) == {}
    ensures |e3| == |e1| == a.n.id + 1 &&
      GrownBy(e1[j], e3[j], j in Following(Inserted(f, a), a.n.id),
        j in Ancestors(Inserted(f, a), a.n.id) || j == 0, Growth(f, a))
  {
    hide Siblings, Find, Graft, Distinct, Following, Ancestors, Inserted, InsertIn, Growth, EndOf, ContentAt, AfterIds;
  }

  lemma NotFollowing(f: Forest, a: Insert)
    requires Fits(f, a) && Distinct(f)
    ensures a.n.id !in Following(Inserted(f, a), a.n.id) && a.n.id !in Ancestors(Inserted(f, a), a.n.id)
  {
    InsertedIds(f, a);
    InsertedAround(f, a);
    FollowingOutside(Inserted(f, a), a.n.id);
  }

  lemma KidsSettled(e: Index, e1: Index, e3: Index, f: Forest, a: Insert, d: int)
    requires Fits(f, a) && Distinct(f) && Spans(e, f, 0) && Prepared(e, e1, f, a) && AllSettled(e1, e3, f, a, d)
    requires d == Growth(f, a)
    ensures Spans(e3, NewKids(f, a), ContentAt(f, a))
  {
    hide Find, Graft, Distinct, Following, Ancestors, Inserted, EndOf, AfterIds, Front, GapAfter, Growth, InsertIn;
    var k := KidsOf(f, a.p);
    var delta := |a.n.gap| + Width(a.n) + |a.v| - |GapAfter(k, a.b)|;
    KidsStart(e, f, a);
    InsertedLength(f, a);
    NewKidsFacts(f, a);
    GrowthOfKids(f, a);
    KidsNotAround(f, a);
    NilSpans(e3, a.n.kids, ContentAt(f, a) + EndOf(k, a.b) + |a.n.gap| + |a.n.tag|);
    KidsDistinct(f, a.p);
    forall j | j in Ids(k)
      ensures j < |e| && SameSpan(e[j], e3[j], if j in AfterIds(k, a.b) then delta else 0)
    {
      SpansInRange(e, f, 0);
    }
    InsertSpans(e, e3, k, a.b, a.n, a.v, ContentAt(f, a), delta);
  }

  /** When p has children already, the document grows by what its content grows. */
  lemma GrowthOfKids(f: Forest, a: Insert)
    requires Fits(f, a)
    ensures KidsOf(f, a.p).Node? || a.p == 0 ==> Growth(f, a) == |Text(NewKids(f, a))| - |Text(KidsOf(f, a.p))|
  {
    hide Find, Graft, InsertIn;
    InsertedLength(f, a);
  }

  lemma KidsStart(e: Index, f: Forest, a: Insert)
    requires Fits(f, a) && Spans(e, f, 0)
    ensures Spans(e, KidsOf(f, a.p), ContentAt(f, a))
  {
    if a.p != 0 {
      SpanOfNode(e, f, a.p, 0);
      if KidsOf(f, a.p).Nil? { NilSpans(e, KidsOf(f, a.p), ContentAt(f, a)); }
    }
  }

  /** The children of p neither follow p nor contain it. */
  lemma KidsNotAround(f: Forest, a: Insert)
    requires Fits(f, a) && Distinct(f)
    ensures forall j :: j in Ids(KidsOf(f, a.p)) ==>
      j != a.p && j != 0 && j != a.n.id && (a.p != 0 ==> j !in Following(f, a.p) && j !in Ancestors(f, a.p))
    ensures AfterIds(KidsOf(f, a.p), a.b) <= Ids(KidsOf(f, a.p))
  {
    NewKidsFacts(f, a);
    DistinctNoZero(f);
    InsertIds(KidsOf(f, a.p), a.b, a.n, a.v);
    if a.p != 0 {
      FollowingOutside(f, a.p);
      KidsNotSelf(f, a.p);
    }
  }

  lemma MovedAroundInsert(e: Index, e1: Index, e3: Index, f: Forest, a: Insert, d: int)
    requires Fits(f, a) && a.p != 0 && Distinct(f) && Spans(e, f, 0) && Prepared(e, e1, f, a) &&
      AllSettled(e1, e3, f, a, d)
    ensures MovedAround(e, e3, f, a.p, d)
  {
    hide Spans, Find, Distinct, Following, Ancestors, AfterIds, EndOf, ContentAt, NewRecord;
    SpansInRange(e, f, 0);
    DistinctNoZero(f);
    KidsNotAround(f, a);
  }

  lemma ParentSettled(e: Index, e1: Index, e3: Index, f: Forest, a: Insert, d: int)
    requires Fits(f, a) && a.p != 0 && Distinct(f) && Spans(e, f, 0) && Prepared(e, e1, f, a) &&
      AllSettled(e1, e3, f, a, d)
    requires d == Growth(f, a)
    ensures NodeSpan(e3[a.p], NewParent(f, a), |Front(f, a.p)|) && 0 < a.p < |e3|
  {
    hide Spans, Find, Distinct, Following, Ancestors, AfterIds, EndOf, ContentAt, Front, Growth, InsertIn, NewRecord;
    SpanOfNode(e, f, a.p, 0);
    KidsNotAround(f, a);
    FollowingOutside(f, a.p);
    InsertedLength(f, a);
  }

  lemma InsertedSpans(e: Index, e1: Index, e3: Index, f: Forest, a: Insert, d: int)
    requires Fits(f, a) && Distinct(f) && Spans(e, f, 0) && Prepared(e, e1, f, a) && AllSettled(e1, e3, f, a, d)
    requires d == Growth(f, a)
    ensures Spans(e3, Inserted(f, a), 0)
  {
    hide Spans, Find, Graft, Distinct, MovedAround, Prepared, AllSettled, InsertIn, Growth, Front, NodeSpan;
    KidsSettled(e, e1, e3, f, a, d);
    if a.p != 0 {
      MovedAroundInsert(e, e1, e3, f, a, d);
      ParentSettled(e, e1, e3, f, a, d);
      InsertedLength(f, a);
      GraftSpans(e, e3, f, a.p, NewParent(f, a), 0, d);
    }
  }

  lemma InsertedRoot(e: Index, e1: Index, e2: Index, e3: Index, f: Forest, a: Insert)
    requires Fits(f, a) && Agree(e, f) && Prepared(e, e1, f, a) && LinkedIn(e1, e2, f, a) && Shifted(e2, e3, f, a)
    ensures |e3| > 0 && Virtual(e3[0], Inserted(f, a))
  {
    hide Siblings, Spans, Links, Ring, Find, Graft, Distinct, Following, Ancestors, InsertIn, Text, EndOf, ContentAt,
      NewRecord;
    InsertedAround(f, a);
    DistinctNoZero(f);
    NewKidsFacts(f, a);
    NotZeroAround(f, a);
    if a.p != 0 {
      GraftIds(f, a.p, NewParent(f, a));
      DistinctZeroKids(f, a);
    }
  }

  lemma NotZeroAround(f: Forest, a: Insert)
    requires Fits(f, a) && Distinct(f) && a.n.id in Ids(Inserted(f, a))
    ensures 0 !in Following(Inserted(f, a), a.n.id)
  {
    InsertedIds(f, a);
    FollowingInside(Inserted(f, a), a.n.id);
    DistinctNoZero(f);
  }

  lemma DistinctZeroKids(f: Forest, a: Insert)
    requires Fits(f, a) && Distinct(f)
    ensures 0 !in Ids(KidsOf(f, a.p))
  {
    NewKidsFacts(f, a);
    DistinctNoZero(f);
  }

  /** The index agrees with the new document after the text, the links and the offsets are done. */
  lemma InsertionAgrees(e: Index, e1: Index, e2: Index, e3: Index, f: Forest, a: Insert)
    requires Fits(f, a) && Agree(e, f) && Prepared(e, e1, f, a) && LinkedIn(e1, e2, f, a) && Shifted(e2, e3, f, a)
    ensures Agree(e3, Inserted(f, a))
  {
    hide Spans, Links, Ring, Find, Graft, Distinct, Text, Inserted, Growth, Prepared, LinkedIn, Shifted, AllSettled;
    InsertedIds(f, a);
    InsertedWeb(e, e1, e2, f, a);
    SettledRecords(e, e1, e2, e3, f, a);
    InsertedSpans(e, e1, e3, f, a, Growth(f, a));
    InsertedRoot(e, e1, e2, e3, f, a);
    ShiftKeepsWeb(e2, e3, f, a);
  }

  lemma ShiftKeepsWeb(e2: Index, e3: Index, f: Forest, a: Insert)
    requires Fits(f, a) && Shifted(e2, e3, f, a) && Links(e2, Inserted(f, a), 0) && Ring(e2, Inserted(f, a))
    ensures Links(e3, Inserted(f, a), 0) && Ring(e3, Inserted(f, a)) && |e3| == |e2|
  {
    hide Links, Ring, Find, Inserted, Following, Ancestors, Growth;
    LinksInRange(e2, Inserted(f, a), 0);
    LinksFrame(e2, e3, Inserted(f, a), 0);
    RingFrame(e2, e3, Inserted(f, a));
  }
}
