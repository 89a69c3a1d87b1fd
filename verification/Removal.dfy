/**
  Removing an element with all its descendants, and the release of their records, keeps the index
  in agreement with the text.
 */
module Removal {
  import opened ElemForest
  import opened AdjustWalk
  import opened ReleaseWalk
  import opened ForestEdit
  import opened ForestGraft
  import opened SiblingLinks
  import opened Agreement

  /** The child i of p goes; g is the text left between its neighbours. */
  datatype Remove = Remove(p: nat, i: nat, g: string)

  ghost predicate Applies(f: Forest, a: Remove) {
    (a.p == 0 || a.p in Ids(f)) && a.i in Tops(KidsOf(f, a.p))
  }

  ghost function LeftKids(f: Forest, a: Remove): Forest
    requires Applies(f, a)
  {
    RemoveIn(KidsOf(f, a.p), a.i, a.g)
  }

  ghost function LeftParent(f: Forest, a: Remove): (n: Forest)
    requires Applies(f, a) && a.p != 0
    ensures n.Node? && n.kids == LeftKids(f, a) && n.tag == Find(f, a.p).tag && n.close == Find(f, a.p).close
  {
    Node("", a.p, Find(f, a.p).tag, LeftKids(f, a), Find(f, a.p).close, Nil(""))
  }

  ghost function RemovedFrom(f: Forest, a: Remove): Forest
    requires Applies(f, a)
  {
    if a.p == 0 then LeftKids(f, a) else Graft(f, a.p, LeftParent(f, a))
  }

  ghost function Growth(f: Forest, a: Remove): int
    requires Applies(f, a)
  {
    |Text(RemovedFrom(f, a))| - |Text(f)|
  }

  /** mid has the offsets shifted and the element bypassed; e3 has its records released. */
  ghost predicate Unlinked(e: Index, mid: Index, e3: Index, f: Forest, a: Remove, deleted: nat)
    requires Applies(f, a)
  {
    a.i in Ids(f) && a.p < |e| &&
    var eA := Adjusted(e, f, a.i, Growth(f, a), true);
    Siblings(e3, LeftKids(f, a), a.p) && |e3| == |e| &&
    e3[a.p] == eA[a.p].(child := First(LeftKids(f, a))) &&
    Relinked(eA, mid, Ids(LeftKids(f, a)), a.p) &&
    e3 == ReleaseAll(mid, Post(TopNode(KidsOf(f, a.p), a.i).kids) + [a.i], deleted)
  }

  lemma KidDistinct(f: Forest, p: nat)
    requires (p == 0 || p in Ids(f)) && Distinct(f)
    ensures Distinct(KidsOf(f, p)) && p !in Ids(KidsOf(f, p)) && Ids(KidsOf(f, p)) <= Ids(f)
  {
    DistinctNoZero(f);
    if p != 0 {
      KidsNotSelf(f, p);
      FindInside(f, p);
    }
  }

  /** The removed element in the whole document. */
  lemma RemovedNode(f: Forest, a: Remove)
    requires Applies(f, a) && Distinct(f)
    ensures a.i in Ids(f) && Find(f, a.i) == TopNode(KidsOf(f, a.p), a.i)
    ensures Following(f, a.i)
         == Ids(TopNode(KidsOf(f, a.p), a.i).rest) + if a.p == 0 then {} else Following(f, a.p)
    ensures Ancestors(f, a.i) == if a.p == 0 then {} else Ancestors(f, a.p) + {a.p}
  {
    hide Find, Distinct, Following, Ancestors;
    KidDistinct(f, a.p);
    TopNodeFacts(KidsOf(f, a.p), a.i);
    if a.p != 0 {
      BelowNode(f, a.p, a.i);
    }
  }

  lemma LeftKidsFacts(f: Forest, a: Remove)
    requires Applies(f, a) && Distinct(f)
    ensures var k := KidsOf(f, a.p);
      forall j :: j in Ids(LeftKids(f, a)) <==> j in Ids(k) && j != a.i && j !in Ids(TopNode(k, a.i).kids)
    ensures Distinct(LeftKids(f, a)) && a.p !in Ids(LeftKids(f, a))
    ensures Ids(KidsOf(f, a.p)) <= Ids(f)
  {
    hide Find, Distinct;
    KidDistinct(f, a.p);
    RemoveIds(KidsOf(f, a.p), a.i, a.g);
  }

  lemma RemovedIds(f: Forest, a: Remove)
    requires Applies(f, a) && Distinct(f)
    ensures forall j :: j in Ids(RemovedFrom(f, a)) ==> j in Ids(f)
    ensures forall j :: j in Ids(f) && j != a.i && j !in Ids(TopNode(KidsOf(f, a.p), a.i).kids) ==>
      j in Ids(RemovedFrom(f, a))
    ensures Distinct(RemovedFrom(f, a))
  {
    hide Find, Graft, Distinct;
    LeftKidsFacts(f, a);
    if a.p != 0 {
      GraftIds(f, a.p, LeftParent(f, a));
      assert FitsBelow(f, a.p, LeftKids(f, a));
      GraftDistinct(f, a.p, LeftParent(f, a));
    }
  }

  // ----------------------------------------------------------------------------------- spans

  /** What has happened to the records that stay. */
  ghost predicate AllSettled(e: Index, e3: Index, f: Forest, a: Remove, d: int)
    requires Applies(f, a)
  {
    |e3| == |e| &&
    forall j :: 0 <= j < |e| && j != a.i && j !in Ids(TopNode(KidsOf(f, a.p), a.i).kids) ==>
      GrownBy(e[j], e3[j], j in Ids(TopNode(KidsOf(f, a.p), a.i).rest) || (a.p != 0 && j in Following(f, a.p)),
              j == a.p || j == 0 || (a.p != 0 && j in Ancestors(f, a.p)), d)
  }

  /** Of the records that stay, only those of the old siblings and p have new links. */
  ghost predicate AllKept(e: Index, e3: Index, f: Forest, a: Remove)
    requires Applies(f, a)
  {
    |e3| == |e| && a.p < |e| &&
    SameLinks(e[a.p].(child := First(LeftKids(f, a))), e3[a.p]) && SameRing(e[a.p], e3[a.p]) &&
    forall j :: 0 <= j < |e| && j != a.p && j !in Ids(KidsOf(f, a.p)) ==>
      SameLinks(e[j], e3[j]) && SameRing(e[j], e3[j])
  }

  lemma ReleasedOthers(mid: Index, f: Forest, a: Remove, deleted: nat)
    requires Applies(f, a) && Distinct(f) && forall j :: j in Ids(f) ==> j < |mid|
    ensures var e3 := ReleaseAll(mid, Post(TopNode(KidsOf(f, a.p), a.i).kids) + [a.i], deleted);
      |e3| == |mid| &&
      forall j :: 0 <= j < |mid| && j != a.i && j !in Ids(TopNode(KidsOf(f, a.p), a.i).kids) ==> e3[j] == mid[j]
  {
    hide Find, Distinct, ReleaseAll;
    var t := TopNode(KidsOf(f, a.p), a.i);
    RemovedNode(f, a);
    KidDistinct(f, a.p);
    KidsNotSelf(f, a.i);
    FindInside(f, a.i);
    PostIds(t.kids);
    PostNoDup(t.kids);
    NoDupConcat(Post(t.kids), [a.i]);
    ReleaseAllFrame(mid, Post(t.kids) + [a.i], deleted);
  }

  lemma RecordsSettled(e: Index, mid: Index, e3: Index, f: Forest, a: Remove, deleted: nat)
    requires Applies(f, a) && Distinct(f) && Spans(e, f, 0) && Unlinked(e, mid, e3, f, a, deleted)
    ensures AllSettled(e, e3, f, a, Growth(f, a))
  {
    hide Find, Distinct, Following, Ancestors, Siblings, Spans, RemovedFrom, Growth, RemoveIn, ReleaseAll, Post,
      Adjusted;
    var eA := Adjusted(e, f, a.i, Growth(f, a), true);
    SpansInRange(e, f, 0);
    RemovedNode(f, a);
    AdjustedRecords(e, f, a);
    ReleasedOthers(mid, f, a, deleted);
    ParentStays(f, a);
    forall j | 0 <= j < |e| && j != a.i && j !in Ids(TopNode(KidsOf(f, a.p), a.i).kids)
      ensures GrownBy(e[j], e3[j], j in Ids(TopNode(KidsOf(f, a.p), a.i).rest) || (a.p != 0 && j in Following(f, a.p)),
                      j == a.p || j == 0 || (a.p != 0 && j in Ancestors(f, a.p)), Growth(f, a))
    {
      assert SameButLinks(eA[j], e3[j].(child := eA[j].child));
    }
  }

  lemma AdjustedRecords(e: Index, f: Forest, a: Remove)
    requires Applies(f, a) && Distinct(f) && a.i in Ids(f)
    ensures var eA := Adjusted(e, f, a.i, Growth(f, a), true);
      |eA| == |e| &&
      forall j :: 0 <= j < |e| ==>
        eA[j] == MovedOne(e[j], j in Ids(TopNode(KidsOf(f, a.p), a.i).rest) || (a.p != 0 && j in Following(f, a.p)),
                          j == a.p || j == 0 || (a.p != 0 && j in Ancestors(f, a.p)), Growth(f, a))
  {
    hide Find, Distinct, Following, Ancestors, Growth;
    RemovedNode(f, a);
  }

  lemma RecordsKept(e: Index, mid: Index, e3: Index, f: Forest, a: Remove, deleted: nat)
    requires Applies(f, a) && Distinct(f) && Spans(e, f, 0) && Unlinked(e, mid, e3, f, a, deleted)
    ensures AllKept(e, e3, f, a)
  {
    hide Find, Distinct, Following, Ancestors, Siblings, Spans, RemovedFrom, Growth, RemoveIn, ReleaseAll, Post,
      Adjusted;
    SpansInRange(e, f, 0);
    RemovedNode(f, a);
    LeftKidsFacts(f, a);
    KidsAround(f, a);
    AdjustedRecords(e, f, a);
    ReleasedOthers(mid, f, a, deleted);
    ParentStays(f, a);
  }

  lemma ParentStays(f: Forest, a: Remove)
    requires Applies(f, a) && Distinct(f)
    ensures a.p != a.i && a.p !in Ids(TopNode(KidsOf(f, a.p), a.i).kids)
  {
    KidDistinct(f, a.p);
    TopsInIds(KidsOf(f, a.p));
    TopNodeFacts(KidsOf(f, a.p), a.i);
  }

  /** How much shorter the children of p have become, and the document. */
  lemma RemovedLength(f: Forest, a: Remove)
    requires Applies(f, a) && Distinct(f)
    ensures var t := TopNode(KidsOf(f, a.p), a.i);
      |Text(LeftKids(f, a))| == |Text(KidsOf(f, a.p))| + |a.g| - |t.gap| - Width(t) - |t.rest.gap|
    ensures Growth(f, a) == |Text(LeftKids(f, a))| - |Text(KidsOf(f, a.p))|
    ensures a.p != 0 ==> Growth(f, a) == Width(LeftParent(f, a)) - Width(Find(f, a.p))
  {
    hide Find, Graft, Distinct;
    KidDistinct(f, a.p);
    RemoveText(KidsOf(f, a.p), a.i, a.g);
    if a.p != 0 {
      GraftLength(f, a.p, LeftParent(f, a));
    }
  }

  lemma KidsAround(f: Forest, a: Remove)
    requires Applies(f, a) && Distinct(f)
    ensures forall j :: j in Ids(KidsOf(f, a.p)) ==>
      j != a.p && j != 0 && (a.p != 0 ==> j !in Following(f, a.p) && j !in Ancestors(f, a.p))
    ensures Ids(TopNode(KidsOf(f, a.p), a.i).rest) <= Ids(KidsOf(f, a.p))
    ensures Ids(TopNode(KidsOf(f, a.p), a.i).kids) <= Ids(KidsOf(f, a.p)) && a.i in Ids(KidsOf(f, a.p))
  {
    KidDistinct(f, a.p);
    DistinctNoZero(f);
    TopsInIds(KidsOf(f, a.p));
    TopNodeFacts(KidsOf(f, a.p), a.i);
    if a.p != 0 {
      FollowingOutside(f, a.p);
    }
  }

  lemma LeftKidsSpans(e: Index, e3: Index, f: Forest, a: Remove, o: int)
    requires Applies(f, a) && Distinct(f) && Spans(e, KidsOf(f, a.p), o) && AllSettled(e, e3, f, a, Growth(f, a))
    ensures Spans(e3, LeftKids(f, a), o)
  {
    hide Find, Distinct, Following, Ancestors, Growth, RemoveIn;
    var k := KidsOf(f, a.p);
    KidDistinct(f, a.p);
    KidsAround(f, a);
    LeftKidsFacts(f, a);
    RemovedLength(f, a);
    SpansInRange(e, k, o);
    forall j | j in Ids(RemoveIn(k, a.i, a.g))
      ensures j < |e| && SameSpan(e[j], e3[j], if j in Ids(TopNode(k, a.i).rest) then Growth(f, a) else 0)
    {
    }
    RemoveSpans(e, e3, k, a.i, a.g, o, Growth(f, a));
  }

  lemma MovedAroundRemove(e: Index, e3: Index, f: Forest, a: Remove, d: int)
    requires Applies(f, a) && a.p != 0 && Distinct(f) && Spans(e, f, 0) && AllSettled(e, e3, f, a, d)
    ensures MovedAround(e, e3, f, a.p, d)
  {
    hide Spans, Find, Distinct, Following, Ancestors;
    SpansInRange(e, f, 0);
    DistinctNoZero(f);
    KidsAround(f, a);
  }

  lemma ParentSettled(e: Index, e3: Index, f: Forest, a: Remove)
    requires Applies(f, a) && a.p != 0 && Distinct(f) && Spans(e, f, 0) && AllSettled(e, e3, f, a, Growth(f, a))
    ensures 0 < a.p < |e3| && NodeSpan(e3[a.p], LeftParent(f, a), |Front(f, a.p)|)
  {
    hide Spans, Find, Distinct, Following, Ancestors, Front, Growth, RemoveIn;
    SpanOfNode(e, f, a.p, 0);
    KidsAround(f, a);
    ParentStays(f, a);
    KidDistinct(f, a.p);
    FollowingOutside(f, a.p);
    RemovedLength(f, a);
  }

  lemma RemovedSpans(e: Index, e3: Index, f: Forest, a: Remove)
    requires Applies(f, a) && Distinct(f) && Spans(e, f, 0) && AllSettled(e, e3, f, a, Growth(f, a))
    ensures Spans(e3, RemovedFrom(f, a), 0)
  {
    hide Spans, Find, Graft, Distinct, MovedAround, AllSettled, RemoveIn, Growth, Front, NodeSpan;
    if a.p != 0 {
      SpanOfNode(e, f, a.p, 0);
      LeftKidsSpans(e, e3, f, a, |Front(f, a.p)| + |Find(f, a.p).tag|);
      MovedAroundRemove(e, e3, f, a, Growth(f, a));
      ParentSettled(e, e3, f, a);
      RemovedLength(f, a);
      GraftSpans(e, e3, f, a.p, LeftParent(f, a), 0, Growth(f, a));
    } else {
      LeftKidsSpans(e, e3, f, a, 0);
    }
  }

  // ----------------------------------------------------------------------------------- links

  lemma RemovedWeb(e: Index, e3: Index, f: Forest, a: Remove)
    requires Applies(f, a) && Distinct(f) && Links(e, f, 0) && Ring(e, f) && AllKept(e, e3, f, a)
    requires Siblings(e3, LeftKids(f, a), a.p)
    ensures Links(e3, RemovedFrom(f, a), 0) && Ring(e3, RemovedFrom(f, a))
  {
    if a.p != 0 {
      hide Links, Ring, Find, Graft, Distinct, RemoveIn;
      LinksInRange(e, f, 0);
      NodeRecord(e, f, a.p, 0);
      GraftLinks(e, e3, f, 0, a.p, LeftParent(f, a));
      GraftRing(e, e3, f, a.p, LeftParent(f, a));
    }
  }

  lemma RemovedRoot(e: Index, mid: Index, e3: Index, f: Forest, a: Remove, deleted: nat)
    requires Applies(f, a) && Distinct(f) && Virtual2(e, f) && Unlinked(e, mid, e3, f, a, deleted)
    requires forall j :: j in Ids(f) ==> 0 < j < |e|
    ensures |e3| > 0 && Virtual(e3[0], RemovedFrom(f, a))
  {
    hide Find, Graft, Distinct, Following, Ancestors, Siblings, RemoveIn, ReleaseAll, Post, Text;
    DistinctNoZero(f);
    RemovedNode(f, a);
    KidsAround(f, a);
    LeftKidsFacts(f, a);
    KidDistinct(f, a.p);
    FollowingInside(f, a.i);
    ReleasedOthers(mid, f, a, deleted);
    if a.p != 0 {
      GraftIds(f, a.p, LeftParent(f, a));
    }
  }

  ghost predicate Virtual2(e: Index, f: Forest) {
    |e| > 0 && Virtual(e[0], f)
  }

  /** The index agrees with the document that is left. */
  lemma RemovalAgrees(e: Index, mid: Index, e3: Index, f: Forest, a: Remove, deleted: nat)
    requires Applies(f, a) && Agree(e, f) && Unlinked(e, mid, e3, f, a, deleted)
    ensures Agree(e3, RemovedFrom(f, a))
  {
    hide Spans, Links, Ring, Find, Graft, Distinct, Text, RemovedFrom, Growth, AllSettled, AllKept, Virtual;
    SpansInRange(e, f, 0);
    RemovedIds(f, a);
    RecordsSettled(e, mid, e3, f, a, deleted);
    RecordsKept(e, mid, e3, f, a, deleted);
    RemovedSpans(e, e3, f, a);
    RemovedWeb(e, e3, f, a);
    RemovedRoot(e, mid, e3, f, a, deleted);
  }
}
