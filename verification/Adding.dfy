/**
  The index after AddElem has put in a new element. The record's start may be short of where the
  element stands: AddElem puts a line end in front of a first child whatever its flags say, but
  counts it only when line ends were asked for.
 */
module Adding {
  import opened ElemForest
  import opened AdjustWalk
  import opened ForestEdit
  import opened ForestGraft
  import opened SiblingLinks
  import opened Agreement
  import opened Tags
  import opened DocText
  import opened EditPlan
  import opened EditFacts
  import opened EditKeeps
  import I = Insertion

  /** The index with the start of record x moved by d. */
  function Late(e: Index, x: nat, d: int): Index
    requires x < |e|
  {
    e[x := e[x].(start := e[x].start + d)]
  }

  /** x_Adjust neither reads nor writes the record it starts from, links apart. */
  lemma AdjustedElsewhere(e: Index, f: Forest, i: nat, d: int, afterPos: bool, p: ElemPos)
    requires i in Ids(f) && Distinct(f) && i < |e|
    ensures |Adjusted(e, f, i, d, afterPos)| == |e|
    ensures Adjusted(e[i := p], f, i, d, afterPos) == Adjusted(e, f, i, d, afterPos)[i := p]
    ensures Adjusted(e, f, i, d, afterPos)[i] == e[i]
  {
    hide Find, Following, Ancestors, Distinct;
    DistinctNoZero(f);
    FollowingOutside(f, i);
    KidsNotSelf(f, i);
    var A := (if afterPos then {} else Ids(Find(f, i).kids)) + Following(f, i);
    MovedElsewhere(e, A, Ancestors(f, i) + {0}, d, i, p);
  }

  lemma MovedElsewhere(e: Index, A: set<nat>, B: set<nat>, d: int, i: nat, p: ElemPos)
    requires i < |e| && i !in A && i !in B
    ensures |Moved(e, A, B, d)| == |e| && Moved(e, A, B, d)[i] == e[i]
    ensures Moved(e[i := p], A, B, d) == Moved(e, A, B, d)[i := p]
  {
  }

  lemma LateLinkedIn(e1: Index, e2: Index, f: Forest, a: I.Insert, d: int)
    requires I.Fits(f, a) && a.p < |e1| && I.LinkedIn(e1, e2, f, a) && a.n.id < |e1|
    ensures I.LinkedIn(Late(e1, a.n.id, d), Late(e2, a.n.id, d), f, a)
  {
    hide Find, Distinct, Links, Ring, I.NewKids;
    var x, k := a.n.id, I.NewKids(f, a);
    LinksInRange(e2, k, a.p);
    LinksFrame(e2, Late(e2, x, d), k, a.p);
    RingFrame(e2, Late(e2, x, d), k);
  }

  /** What the walk of x_Adjust needs after the new element is linked in. */
  ghost predicate Walkable(e: Index, f: Forest, x: nat) {
    x in Ids(f) && Distinct(f) && 0 !in Ids(f) && Links(e, f, 0) && Opened(e, f) && |e| > 0 && e[0].startTagLen == 0
  }

  lemma AddedWalkable(e: Index, e1: Index, e2: Index, f: Forest, a: I.Insert, d: int)
    requires I.Fits(f, a) && Agree(e, f) && a.n.id < |e1| && I.Prepared(e, Late(e1, a.n.id, d), f, a) &&
      I.LinkedIn(e1, e2, f, a)
    requires Tagged(f) && |a.n.tag| > 0 && (a.p != 0 ==> |a.T| > 0)
    ensures Walkable(e2, I.Inserted(f, a), a.n.id)
  {
    hide Find, Distinct, Links, Ring, Spans, I.NewKids, I.Inserted, Tagged, Virtual;
    var e1', e2' := Late(e1, a.n.id, d), Late(e2, a.n.id, d);
    LateLinkedIn(e1, e2, f, a, d);
    I.InsertedWeb(e, e1', e2', f, a);
    I.InsertedIds(f, a);
    DistinctNoZero(f);
    LinksInRange(e2', I.Inserted(f, a), 0);
    LinksFrame(e2', e2, I.Inserted(f, a), 0);
    AddedOpened(e, e1', e2', f, a);
    RootTag(e, e1', e2', f, a);
  }

  lemma RootTag(e: Index, e1: Index, e2: Index, f: Forest, a: I.Insert)
    requires I.Fits(f, a) && Agree(e, f) && I.Prepared(e, e1, f, a) && I.LinkedIn(e1, e2, f, a)
    ensures |e2| > 0 && e2[0].startTagLen == 0
  {
    hide Find, Distinct, Links, Ring, Spans, I.NewKids;
    I.NewKidsFacts(f, a);
    DistinctNoZero(f);
  }

  lemma AddedOpened(e: Index, e1: Index, e2: Index, f: Forest, a: I.Insert)
    requires I.Fits(f, a) && Agree(e, f) && I.Prepared(e, e1, f, a) && I.LinkedIn(e1, e2, f, a)
    requires Tagged(f) && |a.n.tag| > 0 && (a.p != 0 ==> |a.T| > 0)
    ensures Opened(e2, I.Inserted(f, a))
  {
    hide Find, Distinct, Links, Ring, Spans, I.NewKids, I.Inserted, Tagged, Virtual, Siblings;
    I.InsertedIds(f, a);
    TaggedOpened(e, f, 0);
    LinksInRange(e, f, 0);
    KidsNoP(f, a);
  }

  lemma KidsNoP(f: Forest, a: I.Insert)
    requires I.Fits(f, a) && Distinct(f)
    ensures a.p !in Ids(KidsOf(f, a.p)) && a.p != a.n.id
  {
    I.NewKidsFacts(f, a);
  }

  /** Once its start is put right, the index agrees with the new document. */
  lemma AddedAgrees(e: Index, e1: Index, e2: Index, f: Forest, a: I.Insert, d: int)
    requires I.Fits(f, a) && Agree(e, f) && a.n.id < |e1| && I.Prepared(e, Late(e1, a.n.id, d), f, a) &&
      I.LinkedIn(e1, e2, f, a)
    requires a.n.id in Ids(I.Inserted(f, a))
    ensures var e3 := Adjusted(e2, I.Inserted(f, a), a.n.id, I.Growth(f, a), false);
      a.n.id < |e3| == |e2| && Agree(Late(e3, a.n.id, d), I.Inserted(f, a)) && e3[a.n.id] == e2[a.n.id]
  {
    hide Find, Distinct, Links, Ring, Spans, I.NewKids, I.Inserted, I.Growth, Virtual, Adjusted;
    var x := a.n.id;
    var e1', e2' := Late(e1, x, d), Late(e2, x, d);
    LateLinkedIn(e1, e2, f, a, d);
    I.InsertedIds(f, a);
    AdjustedElsewhere(e2, I.Inserted(f, a), x, I.Growth(f, a), false, e2'[x]);
    I.InsertionAgrees(e, e1', e2', Adjusted(e2', I.Inserted(f, a), x, I.Growth(f, a), false), f, a);
  }

  /** Records outside the document are untouched, and no element has lost its end. */
  lemma AddedRest(e: Index, e1: Index, e2: Index, f: Forest, a: I.Insert, d: int)
    requires I.Fits(f, a) && Agree(e, f) && a.n.id < |e1| && I.Prepared(e, Late(e1, a.n.id, d), f, a) &&
      I.LinkedIn(e1, e2, f, a)
    requires a.n.id in Ids(I.Inserted(f, a)) && Ended(e, f) && !e1[a.p].nonEnded
    ensures var e3 := Adjusted(e2, I.Inserted(f, a), a.n.id, I.Growth(f, a), false);
      |e3| == |e| + 1 && Ended(e3, I.Inserted(f, a)) && (forall j: nat :: 0 < j < |e| && j !in Ids(f) ==> e3[j] == e[j])
  {
    hide *;
    AddedRecords(e, e1, e2, f, a, d);
    IdsAfter(f, a, e);
    AdjustKeeps(e2, I.Inserted(f, a), a.n.id, I.Growth(f, a), false);
    EndedAfter(e, e2, Adjusted(e2, I.Inserted(f, a), a.n.id, I.Growth(f, a), false), f, I.Inserted(f, a), a.p, a.n.id);
  }

  lemma EndedAfter(e: Index, e2: Index, e3: Index, f: Forest, f': Forest, p: nat, x: nat)
    requires Ended(e, f) && |e3| == |e2| == |e| + 1 && x == |e|
    requires forall j: nat :: j in Ids(f') ==> j in Ids(f) || j == x
    requires forall j: nat :: j < |e2| ==> e3[j].nonEnded == e2[j].nonEnded
    requires forall j: nat :: j < |e| && j != p ==> e2[j].nonEnded == e[j].nonEnded
    requires p < |e| && !e2[p].nonEnded && !e2[x].nonEnded
    ensures Ended(e3, f')
  {
  }

  lemma IdsAfter(f: Forest, a: I.Insert, e: Index)
    requires I.Fits(f, a) && Agree(e, f)
    ensures Distinct(I.Inserted(f, a)) && forall j: nat :: j in Ids(I.Inserted(f, a)) <==> j in Ids(f) || j == a.n.id
  {
    hide Find, Links, Ring, Spans, Virtual, I.Inserted, Distinct;
    I.InsertedIds(f, a);
  }

  /** x_Adjust changes starts and lengths only, and only in the document and of the virtual parent. */
  lemma AdjustKeeps(e: Index, f: Forest, i: nat, d: int, afterPos: bool)
    requires i in Ids(f) && Distinct(f)
    ensures var e3 := Adjusted(e, f, i, d, afterPos);
      |e3| == |e| && (forall j: nat :: j < |e| ==> e3[j].nonEnded == e[j].nonEnded) &&
      (forall j: nat :: 0 < j < |e| && j !in Ids(f) ==> e3[j] == e[j])
  {
    hide Find, Following, Ancestors, Distinct;
    FollowingInside(f, i);
    FindInside(f, i);
  }

  lemma AddedRecords(e: Index, e1: Index, e2: Index, f: Forest, a: I.Insert, d: int)
    requires I.Fits(f, a) && Agree(e, f) && a.n.id < |e1| && I.Prepared(e, Late(e1, a.n.id, d), f, a) &&
      I.LinkedIn(e1, e2, f, a)
    ensures |e2| == |e| + 1 && a.n.Node? && a.n.id == |e|
    ensures forall j: nat :: 0 < j < |e| && j !in Ids(f) ==> e2[j] == e[j]
    ensures forall j: nat :: j < |e| && j != a.p ==> e2[j].nonEnded == e[j].nonEnded
    ensures a.p < |e| && e2[a.p].nonEnded == e1[a.p].nonEnded && !e2[a.n.id].nonEnded
  {
    hide Find, Distinct, Links, Ring, Spans, I.NewKids, I.Inserted, I.Growth, Virtual, Siblings;
    KidsNoP(f, a);
    I.NewKidsFacts(f, a);
  }

  /** The records of the document as they were, but for the tag lengths of the parent. */
  ghost predicate Retagged(e: Index, e': Index, a: I.Insert) {
    |e| <= |e'| && a.p < |e| && (forall j :: 0 <= j < |e| && j != a.p ==> e'[j] == e[j]) &&
    e'[a.p] == if a.p == 0 then e[0] else e[a.p].(startTagLen := |a.T|, endTagLen := |a.C|)
  }

  lemma PreparedIs(e: Index, e1: Index, f: Forest, a: I.Insert, d: int)
    requires I.Fits(f, a) && a.n.id == |e| && |e1| == |e| + 1 && Retagged(e, e1, a)
    requires I.NewRecord(e1[a.n.id], a.n, I.ContentAt(f, a) + EndOf(KidsOf(f, a.p), a.b) + |a.n.gap| - d)
    ensures I.Prepared(e, Late(e1, a.n.id, d), f, a)
  {
    hide Find, KidsOf, EndOf, I.ContentAt;
  }

  /** What x_LinkElem needs. */
  lemma ReadyToLink(e: Index, e1: Index, f: Forest, a: I.Insert)
    requires I.Fits(f, a) && Agree(e, f) && a.n.id == |e| && |e1| == |e| + 1 && Retagged(e, e1, a)
    requires !e1[a.n.id].deleted && e1[a.n.id].child == 0
    ensures Siblings(e1, KidsOf(f, a.p), a.p) && e1[a.p].child == First(KidsOf(f, a.p))
    ensures Loose(e1, a.n, KidsOf(f, a.p), a.p)
  {
    hide Find, Spans, Links, Ring, Distinct;
    var k := KidsOf(f, a.p);
    KidsFacts(e, f, a.p);
    LinksInRange(e, k, a.p);
    LinksFrame(e, e1, k, a.p);
    RingFrame(e, e1, k);
    NotAmong(f, a);
    LooseNil(e1, a.n, k, a.p);
  }

  lemma NotAmong(f: Forest, a: I.Insert)
    requires I.Fits(f, a) && Distinct(f)
    ensures a.n.id !in Ids(KidsOf(f, a.p))
  {
    I.NotInKids(f, a);
  }

  lemma LooseNil(e: Index, n: Forest, k: Forest, p: nat)
    requires n.Node? && n.kids.Nil? && 0 < n.id < |e| && n.id != p && n.id !in Ids(k) && !e[n.id].deleted &&
      e[n.id].child == 0
    ensures Loose(e, n, k, p)
  {
  }

  /** An index that agrees with a document tells where each element stands: there is only one such start. */
  lemma StartIsFixed(e: Index, f: Forest, x: nat, d: int, head: nat, dead: seq<nat>)
    requires x in Ids(f) && x < |e| && Indexed(Late(e, x, d), f, head, dead)
    ensures Indexed(e, f, head, dead) <==> d == 0
  {
    hide Find, Distinct, Links, Ring, Spans, Virtual;
    SpanOfNode(Late(e, x, d), f, x, 0);
    if Agree(e, f) { SpanOfNode(e, f, x, 0); }
    if d == 0 { assert Late(e, x, d) == e; }
  }

  // --------------------------------------------------------------------- the rest of the state

  lemma AgreeExtends(e: Index, p: ElemPos, f: Forest)
    requires Agree(e, f)
    ensures Agree(e + [p], f)
  {
    LinksInRange(e, f, 0);
    LinksFrame(e, e + [p], f, 0);
    RingFrame(e, e + [p], f);
    SpansShift(e, e + [p], f, 0, 0);
  }

  lemma InsertedWellTagged(f: Forest, a: I.Insert)
    requires I.Fits(f, a) && WellTagged(f) && TagsMatch(a.n.tag, a.n.kids, a.n.close)
    requires a.p != 0 ==> TagsMatch(a.T, I.NewKids(f, a), a.C)
    ensures WellTagged(I.Inserted(f, a))
  {
    hide Find, TagsMatch, InsertIn, Graft;
    KidsWellTagged(f, a.p);
    NilWellTagged(a.n.kids);
    InsertWellTagged(KidsOf(f, a.p), a.b, a.n, a.v);
    if a.p != 0 { GraftWellTagged(f, a.p, I.NewParent(f, a)); }
  }

  lemma NilWellTagged(k: Forest)
    requires k.Nil?
    ensures WellTagged(k)
  {
  }

  /** The parent's tags still match, split or not. */
  lemma PlanTags(f: Forest, p: nat, rel: nat, insert: bool, noLines: bool, n: Forest)
    requires p in Ids(f) && n.Node? && WellTagged(f) && I.Fits(f, Plan(f, p, rel, insert, noLines, n)) && p != 0
    ensures var a := Plan(f, p, rel, insert, noLines, n); TagsMatch(a.T, I.NewKids(f, a), a.C) && |a.T| > 0
  {
    hide Find, InsertIn, WellTagged;
    var a := Plan(f, p, rel, insert, noLines, n);
    var m := Find(f, p);
    NodeWellTagged(f, p);
    var t, space :| TagsAre(t, space, m.tag, m.kids, m.close);
    TagTextFacts(t);
    if SplitsTag(f, p) {
      SplitTagsMatch(t, I.NewKids(f, a));
    } else {
      assert TagsAre(t, space, a.T, I.NewKids(f, a), a.C);
    }
  }

  lemma SplitTagsMatch(t: StartTag, k: Forest)
    requires TagOk(t) && t.empty
    ensures TagsMatch(Unslashed(TagText(t)), k, EndTag(TagName(TagText(t)), "")) && |Unslashed(TagText(t))| > 0
    ensures TagName(TagText(t)) == t.name && Unslashed(TagText(t)) == TagHead(t) + ">"
  {
    hide NameAt;
    var x := TagText(t);
    assert x[0..0 + |x|] == x;
    TagNameIs(t, x, 0);
    assert (TagHead(t) + "/>")[..|TagHead(t)|] == TagHead(t);
    assert TagsAre(t.(empty := false), "", TagHead(t) + ">", k, EndTag(t.name, ""));
  }

  lemma KidsOfParent(f: Forest, a: I.Insert)
    requires I.Fits(f, a)
    ensures (a.p == 0 || a.p in Ids(f)) && (a.b == 0 || a.b in Tops(KidsOf(f, a.p))) && a.n.Node?
    ensures I.NewKids(f, a) == InsertIn(KidsOf(f, a.p), a.b, a.n, a.v)
  {
  }

  lemma ParentEnded(e: Index, e1: Index, f: Forest, a: I.Insert)
    requires I.Fits(f, a) && Agree(e, f) && Ended(e, f) && Retagged(e, e1, a)
    ensures !e1[a.p].nonEnded
  {
  }
}
