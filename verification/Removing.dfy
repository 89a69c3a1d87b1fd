/**
  RemoveElem: the text that goes, with the whitespace behind the element up to the next tag, and
  what is left of document, index and position.
 */
module Removing {
  import opened ElemForest
  import opened AdjustWalk
  import opened ReleaseWalk
  import opened ForestEdit
  import opened ForestGraft
  import opened SiblingLinks
  import opened Agreement
  import opened Tags
  import opened DocText
  import opened EditPlan
  import opened EditFacts
  import opened EditKeeps
  import opened Adding
  import opened Changing
  import I = Insertion
  import R = Removal

  lemma {:induction false} GapsAround(k: Forest, i: nat)
    requires i in Tops(k) && Distinct(k)
    ensures GapAfter(k, PrevOf(k, i, 0)) == TopNode(k, i).gap && GapAfter(k, i) == TopNode(k, i).rest.gap
  {
    DistinctNoZero(k);
    TopsInIds(k.rest);
    if k.id != i {
      GapsAround(k.rest, i);
      PrevInTops(k, i, 0);
      if k.rest.id != i {
        PrevSame(k.rest, i, k.id, 0);
        PrevInTops(k.rest, i, 0);
        assert PrevOf(k.rest, i, 0) in Ids(k.rest);
      }
    }
  }

  /** Where the removed element stands in the text, and how far its whitespace reaches. */
  lemma RemovedSpan(e: Index, f: Forest, p: nat, i: nat)
    requires Agree(e, f) && WellTagged(f) && (p == 0 || p in Ids(f)) && i in Tops(KidsOf(f, p))
    ensures R.Applies(f, PlanRemove(f, p, i)) && 0 < i < |e| && i in Ids(f)
    ensures 0 <= e[i].start && 0 <= e[i].length && e[i].start + e[i].length <= |Text(f)|
    ensures var c := TagCut(Text(f)[e[i].start + e[i].length..]);
      e[i].start + e[i].length + c <= |Text(f)| &&
      Text(R.RemovedFrom(f, PlanRemove(f, p, i))) == Splice(Text(f), e[i].start, e[i].length + c, "") &&
      R.Growth(f, PlanRemove(f, p, i)) == -(e[i].length + c)
  {
    hide Find, Spans, Links, Ring, Distinct, Text, WellTagged, TagCut, Front, EndOf, R.RemovedFrom, PrevOf, TopNode,
      GapAfter, Tops, Behind;
    var k := KidsOf(f, p);
    OpeningLength(e, f, p);
    I.KidsDistinct(f, p);
    R.RemovedNode(f, PlanRemove(f, p, i));
    SpanOfTop(e, k, i, |Opening(f, p)|);
    GapsAround(k, i);
    SomeTop(k, i);
    ParentHasTags(f, p);
    GapInDoc(f, p, i);
    TagCutOfGap(GapAfter(k, i), Behind(k, i) + Closing(f, p));
    RemovedDoc(f, p, i);
  }

  lemma ParentHasTags(f: Forest, p: nat)
    requires WellTagged(f) && (p == 0 || p in Ids(f)) && KidsOf(f, p).Node?
    ensures p != 0 ==> Find(f, p).close != ""
  {
    if p != 0 {
      NodeWellTagged(f, p);
      var m := Find(f, p);
      var t, space :| TagsAre(t, space, m.tag, m.kids, m.close);
    }
  }

  lemma SomeTop(k: Forest, i: nat)
    requires i in Tops(k)
    ensures k.Node?
  {
  }

  /** x_UnlinkElem's requirements after the offsets have been shifted. */
  lemma ReadyToUnlink(e: Index, f: Forest, p: nat, i: nat, d: int)
    requires Agree(e, f) && (p == 0 || p in Ids(f)) && i in Ids(f)
    ensures var eA := Adjusted(e, f, i, d, true);
      p < |eA| && Siblings(eA, KidsOf(f, p), p) && eA[p].child == First(KidsOf(f, p))
  {
    hide Find, Spans, Links, Ring, Distinct, Following, Ancestors;
    var k, eA := KidsOf(f, p), Adjusted(e, f, i, d, true);
    KidsFacts(e, f, p);
    LinksInRange(e, k, p);
    LinksFrame(e, eA, k, p);
    RingFrame(e, eA, k);
  }

  lemma DocWalkable(e: Index, f: Forest, i: nat)
    requires Agree(e, f) && WellTagged(f) && i in Ids(f)
    ensures Walkable(e, f, i)
  {
    hide Spans, Find, Distinct, WellTagged, Ring, Links;
    AgreeDistinct(e, f);
    WellTaggedTagged(f);
    TaggedOpened(e, f, 0);
  }

  lemma RemovalEnded(e: Index, mid: Index, e3: Index, f: Forest, a: R.Remove, head: nat)
    requires R.Applies(f, a) && Agree(e, f) && R.Unlinked(e, mid, e3, f, a, head) && Ended(e, f)
    ensures Ended(e3, R.RemovedFrom(f, a))
  {
    hide Find, Distinct, Siblings, Spans, Links, Ring, Following, Ancestors, R.RemovedFrom, R.Growth, Text,
      ReleaseAll, Post, Virtual;
    AgreeDistinct(e, f);
    RemovedAreGone(f, a);
    R.RemovedIds(f, a);
    R.ReleasedOthers(mid, f, a, head);
    R.LeftKidsFacts(f, a);
    R.KidDistinct(f, a.p);
    R.ParentStays(f, a);
    forall j | j in Ids(R.RemovedFrom(f, a)) ensures j < |e3| && !e3[j].nonEnded {
      assert j in Ids(f);
    }
  }

  lemma RemovalWellTagged(f: Forest, a: R.Remove)
    requires R.Applies(f, a) && WellTagged(f)
    ensures WellTagged(R.RemovedFrom(f, a))
  {
    hide Find, WellTagged, Graft, RemoveIn, TagsMatch;
    KidsWellTagged(f, a.p);
    RemoveWellTagged(KidsOf(f, a.p), a.i, a.g);
    if a.p != 0 {
      SomeTop(KidsOf(f, a.p), a.i);
      NodeWellTagged(f, a.p);
      StillMatches(Find(f, a.p).tag, KidsOf(f, a.p), R.LeftKids(f, a), Find(f, a.p).close);
      GraftWellTagged(f, a.p, R.LeftParent(f, a));
    }
  }

  /** The removed records, latest first. */
  ghost function Gone(f: Forest, p: nat, i: nat): seq<nat>
    requires (p == 0 || p in Ids(f)) && i in Tops(KidsOf(f, p))
  {
    Reverse(Post(TopNode(KidsOf(f, p), i).kids) + [i])
  }

  /** f' is f without the child i of p, and its records now head the deleted ones. */
  ghost predicate Removed(f: Forest, p: nat, i: nat, f': Forest, dead: seq<nat>, dead': seq<nat>) {
    (p == 0 || p in Ids(f)) && i in Tops(KidsOf(f, p)) && R.Applies(f, PlanRemove(f, p, i)) &&
    f' == R.RemovedFrom(f, PlanRemove(f, p, i)) && dead' == Gone(f, p, i) + dead
  }

  lemma RemovalIndexed(e: Index, mid: Index, e3: Index, f: Forest, a: R.Remove, head: nat, dead: seq<nat>)
    requires R.Applies(f, a) && Indexed(e, f, head, dead) && R.Unlinked(e, mid, e3, f, a, head)
    ensures Indexed(e3, R.RemovedFrom(f, a), a.i, Gone(f, a.p, a.i) + dead)
  {
    hide Agree, Find, Distinct, WellTagged, Pooled, R.RemovedFrom, R.Unlinked, Ended, TopNode, Reverse, Post, KidsOf,
      Tops;
    R.RemovalAgrees(e, mid, e3, f, a, head);
    RemovalEnded(e, mid, e3, f, a, head);
    RemovalWellTagged(f, a);
    PooledRemoval(e, mid, e3, f, a, head, dead);
  }
}
