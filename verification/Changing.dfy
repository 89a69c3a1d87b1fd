/**
  Changing one element where it stands, new data or a new attribute, keeps agreement, pool and
  position sound.
 */
module Changing {
  import opened ElemForest
  import opened AdjustWalk
  import opened ForestEdit
  import opened ForestGraft
  import opened Agreement
  import opened Tags
  import opened EditPlan
  import opened EditFacts
  import opened EditKeeps
  import opened EditFrame
  import opened Adding
  import opened Placing

  /** The record p with the lengths of the node n, which is d longer. */
  function Resized(p: ElemPos, n: Forest, d: int): ElemPos
    requires n.Node?
  {
    p.(length := p.length + d, startTagLen := |n.tag|, endTagLen := |n.close|, illData := false)
  }

  lemma ChangeIndexed(e: Index, e1: Index, f: Forest, i: nat, n: Forest, d: int, head: nat, dead: seq<nat>)
    requires Indexed(e, f, head, dead) && ChangesInPlace(e, e1, f, i, n, d) && !e1[i].nonEnded
    requires TagsMatch(n.tag, n.kids, n.close)
    ensures Indexed(Adjusted(e1, f, i, d, false), Graft(f, i, n), head, dead)
  {
    hide Agree, Spans, Find, Graft, Distinct, TagsMatch, Pooled, Adjusted, Links, Ring, Width, Virtual;
    AgreeDistinct(e, f);
    InPlace(e, e1, f, i, n, d);
    KidsStayTagged(f, i, n);
    GraftWellTagged(f, i, n);
    SameIds(f, i, n);
    AdjustKeeps(e1, f, i, d, false);
    EndedInPlace(e, e1, Adjusted(e1, f, i, d, false), f, Graft(f, i, n), i);
    PooledFrame(e, Adjusted(e1, f, i, d, false), f, Graft(f, i, n), head, dead);
  }

  lemma EndedInPlace(e: Index, e1: Index, e3: Index, f: Forest, f': Forest, i: nat)
    requires Ended(e, f) && |e| == |e1| == |e3| && i < |e| && !e1[i].nonEnded
    requires forall j :: 0 <= j < |e| && j != i ==> e1[j] == e[j]
    requires forall j: nat :: j < |e| ==> e3[j].nonEnded == e1[j].nonEnded
    requires forall j: nat :: j in Ids(f') <==> j in Ids(f)
    ensures Ended(e3, f')
  {
  }

  lemma AgreeDistinct(e: Index, f: Forest)
    requires Agree(e, f)
    ensures Distinct(f) && 0 !in Ids(f) && forall j: nat :: j in Ids(f) ==> 0 < j < |e|
  {
    DistinctNoZero(f);
    LinksInRange(e, f, 0);
  }

  lemma KidsStayTagged(f: Forest, i: nat, n: Forest)
    requires i in Ids(f) && WellTagged(f) && n.Node? &&
      (Find(f, i).kids == n.kids || (Find(f, i).kids.Nil? && n.kids.Nil?))
    ensures WellTagged(n.kids)
  {
    NodeWellTagged(f, i);
  }

  /** The walk of x_Adjust is possible after the record has new tag lengths. */
  lemma RetaggedWalkable(e: Index, e1: Index, f: Forest, i: nat, n: Forest)
    requires Agree(e, f) && WellTagged(f) && i in Ids(f) && n.Node? && |n.tag| > 0 && |e1| == |e|
    requires forall j :: 0 <= j < |e| && j != i ==> e1[j] == e[j]
    requires i < |e| && SameLinks(e[i], e1[i]) && e1[i].startTagLen > 0
    ensures Walkable(e1, f, i)
  {
    hide Spans, Find, Distinct, WellTagged, Ring, Links;
    AgreeDistinct(e, f);
    WellTaggedTagged(f);
    TaggedOpened(e, f, 0);
    LinksFrame(e, e1, f, 0);
  }

  /** New data in an element without children. */
  lemma RefillIndexed(e: Index, f: Forest, i: nat, content: string, d: int, head: nat, dead: seq<nat>)
    requires Indexed(e, f, head, dead) && i in Ids(f) && KidsOf(f, i).Nil?
    requires d == |Text(Graft(f, i, Refilled(f, i, content)))| - |Text(f)|
    ensures i < |e| && Width(Refilled(f, i, content)) == e[i].length + d
    ensures var n := Refilled(f, i, content);
      Indexed(Adjusted(e[i := Resized(e[i], n, d)], f, i, d, false), Graft(f, i, n), head, dead)
  {
    hide Agree, Spans, Distinct, TagsMatch, Pooled, Adjusted, Links, Ring, Virtual, Find, Graft, WellTagged, IsEmptyTag;
    var n := Refilled(f, i, content);
    AgreeDistinct(e, f);
    ParentFacts(e, f, i);
    RefilledTags(f, i, content);
    GraftLength(f, i, n);
    ChangeIndexed(e, e[i := Resized(e[i], n, d)], f, i, n, d, head, dead);
  }

  /** x_SetData adjusts the others before the record itself: the order does not matter. */
  lemma AdjustThenResize(e: Index, f: Forest, i: nat, p: ElemPos, q: ElemPos, d: int)
    requires i in Ids(f) && Distinct(f) && i < |e|
    ensures |Adjusted(e[i := p], f, i, d, false)| == |e| && Adjusted(e[i := p], f, i, d, false)[i] == p
    ensures Adjusted(e[i := p], f, i, d, false)[i := q] == Adjusted(e[i := q], f, i, d, false)
  {
    hide Adjusted, Distinct;
    AdjustedElsewhere(e, f, i, d, false, p);
    AdjustedElsewhere(e, f, i, d, false, q);
  }

  /** After the text is replaced, the walk of x_Adjust is possible. */
  lemma RefillReady(e: Index, e1: Index, f: Forest, i: nat, content: string)
    requires Agree(e, f) && WellTagged(f) && i in Ids(f) && KidsOf(f, i).Nil? && i < |e|
    requires var n := Refilled(f, i, content); e1 == e[i := e[i].(startTagLen := |n.tag|, endTagLen := |n.close|)]
    ensures Walkable(e1, f, i) && Distinct(f) && i < |e|
  {
    hide Agree, Find, WellTagged, IsEmptyTag, Links, Distinct, Opened, NameAt;
    AgreeDistinct(e, f);
    RefilledTags(f, i, content);
    RetaggedWalkable(e, e1, f, i, Refilled(f, i, content));
  }

  lemma PlacedRefill(e: Index, f: Forest, i: nat, content: string, posParent: nat, pos: nat, posChild: nat, head: nat,
    dead: seq<nat>)
    requires Indexed(e, f, head, dead) && i in Ids(f) && KidsOf(f, i).Nil? && Placed(f, posParent, pos, posChild)
    ensures Placed(Graft(f, i, Refilled(f, i, content)), posParent, pos, posChild)
  {
    hide Find, Graft, Placed, Pooled, Ended, WellTagged;
    AgreeDistinct(e, f);
    PlacedInPlace(f, i, Refilled(f, i, content), posParent, pos, posChild);
  }
}
