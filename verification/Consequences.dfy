/** What agreement means. */
module Consequences {
  // What the records of the index delimit, and what an edit leaves of the text of other elements.

  import opened ElemForest
  import opened ForestEdit
  import opened ForestGraft
  import opened Agreement
  import opened EditFacts
  import opened EditFrame
  import I = Insertion
  import R = Removal

  /** The element p lies in the content of q. */
  predicate Inside(p: ElemPos, q: ElemPos) {
    q.StartContent() <= p.start && p.StartAfter() <= q.StartAfter() - q.endTagLen
  }

  predicate InFront(p: ElemPos, q: ElemPos) { p.StartAfter() <= q.start }

  lemma {:induction false} SpansWithin(e: Index, k: Forest, o: int, j: nat)
    requires Spans(e, k, o) && j in Ids(k)
    ensures 0 < j < |e| && o <= e[j].start && e[j].StartAfter() <= o + |Text(k)|
    ensures e[j].startTagLen >= 0 && e[j].endTagLen >= 0 && e[j].ContentLen() >= 0
  {
    if j in Ids(k.kids) { SpansWithin(e, k.kids, o + |k.gap| + |k.tag|, j); }
    else if j in Ids(k.rest) { SpansWithin(e, k.rest, o + |k.gap| + Width(k), j); }
  }

  /** Two elements are nested or apart; a descendant lies in the content, document order is text order. */
  lemma {:induction false} NestedOrApart(e: Index, f: Forest, o: int, i: nat, j: nat)
    requires Spans(e, f, o) && Distinct(f) && i in Ids(f) && j in Ids(f) && i != j
    ensures i < |e| && j < |e|
    ensures j in Ids(Find(f, i).kids) ==> Inside(e[j], e[i])
    ensures j in Following(f, i) ==> InFront(e[i], e[j])
    ensures (Inside(e[j], e[i]) && j in Ids(Find(f, i).kids)) || (Inside(e[i], e[j]) && i in Ids(Find(f, j).kids)) ||
      InFront(e[i], e[j]) || InFront(e[j], e[i])
  {
    hide Text;
    if f.id == i {
      if j in Ids(f.kids) { SpansWithin(e, f.kids, o + |f.gap| + |f.tag|, j); }
      else { SpansWithin(e, f.rest, o + |f.gap| + Width(f), j); }
    } else if f.id == j {
      if i in Ids(f.kids) {
        SpansWithin(e, f.kids, o + |f.gap| + |f.tag|, i);
        FindInside(f.kids, i);
        FollowingInside(f.kids, i);
      }
      else { SpansWithin(e, f.rest, o + |f.gap| + Width(f), i); FindInside(f.rest, i); FollowingInside(f.rest, i); }
    } else if i in Ids(f.kids) {
      SpansWithin(e, f.kids, o + |f.gap| + |f.tag|, i);
      if j in Ids(f.kids) { NestedOrApart(e, f.kids, o + |f.gap| + |f.tag|, i, j); }
      else { SpansWithin(e, f.rest, o + |f.gap| + Width(f), j); FindInside(f.kids, i); }
    } else {
      SpansWithin(e, f.rest, o + |f.gap| + Width(f), i);
      if j in Ids(f.rest) { NestedOrApart(e, f.rest, o + |f.gap| + Width(f), i, j); }
      else {
        SpansWithin(e, f.kids, o + |f.gap| + |f.tag|, j);
        FindInside(f.rest, i);
        FollowingInside(f.rest, i);
      }
    }
  }

  /** The text of an element, by its record. */
  predicate Stands(doc: string, p: ElemPos, s: string) {
    0 <= p.start && 0 <= p.length && p.StartAfter() <= |doc| && doc[p.start..p.StartAfter()] == s
  }

  /** Each record delimits its element: start tag in front, end tag behind, content in between. */
  lemma RecordsDelimit(e: Index, f: Forest, i: nat)
    requires Spans(e, f, 0) && i in Ids(f)
    ensures var n := Find(f, i);
      i < |e| && Stands(Text(f), e[i], n.tag + Text(n.kids) + n.close) &&
      e[i].startTagLen == |n.tag| && e[i].endTagLen == |n.close| && e[i].ContentLen() == |Text(n.kids)|
  {
    hide Find, Front, Back, Text;
    NodeInDoc(e, f, i);
    SpanOfNode(e, f, i, 0);
  }

  lemma SameNodeStands(e: Index, f: Forest, e': Index, f': Forest, j: nat, s: string)
    requires Agree(e, f) && Agree(e', f') && j in Ids(f) && j in Ids(f') && SameNode(Find(f, j), Find(f', j))
    requires j < |e| && Stands(Text(f), e[j], s)
    ensures j < |e'| && Stands(Text(f'), e'[j], s)
  {
    hide Find, Text, Links, Ring, Distinct;
    RecordsDelimit(e, f, j);
    RecordsDelimit(e', f', j);
  }

  /** An insertion leaves the text of every element but the parent and its ancestors as it was. */
  lemma InsertionLeavesText(e: Index, f: Forest, e': Index, a: I.Insert, j: nat, s: string)
    requires I.Fits(f, a) && Agree(e, f) && Agree(e', I.Inserted(f, a)) && j in Ids(f)
    requires a.p != 0 ==> j != a.p && j !in Ancestors(f, a.p)
    requires j < |e| && Stands(Text(f), e[j], s)
    ensures j < |e'| && Stands(Text(I.Inserted(f, a)), e'[j], s)
  {
    hide Find, Text, I.Inserted, Ancestors, Spans, Links, Ring, Virtual;
    InsertionKeeps(f, a, j);
    SameNodeStands(e, f, e', I.Inserted(f, a), j, s);
  }

  /** So does a removal. */
  lemma RemovalLeavesText(e: Index, f: Forest, e': Index, a: R.Remove, j: nat, s: string)
    requires R.Applies(f, a) && Agree(e, f) && Agree(e', R.RemovedFrom(f, a)) && j in Ids(f)
    requires j != a.i && j !in Ids(TopNode(KidsOf(f, a.p), a.i).kids)
    requires a.p != 0 ==> j != a.p && j !in Ancestors(f, a.p)
    requires j < |e| && Stands(Text(f), e[j], s)
    ensures j < |e'| && Stands(Text(R.RemovedFrom(f, a)), e'[j], s)
  {
    hide Find, Text, R.RemovedFrom, Ancestors, Spans, Links, Ring, Virtual;
    RemovalKeeps(f, a, j);
    SameNodeStands(e, f, e', R.RemovedFrom(f, a), j, s);
  }

  /** So does a change of one element in place. */
  lemma ChangeLeavesText(e: Index, f: Forest, e': Index, i: nat, n: Forest, j: nat, s: string)
    requires i in Ids(f) && n.Node? && (Find(f, i).kids == n.kids || (Find(f, i).kids.Nil? && n.kids.Nil?))
    requires Agree(e, f) && Agree(e', Graft(f, i, n)) && j in Ids(f) && j != i && j !in Ancestors(f, i)
    requires j < |e| && Stands(Text(f), e[j], s)
    ensures j < |e'| && Stands(Text(Graft(f, i, n)), e'[j], s)
  {
    hide Find, Text, Graft, Ancestors, Spans, Links, Ring, Virtual;
    InPlaceKeeps(f, i, n, j);
    SameNodeStands(e, f, e', Graft(f, i, n), j, s);
  }
}
