/**
  What the pointer surgery of linking in and unlinking an element does to a sibling list, its
  ring and its parent's child link.
 */
module SiblingLinks {
  import opened ElemForest
  import opened ForestEdit

  /** k is the list of children of p: its links, its ring and its records. */
  ghost predicate Siblings(e: Index, k: Forest, p: nat) {
    Links(e, k, p) && Ring(e, k) && Distinct(k) && p !in Ids(k)
  }

  /** The element n is not linked in yet; its own children are. */
  ghost predicate Loose(e: Index, n: Forest, k: Forest, p: nat)
    requires n.Node?
  {
    0 < n.id < |e| && n.id != p && n.id !in Ids(k) && !e[n.id].deleted && e[n.id].child == First(n.kids) &&
    Siblings(e, n.kids, n.id) && p !in Ids(n.kids) && Disjoint(Ids(n.kids), Ids(k))
  }

  ghost predicate SameButLinks(p: ElemPos, q: ElemPos) {
    q == p.(next := q.next, prev := q.prev, first := q.first, parent := q.parent)
  }

  /** Only sibling links, rings and parents of the records in A have changed. */
  ghost predicate Relinked(e: Index, e': Index, A: set<nat>, p: nat) {
    |e| == |e'| &&
    forall j :: 0 <= j < |e| ==>
      if j in A then SameButLinks(e[j], e'[j]) else j != p ==> e[j] == e'[j]
  }

  lemma {:induction false} NextIs(e: Index, k: Forest, p: nat, b: nat)
    requires Links(e, k, p) && b in Tops(k)
    ensures 0 < b < |e| && e[b].next == NextAfter(k, b) && e[b].parent == p
    ensures !e[b].deleted
  {
    if k.id != b { NextIs(e, k.rest, p, b); }
  }

  lemma {:induction false} RestNotFirst(e: Index, k: Forest, before: nat, j: nat)
    requires RingRest(e, k, before) && j in Tops(k)
    ensures j < |e| && !e[j].first && e[j].prev == PrevOf(k, j, before)
  {
    if k.id != j { RestNotFirst(e, k.rest, k.id, j); }
  }

  lemma {:induction false} NextAfterFacts(k: Forest, b: nat)
    requires b in Tops(k) && Distinct(k)
    ensures var c := NextAfter(k, b); c != b && c != k.id && (c != 0 ==> c in Tops(k.rest) && c in Ids(k))
  {
    DistinctNoZero(k);
    TopsInIds(k.rest);
    if k.id != b {
      NextAfterFacts(k.rest, b);
    }
  }

  /** The records after linking x in behind b: c was next to b, h is the first sibling. */
  ghost predicate LinkedBehind(e: Index, e': Index, p: nat, b: nat, x: nat, c: nat, h: nat) {
    |e| == |e'| && x < |e| && b < |e| && c < |e| && h < |e| &&
    e'[x] == e[x].(parent := p, first := false, next := c, prev := b) &&
    (forall j :: 0 <= j < |e| && j != x ==>
       e'[j] == e[j].(next := if j == b then x else e[j].next,
                      prev := if j == (if c != 0 then c else h) then x else e[j].prev))
  }

  lemma LinkBehindFrame(e: Index, e': Index, p: nat, b: nat, x: nat, c: nat, h: nat, A: set<nat>)
    requires LinkedBehind(e, e', p, b, x, c, h) && x in A && b in A && h in A && (c == 0 || c in A) && p !in A
    ensures Relinked(e, e', A, p)
    ensures p < |e| ==> e'[p] == e[p]
  {
    forall j | 0 <= j < |e|
      ensures if j in A then SameButLinks(e[j], e'[j]) else j != p ==> e[j] == e'[j]
    {
    }
  }

  lemma LinkBehindCorrect(e: Index, e': Index, k: Forest, p: nat, b: nat, n: Forest, v: string)
    requires Siblings(e, k, p) && b in Tops(k) && n.Node? && Loose(e, n, k, p) && b != 0
    requires LinkedBehind(e, e', p, b, n.id, NextAfter(k, b), k.id)
    ensures Siblings(e', InsertIn(k, b, n, v), p)
  {
    var x, c := n.id, NextAfter(k, b);
    InsertIds(k, b, n, v);
    InsertDistinct(k, b, n, v);
    TopsInIds(k);
    NextAfterFacts(k, b);
    LinksInRange(e, k, p);
    KidsUntouched(e, e', n, k, b, c);
    InsertLinks(e, e', k, p, b, n, v);
    forall j | j in Ids(k)
      ensures if j == k.id && c == 0 then e'[j].prev == x && e'[j].first == e[j].first
              else RelinkedRing(e[j], e'[j], j == c, x)
    {
      if j == c { RestNotFirst(e, k.rest, k.id, c); }
    }
    InsertRing(e, e', k, b, n, v);
  }

  lemma KidsUntouched(e: Index, e': Index, n: Forest, k: Forest, b: nat, c: nat)
    requires n.Node? && k.Node? && |e| == |e'| && Siblings(e, n.kids, n.id) && Disjoint(Ids(n.kids), Ids(k))
    requires b in Ids(k) && k.id in Ids(k) && (c in Ids(k) || c == 0)
    requires forall j :: 0 <= j < |e| && j !in Ids(k) && j != n.id ==> e'[j] == e[j]
    ensures Links(e', n.kids, n.id) && Ring(e', n.kids)
  {
    LinksInRange(e, n.kids, n.id);
    LinksFrame(e, e', n.kids, n.id);
    RingFrame(e, e', n.kids);
  }

  /** The records after linking x in front of h (0: there was no sibling). */
  ghost predicate LinkedInFront(e: Index, e': Index, p: nat, x: nat, h: nat) {
    |e| == |e'| && x < |e| && h < |e| && p < |e| &&
    e'[x] == e[x].(parent := p, first := true, next := h, prev := if h == 0 then x else e[h].prev) &&
    e'[p] == e[p].(child := x) &&
    (h != 0 ==> e'[h] == e[h].(prev := x, first := !e[h].first)) &&
    (forall j :: 0 <= j < |e| && j != x && j != p && (h == 0 || j != h) ==> e'[j] == e[j])
  }

  lemma LinkInFrontFrame(e: Index, e': Index, p: nat, x: nat, h: nat, A: set<nat>)
    requires LinkedInFront(e, e', p, x, h) && x in A && (h == 0 || h in A) && p !in A
    ensures Relinked(e, e', A, p)
  {
    forall j | 0 <= j < |e|
      ensures if j in A then SameButLinks(e[j], e'[j]) else j != p ==> e[j] == e'[j]
    {
    }
  }

  lemma LinkInFrontCorrect(e: Index, e': Index, k: Forest, p: nat, n: Forest, v: string)
    requires Siblings(e, k, p) && n.Node? && Loose(e, n, k, p)
    requires LinkedInFront(e, e', p, n.id, First(k))
    ensures Siblings(e', InsertIn(k, 0, n, v), p)
  {
    InsertIds(k, 0, n, v);
    InsertDistinct(k, 0, n, v);
    DistinctNoZero(k);
    DistinctNoZero(n.kids);
    LinksInRange(e, k, p);
    LinksInRange(e, n.kids, n.id);
    if k.Node? { assert k.id in Ids(k); }
    LinksFrame(e, e', n.kids, n.id);
    RingFrame(e, e', n.kids);
    InsertLinks(e, e', k, p, 0, n, v);
    InsertRingFirst(e, e', k, n, v);
  }

  // -------------------------------------------------------------------------- unlinking

  /** The records after bypassing i, whose next sibling is c, behind b (0: i is first). */
  ghost predicate Bypassed(e: Index, e': Index, p: nat, i: nat, b: nat, c: nat, h: nat) {
    |e| == |e'| && i < |e| && b < |e| && c < |e| && h < |e| && p < |e| &&
    if b == 0 then
      e'[p] == e[p].(child := c) &&
      (c != 0 ==> e'[c] == e[c].(prev := e[i].prev, first := true)) &&
      (forall j :: 0 <= j < |e| && j != p && (c == 0 || j != c) ==> e'[j] == e[j])
    else
      forall j :: 0 <= j < |e| ==>
        e'[j] == e[j].(next := if j == b then c else e[j].next,
                       prev := if j == (if c != 0 then c else h) then b else e[j].prev)
  }

  lemma BypassFrame(e: Index, e': Index, p: nat, i: nat, b: nat, c: nat, h: nat, A: set<nat>)
    requires Bypassed(e, e', p, i, b, c, h) && (b == 0 || (b in A && h in A)) && (c == 0 || c in A) && p !in A
    ensures Relinked(e, e', A, p)
    ensures b != 0 ==> e'[p] == e[p]
  {
    forall j | 0 <= j < |e|
      ensures if j in A then SameButLinks(e[j], e'[j]) else j != p ==> e[j] == e'[j]
    {
    }
  }

  lemma BypassFirst(e: Index, e': Index, k: Forest, p: nat, g: string)
    requires Siblings(e, k, p) && k.Node? && Bypassed(e, e', p, k.id, 0, First(k.rest), k.id)
    ensures Siblings(e', RemoveIn(k, k.id, g), p)
    ensures Links(e', k.kids, k.id) && e'[k.id] == e[k.id]
  {
    RemoveIds(k, k.id, g);
    DistinctNoZero(k);
    LinksInRange(e, k, p);
    var r := k.rest;
    assert k.id in Ids(k);
    if r.Node? { assert r.id in Ids(r); }
    assert forall j :: j in Ids(k.kids) ==> j in Ids(k) && j !in Ids(r);
    LinksFrame(e, e', k.kids, k.id);
    LinksFrame(e, e', r, p);
    SetGapFacts(e', r, g, p, 0);
    RemoveRingFirst(e, e', k, g);
  }

  lemma BypassInner(e: Index, e': Index, k: Forest, p: nat, i: nat, g: string)
    requires Siblings(e, k, p) && i in Tops(k) && k.id != i
    requires Bypassed(e, e', p, i, PrevOf(k, i, 0), First(TopNode(k, i).rest), k.id)
    ensures Siblings(e', RemoveIn(k, i, g), p)
    ensures Links(e', TopNode(k, i).kids, i) && e'[i].child == e[i].child && e'[p].child == e[p].child
  {
    var b, t := PrevOf(k, i, 0), TopNode(k, i);
    var c := First(t.rest);
    DistinctNoZero(k);
    TopsInIds(k);
    TopNodeFacts(k, i);
    RemoveIds(k, i, g);
    PrevInTops(k, i, 0);
    LinksInRange(e, k, p);
    TopLinks(e, k, p, i);
    if t.rest.Node? { assert c in Ids(t.rest); }
    assert k.id in Ids(k);
    assert forall j :: j in Ids(t.kids) ==> j !in Ids(RemoveIn(k, i, g)) && j != i;
    InRemove(k, i, g);
    LinksFrame(e, e', t.kids, i);
    RemoveLinks(e, e', k, p, i, g, 0);
    RemoveRing(e, e', k, i, g);
  }

  lemma {:induction false} TopLinks(e: Index, k: Forest, p: nat, i: nat)
    requires Links(e, k, p) && i in Tops(k)
    ensures Links(e, TopNode(k, i).kids, i) && i < |e| && e[i].child == First(TopNode(k, i).kids)
    ensures e[i].next == First(TopNode(k, i).rest) && e[i].parent == p && 0 < i && !e[i].deleted
  {
    if k.id != i { TopLinks(e, k.rest, p, i); }
  }

  /** The first sibling, the previous and the next one all stay when i goes. */
  lemma InRemove(k: Forest, i: nat, g: string)
    requires i in Tops(k) && Distinct(k) && k.id != i
    ensures k.id in Ids(RemoveIn(k, i, g)) && PrevOf(k, i, 0) in Ids(RemoveIn(k, i, g))
    ensures TopNode(k, i).rest.Node? ==> TopNode(k, i).rest.id in Ids(RemoveIn(k, i, g))
  {
    RemoveIds(k, i, g);
    RemoveIds(k, i, "");
    PrevInTops(k, i, 0);
    TopNodeFacts(k, i);
    TopNodeFacts(k.rest, i);
    if TopNode(k, i).rest.Node? { assert TopNode(k, i).rest.id in Ids(TopNode(k, i).rest); }
  }
}
