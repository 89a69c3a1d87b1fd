/**
  Edits of a forest, and what they need of the index: a sibling inserted into or removed from a
  list of children, and a node replaced in place.
 */
module ForestEdit {
  import opened ElemForest

  function SetGap(k: Forest, g: string): Forest { k.(gap := g) }

  /** The positions of the elements of the list k itself, without their descendants. */
  function Tops(k: Forest): set<nat> {
    if k.Nil? then {} else {k.id} + Tops(k.rest)
  }

  /** Insert the element of n after the sibling b (0: in front); v becomes the gap that follows it. */
  function InsertIn(k: Forest, b: nat, n: Forest, v: string): Forest
    requires n.Node?
  {
    if b == 0 || k.Nil? then Node(n.gap, n.id, n.tag, n.kids, n.close, SetGap(k, v))
    else if k.id == b then k.(rest := InsertIn(k.rest, 0, n, v))
    else k.(rest := InsertIn(k.rest, b, n, v))
  }

  /** Remove the sibling i; g becomes the gap between its neighbours. */
  function RemoveIn(k: Forest, i: nat, g: string): Forest {
    if k.Nil? then k
    else if k.id == i then SetGap(k.rest, g)
    else k.(rest := RemoveIn(k.rest, i, g))
  }

  /** Replace the element p: its tags and children become those of n; its gap and its siblings stay. */
  function Graft(f: Forest, p: nat, n: Forest): Forest
    requires n.Node?
  {
    if f.Nil? then f
    else if f.id == p then f.(tag := n.tag, kids := n.kids, close := n.close)
    else if p in Ids(f.kids) then f.(kids := Graft(f.kids, p, n))
    else f.(rest := Graft(f.rest, p, n))
  }

  /** The elements of the list after the sibling b (0: all of them), with their descendants. */
  function AfterIds(k: Forest, b: nat): set<nat> {
    if b == 0 then Ids(k) else if k.Nil? then {} else if k.id == b then Ids(k.rest) else AfterIds(k.rest, b)
  }

  /** The gap after the sibling b (0: the first gap). */
  function GapAfter(k: Forest, b: nat): string {
    if b == 0 || k.Nil? then k.gap else if k.id == b then k.rest.gap else GapAfter(k.rest, b)
  }

  /** The offset in Text(k) right after the sibling b (0: the beginning). */
  function EndOf(k: Forest, b: nat): nat {
    if b == 0 || k.Nil? then 0
    else |k.gap| + Width(k) + if k.id == b then 0 else EndOf(k.rest, b)
  }

  // ------------------------------------------------------------------ SetGap changes no record

  lemma SetGapFacts(e: Index, k: Forest, g: string, p: nat, before: nat)
    ensures Ids(SetGap(k, g)) == Ids(k) && First(SetGap(k, g)) == First(k)
    ensures Last(SetGap(k, g), before) == Last(k, before)
    ensures Distinct(SetGap(k, g)) <==> Distinct(k)
    ensures Links(e, SetGap(k, g), p) <==> Links(e, k, p)
    ensures Ring(e, SetGap(k, g)) <==> Ring(e, k)
    ensures RingRest(e, SetGap(k, g), before) <==> RingRest(e, k, before)
  {
  }

  lemma SetGapSpans(e: Index, k: Forest, g: string, o: int)
    requires Spans(e, k, o)
    ensures Spans(e, SetGap(k, g), o + |k.gap| - |g|)
  {
  }

  // ---------------------------------------------------------------------------- insertion

  lemma {:induction false} TopsInIds(k: Forest)
    ensures Tops(k) <= Ids(k)
  {
    if k.Node? { TopsInIds(k.rest); }
  }

  lemma {:induction false} InsertIds(k: Forest, b: nat, n: Forest, v: string)
    requires n.Node? && (b == 0 || b in Tops(k))
    ensures Ids(InsertIn(k, b, n, v)) == Ids(k) + {n.id} + Ids(n.kids)
    ensures First(InsertIn(k, b, n, v)) == if b == 0 then n.id else First(k)
    ensures AfterIds(k, b) <= Ids(k)
  {
    if b != 0 {
      InsertIds(k.rest, if k.id == b then 0 else b, n, v);
    }
  }

  lemma {:induction false} InsertDistinct(k: Forest, b: nat, n: Forest, v: string)
    requires n.Node? && (b == 0 || b in Tops(k)) && Distinct(k)
    requires n.id != 0 && n.id !in Ids(k) && n.id !in Ids(n.kids) && Distinct(n.kids) && Disjoint(Ids(n.kids), Ids(k))
    ensures Distinct(InsertIn(k, b, n, v))
  {
    if b != 0 {
      var b' := if k.id == b then 0 else b;
      InsertDistinct(k.rest, b', n, v);
      InsertIds(k.rest, b', n, v);
    }
  }

  /** What follows the inserted element in document order. */
  lemma {:induction false} InsertFollowing(k: Forest, b: nat, n: Forest, v: string)
    requires n.Node? && (b == 0 || b in Tops(k)) && n.id !in Ids(k)
    ensures n.id in Ids(InsertIn(k, b, n, v))
    ensures Following(InsertIn(k, b, n, v), n.id) == AfterIds(k, b)
    ensures Ancestors(InsertIn(k, b, n, v), n.id) == {}
    ensures Find(InsertIn(k, b, n, v), n.id).kids == n.kids
  {
    InsertIds(k, b, n, v);
    if b != 0 {
      InsertIds(k.rest, if k.id == b then 0 else b, n, v);
      InsertFollowing(k.rest, if k.id == b then 0 else b, n, v);
    }
  }

  /** The record of n, ready to be linked in with next sibling next. */
  ghost predicate LinkedAs(e: Index, n: Forest, p: nat, next: nat)
    requires n.Node?
  {
    0 < n.id < |e| && e[n.id].parent == p && e[n.id].child == First(n.kids) && !e[n.id].deleted &&
    e[n.id].next == next && Links(e, n.kids, n.id)
  }

  /** The next link of the sibling that precedes the insertion. */
  function NextAfter(k: Forest, b: nat): nat {
    if b == 0 || k.Nil? then First(k) else if k.id == b then First(k.rest) else NextAfter(k.rest, b)
  }

  /** Link fields after an insertion behind the record, or elsewhere. */
  ghost predicate RelinkedNext(p: ElemPos, q: ElemPos, behind: bool, x: nat) {
    SameLinks(if behind then p.(next := x) else p, q)
  }

  lemma {:induction false} InsertLinks(e: Index, e': Index, k: Forest, p: nat, b: nat, n: Forest, v: string)
    requires n.Node? && (b == 0 || b in Tops(k)) && Distinct(k) && Links(e, k, p) && |e| <= |e'|
    requires LinkedAs(e', n, p, NextAfter(k, b))
    requires forall j :: j in Ids(k) ==> j < |e| && RelinkedNext(e[j], e'[j], j == b, n.id)
    ensures Links(e', InsertIn(k, b, n, v), p)
  {
    if b == 0 {
      if 0 in Ids(k) { LinksInRange(e, k, p); }
      LinksFrame(e, e', k, p);
      SetGapFacts(e', k, v, p, 0);
    } else {
      TopsInIds(k.rest);
      assert b == k.id || b in Ids(k.rest);
      LinksFrame(e, e', k.kids, k.id);
      if k.id == b {
        LinksFrame(e, e', k.rest, p);
        SetGapFacts(e', k.rest, v, p, 0);
      } else {
        InsertLinks(e, e', k.rest, p, b, n, v);
        InsertIds(k.rest, b, n, v);
      }
    }
  }

  /** Ring fields after an insertion in front of the record, or elsewhere. */
  ghost predicate RelinkedRing(p: ElemPos, q: ElemPos, inFront: bool, x: nat) {
    if inFront then q.prev == x && !q.first else SameRing(p, q)
  }

  /** Insertion inside a list, after its head. */
  lemma {:induction false} InsertRingRest(e: Index, e': Index, k: Forest, before: nat, b: nat, n: Forest, v: string)
    requires n.Node? && (b == 0 || b in Tops(k)) && Distinct(k) && RingRest(e, k, before) && |e| <= |e'|
    requires 0 < n.id < |e'| && !e'[n.id].first && Ring(e', n.kids)
    requires e'[n.id].prev == if b == 0 then before else b
    requires forall j :: j in Ids(k) ==> j < |e| && RelinkedRing(e[j], e'[j], j == NextAfter(k, b), n.id)
    ensures RingRest(e', InsertIn(k, b, n, v), before)
  {
    if k.Node? {
      assert k.id in Ids(k);
      assert forall j :: j in Ids(k.kids) ==> j in Ids(k) && j != k.id && j !in Ids(k.rest);
      assert forall j :: j in Ids(k.rest) ==> j in Ids(k);
    }
    if b == 0 {
      if k.Node? {
        RingFrame(e, e', k.kids);
        RingRestFrame(e, e', k.rest, k.id);
      }
      SetGapFacts(e', k, v, 0, n.id);
    } else {
      var b' := if k.id == b then 0 else b;
      NextInTops(k.rest, b');
      TopsInIds(k.rest);
      DistinctNoZero(k);
      RingFrame(e, e', k.kids);
      InsertRingRest(e, e', k.rest, k.id, b', n, v);
    }
  }

  lemma {:induction false} NextInTops(k: Forest, b: nat)
    requires b == 0 || b in Tops(k)
    ensures NextAfter(k, b) == 0 || NextAfter(k, b) in Tops(k)
  {
    if b != 0 {
      NextInTops(k.rest, if k.id == b then 0 else b);
    }
  }

  lemma {:induction false} InsertLast(k: Forest, b: nat, n: Forest, v: string, before: nat)
    requires n.Node? && (b == 0 || b in Tops(k)) && Distinct(k)
    ensures Last(InsertIn(k, b, n, v), before) == if NextAfter(k, b) == 0 then n.id else Last(k, before)
  {
    if b != 0 {
      InsertLast(k.rest, if k.id == b then 0 else b, n, v, k.id);
    }
  }

  lemma {:induction false} DistinctNoZero(k: Forest)
    requires Distinct(k)
    ensures 0 !in Ids(k)
  {
    if k.Node? {
      DistinctNoZero(k.kids);
      DistinctNoZero(k.rest);
    }
  }

  /** Insertion behind b keeps the ring: the new last sibling, if any, is where the first points. */
  lemma InsertRing(e: Index, e': Index, k: Forest, b: nat, n: Forest, v: string)
    requires n.Node? && b in Tops(k) && Distinct(k) && Ring(e, k) && |e| <= |e'|
    requires 0 < n.id < |e'| && !e'[n.id].first && Ring(e', n.kids) && e'[n.id].prev == b
    requires forall j :: j in Ids(k) ==>
      j < |e| && (
        if j == k.id && NextAfter(k, b) == 0 then e'[j].prev == n.id && e'[j].first == e[j].first
        else RelinkedRing(e[j], e'[j], j == NextAfter(k, b), n.id))
    ensures Ring(e', InsertIn(k, b, n, v))
  {
    var b' := if k.id == b then 0 else b;
    DistinctNoZero(k);
    TopsInIds(k.rest);
    NextInTops(k.rest, b');
    assert forall j :: j in Ids(k.kids) ==> j in Ids(k) && j != k.id && j !in Ids(k.rest);
    assert forall j :: j in Ids(k.rest) ==> j in Ids(k) && j != k.id;
    RingFrame(e, e', k.kids);
    InsertRingRest(e, e', k.rest, k.id, b', n, v);
    InsertLast(k.rest, b', n, v, k.id);
  }

  /** Insertion in front of the list moves the first mark and the link to the last sibling. */
  lemma InsertRingFirst(e: Index, e': Index, k: Forest, n: Forest, v: string)
    requires n.Node? && Distinct(k) && Ring(e, k) && |e| <= |e'|
    requires 0 < n.id < |e'| && e'[n.id].first && Ring(e', n.kids)
    requires e'[n.id].prev == if k.Nil? then n.id else e[k.id].prev
    requires forall j :: j in Ids(k) ==> j < |e| && RelinkedRing(e[j], e'[j], j == k.id, n.id)
    ensures Ring(e', InsertIn(k, 0, n, v))
  {
    if k.Node? {
      assert k.id in Ids(k);
      assert forall j :: j in Ids(k.kids) ==> j in Ids(k) && j != k.id;
      assert forall j :: j in Ids(k.rest) ==> j in Ids(k) && j != k.id;
      RingFrame(e, e', k.kids);
      RingRestFrame(e, e', k.rest, k.id);
    }
    SetGapFacts(e', k, v, 0, n.id);
  }

  // ---------------------------------------------------------------------- insertion: text

  /** The text of the list without its first gap. */
  function Tail(k: Forest): string {
    if k.Nil? then "" else k.tag + Text(k.kids) + k.close + Text(k.rest)
  }

  function Before(k: Forest, b: nat): string {
    if b == 0 || k.Nil? then ""
    else k.gap + k.tag + Text(k.kids) + k.close + if k.id == b then "" else Before(k.rest, b)
  }

  function Behind(k: Forest, b: nat): string {
    if b == 0 || k.Nil? then Tail(k) else if k.id == b then Tail(k.rest) else Behind(k.rest, b)
  }

  lemma GapTail(k: Forest, g: string)
    ensures Text(k) == k.gap + Tail(k) && Text(SetGap(k, g)) == g + Tail(k)
  {
    if k.Node? {
      Assoc(k.gap, k.tag, Text(k.kids), k.close, Text(k.rest));
      Assoc(g, k.tag, Text(k.kids), k.close, Text(k.rest));
    }
  }

  lemma Assoc(a: string, b: string, c: string, d: string, r: string)
    ensures a + b + c + d + r == a + (b + c + d + r)
  {
  }

  /** Inserting n behind b puts one string in place of the gap there. */
  lemma {:induction false} InsertText(k: Forest, b: nat, n: Forest, v: string)
    requires n.Node? && (b == 0 || b in Tops(k))
    ensures |Before(k, b)| == EndOf(k, b)
    ensures Text(k) == Before(k, b) + GapAfter(k, b) + Behind(k, b)
    ensures Text(InsertIn(k, b, n, v))
         == Before(k, b) + (n.gap + n.tag + Text(n.kids) + n.close + v) + Behind(k, b)
  {
    if b == 0 {
      GapTail(k, v);
    } else if k.id == b {
      var head := k.gap + k.tag + Text(k.kids) + k.close;
      GapTail(k.rest, v);
      assert head + "" == head;
      assert Text(InsertIn(k, b, n, v)) == head + (n.gap + n.tag + Text(n.kids) + n.close + Text(SetGap(k.rest, v)));
    } else {
      InsertText(k.rest, b, n, v);
      var head := k.gap + k.tag + Text(k.kids) + k.close;
      Assoc3(head, Before(k.rest, b), GapAfter(k, b), Behind(k, b));
      Assoc3(head, Before(k.rest, b), n.gap + n.tag + Text(n.kids) + n.close + v, Behind(k, b));
    }
  }

  lemma Assoc3(a: string, b: string, c: string, d: string)
    ensures a + (b + c + d) == a + b + c + d
  {
  }

  ghost predicate NodeSpan(p: ElemPos, n: Forest, start: int)
    requires n.Node?
  {
    p.start == start && p.length == Width(n) && p.startTagLen == |n.tag| && p.endTagLen == |n.close|
  }

  /** What follows the insertion shifts by d, what was inserted beyond the old gap. */
  lemma {:induction false} InsertSpans(e: Index, e': Index, k: Forest, b: nat, n: Forest, v: string, o: int, d: int)
    requires n.Node? && (b == 0 || b in Tops(k)) && Distinct(k) && Spans(e, k, o) && |e| <= |e'|
    requires 0 < n.id < |e'| && NodeSpan(e'[n.id], n, o + EndOf(k, b) + |n.gap|)
    requires Spans(e', n.kids, o + EndOf(k, b) + |n.gap| + |n.tag|)
    requires d == |n.gap| + Width(n) + |v| - |GapAfter(k, b)|
    requires forall j :: j in Ids(k) ==> j < |e| && SameSpan(e[j], e'[j], if j in AfterIds(k, b) then d else 0)
    ensures Spans(e', InsertIn(k, b, n, v), o)
  {
    if b == 0 {
      InsertSpansFirst(e, e', k, n, v, o, d);
    } else {
      InsertSpansHead(e, e', k, b, n, v, o, d);
      InsertSpans(e, e', k.rest, if k.id == b then 0 else b, n, v, o + |k.gap| + Width(k), d);
    }
  }

  lemma InsertSpansFirst(e: Index, e': Index, k: Forest, n: Forest, v: string, o: int, d: int)
    requires n.Node? && Spans(e, k, o) && |e| <= |e'|
    requires 0 < n.id < |e'| && NodeSpan(e'[n.id], n, o + |n.gap|)
    requires Spans(e', n.kids, o + |n.gap| + |n.tag|)
    requires d == |n.gap| + Width(n) + |v| - |k.gap|
    requires forall j :: j in Ids(k) ==> j < |e| && SameSpan(e[j], e'[j], d)
    ensures Spans(e', InsertIn(k, 0, n, v), o)
  {
    SpansShift(e, e', k, o, d);
    SetGapSpans(e', k, v, o + d);
  }

  lemma InsertSpansHead(e: Index, e': Index, k: Forest, b: nat, n: Forest, v: string, o: int, d: int)
    requires n.Node? && b != 0 && b in Tops(k) && Distinct(k) && Spans(e, k, o) && |e| <= |e'|
    requires forall j :: j in Ids(k) ==> j < |e| && SameSpan(e[j], e'[j], if j in AfterIds(k, b) then d else 0)
    ensures e'[k.id]
      == e'[k.id].(start := o + |k.gap|, length := Width(k), startTagLen := |k.tag|, endTagLen := |k.close|)
    ensures Spans(e', k.kids, o + |k.gap| + |k.tag|)
    ensures forall j :: j in Ids(k.rest) ==>
      j < |e| && SameSpan(e[j], e'[j], if j in AfterIds(k.rest, if k.id == b then 0 else b) then d else 0)
  {
    InsertIds(k.rest, if k.id == b then 0 else b, n, v);
    assert k.id in Ids(k) && k.id !in AfterIds(k, b);
    assert forall j :: j in Ids(k.kids) ==> j in Ids(k) && j !in AfterIds(k, b);
    SpansShift(e, e', k.kids, o + |k.gap| + |k.tag|, 0);
  }

  // ------------------------------------------------------------------------------- removal

  ghost function TopNode(k: Forest, i: nat): (n: Forest)
    requires i in Tops(k)
    ensures n.Node? && n.id == i
  {
    if k.id == i then k else TopNode(k.rest, i)
  }

  /** The sibling in front of i, or before when i is first. */
  function PrevOf(k: Forest, i: nat, before: nat): nat {
    if k.Nil? || k.id == i then before else PrevOf(k.rest, i, k.id)
  }

  lemma {:induction false} TopNodeFacts(k: Forest, i: nat)
    requires i in Tops(k) && Distinct(k)
    ensures i in Ids(k) && Find(k, i) == TopNode(k, i)
    ensures Following(k, i) == Ids(TopNode(k, i).rest) && Ancestors(k, i) == {}
    ensures Ids(TopNode(k, i).kids) <= Ids(k) && Ids(TopNode(k, i).rest) <= Ids(k)
    ensures Distinct(TopNode(k, i))
    decreases k
  {
    if k.id != i {
      TopsInIds(k.rest);
      TopNodeFacts(k.rest, i);
    }
  }

  lemma {:induction false} RemoveIds(k: Forest, i: nat, g: string)
    requires i in Tops(k) && Distinct(k)
    ensures forall j :: j in Ids(RemoveIn(k, i, g)) <==> j in Ids(k) && j != i && j !in Ids(TopNode(k, i).kids)
    ensures Distinct(RemoveIn(k, i, g))
    ensures First(RemoveIn(k, i, g)) == if k.id == i then First(k.rest) else First(k)
  {
    if k.id == i {
    } else {
      TopNodeFacts(k.rest, i);
      RemoveIds(k.rest, i, g);
    }
  }

  /** Link fields after the next sibling has been bypassed. */
  lemma {:induction false} RemoveLinks(e: Index, e': Index, k: Forest, p: nat, i: nat, g: string, before: nat)
    requires i in Tops(k) && Distinct(k) && Links(e, k, p) && |e| <= |e'| && before !in Ids(k)
    requires forall j :: j in Ids(RemoveIn(k, i, g)) ==>
      j < |e| && RelinkedNext(e[j], e'[j], j == PrevOf(k, i, before), First(TopNode(k, i).rest))
    ensures Links(e', RemoveIn(k, i, g), p)
  {
    RemoveIds(k, i, g);
    if k.id == i {
      LinksFrame(e, e', k.rest, p);
      SetGapFacts(e', k.rest, g, p, 0);
    } else {
      TopNodeFacts(k.rest, i);
      RemoveIds(k.rest, i, g);
      PrevInTops(k.rest, i, k.id);
      LinksFrame(e, e', k.kids, k.id);
      if k.rest.id == i {
        LinksFrame(e, e', k.rest.rest, p);
        SetGapFacts(e', k.rest.rest, g, p, 0);
      } else {
        assert PrevOf(k, i, before) != k.id;
        RemoveLinks(e, e', k.rest, p, i, g, k.id);
      }
    }
  }

  lemma {:induction false} PrevInTops(k: Forest, i: nat, before: nat)
    requires i in Tops(k) && Distinct(k)
    ensures if k.id == i then PrevOf(k, i, before) == before
            else PrevOf(k, i, before) in Tops(k) && PrevOf(k, i, before) in Ids(k)
                 && PrevOf(k, i, before) in Ids(RemoveIn(k, i, ""))
  {
    if k.id != i { PrevInTops(k.rest, i, k.id); }
  }

  /** Ring fields after a removal behind the record, or elsewhere. */
  ghost predicate RemovedRing(p: ElemPos, q: ElemPos, behind: bool, prev: nat) {
    q == q.(first := p.first, prev := if behind then prev else p.prev)
  }

  lemma {:induction false} RemoveRingRest(e: Index, e': Index, k: Forest, before: nat, i: nat, g: string)
    requires i in Tops(k) && Distinct(k) && RingRest(e, k, before) && |e| <= |e'| && before !in Ids(k)
    requires forall j :: j in Ids(RemoveIn(k, i, g)) ==>
      j < |e| && RemovedRing(e[j], e'[j], j == First(TopNode(k, i).rest), PrevOf(k, i, before))
    ensures RingRest(e', RemoveIn(k, i, g), before)
  {
    RemoveIds(k, i, g);
    if k.id == i {
      var r := k.rest;
      if r.Node? {
        assert r.id in Ids(RemoveIn(k, i, g));
        assert forall j :: j in Ids(r.kids) ==> j in Ids(r) && j != r.id;
        assert forall j :: j in Ids(r.rest) ==> j in Ids(r) && j != r.id;
        RingFrame(e, e', r.kids);
        RingRestFrame(e, e', r.rest, r.id);
      }
      SetGapFacts(e', r, g, 0, before);
    } else {
      TopNodeFacts(k.rest, i);
      RemoveIds(k.rest, i, g);
      DistinctNoZero(k);
      assert First(TopNode(k, i).rest) == 0 || First(TopNode(k, i).rest) in Ids(TopNode(k, i).rest);
      assert k.id in Ids(RemoveIn(k, i, g));
      assert forall j :: j in Ids(k.kids) ==> j in Ids(RemoveIn(k, i, g)) && j !in Ids(k.rest);
      RingFrame(e, e', k.kids);
      RemoveRingRest(e, e', k.rest, k.id, i, g);
    }
  }

  lemma {:induction false} RemoveLast(k: Forest, i: nat, g: string, before: nat)
    requires i in Tops(k) && Distinct(k)
    ensures Last(RemoveIn(k, i, g), before)
         == if TopNode(k, i).rest.Nil? then PrevOf(k, i, before) else Last(k, before)
  {
    if k.id == i {
      SetGapFacts([], k.rest, g, 0, before);
    } else {
      RemoveLast(k.rest, i, g, k.id);
    }
  }

  /** Where the other elements are when an inner or last one is removed. */
  lemma StaysBesideRemoved(k: Forest, i: nat, g: string)
    requires i in Tops(k) && k.id != i && Distinct(k)
    ensures i in Tops(k.rest) && TopNode(k, i) == TopNode(k.rest, i) && PrevOf(k, i, 0) == PrevOf(k.rest, i, k.id)
    ensures RemoveIn(k, i, g) == k.(rest := RemoveIn(k.rest, i, g)) && k.id in Ids(RemoveIn(k, i, g))
    ensures forall j :: j in Ids(k.kids) ==> j in Ids(RemoveIn(k, i, g)) && j != k.id && j !in Ids(k.rest)
    ensures forall j :: j in Ids(RemoveIn(k.rest, i, g)) ==> j in Ids(RemoveIn(k, i, g)) && j != k.id
    ensures 0 !in Ids(RemoveIn(k, i, g)) && k.id !in Ids(k.rest)
    ensures TopNode(k, i).rest.Node? ==> TopNode(k, i).rest.id in Ids(k.rest)
  {
    RemoveIds(k, i, g);
    RemoveIds(k.rest, i, g);
    TopNodeFacts(k.rest, i);
    DistinctNoZero(k);
  }

  /** Bypassing an inner or last sibling keeps the ring. */
  lemma RemoveRing(e: Index, e': Index, k: Forest, i: nat, g: string)
    requires i in Tops(k) && k.id != i && Distinct(k) && Ring(e, k) && |e| <= |e'|
    requires forall j :: j in Ids(RemoveIn(k, i, g)) ==>
      j < |e| && RemovedRing(e[j], e'[j],
        if TopNode(k, i).rest.Nil? then j == k.id else j == TopNode(k, i).rest.id, PrevOf(k, i, 0))
    ensures Ring(e', RemoveIn(k, i, g))
  {
    StaysBesideRemoved(k, i, g);
    RemoveLast(k.rest, i, g, k.id);
    RingFrame(e, e', k.kids);
    RemoveRingRest(e, e', k.rest, k.id, i, g);
  }

  /** Removing the first sibling makes the next one first, with the link to the last. */
  lemma RemoveRingFirst(e: Index, e': Index, k: Forest, g: string)
    requires k.Node? && Distinct(k) && Ring(e, k) && |e| <= |e'|
    requires k.rest.Node? ==> k.rest.id < |e'| && e'[k.rest.id].first && e'[k.rest.id].prev == e[k.id].prev
    requires forall j :: j in Ids(k.rest) ==> j < |e| && (j != k.rest.id ==> SameRing(e[j], e'[j]))
    ensures Ring(e', RemoveIn(k, k.id, g))
  {
    var r := k.rest;
    if r.Node? {
      assert r.id in Ids(r);
      assert forall j :: j in Ids(r.kids) ==> j in Ids(r) && j != r.id;
      assert forall j :: j in Ids(r.rest) ==> j in Ids(r) && j != r.id;
      RingFrame(e, e', r.kids);
      RingRestFrame(e, e', r.rest, r.id);
    }
    SetGapFacts(e', r, g, 0, 0);
  }

  /** An element together with the gaps on both sides of it. */
  function RemovedText(n: Forest): string
    requires n.Node?
  {
    n.gap + n.tag + Text(n.kids) + n.close + n.rest.gap
  }

  /** Removing i puts one string in place of the element and the gaps on both sides of it. */
  lemma {:induction false} RemoveText(k: Forest, i: nat, g: string)
    requires i in Tops(k) && Distinct(k)
    ensures Text(k) == Before(k, PrevOf(k, i, 0)) + RemovedText(TopNode(k, i)) + Tail(TopNode(k, i).rest)
    ensures Text(RemoveIn(k, i, g)) == Before(k, PrevOf(k, i, 0)) + g + Tail(TopNode(k, i).rest)
  {
    var n := TopNode(k, i);
    if k.id == i {
      GapTail(k.rest, g);
    } else {
      RemoveText(k.rest, i, g);
      TopsInIds(k.rest);
      PrevInTops(k, i, 0);
      DistinctNoZero(k);
      var head := k.gap + k.tag + Text(k.kids) + k.close;
      var mid := RemovedText(n);
      if k.rest.id == i {
        assert Before(k.rest, 0) == "" && Before(k, k.id) == head + "";
      } else {
        PrevSame(k.rest, i, k.id, 0);
        PrevInTops(k.rest, i, 0);
        assert PrevOf(k.rest, i, 0) != k.id;
      }
      assert Before(k, PrevOf(k, i, 0)) == head + Before(k.rest, PrevOf(k.rest, i, 0));
      Assoc3(head, Before(k.rest, PrevOf(k.rest, i, 0)), mid, Tail(n.rest));
      Assoc3(head, Before(k.rest, PrevOf(k.rest, i, 0)), g, Tail(n.rest));
    }
  }

  lemma {:induction false} PrevSame(k: Forest, i: nat, a: nat, b: nat)
    requires i in Tops(k) && k.id != i
    ensures PrevOf(k, i, a) == PrevOf(k, i, b)
  {
  }

  lemma {:induction false} RemoveSpans(e: Index, e': Index, k: Forest, i: nat, g: string, o: int, d: int)
    requires i in Tops(k) && Distinct(k) && Spans(e, k, o) && |e| <= |e'|
    requires d == |g| - |TopNode(k, i).gap| - Width(TopNode(k, i)) - |TopNode(k, i).rest.gap|
    requires forall j :: j in Ids(RemoveIn(k, i, g)) ==>
      j < |e| && SameSpan(e[j], e'[j], if j in Ids(TopNode(k, i).rest) then d else 0)
    ensures Spans(e', RemoveIn(k, i, g), o)
  {
    RemoveIds(k, i, g);
    if k.id == i {
      SpansShift(e, e', k.rest, o + |k.gap| + Width(k), d);
      SetGapSpans(e', k.rest, g, o + |k.gap| + Width(k) + d);
    } else {
      TopNodeFacts(k.rest, i);
      RemoveIds(k.rest, i, g);
      assert k.id in Ids(RemoveIn(k, i, g)) && k.id !in Ids(TopNode(k, i).rest);
      assert forall j :: j in Ids(k.kids) ==> j in Ids(RemoveIn(k, i, g)) && j !in Ids(k.rest);
      SpansShift(e, e', k.kids, o + |k.gap| + |k.tag|, 0);
      RemoveSpans(e, e', k.rest, i, g, o + |k.gap| + Width(k), d);
    }
  }
}
