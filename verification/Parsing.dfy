/**
  Parsing a text: the elements that are still open at some point of it, with the part of the
  document that is known by then.
 */
module Parsing {
  import opened ElemForest
  import opened ForestEdit
  import opened DocText

  // ------------------------------------------------------- a list that another element follows

  function FirstOr(k: Forest, after: nat): nat { if k.Nil? then after else k.id }

  function LastOr(k: Forest, after: nat): nat { if after != 0 then after else LastTop(k) }

  /** The links of the siblings k, the last one linked to after. */
  ghost predicate LinksTo(e: Index, k: Forest, p: nat, after: nat) {
    match k
    case Nil(_) => true
    case Node(_, i, _, c, _, r) =>
      0 < i < |e| && e[i].parent == p && e[i].child == First(c) && e[i].next == FirstOr(r, after) && !e[i].deleted &&
      Links(e, c, i) && LinksTo(e, r, p, after)
  }

  /** k with one more element, and what then follows it, in place of the end of the list. */
  function Append(k: Forest, id: nat, tag: string, kids: Forest, close: string, rest: Forest): Forest {
    match k
    case Nil(g) => Node(g, id, tag, kids, close, rest)
    case Node(_, _, _, _, _, r) => k.(rest := Append(r, id, tag, kids, close, rest))
  }

  /** k with more text behind it. */
  function AddText(k: Forest, s: string): Forest {
    match k
    case Nil(g) => Nil(g + s)
    case Node(_, _, _, _, _, r) => k.(rest := AddText(r, s))
  }

  lemma {:induction false} LinksToZero(e: Index, k: Forest, p: nat)
    ensures LinksTo(e, k, p, 0) <==> Links(e, k, p)
  {
    if k.Node? { LinksToZero(e, k.rest, p); }
  }

  lemma {:induction false} LinksToFrame(e: Index, e': Index, k: Forest, p: nat, after: nat)
    requires LinksTo(e, k, p, after) && |e| <= |e'|
    requires forall j :: j in Ids(k) ==> j < |e| && SameLinks(e[j], e'[j])
    ensures LinksTo(e', k, p, after)
  {
    if k.Node? {
      LinksFrame(e, e', k.kids, k.id);
      LinksToFrame(e, e', k.rest, p, after);
    }
  }

  lemma {:induction false} LinksToInRange(e: Index, k: Forest, p: nat, after: nat)
    requires LinksTo(e, k, p, after)
    ensures forall j :: j in Ids(k) ==> 0 < j < |e|
  {
    if k.Node? {
      LinksInRange(e, k.kids, k.id);
      LinksToInRange(e, k.rest, p, after);
    }
  }

  /** The last sibling is linked to a new element. */
  lemma {:induction false} LinksToNext(e: Index, e': Index, k: Forest, p: nat, after: nat)
    requires LinksTo(e, k, p, 0) && |e| <= |e'| && Distinct(k)
    requires forall j :: j in Ids(k) ==>
      j < |e| && if j == LastTop(k) then SameLinks(e[j].(next := after), e'[j]) else SameLinks(e[j], e'[j])
    ensures LinksTo(e', k, p, after)
  {
    if k.Node? {
      LinksFrameKids(e, e', k);
      if k.rest.Node? {
        LastRest(k.rest, k.id);
        LastIsTop(k.rest);
        TopsInIds(k.rest);
        LinksToNext(e, e', k.rest, p, after);
      }
    }
  }

  lemma LastNotBelow(k: Forest)
    requires k.Node? && Distinct(k)
    ensures LastTop(k) !in Ids(k.kids)
  {
    if k.rest.Node? {
      LastRest(k.rest, k.id);
      LastIsTop(k.rest);
      TopsInIds(k.rest);
    }
  }

  lemma LinksFrameKids(e: Index, e': Index, k: Forest)
    requires k.Node? && Distinct(k) && Links(e, k.kids, k.id) && |e| <= |e'|
    requires forall j :: j in Ids(k) ==> j < |e| && (j == LastTop(k) || SameLinks(e[j], e'[j]))
    ensures Links(e', k.kids, k.id)
  {
    hide Links, Text, EndOf, GapAfter, Behind, NextAfter;
    LastNotBelow(k);
    LinksFrame(e, e', k.kids, k.id);
  }

  lemma {:induction false} AppendIds(k: Forest, id: nat, tag: string, kids: Forest, close: string, rest: Forest)
    ensures Ids(Append(k, id, tag, kids, close, rest)) == Ids(k) + {id} + Ids(kids) + Ids(rest)
    ensures First(Append(k, id, tag, kids, close, rest)) == FirstOr(k, id)
    ensures LastTop(Append(k, id, tag, kids, close, rest)) == if rest.Nil? then id else LastTop(rest)
  {
    if k.Node? {
      AppendIds(k.rest, id, tag, kids, close, rest);
      LastRest(Append(k.rest, id, tag, kids, close, rest), k.id);
    }
    if rest.Node? { LastRest(rest, id); }
  }

  lemma {:induction false} AppendDistinct(k: Forest, id: nat, tag: string, kids: Forest, close: string, rest: Forest)
    requires Distinct(k) && Distinct(kids) && Distinct(rest) && id != 0
    requires id !in Ids(k) && id !in Ids(kids) && id !in Ids(rest)
    requires Disjoint(Ids(k), Ids(kids)) && Disjoint(Ids(k), Ids(rest)) && Disjoint(Ids(kids), Ids(rest))
    ensures Distinct(Append(k, id, tag, kids, close, rest))
  {
    AppendIds(k, id, tag, kids, close, rest);
    if k.Node? {
      AppendIds(k.rest, id, tag, kids, close, rest);
      AppendDistinct(k.rest, id, tag, kids, close, rest);
    }
  }

  lemma {:induction false} AppendText(k: Forest, id: nat, tag: string, kids: Forest, close: string, rest: Forest)
    ensures Text(Append(k, id, tag, kids, close, rest)) == Text(k) + (tag + Text(kids) + close) + Text(rest)
  {
    if k.Node? {
      AppendText(k.rest, id, tag, kids, close, rest);
      Join7(k.gap, k.tag, Text(k.kids), k.close, Text(k.rest), tag + Text(kids) + close, Text(rest));
    } else {
      Join5(k.gap, tag, Text(kids), close, Text(rest));
    }
  }

  lemma Join5(g: string, t: string, x: string, c: string, r: string)
    ensures g + t + x + c + r == g + (t + x + c) + r
  {
  }

  lemma Join7(g: string, t: string, x: string, c: string, r: string, m: string, z: string)
    ensures g + t + x + c + (r + m + z) == (g + t + x + c + r) + m + z
  {
  }

  lemma {:induction false} AppendLinks(e: Index, k: Forest, p: nat, id: nat, tag: string, kids: Forest, close: string,
    rest: Forest, after: nat)
    requires LinksTo(e, k, p, id) && 0 < id < |e| && e[id].parent == p && e[id].child == First(kids) && !e[id].deleted
    requires e[id].next == FirstOr(rest, after) && Links(e, kids, id) && LinksTo(e, rest, p, after)
    ensures LinksTo(e, Append(k, id, tag, kids, close, rest), p, after)
  {
    if k.Node? { AppendLinks(e, k.rest, p, id, tag, kids, close, rest, after); }
  }

  lemma {:induction false} AppendSpans(e: Index, k: Forest, o: int, id: nat, tag: string, kids: Forest, close: string,
    rest: Forest)
    requires Spans(e, k, o) && 0 < id < |e| && e[id].start == o + |Text(k)| &&
      e[id].length == |tag| + |Text(kids)| + |close|
    requires e[id].startTagLen == |tag| && e[id].endTagLen == |close|
    requires Spans(e, kids, o + |Text(k)| + |tag|) && Spans(e, rest, o + |Text(k)| + |tag| + |Text(kids)| + |close|)
    ensures Spans(e, Append(k, id, tag, kids, close, rest), o)
  {
    if k.Node? { AppendSpans(e, k.rest, o + |k.gap| + Width(k), id, tag, kids, close, rest); }
  }

  lemma {:induction false} AddTextFacts(e: Index, k: Forest, s: string, p: nat, after: nat, o: int)
    ensures Text(AddText(k, s)) == Text(k) + s && Ids(AddText(k, s)) == Ids(k) &&
      FirstOr(AddText(k, s), after) == FirstOr(k, after)
    ensures LastTop(AddText(k, s)) == LastTop(k) && (Distinct(k) ==> Distinct(AddText(k, s)))
    ensures LinksTo(e, k, p, after) ==> LinksTo(e, AddText(k, s), p, after)
    ensures Spans(e, k, o) ==> Spans(e, AddText(k, s), o)
  {
    if k.Node? {
      AddTextFacts(e, k.rest, s, p, after, o + |k.gap| + Width(k));
      LastRestSame(k, s);
      Appended4(k.gap + k.tag + Text(k.kids) + k.close, Text(k.rest), s);
    }
  }

  lemma LastRestSame(k: Forest, s: string)
    requires k.Node? && LastTop(AddText(k.rest, s)) == LastTop(k.rest)
    ensures LastTop(AddText(k, s)) == LastTop(k)
  {
    if k.rest.Node? {
      LastRest(k.rest, k.id);
      LastRest(AddText(k.rest, s), k.id);
    }
  }

  lemma Appended4(a: string, r: string, s: string)
    ensures a + (r + s) == (a + r) + s
  {
  }

  // ------------------------------------------------------------------------ rings of such lists

  ghost predicate RingTo(e: Index, k: Forest, after: nat) {
    k.Node? ==>
      0 < k.id < |e| && e[k.id].first && e[k.id].prev == LastOr(k, after) && Ring(e, k.kids) &&
        RingRest(e, k.rest, k.id)
  }

  /** The record of the element that follows k. */
  ghost predicate Member(e: Index, k: Forest, id: nat) {
    0 < id < |e| && e[id].first == k.Nil? && e[id].prev == if k.Nil? then id else LastTop(k)
  }

  lemma RingToZero(e: Index, k: Forest)
    ensures RingTo(e, k, 0) <==> Ring(e, k)
  {
  }

  lemma {:induction false} AppendRingRest(e: Index, k: Forest, before: nat, id: nat, tag: string, kids: Forest,
    close: string, g: string)
    requires RingRest(e, k, before) && 0 < id < |e| && !e[id].first && e[id].prev == Last(k, before) && Ring(e, kids)
    ensures RingRest(e, Append(k, id, tag, kids, close, Nil(g)), before)
  {
    if k.Node? { AppendRingRest(e, k.rest, k.id, id, tag, kids, close, g); }
  }

  lemma AppendRing(e: Index, k: Forest, id: nat, tag: string, kids: Forest, close: string, g: string)
    requires RingTo(e, k, id) && Member(e, k, id) && Ring(e, kids)
    ensures RingTo(e, Append(k, id, tag, kids, close, Nil(g)), 0)
  {
    AppendIds(k, id, tag, kids, close, Nil(g));
    if k.Node? { AppendRingRest(e, k.rest, k.id, id, tag, kids, close, g); }
  }

  lemma {:induction false} AddTextRing(e: Index, k: Forest, s: string, after: nat, before: nat)
    ensures RingTo(e, k, after) ==> RingTo(e, AddText(k, s), after)
    ensures RingRest(e, k, before) ==> RingRest(e, AddText(k, s), before)
  {
    AddTextFacts(e, k, s, 0, after, 0);
    if k.Node? { AddTextRing(e, k.rest, s, after, k.id); }
  }
}
