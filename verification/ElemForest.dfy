/**
  The element index of CMarkup and the document structure it stands for.

  The index is an array of ElemPos records linked by parent, first child, next and previous
  sibling. A Forest is a list of sibling elements with the text between them; its nodes carry
  the position of their record. Text(f) is the markup, and Links, Ring and Spans say that the
  records of f hold the links, the sibling ring and the offsets that f prescribes.
 */
module ElemForest {

  /** One record of the index; the flag bits the model needs are separate fields. */
  datatype ElemPos = ElemPos(
    start: int, length: int, startTagLen: int, endTagLen: int,
    first: bool, deleted: bool, nonEnded: bool, illData: bool, illFormed: bool,
    parent: nat, child: nat, next: nat, prev: nat)
  {
    function StartContent(): int { start + startTagLen }
    function StartAfter(): int { start + length }
    function ContentLen(): int { length - startTagLen - endTagLen }
    predicate IsEmptyElement() { startTagLen == length }
  }

  const ClearedElemPos := ElemPos(0, 0, 0, 0, false, false, false, false, false, 0, 0, 0, 0)

  type Index = seq<ElemPos>

  /**
    A list of sibling elements. gap is the text in front of the element (after the last one,
    for Nil); tag and close are its start tag and end tag.
   */
  datatype Forest =
    | Nil(gap: string)
    | Node(gap: string, id: nat, tag: string, kids: Forest, close: string, rest: Forest)

  function Text(f: Forest): string {
    match f
    case Nil(g) => g
    case Node(g, _, t, k, c, r) => g + t + Text(k) + c + Text(r)
  }

  function Ids(f: Forest): set<nat> {
    match f
    case Nil(_) => {}
    case Node(_, i, _, k, _, r) => {i} + Ids(k) + Ids(r)
  }

  function First(f: Forest): nat { if f.Nil? then 0 else f.id }

  function Last(f: Forest, before: nat): nat {
    if f.Nil? then before else Last(f.rest, f.id)
  }

  ghost predicate Disjoint<T(!new)>(A: set<T>, B: set<T>) {
    forall x :: x in A ==> x !in B
  }

  /** Every record is used once. */
  ghost predicate Distinct(f: Forest) {
    match f
    case Nil(_) => true
    case Node(_, i, _, k, _, r) =>
      i != 0 && i !in Ids(k) && i !in Ids(r) && Disjoint(Ids(k), Ids(r)) && Distinct(k) && Distinct(r)
  }

  ghost predicate Links(e: Index, f: Forest, parent: nat) {
    match f
    case Nil(_) => true
    case Node(_, i, _, k, _, r) =>
      0 < i < |e| && e[i].parent == parent && e[i].child == First(k) && e[i].next == First(r) &&
      !e[i].deleted && Links(e, k, i) && Links(e, r, parent)
  }

  /** Previous links run back to the first sibling, whose own points to the last. */
  ghost predicate Ring(e: Index, f: Forest) {
    match f
    case Nil(_) => true
    case Node(_, i, _, k, _, r) =>
      0 < i < |e| && e[i].first && e[i].prev == Last(r, i) && Ring(e, k) && RingRest(e, r, i)
  }

  ghost predicate RingRest(e: Index, f: Forest, before: nat) {
    match f
    case Nil(_) => true
    case Node(_, i, _, k, _, r) =>
      0 < i < |e| && !e[i].first && e[i].prev == before && Ring(e, k) && RingRest(e, r, i)
  }

  function Width(f: Forest): nat
    requires f.Node?
  {
    |f.tag| + |Text(f.kids)| + |f.close|
  }

  ghost predicate Spans(e: Index, f: Forest, off: int) {
    match f
    case Nil(_) => true
    case Node(g, i, t, k, c, r) =>
      0 < i < |e| && e[i].start == off + |g| && e[i].length == Width(f) &&
      e[i].startTagLen == |t| && e[i].endTagLen == |c| &&
      Spans(e, k, off + |g| + |t|) && Spans(e, r, off + |g| + Width(f))
  }

  /** Every start tag is non-empty: this is what stops the walks at the virtual parent only. */
  ghost predicate Tagged(f: Forest) {
    f.Node? ==> |f.tag| > 0 && Tagged(f.kids) && Tagged(f.rest)
  }

  // --------------------------------------------------------------- positions in a forest

  /** The node with position i. */
  ghost function Find(f: Forest, i: nat): (n: Forest)
    requires i in Ids(f)
    ensures n.Node? && n.id == i
  {
    if f.id == i then f
    else if i in Ids(f.kids) then Find(f.kids, i)
    else Find(f.rest, i)
  }

  /** The elements that follow i in document order, its descendants excluded. */
  ghost function Following(f: Forest, i: nat): set<nat> {
    if f.Nil? then {}
    else if f.id == i then Ids(f.rest)
    else if i in Ids(f.kids) then Following(f.kids, i) + Ids(f.rest)
    else Following(f.rest, i)
  }

  /** The proper ancestors of i in f. */
  ghost function Ancestors(f: Forest, i: nat): set<nat> {
    if f.Nil? || f.id == i then {}
    else if i in Ids(f.kids) then {f.id} + Ancestors(f.kids, i)
    else Ancestors(f.rest, i)
  }

  lemma {:induction false} FindInside(f: Forest, i: nat)
    requires i in Ids(f)
    ensures Ids(Find(f, i).kids) <= Ids(f)
  {
    if f.id != i {
      if i in Ids(f.kids) { FindInside(f.kids, i); } else { FindInside(f.rest, i); }
    }
  }

  // ------------------------------------------------------------------------------- frames

  /** e and e' agree on the links of record i. */
  ghost predicate SameLinks(p: ElemPos, q: ElemPos) {
    p.parent == q.parent && p.child == q.child && p.next == q.next && p.deleted == q.deleted
  }

  lemma {:induction false} LinksFrame(e: Index, e': Index, f: Forest, parent: nat)
    requires Links(e, f, parent) && |e| <= |e'|
    requires forall j :: j in Ids(f) ==> j < |e| && SameLinks(e[j], e'[j])
    ensures Links(e', f, parent)
  {
    if f.Node? {
      LinksFrame(e, e', f.kids, f.id);
      LinksFrame(e, e', f.rest, parent);
    }
  }

  lemma {:induction false} LinksInRange(e: Index, f: Forest, parent: nat)
    requires Links(e, f, parent)
    ensures forall j :: j in Ids(f) ==> 0 < j < |e|
  {
    if f.Node? {
      LinksInRange(e, f.kids, f.id);
      LinksInRange(e, f.rest, parent);
    }
  }

  ghost predicate SameRing(p: ElemPos, q: ElemPos) {
    p.prev == q.prev && p.first == q.first
  }

  lemma {:induction false} RingFrame(e: Index, e': Index, f: Forest)
    requires Ring(e, f) && |e| <= |e'|
    requires forall j :: j in Ids(f) ==> j < |e| && SameRing(e[j], e'[j])
    ensures Ring(e', f)
  {
    if f.Node? {
      RingFrame(e, e', f.kids);
      RingRestFrame(e, e', f.rest, f.id);
    }
  }

  lemma {:induction false} RingRestFrame(e: Index, e': Index, f: Forest, before: nat)
    requires RingRest(e, f, before) && |e| <= |e'|
    requires forall j :: j in Ids(f) ==> j < |e| && SameRing(e[j], e'[j])
    ensures RingRest(e', f, before)
  {
    if f.Node? {
      RingFrame(e, e', f.kids);
      RingRestFrame(e, e', f.rest, f.id);
    }
  }

  ghost predicate SameSpan(p: ElemPos, q: ElemPos, shift: int) {
    q.start == p.start + shift && q.length == p.length &&
    q.startTagLen == p.startTagLen && q.endTagLen == p.endTagLen
  }

  lemma {:induction false} SpansShift(e: Index, e': Index, f: Forest, off: int, shift: int)
    requires Spans(e, f, off) && |e| <= |e'|
    requires forall j :: j in Ids(f) ==> j < |e| && SameSpan(e[j], e'[j], shift)
    ensures Spans(e', f, off + shift)
  {
    if f.Node? {
      SpansShift(e, e', f.kids, off + |f.gap| + |f.tag|, shift);
      SpansShift(e, e', f.rest, off + |f.gap| + Width(f), shift);
    }
  }
}
