/**
  The stack of open elements during parsing, and what a start tag, a matching end tag and an
  element without end tag do to it.
 */
module OpenElements {
  import opened ElemForest
  import opened ForestEdit
  import opened DocText
  import opened Parsing

  /** Innermost level first: an open element, its name and what has been read of its content. */
  datatype Open = Bottom(done: Forest) | Level(below: Open, id: nat, tag: string, name: string, done: Forest)

  function Pos(o: Open): nat { if o.Bottom? then 0 else o.id }

  function Names(o: Open): seq<string> { if o.Bottom? then [] else Names(o.below) + [o.name] }

  function OpenText(o: Open): string {
    match o
    case Bottom(k) => Text(k)
    case Level(b, _, t, _, k) => OpenText(b) + t + Text(k)
  }

  function OpenIds(o: Open): set<nat> {
    match o
    case Bottom(k) => Ids(k)
    case Level(b, i, _, _, k) => OpenIds(b) + {i} + Ids(k)
  }

  ghost predicate OpenDistinct(o: Open) {
    match o
    case Bottom(k) => Distinct(k)
    case Level(b, i, _, _, k) =>
      i != 0 && i !in OpenIds(b) && i !in Ids(k) && Disjoint(Ids(k), OpenIds(b)) && Distinct(k) && OpenDistinct(b)
  }

  /** after is the element behind the innermost list, 0 for none. */
  ghost predicate OpenLinks(e: Index, o: Open, after: nat) {
    Pos(o) < |e| && e[Pos(o)].child == FirstOr(o.done, after) && LinksTo(e, o.done, Pos(o), after) &&
    (o.Level? ==> 0 < o.id < |e| && e[o.id].parent == Pos(o.below) && e[o.id].next == 0 && !e[o.id].deleted &&
                  OpenLinks(e, o.below, o.id))
  }

  ghost predicate OpenSpans(e: Index, o: Open) {
    match o
    case Bottom(k) => Spans(e, k, 0)
    case Level(b, i, t, _, k) =>
      0 < i < |e| && e[i].start == |OpenText(b)| && e[i].startTagLen == |t| &&
      Spans(e, k, |OpenText(b)| + |t|) && OpenSpans(e, b)
  }

  /** What is known of the index. */
  ghost predicate Parsed(e: Index, o: Open) {
    |e| > 0 && OpenDistinct(o) && OpenLinks(e, o, 0) && OpenSpans(e, o)
  }

  /**
    The first element of a list knows the last one: this is how the next one is linked in. The last
    one has an end tag, or may yet get one.
   */
  ghost predicate Head(e: Index, k: Forest, after: nat) {
    var f, z := FirstOr(k, after), LastOr(k, after);
    (f != 0 ==> f < |e| && e[f].prev == z) && (z != 0 ==> z < |e| && !e[z].nonEnded)
  }

  ghost predicate Heads(e: Index, o: Open, after: nat) {
    Head(e, o.done, after) && (o.Level? ==> Heads(e, o.below, o.id))
  }

  /** The sibling rings are whole. */
  ghost predicate OpenRings(e: Index, o: Open, after: nat) {
    RingTo(e, o.done, after) && (o.Level? ==> Member(e, o.below.done, o.id) && OpenRings(e, o.below, o.id))
  }

  // ------------------------------------------------------------------------------- frames

  lemma {:induction false} OpenLinksFrame(e: Index, e': Index, o: Open, after: nat)
    requires OpenLinks(e, o, after) && |e| <= |e'| && SameLinks(e[0], e'[0])
    requires forall j :: j in OpenIds(o) && j < |e| ==> SameLinks(e[j], e'[j])
    ensures OpenLinks(e', o, after)
  {
    LinksToInRange(e, o.done, Pos(o), after);
    LinksToFrame(e, e', o.done, Pos(o), after);
    if o.Level? { OpenLinksFrame(e, e', o.below, o.id); }
  }

  /** The child link of the innermost element itself may change. */
  lemma OpenBelowFrame(e: Index, e': Index, o: Open)
    requires o.Level? && OpenLinks(e, o.below, o.id) && |e| <= |e'| && SameLinks(e[0], e'[0])
    requires forall j :: j in OpenIds(o.below) && j < |e| ==> SameLinks(e[j], e'[j])
    ensures OpenLinks(e', o.below, o.id)
  {
    OpenLinksFrame(e, e', o.below, o.id);
  }

  lemma {:induction false} OpenInRange(e: Index, o: Open, after: nat)
    requires OpenLinks(e, o, after)
    ensures forall j :: j in OpenIds(o) ==> 0 < j < |e|
  {
    LinksToInRange(e, o.done, Pos(o), after);
    if o.Level? { OpenInRange(e, o.below, o.id); }
  }

  lemma {:induction false} OpenSpansFrame(e: Index, e': Index, o: Open)
    requires OpenSpans(e, o) && |e| <= |e'|
    requires forall j :: j in OpenIds(o) && j < |e| ==> SameStart(e[j], e'[j])
    requires forall j :: j in DoneIds(o) && j < |e| ==> SameSpan(e[j], e'[j], 0)
    ensures OpenSpans(e', o)
  {
    SpansRange(e, o.done, if o.Bottom? then 0 else |OpenText(o.below)| + |o.tag|);
    SpansShift(e, e', o.done, if o.Bottom? then 0 else |OpenText(o.below)| + |o.tag|, 0);
    if o.Level? { OpenSpansFrame(e, e', o.below); }
  }

  predicate SameStart(p: ElemPos, q: ElemPos) { q.start == p.start && q.startTagLen == p.startTagLen }

  /** The elements that are closed. */
  function DoneIds(o: Open): set<nat> {
    if o.Bottom? then Ids(o.done) else Ids(o.done) + DoneIds(o.below)
  }

  lemma {:induction false} DoneInOpen(o: Open)
    ensures DoneIds(o) <= OpenIds(o)
  {
    if o.Level? { DoneInOpen(o.below); }
  }

  lemma {:induction false} SpansRange(e: Index, k: Forest, o: int)
    requires Spans(e, k, o)
    ensures forall j :: j in Ids(k) ==> 0 < j < |e|
  {
    if k.Node? {
      SpansRange(e, k.kids, o + |k.gap| + |k.tag|);
      SpansRange(e, k.rest, o + |k.gap| + Width(k));
    }
  }

  lemma {:induction false} LastInIds(k: Forest)
    requires k.Node?
    ensures LastTop(k) in Ids(k)
  {
    LastIsAmong(k.rest, k.id);
  }

  lemma {:induction false} LastIsAmong(k: Forest, before: nat)
    ensures Last(k, before) == before || Last(k, before) in Ids(k)
  {
    if k.Node? { LastIsAmong(k.rest, k.id); }
  }

  lemma {:induction false} HeadsFrame(e: Index, e': Index, o: Open, after: nat)
    requires Heads(e, o, after) && |e| <= |e'|
    requires forall j :: (j in OpenIds(o) || j == after) && j < |e| ==>
      e'[j].prev == e[j].prev && e'[j].nonEnded == e[j].nonEnded
    ensures Heads(e', o, after)
  {
    if o.done.Node? {
      assert o.done.id in Ids(o.done);
      LastInIds(o.done);
    }
    if o.Level? { HeadsFrame(e, e', o.below, o.id); }
  }

  lemma {:induction false} OpenRingsFrame(e: Index, e': Index, o: Open, after: nat)
    requires OpenRings(e, o, after) && |e| <= |e'|
    requires forall j :: j in OpenIds(o) ==> j < |e| && SameRing(e[j], e'[j])
    ensures OpenRings(e', o, after)
  {
    RingToFrame(e, e', o.done, after);
    if o.Level? { OpenRingsFrame(e, e', o.below, o.id); }
  }

  lemma RingToFrame(e: Index, e': Index, k: Forest, after: nat)
    requires RingTo(e, k, after) && |e| <= |e'|
    requires forall j :: j in Ids(k) ==> j < |e| && SameRing(e[j], e'[j])
    ensures RingTo(e', k, after)
  {
    if k.Node? {
      RingFrame(e, e', k.kids);
      RingRestFrame(e, e', k.rest, k.id);
    }
  }

  // -------------------------------------------------------------------------- other text

  function MoreText(o: Open, s: string): Open { o.(done := AddText(o.done, s)) }

  lemma MoreTextParsed(e: Index, o: Open, s: string)
    requires Parsed(e, o)
    ensures Parsed(e, MoreText(o, s)) && OpenText(MoreText(o, s)) == OpenText(o) + s
    ensures OpenIds(MoreText(o, s)) == OpenIds(o) && Names(MoreText(o, s)) == Names(o) && Pos(MoreText(o, s)) == Pos(o)
    ensures Heads(e, o, 0) ==> Heads(e, MoreText(o, s), 0)
    ensures OpenRings(e, o, 0) ==> OpenRings(e, MoreText(o, s), 0)
  {
    var at := if o.Bottom? then 0 else |OpenText(o.below)| + |o.tag|;
    AddTextFacts(e, o.done, s, Pos(o), 0, at);
    AddTextRing(e, o.done, s, 0, 0);
    if o.Level? { Appended4(OpenText(o.below) + o.tag, Text(o.done), s); }
  }

  // --------------------------------------------------------------------------- a start tag

  function Started(o: Open, id: nat, tag: string, name: string): Open { Level(o, id, tag, name, Nil("")) }

  /** A new record, linked in behind the last element of the innermost list. */
  ghost predicate LinkedLast(e: Index, e': Index, o: Open, id: nat, tag: string) {
    id == |e| && |e'| == |e| + 1 &&
    e'[id].parent == Pos(o) && e'[id].next == 0 && e'[id].child == 0 && !e'[id].deleted &&
    e'[id].start == |OpenText(o)| && e'[id].startTagLen == |tag| &&
    e'[id].prev == (if o.done.Nil? then id else LastTop(o.done)) && e'[id].first == o.done.Nil? &&
    forall j :: 0 <= j < |e| ==>
      e'[j] == e[j].(next := if o.done.Node? && j == LastTop(o.done) then id else e[j].next,
                     prev := if o.done.Node? && j == o.done.id then id else e[j].prev,
                     child := if o.done.Nil? && j == Pos(o) then id else e[j].child)
  }

  lemma TopsOfDone(o: Open)
    requires OpenDistinct(o)
    ensures o.done.Node? ==> LastTop(o.done) in Ids(o.done) && o.done.id in Ids(o.done)
    ensures Distinct(o.done) && Pos(o) !in Ids(o.done)
    ensures o.Level? ==> Disjoint(Ids(o.done), OpenIds(o.below)) && o.id !in OpenIds(o.below)
  {
    DistinctNoZero(o.done);
    if o.done.Node? {
      LastIsTop(o.done);
      TopsInIds(o.done);
    }
  }

  lemma StartedLinks(e: Index, e': Index, o: Open, id: nat, tag: string)
    requires Parsed(e, o) && LinkedLast(e, e', o, id, tag)
    ensures OpenLinks(e', o, id)
  {
    hide Links, Spans, OpenSpans, Text;
    TopsOfDone(o);
    OpenInRange(e, o, 0);
    forall j | j in Ids(o.done)
      ensures j < |e| && if j == LastTop(o.done) then SameLinks(e[j].(next := id), e'[j]) else SameLinks(e[j], e'[j])
    {
      assert j in OpenIds(o);
    }
    LinksToNext(e, e', o.done, Pos(o), id);
    if o.Level? {
      OpenZero(o);
      OpenBelowFrame(e, e', o);
    }
  }

  lemma {:induction false} OpenZero(o: Open)
    requires OpenDistinct(o)
    ensures 0 !in OpenIds(o)
  {
    DistinctNoZero(o.done);
    if o.Level? { OpenZero(o.below); }
  }

  lemma StartedParsed(e: Index, e': Index, o: Open, id: nat, tag: string, name: string)
    requires Parsed(e, o) && LinkedLast(e, e', o, id, tag)
    ensures Parsed(e', Started(o, id, tag, name))
    ensures OpenText(Started(o, id, tag, name)) == OpenText(o) + tag
  {
    hide Links, Spans;
    StartedLinks(e, e', o, id, tag);
    OpenInRange(e, o, 0);
    DoneInOpen(o);
    OpenSpansFrame(e, e', o);
    EmptySpans(e', |OpenText(o)| + |tag|);
    assert OpenText(o) + tag + "" == OpenText(o) + tag;
  }

  lemma EmptySpans(e: Index, o: int)
    ensures Spans(e, Nil(""), o)
  {
  }

  lemma StartedHeads(e: Index, e': Index, o: Open, id: nat, tag: string, name: string)
    requires Parsed(e, o) && LinkedLast(e, e', o, id, tag) && Heads(e, o, 0) && !e'[id].nonEnded
    ensures Heads(e', Started(o, id, tag, name), 0)
  {
    hide Links, Spans, OpenSpans, Text;
    TopsOfDone(o);
    OpenInRange(e, o, 0);
    if o.Level? { HeadsFrame(e, e', o.below, o.id); }
  }

  lemma StartedRings(e: Index, e': Index, o: Open, id: nat, tag: string, name: string)
    requires Parsed(e, o) && LinkedLast(e, e', o, id, tag) && OpenRings(e, o, 0)
    ensures OpenRings(e', Started(o, id, tag, name), 0)
  {
    hide Links, Spans, OpenSpans, Text;
    TopsOfDone(o);
    OpenInRange(e, o, 0);
    forall j | j in OpenIds(o) && !(o.done.Node? && j == o.done.id) ensures j < |e| && SameRing(e[j], e'[j]) {
    }
    if o.done.Node? {
      RingFrame(e, e', o.done.kids);
      RingRestFrame(e, e', o.done.rest, o.done.id);
    }
    if o.Level? { OpenRingsFrame(e, e', o.below, o.id); }
  }

  // ----------------------------------------------------------------------- a matching end tag

  function Closed(o: Open, close: string): Open
    requires o.Level?
  {
    o.below.(done := Append(o.below.done, o.id, o.tag, o.done, close, Nil("")))
  }

  /** The record of the closed element. */
  ghost predicate Ends(e: Index, e': Index, o: Open, close: string)
    requires o.Level?
  {
    |e'| == |e| && o.id < |e| && (forall j :: 0 <= j < |e| && j != o.id ==> e'[j] == e[j]) &&
    e'[o.id] == e[o.id].(length := |o.tag| + |Text(o.done)| + |close|, endTagLen := |close|)
  }

  lemma ClosedParts(o: Open)
    requires o.Level? && OpenDistinct(o)
    ensures Distinct(o.below.done) && o.id !in Ids(o.below.done) && Disjoint(Ids(o.below.done), Ids(o.done))
    ensures o.id !in Ids(o.done) && Distinct(o.done) && o.id != 0 && Pos(o.below) != o.id &&
      Pos(o.below) !in Ids(o.done)
    ensures OpenDistinct(o.below)
  {
    OpenZero(o);
    if o.below.Level? { assert o.below.id in OpenIds(o.below); }
    forall x | x in Ids(o.below.done) ensures x !in Ids(o.done) { assert x in OpenIds(o.below); }
  }

  /** The stack with the innermost element, closed or promoted, back in the list it is in. */
  lemma AppendedDistinct(o: Open, kids: Forest, close: string, rest: Forest)
    requires o.Level? && OpenDistinct(o) && ((kids == o.done && rest.Nil?) || (kids.Nil? && rest == o.done))
    ensures var b := o.below.(done := Append(o.below.done, o.id, o.tag, kids, close, rest));
      OpenDistinct(b) && OpenIds(b) == OpenIds(o)
  {
    hide Distinct;
    ClosedParts(o);
    NilParts();
    AppendIds(o.below.done, o.id, o.tag, kids, close, rest);
    AppendDistinct(o.below.done, o.id, o.tag, kids, close, rest);
    if o.below.Level? {
      BelowApart(o, Append(o.below.done, o.id, o.tag, kids, close, rest));
    }
  }

  lemma NilParts()
    ensures forall g: string :: Distinct(Nil(g)) && Ids(Nil(g)) == {}
  {
  }

  lemma BelowIds(o: Open)
    requires o.Level?
    ensures o.id in OpenIds(o) && forall x :: x !in OpenIds(o) ==> x !in OpenIds(o.below)
  {
  }

  lemma BelowApart(o: Open, k: Forest)
    requires o.Level? && o.below.Level? && OpenDistinct(o) && Ids(k) == Ids(o.below.done) + {o.id} + Ids(o.done)
    ensures o.below.id !in Ids(k) && Disjoint(Ids(k), OpenIds(o.below.below))
  {
    BelowIds(o.below);
  }

  lemma ClosedText(o: Open, close: string)
    requires o.Level?
    ensures OpenText(Closed(o, close)) == OpenText(o) + close
  {
    AppendText(o.below.done, o.id, o.tag, o.done, close, Nil(""));
    var a := if o.below.Bottom? then "" else OpenText(o.below.below) + o.below.tag;
    CloseJoin(a, Text(o.below.done), o.tag, Text(o.done), close);
    if o.below.Bottom? { assert "" + Text(o.below.done) == Text(o.below.done); }
    if o.below.Bottom? {
      var x := Text(o.below.done) + (o.tag + Text(o.done) + close) + "";
      assert "" + x == x;
    }
  }

  lemma CloseJoin(a: string, b: string, t: string, x: string, c: string)
    ensures a + (b + (t + x + c) + "") == a + b + t + x + c
  {
  }

  lemma ClosedLinks(e: Index, e': Index, o: Open, close: string)
    requires o.Level? && Parsed(e, o) && Ends(e, e', o, close)
    ensures OpenLinks(e', Closed(o, close), 0)
  {
    hide Spans, OpenSpans, Links, LinksTo, Text;
    OpenLinksFrame(e, e', o, 0);
    LinksToZero(e', o.done, o.id);
    NilLinksTo(e', Pos(o.below));
    FirstOrZero(o.done);
    AppendLinks(e', o.below.done, Pos(o.below), o.id, o.tag, o.done, close, Nil(""), 0);
    AppendIds(o.below.done, o.id, o.tag, o.done, close, Nil(""));
    FirstOrZero(Append(o.below.done, o.id, o.tag, o.done, close, Nil("")));
  }

  lemma FirstOrZero(k: Forest)
    ensures FirstOr(k, 0) == First(k)
  {
  }

  lemma NilLinksTo(e: Index, p: nat)
    ensures LinksTo(e, Nil(""), p, 0) && Links(e, Nil(""), p)
  {
  }

  /** Where the innermost list begins in the text. */
  function ListStart(o: Open): nat {
    if o.Bottom? then 0 else |OpenText(o.below)| + |o.tag|
  }

  lemma ListStartText(o: Open)
    ensures |OpenText(o)| == ListStart(o) + |Text(o.done)|
  {
  }

  lemma ListSpans(e: Index, o: Open)
    requires OpenSpans(e, o)
    ensures Spans(e, o.done, ListStart(o)) && (o.Level? ==> OpenSpans(e, o.below) && o.id < |e|)
    ensures o.Level? ==> e[o.id].start == |OpenText(o.below)| && e[o.id].startTagLen == |o.tag|
  {
  }

  lemma ClosedSpans(e: Index, e': Index, o: Open, close: string)
    requires o.Level? && Parsed(e, o) && Ends(e, e', o, close)
    ensures OpenSpans(e', Closed(o, close))
  {
    hide Links, LinksTo, OpenLinks;
    ClosedParts(o);
    ListSpans(e, o);
    ListSpans(e, o.below);
    SpansRange(e, o.done, ListStart(o));
    SpansRange(e, o.below.done, ListStart(o.below));
    SpansShift(e, e', o.done, ListStart(o), 0);
    SpansShift(e, e', o.below.done, ListStart(o.below), 0);
    ListStartText(o.below);
    EmptySpans(e', ListStart(o.below) + |Text(o.below.done)| + |o.tag| + |Text(o.done)| + |close|);
    AppendSpans(e', o.below.done, ListStart(o.below), o.id, o.tag, o.done, close, Nil(""));
    if o.below.Level? { BelowSpans(e, e', o); }
  }

  lemma BelowOutside(o: Open)
    requires o.Level? && o.below.Level? && OpenDistinct(o)
    ensures o.below.id != o.id && o.below.id !in Ids(o.done)
    ensures forall j :: j in OpenIds(o.below.below) ==> j != o.id && j !in Ids(o.done)
  {
    assert o.below.id in OpenIds(o.below);
    forall j | j in OpenIds(o.below.below) ensures j in OpenIds(o.below) {
    }
  }

  lemma BelowSpans(e: Index, e': Index, o: Open)
    requires o.Level? && o.below.Level? && OpenDistinct(o) && OpenSpans(e, o) && |e| <= |e'|
    requires forall j :: 0 <= j < |e| && j != o.id && j !in Ids(o.done) ==> SameSpan(e[j], e'[j], 0)
    ensures OpenSpans(e', o.below.below) && o.below.id < |e|
    ensures e'[o.below.id].start == |OpenText(o.below.below)| && e'[o.below.id].startTagLen == |o.below.tag|
  {
    hide Spans, OpenText, Text, Distinct, OpenSpans;
    ListSpans(e, o);
    ListSpans(e, o.below);
    BelowOutside(o);
    DoneInOpen(o.below.below);
    forall j | j in OpenIds(o.below.below) && j < |e| ensures SameSpan(e[j], e'[j], 0) {
    }
    OpenSpansFrame(e, e', o.below.below);
  }

  lemma ClosedParsed(e: Index, e': Index, o: Open, close: string)
    requires o.Level? && Parsed(e, o) && Ends(e, e', o, close)
    ensures Parsed(e', Closed(o, close)) && OpenText(Closed(o, close)) == OpenText(o) + close
    ensures OpenIds(Closed(o, close)) == OpenIds(o) && Names(Closed(o, close)) == Names(o.below) &&
      Pos(Closed(o, close)) == Pos(o.below)
  {
    hide Links, LinksTo, Spans, OpenSpans, OpenLinks, OpenText, OpenDistinct, OpenIds;
    ClosedLinks(e, e', o, close);
    ClosedSpans(e, e', o, close);
    ClosedText(o, close);
    AppendedDistinct(o, o.done, close, Nil(""));
  }

  /** Only the lists below the innermost one need to know their last element. */
  lemma ClosedHeads(e: Index, e': Index, o: Open, close: string)
    requires o.Level? && Parsed(e, o) && Ends(e, e', o, close) && Heads(e, o.below, o.id)
    ensures Heads(e', Closed(o, close), 0)
  {
    hide Links, LinksTo, Spans, OpenSpans, OpenText;
    AppendIds(o.below.done, o.id, o.tag, o.done, close, Nil(""));
    FirstOrZero(Append(o.below.done, o.id, o.tag, o.done, close, Nil("")));
    HeadsFrame(e, e', o.below, o.id);
  }

  lemma ClosedRings(e: Index, e': Index, o: Open, close: string)
    requires o.Level? && Parsed(e, o) && Ends(e, e', o, close) && OpenRings(e, o, 0)
    ensures OpenRings(e', Closed(o, close), 0)
  {
    hide Links, LinksTo, Spans, OpenSpans, OpenText, Ring, RingRest;
    OpenInRange(e, o, 0);
    forall j | j in OpenIds(o) ensures j < |e| && SameRing(e[j], e'[j]) {
    }
    OpenRingsFrame(e, e', o, 0);
    RingToZero(e', o.done);
    AppendRing(e', o.below.done, o.id, o.tag, o.done, close, "");
  }

  // -------------------------------------------------------- an element without an end tag

  /** Its children become its next siblings. */
  function Promoted(o: Open): Open
    requires o.Level?
  {
    o.below.(done := Append(o.below.done, o.id, o.tag, Nil(""), "", o.done))
  }

  /** The records of the element and of its children k afterwards. */
  ghost predicate Raised(e: Index, e': Index, i: nat, k: Forest, p: nat) {
    |e'| == |e| && i < |e| &&
    e'[i] == e[i].(next := FirstOr(k, e[i].next), child := 0, endTagLen := 0, length := e[i].startTagLen,
                   nonEnded := true, illData := e'[i].illData) &&
    (forall j :: 0 <= j < |e| && j != i ==>
       e'[j] == e[j].(parent := if j in Tops(k) then p else e[j].parent,
                      prev := if j in Tops(k) then e'[j].prev else e[j].prev, illData := e'[j].illData))
  }

  lemma {:induction false} RaisedLinks(e: Index, e': Index, i: nat, all: Forest, k: Forest, p: nat)
    requires Raised(e, e', i, all, p) && LinksTo(e, k, i, 0) && i !in Ids(k) && Tops(k) <= Tops(all)
    requires Distinct(k) && forall j :: j in Ids(k) && j !in Tops(k) ==> j !in Tops(all)
    ensures LinksTo(e', k, p, 0)
  {
    if k.Node? {
      BelowNotTop(k);
      LinksFrame(e, e', k.kids, k.id) by {
        LinksInRange(e, k.kids, k.id);
      }
      RaisedLinks(e, e', i, all, k.rest, p);
    }
  }

  lemma BelowNotTop(k: Forest)
    requires k.Node? && Distinct(k)
    ensures forall j :: j in Ids(k.kids) ==> j !in Tops(k)
    ensures forall j :: j in Ids(k.rest) && j !in Tops(k.rest) ==> j !in Tops(k)
  {
    TopsInIds(k.rest);
  }

  lemma PromotedText(o: Open)
    requires o.Level?
    ensures OpenText(Promoted(o)) == OpenText(o)
  {
    AppendText(o.below.done, o.id, o.tag, Nil(""), "", o.done);
    var a := if o.below.Bottom? then "" else OpenText(o.below.below) + o.below.tag;
    PromoteJoin(a, Text(o.below.done), o.tag, Text(o.done));
    if o.below.Bottom? {
      assert "" + Text(o.below.done) == Text(o.below.done);
      assert "" + (Text(o.below.done) + (o.tag + "" + "") + Text(o.done))
        == Text(o.below.done) + (o.tag + "" + "") + Text(o.done);
    }
  }

  lemma PromoteJoin(a: string, b: string, t: string, x: string)
    ensures a + (b + (t + "" + "") + x) == a + b + t + x
  {
    assert t + "" + "" == t;
  }

  lemma PromotedLinks(e: Index, e': Index, o: Open)
    requires o.Level? && Parsed(e, o) && Raised(e, e', o.id, o.done, Pos(o.below))
    ensures OpenLinks(e', Promoted(o), 0)
  {
    hide Spans, OpenSpans, Links, LinksTo, Text;
    ClosedParts(o);
    TopsInIds(o.done);
    OpenInRange(e, o, 0);
    RaisedLinks(e, e', o.id, o.done, o.done, Pos(o.below));
    PromotedBelow(e, e', o);
    NilLinksTo(e', o.id);
    AppendLinks(e', o.below.done, Pos(o.below), o.id, o.tag, Nil(""), "", o.done, 0);
    AppendIds(o.below.done, o.id, o.tag, Nil(""), "", o.done);
    FirstOrZero(Append(o.below.done, o.id, o.tag, Nil(""), "", o.done));
  }

  lemma PromotedBelow(e: Index, e': Index, o: Open)
    requires o.Level? && Parsed(e, o) && Raised(e, e', o.id, o.done, Pos(o.below))
    ensures OpenLinks(e', o.below, o.id)
  {
    hide Spans, OpenSpans, Links, LinksTo, Text;
    TopsInIds(o.done);
    OpenZero(o);
    OpenBelowFrame(e, e', o);
  }

  lemma PromotedSpans(e: Index, e': Index, o: Open)
    requires o.Level? && Parsed(e, o) && Raised(e, e', o.id, o.done, Pos(o.below))
    ensures OpenSpans(e', Promoted(o))
  {
    hide Links, LinksTo, OpenLinks;
    ClosedParts(o);
    ListSpans(e, o);
    ListSpans(e, o.below);
    SpansRange(e, o.done, ListStart(o));
    SpansRange(e, o.below.done, ListStart(o.below));
    SpansShift(e, e', o.done, ListStart(o), 0);
    SpansShift(e, e', o.below.done, ListStart(o.below), 0);
    ListStartText(o.below);
    EmptySpans(e', ListStart(o.below) + |Text(o.below.done)| + |o.tag|);
    AppendSpans(e', o.below.done, ListStart(o.below), o.id, o.tag, Nil(""), "", o.done);
    if o.below.Level? { BelowSpans(e, e', o); }
  }

  lemma PromotedParsed(e: Index, e': Index, o: Open)
    requires o.Level? && Parsed(e, o) && Raised(e, e', o.id, o.done, Pos(o.below))
    ensures Parsed(e', Promoted(o)) && OpenText(Promoted(o)) == OpenText(o)
    ensures OpenIds(Promoted(o)) == OpenIds(o) && Names(Promoted(o)) == Names(o.below) &&
      Pos(Promoted(o)) == Pos(o.below)
  {
    hide Links, LinksTo, Spans, OpenSpans, OpenLinks, OpenText, OpenDistinct, OpenIds;
    PromotedLinks(e, e', o);
    PromotedSpans(e, e', o);
    PromotedText(o);
    AppendedDistinct(o, Nil(""), "", o.done);
  }

  /** The lists further down still know their last element. */
  lemma PromotedHeads(e: Index, e': Index, o: Open)
    requires o.Level? && Parsed(e, o) && Raised(e, e', o.id, o.done, Pos(o.below)) && Heads(e, o.below, o.id)
    ensures o.below.Level? ==> Heads(e', o.below.below, o.below.id)
  {
    hide Links, LinksTo, Spans, OpenSpans, OpenText;
    if o.below.Level? {
      TopsInIds(o.done);
      forall j | (j in OpenIds(o.below.below) || j == o.below.id) && j < |e|
        ensures e'[j].prev == e[j].prev && e'[j].nonEnded == e[j].nonEnded
      {
        assert j in OpenIds(o.below);
      }
      HeadsFrame(e, e', o.below.below, o.below.id);
    }
  }
}
