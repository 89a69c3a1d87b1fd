/**
  One node after the other: what parsing keeps from node to node, and the plain check of a text
  that parsing must agree with.
 */
module ParseSteps {
  import opened ElemForest
  import opened ForestEdit
  import opened Parsing
  import opened OpenElements
  import opened ParseRings
  import A = Attribs
  import N = Nodes

  /** The text of a token. */
  function Slice(s: string, l: int, r: int): string {
    if 0 <= l <= r + 1 <= |s| then s[l..r + 1] else ""
  }

  /**
    The text from i on is well formed after start tags with these names: every end tag matches the
    innermost open start tag, no node is bad, nothing stays open, and there is one top element.
   */
  predicate WellFormedFrom(s: string, i: nat, l: int, r: int, names: seq<string>, roots: nat)
    requires i <= |s|
    decreases |s| - i
  {
    var n := N.NodeAt(s, i, l, r);
    assert n.next <= |s| && (n.kind != N.END_OF_DOCUMENT ==> i < n.next) by { N.RunProgress(s, i, i, N.Initial(l, r)); }
    if n.kind == N.END_OF_DOCUMENT then names == [] && roots == 1
    else if n.kind == N.ELEMENT then
      var roots' := if names == [] then roots + 1 else roots;
      var names' := if n.empty then names else names + [Slice(s, n.nameL, n.nameR)];
      WellFormedFrom(s, n.next, n.nameL, n.nameR, names', roots')
    else if n.kind == N.END_TAG then
      names != [] && A.Matches(Slice(s, n.nameL, n.nameR), names[|names| - 1]) &&
      WellFormedFrom(s, n.next, n.nameL, n.nameR, names[..|names| - 1], roots)
    else n.kind != N.BAD_NODE && WellFormedFrom(s, n.next, n.nameL, n.nameR, names, roots)
  }

  predicate WellFormed(s: string) { WellFormedFrom(s, 0, 0, -1, [], 0) }

  function TopCount(k: Forest): nat { if k.Nil? then 0 else 1 + TopCount(k.rest) }

  /** How many top elements there are so far. */
  function Roots(o: Open): nat {
    if o.Bottom? then TopCount(o.done) else Roots(o.below) + if o.below.Bottom? then 1 else 0
  }

  lemma {:induction false} TopCountAppend(k: Forest, id: nat, tag: string, kids: Forest, close: string, g: string,
    s: string)
    ensures TopCount(Append(k, id, tag, kids, close, Nil(g))) == TopCount(k) + 1 &&
      TopCount(AddText(k, s)) == TopCount(k)
  {
    if k.Node? { TopCountAppend(k.rest, id, tag, kids, close, g, s); }
  }

  lemma RootsOf(o: Open, close: string, s: string)
    ensures Roots(MoreText(o, s)) == Roots(o)
    ensures o.Level? ==> Roots(Closed(o, close)) == Roots(o)
  {
    TopCountAppend(o.done, 0, "", Nil(""), "", "", s);
    if o.Level? { TopCountAppend(o.below.done, o.id, o.tag, o.done, close, "", s); }
  }

  // ------------------------------------------------------------------------ between nodes

  /** All records but the virtual parent's are in use. */
  ghost predicate AllUsed(e: Index, o: Open) {
    forall j: nat :: 0 < j < |e| ==> j in OpenIds(o)
  }

  ghost predicate NoneUnended(e: Index) {
    forall j :: 0 <= j < |e| ==> !e[j].nonEnded
  }

  /** The virtual parent is as cleared, but for its child link, length and flags. */
  ghost predicate VirtualRoot(p: ElemPos) {
    p.start == 0 && p.startTagLen == 0 && p.endTagLen == 0 && !p.deleted && !p.nonEnded
  }

  /** The invariant between two nodes of the text s, at next. */
  ghost predicate Between(e: Index, o: Open, s: string, next: nat) {
    Parsed(e, o) && Heads(e, o, 0) && Whole(e, o) && next <= |s| && OpenText(o) == s[..next]
  }

  /** What does not concern the order of the text. */
  ghost predicate Whole(e: Index, o: Open) {
    |e| > 0 && AllUsed(e, o) && VirtualRoot(e[0]) && Rung(e, o)
  }

  // ----------------------------------------------------------------------------- the steps

  lemma OtherNode(e: Index, o: Open, s: string, next: nat, next': nat)
    requires Between(e, o, s, next) && next <= next' <= |s|
    ensures Between(e, MoreText(o, s[next..next']), s, next') && Names(MoreText(o, s[next..next'])) == Names(o)
    ensures Roots(MoreText(o, s[next..next'])) == Roots(o) && Pos(MoreText(o, s[next..next'])) == Pos(o)
  {
    hide Parsed, Heads, Rung, OpenText, Roots, Names, MoreText;
    RungMore(e, o, s[next..next']);
    MoreTextParsed(e, o, s[next..next']);
    RootsOf(o, "", s[next..next']);
    assert s[..next] + s[next..next'] == s[..next'];
  }

  lemma StartNode(e: Index, e': Index, o: Open, s: string, next: nat, next': nat, id: nat, name: string)
    requires Between(e, o, s, next) && next <= next' <= |s| && LinkedLast(e, e', o, id, s[next..next']) &&
      !e'[id].nonEnded
    ensures Between(e', Started(o, id, s[next..next'], name), s, next')
    ensures Names(Started(o, id, s[next..next'], name)) == Names(o) + [name]
    ensures Roots(Started(o, id, s[next..next'], name)) == Roots(o) + if o.Bottom? then 1 else 0
  {
    hide Parsed, Heads, OpenText, Rung;
    var tag := s[next..next'];
    StartedParsed(e, e', o, id, tag, name);
    StartedHeads(e, e', o, id, tag, name);
    RungStarted(e, e', o, id, tag, name);
    StartedWhole(e, e', o, id, tag, name);
    assert s[..next] + tag == s[..next'];
  }

  lemma StartedWhole(e: Index, e': Index, o: Open, id: nat, tag: string, name: string)
    requires Whole(e, o) && LinkedLast(e, e', o, id, tag) && Rung(e', Started(o, id, tag, name))
    ensures Whole(e', Started(o, id, tag, name))
  {
    hide Rung, OpenText;
    StartedUsed(e, e', o, id, tag, name);
  }

  lemma StartedUsed(e: Index, e': Index, o: Open, id: nat, tag: string, name: string)
    requires |e| > 0 && AllUsed(e, o) && VirtualRoot(e[0]) && LinkedLast(e, e', o, id, tag)
    ensures AllUsed(e', Started(o, id, tag, name)) && VirtualRoot(e'[0])
  {
    hide OpenText;
    assert OpenIds(Started(o, id, tag, name)) == OpenIds(o) + {id};
    forall j: nat | 0 < j < |e'| ensures j in OpenIds(o) + {id} {
      assert j < |e| ==> j in OpenIds(o);
    }
  }

  lemma EndNode(e: Index, e': Index, o: Open, s: string, next: nat, next': nat)
    requires Parsed(e, o) && Whole(e, o) && next <= next' <= |s| && OpenText(o) == s[..next]
    requires o.Level? && Heads(e, o.below, o.id) && Ends(e, e', o, s[next..next'])
    ensures Between(e', Closed(o, s[next..next']), s, next')
    ensures Names(Closed(o, s[next..next'])) == Names(o.below) && Roots(Closed(o, s[next..next'])) == Roots(o)
    ensures Pos(Closed(o, s[next..next'])) == Pos(o.below)
  {
    hide Parsed, Heads, OpenText, Closed, Roots, Rung;
    var close := s[next..next'];
    ClosedParsed(e, e', o, close);
    ClosedHeads(e, e', o, close);
    RungClosed(e, e', o, close);
    RootsOf(o, close, "");
    LevelNotZero(e, o);
    ClosedWhole(e, e', o, close);
    assert s[..next] + close == s[..next'];
  }

  lemma ClosedWhole(e: Index, e': Index, o: Open, close: string)
    requires Whole(e, o) && o.Level? && Ends(e, e', o, close) && OpenIds(Closed(o, close)) == OpenIds(o) && o.id != 0
    requires Rung(e', Closed(o, close))
    ensures Whole(e', Closed(o, close))
  {
    hide Rung, Closed;
  }

  /** An element without end tag gives its children to its parent; only the list it is in may lose its head. */
  lemma UnendedNode(e: Index, e': Index, o: Open)
    requires Parsed(e, o) && Whole(e, o) && o.Level? && Heads(e, o.below, o.id)
    requires Raised(e, e', o.id, o.done, Pos(o.below))
    ensures Parsed(e', Promoted(o)) && Whole(e', Promoted(o)) && OpenText(Promoted(o)) == OpenText(o)
    ensures Names(Promoted(o)) == Names(o.below) && Pos(Promoted(o)) == Pos(o.below)
    ensures Promoted(o).Level? ==> Heads(e', Promoted(o).below, Promoted(o).id)
    ensures SomePromoted(e') <==> SomePromoted(e) || o.done.Node?
  {
    hide Parsed, Heads, OpenText, Rung, SomePromoted;
    PromotedParsed(e, e', o);
    PromotedHeads(e, e', o);
    RungRaised(e, e', o);
    RaisedPromoted(e, e', o);
    LevelNotZero(e, o);
  }

  lemma LevelNotZero(e: Index, o: Open)
    requires Parsed(e, o) && o.Level?
    ensures 0 < o.id < |e| && o.id != Pos(o.below)
  {
    ClosedParts(o);
  }

  // -------------------------------------------------------------------------- the result

  /** When the text is read and nothing is open, the index is that of a document. */
  lemma Finished(e: Index, o: Open)
    requires Parsed(e, o) && o.Bottom? && Whole(e, o)
    ensures Distinct(o.done) && Links(e, o.done, 0) && Spans(e, o.done, 0) && e[0].child == First(o.done)
    ensures Text(o.done) == OpenText(o)
    ensures Ring(e, o.done) <==> !SomePromoted(e)
  {
    LinksToZero(e, o.done, 0);
    FirstOrZero(o.done);
    assert OpenIds(o) == Ids(o.done);
    RungDone(e, o);
  }

  // ------------------------------------------------------------- changes that parsing ignores

  /** Only lengths, end tag lengths and flags are new, and those not of closed elements. */
  ghost predicate Marked(e: Index, e': Index, o: Open) {
    |e'| == |e| > 0 && e'[0].endTagLen == e[0].endTagLen &&
    (forall j :: 0 <= j < |e| ==>
       SameLinks(e[j], e'[j]) && SameRing(e[j], e'[j]) && SameStart(e[j], e'[j]) && e'[j].nonEnded == e[j].nonEnded) &&
    (forall j :: j in DoneIds(o) && j < |e| ==> SameSpan(e[j], e'[j], 0))
  }

  lemma MarkedKeeps(e: Index, e': Index, o: Open)
    requires Parsed(e, o) && Whole(e, o) && Marked(e, e', o)
    ensures Parsed(e', o) && Whole(e', o) && (SomePromoted(e') <==> SomePromoted(e))
    ensures Heads(e, o, 0) ==> Heads(e', o, 0)
  {
    hide OpenLinks, OpenSpans, Heads, Rung, OpenText, SomePromoted;
    RungMarked(e, e', o);
    OpenInRange(e, o, 0);
    OpenLinksFrame(e, e', o, 0);
    OpenSpansFrame(e, e', o);
    if Heads(e, o, 0) { HeadsFrame(e, e', o, 0); }
  }

  /** The open element at depth d, the virtual parent at depth 0. */
  function PosAt(o: Open, d: nat): nat {
    if o.Bottom? || |Names(o)| <= d then Pos(o) else PosAt(o.below, d)
  }

  lemma {:induction false} PosAtOpen(o: Open, d: nat)
    requires OpenDistinct(o) && 0 < d <= |Names(o)|
    ensures PosAt(o, d) in OpenIds(o) && PosAt(o, d) !in DoneIds(o) && PosAt(o, d) != 0
  {
    DoneInOpen(o.below);
    if d < |Names(o)| { PosAtOpen(o.below, d); }
  }

  lemma PosAtPromoted(o: Open, d: nat)
    requires o.Level? && d < |Names(o)|
    ensures PosAt(Promoted(o), d) == PosAt(o, d) && Names(Promoted(o)) == Names(o.below)
  {
  }

  lemma {:induction false} ParentAt(e: Index, o: Open, d: nat, after: nat)
    requires OpenLinks(e, o, after) && 0 < d <= |Names(o)|
    ensures PosAt(o, d) < |e| && e[PosAt(o, d)].parent == PosAt(o, d - 1)
  {
    if d < |Names(o)| { ParentAt(e, o.below, d, o.id); }
  }

  lemma {:induction false} NamesDepth(o: Open)
    ensures |Names(o)| == 0 <==> o.Bottom?
    ensures PosAt(o, |Names(o)|) == Pos(o)
  {
  }

  /** The end tag of the element at depth d has been seen: its length is known before it is closed. */
  lemma EndMarked(e: Index, e': Index, o: Open, d: nat, length: int, endTagLen: int)
    requires Parsed(e, o) && Whole(e, o) && Heads(e, o, 0) && 0 < d <= |Names(o)| && PosAt(o, d) < |e|
    requires e' == e[PosAt(o, d) := e[PosAt(o, d)].(length := length, endTagLen := endTagLen)]
    ensures Parsed(e', o) && Whole(e', o) && Heads(e', o, 0) && (SomePromoted(e') <==> SomePromoted(e))
  {
    hide OpenLinks, OpenSpans, Heads, OpenText, Whole, SomePromoted;
    PosAtOpen(o, d);
    MarkedKeeps(e, e', o);
  }

  /** The innermost element is the one whose end tag was seen: it ends there. */
  lemma EndsHere(e: Index, o: Open, s: string, next: nat, next': nat)
    requires Parsed(e, o) && o.Level? && next <= next' <= |s| && OpenText(o) == s[..next]
    requires e[o.id].length == next' - e[o.id].start && e[o.id].endTagLen == next' - next
    ensures Ends(e, e, o, s[next..next'])
  {
    ListSpans(e, o);
    assert |OpenText(o)| == |OpenText(o.below)| + |o.tag| + |Text(o.done)|;
  }

  /** What the check does at a node of each kind. */
  lemma CheckNode(s: string, i: nat, l: int, r: int, names: seq<string>, roots: nat, n: N.Node)
    requires i <= |s| && n == N.NodeAt(s, i, l, r) && n.kind != N.END_OF_DOCUMENT
    ensures n.next <= |s|
    ensures n.kind == N.ELEMENT ==>
      WellFormedFrom(s, i, l, r, names, roots) ==
        WellFormedFrom(s, n.next, n.nameL, n.nameR, if n.empty then names else names + [Slice(s, n.nameL, n.nameR)],
                       if names == [] then roots + 1 else roots)
    ensures n.kind == N.END_TAG ==>
      WellFormedFrom(s, i, l, r, names, roots) ==
        (names != [] && A.Matches(Slice(s, n.nameL, n.nameR), names[|names| - 1]) &&
         WellFormedFrom(s, n.next, n.nameL, n.nameR, names[..|names| - 1], roots))
    ensures n.kind == N.BAD_NODE ==> !WellFormedFrom(s, i, l, r, names, roots)
    ensures n.kind != N.ELEMENT && n.kind != N.END_TAG && n.kind != N.BAD_NODE ==>
      WellFormedFrom(s, i, l, r, names, roots) == WellFormedFrom(s, n.next, n.nameL, n.nameR, names, roots)
  {
    hide N.Run;
    N.RunProgress(s, i, i, N.Initial(l, r));
  }

  lemma CheckEnd(s: string, i: nat, l: int, r: int, names: seq<string>, roots: nat)
    requires i <= |s| && N.NodeAt(s, i, l, r).kind == N.END_OF_DOCUMENT
    ensures WellFormedFrom(s, i, l, r, names, roots) == (names == [] && roots == 1)
  {
    hide N.Run;
  }

  lemma TokenName(s: string, i: nat, l: int, r: int, n: N.Node)
    requires i <= |s| && n == N.NodeAt(s, i, l, r) && (n.kind == N.ELEMENT || n.kind == N.END_TAG)
    ensures 0 <= n.nameL <= n.nameR + 1 <= |s| && Slice(s, n.nameL, n.nameR) == s[n.nameL..n.nameR + 1]
  {
    hide N.Run;
    N.RunProgress(s, i, i, N.Initial(l, r));
    N.NameInside(s, i, i, N.Initial(l, r));
  }

  /** How the check goes on agrees with what is known of the text so far. */
  ghost predicate Checked(ill: bool, e: Index, o: Open, s: string, i: nat, l: int, r: int) {
    i <= |s| &&
    if ill then !WellFormed(s)
    else NoneUnended(e) && WellFormed(s) == WellFormedFrom(s, i, l, r, Names(o), Roots(o))
  }

  /** The state of the parser between two nodes: stack and positions are those of the open elements o. */
  ghost predicate Ready(e: Index, o: Open, s: string, i: nat, l: int, r: int, elemstack: seq<string>, iPos: nat,
    iPosRoot: nat) {
    Between(e, o, s, i) && elemstack == Names(o) && iPos == Pos(o) && e[0].child == iPosRoot &&
    Checked(e[0].illFormed, e, o, s, i, l, r)
  }

  lemma ReadyParts(e: Index, o: Open, s: string, i: nat, l: int, r: int, elemstack: seq<string>, iPos: nat,
    iPosRoot: nat)
    requires Ready(e, o, s, i, l, r, elemstack, iPos, iPosRoot)
    ensures Parsed(e, o) && Heads(e, o, 0) && Whole(e, o) && |e| > 0 && i <= |s| && OpenText(o) == s[..i] && iPos < |e|
    ensures o.Level? ==> Heads(e, o.below, o.id)
    ensures Between(e, o, s, i) && elemstack == Names(o) && iPos == Pos(o) && e[0].child == iPosRoot
    ensures Checked(e[0].illFormed, e, o, s, i, l, r)
  {
  }

  lemma ReadyFirst(s: string)
    ensures Ready([ClearedElemPos], Open.Bottom(Nil("")), s, 0, 0, -1, [], 0, 0)
  {
    var e, o := [ClearedElemPos], Open.Bottom(Nil(""));
    assert e[0] == ClearedElemPos;
    assert Parsed(e, o) && Whole(e, o);
  }

  lemma {:induction false} RootChild(e: Index, o: Open, after: nat)
    requires OpenLinks(e, o, after) && OpenDistinct(o)
    ensures e[0].child == 0 <==> o.Bottom? && o.done.Nil? && after == 0
  {
    DistinctNoZero(o.done);
    if o.Level? { RootChild(e, o.below, o.id); }
  }

  /** The check after a start tag, an empty tag, other nodes. */
  lemma ReadyOther(e: Index, o: Open, s: string, i: nat, l: int, r: int, elemstack: seq<string>, iPos: nat,
    iPosRoot: nat, n: N.Node)
    requires Ready(e, o, s, i, l, r, elemstack, iPos, iPosRoot) && n == N.NodeAt(s, i, l, r) && i <= n.next <= |s|
    requires n.kind != N.ELEMENT && n.kind != N.END_TAG && n.kind != N.BAD_NODE && n.kind != N.END_OF_DOCUMENT
    ensures Ready(e, MoreText(o, s[i..n.next]), s, n.next, n.nameL, n.nameR, elemstack, iPos, iPosRoot)
  {
    hide Between, N.Run, WellFormedFrom, WellFormed, MoreText, Names, Roots;
    CheckNode(s, i, l, r, Names(o), Roots(o), n);
    OtherNode(e, o, s, i, n.next);
  }

  /** A text that is not well formed stays so. */
  lemma ReadyIll(e: Index, o: Open, s: string, i: nat, next: nat, l: int, r: int, elemstack: seq<string>, iPos: nat,
    iPosRoot: nat)
    requires Between(e, o, s, i) && i <= next <= |s| && elemstack == Names(o) && iPos == Pos(o) &&
      e[0].child == iPosRoot
    requires e[0].illFormed && !WellFormed(s)
    ensures Ready(e, MoreText(o, s[i..next]), s, next, l, r, elemstack, iPos, iPosRoot)
  {
    hide Between, N.Run, WellFormedFrom, WellFormed, MoreText, Names, Roots;
    OtherNode(e, o, s, i, next);
  }

  lemma ReadyStarted(e: Index, e': Index, o: Open, s: string, i: nat, l: int, r: int, elemstack: seq<string>,
    iPos: nat, iPosRoot: nat,
                     n: N.Node, id: nat)
    requires Ready(e, o, s, i, l, r, elemstack, iPos, iPosRoot) && n == N.NodeAt(s, i, l, r) && n.kind == N.ELEMENT &&
      !n.empty
    requires i <= n.next <= |s| && LinkedLast(e, e', o, id, s[i..n.next]) && !e'[id].nonEnded
    ensures var name := Slice(s, n.nameL, n.nameR);
      Ready(e', Started(o, id, s[i..n.next], name), s, n.next, n.nameL, n.nameR, elemstack + [name], id,
            if iPosRoot == 0 then id else iPosRoot)
  {
    hide Between, N.Run, WellFormedFrom, WellFormed, Started, Names, Roots;
    CheckNode(s, i, l, r, Names(o), Roots(o), n);
    StartNode(e, e', o, s, i, n.next, id, Slice(s, n.nameL, n.nameR));
    StartedRoot(e, e', o, id, s[i..n.next], s, i);
    StartedPos(o, id, s[i..n.next], Slice(s, n.nameL, n.nameR));
    NamesDepth(o);
  }

  lemma StartedPos(o: Open, id: nat, tag: string, name: string)
    ensures Pos(Started(o, id, tag, name)) == id && Started(o, id, tag, name).Level? &&
      Started(o, id, tag, name).below == o
  {
  }

  lemma StartedRoot(e: Index, e': Index, o: Open, id: nat, tag: string, s: string, i: nat)
    requires Between(e, o, s, i) && LinkedLast(e, e', o, id, tag)
    ensures e'[0].child == (if e[0].child == 0 then id else e[0].child) && e'[0].illFormed == e[0].illFormed
    ensures NoneUnended(e) && !e'[id].nonEnded ==> NoneUnended(e')
  {
    hide OpenText, Spans, OpenSpans;
    RootChild(e, o, 0);
    OpenZero(o);
    if o.Level? { assert o.id in OpenIds(o); }
  }

  lemma HeadsBelow(e: Index, o: Open)
    requires o.Level? && Heads(e, o, 0)
    ensures Heads(e, o.below, o.id)
  {
  }

  lemma ReadyEmpty(e: Index, e1: Index, e2: Index, o: Open, s: string, i: nat, l: int, r: int, elemstack: seq<string>,
    iPos: nat, iPosRoot: nat,
                   n: N.Node, id: nat)
    requires Ready(e, o, s, i, l, r, elemstack, iPos, iPosRoot) && n == N.NodeAt(s, i, l, r) && n.kind == N.ELEMENT &&
      n.empty
    requires i <= n.next <= |s| && LinkedLast(e, e1, o, id, s[i..n.next]) && !e1[id].nonEnded
    requires e2 == e1[id := e1[id].(endTagLen := 0, length := n.next - i)]
    ensures Ready(e2, Closed(Started(o, id, s[i..n.next], Slice(s, n.nameL, n.nameR)), ""), s, n.next, n.nameL,
      n.nameR, elemstack, iPos,
            if iPosRoot == 0 then id else iPosRoot)
  {
    hide N.Run, WellFormedFrom, WellFormed, Closed, Names, Roots, Parsed, Whole, Heads, OpenText, LinkedLast;
    var name := Slice(s, n.nameL, n.nameR);
    var o1 := Started(o, id, s[i..n.next], name);
    CheckNode(s, i, l, r, Names(o), Roots(o), n);
    StartNode(e, e1, o, s, i, n.next, id, name);
    StartedRoot(e, e1, o, id, s[i..n.next], s, i);
    LevelNotZero(e1, o1);
    HeadsBelow(e1, o1);
    assert s[n.next..n.next] == "" && Text(o1.done) == "";
    EndNode(e1, e2, o1, s, n.next, n.next);
    NamesDepth(o);
  }

  /** After an end tag that matches the innermost element. */
  lemma ReadyEnded(e: Index, o: Open, s: string, i: nat, l: int, r: int, elemstack: seq<string>, iPosRoot: nat,
    n: N.Node)
    requires Parsed(e, o) && Whole(e, o) && o.Level? && Heads(e, o.below, o.id) && i <= n.next <= |s| &&
      OpenText(o) == s[..i]
    requires e[o.id].length == n.next - e[o.id].start && e[o.id].endTagLen == n.next - i && e[0].child == iPosRoot
    requires elemstack == Names(o) && n == N.NodeAt(s, i, l, r) && n.kind == N.END_TAG
    requires if e[0].illFormed then !WellFormed(s)
             else Checked(false, e, o, s, i, l, r) && A.Matches(Slice(s, n.nameL, n.nameR), elemstack[|elemstack| - 1])
    ensures Ready(e, Closed(o, s[i..n.next]), s, n.next, n.nameL, n.nameR, elemstack[..|elemstack| - 1], Pos(o.below),
      iPosRoot)
  {
    hide N.Run, WellFormedFrom, WellFormed, Closed, Roots, Parsed, Whole, Heads, OpenText, A.Matches;
    CheckNode(s, i, l, r, Names(o), Roots(o), n);
    EndsHere(e, o, s, i, n.next);
    EndNode(e, e, o, s, i, n.next);
  }

  /** The text is read and nothing is open. */
  lemma ReadyLast(e0: Index, e: Index, o0: Open, o: Open, s: string, i: nat, l: int, r: int, elemstack: seq<string>,
    iPos: nat, iPosRoot: nat)
    requires Ready(e0, o0, s, i, l, r, elemstack, iPos, iPosRoot) && N.NodeAt(s, i, l, r).kind == N.END_OF_DOCUMENT &&
      i == |s|
    requires |e| > 0 && e[0].illFormed == (e0[0].illFormed || elemstack != [])
    requires Parsed(e, o) && Whole(e, o) && Names(o) == [] && OpenText(o) == OpenText(o0)
    requires elemstack == [] ==> o == o0 && e == e0
    ensures o.Bottom? && OpenText(o) == s
    ensures e[0].illFormed ==> !WellFormed(s)
    ensures !e[0].illFormed ==> NoneUnended(e) && (WellFormed(s) <==> TopCount(o.done) == 1)
  {
    hide N.Run, WellFormedFrom, WellFormed, OpenText, Parsed, Whole, Heads;
    ReadyParts(e0, o0, s, i, l, r, elemstack, iPos, iPosRoot);
    assert s[..i] == s;
    NamesDepth(o);
    if !e0[0].illFormed { CheckEnd(s, i, l, r, Names(o0), Roots(o0)); }
  }
}
