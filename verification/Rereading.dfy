/** A text, read again. */
module Rereading {
  // Parsing the text of a document again finds the same document, up to the numbers of its records.

  import opened ElemForest
  import opened Escape
  import opened Tags
  import opened Parsing
  import opened OpenElements
  import opened ParseSteps
  import opened Reading
  import opened CleanText
  import opened NodesAlone
  import E = EditFacts
  import T = TagNodes
  import A = Attribs
  import N = Nodes

  /** No text between tags reads as a tag. */
  ghost predicate CleanGaps(f: Forest) {
    Clean(f.gap) && (f.Node? ==> CleanGaps(f.kids) && CleanGaps(f.rest))
  }

  function Count(f: Forest): nat { if f.Nil? then 0 else 1 + Count(f.kids) + Count(f.rest) }

  /** The same document, its records numbered from n on in the order of the text. */
  function Renumbered(f: Forest, n: nat): Forest {
    match f
    case Nil(g) => Nil(g)
    case Node(g, _, t, k, c, r) => Node(g, n, t, Renumbered(k, n + 1), c, Renumbered(r, n + 1 + Count(k)))
  }

  lemma {:induction false} SameText(f: Forest, n: nat)
    ensures Text(Renumbered(f, n)) == Text(f)
  {
    if f.Node? {
      SameText(f.kids, n + 1);
      SameText(f.rest, n + 1 + Count(f.kids));
    }
  }

  /** b behind a. */
  function Joined(a: Forest, b: Forest): Forest {
    if a.Nil? then b.(gap := a.gap + b.gap) else a.(rest := Joined(a.rest, b))
  }

  function With(o: Open, k: Forest): Open { o.(done := Joined(o.done, k)) }

  lemma {:induction false} JoinedNil(a: Forest, g: string)
    ensures Joined(a, Nil(g)) == AddText(a, g)
  {
    if a.Node? { JoinedNil(a.rest, g); }
  }

  lemma {:induction false} JoinedNode(a: Forest, g: string, id: nat, tag: string, kids: Forest, close: string,
    rest: Forest)
    ensures Joined(a, Node(g, id, tag, kids, close, rest))
         == Joined(Append(AddText(a, g), id, tag, kids, close, Nil("")), rest)
  {
    if a.Node? {
      JoinedNode(a.rest, g, id, tag, kids, close, rest);
    } else {
      assert "" + rest.gap == rest.gap;
    }
  }

  lemma JoinedToEmpty(k: Forest)
    ensures Joined(Nil(""), k) == k
  {
    assert "" + k.gap == k.gap;
  }

  // ------------------------------------------------------------------------- reading past a gap

  /** The node is read as text inside elements with these names; plainly so if it is not bad, nor an end tag. */
  predicate AsText(s: string, n: N.Node, names: seq<string>, plain: bool) {
    if plain then OtherKind(n.kind)
    else n.kind != N.ELEMENT && (n.kind == N.END_TAG ==> MatchDepth(names, Slice(s, n.nameL, n.nameR)) == 0)
  }

  /** From i to end the text is read as text. */
  predicate GapReads(s: string, i: nat, end: nat, names: seq<string>, plain: bool)
    requires end <= |s| && NulFree(s)
    decreases end - i
  {
    i == end ||
    (i < end &&
     var n := N.NodeAt(s, i, 0, -1);
     assert i < n.next by { N.RunProgress(s, i, i, N.Initial(0, -1)); }
     AsText(s, n, names, plain) && n.next <= end && GapReads(s, n.next, end, names, plain))
  }

  /** The gaps of k, whose text stands at i, are read as text. */
  ghost predicate GapsRead(s: string, i: nat, k: Forest, names: seq<string>, plain: bool)
    requires i + |Text(k)| <= |s| && NulFree(s)
    decreases k
  {
    GapReads(s, i, i + |k.gap|, names, plain) &&
    (k.Node? ==>
       GapsRead(s, i + |k.gap| + |k.tag|, k.kids, names + [TagName(k.tag)], plain) &&
       GapsRead(s, i + |k.gap| + Width(k), k.rest, names, plain))
  }

  /** What is between two nodes: where, the last name token, what is open, the next record. */
  datatype Cursor = Cursor(i: nat, l: int, r: int, o: Open, free: nat)

  /** Reading, and if all is plain checking, s from c on is the same as from c' on. */
  ghost predicate Leads(s: string, c: Cursor, c': Cursor, plain: bool) {
    c.i <= |s| && c'.i <= |s| &&
      ReadFrom(s, c.i, c.l, c.r, c.o, c.free) == ReadFrom(s, c'.i, c'.l, c'.r, c'.o, c'.free) &&
    (plain ==>
       WellFormedFrom(s, c.i, c.l, c.r, Names(c.o), Roots(c.o))
         == WellFormedFrom(s, c'.i, c'.l, c'.r, Names(c'.o), Roots(c'.o)))
  }

  /** One node. */
  lemma LeadsOn(s: string, c: Cursor, n: N.Node)
    requires c.i <= |s| && n == N.NodeAt(s, c.i, c.l, c.r) && n.kind != N.END_OF_DOCUMENT
    ensures n.start == c.i < n.next <= |s|
    ensures ReadFrom(s, c.i, c.l, c.r, c.o, c.free)
         == ReadFrom(s, n.next, n.nameL, n.nameR, ReadNode(c.o, c.free, s, n), Free(c.free, n))
  {
    hide N.Run, ReadNode;
    N.RunProgress(s, c.i, c.i, N.Initial(c.l, c.r));
  }

  lemma {:induction false} ReadGap(s: string, c: Cursor, end: nat, plain: bool) returns (c': Cursor)
    requires end <= |s| && NulFree(s) && c.i <= end && GapReads(s, c.i, end, Names(c.o), plain)
    ensures Leads(s, c, c', plain) && c'.i == end && c'.free == c.free && c'.o == MoreText(c.o, s[c.i..end])
    decreases end - c.i
  {
    hide N.Run, ReadFrom, WellFormedFrom, Names, Roots, MoreText, MatchDepth;
    if c.i == end {
      NoText(c.o);
      assert s[c.i..end] == "";
      c' := c;
    } else {
      var n := N.NodeAt(s, c.i, c.l, c.r);
      NodeAlone(s, c.i, c.l, c.r);
      N.RunProgress(s, c.i, c.i, N.Initial(c.l, c.r));
      LeadsOn(s, c, n);
      CheckNode(s, c.i, c.l, c.r, Names(c.o), Roots(c.o), n);
      TextIsRead(c.o, c.free, s, n, plain);
      var o1 := MoreText(c.o, s[c.i..n.next]);
      SameNames(c.o, s[c.i..n.next]);
      c' := ReadGap(s, Cursor(n.next, n.nameL, n.nameR, o1, c.free), end, plain);
      MoreAndMore(c.o, s[c.i..n.next], s[n.next..end]);
      assert s[c.i..n.next] + s[n.next..end] == s[c.i..end];
    }
  }

  lemma TextIsRead(o: Open, free: nat, s: string, n: N.Node, plain: bool)
    requires n.start <= n.next <= |s| && AsText(s, n, Names(o), plain)
    ensures ReadNode(o, free, s, n) == MoreText(o, s[n.start..n.next]) && Free(free, n) == free
  {
    hide MatchDepth, MoreText;
  }

  lemma SameNames(o: Open, s: string)
    ensures Names(MoreText(o, s)) == Names(o) && Roots(MoreText(o, s)) == Roots(o) && Pos(MoreText(o, s)) == Pos(o)
  {
    RootsOf(o, "", s);
  }

  lemma NoText(o: Open)
    ensures MoreText(o, "") == o
  {
    AddNothing(o.done);
  }

  lemma {:induction false} AddNothing(k: Forest)
    ensures AddText(k, "") == k
  {
    if k.Node? {
      AddNothing(k.rest);
    } else {
      assert k.gap + "" == k.gap;
    }
  }

  lemma MoreAndMore(o: Open, a: string, b: string)
    ensures MoreText(MoreText(o, a), b) == MoreText(o, a + b)
  {
    AddTwice(o.done, a, b);
  }

  lemma {:induction false} AddTwice(k: Forest, a: string, b: string)
    ensures AddText(AddText(k, a), b) == AddText(k, a + b)
  {
    if k.Node? {
      AddTwice(k.rest, a, b);
    } else {
      assert k.gap + a + b == k.gap + (a + b);
    }
  }

  // ----------------------------------------------------------------------------- reading tags

  /** A start tag. */
  lemma ReadStart(s: string, c: Cursor, t: StartTag) returns (c': Cursor)
    requires c.i <= |s| && TagOk(t) && TextAt(s, c.i, TagText(t))
    ensures c'.i == c.i + |TagText(t)| && c'.free == c.free + 1 && Leads(s, c, c', true)
    ensures var o1 := Started(c.o, c.free, TagText(t), t.name);
      c'.o == if t.empty then Closed(o1, "") else o1
  {
    hide N.Run, N.NodeAt, ReadFrom, WellFormedFrom, Names, Roots, TagText, Closed;
    T.StartTagNode(s, c.i, c.l, c.r, t);
    var n := N.NodeAt(s, c.i, c.l, c.r);
    LeadsOn(s, c, n);
    CheckNode(s, c.i, c.l, c.r, Names(c.o), Roots(c.o), n);
    NameInTag(s, c.i, t);
    var o1 := Started(c.o, c.free, TagText(t), t.name);
    StartedNames(c.o, c.free, TagText(t), t.name);
    c' := Cursor(n.next, n.nameL, n.nameR, if t.empty then Closed(o1, "") else o1, c.free + 1);
  }

  lemma NameInTag(s: string, i: nat, t: StartTag)
    requires TagOk(t) && TextAt(s, i, TagText(t))
    ensures Slice(s, i + 1, i + |t.name|) == t.name && s[i..i + |TagText(t)|] == TagText(t)
  {
    hide TagText, AttrsText;
    T.TagParts(t);
    TextSplit(s, i, "<" + t.name, AttrsText(t.attrs) + (t.space + if t.empty then "/>" else ">"));
    TextSplit(s, i, "<", t.name);
  }

  lemma StartedNames(o: Open, id: nat, tag: string, name: string)
    ensures var o1 := Started(o, id, tag, name);
      Names(o1) == Names(o) + [name] && Roots(o1) == (if Names(o) == [] then Roots(o) + 1 else Roots(o)) &&
      Names(Closed(o1, "")) == Names(o) && Roots(Closed(o1, "")) == Roots(o1)
  {
    RootsOf(Started(o, id, tag, name), "", "");
    NamesDepth(o);
  }

  /** The end tag of the innermost element. */
  lemma ReadEnd(s: string, c: Cursor, name: string, space: string) returns (c': Cursor)
    requires c.i <= |s| && IsName(name) && IsSpace(space) && TextAt(s, c.i, EndTag(name, space)) && c.o.Level? &&
      c.o.name == name
    ensures c'.i == c.i + |EndTag(name, space)| && c'.free == c.free && Leads(s, c, c', true)
    ensures c'.o == Closed(c.o, EndTag(name, space))
  {
    hide N.Run, N.NodeAt, ReadFrom, WellFormedFrom, Roots, Closed, A.Matches;
    T.EndTagNode(s, c.i, c.l, c.r, name, space);
    var n := N.NodeAt(s, c.i, c.l, c.r);
    LeadsOn(s, c, n);
    CheckNode(s, c.i, c.l, c.r, Names(c.o), Roots(c.o), n);
    NameInEnd(s, c.i, name, space);
    ItsOwnName(name);
    RootsOf(c.o, EndTag(name, space), "");
    ClosedNames(c.o, EndTag(name, space));
    c' := Cursor(n.next, n.nameL, n.nameR, Closed(c.o, EndTag(name, space)), c.free);
  }

  lemma NameInEnd(s: string, i: nat, name: string, space: string)
    requires TextAt(s, i, EndTag(name, space))
    ensures Slice(s, i + 2, i + 1 + |name|) == name && s[i..i + |EndTag(name, space)|] == EndTag(name, space)
  {
    T.EndTagParts(name, space);
    TextSplit(s, i, "</", name + (space + ">"));
    TextSplit(s, i + 2, name, space + ">");
  }

  lemma ItsOwnName(name: string)
    ensures A.Matches(name, name)
  {
    assert name[..|name|] == name;
  }

  // -------------------------------------------------------------------- reading a document

  lemma LeadsThrough(s: string, a: Cursor, b: Cursor, c: Cursor, plain: bool)
    requires Leads(s, a, b, plain) && Leads(s, b, c, plain)
    ensures Leads(s, a, c, plain)
  {
  }

  lemma LeadsAnyway(s: string, a: Cursor, b: Cursor, plain: bool)
    requires Leads(s, a, b, true)
    ensures Leads(s, a, b, plain)
  {
  }

  lemma {:induction false} ReadForest(s: string, c: Cursor, k: Forest, plain: bool) returns (c': Cursor)
    requires c.i <= |s| && NulFree(s) && TextAt(s, c.i, Text(k)) && WellTagged(k)
    requires c.i + |Text(k)| <= |s| && GapsRead(s, c.i, k, Names(c.o), plain)
    ensures Leads(s, c, c', plain) && c'.i == c.i + |Text(k)| && c'.free == c.free + Count(k)
    ensures c'.o == With(c.o, Renumbered(k, c.free))
    decreases k, 1
  {
    hide Leads, With, TextAt, TagsMatch, GapReads, Names, TagName;
    if k.Nil? {
      c' := ReadGap(s, c, c.i + |k.gap|, plain);
      GapIs(s, c.i, k.gap);
      JoinedNil(c.o.done, k.gap);
      WithIs(c.o, Nil(k.gap));
    } else {
      ForestPieces(s, c.i, k);
      var c1 := ReadGap(s, c, c.i + |k.gap|, plain);
      GapIs(s, c.i, k.gap);
      SameNames(c.o, k.gap);
      var c2 := ReadElem(s, c1, k, plain);
      FirstReadNames(c1.o, k, c1.free);
      c' := ReadForest(s, c2, k.rest, plain);
      LeadsThrough(s, c, c1, c2, plain);
      LeadsThrough(s, c, c2, c', plain);
      ElemJoined(c.o, k, c.free);
    }
  }

  lemma FirstReadNames(o: Open, k: Forest, free: nat)
    requires k.Node?
    ensures Names(FirstRead(o, k, free)) == Names(o)
  {
  }

  lemma WithIs(o: Open, k: Forest)
    ensures With(o, k) == o.(done := Joined(o.done, k))
  {
  }

  lemma GapIs(s: string, i: nat, g: string)
    requires TextAt(s, i, g)
    ensures i + |g| <= |s| && s[i..i + |g|] == g
  {
  }

  /** Where the parts of the first element are. */
  lemma ForestPieces(s: string, i: nat, k: Forest)
    requires k.Node? && TextAt(s, i, Text(k)) && WellTagged(k)
    ensures var at := i + |k.gap|;
      TextAt(s, i, k.gap) && at <= |s| && TextAt(s, at, k.tag + Text(k.kids) + k.close) &&
      TextAt(s, at + Width(k), Text(k.rest)) && at + Width(k) <= |s| && at + Width(k) + |Text(k.rest)| == i + |Text(k)|
  {
    hide Text, TextAt;
    var m := k.tag + Text(k.kids) + k.close;
    FirstElem(k);
    TextSplit(s, i, k.gap, m + Text(k.rest));
    TextSplit(s, i + |k.gap|, m, Text(k.rest));
    T.InText(s, i + |k.gap|, m);
  }

  lemma FirstElem(k: Forest)
    requires k.Node? && WellTagged(k)
    ensures Text(k) == k.gap + ((k.tag + Text(k.kids) + k.close) + Text(k.rest))
    ensures (k.tag + Text(k.kids) + k.close) != "" && (k.tag + Text(k.kids) + k.close)[0] == '<'
  {
    var t, space :| TagsAre(t, space, k.tag, k.kids, k.close);
    TagTextFacts(t);
    assert k.gap + k.tag + Text(k.kids) + k.close + Text(k.rest)
      == k.gap + ((k.tag + Text(k.kids) + k.close) + Text(k.rest));
  }

  /** The first element of k, from its start tag on. */
  function FirstRead(o: Open, k: Forest, free: nat): Open
    requires k.Node?
  {
    o.(done := Append(o.done, free, k.tag, Renumbered(k.kids, free + 1), k.close, Nil("")))
  }

  lemma ElemJoined(o: Open, k: Forest, free: nat)
    requires k.Node?
    ensures With(FirstRead(MoreText(o, k.gap), k, free), Renumbered(k.rest, free + 1 + Count(k.kids)))
      == With(o, Renumbered(k, free))
  {
    JoinedNode(o.done, k.gap, free, k.tag, Renumbered(k.kids, free + 1), k.close,
      Renumbered(k.rest, free + 1 + Count(k.kids)));
  }

  lemma {:induction false} ReadElem(s: string, c: Cursor, k: Forest, plain: bool) returns (c': Cursor)
    requires k.Node? && c.i <= |s| && NulFree(s) && TextAt(s, c.i, k.tag + Text(k.kids) + k.close) && WellTagged(k)
    requires c.i + |k.tag| + |Text(k.kids)| <= |s|
    requires GapsRead(s, c.i + |k.tag|, k.kids, Names(c.o) + [TagName(k.tag)], plain)
    ensures Leads(s, c, c', plain) && c'.i == c.i + Width(k) && c'.free == c.free + 1 + Count(k.kids)
    ensures c'.o == FirstRead(c.o, k, c.free)
    decreases k, 0
  {
    hide Leads, With, TextAt, FirstRead, Text, GapsRead, Names, TagName;
    var t, space :| TagsAre(t, space, k.tag, k.kids, k.close);
    ElemPieces(s, c.i, k.tag, Text(k.kids), k.close);
    var c1 := ReadStart(s, c, t);
    LeadsAnyway(s, c, c1, plain);
    if t.empty {
      EmptyContent(k);
      EmptyRead(c.o, k, c.free, t.name);
      c' := c1;
    } else {
      E.TagNameIs(t, s, c.i);
      StartedNames(c.o, c.free, k.tag, t.name);
      var c2 := ReadForest(s, c1, k.kids, plain);
      LevelWith(c1.o, Renumbered(k.kids, c1.free));
      c' := ReadEnd(s, c2, t.name, space);
      LeadsAnyway(s, c2, c', plain);
      LeadsThrough(s, c, c1, c2, plain);
      LeadsThrough(s, c, c2, c', plain);
      ElemRead(c.o, k, c.free, t.name);
    }
  }

  lemma ElemPieces(s: string, i: nat, t: string, x: string, c: string)
    requires TextAt(s, i, t + x + c)
    ensures TextAt(s, i, t) && TextAt(s, i + |t|, x) && TextAt(s, i + |t| + |x|, c) && i + |t| + |x| + |c| <= |s|
  {
    TextSplit(s, i, t + x, c);
    TextSplit(s, i, t, x);
  }

  lemma EmptyContent(k: Forest)
    requires k.Node? && k.kids == Nil("") && k.close == ""
    ensures Width(k) == |k.tag| && Count(k.kids) == 0 && forall n: nat :: Renumbered(k.kids, n) == Nil("")
  {
  }

  lemma LevelWith(o: Open, k: Forest)
    ensures o.Level? ==> With(o, k).Level? && With(o, k).name == o.name
  {
  }

  lemma EmptyRead(o: Open, k: Forest, free: nat, name: string)
    requires k.Node? && k.kids == Nil("") && k.close == ""
    ensures Closed(Started(o, free, k.tag, name), "") == FirstRead(o, k, free)
  {
  }

  lemma ElemRead(o: Open, k: Forest, free: nat, name: string)
    requires k.Node?
    ensures With(Started(o, free, k.tag, name), Renumbered(k.kids, free + 1)).Level?
    ensures Closed(With(Started(o, free, k.tag, name), Renumbered(k.kids, free + 1)), k.close) == FirstRead(o, k, free)
  {
    JoinedToEmpty(Renumbered(k.kids, free + 1));
  }

  // ------------------------------------------------------------------------- reading it again

  /** A text whose gaps are read as text stands for its document; if all is plain, it is well formed with one root. */
  lemma ReadAgain(f: Forest, plain: bool)
    requires NulFree(Text(f)) && WellTagged(f) && GapsRead(Text(f), 0, f, [], plain)
    ensures Document(Text(f)) == Renumbered(f, 1)
    ensures plain ==> (WellFormed(Text(f)) <==> TopCount(f) == 1)
  {
    hide ReadFrom, WellFormedFrom, WellTagged, GapsRead, With, Text, Names, Roots;
    var s := Text(f);
    var c := Cursor(0, 0, -1, Bottom(Nil("")), 1);
    WholeText(s);
    EmptyStack();
    var c' := ReadForest(s, c, f, plain);
    JoinedToEmpty(Renumbered(f, 1));
    WithIs(c.o, Renumbered(f, 1));
    AtEnd(s, c', Renumbered(f, 1));
    SameTops(f, 1);
  }

  // --------------------------------------------------------------------------- clean gaps

  /** What follows is a tag, or nothing. */
  predicate TagNext(s: string, i: nat) { i == |s| || (i < |s| && s[i] == '<') }

  /**
    Clean text in front of a tag, or at the end, is read as text; at the front it must not begin with
    a nameless instruction.
   */
  lemma {:induction false} CleanReads(g: string, s: string, i: nat, names: seq<string>)
    requires Clean(g) && NulFree(s) && TextAt(s, i, g) && TagNext(s, i + |g|) && (i == 0 ==> !BareFront(g))
    ensures i + |g| <= |s| && GapReads(s, i, i + |g|, names, true)
    decreases |g|
  {
    hide N.NodeAt, N.Run, Section;
    if g != "" {
      var n := N.NodeAt(s, i, 0, -1);
      var m := CleanNode(g, s, i, 0, -1);
      N.RunProgress(s, i, i, N.Initial(0, -1));
      TextSplit(s, i, g[..m], g[m..]) by { assert g == g[..m] + g[m..]; }
      CleanReads(g[m..], s, i + m, names);
    }
  }

  lemma {:induction false} CleanGapsRead(s: string, i: nat, k: Forest, names: seq<string>)
    requires NulFree(s) && TextAt(s, i, Text(k)) && TagNext(s, i + |Text(k)|) && WellTagged(k) && CleanGaps(k)
    requires i == 0 ==> !BareFront(k.gap)
    ensures i + |Text(k)| <= |s| && GapsRead(s, i, k, names, true)
    decreases k, 1
  {
    hide Clean, TextAt, GapReads, TagsMatch, BareFront;
    if k.Nil? {
      CleanReads(k.gap, s, i, names);
    } else {
      ForestPieces(s, i, k);
      ElemNext(s, i + |k.gap|, k);
      CleanReads(k.gap, s, i, names);
      CleanKidsRead(s, i + |k.gap|, k, names);
      CleanGapsRead(s, i + |k.gap| + Width(k), k.rest, names);
    }
  }

  lemma {:induction false} CleanKidsRead(s: string, at: nat, k: Forest, names: seq<string>)
    requires k.Node? && NulFree(s) && TextAt(s, at, k.tag + Text(k.kids) + k.close) && WellTagged(k) && CleanGaps(k)
    ensures k.tag != "" && at + |k.tag| + |Text(k.kids)| <= |s|
    ensures GapsRead(s, at + |k.tag|, k.kids, names + [TagName(k.tag)], true)
    decreases k, 0
  {
    hide Clean, TextAt, GapReads, TagsMatch, BareFront, Text, GapsRead, TagName;
    ElemPieces(s, at, k.tag, Text(k.kids), k.close);
    KidsTagNext(s, at + |k.tag| + |Text(k.kids)|, k);
    if k.kids == Nil("") && k.close == "" {
      NothingReads(s, at + |k.tag|, names + [TagName(k.tag)], true);
    } else {
      CleanGapsRead(s, at + |k.tag|, k.kids, names + [TagName(k.tag)]);
    }
  }

  lemma ElemNext(s: string, at: nat, k: Forest)
    requires k.Node? && TextAt(s, at, k.tag + Text(k.kids) + k.close) && WellTagged(k)
    ensures TagNext(s, at) && Width(k) > 0
  {
    FirstElem(k);
    CharsAt(s, at, k.tag + Text(k.kids) + k.close, 0);
  }

  lemma NothingReads(s: string, i: nat, names: seq<string>, plain: bool)
    requires i <= |s| && NulFree(s)
    ensures GapsRead(s, i, Nil(""), names, plain)
  {
  }

  /** Behind the content of an element is its end tag. */
  lemma KidsTagNext(s: string, i: nat, k: Forest)
    requires k.Node? && WellTagged(k) && TextAt(s, i, k.close)
    ensures k.tag != "" && ((k.kids == Nil("") && k.close == "") || TagNext(s, i))
  {
    var t, space :| TagsAre(t, space, k.tag, k.kids, k.close);
    TagTextFacts(t);
    if !t.empty { CharsAt(s, i, k.close, 0); }
  }

  lemma WholeText(s: string)
    ensures TextAt(s, 0, s)
  {
    assert s[0..|s|] == s;
  }

  lemma EmptyStack()
    ensures Names(Bottom(Nil(""))) == [] && Roots(Bottom(Nil(""))) == 0
  {
  }

  lemma AtEnd(s: string, c: Cursor, f: Forest)
    requires c.i == |s| && c.o == Bottom(f)
    ensures ReadFrom(s, c.i, c.l, c.r, c.o, c.free) == f
    ensures WellFormedFrom(s, c.i, c.l, c.r, Names(c.o), Roots(c.o)) <==> TopCount(f) == 1
  {
  }

  lemma {:induction false} SameTops(f: Forest, n: nat)
    ensures TopCount(Renumbered(f, n)) == TopCount(f)
  {
    if f.Node? { SameTops(f.rest, n + 1 + Count(f.kids)); }
  }
}
