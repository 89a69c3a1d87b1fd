/** When a text reads back. */
module ReadsBack {
  // Exactly then does parsing the text of a document find that document again, up to the numbers of
  // its records, when every gap is read as text.

  import opened ElemForest
  import opened Escape
  import opened Tags
  import opened Parsing
  import opened ParseSteps
  import opened Reading
  import opened NodesAlone
  import opened CleanText
  import opened Rereading
  import opened CleanNodes
  import E = EditFacts
  import T = TagNodes
  import A = Attribs
  import N = Nodes

  /** What the marks ms begin with is at i; the text ends there if there are none. */
  predicate MarkNext(s: string, i: nat, ms: seq<Mark>) {
    if ms == [] then i == |s| else ms[0].at == i
  }

  /** The first mark is not in front of what is read. */
  lemma {:induction false} MarksBehind(s: string, i: nat, l: int, r: int, names: seq<string>, starts: seq<nat>,
    free: nat)
    requires i <= |s| && |names| == |starts|
    ensures var ms := TextMarks(s, i, l, r, names, starts, free); ms != [] ==> i <= ms[0].at
    decreases |s| - i
  {
    hide N.Run, MatchDepth;
    N.RunProgress(s, i, i, N.Initial(l, r));
    var n := N.NodeAt(s, i, l, r);
    if n.kind != N.END_OF_DOCUMENT && n.kind != N.ELEMENT {
      MarksBehind(s, n.next, n.nameL, n.nameR, names, starts, free);
    }
  }

  /** If the next mark is at end, all up to there is read as text. */
  lemma {:induction false} GapBack(s: string, i: nat, end: nat, l: int, r: int, names: seq<string>, starts: seq<nat>,
    free: nat) returns (l': int, r': int)
    requires i <= end <= |s| && NulFree(s) && |names| == |starts|
    requires MarkNext(s, end, TextMarks(s, i, l, r, names, starts, free))
    ensures GapReads(s, i, end, names, false)
    ensures TextMarks(s, end, l', r', names, starts, free) == TextMarks(s, i, l, r, names, starts, free)
    decreases end - i
  {
    hide N.Run, MatchDepth;
    if i == end {
      l', r' := l, r;
    } else {
      N.RunProgress(s, i, i, N.Initial(l, r));
      NodeAlone(s, i, l, r);
      var n := N.NodeAt(s, i, l, r);
      MarksBehind(s, n.next, n.nameL, n.nameR, names, starts, free);
      l', r' := GapBack(s, n.next, end, n.nameL, n.nameR, names, starts, free);
    }
  }

  // ------------------------------------------------------------------------------- tags

  /** The mark of a start tag. */
  lemma StartMark(s: string, at: nat, l: int, r: int, names: seq<string>, starts: seq<nat>, free: nat, n: N.Node)
    requires at < n.next <= |s| && |names| == |starts| && n == N.NodeAt(s, at, l, r) && n.kind == N.ELEMENT
    ensures TextMarks(s, at, l, r, names, starts, free) == [Start(free, at, n.next - at)] +
      if n.empty then TextMarks(s, n.next, n.nameL, n.nameR, names, starts, free + 1)
      else TextMarks(s, n.next, n.nameL, n.nameR, names + [Slice(s, n.nameL, n.nameR)], starts + [at], free + 1)
  {
    hide N.NodeAt, N.Run;
  }

  /** The mark of an end tag that ends the innermost element. */
  lemma EndTagMark(s: string, at: nat, l: int, r: int, names: seq<string>, starts: seq<nat>, free: nat, n: N.Node)
    requires at < n.next <= |s| && |names| == |starts| && n == N.NodeAt(s, at, l, r) && n.kind == N.END_TAG
    requires names != [] && MatchDepth(names, Slice(s, n.nameL, n.nameR)) == |names|
    ensures TextMarks(s, at, l, r, names, starts, free) == [End(at, n.next - at, starts[|names| - 1])] +
      TextMarks(s, n.next, n.nameL, n.nameR, names[..|names| - 1], starts[..|names| - 1], free)
  {
    hide N.NodeAt, N.Run;
  }

  lemma StartBack(s: string, at: nat, l: int, r: int, t: StartTag, names: seq<string>, starts: seq<nat>, free: nat)
    requires TagOk(t) && TextAt(s, at, TagText(t)) && |names| == |starts|
    ensures TagText(t) != "" && at + |TagText(t)| <= |s|
    ensures var i := at + |TagText(t)|;
      TextMarks(s, at, l, r, names, starts, free) == [Start(free, at, |TagText(t)|)] +
        (if t.empty then TextMarks(s, i, at + 1, at + |t.name|, names, starts, free + 1)
         else TextMarks(s, i, at + 1, at + |t.name|, names + [t.name], starts + [at], free + 1))
  {
    hide TagText, TextMarks, TextAt, TagOk, Slice;
    TagNotEmpty(t);
    T.StartTagNode(s, at, l, r, t);
    T.InText(s, at, TagText(t));
    NameInTag(s, at, t);
    hide N.NodeAt;
    StartMark(s, at, l, r, names, starts, free, N.NodeAt(s, at, l, r));
  }

  lemma TagNotEmpty(t: StartTag)
    requires TagOk(t)
    ensures TagText(t) != ""
  {
    TagTextFacts(t);
  }

  /** The end tag of the innermost element. */
  lemma EndBack(s: string, at: nat, l: int, r: int, name: string, space: string, names: seq<string>, starts: seq<nat>,
    of: nat, free: nat)
    requires IsName(name) && IsSpace(space) && TextAt(s, at, EndTag(name, space)) && |names| == |starts|
    ensures EndTag(name, space) != "" && at + |EndTag(name, space)| <= |s|
    ensures var i := at + |EndTag(name, space)|;
      TextMarks(s, at, l, r, names + [name], starts + [of], free)
        == [End(at, |EndTag(name, space)|, of)] + TextMarks(s, i, at + 2, at + 1 + |name|, names, starts, free)
  {
    hide A.Matches, MatchDepth, EndTag, TextMarks, TextAt, IsName, IsSpace, Slice;
    T.EndTagParts(name, space);
    T.EndTagNode(s, at, l, r, name, space);
    T.InText(s, at, EndTag(name, space));
    NameInEnd(s, at, name, space);
    ItsOwnName(name);
    MatchDepthIs(names + [name], name, |names| + 1);
    assert (names + [name])[..|names|] == names && (starts + [of])[..|names|] == starts;
    hide N.NodeAt;
    EndTagMark(s, at, l, r, names + [name], starts + [of], free, N.NodeAt(s, at, l, r));
  }

  // --------------------------------------------------------------------------- a document

  /** The marks of the siblings k at i, and those of what follows. */
  function MarksAnd(k: Forest, i: nat, free: nat, tail: seq<Mark>): seq<Mark>
    decreases k, 1
  {
    if k.Nil? then tail
    else [Start(free, i + |k.gap|, |k.tag|)] + KidMarks(k, i + |k.gap|, free, tail)
  }

  /** The same behind the start tag of the first one, that stands at at. */
  function KidMarks(k: Forest, at: nat, free: nat, tail: seq<Mark>): seq<Mark>
    requires k.Node?
    decreases k, 0
  {
    MarksAnd(k.kids, at + |k.tag|, free + 1,
      EndMark(k.close, at + |k.tag| + |Text(k.kids)|, at) +
      MarksAnd(k.rest, at + Width(k), free + 1 + Count(k.kids), tail))
  }

  lemma {:induction false} MarksAndIs(k: Forest, i: nat, free: nat, tail: seq<Mark>)
    ensures MarksAnd(k, i, free, tail) == Marks(Renumbered(k, free), i) + tail
  {
    if k.Nil? {
      assert [] + tail == tail;
    } else {
      var at := i + |k.gap|;
      var x, y := at + |k.tag|, free + 1 + Count(k.kids);
      var e := EndMark(k.close, x + |Text(k.kids)|, at);
      SameText(k.kids, free + 1);
      MarksAndIs(k.rest, at + Width(k), y, tail);
      MarksAndIs(k.kids, x, free + 1, e + MarksAnd(k.rest, at + Width(k), y, tail));
      Regroup(Start(free, at, |k.tag|), Marks(Renumbered(k.kids, free + 1), x), e,
        Marks(Renumbered(k.rest, y), at + Width(k)), tail);
    }
  }

  lemma Regroup(m: Mark, a: seq<Mark>, b: seq<Mark>, c: seq<Mark>, d: seq<Mark>)
    ensures [m] + (a + (b + (c + d))) == [m] + a + b + c + d
  {
  }

  /** If the marks of the text are those of k, its gaps are read as text. */
  lemma {:induction false} ForestBack(s: string, i: nat, l: int, r: int, k: Forest, names: seq<string>,
    starts: seq<nat>, free: nat, tail: seq<Mark>) returns (l': int, r': int)
    requires NulFree(s) && TextAt(s, i, Text(k)) && WellTagged(k) && |names| == |starts| && i + |Text(k)| <= |s|
    requires TextMarks(s, i, l, r, names, starts, free) == MarksAnd(k, i, free, tail)
    requires MarkNext(s, i + |Text(k)|, tail)
    ensures GapsRead(s, i, k, names, false)
    ensures TextMarks(s, i + |Text(k)|, l', r', names, starts, free + Count(k)) == tail
    decreases k, 1
  {
    hide TextMarks, TextAt, GapReads, TagsMatch, TagName;
    l', r' := GapBack(s, i, i + |k.gap|, l, r, names, starts, free) by { if k.Node? { ForestPieces(s, i, k); } }
    if k.Node? {
      ForestPieces(s, i, k);
      l', r' := ElemBack(s, i + |k.gap|, l', r', k, names, starts, free, tail);
      l', r' := ForestBack(s, i + |k.gap| + Width(k), l', r', k.rest, names, starts, free + 1 + Count(k.kids), tail);
    }
  }

  lemma {:induction false} ElemBack(s: string, at: nat, l: int, r: int, k: Forest, names: seq<string>,
    starts: seq<nat>, free: nat, tail: seq<Mark>) returns (l': int, r': int)
    requires k.Node? && NulFree(s) && TextAt(s, at, k.tag + Text(k.kids) + k.close) && WellTagged(k)
    requires |names| == |starts| && at + Width(k) <= |s|
    requires TextMarks(s, at, l, r, names, starts, free) == [Start(free, at, |k.tag|)] + KidMarks(k, at, free, tail)
    ensures GapsRead(s, at + |k.tag|, k.kids, names + [TagName(k.tag)], false)
    ensures TextMarks(s, at + Width(k), l', r', names, starts, free + 1 + Count(k.kids))
         == MarksAnd(k.rest, at + Width(k), free + 1 + Count(k.kids), tail)
    decreases k, 0
  {
    hide TextMarks, TextAt, GapsRead, TagName, Text, MarksAnd, KidMarks, EndMark;
    var t, space :| TagsAre(t, space, k.tag, k.kids, k.close);
    ElemPieces(s, at, k.tag, Text(k.kids), k.close);
    StartBack(s, at, l, r, t, names, starts, free);
    var rest := MarksAnd(k.rest, at + Width(k), free + 1 + Count(k.kids), tail);
    var ms := KidMarks(k, at, free, tail);
    l', r' := at + 1, at + |t.name|;
    if t.empty {
      EmptyContent(k);
      NothingReads(s, at + |k.tag|, names + [TagName(k.tag)], false);
      NoKidMarks(k, at, free, tail);
      SameTail(Start(free, at, |k.tag|), TextMarks(s, at + |k.tag|, l', r', names, starts, free + 1), ms);
    } else {
      E.TagNameIs(t, s, at);
      var e := at + |k.tag| + |Text(k.kids)|;
      T.EndTagParts(t.name, space);
      KidMarksIs(k, at, free, tail);
      SameTail(Start(free, at, |k.tag|),
        TextMarks(s, at + |k.tag|, l', r', names + [t.name], starts + [at], free + 1), ms);
      l', r' := ForestBack(s, at + |k.tag|, l', r', k.kids, names + [t.name], starts + [at], free + 1,
        [End(e, |k.close|, at)] + rest);
      EndBack(s, e, l', r', t.name, space, names, starts, at, free + 1 + Count(k.kids));
      l', r' := e + 2, e + 1 + |t.name|;
      SameTail(End(e, |k.close|, at),
        TextMarks(s, at + Width(k), l', r', names, starts, free + 1 + Count(k.kids)), rest);
    }
  }

  lemma SameTail(m: Mark, a: seq<Mark>, b: seq<Mark>)
    requires [m] + a == [m] + b
    ensures a == b
  {
    assert a == ([m] + a)[1..] && b == ([m] + b)[1..];
  }

  lemma NoKidMarks(k: Forest, at: nat, free: nat, tail: seq<Mark>)
    requires k.Node? && k.kids == Nil("") && k.close == ""
    ensures KidMarks(k, at, free, tail) == MarksAnd(k.rest, at + Width(k), free + 1 + Count(k.kids), tail)
  {
    hide MarksAnd;
    var rest := MarksAnd(k.rest, at + Width(k), free + 1 + Count(k.kids), tail);
    assert [] + rest == rest;
    MarksAndNil(at + |k.tag|, free + 1, rest);
  }

  lemma MarksAndNil(i: nat, free: nat, tail: seq<Mark>)
    ensures MarksAnd(Nil(""), i, free, tail) == tail
  {
  }

  lemma KidMarksIs(k: Forest, at: nat, free: nat, tail: seq<Mark>)
    requires k.Node? && k.close != ""
    ensures var e := at + |k.tag| + |Text(k.kids)|;
      KidMarks(k, at, free, tail) == MarksAnd(k.kids, at + |k.tag|, free + 1,
        [End(e, |k.close|, at)] + MarksAnd(k.rest, at + Width(k), free + 1 + Count(k.kids), tail))
  {
    hide MarksAnd;
  }

  /** A text that parsing turns back into the document is one whose gaps are read as text. */
  lemma GapsMustRead(f: Forest)
    requires NulFree(Text(f)) && WellTagged(f) && Document(Text(f)) == Renumbered(f, 1)
    ensures GapsRead(Text(f), 0, f, [], false)
  {
    hide Document, TextMarks, Marks, GapsRead, Flat;
    var s := Text(f);
    DocumentMarks(s);
    MarksAndIs(f, 0, 1, []);
    assert Marks(Renumbered(f, 1), 0) + [] == Marks(Renumbered(f, 1), 0);
    WholeText(s);
    var l, r := ForestBack(s, 0, 0, -1, f, [], [], 1, []);
  }

  /** Parsing the text finds the document if and only if every gap is read as text where it stands. */
  lemma ReadsBackIff(f: Forest)
    requires NulFree(Text(f)) && WellTagged(f)
    ensures Document(Text(f)) == Renumbered(f, 1) <==> GapsRead(Text(f), 0, f, [], false)
  {
    hide Document, GapsRead;
    if GapsRead(Text(f), 0, f, [], false) { ReadAgain(f, false); }
    if Document(Text(f)) == Renumbered(f, 1) { GapsMustRead(f); }
  }

  // --------------------------------------------------------------------------- clean gaps

  lemma {:induction false} GapPlain(s: string, i: nat, end: nat, names: seq<string>, plain: bool)
    requires end <= |s| && NulFree(s) && GapReads(s, i, end, names, true)
    ensures GapReads(s, i, end, names, plain)
    decreases end - i
  {
    hide N.Run, MatchDepth;
    if i != end {
      N.RunProgress(s, i, i, N.Initial(0, -1));
      GapPlain(s, N.NodeAt(s, i, 0, -1).next, end, names, plain);
    }
  }

  lemma {:induction false} GapsPlain(s: string, i: nat, k: Forest, names: seq<string>, plain: bool)
    requires i + |Text(k)| <= |s| && NulFree(s) && GapsRead(s, i, k, names, true)
    ensures GapsRead(s, i, k, names, plain)
    decreases k
  {
    hide GapReads, TagName;
    GapPlain(s, i, i + |k.gap|, names, plain);
    if k.Node? {
      GapsPlain(s, i + |k.gap| + |k.tag|, k.kids, names + [TagName(k.tag)], plain);
      GapsPlain(s, i + |k.gap| + Width(k), k.rest, names, plain);
    }
  }

  /** The gap at the front of the text of f is read as text. */
  ghost predicate FrontReads(f: Forest, plain: bool)
    requires NulFree(Text(f))
  {
    GapInText(f);
    GapReads(Text(f), 0, |f.gap|, [], plain)
  }

  lemma GapInText(f: Forest)
    ensures |f.gap| <= |Text(f)| && Text(f)[..|f.gap|] == f.gap
  {
    if f.Node? {
      assert Text(f) == f.gap + (f.tag + Text(f.kids) + f.close + Text(f.rest)) by {
        Join5(f.gap, f.tag, Text(f.kids), f.close, Text(f.rest));
        assert f.gap + (f.tag + Text(f.kids) + f.close) + Text(f.rest)
          == f.gap + (f.tag + Text(f.kids) + f.close + Text(f.rest));
      }
    }
  }

  /** The gaps behind the front of the text are read as text if they are clean. */
  lemma FrontOfGaps(f: Forest, plain: bool)
    requires NulFree(Text(f)) && WellTagged(f) && CleanGaps(f)
    ensures GapsRead(Text(f), 0, f, [], plain) <==> FrontReads(f, plain)
  {
    hide Clean, TagsMatch, GapReads, Text, TextAt, TagName;
    var s := Text(f);
    GapInText(f);
    if f.Node? {
      WholeText(s);
      ForestPieces(s, 0, f);
      CleanKidsRead(s, |f.gap|, f, []);
      GapsPlain(s, |f.gap| + |f.tag|, f.kids, [] + [TagName(f.tag)], plain);
      CleanGapsRead(s, |f.gap| + Width(f), f.rest, []);
      GapsPlain(s, |f.gap| + Width(f), f.rest, [], plain);
    }
  }

  /** Of clean gaps only one at the front that begins with a nameless instruction may be read as something else. */
  lemma FrontDecides(f: Forest, plain: bool)
    requires NulFree(Text(f)) && WellTagged(f) && CleanGaps(f)
    ensures GapsRead(Text(f), 0, f, [], plain) <==> FrontReads(f, plain)
    ensures !BareFront(Text(f)) ==> FrontReads(f, plain)
  {
    hide GapsRead, CleanGaps, WellTagged, GapReads, Text, FrontReads;
    FrontOfGaps(f, plain);
    if !BareFront(Text(f)) {
      GapInText(f);
      WholeText(Text(f));
      CleanGapsRead(Text(f), 0, f, []);
      GapsPlain(Text(f), 0, f, [], plain);
    }
  }

  /** A gap that is read as text, but not plainly, holds an end tag that ends nothing or a bad node. */
  lemma {:induction false} NotPlain(s: string, i: nat, end: nat, l: int, r: int, names: seq<string>, roots: nat)
    requires i <= end <= |s| && NulFree(s) && GapReads(s, i, end, names, false) && !GapReads(s, i, end, names, true)
    ensures !WellFormedFrom(s, i, l, r, names, roots)
    decreases end - i
  {
    hide N.Run, MatchDepth, A.Matches, WellFormedFrom;
    N.RunProgress(s, i, i, N.Initial(0, -1));
    NodeAlone(s, i, l, r);
    RunKnown(s, i, i, N.Initial(0, -1));
    var n := N.NodeAt(s, i, l, r);
    CheckNode(s, i, l, r, names, roots, n);
    if OtherKind(n.kind) { NotPlain(s, n.next, end, n.nameL, n.nameR, names, roots); }
  }

  /**
    The text of a document with clean gaps reads back exactly if its front does; it is then well formed
    with one root and a plain front.
   */
  lemma ReadsFromFront(f: Forest)
    requires NulFree(Text(f)) && WellTagged(f) && CleanGaps(f)
    ensures Document(Text(f)) == Renumbered(f, 1) <==> FrontReads(f, false)
    ensures FrontReads(f, false) ==> (WellFormed(Text(f)) <==> TopCount(f) == 1 && FrontReads(f, true))
    ensures !BareFront(Text(f)) ==> FrontReads(f, false) && FrontReads(f, true)
  {
    hide Document, WellFormedFrom, CleanGaps, WellTagged, GapsRead, GapReads, Text, BareFront;
    FrontDecides(f, false);
    FrontDecides(f, true);
    ReadsBackIff(f);
    if FrontReads(f, true) {
      ReadAgain(f, true);
    } else if FrontReads(f, false) {
      GapInText(f);
      NotPlain(Text(f), 0, |f.gap|, 0, -1, [], 0);
    }
  }
}
