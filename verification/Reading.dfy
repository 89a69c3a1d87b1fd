/** The document of a text. */
module Reading {
  // Which of its nodes are elements, and which end tag ends which of them.

  import opened ElemForest
  import opened Escape
  import opened Parsing
  import opened OpenElements
  import opened ParseSteps
  import A = Attribs
  import N = Nodes

  /** The depth of the innermost open element that an end tag with this name ends; 0 if there is none. */
  function MatchDepth(names: seq<string>, name: string): (d: nat)
    ensures d <= |names| && (d != 0 ==> A.Matches(name, names[d - 1]))
    ensures forall k :: d <= k < |names| ==> !A.Matches(name, names[k])
  {
    if names == [] || A.Matches(name, names[|names| - 1]) then |names| else MatchDepth(names[..|names| - 1], name)
  }

  lemma MatchDepthIs(names: seq<string>, name: string, d: nat)
    requires d <= |names| && (d != 0 ==> A.Matches(name, names[d - 1]))
    requires forall k :: d <= k < |names| ==> !A.Matches(name, names[k])
    ensures d == MatchDepth(names, name)
  {
  }

  lemma PromotedNames(o: Open)
    requires o.Level?
    ensures Names(Promoted(o)) == Names(o.below) && |Names(o)| == |Names(o.below)| + 1
  {
  }

  /** The elements deeper than d have no end tag. */
  function UnwoundTo(o: Open, d: nat): Open
    decreases |Names(o)|
  {
    if |Names(o)| <= d then o else PromotedNames(o); UnwoundTo(Promoted(o), d)
  }

  /** A node of the text; free is the record for the next element. */
  function ReadNode(o: Open, free: nat, s: string, n: N.Node): (o': Open)
    requires n.start <= n.next <= |s|
  {
    var text := s[n.start..n.next];
    if n.kind == N.ELEMENT then
      var o1 := Started(o, free, text, Slice(s, n.nameL, n.nameR));
      if n.empty then Closed(o1, "") else o1
    else if n.kind == N.END_TAG then
      var d := MatchDepth(Names(o), Slice(s, n.nameL, n.nameR));
      if d == 0 then MoreText(o, text)
      else UnwoundDepth(o, d); Closed(UnwoundTo(o, d), text)
    else MoreText(o, text)
  }

  lemma {:induction false} UnwoundDepth(o: Open, d: nat)
    requires d <= |Names(o)|
    ensures Names(UnwoundTo(o, d)) == Names(o)[..d] && (d != 0 ==> UnwoundTo(o, d).Level?)
    decreases |Names(o)|
  {
    if d < |Names(o)| { UnwoundDepth(Promoted(o), d); }
  }

  function Free(free: nat, n: N.Node): nat { if n.kind == N.ELEMENT then free + 1 else free }

  /** The rest of the text, from i on. */
  function ReadFrom(s: string, i: nat, l: int, r: int, o: Open, free: nat): Forest
    requires i <= |s|
    decreases |s| - i
  {
    var n := N.NodeAt(s, i, l, r);
    N.RunProgress(s, i, i, N.Initial(l, r));
    if n.kind == N.END_OF_DOCUMENT then UnwoundTo(o, 0).done
    else ReadFrom(s, n.next, n.nameL, n.nameR, ReadNode(o, free, s, n), Free(free, n))
  }

  function Document(s: string): Forest { ReadFrom(s, 0, 0, -1, Bottom(Nil("")), 1) }

  /** Parsing has come to i, with the elements o open. */
  ghost predicate ReadTo(s: string, i: nat, l: int, r: int, o: Open, free: nat) {
    i <= |s| && Document(s) == ReadFrom(s, i, l, r, o, free)
  }

  lemma ReadOn(s: string, i: nat, l: int, r: int, o: Open, free: nat, n: N.Node)
    requires ReadTo(s, i, l, r, o, free) && n == N.NodeAt(s, i, l, r)
    ensures n.start == i <= n.next <= |s|
    ensures n.kind != N.END_OF_DOCUMENT ==> ReadTo(s, n.next, n.nameL, n.nameR, ReadNode(o, free, s, n), Free(free, n))
    ensures n.kind == N.END_OF_DOCUMENT ==> Document(s) == UnwoundTo(o, 0).done
  {
    hide N.Run, ReadNode, UnwoundTo, Document;
    N.RunProgress(s, i, i, N.Initial(l, r));
  }

  lemma ReadFirst(s: string)
    ensures ReadTo(s, 0, 0, -1, Bottom(Nil("")), 1)
  {
    hide ReadFrom;
  }

  lemma OtherIsRead(o: Open, free: nat, s: string, n: N.Node)
    requires n.start <= n.next <= |s| && n.kind != N.ELEMENT && n.kind != N.END_TAG
    ensures ReadNode(o, free, s, n) == MoreText(o, s[n.start..n.next]) && Free(free, n) == free
  {
  }

  // ------------------------------------------------------- where the tags of a document are

  /** A start tag with the record of its element; an end tag with the start of the element that it ends. */
  datatype Mark = Start(id: nat, at: nat, len: nat) | End(at: nat, len: nat, of: nat)

  function EndMark(close: string, at: nat, of: nat): seq<Mark> {
    if close == "" then [] else [End(at, |close|, of)]
  }

  /** The tags of f in the order of the text, if that begins at off. */
  function Marks(f: Forest, off: nat): seq<Mark> {
    match f
    case Nil(_) => []
    case Node(g, i, t, k, c, r) =>
      [Start(i, off + |g|, |t|)] + Marks(k, off + |g| + |t|) + EndMark(c, off + |g| + |t| + |Text(k)|, off + |g|) +
      Marks(r, off + |g| + Width(f))
  }

  /** What the text itself says: starts and names are those of the open elements. */
  function TextMarks(s: string, i: nat, l: int, r: int, names: seq<string>, starts: seq<nat>, free: nat): seq<Mark>
    requires i <= |s| && |names| == |starts|
    decreases |s| - i
  {
    var n := N.NodeAt(s, i, l, r);
    N.RunProgress(s, i, i, N.Initial(l, r));
    if n.kind == N.END_OF_DOCUMENT then []
    else if n.kind == N.ELEMENT then
      [Start(free, i, n.next - i)] +
      if n.empty then TextMarks(s, n.next, n.nameL, n.nameR, names, starts, free + 1)
      else TextMarks(s, n.next, n.nameL, n.nameR, names + [Slice(s, n.nameL, n.nameR)], starts + [i], free + 1)
    else
      var d := if n.kind == N.END_TAG then MatchDepth(names, Slice(s, n.nameL, n.nameR)) else 0;
      if d == 0 then TextMarks(s, n.next, n.nameL, n.nameR, names, starts, free)
      else
        [End(i, n.next - i, starts[d - 1])] +
        TextMarks(s, n.next, n.nameL, n.nameR, names[..d - 1], starts[..d - 1], free)
  }

  /** An element without end tag has no content. */
  predicate Flat(f: Forest) {
    f.Node? ==> (f.close == "" ==> f.kids == Nil("")) && f.tag != "" && Flat(f.kids) && Flat(f.rest)
  }

  function OpenMarks(o: Open): seq<Mark> {
    match o
    case Bottom(k) => Marks(k, 0)
    case Level(b, i, t, _, k) => OpenMarks(b) + [Start(i, |OpenText(b)|, |t|)] + Marks(k, |OpenText(b)| + |t|)
  }

  function OpenStarts(o: Open): (p: seq<nat>)
    ensures |p| == |Names(o)|
  {
    if o.Bottom? then [] else OpenStarts(o.below) + [|OpenText(o.below)|]
  }

  predicate OpenFlat(o: Open) {
    Flat(o.done) && (o.Level? ==> o.tag != "" && OpenFlat(o.below))
  }

  /** The marks of an element at at and of what follows it. */
  function ElemMarks(id: nat, at: nat, tag: string, kids: Forest, close: string, rest: Forest): seq<Mark> {
    [Start(id, at, |tag|)] + Marks(kids, at + |tag|) + EndMark(close, at + |tag| + |Text(kids)|, at) +
    Marks(rest, at + |tag| + |Text(kids)| + |close|)
  }

  lemma {:induction false} AppendMarks(k: Forest, off: nat, id: nat, tag: string, kids: Forest, close: string,
    rest: Forest)
    ensures Marks(Append(k, id, tag, kids, close, rest), off)
      == Marks(k, off) + ElemMarks(id, off + |Text(k)|, tag, kids, close, rest)
  {
    hide EndMark, ElemMarks;
    if k.Node? {
      var off' := off + |k.gap| + Width(k);
      AppendMarks(k.rest, off', id, tag, kids, close, rest);
      assert off' + |Text(k.rest)| == off + |Text(k)|;
      MarksOf(k, off);
      MarksOf(Append(k, id, tag, kids, close, rest), off);
      JoinMarks(FirstMarks(k, off), Marks(k.rest, off'), ElemMarks(id, off + |Text(k)|, tag, kids, close, rest));
    } else {
      OneElemMarks(k.gap, off, id, tag, kids, close, rest);
    }
  }

  lemma OneElemMarks(g: string, off: nat, id: nat, tag: string, kids: Forest, close: string, rest: Forest)
    ensures Marks(Node(g, id, tag, kids, close, rest), off) == ElemMarks(id, off + |g|, tag, kids, close, rest)
  {
    var at := off + |g|;
    assert off + |g| + Width(Node(g, id, tag, kids, close, rest)) == at + |tag| + |Text(kids)| + |close|;
  }

  /** The marks of the first element of k. */
  function FirstMarks(k: Forest, off: nat): seq<Mark>
    requires k.Node?
  {
    [Start(k.id, off + |k.gap|, |k.tag|)] + Marks(k.kids, off + |k.gap| + |k.tag|) +
    EndMark(k.close, off + |k.gap| + |k.tag| + |Text(k.kids)|, off + |k.gap|)
  }

  lemma MarksOf(k: Forest, off: nat)
    requires k.Node?
    ensures Marks(k, off) == FirstMarks(k, off) + Marks(k.rest, off + |k.gap| + Width(k))
  {
  }

  lemma JoinMarks(a: seq<Mark>, b: seq<Mark>, c: seq<Mark>)
    ensures a + (b + c) == a + b + c
  {
  }

  lemma {:induction false} AppendFlat(k: Forest, id: nat, tag: string, kids: Forest, close: string, rest: Forest)
    requires Flat(k) && Flat(kids) && Flat(rest) && tag != "" && (close == "" ==> kids == Nil(""))
    ensures Flat(Append(k, id, tag, kids, close, rest))
  {
    if k.Node? { AppendFlat(k.rest, id, tag, kids, close, rest); }
  }

  lemma {:induction false} AddTextMarks(k: Forest, s: string, off: nat)
    ensures Marks(AddText(k, s), off) == Marks(k, off) && (Flat(k) ==> Flat(AddText(k, s)))
  {
    if k.Node? { AddTextMarks(k.rest, s, off + |k.gap| + Width(k)); }
  }

  /** The marks in front of the innermost list. */
  function Outside(o: Open): seq<Mark> {
    if o.Bottom? then [] else OpenMarks(o.below) + [Start(o.id, |OpenText(o.below)|, |o.tag|)]
  }

  lemma ListMarks(o: Open, k: Forest)
    ensures OpenMarks(o.(done := k)) == Outside(o) + Marks(k, ListStart(o))
  {
  }

  lemma ClosedMarks(o: Open, close: string)
    requires o.Level? && (close == "" ==> o.done == Nil(""))
    ensures OpenMarks(Closed(o, close)) == OpenMarks(o) + EndMark(close, |OpenText(o)|, |OpenText(o.below)|)
    ensures OpenStarts(Closed(o, close)) == OpenStarts(o.below) && (OpenFlat(o) ==> OpenFlat(Closed(o, close)))
  {
    hide OpenMarks, Marks, EndMark, OpenText;
    BackMarks(o, o.done, close, Nil(""));
    ListMarks(o, o.done);
    NoMarks(ListStart(o) + |Text(o.done)| + |close|);
    ListStartText(o);
    StartsOf(o.below, Append(o.below.done, o.id, o.tag, o.done, close, Nil("")));
    if OpenFlat(o) {
      assert OpenFlat(o.below);
      AppendFlat(o.below.done, o.id, o.tag, o.done, close, Nil(""));
    }
    assert |OpenText(o.below)| + |o.tag| == ListStart(o);
  }

  lemma NoMarks(off: nat)
    ensures Marks(Nil(""), off) == []
  {
  }

  lemma StartsOf(o: Open, k: Forest)
    ensures OpenStarts(o.(done := k)) == OpenStarts(o)
  {
  }

  /** The innermost element put back into the list it is in. */
  lemma BackMarks(o: Open, kids: Forest, close: string, rest: Forest)
    requires o.Level?
    ensures var at := |OpenText(o.below)|;
      OpenMarks(o.below.(done := Append(o.below.done, o.id, o.tag, kids, close, rest))) ==
        Outside(o) + (Marks(kids, at + |o.tag|) + EndMark(close, at + |o.tag| + |Text(kids)|, at) +
        Marks(rest, at + |o.tag| + |Text(kids)| + |close|))
  {
    hide OpenMarks, Marks, EndMark, OpenText;
    AppendMarks(o.below.done, ListStart(o.below), o.id, o.tag, kids, close, rest);
    ListStartText(o.below);
    ListMarks(o.below, Append(o.below.done, o.id, o.tag, kids, close, rest));
    ListMarks(o.below, o.below.done);
    assert o.below.(done := o.below.done) == o.below;
    var at := |OpenText(o.below)|;
    RegroupMarks(Outside(o.below), Marks(o.below.done, ListStart(o.below)), [Start(o.id, at, |o.tag|)],
      Marks(kids, at + |o.tag|), EndMark(close, at + |o.tag| + |Text(kids)|, at),
      Marks(rest, at + |o.tag| + |Text(kids)| + |close|));
  }

  lemma RegroupMarks(a: seq<Mark>, b: seq<Mark>, c: seq<Mark>, d: seq<Mark>, x: seq<Mark>, y: seq<Mark>)
    ensures a + (b + (c + d + x + y)) == a + b + c + (d + x + y)
  {
  }

  lemma PromotedMarks(o: Open)
    requires o.Level?
    ensures OpenMarks(Promoted(o)) == OpenMarks(o) && OpenStarts(Promoted(o)) == OpenStarts(o.below)
    ensures OpenFlat(o) ==> OpenFlat(Promoted(o))
  {
    hide OpenMarks, Marks, OpenText;
    BackMarks(o, Nil(""), "", o.done);
    ListMarks(o, o.done);
    NoMarks(|OpenText(o.below)| + |o.tag|);
    StartsOf(o.below, Append(o.below.done, o.id, o.tag, Nil(""), "", o.done));
    if OpenFlat(o) {
      assert OpenFlat(o.below);
      AppendFlat(o.below.done, o.id, o.tag, Nil(""), "", o.done);
    }
    assert |OpenText(o.below)| + |o.tag| == ListStart(o);
  }

  lemma {:induction false} UnwoundMarks(o: Open, d: nat)
    requires d <= |Names(o)|
    ensures var u := UnwoundTo(o, d);
      OpenMarks(u) == OpenMarks(o) && OpenText(u) == OpenText(o) && OpenStarts(u) == OpenStarts(o)[..d] &&
      Names(u) == Names(o)[..d] && (d != 0 ==> u.Level?) && (OpenFlat(o) ==> OpenFlat(u))
    decreases |Names(o)|
  {
    if d < |Names(o)| {
      PromotedMarks(o);
      PromotedText(o);
      UnwoundMarks(Promoted(o), d);
    }
  }

  /** A node that is read adds the marks that the text has there. */
  lemma NodeMarks(o: Open, free: nat, s: string, n: N.Node)
    requires n.start < n.next <= |s| && OpenText(o) == s[..n.start] && OpenFlat(o)
    ensures var o' := ReadNode(o, free, s, n);
      OpenText(o') == s[..n.next] && OpenFlat(o') &&
      if n.kind == N.ELEMENT then
        OpenMarks(o') == OpenMarks(o) + [Start(free, n.start, n.next - n.start)] &&
        Names(o') == (if n.empty then Names(o) else Names(o) + [Slice(s, n.nameL, n.nameR)]) &&
        OpenStarts(o') == (if n.empty then OpenStarts(o) else OpenStarts(o) + [n.start])
      else
        var d := if n.kind == N.END_TAG then MatchDepth(Names(o), Slice(s, n.nameL, n.nameR)) else 0;
        if d == 0 then OpenMarks(o') == OpenMarks(o) && Names(o') == Names(o) && OpenStarts(o') == OpenStarts(o)
        else OpenMarks(o') == OpenMarks(o) + [End(n.start, n.next - n.start, OpenStarts(o)[d - 1])] &&
             Names(o') == Names(o)[..d - 1] && OpenStarts(o') == OpenStarts(o)[..d - 1]
  {
    hide Flat, UnwoundTo, OpenText, MatchDepth, Marks;
    var text := s[n.start..n.next];
    assert s[..n.start] + text == s[..n.next];
    if n.kind == N.ELEMENT {
      StartMarks(o, free, text, Slice(s, n.nameL, n.nameR));
    } else {
      var d := if n.kind == N.END_TAG then MatchDepth(Names(o), Slice(s, n.nameL, n.nameR)) else 0;
      if d == 0 {
        OtherMarks(o, text);
      } else {
        EndMarks(o, d, text);
      }
    }
  }

  lemma StartMarks(o: Open, free: nat, tag: string, name: string)
    requires tag != "" && OpenFlat(o)
    ensures var o1 := Started(o, free, tag, name); var o2 := Closed(o1, "");
      OpenText(o1) == OpenText(o2) == OpenText(o) + tag && OpenFlat(o1) && OpenFlat(o2) &&
      OpenMarks(o1) == OpenMarks(o2) == OpenMarks(o) + [Start(free, |OpenText(o)|, |tag|)] &&
      Names(o1) == Names(o) + [name] && OpenStarts(o1) == OpenStarts(o) + [|OpenText(o)|] && Names(o2) == Names(o) &&
        OpenStarts(o2) == OpenStarts(o)
  {
    var o1 := Started(o, free, tag, name);
    hide OpenMarks, OpenFlat, OpenText, Closed;
    StartedIs(o, free, tag, name);
    ClosedMarks(o1, "");
    ClosedText(o1, "");
    ClosedNames(o1, "");
  }

  lemma StartedIs(o: Open, free: nat, tag: string, name: string)
    requires tag != "" && OpenFlat(o)
    ensures var o1 := Started(o, free, tag, name);
      OpenText(o1) == OpenText(o) + tag && OpenFlat(o1) &&
        OpenMarks(o1) == OpenMarks(o) + [Start(free, |OpenText(o)|, |tag|)]
  {
    assert OpenText(o) + tag + "" == OpenText(o) + tag;
  }

  lemma ClosedNames(o: Open, close: string)
    requires o.Level?
    ensures Names(Closed(o, close)) == Names(o.below)
  {
  }

  lemma OtherMarks(o: Open, s: string)
    requires OpenFlat(o)
    ensures var o' := MoreText(o, s);
      OpenText(o') == OpenText(o) + s && OpenFlat(o') && OpenMarks(o') == OpenMarks(o) && Names(o') == Names(o) &&
        OpenStarts(o') == OpenStarts(o)
  {
    hide OpenMarks, Marks, Flat, OpenText, Text;
    AddTextMarks(o.done, s, ListStart(o));
    ListMarks(o, AddText(o.done, s));
    ListMarks(o, o.done);
    MoreOpenText(o, s);
  }

  lemma MoreOpenText(o: Open, s: string)
    ensures OpenText(MoreText(o, s)) == OpenText(o) + s && Names(MoreText(o, s)) == Names(o) &&
      OpenStarts(MoreText(o, s)) == OpenStarts(o)
  {
    hide Marks, Flat;
    AddTextFacts([], o.done, s, 0, 0, 0);
    if o.Level? { Appended4(OpenText(o.below) + o.tag, Text(o.done), s); }
  }

  lemma EndMarks(o: Open, d: nat, close: string)
    requires 0 < d <= |Names(o)| && close != "" && OpenFlat(o)
    ensures UnwoundTo(o, d).Level?
    ensures var o' := Closed(UnwoundTo(o, d), close);
      OpenText(o') == OpenText(o) + close && OpenFlat(o') &&
        OpenMarks(o') == OpenMarks(o) + [End(|OpenText(o)|, |close|, OpenStarts(o)[d - 1])] &&
      Names(o') == Names(o)[..d - 1] && OpenStarts(o') == OpenStarts(o)[..d - 1]
  {
    hide OpenMarks, OpenText, OpenFlat, Closed, UnwoundTo;
    UnwoundMarks(o, d);
    var u := UnwoundTo(o, d);
    ClosedMarks(u, close);
    ClosedText(u, close);
    ClosedNames(u, close);
  }

  /** The same for the rest of the text. */
  lemma StepMarks(s: string, i: nat, l: int, r: int, o: Open, free: nat, n: N.Node) returns (added: seq<Mark>)
    requires i <= |s| && OpenText(o) == s[..i] && OpenFlat(o) && n == N.NodeAt(s, i, l, r) &&
      n.kind != N.END_OF_DOCUMENT
    ensures i == n.start < n.next <= |s|
    ensures var o' := ReadNode(o, free, s, n);
      OpenText(o') == s[..n.next] && OpenFlat(o') && OpenMarks(o') == OpenMarks(o) + added &&
      TextMarks(s, i, l, r, Names(o), OpenStarts(o), free)
        == added + TextMarks(s, n.next, n.nameL, n.nameR, Names(o'), OpenStarts(o'), Free(free, n))
  {
    hide N.Run, ReadNode, OpenMarks, OpenFlat, OpenText, MatchDepth, Names, OpenStarts;
    N.RunProgress(s, i, i, N.Initial(l, r));
    NodeMarks(o, free, s, n);
    if n.kind == N.ELEMENT {
      added := [Start(free, i, n.next - i)];
    } else {
      var d := if n.kind == N.END_TAG then MatchDepth(Names(o), Slice(s, n.nameL, n.nameR)) else 0;
      added := if d == 0 then [] else [End(i, n.next - i, OpenStarts(o)[d - 1])];
    }
  }

  /** A text read to its end is all there, and its tags are where the text has them. */
  lemma {:induction false} ReadMarks(s: string, i: nat, l: int, r: int, o: Open, free: nat)
    requires NulFree(s) && i <= |s| && OpenText(o) == s[..i] && OpenFlat(o)
    ensures var f := ReadFrom(s, i, l, r, o, free);
      Text(f) == s && Flat(f) && Marks(f, 0) == OpenMarks(o) + TextMarks(s, i, l, r, Names(o), OpenStarts(o), free)
    decreases |s| - i
  {
    hide N.Run, ReadNode, OpenMarks, OpenFlat, OpenText, TextMarks, Names, OpenStarts, Text, Flat, Marks;
    N.RunProgress(s, i, i, N.Initial(l, r));
    var n := N.NodeAt(s, i, l, r);
    if n.kind == N.END_OF_DOCUMENT {
      assert s[..i] == s;
      UnwoundMarks(o, 0);
      UnwoundBottom(o);
      NoTextMarks(s, i, l, r, Names(o), OpenStarts(o), free);
      assert OpenMarks(o) + [] == OpenMarks(o);
    } else {
      var added := StepMarks(s, i, l, r, o, free, n);
      ReadMarks(s, n.next, n.nameL, n.nameR, ReadNode(o, free, s, n), Free(free, n));
      var o' := ReadNode(o, free, s, n);
      JoinMarks(OpenMarks(o), added, TextMarks(s, n.next, n.nameL, n.nameR, Names(o'), OpenStarts(o'), Free(free, n)));
    }
  }

  lemma NoTextMarks(s: string, i: nat, l: int, r: int, names: seq<string>, starts: seq<nat>, free: nat)
    requires i <= |s| && |names| == |starts| && N.NodeAt(s, i, l, r).kind == N.END_OF_DOCUMENT
    ensures TextMarks(s, i, l, r, names, starts, free) == []
  {
  }

  lemma UnwoundBottom(o: Open)
    ensures var u := UnwoundTo(o, 0);
      u.Bottom? && OpenText(u) == Text(u.done) && OpenMarks(u) == Marks(u.done, 0) && (OpenFlat(u) ==> Flat(u.done))
  {
    UnwoundDepth(o, 0);
  }

  /**
    The document of a text has that text, and its elements are exactly the element nodes of the
    text, numbered in order; each end tag that ends one is the first that its name lets end it.
   */
  lemma DocumentMarks(s: string)
    requires NulFree(s)
    ensures Text(Document(s)) == s && Flat(Document(s)) && Marks(Document(s), 0) == TextMarks(s, 0, 0, -1, [], [], 1)
  {
    hide ReadFrom, TextMarks;
    assert s[..0] == "";
    ReadMarks(s, 0, 0, -1, Bottom(Nil("")), 1);
  }
}
