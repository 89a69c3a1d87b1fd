/** Which texts break the sibling rings. */
module Promotion {
  // Told from the text alone: those with an element without end tag that an element starts in before
  // the end tag, or the end of the text, that closes over it.

  import opened ElemForest
  import opened Escape
  import opened OpenElements
  import opened ParseSteps
  import opened Reading
  import A = Attribs
  import N = Nodes
  import T = TagNodes
  import Tags

  /** Of n open elements those deeper than d have no end tag: has one a child? Only the innermost may have none. */
  predicate Loses(n: nat, d: nat, child: bool) { n > d + 1 || (n == d + 1 && child) }

  /** The text from i on, with these elements open; child says if the innermost list has an element yet. */
  predicate PromotesFrom(s: string, i: nat, l: int, r: int, names: seq<string>, child: bool)
    requires i <= |s|
    decreases |s| - i
  {
    var n := N.NodeAt(s, i, l, r);
    N.RunProgress(s, i, i, N.Initial(l, r));
    if n.kind == N.END_OF_DOCUMENT then Loses(|names|, 0, child)
    else if n.kind == N.ELEMENT then
      var names' := if n.empty then names else names + [Slice(s, n.nameL, n.nameR)];
      PromotesFrom(s, n.next, n.nameL, n.nameR, names', n.empty)
    else
      var d := if n.kind == N.END_TAG then MatchDepth(names, Slice(s, n.nameL, n.nameR)) else 0;
      if d == 0 then PromotesFrom(s, n.next, n.nameL, n.nameR, names, child)
      else Loses(|names|, d, child) || PromotesFrom(s, n.next, n.nameL, n.nameR, names[..d - 1], true)
  }

  predicate Promotes(s: string) { PromotesFrom(s, 0, 0, -1, [], false) }

  /** Does the node make children of an element without end tag its siblings? */
  predicate NodePromotes(o: Open, s: string, n: N.Node) {
    if n.kind == N.END_OF_DOCUMENT then Loses(|Names(o)|, 0, o.done.Node?)
    else if n.kind == N.END_TAG then
      var d := MatchDepth(Names(o), Slice(s, n.nameL, n.nameR));
      d != 0 && Loses(|Names(o)|, d, o.done.Node?)
    else false
  }

  /** The check has come to i, with the elements o open; some tells if children have been promoted. */
  ghost predicate PromotesTo(s: string, i: nat, l: int, r: int, o: Open, some: bool) {
    i <= |s| && (Promotes(s) <==> some || PromotesFrom(s, i, l, r, Names(o), o.done.Node?))
  }

  lemma PromotesFirst(s: string)
    ensures PromotesTo(s, 0, 0, -1, Bottom(Nil("")), false)
  {
  }

  lemma PromotesOn(s: string, i: nat, l: int, r: int, o: Open, free: nat, n: N.Node, some: bool)
    requires PromotesTo(s, i, l, r, o, some) && n == N.NodeAt(s, i, l, r)
    ensures n.start == i <= n.next <= |s|
    ensures n.kind == N.END_OF_DOCUMENT ==> (Promotes(s) <==> some || NodePromotes(o, s, n))
    ensures n.kind != N.END_OF_DOCUMENT ==>
      PromotesTo(s, n.next, n.nameL, n.nameR, ReadNode(o, free, s, n), some || NodePromotes(o, s, n))
  {
    hide N.Run, ReadNode, Promotes, MatchDepth;
    N.RunProgress(s, i, i, N.Initial(l, r));
    if n.kind != N.END_OF_DOCUMENT { NodeChild(o, free, s, n); }
  }

  /** What a node does to the names and to the first flag of the innermost list. */
  lemma NodeChild(o: Open, free: nat, s: string, n: N.Node)
    requires n.start <= n.next <= |s|
    ensures var o' := ReadNode(o, free, s, n);
      if n.kind == N.ELEMENT then
        Names(o') == (if n.empty then Names(o) else Names(o) + [Slice(s, n.nameL, n.nameR)]) && o'.done.Node? == n.empty
      else
        var d := if n.kind == N.END_TAG then MatchDepth(Names(o), Slice(s, n.nameL, n.nameR)) else 0;
        if d == 0 then Names(o') == Names(o) && o'.done.Node? == o.done.Node?
        else Names(o') == Names(o)[..d - 1] && o'.done.Node?
  {
    hide MatchDepth, UnwoundTo;
    var d := if n.kind == N.END_TAG then MatchDepth(Names(o), Slice(s, n.nameL, n.nameR)) else 0;
    if d != 0 {
      UnwoundDepth(o, d);
      ClosedNames(UnwoundTo(o, d), s[n.start..n.next]);
    }
  }

  /** A text that promotes is not well formed. */
  lemma {:induction false} WellFormedKeeps(s: string, i: nat, l: int, r: int, names: seq<string>, roots: nat,
    child: bool)
    requires i <= |s| && WellFormedFrom(s, i, l, r, names, roots)
    ensures !PromotesFrom(s, i, l, r, names, child)
    decreases |s| - i
  {
    hide N.Run, A.Matches, MatchDepth;
    N.RunProgress(s, i, i, N.Initial(l, r));
    var n := N.NodeAt(s, i, l, r);
    if n.kind == N.ELEMENT {
      WellFormedKeeps(s, n.next, n.nameL, n.nameR, if n.empty then names else names + [Slice(s, n.nameL, n.nameR)],
        if names == [] then roots + 1 else roots, n.empty);
    } else if n.kind == N.END_TAG {
      MatchDepthIs(names, Slice(s, n.nameL, n.nameR), |names|);
      WellFormedKeeps(s, n.next, n.nameL, n.nameR, names[..|names| - 1], roots, true);
    } else if n.kind != N.END_OF_DOCUMENT {
      WellFormedKeeps(s, n.next, n.nameL, n.nameR, names, roots, child);
    }
  }

  // ------------------------------------------------------------------------------ examples

  /** A child of an element without end tag is promoted; without children there is nothing to promote. */
  lemma PromotionExamples()
    ensures Promotes("<a><b><c/></a>") && !Promotes("<a><b></a>")
  {
    Promoting();
    NotPromoting();
  }

  lemma Promoting()
    ensures Promotes("<a><b><c/></a>")
  {
    hide PromotesFrom;
    var s := "<a><b><c/></a>";
    assert s[0..3] == "<a>" && s[3..6] == "<b>" && s[6..10] == "<c/>" && s[10..14] == "</a>";
    StartStep(s, 0, 0, -1, [], false, "a", false);
    StartStep(s, 3, 1, 1, ["a"], false, "b", false);
    StartStep(s, 6, 4, 4, ["a", "b"], false, "c", true);
    EndStep(s, 10, 7, 7, ["a", "b"], true, "a", 1);
    assert [] + ["a"] == ["a"] && ["a"] + ["b"] == ["a", "b"];
  }

  lemma NotPromoting()
    ensures !Promotes("<a><b></a>")
  {
    hide PromotesFrom;
    var s := "<a><b></a>";
    assert s[0..3] == "<a>" && s[3..6] == "<b>" && s[6..10] == "</a>";
    StartStep(s, 0, 0, -1, [], false, "a", false);
    StartStep(s, 3, 1, 1, ["a"], false, "b", false);
    EndStep(s, 6, 4, 4, ["a", "b"], false, "a", 1);
    assert [] + ["a"] == ["a"] && ["a"] + ["b"] == ["a", "b"];
    LastStep(s, 8, 8);
  }

  lemma AtTheEnd(s: string, l: int, r: int)
    ensures N.NodeAt(s, |s|, l, r).kind == N.END_OF_DOCUMENT
  {
  }

  lemma LastStep(s: string, l: int, r: int)
    ensures !PromotesFrom(s, |s|, l, r, [], true)
  {
    AtTheEnd(s, l, r);
  }

  lemma StartStep(s: string, i: nat, l: int, r: int, names: seq<string>, child: bool, name: string, empty: bool)
    requires Tags.IsName(name) && TextAt(s, i, "<" + name + if empty then "/>" else ">")
    ensures var j := i + |name| + if empty then 3 else 2;
      i < j <= |s| && PromotesFrom(s, i, l, r, names, child)
        == PromotesFrom(s, j, i + 1, i + |name|, if empty then names else names + [name], empty)
  {
    hide N.NodeAt, N.Run, Tags.IsName;
    PlainTag(s, i, l, r, name, empty);
  }

  lemma EndStep(s: string, i: nat, l: int, r: int, names: seq<string>, child: bool, name: string, d: nat)
    requires Tags.IsName(name) && TextAt(s, i, "</" + name + ">") && 0 < d <= |names| && names[d - 1] == name
    requires forall k :: d <= k < |names| ==> !A.Matches(name, names[k])
    ensures var j := i + |name| + 3;
      i < j <= |s| && PromotesFrom(s, i, l, r, names, child)
        == (Loses(|names|, d, child) || PromotesFrom(s, j, i + 2, i + 1 + |name|, names[..d - 1], true))
  {
    hide N.NodeAt, N.Run, Tags.IsName;
    PlainEnd(s, i, l, r, name);
    MatchDepthIs(names, name, d);
  }

  /** A start tag without attributes. */
  lemma PlainTag(s: string, i: nat, l: int, r: int, name: string, empty: bool)
    requires Tags.IsName(name) && TextAt(s, i, "<" + name + if empty then "/>" else ">")
    ensures var n := N.NodeAt(s, i, l, r);
      n.kind == N.ELEMENT && n.next == i + |name| + (if empty then 3 else 2) && n.empty == empty && n.nameL == i + 1 &&
      n.nameR == i + |name| && Slice(s, n.nameL, n.nameR) == name
  {
    hide N.NodeAt, Tags.IsName;
    var t := Tags.StartTag(name, [], "", empty);
    PlainText(name, empty);
    T.StartTagNode(s, i, l, r, t);
    hide TextAt;
    TextSplit(s, i, "<", name + if empty then "/>" else ">");
    TextSplit(s, i + 1, name, if empty then "/>" else ">");
    NameThere(s, i + 1, name);
  }

  lemma PlainText(name: string, empty: bool)
    ensures "<" + name + (if empty then "/>" else ">") == "<" + (name + if empty then "/>" else ">")
    ensures Tags.TagText(Tags.StartTag(name, [], "", empty)) == "<" + name + if empty then "/>" else ">"
    ensures Tags.EndTag(name, "") == "</" + name + ">" == "</" + (name + ">")
  {
  }

  lemma NameThere(s: string, i: nat, name: string)
    requires TextAt(s, i, name)
    ensures Slice(s, i, i + |name| - 1) == name
  {
  }

  lemma PlainEnd(s: string, i: nat, l: int, r: int, name: string)
    requires Tags.IsName(name) && TextAt(s, i, "</" + name + ">")
    ensures var n := N.NodeAt(s, i, l, r);
      n.kind == N.END_TAG && n.next == i + |name| + 3 && n.nameL == i + 2 && n.nameR == i + 1 + |name| &&
      Slice(s, n.nameL, n.nameR) == name
  {
    hide N.NodeAt, Tags.IsName, TextAt;
    PlainText(name, false);
    T.EndTagNode(s, i, l, r, name, "");
    TextSplit(s, i, "</", name + ">");
    TextSplit(s, i + 2, name, ">");
    NameThere(s, i + 2, name);
  }
}
