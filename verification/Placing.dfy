/**
  How the text that x_InsertNew puts in, and where, turns the document into the one planned: into
  an empty tag, between two tags, or next to a sibling.
 */
module Placing {
  import opened ElemForest
  import opened ForestEdit
  import opened ForestGraft
  import opened Agreement
  import opened Escape
  import opened Tags
  import opened DocText
  import opened EditPlan
  import opened EditFacts
  import opened Adding
  import opened EditKeeps
  import I = Insertion

  /** How far the recorded start of a new element falls short of where it stands. */
  ghost function Missing(f: Forest, p: nat, noLines: bool): nat
    requires p == 0 || p in Ids(f)
  {
    if noLines && NoContent(f, p) then |EOL| else 0
  }

  /** The lines x_InsertNew leaves out are not always left out: with no content in p it still breaks the line. */
  lemma NoLinesMisses()
    ensures var f := Node("", 1, "<p>", Nil(""), "</p>", Nil(""));
      Distinct(f) && WellTagged(f) && Missing(f, 1, true) == 1
  {
    var f := Node("", 1, "<p>", Nil(""), "</p>", Nil(""));
    var t := StartTag("p", [], "", false);
    assert TagsAre(t, "", f.tag, f.kids, f.close);
  }

  /** Where the new element of a plan stands. */
  ghost function NewStart(f: Forest, a: I.Insert): int
    requires I.Fits(f, a)
  {
    I.ContentAt(f, a) + EndOf(KidsOf(f, a.p), a.b) + |a.n.gap|
  }

  /** What an edit asks of the new element n and the place for it. */
  ghost predicate Addable(f: Forest, p: nat, rel: nat, n: Forest) {
    Distinct(f) && WellTagged(f) && (p == 0 || p in Ids(f)) && (rel == 0 || rel in Tops(KidsOf(f, p))) &&
    n.Node? && n.kids.Nil? && n.id != 0 && n.id !in Ids(f) && n.id != p
  }

  /** f' is f with the new element n added, relative to the child rel of p if that is not 0. */
  ghost predicate Added(f: Forest, p: nat, rel: nat, insert: bool, noLines: bool, n: Forest, f': Forest) {
    (p == 0 || p in Ids(f)) && n.Node? && I.Fits(f, Plan(f, p, rel, insert, noLines, n)) &&
    f' == I.Inserted(f, Plan(f, p, rel, insert, noLines, n))
  }

  lemma PlanSplit(e: Index, f: Forest, p: nat, insert: bool, noLines: bool, n: Forest)
    requires Agree(e, f) && Addable(f, p, 0, n) && SplitsTag(f, p)
    ensures var a := Plan(f, p, 0, insert, noLines, n);
      I.Fits(f, a) && p < |e| && a.p == p && a.b == 0 &&
        NewStart(f, a) == e[p].StartContent() - 1 + |LineEnd(noLines)| &&
      0 <= e[p].StartAfter() - 2 < |Text(f)| &&
      Text(I.Inserted(f, a)) == Splice(Text(f), e[p].StartAfter() - 2, 1,
        ">" + LineEnd(noLines) + (NodeText(n) + LineEnd(noLines)) + "</" + TagName(Find(f, p).tag))
    ensures e[p].startTagLen - 1 == |Unslashed(Find(f, p).tag)|
    ensures 3 + |TagName(Find(f, p).tag)| == |EndTag(TagName(Find(f, p).tag), "")|
  {
    hide Find, Distinct, Links, Ring, Spans, Front, Text, TagText, NameAt, WellTagged, Graft;
    PlanFits(f, p, 0, insert, noLines, n);
    var a := Plan(f, p, 0, insert, noLines, n);
    var t := ParentTag(e, f, p);
    ParentFacts(e, f, p);
    SplitTagsMatch(t, I.NewKids(f, a));
    var l := LineEnd(noLines);
    assert Text(I.NewKids(f, a)) == l + NodeText(n) + l by { SplitContent(n, l); }
    SplitDoc(f, p, I.NewParent(f, a), t, l + NodeText(n) + l);
    JoinSplit(l, NodeText(n), t.name);
    UnslashedLength(t);
  }

  lemma UnslashedLength(t: StartTag)
    requires TagOk(t) && t.empty
    ensures |TagText(t)| >= 2 && |Unslashed(TagText(t))| == |TagText(t)| - 1
  {
    TagTextFacts(t);
  }

  lemma SplitContent(n: Forest, l: string)
    requires n.Node?
    ensures Text(InsertIn(Nil(""), 0, n.(gap := l), l)) == l + NodeText(n) + l
  {
    Regroup5'(l, n.tag, Text(n.kids), n.close, l);
  }

  lemma JoinSplit(l: string, m: string, name: string)
    ensures ">" + l + (m + l) + "</" + name == ">" + (l + m + l) + "</" + name
  {
  }

  lemma PlanFirst(e: Index, f: Forest, p: nat, insert: bool, noLines: bool, n: Forest)
    requires Agree(e, f) && Addable(f, p, 0, n) && NoContent(f, p)
    ensures var a := Plan(f, p, 0, insert, noLines, n);
      I.Fits(f, a) && p < |e| && a.p == p && a.b == 0 && NewStart(f, a) == e[p].StartContent() + |EOL| &&
      0 <= e[p].StartContent() <= |Text(f)| &&
      Text(I.Inserted(f, a)) == Splice(Text(f), e[p].StartContent(), 0, EOL + (NodeText(n) + LineEnd(noLines)))
  {
    hide Find, Distinct, Links, Ring, Spans, Front, WellTagged, Graft, Splice;
    PlanFits(f, p, 0, insert, noLines, n);
    var a := Plan(f, p, 0, insert, noLines, n);
    OpeningLength(e, f, p);
    ParentFacts(e, f, p);
    Assoc3'(EOL, NodeText(n), LineEnd(noLines));
    InsertedDoc(f, a, 0, EOL + (NodeText(n) + LineEnd(noLines)));
  }

  lemma Assoc3'(a: string, b: string, c: string)
    ensures a + (b + c) == a + b + c
    ensures ""[..0] + (a + (b + c)) + ""[0..] == a + b + c
  {
  }

  lemma PlanPlain(e: Index, f: Forest, p: nat, rel: nat, insert: bool, noLines: bool, n: Forest)
    requires Agree(e, f) && Addable(f, p, rel, n) && !NoContent(f, p) && !SplitsTag(f, p)
    ensures p < |e| && rel < |e| && 0 <= Spot(e, p, rel, insert) <= |Text(f)|
    ensures var a := Plan(f, p, rel, insert, noLines, n);
      var at := Spot(e, p, rel, insert) + if noLines then 0 else TagCut(Text(f)[Spot(e, p, rel, insert)..]);
      I.Fits(f, a) && a.p == p && a.b == Predecessor(KidsOf(f, p), rel, insert) && NewStart(f, a) == at &&
      0 <= at <= |Text(f)| && Text(I.Inserted(f, a)) == Splice(Text(f), at, 0, NodeText(n) + LineEnd(noLines))
  {
    hide Find, Distinct, Links, Ring, Spans, Front, Text, WellTagged, Graft, Splice, GapAfter, TagCut, EndOf, PrevOf,
      Tops;
    PlanFits(f, p, rel, insert, noLines, n);
    var a := Plan(f, p, rel, insert, noLines, n);
    var k := KidsOf(f, p);
    var g, c := GapAfter(k, a.b), |a.n.gap|;
    OpeningLength(e, f, p);
    SpotIs(e, f, p, rel, insert);
    PlainPiece(g[..c], n.tag + Text(n.kids) + n.close, LineEnd(noLines), g[c..]);
    InsertedDoc(f, a, c, NodeText(n) + LineEnd(noLines));
  }

  lemma PlainPiece(g1: string, m: string, l: string, g2: string)
    ensures g1 + m + (l + g2) == g1 + (m + l) + g2
  {
  }

  lemma ParentKinds(e: Index, f: Forest, p: nat, rel: nat, insert: bool, noLines: bool, n: Forest)
    requires Agree(e, f) && Addable(f, p, rel, n)
    ensures p < |e| && rel < |e| && |Text(f)| == e[0].length
    ensures p != 0 ==>
      (e[p].IsEmptyElement() <==> SplitsTag(f, p)) && (e[p].ContentLen() == 0 <==> NoContent(f, p) || SplitsTag(f, p))
    ensures SplitsTag(f, p) || NoContent(f, p) ==> rel == 0 && Predecessor(KidsOf(f, p), rel, insert) == 0
    ensures SplitsTag(f, p) ==> !NoContent(f, p) && p != 0
    ensures NoContent(f, p) ==> p != 0
    ensures var a := Plan(f, p, rel, insert, noLines, n);
      if p != 0 && !SplitsTag(f, p) then |a.T| == e[p].startTagLen && |a.C| == e[p].endTagLen
      else p != 0 ==> a.T == Unslashed(Find(f, p).tag) && a.C == EndTag(TagName(Find(f, p).tag), "")
  {
    hide Find, Distinct, Links, Ring, Spans, Front, Text, WellTagged, TagCut;
    PredecessorLinks(e, f, p, rel, insert);
    PlanFits(f, p, rel, insert, noLines, n);
    if p != 0 { ParentFacts(e, f, p); }
  }

  /** Where the text of the plan goes in, case by case. */
  lemma PlanCases(e: Index, f: Forest, p: nat, rel: nat, insert: bool, noLines: bool, n: Forest)
    requires Agree(e, f) && Addable(f, p, rel, n)
    ensures var a := Plan(f, p, rel, insert, noLines, n);
      I.Fits(f, a) && a.p == p &&
      a.b == if SplitsTag(f, p) then 0 else Predecessor(KidsOf(f, p), rel, insert)
    ensures p < |e| && rel < |e| && (!SplitsTag(f, p) ==> 0 <= Spot(e, p, rel, insert) <= |Text(f)|)
    ensures NoContent(f, p) && !SplitsTag(f, p) ==>
      Spot(e, p, rel, insert) == e[p].StartContent() && TagCut(Text(f)[Spot(e, p, rel, insert)..]) == 0
  {
    hide Find, Distinct, Links, Ring, Spans, Front, WellTagged, Graft;
    ParentKinds(e, f, p, rel, insert, noLines, n);
    if SplitsTag(f, p) {
      PlanSplit(e, f, p, insert, noLines, n);
    } else {
      SpotIs(e, f, p, rel, insert);
      if NoContent(f, p) {
        PlanFirst(e, f, p, insert, noLines, n);
        PlanFits(f, p, rel, insert, noLines, n);
        OpeningLength(e, f, p);
      } else {
        PlanPlain(e, f, p, rel, insert, noLines, n);
      }
    }
  }

  /** The element p with new content between its tags; an empty tag is split. */
  ghost function Refilled(f: Forest, p: nat, content: string): (n: Forest)
    requires p in Ids(f)
    ensures n.Node? && n.kids == Nil(content)
  {
    var tag := Find(f, p).tag;
    if IsEmptyTag(Find(f, p)) then Node("", p, Unslashed(tag), Nil(content), EndTag(TagName(tag), ""), Nil(""))
    else Node("", p, tag, Nil(content), Find(f, p).close, Nil(""))
  }

  lemma RefillSplit(e: Index, f: Forest, p: nat, content: string)
    requires Agree(e, f) && WellTagged(f) && p in Ids(f) && SplitsTag(f, p)
    ensures p < |e| && 0 <= e[p].StartAfter() - 2 < |Text(f)|
    ensures Text(Graft(f, p, Refilled(f, p, content)))
         == Splice(Text(f), e[p].StartAfter() - 2, 1, ">" + content + "</" + TagName(Find(f, p).tag))
    ensures e[p].startTagLen - 1 == |Unslashed(Find(f, p).tag)|
    ensures 3 + |TagName(Find(f, p).tag)| == |EndTag(TagName(Find(f, p).tag), "")|
  {
    hide Find, Distinct, Links, Ring, Spans, Front, TagText, NameAt, WellTagged, Graft;
    var t := ParentTag(e, f, p);
    ParentFacts(e, f, p);
    SplitTagsMatch(t, Nil(content));
    SplitDoc(f, p, Refilled(f, p, content), t, content);
    UnslashedLength(t);
  }

  lemma RefillPlain(e: Index, f: Forest, p: nat, content: string)
    requires Agree(e, f) && WellTagged(f) && p in Ids(f) && !SplitsTag(f, p)
    ensures p < |e| && 0 <= e[p].StartContent() && 0 <= e[p].ContentLen()
    ensures e[p].StartContent() + e[p].ContentLen() <= |Text(f)|
    ensures Text(Graft(f, p, Refilled(f, p, content)))
      == Splice(Text(f), e[p].StartContent(), e[p].ContentLen(), content)
  {
    hide Find, Distinct, Links, Ring, Spans, Front, WellTagged, Graft;
    ParentFacts(e, f, p);
    DistinctNoZero(f);
    ContentDoc(f, p, Refilled(f, p, content));
  }

  lemma RefilledTags(f: Forest, p: nat, content: string)
    requires WellTagged(f) && p in Ids(f) && (Find(f, p).kids.Nil?)
    ensures var n := Refilled(f, p, content); TagsMatch(n.tag, n.kids, n.close) && |n.tag| > 0
  {
    hide Find, WellTagged, NameAt;
    NodeWellTagged(f, p);
    var m := Find(f, p);
    var t, space :| TagsAre(t, space, m.tag, m.kids, m.close);
    TagTextFacts(t);
    if t.empty {
      SplitTagsMatch(t, Nil(content));
    } else {
      assert m.close != "";
      assert TagsAre(t, space, m.tag, Nil(content), m.close);
    }
  }

  // ----------------------------------------------------------------------- no zero characters

  lemma SpliceNulFree(doc: string, at: nat, len: nat, s: string)
    requires at + len <= |doc| && NulFree(doc) && NulFree(s)
    ensures NulFree(Splice(doc, at, len, s)) && |Splice(doc, at, len, s)| == |doc| - len + |s|
  {
  }

  lemma {:induction false} NameNulFree(s: string, i: nat)
    ensures NulFree(NameAt(s, i))
    decreases |s| - i
  {
    if i < |s| && !EndsName(s[i]) && s[i] != '\0' { NameNulFree(s, i + 1); }
  }

  lemma PlanNulFree(doc: string, at: nat, len: nat, l: string, meta: string, name: string, s: string)
    requires at + len <= |doc| && NulFree(doc) && NulFree(meta) && NulFree(name) && NulFree(l)
    requires s == ">" + l + (meta + l) + "</" + name || s == EOL + (meta + l) || s == meta + l
    ensures NulFree(Splice(doc, at, len, s)) && |Splice(doc, at, len, s)| == |doc| - len + |s|
  {
    SpliceNulFree(doc, at, len, s);
  }

  lemma PlusNothing(s: string)
    ensures s + "" == s && ">" + "" == ">"
  {
  }

  lemma AddableParts(f: Forest, p: nat, rel: nat, n: Forest)
    requires Addable(f, p, rel, n)
    ensures WellTagged(f) && (p == 0 || p in Ids(f)) && (rel == 0 || rel in Tops(KidsOf(f, p))) && n.Node?
  {
  }

  // -------------------------------------------------------------------- the new element

  lemma ElemAddable(e: Index, f: Forest, p: nat, rel: nat, n: Forest)
    requires Agree(e, f) && WellTagged(f) && (p == 0 || p in Ids(f)) && (rel == 0 || rel in Tops(KidsOf(f, p)))
    requires n.Node? && n.kids.Nil? && n.id == |e|
    ensures Addable(f, p, rel, n)
  {
    LinksInRange(e, f, 0);
  }

  lemma PlanShape(f: Forest, p: nat, rel: nat, insert: bool, noLines: bool, n: Forest)
    requires Addable(f, p, rel, n)
    ensures var a := Plan(f, p, rel, insert, noLines, n);
      I.Fits(f, a) && a.p == p && a.n.id == n.id && a.n.tag == n.tag && a.n.kids == n.kids && a.n.close == n.close &&
      Width(a.n) == Width(n) && (p != 0 ==> |a.T| > 0 && TagsMatch(a.T, I.NewKids(f, a), a.C))
  {
    hide Find, WellTagged, Distinct, TagsMatch;
    PlanFits(f, p, rel, insert, noLines, n);
    if p != 0 { PlanTags(f, p, rel, insert, noLines, n); }
  }

  /** Tags and pool after the insertion. */
  lemma AddedSound(e: Index, e': Index, f: Forest, p: nat, rel: nat, insert: bool, noLines: bool, n: Forest,
                   head: nat, dead: seq<nat>)
    requires Addable(f, p, rel, n) && Pooled(e, f, head, dead) && TagsMatch(n.tag, n.kids, n.close)
    requires n.id == |e| && |e'| == |e| + 1 && forall j: nat :: 0 < j < |e| && j !in Ids(f) ==> e'[j] == e[j]
    ensures var a := Plan(f, p, rel, insert, noLines, n);
      I.Fits(f, a) && WellTagged(I.Inserted(f, a)) && Pooled(e', I.Inserted(f, a), head, dead)
  {
    hide Find, WellTagged, Distinct, TagsMatch, Plan, I.Inserted, Pooled, I.NewKids;
    var a := Plan(f, p, rel, insert, noLines, n);
    PlanShape(f, p, rel, insert, noLines, n);
    InsertedWellTagged(f, a);
    I.InsertedIds(f, a);
    PooledGrows(e, e', f, I.Inserted(f, a), head, dead);
  }

  lemma EndedLate(e: Index, f: Forest, x: nat, d: int)
    requires Ended(e, f) && x < |e|
    ensures Ended(Late(e, x, d), f)
  {
  }
}
