/**
  What the edits read from an index that agrees with the document: where elements and their
  content stand in the text, and which names and gaps are found there.
 */
module EditFacts {
  import opened ElemForest
  import opened ForestEdit
  import opened ForestGraft
  import opened SiblingLinks
  import opened Agreement
  import opened Escape
  import opened Tags
  import opened DocText
  import opened EditPlan
  import I = Insertion

  // ------------------------------------------------------------------------------- skipping

  lemma TagCutOfGap(g: string, x: string)
    requires AtTag(x)
    ensures TagCut(g + x) == TagCut(g)
  {
    LeadingSpaceOfGap(g, x);
    var n := LeadingSpace(g);
    assert n < |g| ==> (g + x)[n] == g[n];
    assert n == |g| && x != "" ==> (g + x)[n] == x[0];
  }

  lemma TagCutAtTag(x: string)
    requires AtTag(x)
    ensures TagCut(x) == 0
  {
  }

  // ---------------------------------------------------------------------------------- names

  lemma {:induction false} NameIs(s: string, i: nat, name: string)
    requires i + |name| < |s| && s[i..i + |name|] == name && EndsName(s[i + |name|])
    requires forall k :: 0 <= k < |name| ==> !EndsName(name[k]) && name[k] != '\0'
    ensures NameAt(s, i) == name
    decreases |name|
  {
    if name != "" {
      assert s[i] == s[i..i + |name|][0];
      assert s[i + 1..i + 1 + |name[1..]|] == s[i..i + |name|][1..];
      NameIs(s, i + 1, name[1..]);
    }
  }

  lemma AfterName(t: StartTag)
    requires TagOk(t)
    ensures |TagText(t)| > 1 + |t.name| && EndsName(TagText(t)[1 + |t.name|]) && TagText(t)[1..1 + |t.name|] == t.name
  {
    var r := AttrsText(t.attrs) + t.space + (if t.empty then "/>" else ">");
    assert TagText(t) == ("<" + t.name) + r;
    assert TagText(t)[1 + |t.name|] == r[0];
    if t.attrs != [] {
      assert r[0] == t.attrs[0].space[0];
    } else if t.space != "" {
      assert r[0] == t.space[0];
    }
  }

  lemma SliceAt(s: string, i: nat, x: string, a: nat, b: nat)
    requires TextAt(s, i, x) && a <= b <= |x|
    ensures i + b <= |s| && s[i + a..i + b] == x[a..b]
  {
    forall k | a <= k < b ensures s[i + k] == x[k] {
      CharsAt(s, i, x, k);
    }
  }

  /** The name of a start tag, read in the tag or wherever the tag stands. */
  lemma TagNameIs(t: StartTag, doc: string, at: nat)
    requires TagOk(t) && TextAt(doc, at, TagText(t))
    ensures NameAt(doc, at + 1) == t.name && TagName(TagText(t)) == t.name
    ensures at + 1 < |doc| && !IsWhitespace(doc[at + 1])
  {
    hide NameAt, TagText;
    AfterName(t);
    var x := TagText(t);
    CharsAt(doc, at, x, 1 + |t.name|);
    SliceAt(doc, at, x, 1, 1 + |t.name|);
    NameIs(doc, at + 1, t.name);
    NameIs(x, 1, t.name);
    assert doc[at + 1] == doc[at + 1..at + 1 + |t.name|][0];
  }

  // ------------------------------------------------------------------------- where things are

  lemma OpeningLength(e: Index, f: Forest, p: nat)
    requires Agree(e, f) && (p == 0 || p in Ids(f))
    ensures p < |e| && |Opening(f, p)| == ContentStart(e, p) && Spans(e, KidsOf(f, p), |Opening(f, p)|)
    ensures p != 0 ==> e[p].start == |Front(f, p)|
  {
    hide Find, Front;
    KidsFacts(e, f, p);
  }

  /** The text of an element stands where its record says. */
  lemma NodeInDoc(e: Index, f: Forest, i: nat)
    requires Spans(e, f, 0) && i in Ids(f)
    ensures i < |e| && e[i].start == |Front(f, i)| && TextAt(Text(f), |Front(f, i)|, NodeText(Find(f, i)))
    ensures TextAt(Text(f), |Front(f, i)|, Find(f, i).tag)
  {
    hide Find, Front, Back, Text, Spans;
    SpanOfNode(e, f, i, 0);
    GraftText(f, i, Find(f, i));
    InMiddle(Front(f, i), Find(f, i).tag, Text(Find(f, i).kids), Find(f, i).close, Back(f, i));
  }

  lemma LeafText(x: string)
    ensures Text(Nil(x)) == x && First(Nil(x)) == 0
  {
  }

  lemma ContentAt(s: string, i: nat, t: string, x: string, c: string)
    requires TextAt(s, i, t + x + c)
    ensures TextAt(s, i + |t|, x) && TextAt(s, i + |t| + |x|, c) && i + |t| + |x| + |c| <= |s|
  {
    TextSplit(s, i, t + x, c);
    TextSplit(s, i, t, x);
  }

  lemma InMiddle(a: string, t: string, x: string, c: string, b: string)
    ensures TextAt(a + (t + x + c) + b, |a|, t + x + c) && TextAt(a + (t + x + c) + b, |a|, t)
  {
    var s := a + (t + x + c) + b;
    assert s[|a|..|a| + |t + x + c|] == t + x + c;
    assert s[|a|..|a| + |t|] == (t + x + c)[..|t|];
  }

  /** What the insertion reads from the record of the parent. */
  lemma ParentFacts(e: Index, f: Forest, p: nat)
    requires Agree(e, f) && WellTagged(f) && p in Ids(f)
    ensures p < |e| && (e[p].IsEmptyElement() <==> SplitsTag(f, p))
    ensures e[p].ContentLen() == |Text(KidsOf(f, p))|
    ensures e[p].ContentLen() == 0 <==> NoContent(f, p) || SplitsTag(f, p)
    ensures e[p].start == |Front(f, p)| && e[p].startTagLen == |Find(f, p).tag| && e[p].endTagLen == |Find(f, p).close|
    ensures e[p].length == Width(Find(f, p))
  {
    hide Front, Spans, Links, Ring, Find, Distinct;
    OpeningLength(e, f, p);
    KidsFacts(e, f, p);
    NodeWellTagged(f, p);
    var n := Find(f, p);
    var t, space :| TagsAre(t, space, n.tag, n.kids, n.close);
  }

  lemma ParentTag(e: Index, f: Forest, p: nat) returns (t: StartTag)
    requires Agree(e, f) && WellTagged(f) && p in Ids(f)
    ensures TagOk(t) && Find(f, p).tag == TagText(t) && (t.empty <==> SplitsTag(f, p))
    ensures p < |e| && e[p].start == |Front(f, p)| && TextAt(Text(f), |Front(f, p)|, TagText(t))
    ensures SplitsTag(f, p) ==> Find(f, p).kids == Nil("") && Find(f, p).close == ""
  {
    hide Front, Spans, Links, Ring, Find, Distinct, Text;
    NodeInDoc(e, f, p);
    NodeWellTagged(f, p);
    var n := Find(f, p);
    var space: string;
    t, space :| TagsAre(t, space, n.tag, n.kids, n.close);
    DistinctNoZero(f);
  }

  /** Where a new element goes when the parent is not written as an empty tag. */
  function Spot(e: Index, p: nat, rel: nat, insert: bool): int
    requires p < |e| && rel < |e|
  {
    if rel != 0 then if insert then e[rel].start else e[rel].start + e[rel].length
    else if insert then e[p].StartContent() else e[p].StartAfter() - e[p].endTagLen
  }

  lemma SpotIs(e: Index, f: Forest, p: nat, rel: nat, insert: bool)
    requires Agree(e, f) && WellTagged(f) && (p == 0 || p in Ids(f)) && !SplitsTag(f, p)
    requires rel == 0 || rel in Tops(KidsOf(f, p))
    ensures var k := KidsOf(f, p);
      var b := Predecessor(k, rel, insert);
      p < |e| && rel < |e| && (b == 0 || b in Tops(k)) && 0 <= Spot(e, p, rel, insert) <= |Text(f)| &&
      Spot(e, p, rel, insert) == |Opening(f, p)| + EndOf(k, b) + (if (rel != 0) == insert then |GapAfter(k, b)| else 0)
    ensures var k := KidsOf(f, p);
      var b := Predecessor(k, rel, insert);
      TagCut(Text(f)[Spot(e, p, rel, insert)..]) == if (rel != 0) == insert then 0 else TagCut(GapAfter(k, b))
  {
    hide Front, Spans, Links, Ring, Find, Distinct, Text, WellTagged, TagCut, EndOf, GapAfter, Behind, Tops, PrevOf;
    var k := KidsOf(f, p);
    var b := Predecessor(k, rel, insert);
    OpeningLength(e, f, p);
    I.KidsDistinct(f, p);
    if p != 0 { ParentFacts(e, f, p); }
    SpotOffset(e, f, p, rel, insert);
    GapInDoc(f, p, b);
    var at := |Opening(f, p)| + EndOf(k, b);
    var x := Behind(k, b) + Closing(f, p);
    if (rel != 0) == insert {
      assert Text(f)[at + |GapAfter(k, b)|..] == Text(f)[at..][|GapAfter(k, b)|..] == x;
      TagCutAtTag(x);
    } else {
      TagCutOfGap(GapAfter(k, b), x);
    }
  }

  lemma SpotOffset(e: Index, f: Forest, p: nat, rel: nat, insert: bool)
    requires Agree(e, f) && WellTagged(f) && (p == 0 || p in Ids(f)) && !SplitsTag(f, p)
    requires rel == 0 || rel in Tops(KidsOf(f, p))
    ensures var k := KidsOf(f, p);
      var b := Predecessor(k, rel, insert);
      p < |e| && rel < |e| && (b == 0 || b in Tops(k)) &&
      Spot(e, p, rel, insert) == |Opening(f, p)| + EndOf(k, b) + (if (rel != 0) == insert then |GapAfter(k, b)| else 0)
  {
    hide Front, Spans, Links, Ring, Find, Distinct, WellTagged, Behind, Tops, PrevOf;
    var k := KidsOf(f, p);
    OpeningLength(e, f, p);
    I.KidsDistinct(f, p);
    if rel != 0 {
      SpanOfTop(e, k, rel, |Opening(f, p)|);
      if insert {
        PrevInTops(k, rel, 0);
        PrevIsTop(k, rel);
      }
    } else if !insert {
      LastGap(k);
      if p != 0 { ParentFacts(e, f, p); }
    }
  }

  lemma PrevIsTop(k: Forest, i: nat)
    requires i in Tops(k) && Distinct(k)
    ensures PrevOf(k, i, 0) == 0 || PrevOf(k, i, 0) in Tops(k)
  {
    PrevInTops(k, i, 0);
  }

  lemma LastGap(k: Forest)
    requires Distinct(k)
    ensures LastTop(k) == 0 || LastTop(k) in Tops(k)
    ensures EndOf(k, LastTop(k)) + |GapAfter(k, LastTop(k))| == |Text(k)|
  {
    if k.Node? { LastIsTop(k); }
  }

  /** The sibling to go behind, read from the links. */
  lemma PredecessorLinks(e: Index, f: Forest, p: nat, rel: nat, insert: bool)
    requires Agree(e, f) && (p == 0 || p in Ids(f)) && (rel == 0 || rel in Tops(KidsOf(f, p)))
    ensures p < |e| && rel < |e| && e[p].child < |e|
    ensures Predecessor(KidsOf(f, p), rel, insert) ==
      if rel != 0 then if insert then if e[rel].first then 0 else e[rel].prev else rel
      else if insert then 0 else if e[p].child != 0 then e[e[p].child].prev else 0
  {
    hide Find, Spans;
    var k := KidsOf(f, p);
    KidsFacts(e, f, p);
    if rel != 0 {
      NextIs(e, k, p, rel);
      if k.id != rel { RestNotFirst(e, k.rest, k.id, rel); }
    }
  }

  /** The name of an element in the text. */
  lemma NameInDoc(e: Index, f: Forest, i: nat)
    requires Agree(e, f) && WellTagged(f) && i in Ids(f)
    ensures i < |e| && 0 <= e[i].start + 1 < |Text(f)| && !IsWhitespace(Text(f)[e[i].start + 1])
    ensures NameAt(Text(f), e[i].start + 1) == TagName(Find(f, i).tag) && TagName(Find(f, i).tag) != ""
    ensures CharAt(Text(f), e[i].start + 1) != '\0'
  {
    hide Find, Spans, Links, Ring, Distinct, Front, TagText, Text;
    var t := ParentTag(e, f, i);
    TagNameIs(t, Text(f), |Front(f, i)|);
  }
}
