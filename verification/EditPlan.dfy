/**
  What AddElem, SetData and RemoveElem do to the document: where a new element goes, the line
  ends around it, the splitting of an empty tag, and the replacement in the text.
 */
module EditPlan {
  import opened ElemForest
  import opened ForestEdit
  import opened ForestGraft
  import opened Agreement
  import opened Tags
  import opened DocText
  import I = Insertion
  import R = Removal

  /** The element is written as an empty tag. */
  predicate IsEmptyTag(n: Forest)
    requires n.Node?
  {
    n.close == ""
  }

  /** The empty tag without its slash. */
  function Unslashed(tag: string): string {
    if |tag| < 2 then tag else tag[..|tag| - 2] + ">"
  }

  /** The sibling a new element goes behind, given the current one (0: none). */
  ghost function Predecessor(k: Forest, rel: nat, insert: bool): nat {
    if rel != 0 then if insert then PrevOf(k, rel, 0) else rel
    else if insert then 0 else LastTop(k)
  }

  /** Where in the gap behind that sibling it goes. */
  function Cut(g: string, rel: nat, insert: bool, noLines: bool): (c: nat)
    ensures c <= |g|
  {
    if (rel != 0) == insert then |g| else if noLines then 0 else TagCut(g)
  }

  function LineEnd(noLines: bool): string { if noLines then "" else EOL }

  ghost predicate NoContent(f: Forest, p: nat)
    requires p == 0 || p in Ids(f)
  {
    p != 0 && !IsEmptyTag(Find(f, p)) && Text(KidsOf(f, p)) == ""
  }

  ghost predicate SplitsTag(f: Forest, p: nat)
    requires p == 0 || p in Ids(f)
  {
    p != 0 && IsEmptyTag(Find(f, p))
  }

  /** The insertion that AddElem makes for the element n. */
  ghost function Plan(f: Forest, p: nat, rel: nat, insert: bool, noLines: bool, n: Forest): I.Insert
    requires (p == 0 || p in Ids(f)) && n.Node?
  {
    var k := KidsOf(f, p);
    var b := Predecessor(k, rel, insert);
    var e := LineEnd(noLines);
    if SplitsTag(f, p) then
      I.Insert(p, 0, n.(gap := e), e, Unslashed(Find(f, p).tag), EndTag(TagName(Find(f, p).tag), ""))
    else
      var g := GapAfter(k, b);
      var c := Cut(g, rel, insert, noLines);
      var T := if p == 0 then "" else Find(f, p).tag;
      var C := if p == 0 then "" else Find(f, p).close;
      if NoContent(f, p) then I.Insert(p, 0, n.(gap := EOL), e, T, C)
      else I.Insert(p, b, n.(gap := g[..c]), e + g[c..], T, C)
  }

  lemma PlanFits(f: Forest, p: nat, rel: nat, insert: bool, noLines: bool, n: Forest)
    requires (p == 0 || p in Ids(f)) && n.Node? && n.kids.Nil? && Distinct(f) && WellTagged(f)
    requires n.id != 0 && n.id !in Ids(f) && n.id != p && (rel == 0 || rel in Tops(KidsOf(f, p)))
    ensures I.Fits(f, Plan(f, p, rel, insert, noLines, n))
    ensures SplitsTag(f, p) ==> KidsOf(f, p) == Nil("")
    ensures NoContent(f, p) ==> KidsOf(f, p) == Nil("")
  {
    var k := KidsOf(f, p);
    I.KidsDistinct(f, p);
    if rel != 0 && insert {
      PrevInTops(k, rel, 0);
    }
    if k.Node? { LastIsTop(k); }
    if p != 0 {
      NodeWellTagged(f, p);
      var m := Find(f, p);
      var t, space :| TagsAre(t, space, m.tag, m.kids, m.close);
      if k.Node? {
        NodeWellTagged(f, p);
        var t', space' :| TagsAre(t', space', k.tag, k.kids, k.close);
        TagTextFacts(t');
        assert |Text(k)| >= |k.tag| > 0;
      }
    }
  }

  // ------------------------------------------------------------------ the text of an insertion

  /** Insertion without a change of tags: one piece of text goes in. */
  lemma InsertedDoc(f: Forest, a: I.Insert, c: nat, piece: string)
    requires I.Fits(f, a) && (a.p != 0 ==> a.T == Find(f, a.p).tag && a.C == Find(f, a.p).close)
    requires c <= |GapAfter(KidsOf(f, a.p), a.b)|
    requires a.n.gap + NodeText(a.n) + a.v
          == GapAfter(KidsOf(f, a.p), a.b)[..c] + piece + GapAfter(KidsOf(f, a.p), a.b)[c..]
    ensures |Opening(f, a.p)| + EndOf(KidsOf(f, a.p), a.b) + c <= |Text(f)|
    ensures Text(I.Inserted(f, a))
         == Splice(Text(f), |Opening(f, a.p)| + EndOf(KidsOf(f, a.p), a.b) + c, 0, piece)
  {
    hide Find, Graft, Front, Back, InsertIn, Text, EndOf, GapAfter, Before, Behind, Opening, Closing, I.Inserted,
      Splice;
    var k := KidsOf(f, a.p);
    var g := GapAfter(k, a.b);
    InsertText(k, a.b, a.n, a.v);
    TextAround(f, a.p);
    InsertedText(f, a);
    Regroup5'(a.n.gap, a.n.tag, Text(a.n.kids), a.n.close, a.v);
    assert g == g[..c] + g[c..];
    InsertedParts(Opening(f, a.p), Before(k, a.b), g[..c], g[c..], Behind(k, a.b), Closing(f, a.p), piece);
  }

  lemma Regroup5'(g: string, t: string, x: string, c: string, v: string)
    ensures g + t + x + c + v == g + (t + x + c) + v
  {
  }

  lemma InsertedText(f: Forest, a: I.Insert)
    requires I.Fits(f, a) && (a.p != 0 ==> a.T == Find(f, a.p).tag && a.C == Find(f, a.p).close)
    ensures Text(I.Inserted(f, a)) == Opening(f, a.p) + Text(I.NewKids(f, a)) + Closing(f, a.p)
  {
    hide Find, Graft, Front, Back, InsertIn;
    if a.p == 0 {
      assert "" + Text(I.NewKids(f, a)) + "" == Text(I.NewKids(f, a));
    } else {
      GraftText(f, a.p, I.NewParent(f, a));
      Regroup7'(Front(f, a.p), a.T, Text(I.NewKids(f, a)), a.C, Back(f, a.p));
    }
  }

  lemma InsertedParts(o: string, b: string, g1: string, g2: string, h: string, z: string, piece: string)
    ensures o + (b + (g1 + g2) + h) + z == (o + b + g1) + "" + (g2 + h + z)
    ensures o + (b + (g1 + piece + g2) + h) + z == (o + b + g1) + piece + (g2 + h + z)
    ensures Splice(o + (b + (g1 + g2) + h) + z, |o| + |b| + |g1|, 0, piece)
         == o + (b + (g1 + piece + g2) + h) + z
  {
    var x, y := o + b + g1, g2 + h + z;
    assert o + (b + (g1 + g2) + h) + z == x + "" + y;
    assert o + (b + (g1 + piece + g2) + h) + z == x + piece + y;
    SpliceParts(x, "", y, piece);
  }

  /** An empty tag is split around new content: its slash is replaced by the rest of the two tags. */
  lemma SplitDoc(f: Forest, i: nat, n: Forest, t: StartTag, content: string)
    requires i in Ids(f) && n.Node? && TagOk(t) && t.empty && Find(f, i).tag == TagText(t)
    requires Find(f, i).kids == Nil("") && Find(f, i).close == ""
    requires n.tag == Unslashed(Find(f, i).tag) && Text(n.kids) == content && n.close == EndTag(t.name, "")
    ensures |Front(f, i)| + |Find(f, i).tag| <= |Text(f)| && |Find(f, i).tag| >= 2
    ensures Text(Graft(f, i, n))
         == Splice(Text(f), |Front(f, i)| + |Find(f, i).tag| - 2, 1, ">" + content + "</" + t.name)
  {
    hide Find, Graft, Front, Back, AttrsText;
    var a, h, z := Front(f, i), TagHead(t), Back(f, i);
    GraftText(f, i, n);
    TagTextFacts(t);
    assert h + "/>" == TagText(t);
    assert NodeText(Find(f, i)) == h + "/>";
    assert n.tag == h + ">" by { assert (h + "/>")[..|h|] == h; }
    assert NodeText(n) == h + ">" + content + ("</" + t.name + ">") by {
      assert "</" + t.name + "" + ">" == "</" + t.name + ">";
    }
    SplitParts(a, h, z, content, t.name);
  }

  lemma SplitParts(a: string, h: string, z: string, content: string, name: string)
    ensures Splice(a + (h + "/>") + z, |a| + |h|, 1, ">" + content + "</" + name)
         == a + (h + ">" + content + ("</" + name + ">")) + z
  {
    assert a + (h + "/>") + z == (a + h) + "/" + (">" + z);
    SpliceParts(a + h, "/", ">" + z, ">" + content + "</" + name);
    assert (a + h) + (">" + content + "</" + name) + (">" + z) == a + (h + ">" + content + ("</" + name + ">")) + z;
  }

  /** New content between the tags of i. */
  lemma ContentDoc(f: Forest, i: nat, n: Forest)
    requires i in Ids(f) && n.Node? && n.tag == Find(f, i).tag && n.close == Find(f, i).close
    ensures |Front(f, i)| + |n.tag| + |Text(Find(f, i).kids)| <= |Text(f)|
    ensures Text(Graft(f, i, n))
         == Splice(Text(f), |Front(f, i)| + |n.tag|, |Text(Find(f, i).kids)|, Text(n.kids))
  {
    hide Find, Graft, Front, Back;
    var m := Find(f, i);
    GraftText(f, i, n);
    Regroup7'(Front(f, i), m.tag, Text(m.kids), m.close, Back(f, i));
    Regroup7'(Front(f, i), n.tag, Text(n.kids), n.close, Back(f, i));
    SpliceParts(Front(f, i) + m.tag, Text(m.kids), m.close + Back(f, i), Text(n.kids));
  }

  // --------------------------------------------------------------------- the text of a removal

  /** The removal that RemoveElem makes: the element goes with the whitespace up to the next tag. */
  ghost function PlanRemove(f: Forest, p: nat, i: nat): R.Remove
    requires (p == 0 || p in Ids(f)) && i in Tops(KidsOf(f, p))
  {
    var t := TopNode(KidsOf(f, p), i);
    R.Remove(p, i, t.gap + t.rest.gap[TagCut(t.rest.gap)..])
  }

  lemma RemovedDoc(f: Forest, p: nat, i: nat)
    requires (p == 0 || p in Ids(f)) && i in Tops(KidsOf(f, p)) && Distinct(f)
    ensures var k := KidsOf(f, p); var t := TopNode(k, i); var c := TagCut(t.rest.gap);
      var at := |Opening(f, p)| + EndOf(k, PrevOf(k, i, 0)) + |t.gap|;
      at + Width(t) + c <= |Text(f)| &&
      Text(R.RemovedFrom(f, PlanRemove(f, p, i))) == Splice(Text(f), at, Width(t) + c, "")
  {
    hide Find, Graft, Front, Back, RemoveIn, TopNode, Text, EndOf, Before, Tail, Opening, Closing, Splice, Distinct,
      R.RemovedFrom, TagCut, PrevOf;
    var k := KidsOf(f, p);
    var t := TopNode(k, i);
    var a := PlanRemove(f, p, i);
    var g := t.rest.gap;
    var c := TagCut(g);
    I.KidsDistinct(f, p);
    RemoveText(k, i, a.g);
    TextAround(f, p);
    BeforeLength(k, i);
    LeftText(f, a);
    assert g == g[..c] + g[c..];
    var node := t.tag + Text(t.kids) + t.close;
    Regroup5'(t.gap, t.tag, Text(t.kids), t.close, g);
    RemovedParts(Opening(f, p), Before(k, PrevOf(k, i, 0)), t.gap, node, g[..c], g[c..], Tail(t.rest), Closing(f, p));
  }

  lemma LeftText(f: Forest, a: R.Remove)
    requires R.Applies(f, a)
    ensures Text(R.RemovedFrom(f, a)) == Opening(f, a.p) + Text(R.LeftKids(f, a)) + Closing(f, a.p)
  {
    hide Find, Graft, Front, Back, RemoveIn, TopNode;
    if a.p == 0 {
      assert "" + Text(R.LeftKids(f, a)) + "" == Text(R.LeftKids(f, a));
    } else {
      GraftText(f, a.p, R.LeftParent(f, a));
      Regroup7'(Front(f, a.p), Find(f, a.p).tag, Text(R.LeftKids(f, a)), Find(f, a.p).close, Back(f, a.p));
    }
  }

  lemma BeforeLength(k: Forest, i: nat)
    requires i in Tops(k) && Distinct(k)
    ensures |Before(k, PrevOf(k, i, 0))| == EndOf(k, PrevOf(k, i, 0))
  {
    PrevInTops(k, i, 0);
    DistinctNoZero(k);
    InsertText(k, PrevOf(k, i, 0), Node("", 0, "", Nil(""), "", Nil("")), "");
  }

  lemma RemovedParts(o: string, b: string, g: string, node: string, w: string, g2: string, h: string, z: string)
    ensures Splice(o + (b + (g + node + (w + g2)) + h) + z, |o| + |b| + |g|, |node| + |w|, "")
         == o + (b + (g + g2) + h) + z
  {
    hide Splice;
    assert o + (b + (g + node + (w + g2)) + h) + z == (o + b + g) + (node + w) + (g2 + h + z);
    SpliceParts(o + b + g, node + w, g2 + h + z, "");
    assert (o + b + g) + "" + (g2 + h + z) == o + (b + (g + g2) + h) + z;
  }
}
