/**
  Offsets in the markup text: where an element stands, what follows it, and what an insertion or
  removal of a piece of text does to the text of the document.
 */
module DocText {
  import opened ElemForest
  import opened ForestEdit
  import opened ForestGraft
  import opened Agreement
  import opened Tags

  const EOL := "\n"

  /** Replace len characters at position at by s. */
  function Splice(doc: string, at: nat, len: nat, s: string): string
    requires at + len <= |doc|
  {
    doc[..at] + s + doc[at + len..]
  }

  lemma SpliceParts(a: string, b: string, c: string, s: string)
    ensures Splice(a + b + c, |a|, |b|, s) == a + s + c
  {
    assert (a + b + c)[..|a|] == a;
    assert (a + b + c)[|a| + |b|..] == c;
  }

  /** The last sibling of the list, 0 if there is none. */
  function LastTop(k: Forest): nat { if k.Nil? then 0 else Last(k.rest, k.id) }

  lemma {:induction false} LastIsTop(k: Forest)
    requires k.Node? && Distinct(k)
    ensures LastTop(k) in Tops(k) && LastTop(k) != 0
    ensures NextAfter(k, LastTop(k)) == 0
    ensures EndOf(k, LastTop(k)) + |GapAfter(k, LastTop(k))| == |Text(k)| && Behind(k, LastTop(k)) == ""
  {
    if k.rest.Node? {
      LastIsTop(k.rest);
      LastRest(k.rest, k.id);
      TopsInIds(k.rest);
    }
  }

  lemma LastRest(k: Forest, before: nat)
    requires k.Node?
    ensures Last(k, before) == LastTop(k)
  {
  }

  /** A record of the list, by the text in front of it. */
  lemma {:induction false} SpanOfTop(e: Index, k: Forest, i: nat, o: int)
    requires i in Tops(k) && Distinct(k) && Spans(e, k, o)
    ensures 0 < i < |e| && e[i].start + e[i].length == o + EndOf(k, i)
    ensures e[i].start == o + EndOf(k, PrevOf(k, i, 0)) + |GapAfter(k, PrevOf(k, i, 0))|
    ensures NodeSpan(e[i], TopNode(k, i), e[i].start)
  {
    DistinctNoZero(k);
    TopsInIds(k.rest);
    if k.id != i {
      SpanOfTop(e, k.rest, i, o + |k.gap| + Width(k));
      PrevInTops(k, i, 0);
      if k.rest.id != i {
        PrevSame(k.rest, i, k.id, 0);
        PrevInTops(k.rest, i, 0);
      }
    }
  }

  // ----------------------------------------------------------------------- what follows a gap

  /** What stands behind the gap after b is a tag or the end of the list. */
  lemma {:induction false} BehindAtTag(k: Forest, b: nat)
    requires WellTagged(k) && (b == 0 || b in Tops(k))
    ensures AtTag(Behind(k, b))
  {
    if b == 0 {
      if k.Node? {
        var t, space :| TagsAre(t, space, k.tag, k.kids, k.close);
        TagTextFacts(t);
      }
    } else {
      BehindAtTag(k.rest, if k.id == b then 0 else b);
    }
  }

  lemma AtTagConcat(a: string, b: string)
    requires AtTag(a) && AtTag(b)
    ensures AtTag(a + b)
  {
    if a == "" { assert a + b == b; }
  }

  /** The text around the children of p: in front of them, and behind them. */
  ghost function Opening(f: Forest, p: nat): string
    requires p == 0 || p in Ids(f)
  {
    if p == 0 then "" else Front(f, p) + Find(f, p).tag
  }

  ghost function Closing(f: Forest, p: nat): string
    requires p == 0 || p in Ids(f)
  {
    if p == 0 then "" else Find(f, p).close + Back(f, p)
  }

  lemma TextAround(f: Forest, p: nat)
    requires p == 0 || p in Ids(f)
    ensures Text(f) == Opening(f, p) + Text(KidsOf(f, p)) + Closing(f, p)
  {
    hide Find, Front, Back;
    if p == 0 {
      assert "" + Text(f) + "" == Text(f);
    } else {
      var n := Find(f, p);
      GraftText(f, p, n);
      Regroup7'(Front(f, p), n.tag, Text(n.kids), n.close, Back(f, p));
    }
  }

  lemma Regroup7'(a: string, t: string, x: string, c: string, b: string)
    ensures a + (t + x + c) + b == (a + t) + x + (c + b)
  {
  }

  /** Behind the children of p stands its end tag, or the end of the text. */
  lemma ClosingAtTag(f: Forest, p: nat)
    requires (p == 0 || p in Ids(f)) && WellTagged(f) && (p != 0 ==> Find(f, p).close != "")
    ensures AtTag(Closing(f, p))
  {
    if p != 0 {
      NodeWellTagged(f, p);
      var n := Find(f, p);
      var t, space :| TagsAre(t, space, n.tag, n.kids, n.close);
      assert Closing(f, p)[0] == n.close[0];
    }
  }

  /** The text after the content offset q of p, when the gap after b begins there. */
  lemma GapInDoc(f: Forest, p: nat, b: nat)
    requires (p == 0 || p in Ids(f)) && WellTagged(f) && (p != 0 ==> Find(f, p).close != "")
    requires b == 0 || b in Tops(KidsOf(f, p))
    ensures var k := KidsOf(f, p);
      var at := |Opening(f, p)| + EndOf(k, b);
      at <= |Text(f)| && Text(f)[at..] == GapAfter(k, b) + (Behind(k, b) + Closing(f, p)) &&
      AtTag(Behind(k, b) + Closing(f, p))
  {
    hide Find, Front, Back, WellTagged;
    var k := KidsOf(f, p);
    TextAround(f, p);
    InsertText(k, b, Node("", 0, "", Nil(""), "", Nil("")), "");
    ClosingAtTag(f, p);
    KidsWellTagged(f, p);
    BehindAtTag(k, b);
    AtTagConcat(Behind(k, b), Closing(f, p));
    Split5(Opening(f, p), Before(k, b), GapAfter(k, b), Behind(k, b), Closing(f, p));
  }

  lemma KidsWellTagged(f: Forest, p: nat)
    requires (p == 0 || p in Ids(f)) && WellTagged(f)
    ensures WellTagged(KidsOf(f, p))
  {
    if p != 0 { NodeWellTagged(f, p); }
  }

  lemma Split5(a: string, b: string, g: string, h: string, z: string)
    ensures (a + (b + g + h) + z)[|a| + |b|..] == g + (h + z)
  {
  }
}
