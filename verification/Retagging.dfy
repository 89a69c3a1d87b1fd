/**
  Setting an attribute of an element: the start tag and the document that result, and what is
  read back afterwards.
 */
module Retagging {
  import opened ElemForest
  import opened AdjustWalk
  import opened ForestEdit
  import opened ForestGraft
  import opened Agreement
  import opened Escape
  import opened References
  import opened Tags
  import opened Attribs
  import opened EditPlan
  import opened EditFacts
  import opened EditKeeps
  import opened EditFrame
  import opened Adding
  import opened Changing

  /** The element i with the attribute set in its start tag. */
  ghost function Retag(f: Forest, i: nat, name: string, v: string): (n: Forest)
    requires i in Ids(f)
    ensures n.Node? && n.kids == Find(f, i).kids
  {
    Node("", i, SetAttribText(Find(f, i).tag, 1, name, v), Find(f, i).kids, Find(f, i).close, Nil(""))
  }

  ghost predicate AttribSet(f: Forest, i: nat, name: string, v: string, f': Forest) {
    i in Ids(f) && f' == Graft(f, i, Retag(f, i, name, v))
  }

  /**
    GetAttrib of that attribute gives the value, with the references in it as what they mean if they were kept,
    whatever entities are known beside the five of XML.
   */
  ghost predicate ReadsBack(doc: string, e: Index, i: nat, name: string, value: string, refs: bool) {
    i < |e| && e[i].start >= 0 &&
    forall table: map<string, int> :: HasXmlEntities(table) ==>
      ReadAttrib(doc, e[i].start, name, table) == if refs then Meant(value, 0, table) else value
  }

  lemma SetThenReadKept(s: string, i: nat, t: StartTag, name: string, value: string, table: map<string, int>)
    requires TagOk(t) && IsPlainName(name) && HasXmlEntities(table) && IsInert(Escaped(value, 0, true, true))
    requires TextAt(s, i, TagText(SetIn(t, name, Escaped(value, 0, true, true))))
    ensures ReadAttrib(s, i, name, table) == Meant(value, 0, table)
  {
    hide ReadAttrib, TagText, Escaped, Unescaped, Meant;
    var v := Escaped(value, 0, true, true);
    var l := SetIsRead(s, i, t, name, v, table);
    UnescapeKept(value, 0, true, s, l, l + |v|, table);
  }

  /** In the tag taken by itself. */
  lemma SetsInTagAlone(t: StartTag, name: string, v: string)
    requires TagOk(t) && IsPlainName(name)
    ensures SetAttribText(TagText(t), 1, name, v) == TagText(SetIn(t, name, v))
  {
    hide SetAttribText, TagText, SetIn;
    SetsInTag("", t, "", name, v);
    assert "" + TagText(t) + "" == TagText(t);
    assert "" + TagText(SetIn(t, name, v)) + "" == TagText(SetIn(t, name, v));
  }

  lemma RetagTags(f: Forest, i: nat, name: string, v: string)
    requires WellTagged(f) && i in Ids(f) && IsPlainName(name) && IsInert(v)
    ensures var n := Retag(f, i, name, v); TagsMatch(n.tag, n.kids, n.close) && |n.tag| > 0
  {
    hide Find, WellTagged, SetAttribText, SetIn, TagText, TagOk;
    NodeWellTagged(f, i);
    var m := Find(f, i);
    var t, space :| TagsAre(t, space, m.tag, m.kids, m.close);
    SetsInTagAlone(t, name, v);
    SetInOk(t, name, v);
    TagTextFacts(SetIn(t, name, v));
    assert TagsAre(SetIn(t, name, v), space, TagText(SetIn(t, name, v)), m.kids, m.close);
  }

  /** The document with the attribute set in its text is the one with the element retagged. */
  lemma RetagDoc(e: Index, f: Forest, i: nat, name: string, v: string)
    requires Agree(e, f) && WellTagged(f) && i in Ids(f) && IsPlainName(name) && IsInert(v)
    ensures i < |e| && e[i].start >= 0 && e[i].start + 1 <= |Text(f)|
    ensures Text(Graft(f, i, Retag(f, i, name, v))) == SetAttribText(Text(f), e[i].start + 1, name, v)
    ensures match Lookup(Text(f), e[i].start + 1, name)
      case At(l, r, q) => q && 1 <= l <= r < |Text(f)| case Absent(at) => at <= |Text(f)|
    ensures TextAt(Text(Graft(f, i, Retag(f, i, name, v))), e[i].start, Retag(f, i, name, v).tag)
  {
    hide Find, Front, Back, Graft, Spans, Links, Ring, Distinct, Text, TagText, SetAttribText, SetIn, WellTagged,
      Search;
    var t := ParentTag(e, f, i);
    var m := Find(f, i);
    LookupBounds(Text(f), e[i].start, t, name);
    TagTextFacts(t);
    GraftText(f, i, Retag(f, i, name, v));
    SetsInTagAlone(t, name, v);
    AroundTag(Front(f, i), m.tag, Text(m.kids), m.close, Back(f, i));
    AroundTag(Front(f, i), TagText(SetIn(t, name, v)), Text(m.kids), m.close, Back(f, i));
    SetsInTag(Front(f, i), t, Text(m.kids) + m.close + Back(f, i), name, v);
    InMiddle(Front(f, i), TagText(SetIn(t, name, v)), Text(m.kids), m.close, Back(f, i));
  }

  lemma AroundTag(a: string, t: string, x: string, c: string, b: string)
    ensures a + (t + x + c) + b == a + t + (x + c + b)
  {
  }

  lemma RetagReadsBack(e: Index, e': Index, f: Forest, i: nat, name: string, value: string, refs: bool)
    requires Agree(e, f) && WellTagged(f) && i in Ids(f) && IsPlainName(name) && NulFree(value)
    requires i < |e| <= |e'| && e'[i].start == e[i].start
    ensures ReadsBack(Text(Graft(f, i, Retag(f, i, name, Escaped(value, 0, true, refs)))), e', i, name, value, refs)
  {
    hide Find, Graft, Spans, Links, Ring, Distinct, Text, TagText, SetAttribText, SetIn, WellTagged, ReadAttrib,
      HasXmlEntities, Escaped, Meant;
    var v := Escaped(value, 0, true, refs);
    EscapedIsInert(value, 0, true, refs);
    RetagDoc(e, f, i, name, v);
    var t := ParentTag(e, f, i);
    SetsInTagAlone(t, name, v);
    var s := Text(Graft(f, i, Retag(f, i, name, v)));
    forall table: map<string, int> | HasXmlEntities(table)
      ensures ReadAttrib(s, e[i].start, name, table) == if refs then Meant(value, 0, table) else value
    {
      if refs {
        SetThenReadKept(s, e[i].start, t, name, value, table);
      } else {
        SetThenRead(s, e[i].start, t, name, value, table);
      }
    }
  }

  lemma RetagIndexed(e: Index, f: Forest, i: nat, name: string, v: string, d: int, head: nat, dead: seq<nat>)
    requires Indexed(e, f, head, dead) && i in Ids(f) && IsPlainName(name) && IsInert(v) && i < |e|
    requires d == |Text(Graft(f, i, Retag(f, i, name, v)))| - |Text(f)|
    ensures var n := Retag(f, i, name, v);
      var e1 := e[i := e[i].(startTagLen := e[i].startTagLen + d, length := e[i].length + d)];
      Walkable(e1, f, i) && |Adjusted(e1, f, i, d, false)| == |e| &&
        Indexed(Adjusted(e1, f, i, d, false), Graft(f, i, n), head, dead) &&
      Adjusted(e1, f, i, d, false)[i].start == e[i].start
  {
    hide Agree, Spans, Distinct, TagsMatch, Pooled, Adjusted, Links, Ring, Virtual, Find, Graft, WellTagged,
      IsEmptyTag, SetAttribText,
      Walkable;
    var n := Retag(f, i, name, v);
    var e1 := e[i := e[i].(startTagLen := e[i].startTagLen + d, length := e[i].length + d)];
    AgreeDistinct(e, f);
    ParentFacts(e, f, i);
    RetagTags(f, i, name, v);
    GraftLength(f, i, n);
    ChangeIndexed(e, e1, f, i, n, d, head, dead);
    RetaggedWalkable(e, e1, f, i, n);
    AdjustedElsewhere(e1, f, i, d, false, e1[i]);
  }

  lemma PlacedRetag(e: Index, f: Forest, i: nat, name: string, v: string, posParent: nat, pos: nat, posChild: nat,
    head: nat, dead: seq<nat>)
    requires Indexed(e, f, head, dead) && i in Ids(f) && Placed(f, posParent, pos, posChild)
    ensures Placed(Graft(f, i, Retag(f, i, name, v)), posParent, pos, posChild)
  {
    hide Find, Graft, Placed, Pooled, Ended, WellTagged, SetAttribText;
    AgreeDistinct(e, f);
    PlacedInPlace(f, i, Retag(f, i, name, v), posParent, pos, posChild);
  }
}
