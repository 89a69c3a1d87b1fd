/** Reading back stored data. */
module StoredData {
  // What AddElem and SetData store, read through GetData.

  import opened ElemForest
  import opened ForestEdit
  import opened ForestGraft
  import opened Agreement
  import opened Escape
  import opened References
  import opened Tags
  import opened CData
  import opened EditPlan
  import opened EditFacts
  import opened EditFrame
  import opened Adding
  import opened Placing
  import opened Markup
  import D = ElementData
  import I = Insertion

  /** The value was written without references of its own in it. */
  predicate Plain(flags: NodeFlags) { flags.withCData || !flags.withRefs }

  /** What a stored value is to be read as: itself, or with its references as what they mean. */
  function ReadBack(value: string, flags: NodeFlags, table: map<string, int>): string {
    if Plain(flags) then value else Meant(value, 0, table)
  }

  lemma StoredValueReads(s: string, i: nat, value: string, flags: NodeFlags, table: map<string, int>)
    requires NulFree(s) && NulFree(value) && HasXmlEntities(table) && TextAt(s, i, Stored(value, flags))
    ensures D.ContentData(s, i, i + |Stored(value, flags)|, table) == ReadBack(value, flags, table)
  {
    hide D.ContentData, CDataText, Escaped, Meant, TextAt;
    if Plain(flags) {
      D.StoredReads(s, i, value, flags.withCData, flags.escapeQuotes, table);
    } else {
      KeptReads(s, i, value, flags.escapeQuotes, table);
    }
  }

  lemma KeptReads(s: string, i: nat, value: string, quotes: bool, table: map<string, int>)
    requires NulFree(s) && NulFree(value) && HasXmlEntities(table) && TextAt(s, i, Escaped(value, 0, quotes, true))
    ensures D.ContentData(s, i, i + |Escaped(value, 0, quotes, true)|, table) == Meant(value, 0, table)
  {
    hide D.NodesData, Unescaped, Escaped, Meant;
    var x := Escaped(value, 0, quotes, true);
    EscapedIsInert(value, 0, quotes, true);
    forall k | i <= k < i + |x| ensures s[k] != '<' { CharsAt(s, i, x, k - i); }
    UnescapeKept(value, 0, quotes, s, i, i + |x|, table);
  }

  /** It is read as something else from one character further left, behind a bracket. */
  lemma StoredValueShifted(s: string, i: nat, value: string, flags: NodeFlags, table: map<string, int>)
    requires NulFree(s) && NulFree(value) && HasXmlEntities(table) && 0 < i <= |s| && s[i - 1] == '>' && value != ""
    requires TextAt(s, i, Stored(value, flags))
    ensures D.ContentData(s, i - 1, i - 1 + |Stored(value, flags)|, table) != ReadBack(value, flags, table)
  {
    hide D.ContentData, CDataText, Escaped, Meant, TextAt;
    if Plain(flags) {
      D.StoredShifted(s, i, value, flags.withCData, flags.escapeQuotes, table);
    } else {
      KeptMisread(s, i, value, flags.escapeQuotes, table);
    }
  }

  lemma KeptMisread(s: string, i: nat, value: string, quotes: bool, table: map<string, int>)
    requires NulFree(s) && NulFree(value) && HasXmlEntities(table) && 0 < i <= |s| && s[i - 1] == '>' && value != ""
    requires TextAt(s, i, Escaped(value, 0, quotes, true))
    ensures D.ContentData(s, i - 1, i - 1 + |Escaped(value, 0, quotes, true)|, table) != Meant(value, 0, table)
  {
    hide D.NodesData, Unescaped, Escaped, Meant;
    var x := Escaped(value, 0, quotes, true);
    EscapedIsInert(value, 0, quotes, true);
    forall k | i - 1 <= k < i - 1 + |x| ensures s[k] != '<' {
      if k >= i { CharsAt(s, i, x, k - i); }
    }
    KeptShifted(value, quotes, s, i, i + |x|, table);
  }

  /** An element whose content is a stored value has that value, or what it means, as its data. */
  lemma ContentReads(e: Index, f: Forest, i: nat, value: string, flags: NodeFlags, table: map<string, int>)
    requires Agree(e, f) && i in Ids(f) && Find(f, i).kids == Nil(Stored(value, flags)) && Find(f, i).close != ""
    requires NulFree(Text(f)) && NulFree(value) && HasXmlEntities(table)
    ensures i < |e| && D.DataOf(Text(f), e[i], table) == ReadBack(value, flags, table)
  {
    hide Find, Front, Back, Text, Links, Ring, Distinct, D.ContentData, Stored, ReadBack, NulFree, HasXmlEntities;
    var n := Find(f, i);
    var x := Stored(value, flags);
    NodeInDoc(e, f, i);
    SpanOfNode(e, f, i, 0);
    NodeRecord(e, f, i, 0);
    LeafText(x);
    ContentAt(Text(f), |Front(f, i)|, n.tag, x, n.close);
    StoredValueReads(Text(f), |Front(f, i)| + |n.tag|, value, flags, table);
  }

  /** An empty tag has no data. */
  lemma EmptyReads(e: Index, f: Forest, i: nat, table: map<string, int>)
    requires Agree(e, f) && i in Ids(f) && Find(f, i).kids == Nil("") && Find(f, i).close == "" && NulFree(Text(f))
    ensures i < |e| && D.DataOf(Text(f), e[i], table) == "" && e[i].IsEmptyElement()
  {
    hide Find, Front, Back, Links, Ring, Distinct;
    SpanOfNode(e, f, i, 0);
  }

  // ----------------------------------------------------------------------------- AddElem

  lemma {:induction false} NewTop(k: Forest, b: nat, n: Forest, v: string)
    requires n.Node? && n.kids.Nil? && (b == 0 || b in Tops(k)) && n.id !in Ids(k)
    ensures n.id in Ids(InsertIn(k, b, n, v)) && SameNode(n, Find(InsertIn(k, b, n, v), n.id))
  {
    InsertIds(k, b, n, v);
    if b != 0 { NewTop(k.rest, if k.id == b then 0 else b, n, v); }
  }

  /** The new element of an insertion, found in the new document. */
  lemma NewNode(f: Forest, a: I.Insert)
    requires I.Fits(f, a) && Distinct(f)
    ensures a.n.id in Ids(I.Inserted(f, a)) && SameNode(a.n, Find(I.Inserted(f, a), a.n.id))
  {
    hide Find, Graft, Distinct, InsertIn;
    I.NotInKids(f, a);
    NewTop(KidsOf(f, a.p), a.b, a.n, a.v);
    I.InsertedIds(f, a);
    if a.p != 0 {
      FindInside(f, a.p);
      I.NewKidsFacts(f, a);
      assert FitsBelow(f, a.p, I.NewKids(f, a));
      GraftFind(f, a.p, I.NewParent(f, a));
      BelowNode(I.Inserted(f, a), a.p, a.n.id);
    }
  }

  /** One character too early, the content of an element is misread. */
  lemma ContentMisread(e: Index, f: Forest, i: nat, value: string, flags: NodeFlags, table: map<string, int>)
    requires i < |e| && Agree(Late(e, i, 1), f) && i in Ids(f) && Find(f, i).kids == Nil(Stored(value, flags)) &&
      Find(f, i).close != ""
    requires Find(f, i).tag != "" && Find(f, i).tag[|Find(f, i).tag| - 1] == '>' && value != ""
    requires NulFree(Text(f)) && NulFree(value) && HasXmlEntities(table)
    ensures D.DataOf(Text(f), e[i], table) != ReadBack(value, flags, table)
  {
    hide Find, Front, Back, Text, Links, Ring, Distinct, D.ContentData, Stored, ReadBack, NulFree, HasXmlEntities;
    var n := Find(f, i);
    var x := Stored(value, flags);
    var at := |Front(f, i)| + |n.tag|;
    NodeInDoc(Late(e, i, 1), f, i);
    SpanOfNode(Late(e, i, 1), f, i, 0);
    NodeRecord(Late(e, i, 1), f, i, 0);
    LeafText(x);
    ContentAt(Text(f), |Front(f, i)|, n.tag, x, n.close);
    CharsAt(Text(f), |Front(f, i)|, n.tag + x + n.close, |n.tag| - 1);
    StoredValueShifted(Text(f), at, value, flags, table);
  }

  /**
    A value that was added reads back, unless it is a first child put between two tags
    without line ends: then it never does, but for the empty value.
   */
  lemma AddThenGet(f: Forest, p: nat, rel: nat, insert: bool, i: nat, name: string, value: string, flags: NodeFlags,
                   e': Index, f': Forest, table: map<string, int>)
    requires Added(f, p, rel, insert, flags.withNoLines, NewElem(i, name, value, flags), f') && Distinct(f)
    requires i < |e'| && Agree(Late(e', i, Missing(f, p, flags.withNoLines)), f')
    requires NulFree(Text(f')) && NulFree(value) && HasXmlEntities(table)
    ensures D.DataOf(Text(f'), e'[i], table) == ReadBack(value, flags, table) <==>
      value == "" || Missing(f, p, flags.withNoLines) == 0
  {
    hide Find, I.Inserted, Agree, Distinct, Stored, NulFree, Text, NoContent;
    var n := NewElem(i, name, value, flags);
    var a := Plan(f, p, rel, insert, flags.withNoLines, n);
    var late := Late(e', i, Missing(f, p, flags.withNoLines));
    SamePlanned(f, p, rel, insert, flags.withNoLines, n);
    NewNode(f, a);
    if value == "" {
      EmptyReads(late, f', i, table);
      LateEmpty(late[i], e'[i], Text(f'), table);
    } else if Missing(f, p, flags.withNoLines) == 0 {
      assert late == e';
      ContentReads(e', f', i, value, flags, table);
    } else {
      ContentMisread(e', f', i, value, flags, table);
    }
  }

  /** The element added has the name given: an empty tag without a value, and otherwise a start and an end tag. */
  lemma AddedTags(f: Forest, p: nat, rel: nat, insert: bool, i: nat, name: string, value: string, flags: NodeFlags,
                  f': Forest)
    requires Added(f, p, rel, insert, flags.withNoLines, NewElem(i, name, value, flags), f') && Distinct(f)
    requires IsName(name)
    ensures i in Ids(f') && TagName(Find(f', i).tag) == name
    ensures value == "" ==>
      Find(f', i).close == "" && Find(f', i).tag == "<" + name + if flags.withXhtmlSpace then " />" else "/>"
    ensures value != "" ==> Find(f', i).tag == "<" + name + ">" && Find(f', i).close == "</" + name + ">"
  {
    hide Find, I.Inserted, Distinct, Stored, NoContent, IsName, TagName;
    var n := NewElem(i, name, value, flags);
    SamePlanned(f, p, rel, insert, flags.withNoLines, n);
    NewNode(f, Plan(f, p, rel, insert, flags.withNoLines, n));
    var t := StartTag(name, [], if value == "" && flags.withXhtmlSpace then " " else "", value == "");
    assert TagText(t) == n.tag;
    PlainName(t);
  }

  lemma PlainName(t: StartTag)
    requires IsName(t.name) && t.attrs == [] && IsSpace(t.space)
    ensures TagName(TagText(t)) == t.name
  {
    hide TagText, TagName;
    assert TagText(t)[0..|TagText(t)|] == TagText(t);
    TagNameIs(t, TagText(t), 0);
  }

  lemma LateEmpty(late: ElemPos, p: ElemPos, s: string, table: map<string, int>)
    requires late == p.(start := late.start) && NulFree(s) && late.IsEmptyElement()
    ensures D.DataOf(s, p, table) == ""
  {
  }

  /** So "v" is lost when it is added to "<p></p>" without line ends. */
  lemma AddedUnread(e': Index, f': Forest, table: map<string, int>)
    requires HasXmlEntities(table)
    requires var f := Node("", 1, "<p>", Nil(""), "</p>", Nil(""));
      var flags := NodeFlags(false, true, false, false, false);
      Added(f, 1, 0, false, true, NewElem(2, "a", "v", flags), f') && 2 < |e'| && Agree(Late(e', 2, 1), f') &&
        NulFree(Text(f'))
    ensures D.DataOf(Text(f'), e'[2], table) != "v"
  {
    var f := Node("", 1, "<p>", Nil(""), "</p>", Nil(""));
    var flags := NodeFlags(false, true, false, false, false);
    hide Plan, Agree, Added, NoContent, WellTagged, D.DataOf;
    NoLinesMisses();
    AddThenGet(f, 1, 0, false, 2, "a", "v", flags, e', f', table);
  }

  lemma SamePlanned(f: Forest, p: nat, rel: nat, insert: bool, noLines: bool, n: Forest)
    requires (p == 0 || p in Ids(f)) && n.Node?
    ensures var m := Plan(f, p, rel, insert, noLines, n).n;
      m.Node? && m.id == n.id && m.tag == n.tag && m.kids == n.kids && m.close == n.close
  {
  }

  // ----------------------------------------------------------------------------- SetData

  /** Every value set reads back. */
  lemma SetThenGet(e: Index, f: Forest, i: nat, value: string, flags: NodeFlags, e': Index, table: map<string, int>)
    requires Agree(e, f) && WellTagged(f) && i in Ids(f) && KidsOf(f, i).Nil?
    requires Agree(e', Graft(f, i, Refilled(f, i, Stored(value, flags))))
    requires NulFree(Text(Graft(f, i, Refilled(f, i, Stored(value, flags))))) && NulFree(value) &&
      HasXmlEntities(table)
    ensures i < |e'| && D.DataOf(Text(Graft(f, i, Refilled(f, i, Stored(value, flags)))), e'[i], table)
      == ReadBack(value, flags, table)
  {
    hide Find, Graft, Spans, Links, Ring, Distinct, Stored, NulFree, Text, WellTagged, TagName;
    var n := Refilled(f, i, Stored(value, flags));
    DistinctNoZero(f);
    InPlaceFits(f, i, n.kids);
    GraftFind(f, i, n);
    RefilledTags(f, i, Stored(value, flags));
    RefilledHasEnd(f, i, Stored(value, flags));
    ContentReads(e', Graft(f, i, n), i, value, flags, table);
  }

  lemma RefilledHasEnd(f: Forest, i: nat, content: string)
    requires i in Ids(f)
    ensures Refilled(f, i, content).close != ""
  {
  }
}
