/** Edits, read again. */
module RereadEdits {
  // Edits keep the gaps of a document clean, so after any run of them parsing finds the document of
  // the index.

  import opened ElemForest
  import opened ForestEdit
  import opened Agreement
  import opened Escape
  import opened Tags
  import opened DocText
  import opened EditPlan
  import opened EditKeeps
  import opened Placing
  import opened Retagging
  import opened Removing
  import opened CData
  import opened ParseSteps
  import opened Reading
  import opened CleanText
  import opened Rereading
  import opened CleanNodes
  import opened ReadsBack
  import opened Promotion
  import opened OpenElements
  import opened Markup
  import N = Nodes
  import I = Insertion
  import R = Removal

  // ----------------------------------------------------------------------------- lists

  lemma {:induction false} GapAfterClean(k: Forest, b: nat)
    requires CleanGaps(k)
    ensures Clean(GapAfter(k, b))
  {
    hide Clean;
    if b != 0 && k.Node? && k.id != b { GapAfterClean(k.rest, b); }
  }

  lemma SetGapClean(k: Forest, g: string)
    requires CleanGaps(k) && Clean(g)
    ensures CleanGaps(SetGap(k, g))
  {
    hide Clean;
  }

  lemma {:induction false} InsertClean(k: Forest, b: nat, n: Forest, v: string)
    requires n.Node? && CleanGaps(k) && Clean(n.gap) && CleanGaps(n.kids) && Clean(v)
    ensures CleanGaps(InsertIn(k, b, n, v))
  {
    hide Clean;
    if b == 0 || k.Nil? { SetGapClean(k, v); } else { InsertClean(k.rest, if k.id == b then 0 else b, n, v); }
  }

  lemma {:induction false} RemoveClean(k: Forest, i: nat, g: string)
    requires CleanGaps(k) && Clean(g)
    ensures CleanGaps(RemoveIn(k, i, g))
  {
    hide Clean;
    if k.Node? {
      if k.id == i { SetGapClean(k.rest, g); } else { RemoveClean(k.rest, i, g); }
    }
  }

  lemma {:induction false} GraftClean(f: Forest, p: nat, n: Forest)
    requires n.Node? && CleanGaps(f) && CleanGaps(n.kids)
    ensures CleanGaps(Graft(f, p, n)) && TopCount(Graft(f, p, n)) == TopCount(f)
  {
    hide Clean;
    if f.Node? && f.id != p {
      if p in Ids(f.kids) { GraftClean(f.kids, p, n); } else { GraftClean(f.rest, p, n); }
    }
  }

  lemma {:induction false} FindClean(f: Forest, i: nat)
    requires CleanGaps(f) && i in Ids(f)
    ensures CleanGaps(Find(f, i).kids)
  {
    hide Clean;
    if f.id != i {
      if i in Ids(f.kids) { FindClean(f.kids, i); } else { FindClean(f.rest, i); }
    }
  }

  lemma KidsClean(f: Forest, p: nat)
    requires CleanGaps(f) && (p == 0 || p in Ids(f))
    ensures CleanGaps(KidsOf(f, p))
  {
    if p != 0 { FindClean(f, p); }
  }

  lemma {:induction false} TopNodeClean(k: Forest, i: nat)
    requires CleanGaps(k) && i in Tops(k)
    ensures Clean(TopNode(k, i).gap) && Clean(TopNode(k, i).rest.gap)
  {
    hide Clean;
    if k.id != i { TopNodeClean(k.rest, i); }
  }

  // ----------------------------------------------------------------------------- edits

  lemma EolClean(noLines: bool)
    ensures Clean(LineEnd(noLines)) && Clean(EOL)
  {
    NoTagIsClean(LineEnd(noLines));
    NoTagIsClean(EOL);
  }

  /** Both parts of a gap that an element is put in. */
  lemma CutClean(g: string, rel: nat, insert: bool, noLines: bool)
    requires Clean(g)
    ensures Clean(g[..Cut(g, rel, insert, noLines)]) && Clean(g[Cut(g, rel, insert, noLines)..])
  {
    hide Clean;
    var c := Cut(g, rel, insert, noLines);
    if (rel != 0) == insert {
      assert g[..c] == g && g[c..] == "";
      NoTagIsClean("");
    } else {
      forall k | 0 <= k < c ensures g[k] != '<' { assert IsWhitespace(g[..LeadingSpace(g)][k]); }
      NoTagIsClean(g[..c]);
      CleanSuffix(g, c);
    }
  }

  lemma PlanClean(f: Forest, p: nat, rel: nat, insert: bool, noLines: bool, n: Forest)
    requires CleanGaps(f) && (p == 0 || p in Ids(f)) && n.Node?
    ensures var a := Plan(f, p, rel, insert, noLines, n); a.n.Node? && Clean(a.n.gap) && Clean(a.v)
  {
    hide Clean, TagCut, NoContent;
    var k := KidsOf(f, p);
    var g := GapAfter(k, Predecessor(k, rel, insert));
    KidsClean(f, p);
    GapAfterClean(k, Predecessor(k, rel, insert));
    CutClean(g, rel, insert, noLines);
    EolClean(noLines);
    CleanConcat(LineEnd(noLines), g[Cut(g, rel, insert, noLines)..]);
  }

  lemma AddedClean(f: Forest, p: nat, rel: nat, insert: bool, noLines: bool, n: Forest, f': Forest)
    requires Added(f, p, rel, insert, noLines, n, f') && CleanGaps(f) && CleanGaps(n.kids)
    ensures CleanGaps(f') && (p != 0 ==> TopCount(f') == TopCount(f))
  {
    hide Clean, Plan, CleanGaps;
    var a := Plan(f, p, rel, insert, noLines, n);
    PlanClean(f, p, rel, insert, noLines, n);
    KidsClean(f, p);
    PlanIs(f, p, rel, insert, noLines, n);
    InsertClean(KidsOf(f, p), a.b, a.n, a.v);
    if p != 0 { GraftClean(f, p, I.NewParent(f, a)); }
  }

  lemma PlanIs(f: Forest, p: nat, rel: nat, insert: bool, noLines: bool, n: Forest)
    requires (p == 0 || p in Ids(f)) && n.Node?
    ensures var a := Plan(f, p, rel, insert, noLines, n); a.p == p && a.n.Node? && a.n.kids == n.kids
  {
  }

  lemma NewElemClean(i: nat, name: string, value: string, flags: NodeFlags)
    requires NulFree(value)
    ensures CleanGaps(NewElem(i, name, value, flags).kids)
  {
    hide Clean;
    StoredIsClean(value, flags.withCData, flags.escapeQuotes, flags.withRefs);
    NoTagIsClean("");
  }

  lemma RemovedClean(f: Forest, p: nat, i: nat, f': Forest, dead: seq<nat>, dead': seq<nat>)
    requires Removed(f, p, i, f', dead, dead') && CleanGaps(f)
    ensures CleanGaps(f') && (p != 0 ==> TopCount(f') == TopCount(f))
  {
    hide Clean, CleanGaps, TagCut, Gone;
    var t := TopNode(KidsOf(f, p), i);
    KidsClean(f, p);
    TopNodeClean(KidsOf(f, p), i);
    var g := t.rest.gap;
    BehindSpaceClean(g);
    CleanConcat(t.gap, g[TagCut(g)..]);
    RemoveClean(KidsOf(f, p), i, PlanRemove(f, p, i).g);
    if p != 0 { GraftClean(f, p, R.LeftParent(f, PlanRemove(f, p, i))); }
  }

  lemma BehindSpaceClean(g: string)
    requires Clean(g)
    ensures Clean(g[TagCut(g)..])
  {
    hide Clean;
    forall k | 0 <= k < TagCut(g) ensures g[k] != '<' { assert IsWhitespace(g[..LeadingSpace(g)][k]); }
    CleanSuffix(g, TagCut(g));
  }

  // ------------------------------------------------------------------------------- runs

  /** f' is f after AddElem or AddChildElem, RemoveElem or RemoveChildElem, SetData, or SetAttrib. */
  ghost predicate Edited(f: Forest, f': Forest) {
    (exists p, rel, insert, i, name, value, flags: NodeFlags ::
       NulFree(value) && Added(f, p, rel, insert, flags.withNoLines, NewElem(i, name, value, flags), f')) ||
    (exists p, i, dead, dead' :: Removed(f, p, i, f', dead, dead')) ||
    (exists i, value, flags :: NulFree(value) && DataSet(f, i, value, flags, f')) ||
    (exists i, name, v :: AttribSet(f, i, name, v, f'))
  }

  ghost predicate DataSet(f: Forest, i: nat, value: string, flags: NodeFlags, f': Forest) {
    i in Ids(f) && f' == Graft(f, i, Refilled(f, i, Stored(value, flags)))
  }

  lemma DataSetClean(f: Forest, i: nat, value: string, flags: NodeFlags, f': Forest)
    requires DataSet(f, i, value, flags, f') && NulFree(value) && CleanGaps(f)
    ensures CleanGaps(f') && TopCount(f') == TopCount(f)
  {
    hide Clean;
    StoredIsClean(value, flags.withCData, flags.escapeQuotes, flags.withRefs);
    GraftClean(f, i, Refilled(f, i, Stored(value, flags)));
  }

  lemma EditedClean(f: Forest, f': Forest)
    requires Edited(f, f') && CleanGaps(f)
    ensures CleanGaps(f')
  {
    hide CleanGaps, Added, Removed, DataSet, AttribSet;
    if p, rel, insert, i, name, value, flags: NodeFlags :|
       NulFree(value) && Added(f, p, rel, insert, flags.withNoLines, NewElem(i, name, value, flags), f') {
      NewElemClean(i, name, value, flags);
      AddedClean(f, p, rel, insert, flags.withNoLines, NewElem(i, name, value, flags), f');
    } else if p, i, dead, dead' :| Removed(f, p, i, f', dead, dead') {
      RemovedClean(f, p, i, f', dead, dead');
    } else if i, value, flags :| NulFree(value) && DataSet(f, i, value, flags, f') {
      DataSetClean(f, i, value, flags, f');
    } else {
      var i, name, v :| AttribSet(f, i, name, v, f');
      RetagClean(f, i, name, v, f');
    }
  }

  lemma RetagClean(f: Forest, i: nat, name: string, v: string, f': Forest)
    requires AttribSet(f, i, name, v, f') && CleanGaps(f)
    ensures CleanGaps(f') && TopCount(f') == TopCount(f)
  {
    FindClean(f, i);
    GraftClean(f, i, Retag(f, i, name, v));
  }

  ghost predicate EditRun(fs: seq<Forest>) { forall k :: 0 < k < |fs| ==> Edited(fs[k - 1], fs[k]) }

  lemma {:induction false} RunClean(fs: seq<Forest>)
    requires fs != [] && EditRun(fs) && CleanGaps(fs[0])
    ensures CleanGaps(fs[|fs| - 1])
    decreases |fs|
  {
    hide CleanGaps, Edited;
    if |fs| > 1 {
      var front := fs[..|fs| - 1];
      assert EditRun(front) by { forall k | 0 < k < |front| ensures Edited(front[k - 1], front[k]) {} }
      RunClean(front);
      EditedClean(fs[|fs| - 2], fs[|fs| - 1]);
    }
  }

  /**
    After any run of edits, parsing the text finds the document that the index stands for, unless the
    text begins with a nameless instruction; then it does so exactly if the front is read as text.
   */
  lemma RunRereads(fs: seq<Forest>, e: Index, head: nat, dead: seq<nat>)
    requires fs != [] && EditRun(fs) && CleanGaps(fs[0])
    requires var f := fs[|fs| - 1]; Indexed(e, f, head, dead) && NulFree(Text(f))
    ensures var f := fs[|fs| - 1];
      (Document(Text(f)) == Renumbered(f, 1) <==> FrontReads(f, false)) &&
      (FrontReads(f, false) ==> (WellFormed(Text(f)) <==> TopCount(f) == 1 && FrontReads(f, true))) &&
      (!BareFront(Text(f)) ==> FrontReads(f, false) && FrontReads(f, true))
  {
    hide CleanGaps, EditRun, Agree, Pooled, FrontReads, Document, WellFormed, WellTagged, BareFront;
    RunClean(fs);
    ReadsFromFront(fs[|fs| - 1]);
  }

  /**
    When the document was parsed from a well-formed text, parsing finds it after any run of edits
    exactly if all its gaps are read as text; only the front matters if the text parsed did not
    begin with a nameless instruction, and nothing does if the text now does not either.
   */
  lemma ParsedThenEdited(s: string, fs: seq<Forest>, e: Index, head: nat, dead: seq<nat>)
    requires NulFree(s) && WellFormed(s) && fs != [] && fs[0] == Document(s) && EditRun(fs)
    requires var f := fs[|fs| - 1]; Indexed(e, f, head, dead) && NulFree(Text(f))
    ensures var f := fs[|fs| - 1];
      (Document(Text(f)) == Renumbered(f, 1) <==> GapsRead(Text(f), 0, f, [], false)) &&
      (!BareFront(s) ==> (GapsRead(Text(f), 0, f, [], false) <==> FrontReads(f, false))) &&
      (!BareFront(s) && !BareFront(Text(f)) ==>
         GapsRead(Text(f), 0, f, [], false) && (WellFormed(Text(f)) <==> TopCount(f) == 1))
  {
    hide CleanGaps, EditRun, Indexed, Document, BareFront, WellFormed, GapsRead, FrontReads;
    var f := fs[|fs| - 1];
    IndexedParts(e, f, head, dead);
    ReadsBackIff(f);
    if !BareFront(s) {
      ParsedClean(s);
      RunRereads(fs, e, head, dead);
    }
  }

  // --------------------------------------------------------------------- the same index

  /** The records of f in the order of the text. */
  function Order(f: Forest): seq<nat> {
    if f.Nil? then [] else [f.id] + Order(f.kids) + Order(f.rest)
  }

  lemma {:induction false} OrderCount(f: Forest)
    ensures |Order(f)| == Count(f)
  {
    if f.Node? {
      OrderCount(f.kids);
      OrderCount(f.rest);
    }
  }

  lemma {:induction false} SameOffset(e: Index, f: Forest, e': Index, n: nat, o: int, k: nat)
    requires Spans(e, f, o) && Spans(e', Renumbered(f, n), o) && k < |Order(f)|
    ensures Order(f)[k] < |e| && n + k < |e'| && SameSpan(e[Order(f)[k]], e'[n + k], 0)
    decreases f
  {
    SpansParts(e, f, e', n, o);
    hide Spans, Renumbered, SameSpan, Order, Count, Width;
    OrderCount(f.kids);
    OrderCount(f.rest);
    OrderParts(f);
    var c := Count(f.kids);
    if 0 < k <= c {
      SameOffset(e, f.kids, e', n + 1, o + |f.gap| + |f.tag|, k - 1);
    } else if k > 0 {
      SameOffset(e, f.rest, e', n + 1 + c, o + |f.gap| + Width(f), k - 1 - c);
    }
  }

  /** Where the records of f are in the new numbering, offsets and lengths are the same. */
  lemma {:induction false} SameOffsets(e: Index, f: Forest, e': Index, n: nat, o: int)
    requires Spans(e, f, o) && Spans(e', Renumbered(f, n), o)
    ensures |Order(f)| == Count(f)
    ensures forall k :: 0 <= k < Count(f) ==>
      Order(f)[k] < |e| && n + k < |e'| && SameSpan(e[Order(f)[k]], e'[n + k], 0)
  {
    hide Spans, Renumbered, SameSpan, Order, Count;
    OrderCount(f);
    forall k | 0 <= k < Count(f)
      ensures Order(f)[k] < |e| && n + k < |e'| && SameSpan(e[Order(f)[k]], e'[n + k], 0)
    {
      SameOffset(e, f, e', n, o, k);
    }
  }

  lemma {:induction false} OrderParts(f: Forest)
    requires f.Node? && |Order(f.kids)| == Count(f.kids) && |Order(f.rest)| == Count(f.rest)
    ensures |Order(f)| == Count(f) == 1 + Count(f.kids) + Count(f.rest) && Order(f)[0] == f.id
    ensures forall k :: 0 < k <= Count(f.kids) ==> Order(f)[k] == Order(f.kids)[k - 1]
    ensures forall k :: Count(f.kids) < k < Count(f) ==> Order(f)[k] == Order(f.rest)[k - 1 - Count(f.kids)]
  {
    OrderIs(f);
    hide Order, Count;
    Joined(f.id, Order(f.kids), Order(f.rest));
  }

  lemma {:induction false} OrderIs(f: Forest)
    requires f.Node?
    ensures Order(f) == [f.id] + Order(f.kids) + Order(f.rest) && Count(f) == 1 + Count(f.kids) + Count(f.rest)
  {
  }

  lemma Joined<T>(h: T, a: seq<T>, b: seq<T>)
    ensures var x := [h] + a + b;
      |x| == 1 + |a| + |b| && x[0] == h && (forall k :: 0 < k <= |a| ==> x[k] == a[k - 1]) &&
      forall k :: |a| < k < |x| ==> x[k] == b[k - 1 - |a|]
  {
  }

  lemma {:induction false} SpansParts(e: Index, f: Forest, e': Index, n: nat, o: int)
    requires f.Node? && Spans(e, f, o) && Spans(e', Renumbered(f, n), o)
    ensures f.id < |e| && n < |e'| && SameSpan(e[f.id], e'[n], 0)
    ensures Spans(e, f.kids, o + |f.gap| + |f.tag|) && Spans(e', Renumbered(f.kids, n + 1), o + |f.gap| + |f.tag|)
    ensures Spans(e, f.rest, o + |f.gap| + Width(f)) &&
      Spans(e', Renumbered(f.rest, n + 1 + Count(f.kids)), o + |f.gap| + Width(f))
  {
    SameText(f.kids, n + 1);
  }

  lemma {:induction false} RenumberedTags(f: Forest, n: nat)
    requires WellTagged(f)
    ensures WellTagged(Renumbered(f, n))
  {
    if f.Node? {
      RenumberedTags(f.kids, n + 1);
      RenumberedTags(f.rest, n + 1 + Count(f.kids));
      var t, space :| TagsAre(t, space, f.tag, f.kids, f.close);
      assert TagsAre(t, space, f.tag, Renumbered(f.kids, n + 1), f.close);
    }
  }

  lemma {:induction false} RenumberedClean(f: Forest, n: nat)
    requires CleanGaps(f)
    ensures CleanGaps(Renumbered(f, n))
  {
    hide Clean;
    if f.Node? {
      RenumberedClean(f.kids, n + 1);
      RenumberedClean(f.rest, n + 1 + Count(f.kids));
    }
  }

  lemma {:induction false} RenumberedIds(f: Forest, n: nat)
    ensures forall j :: j in Ids(Renumbered(f, n)) <==> n <= j < n + Count(f)
  {
    if f.Node? {
      RenumberedIds(f.kids, n + 1);
      RenumberedIds(f.rest, n + 1 + Count(f.kids));
    }
  }

  /** How many records are in use when they are numbered from 1 on. */
  lemma RecordsCounted(e: Index, f: Forest)
    requires |e| > 0 && forall j: nat :: j in Ids(Renumbered(f, 1)) <==> 0 < j < |e|
    ensures |e| == 1 + Count(f)
  {
    RenumberedIds(f, 1);
    var past, last: nat := Count(f) + 1, |e|;
    assert past in Ids(Renumbered(f, 1)) <==> 0 < past < |e|;
    assert last in Ids(Renumbered(f, 1)) <==> 0 < last < |e|;
  }

  /**
    Giving a document its own text anew changes nothing but the numbers of the records, exactly if
    its gaps are read as text.
   */
  method Reparse(m: CMarkup) returns (ok: bool)
    requires m.Valid()
    modifies m
    ensures m.doc == old(m.doc)
    ensures m.forest == Renumbered(old(m.forest), 1) <==> GapsRead(m.doc, 0, old(m.forest), [], false)
    ensures GapsRead(m.doc, 0, old(m.forest), [], true) ==>
      m.forest == Renumbered(old(m.forest), 1) && (ok <==> TopCount(old(m.forest)) == 1) && (ok ==> m.Valid())
    ensures |Order(old(m.forest))| == Count(old(m.forest))
    ensures m.forest == Renumbered(old(m.forest), 1) ==>
      |m.elem| == 1 + Count(old(m.forest)) &&
      forall k :: 0 <= k < Count(old(m.forest)) ==>
        Order(old(m.forest))[k] < |old(m.elem)| && SameSpan(old(m.elem)[Order(old(m.forest))[k]], m.elem[1 + k], 0)
  {
    hide GapsRead, WellTagged, Spans, Links, Distinct, Ring, Text, Document, WellFormed, Renumbered, Order, Pooled,
      Virtual;
    ghost var f, e := m.forest, m.elem;
    ReadsBackIff(f);
    OrderCounted(f);
    if GapsRead(Text(f), 0, f, [], true) {
      ReadAgain(f, true);
      GapsPlain(Text(f), 0, f, [], false);
      RenumberedTags(f, 1);
    }
    ok := m.ParseDoc();
    if m.forest == Renumbered(f, 1) {
      RecordsCounted(m.elem, f);
      SameOffsets(e, f, m.elem, 1, 0);
    }
  }

  lemma {:induction false} OrderCounted(f: Forest)
    ensures |Order(f)| == Count(f)
  {
    if f.Node? {
      OrderCounted(f.kids);
      OrderCounted(f.rest);
    }
  }

  // ------------------------------------------------------------- a nameless instruction moves

  /** Removing an element can bring a nameless instruction to the front, where it swallows the next one. */
  lemma NamelessMoves()
    ensures WellFormed("<a/><?>") && Document("<a/><?>") == AloneDoc()
    ensures EditRun([AloneDoc(), Nil("<?>"), MovedDoc()]) && Text(MovedDoc()) == "<?><b/>"
    ensures !WellFormed("<?><b/>") && Document("<?><b/>") == Nil("<?><b/>")
  {
    hide Document, WellFormed, EditRun, Text, AloneDoc, MovedDoc;
    AloneParses();
    MovesAlong();
    MovedText();
    MovedParses();
  }

  function AloneDoc(): Forest { Node("", 1, "<a/>", Nil(""), "", Nil("<?>")) }

  function MovedDoc(): Forest { Node("<?>", 2, "<b/>", Nil(""), "", Nil("")) }

  lemma NamelessIsClean()
    ensures Clean("<?>") && Clean("")
  {
    hide Clean, Section, N.NodeAt;
    NoTagIsClean("");
    BareElsewhere(" <?>", 1, 0, -1);
    assert " <?>"[1..4] == "<?>";
    NodeIsSection(" <?>", 1, 0, -1);
    SectionIsClean("<?>");
  }

  lemma AloneParses()
    ensures Document("<a/><?>") == AloneDoc() && WellFormed("<a/><?>")
  {
    hide Document, WellFormed, CleanGaps, AloneDoc, WellTagged, Renumbered, TopCount, BareFront, FrontReads, Text;
    AloneIs();
    AloneText();
    ReadsFromFront(AloneDoc());
  }

  lemma AloneIs()
    ensures var f := AloneDoc(); WellTagged(f) && CleanGaps(f) && Renumbered(f, 1) == f && TopCount(f) == 1
  {
    hide Clean;
    var t := StartTag("a", [], "", true);
    assert TagsAre(t, "", "<a/>", Nil(""), "");
    NamelessIsClean();
  }

  lemma AloneText()
    ensures Text(AloneDoc()) == "<a/><?>" && !BareFront("<a/><?>")
  {
  }

  lemma MovesAlong()
    ensures EditRun([AloneDoc(), Nil("<?>"), MovedDoc()])
  {
    TakenOut();
    PutBehind();
  }

  lemma TakenOut()
    ensures Edited(AloneDoc(), Nil("<?>"))
  {
    var f := AloneDoc();
    assert KidsOf(f, 0) == f && TopNode(f, 1) == f && 1 in Tops(f);
    assert "<?>"[TagCut("<?>")..] == "<?>" && "" + "<?>" == "<?>";
    assert Removed(f, 0, 1, Nil("<?>"), [], Gone(f, 0, 1) + []);
  }

  lemma PutBehind()
    ensures Edited(Nil("<?>"), MovedDoc())
  {
    var f, flags := Nil("<?>"), NodeFlags(false, true, false, false, false);
    var n := NewElem(2, "b", "", flags);
    assert n == Node("", 2, "<b/>", Nil(""), "", Nil("")) by { assert "<" + "b" + "/>" == "<b/>"; }
    var a := Plan(f, 0, 0, false, true, n);
    assert a == I.Insert(0, 0, n.(gap := "<?>"), "", "", "") by { assert "<?>"[..3] == "<?>" && "" + "<?>"[3..] == ""; }
    assert I.Inserted(f, a) == MovedDoc();
    assert Added(f, 0, 0, false, flags.withNoLines, n, MovedDoc());
  }

  lemma MovedText()
    ensures Text(MovedDoc()) == "<?><b/>"
  {
  }

  lemma MovedParses()
    ensures !WellFormed("<?><b/>") && Document("<?><b/>") == Nil("<?><b/>")
  {
    hide N.NodeAt, N.Run;
    var s := "<?><b/>";
    BadMoved();
    var n := N.NodeAt(s, 0, 0, -1);
    CheckNode(s, 0, 0, -1, [], 0, n);
    assert s[0..7] == s;
    AtTheEnd(s, n.nameL, n.nameR);
    var o := Bottom(Nil(""));
    assert ReadNode(o, 1, s, n) == Bottom(Nil(s)) by { assert "" + s == s; }
  }

  /** It is one bad node. */
  lemma BadMoved()
    ensures var n := N.NodeAt("<?><b/>", 0, 0, -1); n.kind == N.BAD_NODE && n.start == 0 && n.next == 7
  {
    hide N.NodeAt, N.Run;
    var s := "<?><b/>";
    NoSecondMark();
    BareAtFront(s, 0, -1);
    StartsThere(s, 0, 0, -1);
    N.RunProgress(s, 0, 0, N.Initial(0, -1));
  }

  lemma StartsThere(s: string, at: nat, l: int, r: int)
    ensures N.NodeAt(s, at, l, r) == N.Run(s, at, at, N.Initial(l, r)) && N.Live(at, at, N.Initial(l, r))
  {
  }

  lemma NoSecondMark()
    ensures StrStr("<?><b/>", 3, "?>") == 7
  {
    var s := "<?><b/>";
    forall k | 3 <= k < 7 ensures !TextAt(s, k, "?>") {
      if k < 6 { EndThere(s, k); }
    }
  }
}
