/**
  CMarkup: the markup text and the element index over it, edited together. Methods follow the
  source's functions; ghost parameters name the part of the document they work on.
 */
module Markup {
  import opened ElemForest
  import opened AdjustWalk
  import opened ReleaseWalk
  import opened ForestEdit
  import opened ForestGraft
  import opened SiblingLinks
  import opened Agreement
  import opened Escape
  import opened Tags
  import opened Attribs
  import opened Token
  import opened DocText
  import opened EditPlan
  import opened EditFacts
  import opened EditKeeps
  import opened EditFrame
  import opened Adding
  import opened Placing
  import opened Changing
  import opened Removing
  import opened Retagging
  import opened CData
  import opened Parsing
  import opened OpenElements
  import opened ParseRings
  import opened ParseSteps
  import opened Reading
  import opened Promotion
  import D = ElementData
  import N = Nodes
  import I = Insertion
  import R = Removal

  /** The flags of AddElem and SetData. */
  datatype NodeFlags = NodeFlags(
    withCData: bool, withNoLines: bool, withXhtmlSpace: bool, withRefs: bool, escapeQuotes: bool)

  /** How a value is written. */
  function Stored(value: string, flags: NodeFlags): string {
    if flags.withCData then CDataText(value) else Escaped(value, 0, flags.escapeQuotes, flags.withRefs)
  }

  /** A new element with a value, or an empty tag if there is none. */
  function NewElem(i: nat, name: string, value: string, flags: NodeFlags): (n: Forest)
    ensures n.Node? && n.id == i && n.kids.Nil?
  {
    if value == "" then Node("", i, "<" + name + (if flags.withXhtmlSpace then " />" else "/>"), Nil(""), "", Nil(""))
    else Node("", i, "<" + name + ">", Nil(Stored(value, flags)), "</" + name + ">", Nil(""))
  }

  class CMarkup {
    var doc: string
    var elem: Index
    var posDeleted: nat
    var posParent: nat
    var pos: nat
    var posChild: nat
    ghost var forest: Forest
    ghost var dead: seq<nat>

    /** Text, index, deleted list and position are all those of the document forest. */
    ghost predicate Valid()
      reads this
    {
      Sound(elem)
    }

    /** Parse the text given. */
    constructor (text: string)
      requires NulFree(text)
      ensures doc == text && forest == Document(text)
      ensures Valid() <==> Ended(elem, forest) && WellTagged(forest)
      ensures text == "" ==> Valid()
    {
      doc, elem := text, [ClearedElemPos];
      new;
      var ok := ParseDoc();
    }

    ghost predicate Sound(e: Index)
      reads this
    {
      Indexed(e, forest, posDeleted, dead) && doc == Text(forest) && NulFree(doc) &&
      Placed(forest, posParent, pos, posChild)
    }

    method SetPos(iPosParent: nat, iPos: nat, iPosChild: nat)
      modifies this`posParent, this`pos, this`posChild
      ensures posParent == iPosParent && pos == iPos && posChild == iPosChild
    {
      posParent, pos, posChild := iPosParent, iPos, iPosChild;
    }

    // ------------------------------------------------------------------ reading the text

    /** The tag name of an element, read from the text. */
    method GetTagName(iPos: nat) returns (name: string)
      requires Agree(elem, forest) && WellTagged(forest) && doc == Text(forest) && iPos in Ids(forest)
      ensures name == TagName(Find(forest, iPos).tag)
    {
      hide Find, Text, Agree, WellTagged, NameAt, TagName;
      NameInDoc(elem, forest, iPos);
      SkipsNothing(doc, elem[iPos].start + 1);
      var token := new TokenPos(doc, elem[iPos].start + 1);
      var found := token.FindName();
      name := token.text[token.nL..token.nR + 1];
    }

    // ------------------------------------------------------------------ inserting text

    /** A record that no element uses; its fields hold anything. */
    method GetFreePos() returns (iPos: nat)
      modifies this`elem
      ensures iPos == |old(elem)| && |elem| == iPos + 1 && elem[..iPos] == old(elem)
    {
      var p: ElemPos := *;
      iPos := |elem|;
      elem := elem + [p];
    }

    method DocChange(nLeft: nat, nReplace: nat, strInsert: string)
      requires nLeft + nReplace <= |doc|
      modifies this`doc
      ensures doc == Splice(old(doc), nLeft, nReplace, strInsert)
    {
      doc := doc[..nLeft] + strInsert + doc[nLeft + nReplace..];
    }

    /** The start tag loses its slash and an end tag follows the content. */
    method SplitTag(iPosParent: nat, strTagName: string)
      requires iPosParent < |elem|
      modifies this`elem
      ensures elem == old(elem)[iPosParent :=
        old(elem)[iPosParent].(startTagLen := old(elem)[iPosParent].startTagLen - 1, endTagLen := 3 + |strTagName|)]
    {
      elem := elem[iPosParent := elem[iPosParent].(startTagLen := elem[iPosParent].startTagLen - 1)];
      elem := elem[iPosParent := elem[iPosParent].(endTagLen := 3 + |strTagName|)];
    }

    /** Where the new text goes, and behind which sibling. */
    method Locate(iPosParent: nat, iPosRel: nat, insert: bool, noLines: bool) returns (iPosBefore: nat, nStart: int)
      requires Agree(elem, forest) && WellTagged(forest) && doc == Text(forest) && NulFree(doc)
      requires iPosParent == 0 || iPosParent in Ids(forest)
      requires iPosRel == 0 || iPosRel in Tops(KidsOf(forest, iPosParent))
      requires iPosParent < |elem| && iPosRel < |elem|
      ensures SplitsTag(forest, iPosParent) && iPosRel == 0 ==>
        nStart == elem[iPosParent].StartContent() - 1 && iPosBefore == 0
      ensures !SplitsTag(forest, iPosParent) ==>
        0 <= Spot(elem, iPosParent, iPosRel, insert) <= |doc| &&
        iPosBefore == Predecessor(KidsOf(forest, iPosParent), iPosRel, insert) &&
        nStart == Spot(elem, iPosParent, iPosRel, insert) +
          if noLines then 0 else TagCut(doc[Spot(elem, iPosParent, iPosRel, insert)..])
    {
      hide Find, Spans, Links, Ring, Distinct, Text, WellTagged, Tops, TagCut, PrevOf, Virtual;
      if iPosParent != 0 { ParentFacts(elem, forest, iPosParent); }
      PredecessorLinks(elem, forest, iPosParent, iPosRel, insert);
      if SplitsTag(forest, iPosParent) {
        ghost var t := ParentTag(elem, forest, iPosParent);
      } else {
        SpotIs(elem, forest, iPosParent, iPosRel, insert);
      }
      var emptyParentTag := iPosParent != 0 && elem[iPosParent].IsEmptyElement();
      if iPosRel != 0 {
        nStart := elem[iPosRel].start;
        if !insert { nStart := nStart + elem[iPosRel].length; }
      } else if emptyParentTag {
        nStart := elem[iPosParent].StartContent() - 1;
      } else if insert {
        nStart := elem[iPosParent].StartContent();
      } else {
        nStart := elem[iPosParent].StartAfter() - elem[iPosParent].endTagLen;
      }
      if !noLines && !emptyParentTag {
        var token := new TokenPos(doc, 0);
        nStart := token.WhitespaceToTag(nStart);
      }
      iPosBefore := iPosRel;
      if iPosRel != 0 {
        if insert {
          iPosBefore := if !elem[iPosRel].first then elem[iPosRel].prev else 0;
        }
      } else if !insert {
        if elem[iPosParent].child != 0 {
          iPosBefore := elem[elem[iPosParent].child].prev;
        }
      }
    }

    /**
      Put the text meta of the new element n in, as planned. The start it returns may be short of
      where the element stands. The record of the new element is not filled in yet.
     */
    method InsertNew(iPosParent: nat, iPosRel: nat, insert: bool, noLines: bool, meta: string, ghost n: Forest)
      returns (iPosBefore: nat, nStart: int, nReplace: nat, strMeta: string)
      requires Agree(elem, forest) && doc == Text(forest) && NulFree(doc)
      requires Addable(forest, iPosParent, iPosRel, n) && meta == NodeText(n) && NulFree(meta)
      modifies this`doc, this`elem
      ensures var a := Plan(forest, iPosParent, iPosRel, insert, noLines, n);
        I.Fits(forest, a) && a.p == iPosParent && iPosBefore == a.b &&
        doc == Text(I.Inserted(forest, a)) && NulFree(doc) && |strMeta| - nReplace == I.Growth(forest, a) &&
        nStart == NewStart(forest, a) - Missing(forest, iPosParent, noLines) &&
        |elem| == |old(elem)| && Retagged(old(elem), elem, a)
    {
      hide Find, Spans, Links, Ring, Distinct, Text, WellTagged, Tops, TagCut, PrevOf, Virtual, NodeText, Plan, Splice,
        Predecessor, I.Inserted, I.Fits, Spot, NewStart, KidsOf, NameAt, Agree, Addable, EndTag, Unslashed;
      ghost var e, d, l, nm := elem, doc, LineEnd(noLines), "";
      AddableParts(forest, iPosParent, iPosRel, n);
      ghost var a := Plan(forest, iPosParent, iPosRel, insert, noLines, n);
      ParentKinds(e, forest, iPosParent, iPosRel, insert, noLines, n);
      PlanCases(e, forest, iPosParent, iPosRel, insert, noLines, n);
      iPosBefore, nStart := Locate(iPosParent, iPosRel, insert, noLines);
      var emptyParentTag := iPosParent != 0 && elem[iPosParent].IsEmptyElement();
      var noContentParentTags := iPosParent != 0 && elem[iPosParent].ContentLen() == 0;
      strMeta := meta;
      if !noLines && (emptyParentTag || noContentParentTags) {
        nStart := nStart + |EOL|;
      }
      if !noLines {
        strMeta := strMeta + EOL;
      }
      PlusNothing(meta);
      nReplace := 0;
      var nInsertAt := nStart;
      if emptyParentTag {
        PlanSplit(e, forest, iPosParent, insert, noLines, n);
        NameNulFree(Find(forest, iPosParent).tag, 1);
        var strTagName := GetTagName(iPosParent);
        nm := strTagName;
        strMeta := (if noLines then ">" else ">" + EOL) + strMeta + "</" + strTagName;
        nInsertAt := elem[iPosParent].StartAfter() - 2;
        nReplace := 1;
        SplitTag(iPosParent, strTagName);
      } else if noContentParentTags {
        PlanFirst(e, forest, iPosParent, insert, noLines, n);
        strMeta := EOL + strMeta;
        nInsertAt := elem[iPosParent].StartContent();
      } else {
        PlanPlain(e, forest, iPosParent, iPosRel, insert, noLines, n);
      }
      PlanNulFree(d, nInsertAt, nReplace, l, meta, nm, strMeta);
      DocChange(nInsertAt, nReplace, strMeta);
    }

    // ------------------------------------------------------------------ shifting offsets

    /** Climb by parent links to the next sibling of a parent, or to the ancestor top. */
    method Climb(i: nat, top: nat, ghost target: nat) returns (j: nat)
      requires i < |elem| && Climbs(elem, i, top, target)
      ensures j == target
    {
      ghost var fuel :| ClimbsTo(elem, i, top, target, fuel);
      j := i;
      while true
        invariant j < |elem| && ClimbsTo(elem, j, top, target, fuel)
        decreases fuel
      {
        j := elem[j].parent;
        if j == top {
          return;
        }
        if elem[j].next != 0 {
          j := elem[j].next;
          return;
        }
        fuel := fuel - 1;
      }
    }

    /** Shift the starts that follow position i, and grow the lengths of its ancestors. */
    method Adjust(iPos: nat, nShift: int, bAfterPos: bool, ghost f: Forest)
      requires iPos in Ids(f) && Distinct(f) && 0 !in Ids(f) && Links(elem, f, 0) && Opened(elem, f)
      requires |elem| > 0 && elem[0].startTagLen == 0
      modifies this`elem
      ensures elem == Adjusted(old(elem), f, iPos, nShift, bAfterPos)
    {
      ghost var todo := Tour(f, iPos, bAfterPos);
      TourChain(elem, f, iPos, bAfterPos);
      TourEffect(elem, f, iPos, nShift, bAfterPos);
      ghost var target := ApplyAll(elem, todo, nShift);
      var i: nat := iPos;
      var top: nat := elem[i].parent;
      var posFirst := bAfterPos;
      while elem[i].startTagLen != 0
        invariant i < |elem| && Chain(elem, i, top, posFirst, todo)
        invariant ApplyAll(elem, todo, nShift) == target
        decreases |todo|
      {
        ghost var v := todo[0];
        ghost var before := elem;
        var posTop := i == top;
        if posTop {
          top := elem[i].parent;
        }
        if !posTop && !posFirst && elem[i].child != 0 {
          i := elem[i].child;
        } else if elem[i].next != 0 {
          i := elem[i].next;
        } else {
          i := Climb(i, top, v.id);
        }
        posFirst := false;
        elem := Apply(elem, if i == top then Grow(i) else Shift(i), nShift);
        ApplyKeepsShape(before, v, nShift);
        todo := todo[1..];
        ChainFrame(before, elem, i, top, false, todo);
      }
    }

    // ------------------------------------------------------------------ releasing records

    /** Put one record at the head of the deleted list; returns its old next link. */
    method ReleasePos(iPos: nat) returns (iPosNext: nat)
      requires iPos < |elem|
      modifies this`elem, this`posDeleted
      ensures elem == old(elem)[iPos := Released(old(elem)[iPos], old(posDeleted))]
      ensures posDeleted == iPos && iPosNext == old(elem)[iPos].next
    {
      iPosNext := elem[iPos].next;
      elem := elem[iPos := Released(elem[iPos], posDeleted)];
      posDeleted := iPos;
    }

    /** Release iPos and everything below it; k is the forest of its children. */
    method ReleaseSubDoc(iPos: nat, ghost k: Forest) returns (iPosNext: nat)
      requires 0 < iPos < |elem| && elem[iPos].child == First(k)
      requires Links(elem, k, iPos) && Distinct(k) && iPos !in Ids(k)
      modifies this`elem, this`posDeleted
      ensures elem == ReleaseAll(old(elem), Post(k) + [iPos], old(posDeleted))
      ensures posDeleted == iPos
      ensures iPosNext == old(elem)[iPos].next
    {
      ghost var todo := Post(k) + [iPos];
      ghost var target, next, n := ReleaseAll(elem, todo, posDeleted), elem[iPos].next, |elem|;
      SubDocNoDup(k, iPos);
      ghost var fuel := TopEnters(elem, iPos, k);
      var i: nat := iPos;
      iPosNext := 0;
      while true
        invariant Enters(elem, iPos, i, todo, fuel) && NoDup(todo) && todo[|todo| - 1] == iPos
        invariant ReleaseAll(elem, todo, posDeleted) == target && |elem| == n && elem[iPos].next == next
        decreases |todo|, fuel
      {
        if elem[i].child != 0 {
          i := elem[i].child;
          fuel := fuel - 1;
        } else {
          while true
            invariant Leaves(elem, iPos, i, todo) && NoDup(todo) && todo[|todo| - 1] == iPos
            invariant ReleaseAll(elem, todo, posDeleted) == target && |elem| == n && elem[iPos].next == next
            decreases |todo|
          {
            ghost var before := elem;
            if i != iPos { ReleaseHead(elem, iPos, i, todo, posDeleted); }
            iPosNext := ReleasePos(i);
            todo := todo[1..];
            if iPosNext != 0 || i == iPos {
              break;
            }
            i := elem[i].parent;
          }
          if i == iPos {
            break;
          }
          fuel :| Enters(elem, iPos, iPosNext, todo, fuel);
          i := iPosNext;
        }
      }
    }

    // ------------------------------------------------------------------ sibling links

    /**
      Link iPos into the children k of iPosParent, after iPosBefore or (0) in front. n is the
      element to link in and v the text that will follow it.
     */
    method LinkElem(iPosParent: nat, iPosBefore: nat, iPos: nat, ghost k: Forest, ghost n: Forest, ghost v: string)
      requires iPosParent < |elem| && Siblings(elem, k, iPosParent) && elem[iPosParent].child == First(k)
      requires iPosBefore == 0 || iPosBefore in Tops(k)
      requires n.Node? && n.id == iPos && Loose(elem, n, k, iPosParent)
      modifies this`elem
      ensures Siblings(elem, InsertIn(k, iPosBefore, n, v), iPosParent)
      ensures |elem| == |old(elem)|
      ensures elem[iPosParent] == old(elem)[iPosParent].(child := First(InsertIn(k, iPosBefore, n, v)))
      ensures Relinked(old(elem), elem, Ids(k) + {iPos}, iPosParent)
    {
      ghost var before := elem;
      LinksInRange(elem, k, iPosParent);
      InsertIds(k, iPosBefore, n, v);
      if k.Node? { assert k.id in Ids(k); }
      if iPosBefore != 0 {
        NextIs(elem, k, iPosParent, iPosBefore);
        TopsInIds(k);
        NextAfterFacts(k, iPosBefore);
        LinkBehind(iPosParent, iPosBefore, iPos, k.id);
        LinkBehindCorrect(before, elem, k, iPosParent, iPosBefore, n, v);
        LinkBehindFrame(before, elem, iPosParent, iPosBefore, iPos, NextAfter(k, iPosBefore), k.id, Ids(k) + {iPos});
      } else {
        LinkInFront(iPosParent, iPos);
        LinkInFrontCorrect(before, elem, k, iPosParent, n, v);
        LinkInFrontFrame(before, elem, iPosParent, iPos, First(k), Ids(k) + {iPos});
      }
    }

    /** The branch of LinkElem that links in after a sibling; h is the first sibling. */
    method LinkBehind(iPosParent: nat, iPosBefore: nat, iPos: nat, ghost h: nat)
      requires iPosParent < |elem| && iPosBefore < |elem| && iPos < |elem| && iPos != iPosBefore
      requires elem[iPosParent].child == h && h < |elem| && elem[iPosBefore].next < |elem|
      requires iPos != iPosParent && h != iPos && elem[iPosBefore].next != iPos && elem[iPosBefore].next != iPosBefore
      modifies this`elem
      ensures LinkedBehind(old(elem), elem, iPosParent, iPosBefore, iPos, old(elem)[iPosBefore].next, h)
    {
      var next := elem[iPosBefore].next;
      elem := elem[iPos := elem[iPos].(parent := iPosParent, first := false, next := next)];
      if next != 0 {
        elem := elem[next := elem[next].(prev := iPos)];
      } else {
        var head := elem[iPosParent].child;
        elem := elem[head := elem[head].(prev := iPos)];
      }
      elem := elem[iPosBefore := elem[iPosBefore].(next := iPos)];
      elem := elem[iPos := elem[iPos].(prev := iPosBefore)];
    }

    /** The branch of LinkElem that links in as the first child. */
    method LinkInFront(iPosParent: nat, iPos: nat)
      requires iPosParent < |elem| && iPos < |elem| && iPos != iPosParent && elem[iPosParent].child < |elem|
      requires elem[iPosParent].child != iPos && (elem[iPosParent].child != 0 ==> elem[iPosParent].child != iPosParent)
      modifies this`elem
      ensures LinkedInFront(old(elem), elem, iPosParent, iPos, old(elem)[iPosParent].child)
    {
      elem := elem[iPos := elem[iPos].(parent := iPosParent, first := true)];
      var head := elem[iPosParent].child;
      if head != 0 {
        elem := elem[iPos := elem[iPos].(next := head, prev := elem[head].prev)];
        elem := elem[head := elem[head].(prev := iPos, first := !elem[head].first)];
      } else {
        elem := elem[iPos := elem[iPos].(next := 0, prev := iPos)];
      }
      elem := elem[iPosParent := elem[iPosParent].(child := iPos)];
    }

    /**
      Unlink iPos from the children k of its parent p and release it with all its descendants;
      g will be the text between its neighbours. Returns the previous sibling or 0.
     */
    method UnlinkElem(iPos: nat, ghost k: Forest, ghost p: nat, ghost g: string)
      returns (iPosPrev: nat, ghost mid: Index)
      requires p < |elem| && Siblings(elem, k, p) && elem[p].child == First(k)
      requires iPos in Tops(k)
      modifies this`elem, this`posDeleted
      ensures Siblings(elem, RemoveIn(k, iPos, g), p) && iPosPrev == PrevOf(k, iPos, 0)
      ensures |elem| == |old(elem)| && posDeleted == iPos
      ensures elem[p] == old(elem)[p].(child := First(RemoveIn(k, iPos, g)))
      ensures Relinked(old(elem), mid, Ids(RemoveIn(k, iPos, g)), p)
      ensures elem == ReleaseAll(mid, Post(TopNode(k, iPos).kids) + [iPos], old(posDeleted))
    {
      ghost var before, t := elem, TopNode(k, iPos);
      UnlinkFacts(elem, k, p, iPos, g);
      iPosPrev := Bypass(iPos, p, k.id);
      mid := elem;
      BypassCorrect(before, mid, k, p, iPos, g);
      TopNodeFacts(k, iPos);
      var after := ReleaseSubDoc(iPos, t.kids);
      UnlinkRelease(mid, elem, k, p, iPos, g, old(posDeleted));
    }

    /** The first part of UnlinkElem: find the previous sibling and bypass the element. */
    method Bypass(iPos: nat, ghost p: nat, ghost h: nat) returns (iPosPrev: nat)
      requires 0 < iPos < |elem| && elem[iPos].parent == p && p < |elem| && p != iPos && elem[iPos].next < |elem|
      requires elem[p].child == h && h < |elem| && p != h && h != 0
      requires elem[iPos].next != 0 ==> p != elem[iPos].next && elem[iPos].next != iPos
      requires !elem[iPos].first ==> 0 < elem[iPos].prev < |elem| && elem[iPos].prev != iPos && elem[iPos].prev != p
      requires !elem[iPos].first ==> h != iPos
      modifies this`elem
      ensures iPosPrev == if old(elem)[iPos].first then 0 else old(elem)[iPos].prev
      ensures Bypassed(old(elem), elem, p, iPos, iPosPrev, old(elem)[iPos].next, h)
    {
      iPosPrev := 0;
      var next := elem[iPos].next;
      if elem[iPos].first {
        if next != 0 {
          elem := elem[elem[iPos].parent := elem[elem[iPos].parent].(child := next)];
          elem := elem[next := elem[next].(prev := elem[iPos].prev)];
          elem := elem[next := elem[next].(first := true)];
        } else {
          elem := elem[elem[iPos].parent := elem[elem[iPos].parent].(child := 0)];
        }
      } else {
        iPosPrev := elem[iPos].prev;
        elem := elem[iPosPrev := elem[iPosPrev].(next := next)];
        if next != 0 {
          elem := elem[next := elem[next].(prev := iPosPrev)];
        } else {
          var head := elem[elem[iPos].parent].child;
          elem := elem[head := elem[head].(prev := iPosPrev)];
        }
      }
    }

    // ------------------------------------------------------------------ adding an element

    /** The text of a new element, and the lengths of its record. */
    method BuildElem(iPos: nat, name: string, value: string, flags: NodeFlags) returns (meta: string)
      requires iPos < |elem|
      modifies this`elem
      ensures meta == NodeText(NewElem(iPos, name, value, flags))
      ensures |elem| == |old(elem)| && forall j :: 0 <= j < |elem| && j != iPos ==> elem[j] == old(elem)[j]
      ensures var n := NewElem(iPos, name, value, flags);
        elem[iPos].length == Width(n) && elem[iPos].startTagLen == |n.tag| && elem[iPos].endTagLen == |n.close|
    {
      if value == "" {
        meta := "<" + name + if flags.withXhtmlSpace then " />" else "/>";
        elem := elem[iPos := elem[iPos].(length := |meta|, startTagLen := |meta|, endTagLen := 0)];
      } else {
        var strValue := StoreValue(value, flags);
        meta := "<" + name + ">" + strValue + "</" + name + ">";
        elem := elem[iPos := elem[iPos].(length := |name| * 2 + |strValue| + 5,
                                         endTagLen := |name| + 3, startTagLen := |name| + 2)];
        ElemText("<" + name + ">", strValue, name);
      }
    }

    method StoreValue(value: string, flags: NodeFlags) returns (strValue: string)
      ensures strValue == Stored(value, flags)
    {
      if flags.withCData {
        strValue := EncodeCDATASection(value);
      } else {
        strValue := EscapeText(value, flags.escapeQuotes, flags.withRefs);
      }
    }

    /**
      Fill in the record of the new element, link it in and shift what follows. e is the index
      before the edit; d is how far the start is short of where the element stands.
     */
    method PlaceNew(iPosParent: nat, iPosBefore: nat, iPos: nat, nStart: int, nGrowth: int,
                    ghost e: Index, ghost a: I.Insert, ghost d: int)
      requires I.Fits(forest, a) && Agree(e, forest) && Ended(e, forest) && WellTagged(forest)
      requires a.p == iPosParent && a.b == iPosBefore && a.n.id == iPos == |e| && |elem| == |e| + 1
      requires Retagged(e, elem, a) && |a.n.tag| > 0 && (a.p != 0 ==> |a.T| > 0)
      requires elem[iPos].length == Width(a.n) && elem[iPos].startTagLen == |a.n.tag| &&
        elem[iPos].endTagLen == |a.n.close|
      requires nStart == NewStart(forest, a) - d && nGrowth == I.Growth(forest, a)
      modifies this`elem
      ensures |elem| == |e| + 1 && Agree(Late(elem, iPos, d), I.Inserted(forest, a)) &&
        Ended(elem, I.Inserted(forest, a))
      ensures forall j: nat :: 0 < j < |e| && j !in Ids(forest) ==> elem[j] == e[j]
    {
      hide Find, Spans, Links, Ring, Distinct, Text, WellTagged, Tops, Virtual, I.Inserted, I.Fits, I.NewKids, KidsOf,
        I.Growth,
        Agree, I.Prepared, Siblings, Loose, InsertIn, EndOf, I.ContentAt;
      elem := elem[iPos := elem[iPos].(start := nStart, child := 0, first := false, deleted := false, nonEnded := false,
                                       illData := false, illFormed := false)];
      ghost var e1 := elem;
      PreparedIs(e, e1, forest, a, d);
      ReadyToLink(e, e1, forest, a);
      KidsOfParent(forest, a);
      LinkElem(iPosParent, iPosBefore, iPos, KidsOf(forest, a.p), a.n, a.v);
      ghost var e2 := elem;
      assert I.LinkedIn(e1, e2, forest, a);
      WellTaggedTagged(forest);
      AddedWalkable(e, e1, e2, forest, a, d);
      ParentEnded(e, e1, forest, a);
      AddedAgrees(e, e1, e2, forest, a, d);
      AddedRest(e, e1, e2, forest, a, d);
      Adjust(iPos, nGrowth, false, I.Inserted(forest, a));
    }

    /**
      Add an element before (insert) or after the current one, or as the first or last child of
      the parent position if there is none. The document becomes the planned one. Index and text
      agree again unless a first child was put between two tags without line ends.
     */
    method AddElem(insert: bool, name: string, value: string, flags: NodeFlags)
      requires Valid() && IsName(name) && NulFree(value)
      modifies this
      ensures Added(old(forest), old(posParent), old(pos), insert, flags.withNoLines,
                    NewElem(|old(elem)|, name, value, flags), forest)
      ensures |elem| == |old(elem)| + 1 && posDeleted == old(posDeleted) && dead == old(dead)
      ensures posParent == old(posParent) && pos == |old(elem)| && posChild == 0
      ensures Sound(Late(elem, |old(elem)|, Missing(old(forest), posParent, flags.withNoLines)))
      ensures Valid() <==> Missing(old(forest), posParent, flags.withNoLines) == 0
    {
      hide Find, Spans, Links, Ring, Distinct, Text, WellTagged, Tops, Virtual, I.Inserted, I.Fits, KidsOf,
        Indexed, NewElem, Plan, Missing, NulFree, IsName, NoContent, SplitsTag, Late, Placed;
      PlacedParts(forest, posParent, pos, posChild);
      ghost var f, d := forest, Missing(forest, posParent, flags.withNoLines);
      ghost var a := Plan(f, posParent, pos, insert, flags.withNoLines, NewElem(|elem|, name, value, flags));
      var iPos := PutElem(posParent, pos, insert, name, value, flags);
      PlacedInsert(f, a, posParent, pos, posChild) by { IndexedParts(old(elem), f, posDeleted, dead); }
      StartIsFixed(elem, forest, iPos, d, posDeleted, dead);
      LateNothing(elem, iPos, d);
      SetPos(posParent, iPos, 0);
    }

    /** The same under the current element, before or after its current child. */
    method AddChildElem(insert: bool, name: string, value: string, flags: NodeFlags) returns (ok: bool)
      requires Valid() && IsName(name) && NulFree(value)
      modifies this
      ensures ok == (old(pos) != 0)
      ensures !ok ==> unchanged(this)
      ensures ok ==> Added(old(forest), old(pos), old(posChild), insert, flags.withNoLines,
                           NewElem(|old(elem)|, name, value, flags), forest)
      ensures ok ==> |elem| == |old(elem)| + 1 && posDeleted == old(posDeleted) && dead == old(dead)
      ensures ok ==> posParent == old(posParent) && pos == old(pos) && posChild == |old(elem)|
      ensures ok ==> Sound(Late(elem, |old(elem)|, Missing(old(forest), pos, flags.withNoLines)))
      ensures ok ==> (Valid() <==> Missing(old(forest), pos, flags.withNoLines) == 0)
    {
      if pos == 0 {
        return false;
      }
      hide *;
      PutChild(insert, name, value, flags);
      ok := true;
    }

    method PutChild(insert: bool, name: string, value: string, flags: NodeFlags)
      requires Valid() && IsName(name) && NulFree(value) && pos != 0
      modifies this
      ensures Added(old(forest), pos, old(posChild), insert, flags.withNoLines,
        NewElem(|old(elem)|, name, value, flags), forest)
      ensures |elem| == |old(elem)| + 1 && posDeleted == old(posDeleted) && dead == old(dead)
      ensures posParent == old(posParent) && pos == old(pos) && posChild == |old(elem)|
      ensures Sound(Late(elem, |old(elem)|, Missing(old(forest), pos, flags.withNoLines)))
      ensures Valid() <==> Missing(old(forest), pos, flags.withNoLines) == 0
    {
      hide Find, Spans, Links, Ring, Distinct, Text, WellTagged, Tops, Virtual, I.Inserted, I.Fits, KidsOf,
        Indexed, NewElem, Plan, Missing, NulFree, IsName, NoContent, SplitsTag, Late, Placed;
      PlacedParts(forest, posParent, pos, posChild);
      ghost var f, d := forest, Missing(forest, pos, flags.withNoLines);
      ghost var a := Plan(f, pos, posChild, insert, flags.withNoLines, NewElem(|elem|, name, value, flags));
      var iPos := PutElem(pos, posChild, insert, name, value, flags);
      PlacedInsert(f, a, posParent, pos, posChild) by { IndexedParts(old(elem), f, posDeleted, dead); }
      StartIsFixed(elem, forest, iPos, d, posDeleted, dead);
      LateNothing(elem, iPos, d);
      SetPos(posParent, pos, iPos);
    }

    /** The part of AddElem between finding the place and moving to the new element. */
    method PutElem(iPosParent: nat, iPosRel: nat, insert: bool, name: string, value: string, flags: NodeFlags)
      returns (iPos: nat)
      requires Indexed(elem, forest, posDeleted, dead) && doc == Text(forest) && NulFree(doc)
      requires IsName(name) && NulFree(value)
      requires iPosParent == 0 || iPosParent in Ids(forest)
      requires iPosRel == 0 || iPosRel in Tops(KidsOf(forest, iPosParent))
      modifies this`doc, this`elem, this`forest
      ensures iPos == |old(elem)| && |elem| == iPos + 1 && doc == Text(forest) && NulFree(doc)
      ensures var f, e := old(forest), Late(elem, iPos, Missing(old(forest), iPosParent, flags.withNoLines));
        var a := Plan(f, iPosParent, iPosRel, insert, flags.withNoLines, NewElem(iPos, name, value, flags));
        I.Fits(f, a) && a.p == iPosParent && a.n.id == iPos && forest == I.Inserted(f, a) && iPos in Ids(forest) &&
        Indexed(e, forest, posDeleted, dead)
    {
      hide Find, Spans, Links, Ring, Distinct, Text, WellTagged, Tops, Virtual, I.Inserted, I.Fits, I.NewKids, KidsOf,
        I.Growth,
        Agree, Ended, NodeText, NewElem, Plan, Missing, Pooled, NulFree, IsName, Addable, Width, NewStart;
      ghost var e, f := elem, forest;
      ghost var n := NewElem(|elem|, name, value, flags);
      ghost var a := Plan(f, iPosParent, iPosRel, insert, flags.withNoLines, n);
      ghost var d := Missing(f, iPosParent, flags.withNoLines);
      NewElemFacts(|elem|, name, value, flags);
      ElemAddable(elem, f, iPosParent, iPosRel, n);
      PlanShape(f, iPosParent, iPosRel, insert, flags.withNoLines, n);
      iPos := GetFreePos();
      var meta := BuildElem(iPos, name, value, flags);
      assert elem == e + [elem[iPos]];
      AgreeExtends(e, elem[iPos], f);
      var iPosBefore, nStart, nReplace, strMeta := InsertNew(iPosParent, iPosRel, insert, flags.withNoLines, meta, n);
      PlaceNew(iPosParent, iPosBefore, iPos, nStart, |strMeta| - nReplace, e, a, d);
      forest := I.Inserted(f, a);
      IdsAfter(f, a, e);
      AddedSound(e, Late(elem, iPos, d), f, iPosParent, iPosRel, insert, flags.withNoLines, n, posDeleted, dead);
      EndedLate(elem, forest, iPos, d);
    }

    // ------------------------------------------------------------------ setting data

    /** Replace the content of an element that has no children. */
    method ReplaceContent(iPos: nat, meta: string) returns (nReplace: nat, strMeta: string)
      requires Agree(elem, forest) && WellTagged(forest) && doc == Text(forest) && NulFree(doc)
      requires iPos in Ids(forest) && NulFree(meta)
      modifies this`doc, this`elem
      ensures doc == Text(Graft(forest, iPos, Refilled(forest, iPos, meta))) && NulFree(doc)
      ensures |strMeta| - nReplace == |doc| - |old(doc)| && iPos < |old(elem)|
      ensures var n := Refilled(forest, iPos, meta);
        elem == old(elem)[iPos := old(elem)[iPos].(startTagLen := |n.tag|, endTagLen := |n.close|)]
    {
      hide Find, Spans, Links, Ring, Distinct, Text, WellTagged, Virtual, NameAt, Graft, Unslashed, Splice;
      AgreeDistinct(elem, forest);
      ParentFacts(elem, forest, iPos);
      ghost var d := doc;
      if elem[iPos].IsEmptyElement() {
        RefillSplit(elem, forest, iPos, meta);
        NameNulFree(Find(forest, iPos).tag, 1);
        var strTagName := GetTagName(iPos);
        strMeta := ">" + meta + "</" + strTagName;
        nReplace := 1;
        var nInsertAt := elem[iPos].StartAfter() - 2;
        SplitTag(iPos, strTagName);
        DocChange(nInsertAt, nReplace, strMeta);
        SpliceNulFree(d, nInsertAt, nReplace, strMeta);
      } else {
        RefillPlain(elem, forest, iPos, meta);
        strMeta := meta;
        nReplace := elem[iPos].ContentLen();
        DocChange(elem[iPos].StartContent(), nReplace, strMeta);
        SpliceNulFree(d, elem[iPos].StartContent(), nReplace, strMeta);
      }
    }

    /** Set the data of an element; refused if it has children. */
    method SetData(iPos: nat, value: string, flags: NodeFlags) returns (ok: bool)
      requires Valid() && NulFree(value) && (iPos == 0 || iPos in Ids(forest))
      modifies this
      ensures Valid() && ok == (iPos != 0 && KidsOf(old(forest), iPos).Nil?)
      ensures !ok ==> unchanged(this)
      ensures ok ==> forest == Graft(old(forest), iPos, Refilled(old(forest), iPos, Stored(value, flags)))
      ensures |elem| == |old(elem)| && posDeleted == old(posDeleted) && dead == old(dead)
      ensures posParent == old(posParent) && pos == old(pos) && posChild == old(posChild)
    {
      hide Find, Text, Graft, Indexed, Placed, Refilled, Stored, NulFree, KidsOf;
      KidsAreLinked(elem, forest, iPos) by { IndexedParts(elem, forest, posDeleted, dead); }
      if iPos == 0 || elem[iPos].child != 0 {
        return false;
      }
      ghost var f := forest;
      var strInsert := StoreValue(value, flags);
      StoredNulFree(value, flags);
      Refill(iPos, strInsert);
      PlacedRefill(old(elem), f, iPos, strInsert, posParent, pos, posChild, posDeleted, dead);
      ok := true;
    }

    /** The part of SetData after the new content has been built. */
    method Refill(iPos: nat, strInsert: string)
      requires Indexed(elem, forest, posDeleted, dead) && doc == Text(forest) && NulFree(doc)
      requires iPos in Ids(forest) && KidsOf(forest, iPos).Nil? && NulFree(strInsert)
      modifies this`doc, this`elem, this`forest
      ensures Indexed(elem, forest, posDeleted, dead) && doc == Text(forest) && NulFree(doc)
      ensures forest == Graft(old(forest), iPos, Refilled(old(forest), iPos, strInsert)) && |elem| == |old(elem)|
    {
      hide Find, Text, Graft, Indexed, Refilled, NulFree, KidsOf, Agree, WellTagged, Adjusted, Pooled, Distinct,
        Links, Opened,
        Width, TagsMatch;
      ghost var e, f := elem, forest;
      ghost var n := Refilled(f, iPos, strInsert);
      IndexedParts(e, f, posDeleted, dead);
      var nReplace, strMeta := ReplaceContent(iPos, strInsert);
      var nAdjust := |strMeta| - nReplace;
      RefillReady(e, elem, f, iPos, strInsert);
      RefillIndexed(e, f, iPos, strInsert, nAdjust, posDeleted, dead);
      AdjustThenResize(e, f, iPos, elem[iPos], Resized(e[iPos], n, nAdjust), nAdjust);
      Adjust(iPos, nAdjust, false, f);
      ghost var shifted := elem;
      elem := elem[iPos := elem[iPos].(length := elem[iPos].length + nAdjust)];
      elem := elem[iPos := elem[iPos].(illData := false)];
      assert elem == shifted[iPos := Resized(e[iPos], n, nAdjust)];
      forest := Graft(f, iPos, n);
    }

    // ------------------------------------------------------------------ removing an element

    /** Remove the child iPos of p with everything in it and the whitespace up to the next tag. */
    method CutElem(iPos: nat, ghost p: nat) returns (iPosPrev: nat)
      requires Indexed(elem, forest, posDeleted, dead) && doc == Text(forest) && NulFree(doc)
      requires (p == 0 || p in Ids(forest)) && iPos in Tops(KidsOf(forest, p))
      modifies this`doc, this`elem, this`forest, this`posDeleted, this`dead
      ensures R.Applies(old(forest), PlanRemove(old(forest), p, iPos))
      ensures forest == R.RemovedFrom(old(forest), PlanRemove(old(forest), p, iPos))
      ensures Indexed(elem, forest, posDeleted, dead) && doc == Text(forest) && NulFree(doc) && |elem| == |old(elem)|
      ensures posDeleted == iPos && dead == Gone(old(forest), p, iPos) + old(dead)
      ensures iPosPrev == PrevOf(KidsOf(old(forest), p), iPos, 0)
    {
      hide Find, Text, Graft, Indexed, KidsOf, Agree, WellTagged, Adjusted, Pooled, Distinct, Links, Opened, Ended,
        R.RemovedFrom, R.Growth, TopNode, PrevOf, Siblings, Relinked, ReleaseAll, Post, TagCut, Tops, RemoveIn,
          R.LeftKids, Gone, Splice;
      ghost var e, f, a, d := elem, forest, PlanRemove(forest, p, iPos), doc;
      IndexedParts(e, f, posDeleted, dead);
      RemovedSpan(e, f, p, iPos);
      var token := new TokenPos(doc, 0);
      var nAfterEnd := token.WhitespaceToTag(elem[iPos].StartAfter());
      var nLen := nAfterEnd - elem[iPos].start;
      SpliceNulFree(d, elem[iPos].start, nLen, "");
      DocChange(elem[iPos].start, nLen, "");
      DocWalkable(e, f, iPos);
      ReadyToUnlink(e, f, p, iPos, -nLen);
      Adjust(iPos, -nLen, true, f);
      ghost var mid;
      iPosPrev, mid := UnlinkElem(iPos, KidsOf(f, p), p, a.g);
      UnlinkedIs(e, mid, elem, f, a, old(posDeleted));
      RemovalIndexed(e, mid, elem, f, a, old(posDeleted), dead);
      forest := R.RemovedFrom(f, a);
      dead := Gone(f, p, iPos) + dead;
    }

    /** Remove the current element; the one before it becomes the current one. */
    method RemoveElem() returns (ok: bool)
      requires Valid()
      modifies this
      ensures Valid() && ok == (old(pos) != 0) && |elem| == |old(elem)|
      ensures !ok ==> unchanged(this)
      ensures ok ==>
        Removed(old(forest), old(posParent), old(pos), forest, old(dead), dead) &&
        posParent == old(posParent) && posChild == 0 &&
        pos == PrevOf(KidsOf(old(forest), old(posParent)), old(pos), 0)
    {
      if pos == 0 {
        return false;
      }
      hide Find, Text, Graft, Indexed, KidsOf, R.RemovedFrom, PrevOf, Tops, Gone, Placed, NulFree, R.Applies;
      ghost var f, e, head, gone := forest, elem, posDeleted, dead;
      PlacedParts(f, posParent, pos, posChild);
      var iPos := CutElem(pos, posParent);
      PlacedAfterCut(e, f, posParent, pos, posChild, head, gone);
      SetPos(posParent, iPos, 0);
      ok := true;
    }

    /** Remove the current child of the current element. */
    method RemoveChildElem() returns (ok: bool)
      requires Valid()
      modifies this
      ensures Valid() && ok == (old(posChild) != 0) && |elem| == |old(elem)|
      ensures !ok ==> unchanged(this)
      ensures ok ==>
        Removed(old(forest), old(pos), old(posChild), forest, old(dead), dead) &&
        posParent == old(posParent) && pos == old(pos) &&
        posChild == PrevOf(KidsOf(old(forest), old(pos)), old(posChild), 0)
    {
      if posChild == 0 {
        return false;
      }
      hide Find, Text, Graft, Indexed, KidsOf, R.RemovedFrom, PrevOf, Tops, Gone, Placed, NulFree, R.Applies;
      ghost var f, e, head, gone := forest, elem, posDeleted, dead;
      PlacedParts(f, posParent, pos, posChild);
      var iPosChild := CutElem(posChild, pos);
      PlacedAfterCut(e, f, posParent, pos, posChild, head, gone);
      SetPos(posParent, pos, iPosChild);
      ok := true;
    }

    // ------------------------------------------------------------------ attributes

    /** Set an attribute of an element, in place or behind the others. */
    method SetAttrib(iPos: nat, attrib: string, value: string, refs: bool) returns (ok: bool)
      requires Valid() && IsPlainName(attrib) && NulFree(value) && (iPos == 0 || iPos in Ids(forest))
      modifies this
      ensures Valid() && ok == (iPos != 0)
      ensures !ok ==> unchanged(this)
      ensures ok ==> AttribSet(old(forest), iPos, attrib, Escaped(value, 0, true, refs), forest)
      ensures ok ==> ReadsBack(doc, elem, iPos, attrib, value, refs)
      ensures |elem| == |old(elem)| && posDeleted == old(posDeleted) && dead == old(dead)
      ensures posParent == old(posParent) && pos == old(pos) && posChild == old(posChild)
    {
      hide Find, Text, Graft, Indexed, Placed, NulFree, KidsOf, Escaped, SetAttribText, ReadsBack, IsPlainName;
      if iPos == 0 {
        return false;
      }
      ghost var e, f := elem, forest;
      var strEscapedValue := EscapeText(value, true, refs);
      ChangeAttrib(iPos, attrib, strEscapedValue, value, refs);
      PlacedRetag(e, f, iPos, attrib, strEscapedValue, posParent, pos, posChild, posDeleted, dead);
      ok := true;
    }

    /** The part of SetAttrib after the value has been escaped. */
    method ChangeAttrib(iPos: nat, attrib: string, strEscapedValue: string, ghost value: string, ghost refs: bool)
      requires Indexed(elem, forest, posDeleted, dead) && doc == Text(forest) && NulFree(doc)
      requires iPos in Ids(forest) && IsPlainName(attrib) && NulFree(value) &&
        strEscapedValue == Escaped(value, 0, true, refs)
      modifies this`doc, this`elem, this`forest
      ensures Indexed(elem, forest, posDeleted, dead) && doc == Text(forest) && NulFree(doc) && |elem| == |old(elem)|
      ensures AttribSet(old(forest), iPos, attrib, strEscapedValue, forest)
      ensures ReadsBack(doc, elem, iPos, attrib, value, refs)
    {
      hide Find, Text, Graft, Indexed, NulFree, KidsOf, Escaped, SetAttribText, ReadsBack, IsPlainName, Search, Agree,
        WellTagged, Adjusted, Pooled, Distinct, Links, Opened, Width, TagsMatch, Splice;
      ghost var e, f := elem, forest;
      IndexedParts(e, f, posDeleted, dead);
      ValueIsInert(value, refs);
      RetagDoc(e, f, iPos, attrib, strEscapedValue);
      var nAdjust := ReplaceAttrib(elem[iPos].start, attrib, strEscapedValue);
      RetagIndexed(e, f, iPos, attrib, strEscapedValue, nAdjust, posDeleted, dead);
      elem := elem[iPos := elem[iPos].(startTagLen := elem[iPos].startTagLen + nAdjust)];
      elem := elem[iPos := elem[iPos].(length := elem[iPos].length + nAdjust)];
      assert elem ==
        e[iPos := e[iPos].(startTagLen := e[iPos].startTagLen + nAdjust, length := e[iPos].length + nAdjust)];
      Adjust(iPos, nAdjust, false, f);
      RetagReadsBack(e, elem, f, iPos, attrib, value, refs);
      forest := Graft(f, iPos, Retag(f, iPos, attrib, strEscapedValue));
    }

    /** Put the quoted value, or a new attribute, into the tag that begins at start. */
    method ReplaceAttrib(start: int, attrib: string, strEscapedValue: string) returns (nAdjust: int)
      requires NulFree(doc) && IsPlainName(attrib) && NulFree(strEscapedValue) && 0 <= start && start + 1 <= |doc|
      requires match Lookup(doc, start + 1, attrib)
        case At(l, r, q) => q && 1 <= l <= r < |doc| case Absent(at) => at <= |doc|
      modifies this`doc
      ensures doc == SetAttribText(old(doc), start + 1, attrib, strEscapedValue)
      ensures NulFree(doc) && nAdjust == |doc| - |old(doc)|
    {
      hide SetAttribText, IsPlainName, Search, NulFree, Splice;
      var token := new TokenPos(doc, start + 1);
      var found := token.FindAttrib(attrib);
      var strInsert, nInsertAt, nReplace;
      if found {
        strInsert := "\"" + strEscapedValue + "\"";
        nInsertAt := token.nL - if token.quoted then 1 else 0;
        nReplace := token.nR - token.nL + 1 + if token.quoted then 2 else 0;
      } else {
        strInsert := " " + attrib + "=\"" + strEscapedValue + "\"";
        nInsertAt := token.nNext;
        nReplace := 0;
      }
      ChangedText(doc, start + 1, attrib, strEscapedValue, found, token.nL, token.nR + 1, token.quoted, token.nNext);
      ChangeNulFree(doc, nInsertAt, nReplace, strInsert, attrib, strEscapedValue);
      nAdjust := |strInsert| - nReplace;
      DocChange(nInsertAt, nReplace, strInsert);
    }

    /** The value of an attribute of an element, "" if it has none of that name. */
    method GetAttrib(iPos: nat, attrib: string, table: map<string, int>) returns (value: string)
      requires Valid() && (iPos == 0 || iPos in Ids(forest))
      requires iPos != 0 ==> IsPlainName(attrib)
      ensures iPos == 0 ==> value == ""
      ensures iPos != 0 ==>
        iPos < |elem| && elem[iPos].start >= 0 && value == ReadAttrib(doc, elem[iPos].start, attrib, table)
    {
      if iPos == 0 {
        return "";
      }
      hide Find, Text, Indexed, Placed, NulFree, Search, Unescaped, IsPlainName, TagText, ReadAttrib, TagOk, AttrOk,
        FirstAttr, ValueOffset;
      ghost var t := AttribInside(elem, forest, iPos, attrib, posDeleted, dead);
      value := ReadValue(elem[iPos].start, attrib, table);
    }

    method ReadValue(start: int, attrib: string, table: map<string, int>) returns (value: string)
      requires 0 <= start && start + 1 <= |doc|
      requires match Lookup(doc, start + 1, attrib) case At(l, r, q) => l <= r <= |doc| case Absent(at) => true
      ensures value == ReadAttrib(doc, start, attrib, table)
    {
      hide Search, Unescaped;
      var token := new TokenPos(doc, start + 1);
      var found := token.FindAttrib(attrib);
      if found {
        value := UnescapeText(doc[token.nL..], token.nR + 1 - token.nL, table);
        UnescapedAt(doc, token.nL, 0, token.nR + 1 - token.nL, table);
      } else {
        value := "";
      }
    }

    // ------------------------------------------------------------------ moving about

    method ResetPos()
      requires Valid()
      modifies this`posParent, this`pos, this`posChild
      ensures Valid() && posParent == 0 && pos == 0 && posChild == 0
    {
      SetPos(0, 0, 0);
    }

    /** Go to the next sibling, or to the first child of the parent position. */
    method FindElem() returns (found: bool)
      requires Valid()
      modifies this`posParent, this`pos, this`posChild
      ensures Valid() && found == (NextPos(forest, old(posParent), old(pos)) != 0)
      ensures posParent == old(posParent)
      ensures if found then pos == NextPos(forest, old(posParent), old(pos)) && posChild == 0
              else pos == old(pos) && posChild == old(posChild)
    {
      hide Find, Text, Indexed, KidsOf, NulFree, NextPos;
      PlacedParts(forest, posParent, pos, posChild);
      NextPlaced(elem, forest, posParent, pos) by { IndexedParts(elem, forest, posDeleted, dead); }
      var iPos := if pos != 0 then elem[pos].next else elem[posParent].child;
      found := iPos != 0;
      if found {
        SetPos(elem[iPos].parent, iPos, 0);
      }
    }

    /** Make the current element the parent position. */
    method IntoElem() returns (ok: bool)
      requires Valid()
      modifies this`posParent, this`pos, this`posChild
      ensures Valid() && ok == (old(pos) != 0)
      ensures if ok then posParent == old(pos) && pos == old(posChild) && posChild == 0
              else posParent == old(posParent) && pos == old(pos) && posChild == old(posChild)
    {
      ok := pos != 0;
      if ok {
        SetPos(pos, posChild, 0);
      }
    }

    /** Make the parent position the current element. */
    method OutOfElem() returns (ok: bool)
      requires Valid()
      modifies this`posParent, this`pos, this`posChild
      ensures Valid() && ok == (old(posParent) != 0)
      ensures if ok then pos == old(posParent) && posChild == old(pos)
              else posParent == old(posParent) && pos == old(pos) && posChild == old(posChild)
    {
      hide Find, Text, Indexed, KidsOf, NulFree;
      ok := posParent != 0;
      if ok {
        OutPlaced(elem, forest, posParent, pos, posChild) by { IndexedParts(elem, forest, posDeleted, dead); }
        SetPos(elem[posParent].parent, posParent, pos);
      }
    }

    // ------------------------------------------------------------------ reading data

    /** The data of an element: its text and CDATA sections, "" if it has children. */
    method GetData(iPos: nat, table: map<string, int>) returns (strData: string)
      requires Valid() && (iPos == 0 || iPos in Ids(forest))
      ensures iPos < |elem| && strData == if iPos == 0 then "" else D.DataOf(doc, elem[iPos], table)
    {
      hide Find, Text, Indexed, Placed, D.ContentData;
      strData := "";
      ContentInside(elem, forest, iPos, posDeleted, dead);
      if iPos != 0 && !elem[iPos].IsEmptyElement() {
        if elem[iPos].child == 0 {
          strData := ReadContent(elem[iPos].StartContent(), elem[iPos].ContentLen(), table);
        }
      }
    }

    method ReadContent(nStartContent: nat, nContentLen: nat, table: map<string, int>) returns (strData: string)
      requires nStartContent + nContentLen <= |doc| && NulFree(doc)
      ensures strData == D.ContentData(doc, nStartContent, nStartContent + nContentLen, table)
    {
      hide D.NodesData, Unescaped, N.NodeAt;
      var tag := nStartContent;
      while tag < nStartContent + nContentLen && doc[tag] != '<'
        invariant nStartContent <= tag <= nStartContent + nContentLen
        invariant forall k :: nStartContent <= k < tag ==> doc[k] != '<'
      {
        tag := tag + 1;
      }
      if tag < nStartContent + nContentLen {
        strData := ReadNodes(nStartContent, nStartContent + nContentLen, table);
      } else {
        strData := UnescapeText(doc[nStartContent..], nContentLen, table);
        UnescapedAt(doc, nStartContent, 0, nContentLen, table);
      }
    }

    /** The data of the nodes from start to end: character data unescaped, sections as they are, nothing of the rest. */
    method ReadNodes(start: nat, end: nat, table: map<string, int>) returns (strData: string)
      requires start <= end <= |doc| && NulFree(doc)
      ensures strData == D.NodesData(doc, start, end, 0, -1, table)
    {
      hide Unescaped, N.NodeAt, D.NodesData, D.NodeData;
      strData := "";
      D.NodesDataEnd(doc, end, table);
      var token := new TokenPos(doc, start);
      while token.nNext < end
        invariant token.text == doc && start <= token.nNext <= |doc|
        invariant strData + D.NodesData(doc, token.nNext, end, token.nL, token.nR, table)
               == D.NodesData(doc, start, end, 0, -1, table)
        decreases |doc| - token.nNext
      {
        ghost var i, l, r := token.nNext, token.nL, token.nR;
        var node := token.ParseNode();
        D.NodesDataStep(doc, i, end, l, r, node, table);
        var piece := ReadPiece(node, table);
        Appended(strData, piece, D.NodesData(doc, node.next, end, node.nameL, node.nameR, table));
        strData := strData + piece;
      }
    }

    method ReadPiece(node: N.Node, table: map<string, int>) returns (piece: string)
      requires node.start <= node.next <= |doc|
      ensures piece == D.NodeData(doc, node, table)
    {
      hide Unescaped;
      piece := "";
      if node.kind == N.TEXT {
        piece := UnescapeText(doc[node.start..], node.next - node.start, table);
        UnescapedAt(doc, node.start, 0, node.next - node.start, table);
      } else if node.kind == N.CDATA_SECTION && node.start + 12 <= node.next {
        piece := doc[node.start + 9..node.next - 3];
      }
    }

    // ------------------------------------------------------------------ parsing

    /** A start tag: a new record, linked in behind the last child of the innermost open element. */
    method StartElem(iPosParent: nat, nStart: nat, nLength: nat, ghost o: Open, ghost tag: string) returns (iPos: nat)
      requires Parsed(elem, o) && Heads(elem, o, 0) && iPosParent == Pos(o)
      requires nStart == |OpenText(o)| && nLength == |tag|
      modifies this`elem
      ensures iPos == |old(elem)| && LinkedLast(old(elem), elem, o, iPos, tag) && !elem[iPos].nonEnded
    {
      hide OpenText, Parsed, Heads, LastTop, LinkedLast;
      ghost var e := elem;
      LastChild(e, o);
      iPos := GetFreePos();
      LinkLast(iPos, iPosParent, if o.done.Node? then o.done.id else 0, LastTop(o.done));
      elem := elem[iPos := elem[iPos].(child := 0, start := nStart, startTagLen := nLength)];
      LinkedLastIs(e, elem, o, iPos, tag, if o.done.Node? then o.done.id else 0, LastTop(o.done));
    }

    /** Link the new record iPos in behind the last child; h and t are the first and the last one, or 0. */
    method LinkLast(iPos: nat, iPosParent: nat, ghost h: nat, ghost t: nat)
      requires iPos + 1 == |elem| && iPosParent < iPos && h < iPos && t < iPos && elem[iPosParent].child == h
      requires h != 0 ==> elem[h].prev == t && t != 0 && h != iPosParent && t != iPosParent
      modifies this`elem
      ensures |elem| == |old(elem)|
      ensures elem[iPos]
        == old(elem)[iPos].(parent := iPosParent, next := 0, prev := if h == 0 then iPos else t, first := h == 0,
        deleted := false, nonEnded := false, illData := false, illFormed := false)
      ensures forall j :: 0 <= j < iPos ==>
        elem[j] == old(elem)[j].(next := if h != 0 && j == t then iPos else old(elem)[j].next,
                                 prev := if h != 0 && j == h then iPos else old(elem)[j].prev,
                                 child := if h == 0 && j == iPosParent then iPos else old(elem)[j].child)
    {
      elem := elem[iPos := elem[iPos].(parent := iPosParent, next := 0)];
      if elem[iPosParent].child != 0 {
        var iPosFirst := elem[iPosParent].child;
        var iPosLast := elem[iPosFirst].prev;
        elem := elem[iPosLast := elem[iPosLast].(next := iPos)];
        elem := elem[iPos := elem[iPos].(prev := iPosLast, first := false)];
        elem := elem[iPosFirst := elem[iPosFirst].(prev := iPos)];
      } else {
        elem := elem[iPosParent := elem[iPosParent].(child := iPos)];
        elem := elem[iPos := elem[iPos].(prev := iPos, first := true)];
      }
      elem := elem[iPos := elem[iPos].(deleted := false, nonEnded := false, illData := false, illFormed := false)];
    }

    /** Mark a text that is not well formed, at the virtual parent and at the current element. */
    method MarkIll(iPos: nat, ghost o: Open)
      requires Parsed(elem, o) && Whole(elem, o) && iPos < |elem|
      modifies this`elem
      ensures Parsed(elem, o) && Whole(elem, o) && |elem| == |old(elem)| && elem[0].illFormed &&
        elem[0].child == old(elem)[0].child && (SomePromoted(elem) <==> SomePromoted(old(elem)))
      ensures old(Heads(elem, o, 0)) ==> Heads(elem, o, 0)
    {
      hide Parsed, Whole, Heads, SomePromoted;
      ghost var e := elem;
      elem := elem[0 := elem[0].(illFormed := true)];
      elem := elem[iPos := elem[iPos].(illData := true)];
      MarkedKeeps(e, elem, o);
    }

    /** The innermost open element whose name the end tag matches; 0 if there is none. */
    method FindMatch(token: TokenPos, iPos: nat, elemstack: seq<string>, ghost o: Open)
      returns (nMatchLevel: nat, iPosMatch: nat)
      requires Parsed(elem, o) && elemstack == Names(o) && iPos == Pos(o)
      requires 0 <= token.nL <= token.nR + 1 <= |token.text|
      ensures nMatchLevel <= |elemstack| && iPosMatch == PosAt(o, nMatchLevel)
      ensures nMatchLevel != 0 ==> Matches(token.text[token.nL..token.nR + 1], elemstack[nMatchLevel - 1])
      ensures forall d :: nMatchLevel <= d < |elemstack| ==> !Matches(token.text[token.nL..token.nR + 1], elemstack[d])
    {
      hide Parsed, Matches;
      NamesDepth(o);
      nMatchLevel, iPosMatch := |elemstack|, iPos;
      while nMatchLevel != 0
        invariant nMatchLevel <= |elemstack| && iPosMatch == PosAt(o, nMatchLevel)
        invariant forall d :: nMatchLevel <= d < |elemstack| ==>
          !Matches(token.text[token.nL..token.nR + 1], elemstack[d])
        decreases nMatchLevel
      {
        var match_ := token.Match(elemstack[nMatchLevel - 1]);
        if match_ {
          break;
        }
        ParentAt(elem, o, nMatchLevel, 0) by { ParsedParts(elem, o); }
        nMatchLevel := nMatchLevel - 1;
        iPosMatch := elem[iPosMatch].parent;
      }
    }

    /** An element with no end tag: its children become its next siblings. k are its children. */
    method EndUnended(iPos: nat, ghost k: Forest) returns (iPosParent: nat)
      requires 0 < iPos < |elem| && elem[iPos].parent < |elem| && elem[iPos].parent != iPos
      requires LinksTo(elem, k, iPos, 0) && Distinct(k) && elem[iPos].child == First(k) && iPos !in Ids(k)
      modifies this`elem
      ensures iPosParent == old(elem)[iPos].parent && Raised(old(elem), elem, iPos, k, iPosParent)
    {
      ghost var e := elem;
      TopsInIds(k);
      LinksToInRange(e, k, iPos, 0);
      var iPosChild := elem[iPos].child;
      iPosParent := elem[iPos].parent;
      elem := elem[iPos := elem[iPos].(endTagLen := 0, nonEnded := true, child := 0, length := elem[iPos].startTagLen)];
      if elem[iPos].illData {
        elem := elem[iPos := elem[iPos].(illData := false)];
        elem := elem[iPosParent := elem[iPosParent].(illData := true)];
      }
      RaiseChildren(iPos, iPosChild, iPosParent, e, k);
    }

    method RaiseChildren(iPos: nat, iPosChild: nat, iPosParent: nat, ghost e: Index, ghost k: Forest)
      requires 0 < iPos < |elem| == |e| && iPosChild == First(k) && LinksTo(e, k, iPos, 0) && Distinct(k) &&
        iPos !in Ids(k)
      requires elem[iPos]
        == e[iPos].(endTagLen := 0, nonEnded := true, child := 0, length := e[iPos].startTagLen,
        illData := elem[iPos].illData)
      requires forall j :: 0 <= j < |e| && j != iPos ==> elem[j] == e[j].(illData := elem[j].illData)
      modifies this`elem
      ensures Raised(e, elem, iPos, k, iPosParent)
    {
      hide Raising, LinksTo, Tops, Distinct, Ids, First;
      ghost var rest := k;
      var i: nat, c: nat := iPos, iPosChild;
      RaisingBegins(e, elem, iPos, k, iPosParent);
      TopsInIds(k);
      while c != 0
        invariant i < |elem| == |e| && c == First(rest) && LinksTo(e, rest, iPos, 0) && Distinct(rest) &&
          Tops(rest) <= Tops(k)
        invariant i !in Tops(rest) && (if i == iPos then rest == k else i in Tops(k) && e[i].next == First(rest))
        invariant Raising(e, elem, iPos, k, rest, iPosParent)
        decreases rest
      {
        ghost var before := elem;
        RestFacts(e, k, rest, iPos);
        elem := elem[c := elem[c].(parent := iPosParent)];
        elem := elem[c := elem[c].(prev := i)];
        elem := elem[i := elem[i].(next := c)];
        RaiseStep(e, before, elem, iPos, k, rest, iPosParent, i);
        i := c;
        c := elem[c].next;
        rest := rest.rest;
      }
      RaisingEnds(e, elem, iPos, k, rest, iPosParent);
    }

    /** Take the elements without end tag off the stack, down to the given depth. */
    method Unwind(iPos0: nat, elemstack0: seq<string>, nMatchLevel: nat, ghost o0: Open)
      returns (iPos: nat, elemstack: seq<string>, ghost o: Open)
      requires Parsed(elem, o0) && Whole(elem, o0) && elemstack0 == Names(o0) && iPos0 == Pos(o0)
      requires nMatchLevel <= |elemstack0| && (o0.Level? ==> Heads(elem, o0.below, o0.id)) && |elem| > 0
      modifies this`elem
      ensures Parsed(elem, o) && Whole(elem, o) && elemstack == Names(o) && iPos == Pos(o) && |elemstack| == nMatchLevel
      ensures o.Level? ==> Heads(elem, o.below, o.id)
      ensures OpenText(o) == OpenText(o0) && iPos == PosAt(o0, nMatchLevel) && |elem| == |old(elem)|
      ensures elemstack == elemstack0[..nMatchLevel] && (nMatchLevel == |elemstack0| ==> o == o0 && elem == old(elem))
      ensures o == UnwoundTo(o0, nMatchLevel)
      ensures SameEnd(old(elem), elem, iPos)
      ensures elem[0].illFormed == old(elem)[0].illFormed && elem[0].child == old(elem)[0].child
      ensures SomePromoted(elem) <==> SomePromoted(old(elem)) || Loses(|elemstack0|, nMatchLevel, o0.done.Node?)
    {
      hide Parsed, Whole, Heads, OpenText, Raised, SomePromoted;
      ghost var e0 := elem;
      iPos, elemstack, o := iPos0, elemstack0, o0;
      NamesDepth(o);
      while |elemstack| > nMatchLevel
        invariant Parsed(elem, o) && Whole(elem, o) && elemstack == Names(o) && iPos == Pos(o)
        invariant nMatchLevel <= |elemstack| <= |elemstack0| && elemstack == elemstack0[..|elemstack|]
        invariant o.Level? ==> Heads(elem, o.below, o.id)
        invariant OpenText(o) == OpenText(o0) && PosAt(o, nMatchLevel) == PosAt(o0, nMatchLevel) && |elem| == |e0|
        invariant |elemstack| == |elemstack0| ==> o == o0 && elem == e0
        invariant UnwoundTo(o, nMatchLevel) == UnwoundTo(o0, nMatchLevel)
        invariant SameEnd(e0, elem, PosAt(o0, nMatchLevel))
        invariant elem[0].illFormed == e0[0].illFormed && elem[0].child == e0[0].child
        invariant |elemstack| < |elemstack0| ==> o.done.Node?
        invariant SomePromoted(elem) <==> SomePromoted(e0) || Loses(|elemstack0|, |elemstack|, o0.done.Node?)
        decreases |elemstack|
      {
        ghost var e := elem;
        NamesDepth(o);
        UnendedReady(elem, o);
        PosAtPromoted(o, nMatchLevel);
        NotAtDepth(elem, o, nMatchLevel);
        var iPosParent := EndUnended(iPos, o.done);
        UnendedNode(e, elem, o);
        RaisedSameEnd(e, elem, iPos, o.done, iPosParent, PosAt(o0, nMatchLevel));
        PromotedSome(o);
        o := Promoted(o);
        iPos := iPosParent;
        elemstack := elemstack[..|elemstack| - 1];
      }
      NamesDepth(o);
    }

    /** A start tag or an empty tag. */
    method TakeStartTag(node: N.Node, iPos0: nat, elemstack0: seq<string>, iPosRoot0: nat, ghost o0: Open,
      ghost l: int, ghost r: int)
      returns (iPos: nat, elemstack: seq<string>, iPosRoot: nat, ghost o: Open)
      requires Ready(elem, o0, doc, node.start, l, r, elemstack0, iPos0, iPosRoot0)
      requires node == N.NodeAt(doc, node.start, l, r) && node.kind == N.ELEMENT && node.start <= node.next <= |doc|
      requires 0 <= node.nameL <= node.nameR + 1 <= |doc|
      modifies this`elem
      ensures Ready(elem, o, doc, node.next, node.nameL, node.nameR, elemstack, iPos, iPosRoot)
      ensures |elem| == |old(elem)| + 1 && o == ReadNode(o0, |old(elem)|, doc, node)
      ensures SomePromoted(elem) <==> SomePromoted(old(elem))
    {
      hide Ready, Parsed, Whole, Heads, OpenText, LinkedLast, N.Run, Started, Closed, SomePromoted, Firsts;
      ghost var e, tag, name := elem, doc[node.start..node.next], Slice(doc, node.nameL, node.nameR);
      ReadyParts(elem, o0, doc, node.start, l, r, elemstack0, iPos0, iPosRoot0);
      var i := StartElem(iPos0, node.start, node.next - node.start, o0, tag);
      iPosRoot := if iPosRoot0 == 0 then i else iPosRoot0;
      ghost var e1 := elem;
      NewIsLast(e, e1, o0, i, tag);
      StartedPromoted(e, e1, o0, i, tag);
      if node.empty {
        elem := elem[i := elem[i].(endTagLen := 0)];
        elem := elem[i := elem[i].(length := node.next - node.start)];
        assert elem == e1[i := e1[i].(endTagLen := 0, length := node.next - node.start)];
        LinkPromoted(e1, elem);
        iPos, elemstack := iPos0, elemstack0;
        StartedPos(o0, i, tag, name);
        o := Closed(Started(o0, i, tag, name), "");
        ReadyEmpty(e, e1, elem, o0, doc, node.start, l, r, elemstack0, iPos0, iPosRoot0, node, i);
      } else {
        iPos := i;
        elemstack := elemstack0 + [doc[node.nameL..node.nameR + 1]];
        o := Started(o0, i, tag, name);
        ReadyStarted(e, elem, o0, doc, node.start, l, r, elemstack0, iPos0, iPosRoot0, node, i);
      }
    }

    /** An end tag: the elements inside the one that it matches have no end tag of their own. */
    method TakeEndTag(token: TokenPos, node: N.Node, iPos0: nat, elemstack0: seq<string>, iPosRoot: nat,
                      ghost o0: Open, ghost l: int, ghost r: int)
      returns (iPos: nat, elemstack: seq<string>, ghost o: Open)
      requires Ready(elem, o0, doc, node.start, l, r, elemstack0, iPos0, iPosRoot)
      requires node == N.NodeAt(doc, node.start, l, r) && node.kind == N.END_TAG && node.start <= node.next <= |doc|
      requires token.text == doc && token.nL == node.nameL && token.nR == node.nameR &&
        0 <= node.nameL <= node.nameR + 1 <= |doc|
      modifies this`elem
      ensures Ready(elem, o, doc, node.next, node.nameL, node.nameR, elemstack, iPos, iPosRoot)
      ensures |elem| == |old(elem)| && o == ReadNode(o0, |old(elem)|, doc, node)
      ensures SomePromoted(elem) <==> SomePromoted(old(elem)) || NodePromotes(o0, doc, node)
    {
      hide Ready, Parsed, Whole, Heads, OpenText, N.Run, Closed, Matches, Between, MoreText, WellFormedFrom,
        WellFormed, Checked, UnwoundTo, SomePromoted, Loses;
      ReadyParts(elem, o0, doc, node.start, l, r, elemstack0, iPos0, iPosRoot);
      var nMatchLevel, iPosMatch := FindMatch(token, iPos0, elemstack0, o0);
      MatchDepthIs(elemstack0, doc[node.nameL..node.nameR + 1], nMatchLevel);
      TagVerdict(elem[0].illFormed, elem, o0, doc, node.start, l, r, node, nMatchLevel);
      if nMatchLevel == 0 {
        ghost var e := elem;
        MarkIll(iPos0, o0);
        iPos, elemstack, o := iPos0, elemstack0, MoreText(o0, doc[node.start..node.next]);
        BetweenMarked(e, elem, o0, doc, node.start);
        ReadyIll(elem, o0, doc, node.start, node.next, node.nameL, node.nameR, elemstack0, iPos0, iPosRoot);
      } else {
        iPos, elemstack, o := CloseMatch(node, iPos0, elemstack0, iPosRoot, nMatchLevel, iPosMatch, o0, l, r);
      }
    }

    /** The end tag matches the element iPosMatch, at depth nMatchLevel. */
    method CloseMatch(node: N.Node, iPos0: nat, elemstack0: seq<string>, iPosRoot: nat, nMatchLevel: nat,
      iPosMatch: nat,
                      ghost o0: Open, ghost l: int, ghost r: int)
      returns (iPos: nat, elemstack: seq<string>, ghost o: Open)
      requires Ready(elem, o0, doc, node.start, l, r, elemstack0, iPos0, iPosRoot)
      requires node == N.NodeAt(doc, node.start, l, r) && node.kind == N.END_TAG && node.start <= node.next <= |doc|
      requires 0 < nMatchLevel <= |elemstack0| && iPosMatch == PosAt(o0, nMatchLevel)
      requires Matches(Slice(doc, node.nameL, node.nameR), elemstack0[nMatchLevel - 1])
      requires nMatchLevel < |elemstack0| ==> !WellFormed(doc)
      modifies this`elem
      ensures Ready(elem, o, doc, node.next, node.nameL, node.nameR, elemstack, iPos, iPosRoot)
      ensures |elem| == |old(elem)| && UnwoundTo(o0, nMatchLevel).Level?
      ensures o == Closed(UnwoundTo(o0, nMatchLevel), doc[node.start..node.next])
      ensures SomePromoted(elem) <==> SomePromoted(old(elem)) || Loses(|elemstack0|, nMatchLevel, o0.done.Node?)
    {
      hide Ready, Parsed, Whole, Heads, OpenText, N.Run, Closed, Matches, Between, MoreText, WellFormedFrom,
        WellFormed, Checked, UnwoundTo, SomePromoted, Loses;
      ReadyParts(elem, o0, doc, node.start, l, r, elemstack0, iPos0, iPosRoot);
      ghost var e := elem;
      MarkMatch(node, elemstack0, nMatchLevel, iPosMatch, o0);
      ghost var e1 := elem;
      ghost var top;
      iPos, elemstack, top := Unwind(iPos0, elemstack0, nMatchLevel, o0);
      NamesDepth(top);
      MatchChecked(e, e1, elem, o0, top, doc, node.start, l, r);
      ReadyEnded(elem, top, doc, node.start, l, r, elemstack, iPosRoot, node);
      UnendedReady(elem, top);
      o := Closed(top, doc[node.start..node.next]);
      iPos := elem[iPos].parent;
      elemstack := elemstack[..|elemstack| - 1];
    }

    /** Record the end of the matching element; elements inside it that are open make the text ill formed. */
    method MarkMatch(node: N.Node, elemstack0: seq<string>, nMatchLevel: nat, iPosMatch: nat, ghost o0: Open)
      requires Parsed(elem, o0) && Whole(elem, o0) && Heads(elem, o0, 0) && |elem| > 0
      requires elemstack0 == Names(o0) && 0 < nMatchLevel <= |elemstack0| && iPosMatch == PosAt(o0, nMatchLevel)
      modifies this`elem
      ensures Parsed(elem, o0) && Whole(elem, o0) && (o0.Level? ==> Heads(elem, o0.below, o0.id))
      ensures |elem| == |old(elem)| && 0 < iPosMatch < |elem| && elem[0].child == old(elem)[0].child
      ensures elem[iPosMatch].length == node.next - elem[iPosMatch].start &&
        elem[iPosMatch].endTagLen == node.next - node.start
      ensures elem[0].illFormed == (old(elem)[0].illFormed || nMatchLevel < |elemstack0|)
      ensures forall j :: 0 <= j < |elem| ==> elem[j].nonEnded == old(elem)[j].nonEnded
      ensures SomePromoted(elem) <==> SomePromoted(old(elem))
    {
      hide Parsed, Whole, Heads, SomePromoted;
      ghost var e := elem;
      MatchInRange(elem, o0, nMatchLevel);
      elem := elem[iPosMatch := elem[iPosMatch].(length := node.start - elem[iPosMatch].start +
        (node.next - node.start))];
      elem := elem[iPosMatch := elem[iPosMatch].(endTagLen := node.next - node.start)];
      EndMarked(e, elem, o0, nMatchLevel, node.next - e[iPosMatch].start, node.next - node.start);
      ghost var e1 := elem;
      if |elemstack0| > nMatchLevel {
        elem := elem[0 := elem[0].(illFormed := true)];
        MarkedKeeps(e1, elem, o0);
      }
      if o0.Level? { HeadsBelow(elem, o0); }
    }

    /**
      Index the elements of the text below the virtual parent; o is the document found. Returns
      the first element, 0 if there is none.
     */
    method ParseElem() returns (iPosRoot: nat, ghost o: Open)
      requires elem == [ClearedElemPos] && NulFree(doc)
      modifies this`elem
      ensures |elem| > 0 && o.Bottom? && Parsed(elem, o) && Whole(elem, o) && OpenText(o) == doc &&
        elem[0].child == iPosRoot
      ensures o.done == Document(doc)
      ensures elem[0].illFormed ==> !WellFormed(doc)
      ensures !elem[0].illFormed ==> NoneUnended(elem) && (WellFormed(doc) <==> TopCount(o.done) == 1)
      ensures SomePromoted(elem) <==> Promotes(doc)
    {
      hide Ready, Parsed, Whole, Heads, OpenText, N.Run, WellFormed, WellFormedFrom, MoreText, ReadTo, ReadNode,
        UnwoundTo, SomePromoted, PromotesTo, Promotes, NodePromotes;
      var token := new TokenPos(doc, 0);
      var elemstack: seq<string> := [];
      var iPos: nat := 0;
      iPosRoot := 0;
      o := Open.Bottom(Nil(""));
      ReadyFirst(doc);
      ReadFirst(doc);
      PromotesFirst(doc);
      NonePromoted(elem);
      while true
        invariant token.text == doc && token.nNext <= |doc| && |elem| > 0
        invariant Ready(elem, o, doc, token.nNext, token.nL, token.nR, elemstack, iPos, iPosRoot)
        invariant ReadTo(doc, token.nNext, token.nL, token.nR, o, |elem|)
        invariant PromotesTo(doc, token.nNext, token.nL, token.nR, o, SomePromoted(elem))
        decreases |doc| - token.nNext
      {
        ghost var at, l, r := token.nNext, token.nL, token.nR;
        var node := token.ParseNode();
        ReadOn(doc, at, l, r, o, |elem|, node);
        PromotesOn(doc, at, l, r, o, |elem|, node, SomePromoted(elem));
        OthersPromoteNot(o, doc, node);
        if node.kind == N.ELEMENT {
          TokenName(doc, at, l, r, node);
          iPos, elemstack, iPosRoot, o := TakeStartTag(node, iPos, elemstack, iPosRoot, o, l, r);
        } else if node.kind == N.END_TAG {
          TokenName(doc, at, l, r, node);
          iPos, elemstack, o := TakeEndTag(token, node, iPos, elemstack, iPosRoot, o, l, r);
        } else if node.kind == N.BAD_NODE {
          o := TakeBadNode(node, iPos, elemstack, iPosRoot, o, l, r);
        } else if node.kind == N.END_OF_DOCUMENT {
          o := TakeEnd(node, iPos, elemstack, iPosRoot, o, l, r);
          break;
        } else {
          ReadyOther(elem, o, doc, at, l, r, elemstack, iPos, iPosRoot, node);
          OtherIsRead(o, |elem|, doc, node);
          o := MoreText(o, doc[at..node.next]);
        }
        ReadyParts(elem, o, doc, token.nNext, token.nL, token.nR, elemstack, iPos, iPosRoot);
      }
    }

    method TakeBadNode(node: N.Node, iPos: nat, ghost elemstack: seq<string>, ghost iPosRoot: nat, ghost o0: Open,
      ghost l: int, ghost r: int)
      returns (ghost o: Open)
      requires Ready(elem, o0, doc, node.start, l, r, elemstack, iPos, iPosRoot)
      requires node == N.NodeAt(doc, node.start, l, r) && node.kind == N.BAD_NODE && node.start <= node.next <= |doc|
      modifies this`elem
      ensures Ready(elem, o, doc, node.next, node.nameL, node.nameR, elemstack, iPos, iPosRoot) &&
        |elem| == |old(elem)| > 0
      ensures o == ReadNode(o0, |elem|, doc, node) && (SomePromoted(elem) <==> SomePromoted(old(elem)))
    {
      hide Ready, Parsed, Whole, Heads, OpenText, N.Run, Between, MoreText, WellFormedFrom, WellFormed, SomePromoted;
      ReadyParts(elem, o0, doc, node.start, l, r, elemstack, iPos, iPosRoot);
      CheckNode(doc, node.start, l, r, Names(o0), Roots(o0), node);
      ghost var e := elem;
      MarkIll(iPos, o0);
      o := MoreText(o0, doc[node.start..node.next]);
      BetweenMarked(e, elem, o0, doc, node.start);
      ReadyIll(elem, o0, doc, node.start, node.next, node.nameL, node.nameR, elemstack, iPos, iPosRoot);
    }

    /** The end of the text: what is still open has no end tag. */
    method TakeEnd(node: N.Node, iPos0: nat, elemstack: seq<string>, iPosRoot: nat, ghost o0: Open, ghost l: int,
      ghost r: int)
      returns (ghost o: Open)
      requires Ready(elem, o0, doc, node.start, l, r, elemstack, iPos0, iPosRoot) && NulFree(doc)
      requires node == N.NodeAt(doc, node.start, l, r) && node.kind == N.END_OF_DOCUMENT && node.start <= |doc|
      requires CharAt(doc, node.start) == '\0'
      modifies this`elem
      ensures o.Bottom? && Parsed(elem, o) && Whole(elem, o) && OpenText(o) == doc && |elem| > 0 &&
        elem[0].child == iPosRoot && o == UnwoundTo(o0, 0)
      ensures elem[0].illFormed ==> !WellFormed(doc)
      ensures !elem[0].illFormed ==> NoneUnended(elem) && (WellFormed(doc) <==> TopCount(o.done) == 1)
      ensures SomePromoted(elem) <==> SomePromoted(old(elem)) || NodePromotes(o0, doc, node)
    {
      hide Ready, Parsed, Whole, Heads, OpenText, N.Run, Between, WellFormedFrom, WellFormed, Checked, UnwoundTo,
        SomePromoted, Loses;
      ReadyParts(elem, o0, doc, node.start, l, r, elemstack, iPos0, iPosRoot);
      ghost var e := elem;
      if |elemstack| > 0 {
        elem := elem[0 := elem[0].(illFormed := true)];
        MarkedKeeps(e, elem, o0);
        if o0.Level? { HeadsBelow(elem, o0); }
      }
      var iPos, left;
      iPos, left, o := Unwind(iPos0, elemstack, 0, o0);
      ReadyLast(e, elem, o0, o, doc, node.start, l, r, elemstack, iPos0, iPosRoot);
    }

    /**
      Index the text anew; is it well formed? For every text the records, all but the first, are the
      elements of the document that the text stands for, and their links and offsets are right. The
      sibling rings are whole too exactly if no element without end tag has had children.
     */
    method ParseDoc() returns (ok: bool)
      requires NulFree(doc)
      modifies this`elem, this`posDeleted, this`posParent, this`pos, this`posChild, this`forest, this`dead
      ensures ok == WellFormed(doc) && forest == Document(doc)
      ensures forall j: nat :: j in Ids(forest) <==> 0 < j < |elem|
      ensures |elem| > 0 && Text(forest) == doc && Distinct(forest) && Links(elem, forest, 0) && Spans(elem, forest, 0)
      ensures elem[0].child == First(forest) && elem[0].length == |doc|
      ensures Ring(elem, forest) <==> !SomePromoted(elem)
      ensures Agree(elem, forest) <==> !Promotes(doc)
      ensures Ended(elem, forest) ==> Agree(elem, forest)
      ensures ok ==> Ended(elem, forest)
      ensures Valid() <==> Ended(elem, forest) && WellTagged(forest)
      ensures doc == "" ==> Valid()
      ensures posParent == 0 && pos == 0 && posChild == 0
    {
      hide Parsed, Whole, OpenText, WellFormed, Links, Spans, Text, WellTagged, Document, Ended, Ring, SomePromoted,
        Promotes;
      SetPos(0, 0, 0);
      posDeleted, dead := 0, [];
      elem := [ClearedElemPos];
      forest := Nil("");
      if |doc| != 0 {
        ghost var o;
        var iPos;
        iPos, o := ParseElem();
        ghost var e := elem;
        elem := elem[0 := elem[0].(length := |doc|)];
        if iPos > 0 {
          elem := elem[0 := elem[0].(child := iPos)];
        }
        forest := o.done;
        ParsedDoc(e, elem, o, doc);
      } else {
        EmptyDoc(doc);
      }
      SetPos(0, 0, 0);
      ok := !elem[0].illFormed && elem[0].child != 0 && elem[elem[0].child].next == 0;
    }
  }

  /** An element has no child link exactly when it has no children. */
  lemma KidsAreLinked(e: Index, f: Forest, i: nat)
    requires Agree(e, f) && (i == 0 || i in Ids(f))
    ensures i < |e| && (e[i].child == 0 <==> KidsOf(f, i).Nil?)
  {
    hide Find, Spans;
    KidsFacts(e, f, i);
    if KidsOf(f, i).Node? { LinksInRange(e, KidsOf(f, i), i); }
  }

  lemma LateNothing(e: Index, x: nat, d: int)
    requires x < |e|
    ensures |Late(e, x, d)| == |e| && (d == 0 ==> Late(e, x, d) == e)
  {
  }

  lemma UnlinkedIs(e: Index, mid: Index, e3: Index, f: Forest, a: R.Remove, head: nat)
    requires R.Applies(f, a) && a.i in Ids(f) && a.p < |e|
    requires var eA := Adjusted(e, f, a.i, R.Growth(f, a), true); var r := RemoveIn(KidsOf(f, a.p), a.i, a.g);
      a.p < |eA| && Siblings(e3, r, a.p) && |e3| == |eA| && e3[a.p] == eA[a.p].(child := First(r)) &&
      Relinked(eA, mid, Ids(r), a.p) && e3 == ReleaseAll(mid, Post(TopNode(KidsOf(f, a.p), a.i).kids) + [a.i], head)
    ensures R.Unlinked(e, mid, e3, f, a, head)
  {
  }

  lemma PlacedAfterCut(e: Index, f: Forest, posParent: nat, pos: nat, posChild: nat, head: nat, dead: seq<nat>)
    requires Placed(f, posParent, pos, posChild) && Indexed(e, f, head, dead) && pos != 0
    ensures R.Applies(f, PlanRemove(f, posParent, pos))
    ensures Placed(R.RemovedFrom(f, PlanRemove(f, posParent, pos)), posParent, PrevOf(KidsOf(f, posParent), pos, 0), 0)
    ensures posChild != 0 ==>
      R.Applies(f, PlanRemove(f, pos, posChild)) &&
      Placed(R.RemovedFrom(f, PlanRemove(f, pos, posChild)), posParent, pos, PrevOf(KidsOf(f, pos), posChild, 0))
  {
    hide Find, Graft, Agree, WellTagged, Pooled, PrevOf, R.RemovedFrom;
    AgreeDistinct(e, f);
    PlacedRemove(f, PlanRemove(f, posParent, pos), posParent, pos, posChild);
    if posChild != 0 { PlacedRemove(f, PlanRemove(f, pos, posChild), posParent, pos, posChild); }
  }

  lemma SkipsNothing(s: string, i: nat)
    requires i < |s| && !IsWhitespace(s[i])
    ensures SkipSpace(s, i) == i
  {
  }

  lemma ValueIsInert(value: string, refs: bool)
    requires NulFree(value)
    ensures IsInert(Escaped(value, 0, true, refs)) && NulFree(Escaped(value, 0, true, refs))
  {
    EscapedIsInert(value, 0, true, refs);
  }

  /** The replacement that x_SetAttrib makes, from what FindAttrib has found. */
  lemma ChangedText(s: string, i: nat, name: string, v: string, found: bool, l: nat, r: nat, quoted: bool, next: nat)
    requires Lookup(s, i, name) == if found then At(l, r, quoted) else Absent(next)
    requires if found then quoted && 1 <= l <= r < |s| else next <= |s|
    ensures found ==> SetAttribText(s, i, name, v) == Splice(s, l - 1, r - l + 2, "\"" + v + "\"")
    ensures !found ==> SetAttribText(s, i, name, v) == Splice(s, next, 0, " " + name + "=\"" + v + "\"")
  {
    hide Search;
    assert " " + name + "=\"" + v + "\"" == " " + name + "=" + Quoted(v);
  }

  lemma ChangeNulFree(d: string, at: nat, len: nat, s: string, name: string, v: string)
    requires at + len <= |d| && NulFree(d) && IsPlainName(name) && NulFree(v)
    requires s == "\"" + v + "\"" || s == " " + name + "=\"" + v + "\""
    ensures NulFree(Splice(d, at, len, s)) && |Splice(d, at, len, s)| == |d| - len + |s|
  {
    SpliceNulFree(d, at, len, s);
  }

  lemma AttribInside(e: Index, f: Forest, i: nat, name: string, head: nat, dead: seq<nat>) returns (t: StartTag)
    requires Indexed(e, f, head, dead) && i in Ids(f) && IsPlainName(name)
    ensures i < |e| && 0 <= e[i].start && e[i].start + 1 <= |Text(f)|
    ensures TagOk(t) && Find(f, i).tag == TagText(t) && TextAt(Text(f), e[i].start, TagText(t))
    ensures match Lookup(Text(f), e[i].start + 1, name)
      case At(l, r, q) => q && 1 <= l <= r < |Text(f)| case Absent(at) => at <= |Text(f)|
  {
    hide Find, Front, Back, Spans, Links, Ring, Distinct, Text, TagText, WellTagged, Search, Pooled, IsPlainName;
    t := ParentTag(e, f, i);
    TagTextFacts(t);
    LookupBounds(Text(f), e[i].start, t, name);
  }

  lemma ContentInside(e: Index, f: Forest, i: nat, head: nat, dead: seq<nat>)
    requires Indexed(e, f, head, dead) && (i == 0 || i in Ids(f))
    ensures i < |e| && 0 <= e[i].StartContent() && 0 <= e[i].ContentLen()
    ensures e[i].StartContent() + e[i].ContentLen() <= |Text(f)|
  {
    hide Find, Front, Back, Links, Ring, Distinct, Text, WellTagged, Pooled;
    if i != 0 {
      ParentFacts(e, f, i);
      NodeInDoc(e, f, i);
    }
  }

  /** What linking in a new last child reads. */
  lemma LastChild(e: Index, o: Open)
    requires Parsed(e, o) && Heads(e, o, 0)
    ensures Pos(o) < |e| && e[Pos(o)].child == First(o.done) && LastTop(o.done) < |e|
    ensures o.done.Node? ==> 0 < o.done.id < |e| && e[o.done.id].prev == LastTop(o.done) && 0 < LastTop(o.done) < |e|
    ensures o.done.Node? ==> o.done.id != Pos(o) && LastTop(o.done) != Pos(o)
  {
    hide OpenSpans, OpenText, Links;
    TopsOfDone(o);
    LinksToInRange(e, o.done, Pos(o), 0);
    FirstOrZero(o.done);
  }

  lemma ParsedParts(e: Index, o: Open)
    requires Parsed(e, o)
    ensures |e| > 0 && OpenDistinct(o) && OpenLinks(e, o, 0) && OpenSpans(e, o)
  {
  }

  /** On the way: the children still in rest have their old parent. */
  ghost predicate Raising(e: Index, e': Index, i: nat, k: Forest, rest: Forest, p: nat) {
    |e'| == |e| && i < |e| &&
    e'[i] == e[i].(next := e'[i].next, child := 0, endTagLen := 0, length := e[i].startTagLen,
                   nonEnded := true, illData := e'[i].illData) &&
    e'[i].next == (if rest == k then e[i].next else First(k)) && (rest == k || k.Node?) &&
    (forall j :: 0 <= j < |e| && j != i ==>
       e'[j] == e[j].(parent := if j in Tops(k) && j !in Tops(rest) then p else e[j].parent,
                      prev := if j in Tops(k) && j !in Tops(rest) then e'[j].prev else e[j].prev,
                      illData := e'[j].illData))
  }

  lemma RestFacts(e: Index, k: Forest, rest: Forest, i: nat)
    requires LinksTo(e, rest, i, 0) && Distinct(rest) && First(rest) != 0 && Tops(rest) <= Tops(k)
    requires LinksTo(e, k, i, 0) && i !in Ids(k)
    ensures rest.Node? && rest.id == First(rest) && 0 < rest.id < |e| && rest.id in Tops(k) && rest.id in Tops(rest)
    ensures rest.id !in Tops(rest.rest) && rest.id != i
    ensures e[rest.id].next == First(rest.rest) && rest.rest != k && Tops(rest.rest) <= Tops(rest)
    ensures First(k) != 0 && k.Node? && LinksTo(e, rest.rest, i, 0) && Distinct(rest.rest)
    ensures forall j :: j in Tops(rest) <==> j == rest.id || j in Tops(rest.rest)
  {
    hide Links, Text;
    TopsInIds(rest.rest);
    TopsInIds(k);
    LinksToInRange(e, k, i, 0);
    FirstOrZero(rest.rest);
  }

  lemma RaisingBegins(e: Index, e': Index, i: nat, k: Forest, p: nat)
    requires |e'| == |e| && i < |e|
    requires e'[i]
      == e[i].(endTagLen := 0, nonEnded := true, child := 0, length := e[i].startTagLen, illData := e'[i].illData)
    requires forall j :: 0 <= j < |e| && j != i ==> e'[j] == e[j].(illData := e'[j].illData)
    ensures Raising(e, e', i, k, k, p)
  {
  }

  lemma RaiseStep(e: Index, e1: Index, e2: Index, i: nat, k: Forest, rest: Forest, p: nat, at: nat)
    requires Raising(e, e1, i, k, rest, p) && rest.Node? && rest.id < |e| && at < |e| && rest.id != i && at != rest.id
    requires rest.id in Tops(k) && rest.id !in Tops(rest.rest) && rest.rest != k && k.Node?
    requires forall j :: j in Tops(rest) <==> j == rest.id || j in Tops(rest.rest)
    requires if at == i then rest == k else at in Tops(k) && at !in Tops(rest) && e[at].next == rest.id
    requires e2
      == e1[rest.id := e1[rest.id].(parent := p)][rest.id := e1[rest.id].(parent := p, prev := at)]
           [at := e1[at].(next := rest.id)]
    ensures Raising(e, e2, i, k, rest.rest, p) && e2[rest.id].next == e[rest.id].next
  {
    hide Tops;
  }

  lemma RaisingEnds(e: Index, e': Index, i: nat, k: Forest, rest: Forest, p: nat)
    requires Raising(e, e', i, k, rest, p) && First(rest) == 0 && LinksTo(e, rest, i, 0)
    ensures Raised(e, e', i, k, p)
  {
  }

  lemma LinkedLastIs(e: Index, e': Index, o: Open, id: nat, tag: string, h: nat, t: nat)
    requires id == |e| && |e'| == |e| + 1 && h == (if o.done.Node? then o.done.id else 0) && t == LastTop(o.done)
    requires o.done.Node? ==> o.done.id != 0
    requires e'[id].parent == Pos(o) && e'[id].next == 0 && e'[id].child == 0 && !e'[id].deleted
    requires e'[id].start == |OpenText(o)| && e'[id].startTagLen == |tag|
    requires e'[id].prev == (if h == 0 then id else t) && e'[id].first == (h == 0)
    requires forall j :: 0 <= j < |e| ==>
      e'[j] == e[j].(next := if h != 0 && j == t then id else e[j].next,
                     prev := if h != 0 && j == h then id else e[j].prev,
                     child := if h == 0 && j == Pos(o) then id else e[j].child)
    ensures LinkedLast(e, e', o, id, tag)
  {
    hide OpenText;
  }

  ghost predicate SameEnd(e: Index, e': Index, i: nat) {
    |e| == |e'| &&
      (i < |e| ==> e'[i].length == e[i].length && e'[i].endTagLen == e[i].endTagLen && e'[i].start == e[i].start)
  }

  lemma UnendedReady(e: Index, o: Open)
    requires Parsed(e, o) && o.Level?
    ensures 0 < o.id < |e| && e[o.id].parent < |e| && e[o.id].parent != o.id && e[o.id].parent == Pos(o.below)
    ensures LinksTo(e, o.done, o.id, 0) && Distinct(o.done) && e[o.id].child == First(o.done) && o.id !in Ids(o.done)
  {
    hide OpenSpans, OpenText;
    ClosedParts(o);
    FirstOrZero(o.done);
    OpenInRange(e, o, 0);
    assert OpenLinks(e, o.below, o.id);
  }

  /** The innermost element is not the one at a smaller depth. */
  lemma NotAtDepth(e: Index, o: Open, d: nat)
    requires Parsed(e, o) && d < |Names(o)|
    ensures PosAt(o, d) != Pos(o) && PosAt(o, d) == PosAt(o.below, d)
  {
    hide OpenSpans, OpenText, OpenLinks;
    OpenZero(o);
    if d > 0 { PosAtOpen(o.below, d); } else { PosAtZero(o.below); }
  }

  /** The list that takes in an element without end tag has elements. */
  lemma PromotedSome(o: Open)
    requires o.Level?
    ensures Promoted(o).done.Node?
  {
  }

  lemma {:induction false} PosAtZero(o: Open)
    ensures PosAt(o, 0) == 0
  {
    if o.Level? { PosAtZero(o.below); }
  }

  lemma RaisedSameEnd(e: Index, e': Index, i: nat, k: Forest, p: nat, j: nat)
    requires Raised(e, e', i, k, p) && j != i
    ensures SameEnd(e, e', j) && (0 < i && |e| > 0 ==> e'[0].illFormed == e[0].illFormed && e'[0].child == e[0].child)
  {
  }

  lemma NewIsLast(e: Index, e': Index, o: Open, id: nat, tag: string)
    requires LinkedLast(e, e', o, id, tag)
    ensures id == |e| && |e'| == |e| + 1
  {
  }

  /** What the level that matches says about the check. */
  lemma TagVerdict(ill: bool, e: Index, o: Open, s: string, i: nat, l: int, r: int, n: N.Node, level: nat)
    requires Checked(ill, e, o, s, i, l, r) && n == N.NodeAt(s, i, l, r) && n.kind == N.END_TAG && level <= |Names(o)|
    requires 0 <= n.nameL <= n.nameR + 1 <= |s|
    requires forall d :: level <= d < |Names(o)| ==> !Matches(s[n.nameL..n.nameR + 1], Names(o)[d])
    ensures level == 0 || level < |Names(o)| ==> !WellFormed(s)
  {
    hide N.Run, WellFormedFrom, WellFormed, Matches, Roots;
    if !ill { CheckNode(s, i, l, r, Names(o), Roots(o), n); }
  }

  lemma BetweenMarked(e: Index, e': Index, o: Open, s: string, i: nat)
    requires Between(e, o, s, i) && Parsed(e', o) && Whole(e', o) && Heads(e', o, 0)
    ensures Between(e', o, s, i)
  {
  }

  lemma MatchInRange(e: Index, o: Open, d: nat)
    requires Parsed(e, o) && 0 < d <= |Names(o)|
    ensures 0 < PosAt(o, d) < |e|
  {
    PosAtOpen(o, d);
    OpenInRange(e, o, 0);
  }

  /** The check is where it was if the innermost element matched. */
  lemma MatchChecked(e: Index, e1: Index, e2: Index, o: Open, top: Open, s: string, i: nat, l: int, r: int)
    requires |e| > 0 && |e1| == |e| && Checked(e[0].illFormed, e, o, s, i, l, r)
    requires forall j :: 0 <= j < |e| ==> e1[j].nonEnded == e[j].nonEnded
    ensures o == top && e2 == e1 ==> Checked(e[0].illFormed, e2, top, s, i, l, r)
  {
    hide WellFormedFrom, WellFormed, N.Run;
  }

  /** What the index is after parsing. */
  lemma ParsedDoc(e: Index, e': Index, o: Open, s: string)
    requires o.Bottom? && Parsed(e, o) && Whole(e, o) && OpenText(o) == s && |e| > 0
    requires e' == e[0 := e[0].(length := |s|)]
    ensures Text(o.done) == s && Distinct(o.done) && Links(e', o.done, 0) && Spans(e', o.done, 0)
    ensures e'[0].child == First(o.done) && e'[0].child < |e'|
    ensures e'[0].child != 0 && e'[e'[0].child].next == 0 <==> TopCount(o.done) == 1
    ensures SomePromoted(e') <==> SomePromoted(e)
    ensures Ring(e', o.done) <==> !SomePromoted(e')
    ensures Agree(e', o.done) <==> Ring(e', o.done)
    ensures Ended(e', o.done) ==> !SomePromoted(e')
    ensures NoneUnended(e) ==> Ended(e', o.done)
    ensures Pooled(e', o.done, 0, []) && forall j: nat :: j in Ids(o.done) <==> 0 < j < |e'|
  {
    hide Parsed, OpenText, OpenRings;
    Finished(e, o);
    DistinctNoZero(o.done);
    LinksInRange(e, o.done, 0);
    LinksFrame(e, e', o.done, 0);
    SpansShift(e, e', o.done, 0, 0);
    OneTop(e', o.done);
    RingSame(e, e', o.done);
    LinkPromoted(e, e');
    UsedIsPooled(e, e', o);
    if Ended(e', o.done) { EndedKeeps(e', o.done); }
  }

  lemma RingSame(e: Index, e': Index, f: Forest)
    requires Links(e, f, 0) && |e| == |e'| && forall j :: 0 <= j < |e| ==> SameRing(e[j], e'[j])
    ensures Ring(e, f) <==> Ring(e', f)
  {
    LinksInRange(e, f, 0);
    if Ring(e, f) { RingFrame(e, e', f); }
    if Ring(e', f) { RingFrame(e', e, f); }
  }

  /** Promotion shows in next links and flags alone. */
  lemma LinkPromoted(e: Index, e': Index)
    requires |e| == |e'| && forall j :: 0 <= j < |e| ==> e'[j].next == e[j].next && e'[j].nonEnded == e[j].nonEnded
    ensures SomePromoted(e') <==> SomePromoted(e)
  {
    if SomePromoted(e) {
      var j :| 0 < j < |e| && PromotedAt(e[j]);
      assert PromotedAt(e'[j]);
    }
    if SomePromoted(e') {
      var j :| 0 < j < |e'| && PromotedAt(e'[j]);
      assert PromotedAt(e[j]);
    }
  }

  lemma EndedKeeps(e: Index, f: Forest)
    requires Ended(e, f) && forall j: nat :: 0 < j < |e| ==> j in Ids(f)
    ensures !SomePromoted(e)
  {
    forall j: nat | 0 < j < |e| ensures !PromotedAt(e[j]) {
      assert j in Ids(f);
    }
  }

  lemma NonePromoted(e: Index)
    requires e == [ClearedElemPos]
    ensures !SomePromoted(e)
  {
  }

  /** Only end tags, and the end of the text, close over elements. */
  lemma OthersPromoteNot(o: Open, s: string, n: N.Node)
    ensures n.kind != N.END_TAG && n.kind != N.END_OF_DOCUMENT ==> !NodePromotes(o, s, n)
  {
  }

  lemma UsedIsPooled(e: Index, e': Index, o: Open)
    requires o.Bottom? && |e| == |e'| && AllUsed(e, o)
    ensures Pooled(e', o.done, 0, [])
  {
    var dead: seq<nat> := [];
    assert OpenIds(o) == Ids(o.done);
    forall j: nat | 0 < j < |e'| ensures j in Ids(o.done) <==> j !in dead {
      assert j in OpenIds(o);
    }
    assert DeletedList(e', 0, dead, 0) && NoDup(dead);
  }

  lemma OneTop(e: Index, k: Forest)
    requires Links(e, k, 0)
    ensures First(k) != 0 && First(k) < |e| && e[First(k)].next == 0 <==> TopCount(k) == 1
  {
  }

  lemma EmptyDoc(s: string)
    requires s == ""
    ensures !WellFormed(s) && Document(s) == Nil("") && Text(Nil("")) == s && WellTagged(Nil(""))
    ensures Ended([ClearedElemPos], Nil(""))
    ensures Links([ClearedElemPos], Nil(""), 0) && Spans([ClearedElemPos], Nil(""), 0)
    ensures Agree([ClearedElemPos], Nil("")) && Pooled([ClearedElemPos], Nil(""), 0, [])
    ensures !SomePromoted([ClearedElemPos]) && Ring([ClearedElemPos], Nil("")) && !Promotes(s)
  {
    AtTheEnd(s, 0, -1);
  }

  lemma NewElemFacts(i: nat, name: string, value: string, flags: NodeFlags)
    requires IsName(name) && NulFree(value)
    ensures var n := NewElem(i, name, value, flags);
      TagsMatch(n.tag, n.kids, n.close) && |n.tag| > 0 && NulFree(NodeText(n)) && Text(n.kids) == n.kids.gap
  {
    var n := NewElem(i, name, value, flags);
    NewElemNulFree(i, name, value, flags);
    hide NulFree, Stored;
    if value == "" {
      var t := StartTag(name, [], if flags.withXhtmlSpace then " " else "", true);
      assert TagText(t) == n.tag;
      assert TagsAre(t, "", n.tag, n.kids, n.close);
    } else {
      var t := StartTag(name, [], "", false);
      assert TagText(t) == n.tag;
      assert EndTag(name, "") == n.close;
      assert TagsAre(t, "", n.tag, n.kids, n.close);
    }
  }

  lemma NewElemNulFree(i: nat, name: string, value: string, flags: NodeFlags)
    requires IsName(name) && NulFree(value)
    ensures NulFree(NodeText(NewElem(i, name, value, flags)))
  {
    if value != "" {
      StoredNulFree(value, flags);
      hide Stored;
      var x := Stored(value, flags);
      Concat3NulFree("<" + name + ">", x, "</" + name + ">");
    }
  }

  lemma Concat3NulFree(a: string, b: string, c: string)
    requires NulFree(a) && NulFree(b) && NulFree(c)
    ensures NulFree(a + b + c)
  {
  }

  lemma StoredNulFree(value: string, flags: NodeFlags)
    requires NulFree(value)
    ensures NulFree(Stored(value, flags))
  {
    if flags.withCData {
      SplitNulFree(value, 0);
    } else {
      EscapedIsInert(value, 0, flags.escapeQuotes, flags.withRefs);
    }
  }

  lemma ElemText(tag: string, value: string, name: string)
    ensures tag + value + "</" + name + ">" == tag + value + ("</" + name + ">")
  {
  }

  lemma SubDocNoDup(k: Forest, i: nat)
    requires Distinct(k) && i !in Ids(k)
    ensures NoDup(Post(k) + [i])
  {
    PostIds(k);
    PostNoDup(k);
    NoDupConcat(Post(k), [i]);
  }

  /** What unlinking reads from the index. */
  lemma UnlinkFacts(e: Index, k: Forest, p: nat, i: nat, g: string)
    requires p < |e| && Siblings(e, k, p) && i in Tops(k)
    ensures 0 < i < |e| && e[i].parent == p && e[i].next == First(TopNode(k, i).rest) && e[i].next < |e|
    ensures e[i].child == First(TopNode(k, i).kids) && p != i
    ensures e[i].first <==> k.id == i
    ensures 0 < k.id < |e| && p != k.id && (e[i].next != 0 ==> p != e[i].next && e[i].next != i)
    ensures k.id != i ==> e[i].prev == PrevOf(k, i, 0) && 0 < e[i].prev < |e| && e[i].prev != i && e[i].prev != p
    ensures First(RemoveIn(k, i, g)) == if k.id == i then e[i].next else k.id
  {
    TopLinks(e, k, p, i);
    TopsInIds(k);
    TopNodeFacts(k, i);
    LinksInRange(e, k, p);
    RemoveIds(k, i, g);
    assert k.id in Ids(k);
    if TopNode(k, i).rest.Node? { assert TopNode(k, i).rest.id in Ids(TopNode(k, i).rest); }
    if k.id != i {
      RestNotFirst(e, k.rest, k.id, i);
      PrevInTops(k, i, 0);
      RemoveIds(k, i, "");
    }
  }

  lemma BypassCorrect(e: Index, e': Index, k: Forest, p: nat, i: nat, g: string)
    requires Siblings(e, k, p) && i in Tops(k) && p < |e|
    requires Bypassed(e, e', p, i, PrevOf(k, i, 0), First(TopNode(k, i).rest), k.id)
    ensures Siblings(e', RemoveIn(k, i, g), p) && Links(e', TopNode(k, i).kids, i)
    ensures e'[i].child == e[i].child && e'[p].child == if k.id == i then First(k.rest) else e[p].child
    ensures e'[p] == e[p].(child := e'[p].child)
    ensures Relinked(e, e', Ids(RemoveIn(k, i, g)), p)
  {
    UnlinkFacts(e, k, p, i, g);
    RemoveIds(k, i, g);
    TopNodeFacts(k, i);
    if TopNode(k, i).rest.Node? { assert TopNode(k, i).rest.id in Ids(TopNode(k, i).rest); }
    if k.id == i {
      BypassFirst(e, e', k, p, g);
    } else {
      PrevInTops(k, i, 0);
      TopsInIds(k);
      DistinctNoZero(k);
      InRemove(k, i, g);
      BypassInner(e, e', k, p, i, g);
    }
    BypassFrame(e, e', p, i, PrevOf(k, i, 0), First(TopNode(k, i).rest), k.id, Ids(RemoveIn(k, i, g)));
  }

  /** Releasing the unlinked element leaves its old siblings linked. */
  lemma UnlinkRelease(mid: Index, e: Index, k: Forest, p: nat, i: nat, g: string, deleted: nat)
    requires i in Tops(k) && Distinct(k) && p !in Ids(k) && p < |mid|
    requires Siblings(mid, RemoveIn(k, i, g), p) && Links(mid, TopNode(k, i).kids, i) && i < |mid|
    requires e == ReleaseAll(mid, Post(TopNode(k, i).kids) + [i], deleted)
    ensures Siblings(e, RemoveIn(k, i, g), p) && |e| == |mid| && e[p] == mid[p]
  {
    var t, r := TopNode(k, i), RemoveIn(k, i, g);
    TopNodeFacts(k, i);
    RemoveIds(k, i, g);
    PostIds(t.kids);
    LinksInRange(mid, t.kids, i);
    LinksInRange(mid, r, p);
    SubDocNoDup(t.kids, i);
    ReleaseAllFrame(mid, Post(t.kids) + [i], deleted);
    LinksFrame(mid, e, r, p);
    RingFrame(mid, e, r);
  }
}
