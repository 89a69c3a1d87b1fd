/** The sibling rings during parsing. */
module ParseRings {
  // They are whole as long as no element without end tag has had children, and broken for good as soon
  // as one has: the first of its promoted children keeps its first flag although it follows a sibling now.

  import opened ElemForest
  import opened ForestEdit
  import opened DocText
  import opened Parsing
  import opened OpenElements

  /** An element without end tag has had its children promoted behind it. */
  ghost predicate SomePromoted(e: Index) {
    exists j :: 0 < j < |e| && PromotedAt(e[j])
  }

  predicate PromotedAt(p: ElemPos) { p.nonEnded && p.next != 0 }

  /** What follows an element without end tag was the first of its children. */
  ghost predicate Firsts(e: Index) {
    forall j :: 0 <= j < |e| && PromotedAt(e[j]) ==> e[j].next < |e| && e[e[j].next].first
  }

  /** Every list begins with a first element. */
  ghost predicate OpenFirst(e: Index, o: Open, after: nat) {
    (FirstOr(o.done, after) != 0 ==> FirstOr(o.done, after) < |e| && e[FirstOr(o.done, after)].first) &&
    (o.Level? ==> OpenFirst(e, o.below, o.id))
  }

  ghost predicate Rung(e: Index, o: Open) {
    Firsts(e) && OpenFirst(e, o, 0) && (SomePromoted(e) || OpenRings(e, o, 0))
  }

  lemma {:induction false} OpenFirstFrame(e: Index, e': Index, o: Open, after: nat)
    requires OpenFirst(e, o, after) && |e| <= |e'| && forall j :: 0 <= j < |e| ==> e'[j].first == e[j].first
    ensures OpenFirst(e', o, after)
  {
    if o.Level? { OpenFirstFrame(e, e', o.below, o.id); }
  }

  /** Promotion is what it was if the same elements are unended and only ended ones get next links. */
  lemma SamePromoted(e: Index, e': Index)
    requires |e| <= |e'| && forall j :: 0 <= j < |e| ==> e'[j].first == e[j].first && e'[j].nonEnded == e[j].nonEnded
    requires forall j :: 0 <= j < |e| ==> e'[j].next == e[j].next || (e[j].next == 0 && !e[j].nonEnded)
    requires forall j :: |e| <= j < |e'| ==> !e'[j].nonEnded
    ensures SomePromoted(e') <==> SomePromoted(e)
    ensures Firsts(e) ==> Firsts(e')
  {
    if SomePromoted(e) {
      var j :| 0 < j < |e| && PromotedAt(e[j]);
      assert PromotedAt(e'[j]);
    }
    if SomePromoted(e') {
      var j :| 0 < j < |e'| && PromotedAt(e'[j]);
      assert PromotedAt(e[j]);
    }
  }

  // ----------------------------------------------------------------------------- the steps

  lemma RungMore(e: Index, o: Open, s: string)
    requires Parsed(e, o) && Rung(e, o)
    ensures Rung(e, MoreText(o, s))
  {
    hide Parsed, OpenRings, Firsts;
    MoreTextParsed(e, o, s);
    AddTextFacts(e, o.done, s, 0, 0, 0);
  }

  lemma StartedPromoted(e: Index, e': Index, o: Open, id: nat, tag: string)
    requires Parsed(e, o) && Heads(e, o, 0) && LinkedLast(e, e', o, id, tag) && !e'[id].nonEnded
    ensures SomePromoted(e') <==> SomePromoted(e)
    ensures Firsts(e) ==> Firsts(e')
  {
    hide OpenSpans, OpenText, Links, Firsts, SomePromoted;
    if o.done.Node? { LastLinkedToZero(e, o); }
    SamePromoted(e, e');
  }

  /** The last element of the innermost list is linked to nothing, and is not unended. */
  lemma LastLinkedToZero(e: Index, o: Open)
    requires Parsed(e, o) && Heads(e, o, 0) && o.done.Node?
    ensures LastTop(o.done) < |e| && e[LastTop(o.done)].next == 0 && !e[LastTop(o.done)].nonEnded
  {
    hide OpenSpans, OpenText, Links;
    LastTo(e, o.done, Pos(o), 0);
    TopsOfDone(o);
    OpenZero(o);
  }

  lemma {:induction false} LastTo(e: Index, k: Forest, p: nat, after: nat)
    requires LinksTo(e, k, p, after) && k.Node?
    ensures 0 < LastTop(k) < |e| && e[LastTop(k)].next == after
  {
    if k.rest.Node? {
      LastRest(k.rest, k.id);
      LastTo(e, k.rest, p, after);
    }
  }

  lemma RungStarted(e: Index, e': Index, o: Open, id: nat, tag: string, name: string)
    requires Parsed(e, o) && Heads(e, o, 0) && Rung(e, o) && LinkedLast(e, e', o, id, tag) && !e'[id].nonEnded
    ensures Rung(e', Started(o, id, tag, name))
  {
    hide OpenSpans, OpenText, Links, OpenRings, Parsed, Heads, Firsts, SomePromoted;
    StartedPromoted(e, e', o, id, tag);
    StartedFirst(e, e', o, id, tag, name);
    if OpenRings(e, o, 0) { StartedRings(e, e', o, id, tag, name); }
  }

  lemma StartedFirst(e: Index, e': Index, o: Open, id: nat, tag: string, name: string)
    requires OpenFirst(e, o, 0) && LinkedLast(e, e', o, id, tag)
    ensures OpenFirst(e', Started(o, id, tag, name), 0)
  {
    hide OpenText;
    assert OpenFirst(e', o, id) by {
      if o.Level? { OpenFirstFrame(e, e', o.below, o.id); }
    }
  }

  /** The first element of a list is the first of a longer one. */
  lemma AppendFirst(k: Forest, id: nat, tag: string, kids: Forest, close: string, rest: Forest)
    ensures FirstOr(Append(k, id, tag, kids, close, rest), 0) == FirstOr(k, id)
  {
    AppendIds(k, id, tag, kids, close, rest);
  }

  lemma RungClosed(e: Index, e': Index, o: Open, close: string)
    requires o.Level? && Parsed(e, o) && Rung(e, o) && Ends(e, e', o, close)
    ensures Rung(e', Closed(o, close))
  {
    hide OpenSpans, OpenText, Links, OpenRings, Parsed, Firsts, SomePromoted, OpenLinks;
    AppendFirst(o.below.done, o.id, o.tag, o.done, close, Nil(""));
    OpenFirstFrame(e, e', o, 0);
    SamePromoted(e, e');
    if OpenRings(e, o, 0) { ClosedRings(e, e', o, close); }
  }

  /** Raising children promotes them, raising none promotes nothing. */
  lemma RaisedPromoted(e: Index, e': Index, o: Open)
    requires o.Level? && Parsed(e, o) && Raised(e, e', o.id, o.done, Pos(o.below))
    ensures SomePromoted(e') <==> SomePromoted(e) || o.done.Node?
  {
    hide OpenSpans, OpenText, Links, LinksTo;
    ClosedParts(o);
    DistinctNoZero(o.done);
    if SomePromoted(e) {
      var j :| 0 < j < |e| && PromotedAt(e[j]);
      assert PromotedAt(e'[j]);
    }
    if o.done.Node? { assert PromotedAt(e'[o.id]); }
    if SomePromoted(e') {
      var j :| 0 < j < |e'| && PromotedAt(e'[j]);
      assert j != o.id ==> PromotedAt(e[j]);
    }
  }

  lemma RungRaised(e: Index, e': Index, o: Open)
    requires o.Level? && Parsed(e, o) && Rung(e, o) && Raised(e, e', o.id, o.done, Pos(o.below))
    ensures Rung(e', Promoted(o))
  {
    hide OpenSpans, OpenText, Links, LinksTo, OpenRings, SomePromoted;
    RaisedPromoted(e, e', o);
    AppendFirst(o.below.done, o.id, o.tag, Nil(""), "", o.done);
    OpenFirstFrame(e, e', o, 0);
    RaisedFirsts(e, e', o);
    if OpenRings(e, o, 0) && o.done.Nil? { RaisedRings(e, e', o); }
  }

  lemma RaisedFirsts(e: Index, e': Index, o: Open)
    requires o.Level? && Parsed(e, o) && Firsts(e) && OpenFirst(e, o, 0) && Raised(e, e', o.id, o.done, Pos(o.below))
    ensures Firsts(e')
  {
    hide OpenSpans, OpenText, Links, LinksTo, OpenDistinct;
    forall j | 0 <= j < |e'| && PromotedAt(e'[j]) ensures e'[j].next < |e'| && e'[e'[j].next].first {
      assert j != o.id ==> PromotedAt(e[j]);
    }
  }

  /** An element without end tag and without children leaves the rings whole. */
  lemma RaisedRings(e: Index, e': Index, o: Open)
    requires o.Level? && o.done.Nil? && Parsed(e, o) && OpenRings(e, o, 0) && Raised(e, e', o.id, o.done, Pos(o.below))
    ensures OpenRings(e', Promoted(o), 0)
  {
    hide OpenSpans, OpenText, Links, LinksTo, Ring, RingRest;
    OpenInRange(e, o, 0);
    OpenRingsFrame(e, e', o, 0);
    NilRing(e', "");
    AppendRing(e', o.below.done, o.id, o.tag, Nil(""), "", o.done.gap);
  }

  lemma NilRing(e: Index, g: string)
    ensures Ring(e, Nil(g))
  {
  }

  lemma RungMarked(e: Index, e': Index, o: Open)
    requires Parsed(e, o) && Rung(e, o) && |e'| == |e|
    requires forall j :: 0 <= j < |e| ==>
      SameLinks(e[j], e'[j]) && SameRing(e[j], e'[j]) && e'[j].nonEnded == e[j].nonEnded
    ensures Rung(e', o) && (SomePromoted(e') <==> SomePromoted(e))
  {
    hide OpenSpans, OpenText, Links, OpenRings, Firsts, SomePromoted;
    SamePromoted(e, e');
    OpenFirstFrame(e, e', o, 0);
    OpenInRange(e, o, 0);
    if OpenRings(e, o, 0) { OpenRingsFrame(e, e', o, 0); }
  }

  // ---------------------------------------------------------------------------- the result

  /** In a whole ring nothing behind another element has the first flag. */
  lemma {:induction false} NextNotFirst(e: Index, f: Forest, p: nat, j: nat)
    requires Links(e, f, p) && Ring(e, f) && j in Ids(f)
    ensures j < |e| && (e[j].next != 0 ==> e[j].next < |e| && !e[e[j].next].first)
    decreases f, 1
  {
    if j in Ids(f.kids) {
      NextNotFirst(e, f.kids, f.id, j);
    } else if j != f.id {
      NextNotFirstRest(e, f.rest, p, f.id, j);
    }
  }

  lemma {:induction false} NextNotFirstRest(e: Index, f: Forest, p: nat, before: nat, j: nat)
    requires Links(e, f, p) && RingRest(e, f, before) && j in Ids(f)
    ensures j < |e| && (e[j].next != 0 ==> e[j].next < |e| && !e[e[j].next].first)
    decreases f, 0
  {
    if j in Ids(f.kids) {
      NextNotFirst(e, f.kids, f.id, j);
    } else if j != f.id {
      NextNotFirstRest(e, f.rest, p, f.id, j);
    }
  }

  /** At the end the rings are whole exactly if nothing has been promoted. */
  lemma RungDone(e: Index, o: Open)
    requires o.Bottom? && Rung(e, o) && Links(e, o.done, 0) && |e| > 0
    requires forall j: nat :: 0 < j < |e| ==> j in Ids(o.done)
    ensures Ring(e, o.done) <==> !SomePromoted(e)
  {
    RingToZero(e, o.done);
    if SomePromoted(e) && Ring(e, o.done) {
      var j :| 0 < j < |e| && PromotedAt(e[j]);
      NextNotFirst(e, o.done, 0, j);
    }
  }
}
