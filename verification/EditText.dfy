/** What edits do to the text and to the list of children. */
module EditText {
  // Told by places in the text and by the order of the siblings alone.

  import opened ElemForest
  import opened ForestEdit
  import opened ForestGraft
  import opened Agreement
  import opened Escape
  import opened Tags
  import opened DocText
  import opened EditPlan
  import opened EditFacts
  import opened EditFrame
  import opened Placing
  import opened Removing
  import I = Insertion
  import R = Removal

  // ------------------------------------------------------------------- up to the next tag

  /** Behind the whitespace at i other text comes than a tag. */
  predicate OtherText(s: string, i: nat) {
    exists k :: i <= k < |s| && IsSpace(s[i..k]) && !IsWhitespace(s[k]) && s[k] != '<'
  }

  /** From i whitespace reaches up to m, where a tag is or the end; with other text behind it nothing is passed. */
  predicate ToTag(s: string, i: nat, m: nat) {
    i <= m <= |s| && IsSpace(s[i..m]) && if OtherText(s, i) then m == i else m == |s| || s[m] == '<'
  }

  lemma SpaceCovers(s: string, i: nat, m: nat, k: nat)
    requires i <= k < m <= |s| && IsSpace(s[i..m])
    ensures IsWhitespace(s[k])
  {
    assert s[i..m][k - i] == s[k];
  }

  lemma SpaceEnds(s: string, i: nat, k: nat, m: nat)
    requires i <= k < |s| && i <= m <= |s| && IsSpace(s[i..k]) && !IsWhitespace(s[k])
    requires IsSpace(s[i..m]) && (m == |s| || !IsWhitespace(s[m]))
    ensures k == m
  {
    if k < m { SpaceCovers(s, i, m, k); }
    if m < k { SpaceCovers(s, i, k, m); }
  }

  /** There is one such place, and TagCut finds it. */
  lemma CutToTag(s: string, i: nat)
    requires i <= |s|
    ensures ToTag(s, i, i + TagCut(s[i..]))
    ensures forall m: nat :: ToTag(s, i, m) ==> m == i + TagCut(s[i..])
  {
    var n := LeadingSpace(s[i..]);
    assert s[i..][..n] == s[i..i + n] && (i + n < |s| ==> s[i..][n] == s[i + n]);
    assert s[i..i] == "";
    TagCutIs(s[i..], n);
    if i + n < |s| && s[i + n] != '<' {
      assert OtherText(s, i);
    } else if OtherText(s, i) {
      var k :| i <= k < |s| && IsSpace(s[i..k]) && !IsWhitespace(s[k]) && s[k] != '<';
      SpaceEnds(s, i, k, i + n);
    }
    forall m: nat | ToTag(s, i, m) ensures m == i + TagCut(s[i..]) {
      if !OtherText(s, i) && m < |s| { SpaceEnds(s, i, m, i + n); }
      if !OtherText(s, i) && m == |s| && i + n < |s| { SpaceEnds(s, i, i + n, m); }
    }
  }

  // ------------------------------------------------------------------ the order of siblings

  function TopOrder(k: Forest): seq<nat> { if k.Nil? then [] else [k.id] + TopOrder(k.rest) }

  lemma SetGapOrder(k: Forest, g: string)
    ensures TopOrder(SetGap(k, g)) == TopOrder(k)
  {
  }

  /** The siblings in front of and behind i. */
  lemma {:induction false} OrderAround(k: Forest, i: nat, g: string) returns (x: seq<nat>, y: seq<nat>)
    requires i in Tops(k)
    ensures TopOrder(k) == x + [i] + y && i !in x && TopOrder(RemoveIn(k, i, g)) == x + y
    ensures PrevOf(k, i, 0) == if x == [] then 0 else x[|x| - 1]
  {
    if k.id == i {
      x, y := [], TopOrder(k.rest);
      SetGapOrder(k.rest, g);
      assert [] + [i] + y == [i] + y && [] + y == y;
    } else {
      x, y := OrderAround(k.rest, i, g);
      PrevBefore(k.rest, i, k.id, x);
      assert [k.id] + (x + [i] + y) == ([k.id] + x) + [i] + y && [k.id] + (x + y) == ([k.id] + x) + y;
      x := [k.id] + x;
    }
  }

  lemma {:induction false} PrevBefore(k: Forest, i: nat, before: nat, x: seq<nat>)
    requires i in Tops(k) && i !in x && exists y :: TopOrder(k) == x + [i] + y
    ensures PrevOf(k, i, before) == if x == [] then before else x[|x| - 1]
  {
    var y :| TopOrder(k) == x + [i] + y;
    if x == [] {
      assert TopOrder(k)[0] == i;
    } else {
      assert TopOrder(k)[0] == x[0] != i;
      assert TopOrder(k.rest) == TopOrder(k)[1..] == x[1..] + [i] + y;
      PrevBefore(k.rest, i, k.id, x[1..]);
    }
  }

  lemma InsertFront(k: Forest, n: Forest, v: string)
    requires n.Node?
    ensures TopOrder(InsertIn(k, 0, n, v)) == [n.id] + TopOrder(k)
  {
    SetGapOrder(k, v);
  }

  lemma {:induction false} InsertBehind(k: Forest, b: nat, n: Forest, v: string, x: seq<nat>, y: seq<nat>)
    requires n.Node? && TopOrder(k) == x + [b] + y && b !in x && b != 0
    ensures TopOrder(InsertIn(k, b, n, v)) == x + [b] + [n.id] + y
    decreases |x|
  {
    hide SetGap;
    assert k.Node? && TopOrder(k)[0] == if x == [] then b else x[0];
    var rest := TopOrder(k)[1..];
    if x == [] {
      assert rest == y;
      InsertFront(k.rest, n, v);
      assert [b] + ([n.id] + y) == [] + [b] + [n.id] + y;
    } else {
      var x' := x[1..];
      assert x == [x[0]] + x' && rest == x' + [b] + y;
      InsertBehind(k.rest, b, n, v, x', y);
      assert [x[0]] + (x' + [b] + [n.id] + y) == x + [b] + [n.id] + y;
    }
  }

  /** The next position is the element behind the current one, or the first. */
  lemma NextInOrder(f: Forest, p: nat, pos: nat, x: seq<nat>, y: seq<nat>)
    requires (p == 0 || p in Ids(f)) && pos !in x
    requires TopOrder(KidsOf(f, p)) == if pos == 0 then y else x + [pos] + y
    ensures NextPos(f, p, pos) == if y == [] then 0 else y[0]
  {
    hide KidsOf;
    if pos != 0 { NextBehind(KidsOf(f, p), pos, x, y); }
  }

  lemma {:induction false} NextBehind(k: Forest, pos: nat, x: seq<nat>, y: seq<nat>)
    requires pos != 0 && pos !in x && TopOrder(k) == x + [pos] + y
    ensures NextAfter(k, pos) == if y == [] then 0 else y[0]
    decreases |x|
  {
    assert k.Node? && TopOrder(k)[0] == if x == [] then pos else x[0];
    var rest := TopOrder(k)[1..];
    if x == [] {
      assert rest == y;
    } else {
      assert x[0] in x && rest == x[1..] + [pos] + y;
      NextBehind(k.rest, pos, x[1..], y);
    }
  }

  // -------------------------------------------------------------------------------- removal

  /**
    A removal takes the element and the whitespace behind it up to the next tag, and nothing else,
    out of the text, and the element out of its list.
   */
  lemma RemovalText(e: Index, f: Forest, p: nat, i: nat, f': Forest, dead: seq<nat>, dead': seq<nat>)
    returns (m: nat, x: seq<nat>, y: seq<nat>)
    requires Agree(e, f) && WellTagged(f) && Removed(f, p, i, f', dead, dead')
    ensures i < |e| && 0 <= e[i].start <= e[i].StartAfter() <= m <= |Text(f)|
    ensures ToTag(Text(f), e[i].StartAfter(), m) && Text(f') == Text(f)[..e[i].start] + Text(f)[m..]
    ensures p == 0 || p in Ids(f')
    ensures TopOrder(KidsOf(f, p)) == x + [i] + y && TopOrder(KidsOf(f', p)) == x + y
    ensures PrevOf(KidsOf(f, p), i, 0) == if x == [] then 0 else x[|x| - 1]
  {
    hide Find, Spans, Links, Ring, Distinct, Text, WellTagged, TagCut, R.RemovedFrom, PrevOf, TopNode, Gone, ToTag,
      TopOrder, Graft, Virtual;
    RemovedSpan(e, f, p, i);
    var s, at := Text(f), e[i].StartAfter();
    CutToTag(s, at);
    m := at + TagCut(s[at..]);
    assert s[..e[i].start] + "" == s[..e[i].start];
    x, y := OrderAround(KidsOf(f, p), i, PlanRemove(f, p, i).g);
    RemovedKids(f, PlanRemove(f, p, i));
  }

  /** SetData replaces what is between the tags; an empty tag becomes a start tag and gets an end tag. */
  lemma RefillText(e: Index, f: Forest, i: nat, content: string)
    requires Agree(e, f) && WellTagged(f) && i in Ids(f)
    ensures i < |e|
    ensures var s, t := Text(f), Text(Graft(f, i, Refilled(f, i, content)));
      if e[i].IsEmptyElement() then
        2 <= e[i].StartAfter() <= |s| + 1 &&
        t == s[..e[i].StartAfter() - 2] + (">" + content + "</" + TagName(Find(f, i).tag)) + s[e[i].StartAfter() - 1..]
      else
        0 <= e[i].StartContent() <= e[i].StartContent() + e[i].ContentLen() <= |s| &&
        t == s[..e[i].StartContent()] + content + s[e[i].StartContent() + e[i].ContentLen()..]
  {
    hide Find, Spans, Links, Ring, Distinct, Text, WellTagged, Graft, Refilled, TagName, Virtual;
    DistinctNoZero(f);
    ParentFacts(e, f, i);
    if SplitsTag(f, i) { RefillSplit(e, f, i, content); } else { RefillPlain(e, f, i, content); }
  }

  lemma RemovedKids(f: Forest, a: R.Remove)
    requires Distinct(f) && R.Applies(f, a)
    ensures var f' := R.RemovedFrom(f, a); (a.p == 0 || a.p in Ids(f')) && KidsOf(f', a.p) == R.LeftKids(f, a)
  {
    if a.p != 0 {
      hide Find, Graft, Distinct;
      R.LeftKidsFacts(f, a);
      FindInside(f, a.p);
      assert FitsBelow(f, a.p, R.LeftKids(f, a));
      DistinctNoZero(f);
      GraftFind(f, a.p, R.LeftParent(f, a));
    }
  }

  // ------------------------------------------------------------------------------ insertion

  function Line(noLines: bool): string { if noLines then "" else "\n" }

  /** Next to which place in the text a new element is put: beside a sibling, or at an end of the content of p. */
  function Beside(e: Index, p: nat, rel: nat, insert: bool): int
    requires p < |e| && rel < |e|
  {
    if rel != 0 then if insert then e[rel].start else e[rel].StartAfter()
    else if insert then e[p].StartContent() else e[p].StartContent() + e[p].ContentLen()
  }

  /**
    An insertion puts the element and its line ends into the text, and nothing else: into an empty tag
    that becomes two, between two tags, or at the next tag behind the place that it is put beside.
   */
  lemma AdditionText(e: Index, f: Forest, p: nat, rel: nat, insert: bool, noLines: bool, n: Forest, f': Forest)
    returns (m: nat)
    requires Agree(e, f) && Addable(f, p, rel, n) && Added(f, p, rel, insert, noLines, n, f')
    ensures p < |e| && rel < |e|
    ensures var s, t, line := Text(f), Text(f'), Line(noLines);
      if p != 0 && e[p].IsEmptyElement() then
        0 <= e[p].StartAfter() - 2 < |s| &&
        t == s[..e[p].StartAfter() - 2] +
             (">" + line + (NodeText(n) + line) + "</" + TagName(Find(f, p).tag)) + s[e[p].StartAfter() - 1..]
      else if p != 0 && e[p].ContentLen() == 0 then
        0 <= e[p].StartContent() <= |s| &&
        t == s[..e[p].StartContent()] + ("\n" + (NodeText(n) + line)) + s[e[p].StartContent()..]
      else
        0 <= Beside(e, p, rel, insert) <= m <= |s| && t == s[..m] + (NodeText(n) + line) + s[m..] &&
        if noLines then m == Beside(e, p, rel, insert) else ToTag(s, Beside(e, p, rel, insert), m)
  {
    hide Find, Spans, Links, Ring, Distinct, Text, WellTagged, TagCut, I.Inserted, PrevOf, ToTag, I.Fits, Tops, Plan,
      NodeText, Virtual, TagName, NoContent, SplitsTag, NewStart;
    m := 0;
    AddableParts(f, p, rel, n);
    ParentKinds(e, f, p, rel, insert, noLines, n);
    if SplitsTag(f, p) {
      PlanSplit(e, f, p, insert, noLines, n);
    } else if NoContent(f, p) {
      PlanFirst(e, f, p, insert, noLines, n);
    } else {
      PlanPlain(e, f, p, rel, insert, noLines, n);
      BesideIs(e, p, rel, insert);
      CutToTag(Text(f), Spot(e, p, rel, insert));
      m := Spot(e, p, rel, insert) + if noLines then 0 else TagCut(Text(f)[Spot(e, p, rel, insert)..]);
    }
  }

  lemma BesideIs(e: Index, p: nat, rel: nat, insert: bool)
    requires p < |e| && rel < |e|
    ensures Spot(e, p, rel, insert) == Beside(e, p, rel, insert)
  {
  }

  lemma {:induction false} OrderLast(k: Forest) returns (x: seq<nat>)
    requires k.Node? && Distinct(k)
    ensures TopOrder(k) == x + [LastTop(k)] && LastTop(k) !in x && LastTop(k) != 0
  {
    if k.rest.Nil? {
      x := [];
    } else {
      x := OrderLast(k.rest);
      LastRest(k.rest, k.id);
      LastIsTop(k.rest);
      TopsInIds(k.rest);
      assert [k.id] + (x + [LastTop(k.rest)]) == ([k.id] + x) + [LastTop(k.rest)];
      x := [k.id] + x;
    }
  }

  lemma AddedKids(f: Forest, a: I.Insert)
    requires Distinct(f) && I.Fits(f, a)
    ensures var f' := I.Inserted(f, a); (a.p == 0 || a.p in Ids(f')) && KidsOf(f', a.p) == I.NewKids(f, a)
  {
    if a.p != 0 {
      hide Find, Graft, Distinct;
      I.NewKidsFacts(f, a);
      FindInside(f, a.p);
      assert FitsBelow(f, a.p, I.NewKids(f, a));
      DistinctNoZero(f);
      GraftFind(f, a.p, I.NewParent(f, a));
    }
  }

  /** An element in front is not named again, and is an element. */
  lemma {:induction false} FrontIsTop(k: Forest, x: seq<nat>, y: seq<nat>)
    requires Distinct(k) && TopOrder(k) == x + y && x != []
    ensures x[|x| - 1] !in x[..|x| - 1] && x[|x| - 1] in Tops(k) && x[|x| - 1] != 0
  {
    assert k.Node? && TopOrder(k)[0] == x[0];
    if |x| > 1 {
      var x' := x[1..];
      assert TopOrder(k.rest) == TopOrder(k)[1..] == x' + y;
      FrontIsTop(k.rest, x', y);
      TopsInIds(k.rest);
      assert x[..|x| - 1] == [x[0]] + x'[..|x'| - 1];
    }
  }

  lemma InsertBefore(k: Forest, i: nat, n: Forest, v: string, x: seq<nat>, y: seq<nat>)
    requires Distinct(k) && n.Node? && TopOrder(k) == x + [i] + y
    ensures TopOrder(InsertIn(k, if x == [] then 0 else x[|x| - 1], n, v)) == x + [n.id] + [i] + y
  {
    hide TopOrder, InsertIn, Distinct;
    if x == [] {
      InsertFront(k, n, v);
      assert [n.id] + ([] + [i] + y) == [] + [n.id] + [i] + y;
    } else {
      var x', b := x[..|x| - 1], x[|x| - 1];
      assert x == x' + [b] && x + [i] + y == x' + [b] + ([i] + y) == x + ([i] + y);
      FrontIsTop(k, x, [i] + y);
      InsertBehind(k, b, n, v, x', [i] + y);
      assert x' + [b] + [n.id] + ([i] + y) == x + [n.id] + [i] + y;
    }
  }

  /** The new element is right before or right behind the sibling it is put beside, or first or last without one. */
  lemma AdditionOrder(f: Forest, p: nat, rel: nat, insert: bool, noLines: bool, n: Forest, f': Forest)
    returns (x: seq<nat>, y: seq<nat>)
    requires Addable(f, p, rel, n) && Added(f, p, rel, insert, noLines, n, f')
    ensures p == 0 || p in Ids(f')
    ensures rel != 0 ==>
      TopOrder(KidsOf(f, p)) == x + [rel] + y &&
      TopOrder(KidsOf(f', p)) == if insert then x + [n.id] + [rel] + y else x + [rel] + [n.id] + y
    ensures rel == 0 ==>
      TopOrder(KidsOf(f', p)) == if insert then [n.id] + TopOrder(KidsOf(f, p)) else TopOrder(KidsOf(f, p)) + [n.id]
  {
    var a, k := Plan(f, p, rel, insert, noLines, n), KidsOf(f, p);
    PlanPlaces(f, p, rel, insert, noLines, n);
    AddedKids(f, a);
    I.KidsDistinct(f, p);
    hide Find, Distinct, WellTagged, Plan, I.Inserted, TopOrder, PrevOf, InsertIn, KidsOf;
    x, y := [], [];
    if rel != 0 {
      x, y := OrderAround(k, rel, "");
      if !insert {
        DistinctNoZero(k);
        InsertBehind(k, rel, a.n, a.v, x, y);
      } else {
        InsertBefore(k, rel, a.n, a.v, x, y);
      }
    } else if insert || k.Nil? {
      InsertFront(k, a.n, a.v);
      NilOrder(k);
    } else {
      var z := OrderLast(k);
      assert TopOrder(k) == z + [LastTop(k)] + [];
      InsertBehind(k, LastTop(k), a.n, a.v, z, []);
      assert z + [LastTop(k)] + [n.id] + [] == TopOrder(k) + [n.id];
    }
  }

  lemma NilOrder(k: Forest)
    ensures k.Nil? ==> TopOrder(k) == []
  {
  }

  lemma PlanPlaces(f: Forest, p: nat, rel: nat, insert: bool, noLines: bool, n: Forest)
    requires Addable(f, p, rel, n)
    ensures var a, k := Plan(f, p, rel, insert, noLines, n), KidsOf(f, p);
      a.p == p && a.n.Node? && a.n.id == n.id && (k.Node? || rel != 0 ==> a.b == Predecessor(k, rel, insert)) &&
      (k.Nil? ==> a.b == 0)
  {
    hide Find, Distinct, TagCut, TagName;
    PlanFits(f, p, rel, insert, noLines, n);
  }
}
