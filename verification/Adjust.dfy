/** The walk of x_Adjust. */
module AdjustWalk {
  // From one element it visits what follows in document order and, on the way up, every proper
  // ancestor, using only the links.

  import opened ElemForest

  /** One visit: shift the start of an element, or grow the length of an ancestor. */
  datatype Visit = Shift(id: nat) | Grow(id: nat)

  /**
    The open levels above the walk, innermost first. rest is what follows the element in its
    list. A level that the walk itself went down into is not an ancestor of where it started.
   */
  datatype Levels = Bottom | Level(id: nat, rest: Forest, entered: bool, below: Levels)

  function Top(s: Levels): nat { if s.Bottom? then 0 else s.id }

  /** The innermost level that the walk did not enter: the next ancestor to grow. */
  function Base(s: Levels): nat {
    if s.Bottom? then 0 else if s.entered then Base(s.below) else s.id
  }

  ghost predicate Layered(s: Levels) {
    s.Level? ==> Layered(s.below) && (!s.entered ==> Base(s.below) == Top(s.below))
  }

  function LevelIds(s: Levels): set<nat> {
    if s.Bottom? then {0} else {s.id} + Ids(s.rest) + LevelIds(s.below)
  }

  ghost predicate LevelsDistinct(s: Levels) {
    s.Level? ==>
      s.id !in Ids(s.rest) && s.id !in LevelIds(s.below) && Disjoint(Ids(s.rest), LevelIds(s.below)) &&
      Distinct(s.rest) && LevelsDistinct(s.below)
  }

  ghost predicate LevelLinks(e: Index, s: Levels) {
    s.Level? ==>
      0 < s.id < |e| && e[s.id].parent == Top(s.below) && e[s.id].next == First(s.rest) &&
      e[s.id].startTagLen > 0 && Links(e, s.rest, Top(s.below)) && Opened(e, s.rest) && LevelLinks(e, s.below)
  }

  /** Every record of f has a non-empty start tag. */
  ghost predicate Opened(e: Index, f: Forest) {
    forall j :: j in Ids(f) ==> j < |e| && e[j].startTagLen > 0
  }

  // ------------------------------------------------------------------------- what is visited

  function Pre(f: Forest): seq<Visit> {
    if f.Nil? then [] else [Shift(f.id)] + Pre(f.kids) + Pre(f.rest)
  }

  function Upward(s: Levels): seq<Visit> {
    if s.Bottom? then [Grow(0)]
    else (if s.entered then [] else [Grow(s.id)]) + Pre(s.rest) + Upward(s.below)
  }

  function Apply(e: Index, v: Visit, k: int): Index {
    if v.id >= |e| then e
    else match v
      case Shift(i) => e[i := e[i].(start := e[i].start + k)]
      case Grow(i) => e[i := e[i].(length := e[i].length + k)]
  }

  function ApplyAll(e: Index, vs: seq<Visit>, k: int): Index
    decreases |vs|
  {
    if vs == [] then e else ApplyAll(Apply(e, vs[0], k), vs[1..], k)
  }

  /** e and e' differ at most in starts and lengths. */
  ghost predicate SameShape(e: Index, e': Index) {
    |e| == |e'| &&
    forall j :: 0 <= j < |e| ==> e'[j] == e[j].(start := e'[j].start, length := e'[j].length)
  }

  lemma ApplyKeepsShape(e: Index, v: Visit, k: int)
    ensures SameShape(e, Apply(e, v, k))
  {
  }

  /** What the walk knows when it stands at element i with following siblings r. */
  ghost predicate At(e: Index, i: nat, r: Forest, s: Levels) {
    0 < i < |e| && e[i].parent == Top(s) && e[i].next == First(r) && e[i].startTagLen > 0 &&
    Links(e, r, Top(s)) && Opened(e, r) && LevelLinks(e, s) &&
    Distinct(r) && LevelsDistinct(s) && Layered(s) &&
    i !in Ids(r) && i !in LevelIds(s) && Disjoint(Ids(r), LevelIds(s))
  }

  /** The children k of i, still to be visited. */
  ghost predicate Under(e: Index, i: nat, k: Forest, r: Forest, s: Levels) {
    0 < i < |e| && e[i].child == First(k) && Links(e, k, i) && Opened(e, k) && Distinct(k) &&
    i !in Ids(k) && Disjoint(Ids(k), Ids(r)) && Disjoint(Ids(k), LevelIds(s))
  }

  /** Going down to the first child. */
  lemma GoDown(e: Index, i: nat, k: Forest, r: Forest, s: Levels)
    requires At(e, i, r, s) && Under(e, i, k, r, s) && k.Node?
    ensures At(e, k.id, k.rest, Level(i, r, true, s))
    ensures Under(e, k.id, k.kids, k.rest, Level(i, r, true, s))
  {
    assert Ids(k) == {k.id} + Ids(k.kids) + Ids(k.rest);
    assert k.id in Ids(k);
  }

  /** Going on to the next sibling. */
  lemma GoNext(e: Index, i: nat, r: Forest, s: Levels)
    requires At(e, i, r, s) && r.Node?
    ensures At(e, r.id, r.rest, s) && Under(e, r.id, r.kids, r.rest, s)
  {
    assert Ids(r) == {r.id} + Ids(r.kids) + Ids(r.rest);
    assert r.id in Ids(r);
  }

  /** Going up one level. */
  lemma GoUp(e: Index, i: nat, r: Forest, s: Levels)
    requires At(e, i, r, s) && s.Level?
    ensures At(e, s.id, s.rest, s.below)
  {
  }

  lemma {:induction false} BaseInLevels(s: Levels)
    ensures Base(s) in LevelIds(s) && Top(s) in LevelIds(s)
  {
    if s.Level? { BaseInLevels(s.below); }
  }

  // ------------------------------------------------------------- the effect of the visits

  /** Starts shifted by k at the records in A, lengths grown by k at the records in B. */
  ghost function Moved(e: Index, A: set<nat>, B: set<nat>, k: int): (r: Index)
    ensures |r| == |e|
    ensures forall j :: 0 <= j < |e| ==> r[j] == MovedOne(e[j], j in A, j in B, k)
  {
    seq(|e|, j requires 0 <= j < |e| => MovedOne(e[j], j in A, j in B, k))
  }

  ghost function MovedOne(p: ElemPos, shifted: bool, grown: bool, k: int): ElemPos {
    p.(start := if shifted then p.start + k else p.start, length := if grown then p.length + k else p.length)
  }

  lemma {:induction false} ApplyAllConcat(e: Index, a: seq<Visit>, b: seq<Visit>, k: int)
    ensures ApplyAll(e, a + b, k) == ApplyAll(ApplyAll(e, a, k), b, k)
    decreases |a|
  {
    if a == [] {
      assert a + b == b;
    } else {
      assert (a + b)[1..] == a[1..] + b;
      ApplyAllConcat(Apply(e, a[0], k), a[1..], b, k);
    }
  }

  /** Two groups of visits to different records add up. */
  lemma Then(e: Index, a: seq<Visit>, A: set<nat>, B: set<nat>, b: seq<Visit>, A': set<nat>, B': set<nat>,
             C: set<nat>, D: set<nat>, k: int)
    requires Disjoint(A, A') && Disjoint(B, B')
    requires forall x :: x in C <==> x in A || x in A'
    requires forall x :: x in D <==> x in B || x in B'
    requires ApplyAll(e, a, k) == Moved(e, A, B, k)
    requires ApplyAll(Moved(e, A, B, k), b, k) == Moved(Moved(e, A, B, k), A', B', k)
    ensures ApplyAll(e, a + b, k) == Moved(e, C, D, k)
  {
    ApplyAllConcat(e, a, b, k);
    var m := Moved(e, A, B, k);
    var m2, t := Moved(m, A', B', k), Moved(e, C, D, k);
    forall j | 0 <= j < |e| ensures m2[j] == t[j] {
      MovedOneTwice(e[j], j in A, j in B, j in A', j in B', k);
    }
  }

  lemma MovedOneTwice(p: ElemPos, a: bool, b: bool, a': bool, b': bool, k: int)
    requires !(a && a') && !(b && b')
    ensures MovedOne(MovedOne(p, a, b, k), a', b', k) == MovedOne(p, a || a', b || b', k)
  {
  }

  lemma ApplyOne(e: Index, v: Visit, k: int)
    ensures ApplyAll(e, [v], k) == Moved(e, if v.Shift? then {v.id} else {}, if v.Grow? then {v.id} else {}, k)
  {
    assert [v][1..] == [];
  }

  lemma {:induction false} PreEffect(e: Index, f: Forest, k: int)
    requires Distinct(f)
    ensures ApplyAll(e, Pre(f), k) == Moved(e, Ids(f), {}, k)
    decreases f
  {
    if f.Node? {
      var A := {f.id} + Ids(f.kids);
      ApplyOne(e, Shift(f.id), k);
      PreEffect(Moved(e, {f.id}, {}, k), f.kids, k);
      Then(e, [Shift(f.id)], {f.id}, {}, Pre(f.kids), Ids(f.kids), {}, A, {}, k);
      PreEffect(Moved(e, A, {}, k), f.rest, k);
      Then(e, [Shift(f.id)] + Pre(f.kids), A, {}, Pre(f.rest), Ids(f.rest), {}, Ids(f), {}, k);
    } else {
      assert Moved(e, {}, {}, k) == e;
    }
  }

  function RestIds(s: Levels): set<nat> {
    if s.Bottom? then {} else Ids(s.rest) + RestIds(s.below)
  }

  function GrownIds(s: Levels): set<nat> {
    if s.Bottom? then {0} else (if s.entered then {} else {s.id}) + GrownIds(s.below)
  }

  lemma {:induction false} RestAndGrownInLevels(s: Levels)
    ensures RestIds(s) <= LevelIds(s) && GrownIds(s) <= LevelIds(s)
  {
    if s.Level? { RestAndGrownInLevels(s.below); }
  }

  lemma {:induction false} UpwardEffect(e: Index, s: Levels, k: int)
    requires LevelsDistinct(s)
    ensures ApplyAll(e, Upward(s), k) == Moved(e, RestIds(s), GrownIds(s), k)
    decreases s
  {
    if s.Bottom? {
      ApplyOne(e, Grow(0), k);
    } else {
      RestAndGrownInLevels(s.below);
      var G: set<nat> := if s.entered then {} else {s.id};
      var g: seq<Visit> := if s.entered then [] else [Grow(s.id)];
      GrowEffect(e, s, k);
      PreEffect(Moved(e, {}, G, k), s.rest, k);
      Then(e, g, {}, G, Pre(s.rest), Ids(s.rest), {}, Ids(s.rest), G, k);
      UpwardEffect(Moved(e, Ids(s.rest), G, k), s.below, k);
      Then(e, g + Pre(s.rest), Ids(s.rest), G, Upward(s.below), RestIds(s.below), GrownIds(s.below),
           RestIds(s), GrownIds(s), k);
    }
  }

  lemma GrowEffect(e: Index, s: Levels, k: int)
    requires s.Level?
    ensures ApplyAll(e, if s.entered then [] else [Grow(s.id)], k)
         == Moved(e, {}, if s.entered then {} else {s.id}, k)
  {
    ApplyOne(e, Grow(s.id), k);
    assert Moved(e, {}, {}, k) == e;
  }

  // ------------------------------------------------------ where the walk starts, from the root

  /** The levels above i in f, itself below the levels s. */
  ghost function Above(f: Forest, i: nat, s: Levels): Levels
    requires i in Ids(f)
  {
    if f.id == i then s
    else if i in Ids(f.kids) then Above(f.kids, i, Level(f.id, f.rest, false, s))
    else Above(f.rest, i, s)
  }

  lemma {:induction false} StartAt(e: Index, f: Forest, i: nat, s: Levels)
    requires i in Ids(f) && Distinct(f) && Links(e, f, Top(s)) && Opened(e, f)
    requires LevelLinks(e, s) && LevelsDistinct(s) && Layered(s) && Base(s) == Top(s)
    requires Disjoint(Ids(f), LevelIds(s))
    ensures At(e, i, Find(f, i).rest, Above(f, i, s))
    ensures Under(e, i, Find(f, i).kids, Find(f, i).rest, Above(f, i, s))
    ensures Base(Above(f, i, s)) == Top(Above(f, i, s))
    decreases f
  {
    assert Ids(f) == {f.id} + Ids(f.kids) + Ids(f.rest);
    assert f.id in Ids(f);
    if f.id != i {
      if i in Ids(f.kids) {
        StartAt(e, f.kids, i, Level(f.id, f.rest, false, s));
      } else {
        StartAt(e, f.rest, i, s);
      }
    }
  }

  lemma {:induction false} StartSets(f: Forest, i: nat, s: Levels)
    requires i in Ids(f)
    ensures Ids(Find(f, i).rest) + RestIds(Above(f, i, s)) == Following(f, i) + RestIds(s)
    ensures GrownIds(Above(f, i, s)) == Ancestors(f, i) + GrownIds(s)
    decreases f
  {
    if f.id != i {
      if i in Ids(f.kids) {
        StartSets(f.kids, i, Level(f.id, f.rest, false, s));
      } else {
        StartSets(f.rest, i, s);
      }
    }
  }

  /** All that x_Adjust visits from i; the element's own children only when the edit is inside it. */
  ghost function Tour(f: Forest, i: nat, afterPos: bool): seq<Visit>
    requires i in Ids(f)
  {
    (if afterPos then [] else Pre(Find(f, i).kids)) + Pre(Find(f, i).rest) + Upward(Above(f, i, Bottom))
  }

  /** The index after x_Adjust: exactly the following elements shift and exactly the ancestors grow. */
  ghost function Adjusted(e: Index, f: Forest, i: nat, k: int, afterPos: bool): Index
    requires i in Ids(f)
  {
    Moved(e, (if afterPos then {} else Ids(Find(f, i).kids)) + Following(f, i), Ancestors(f, i) + {0}, k)
  }

  lemma TourEffect(e: Index, f: Forest, i: nat, k: int, afterPos: bool)
    requires i in Ids(f) && Distinct(f) && 0 !in Ids(f) && Links(e, f, 0) && Opened(e, f)
    ensures ApplyAll(e, Tour(f, i, afterPos), k) == Adjusted(e, f, i, k, afterPos)
  {
    var n, s := Find(f, i), Above(f, i, Bottom);
    StartAt(e, f, i, Bottom);
    StartSets(f, i, Bottom);
    RestAndGrownInLevels(s);
    var K: set<nat> := if afterPos then {} else Ids(n.kids);
    var pk := if afterPos then [] else Pre(n.kids);
    PreEffect(e, n.kids, k);
    assert Moved(e, {}, {}, k) == e;
    PreEffect(Moved(e, K, {}, k), n.rest, k);
    Then(e, pk, K, {}, Pre(n.rest), Ids(n.rest), {}, K + Ids(n.rest), {}, k);
    UpwardEffect(Moved(e, K + Ids(n.rest), {}, k), s, k);
    var F, G := K + Following(f, i), Ancestors(f, i) + {0};
    forall x ensures x in F <==> x in K + Ids(n.rest) || x in RestIds(s) {
      assert x in Ids(n.rest) + RestIds(s) <==> x in Following(f, i) + RestIds(Bottom);
    }
    Then(e, pk + Pre(n.rest), K + Ids(n.rest), {}, Upward(s), RestIds(s), GrownIds(s), F, G, k);
  }

  // ---------------------------------------------------- what the code's navigation reaches

  /** Climbing from i by parent links, up to fuel levels, ends at j: top itself, or a next sibling. */
  ghost predicate ClimbsTo(e: Index, i: nat, top: nat, j: nat, fuel: nat)
    requires i < |e|
    decreases fuel
  {
    var p := e[i].parent;
    if p == top then j == top
    else p < |e| && (if e[p].next != 0 then j == e[p].next else fuel > 0 && ClimbsTo(e, p, top, j, fuel - 1))
  }

  ghost predicate Climbs(e: Index, i: nat, top: nat, j: nat)
    requires i < |e|
  {
    exists fuel :: ClimbsTo(e, i, top, j, fuel)
  }

  function NewTop(e: Index, i: nat, top: nat): nat
    requires i < |e|
  {
    if i == top then e[i].parent else top
  }

  /** One round of navigation leads from i to j. */
  ghost predicate Moves(e: Index, i: nat, top: nat, posFirst: bool, j: nat)
    requires i < |e|
  {
    if i != top && !posFirst && e[i].child != 0 then j == e[i].child
    else if e[i].next != 0 then j == e[i].next
    else Climbs(e, i, NewTop(e, i, top), j)
  }

  /** Starting from i, the navigation makes exactly the visits todo and then stops. */
  ghost predicate Chain(e: Index, i: nat, top: nat, posFirst: bool, todo: seq<Visit>)
    decreases |todo|
  {
    i < |e| &&
    if e[i].startTagLen == 0 then todo == []
    else
      todo != [] && todo[0].id < |e| && Moves(e, i, top, posFirst, todo[0].id) &&
      todo[0] == (if todo[0].id == NewTop(e, i, top) then Grow(todo[0].id) else Shift(todo[0].id)) &&
      Chain(e, todo[0].id, NewTop(e, i, top), false, todo[1..])
  }

  lemma {:induction false} ClimbsFrame(e: Index, e': Index, i: nat, top: nat, j: nat, fuel: nat)
    requires i < |e| && ClimbsTo(e, i, top, j, fuel) && SameShape(e, e')
    ensures ClimbsTo(e', i, top, j, fuel)
    decreases fuel
  {
    if e[i].parent != top && e[e[i].parent].next == 0 {
      ClimbsFrame(e, e', e[i].parent, top, j, fuel - 1);
    }
  }

  lemma {:induction false} ChainFrame(e: Index, e': Index, i: nat, top: nat, posFirst: bool, todo: seq<Visit>)
    requires Chain(e, i, top, posFirst, todo) && SameShape(e, e')
    ensures Chain(e', i, top, posFirst, todo)
    decreases |todo|
  {
    if todo != [] {
      var t := NewTop(e, i, top);
      if Climbs(e, i, t, todo[0].id) {
        var fuel :| ClimbsTo(e, i, t, todo[0].id, fuel);
        ClimbsFrame(e, e', i, t, todo[0].id, fuel);
      }
      ChainFrame(e, e', todo[0].id, t, false, todo[1..]);
    }
  }

  /** The level at which climbing stops: one to grow, or one with a next sibling. */
  ghost function Landing(s: Levels): Levels {
    if s.Bottom? || !s.entered || s.rest.Node? then s else Landing(s.below)
  }

  ghost function LandsOn(s: Levels): nat {
    if s.Bottom? then 0 else if s.entered then First(s.rest) else s.id
  }

  lemma {:induction false} ClimbLands(e: Index, i: nat, s: Levels) returns (fuel: nat)
    requires At(e, i, Nil(""), s)
    ensures ClimbsTo(e, i, Base(s), LandsOn(Landing(s)), fuel)
    ensures Upward(Landing(s)) == Upward(s) && Base(Landing(s)) == Base(s) && Layered(Landing(s))
    ensures Landing(s).Level? ==>
              At(e, Landing(s).id, Landing(s).rest, Landing(s).below) && (Landing(s).entered ==> Landing(s).rest.Node?)
    decreases s
  {
    fuel := 0;
    if s.Level? {
      GoUp(e, i, Nil(""), s);
      BaseInLevels(s.below);
      if s.entered && s.rest.Nil? {
        AtNil(e, s.id, s.rest, s.below);
        var n := ClimbLands(e, s.id, s.below);
        fuel := n + 1;
      }
    }
  }

  lemma AtNil(e: Index, i: nat, r: Forest, s: Levels)
    requires At(e, i, r, s) && r.Nil?
    ensures At(e, i, Nil(""), s)
  {
  }

  /** The navigation, standing at an element whose children are not to be visited. */
  lemma {:induction false} ChainSkip(e: Index, i: nat, r: Forest, s: Levels, top: nat, posFirst: bool)
    requires At(e, i, r, s) && e[0].startTagLen == 0
    requires i == top || posFirst || e[i].child == 0
    requires if i == top then Base(s) == Top(s) else Base(s) == top
    ensures Chain(e, i, top, posFirst, Pre(r) + Upward(s))
    decreases |Pre(r) + Upward(s)|, 3
  {
    hide Links, Opened, LevelLinks, LevelsDistinct, Layered, Distinct, Upward;
    BaseInLevels(s);
    if r.Node? {
      ChainArrive(e, i, r, s);
      ChainStep(e, i, top, posFirst, Shift(r.id), Pre(r.kids) + Pre(r.rest) + Upward(s));
      assert Pre(r) + Upward(s) == [Shift(r.id)] + (Pre(r.kids) + Pre(r.rest) + Upward(s));
    } else {
      assert Pre(r) + Upward(s) == Upward(s);
      ChainClimb(e, i, r, s, top, posFirst);
    }
  }

  lemma {:induction false} ChainClimb(e: Index, i: nat, r: Forest, s: Levels, top: nat, posFirst: bool)
    requires At(e, i, r, s) && e[0].startTagLen == 0 && r.Nil?
    requires i == top || posFirst || e[i].child == 0
    requires NewTop(e, i, top) == Base(s)
    ensures Chain(e, i, top, posFirst, Upward(s))
    decreases |Upward(s)|, 2, 1
  {
    AtNil(e, i, r, s);
    var fuel := ClimbLands(e, i, s);
    ChainLanding(e, i, Landing(s), top, posFirst);
  }

  lemma TodoDown(i: nat, k: Forest, r: Forest, s: Levels)
    requires k.Node?
    ensures Pre(k) + Pre(r) + Upward(s)
         == [Shift(k.id)] + (Pre(k.kids) + Pre(k.rest) + Upward(Level(i, r, true, s)))
  {
    Regroup(Shift(k.id), Pre(k.kids), Pre(k.rest), Pre(r), Upward(s));
  }

  lemma Regroup<T>(x: T, a: seq<T>, b: seq<T>, c: seq<T>, d: seq<T>)
    ensures [x] + a + b + c + d == [x] + (a + b + ([] + c + d))
  {
  }

  lemma TodoUp(l: Levels)
    requires l.Level?
    ensures !l.entered ==> Upward(l) == [Grow(l.id)] + (Pre(l.rest) + Upward(l.below))
    ensures l.entered && l.rest.Node? ==>
              Upward(l) == [Shift(l.rest.id)] + (Pre(l.rest.kids) + Pre(l.rest.rest) + Upward(l.below))
  {
  }

  lemma {:induction false} ChainArrive(e: Index, i: nat, r: Forest, s: Levels)
    requires At(e, i, r, s) && e[0].startTagLen == 0 && r.Node?
    ensures 0 < r.id < |e| && r.id != Base(s)
    ensures Chain(e, r.id, Base(s), false, Pre(r.kids) + Pre(r.rest) + Upward(s))
    decreases |Pre(r) + Upward(s)|, 1
  {
    BaseInLevels(s);
    GoNext(e, i, r, s);
    assert r.id in Ids(r);
    ChainShift(e, r.id, r.kids, r.rest, s);
  }

  lemma ChainStep(e: Index, i: nat, top: nat, posFirst: bool, v: Visit, todo: seq<Visit>)
    requires i < |e| && e[i].startTagLen != 0 && v.id < |e| && Moves(e, i, top, posFirst, v.id)
    requires v == if v.id == NewTop(e, i, top) then Grow(v.id) else Shift(v.id)
    requires Chain(e, v.id, NewTop(e, i, top), false, todo)
    ensures Chain(e, i, top, posFirst, [v] + todo)
  {
    assert ([v] + todo)[1..] == todo;
  }

  lemma {:induction false} ChainLanding(e: Index, i: nat, l: Levels, top: nat, posFirst: bool)
    requires 0 < i < |e| && e[i].startTagLen > 0 && e[0].startTagLen == 0 && e[i].next == 0
    requires i == top || posFirst || e[i].child == 0
    requires Base(l) == NewTop(e, i, top) && Climbs(e, i, Base(l), LandsOn(l))
    requires l.Level? ==> At(e, l.id, l.rest, l.below) && (l.entered ==> l.rest.Node?)
    requires l.Level? ==> Layered(l)
    ensures Chain(e, i, top, posFirst, Upward(l))
    decreases |Upward(l)|, 2, 0
  {
    if l.Bottom? {
      assert Chain(e, 0, 0, false, []);
      ChainStep(e, i, top, posFirst, Grow(0), []);
    } else if l.entered {
      ChainArrive(e, l.id, l.rest, l.below);
      ChainStep(e, i, top, posFirst, Shift(l.rest.id), Pre(l.rest.kids) + Pre(l.rest.rest) + Upward(l.below));
      TodoUp(l);
    } else {
      ChainSkip(e, l.id, l.rest, l.below, l.id, false);
      ChainStep(e, i, top, posFirst, Grow(l.id), Pre(l.rest) + Upward(l.below));
      TodoUp(l);
    }
  }

  /** The navigation, standing at an element it has just shifted. */
  lemma {:induction false} ChainShift(e: Index, i: nat, k: Forest, r: Forest, s: Levels)
    requires At(e, i, r, s) && Under(e, i, k, r, s) && e[0].startTagLen == 0
    ensures Chain(e, i, Base(s), false, Pre(k) + Pre(r) + Upward(s))
    decreases |Pre(k) + Pre(r) + Upward(s)|, 4
  {
    BaseInLevels(s);
    if k.Node? {
      ChainDown(e, i, k, r, s);
    } else {
      assert Pre(k) + Pre(r) + Upward(s) == Pre(r) + Upward(s);
      ChainSkip(e, i, r, s, Base(s), false);
    }
  }

  lemma {:induction false} ChainDown(e: Index, i: nat, k: Forest, r: Forest, s: Levels)
    requires At(e, i, r, s) && Under(e, i, k, r, s) && e[0].startTagLen == 0 && k.Node? && i != Base(s)
    ensures Chain(e, i, Base(s), false, Pre(k) + Pre(r) + Upward(s))
    decreases |Pre(k) + Pre(r) + Upward(s)|, 3
  {
    var todo := Pre(k.kids) + Pre(k.rest) + Upward(Level(i, r, true, s));
    TodoDown(i, k, r, s);
    ChainEnter(e, i, k, r, s);
    ChainStep(e, i, Base(s), false, Shift(k.id), todo);
  }

  lemma {:induction false} ChainEnter(e: Index, i: nat, k: Forest, r: Forest, s: Levels)
    requires At(e, i, r, s) && Under(e, i, k, r, s) && e[0].startTagLen == 0 && k.Node?
    ensures 0 < k.id < |e| && k.id != Base(s)
    ensures Chain(e, k.id, Base(s), false, Pre(k.kids) + Pre(k.rest) + Upward(Level(i, r, true, s)))
    decreases |Pre(k) + Pre(r) + Upward(s)|, 1
  {
    GoDown(e, i, k, r, s);
    assert k.id in Ids(k);
    BaseInLevels(s);
    ChainShift(e, k.id, k.kids, k.rest, Level(i, r, true, s));
  }

  /** The navigation from i, started as x_Adjust starts it, makes exactly the tour of i. */
  lemma TourChain(e: Index, f: Forest, i: nat, afterPos: bool)
    requires i in Ids(f) && Distinct(f) && 0 !in Ids(f) && Links(e, f, 0) && Opened(e, f)
    requires |e| > 0 && e[0].startTagLen == 0
    ensures 0 < i < |e| && Chain(e, i, e[i].parent, afterPos, Tour(f, i, afterPos))
  {
    var n, s := Find(f, i), Above(f, i, Bottom);
    StartAt(e, f, i, Bottom);
    BaseInLevels(s);
    if afterPos {
      ChainSkip(e, i, n.rest, s, e[i].parent, true);
      assert [] + Pre(n.rest) == Pre(n.rest);
    } else {
      ChainShift(e, i, n.kids, n.rest, s);
    }
  }
}
