/** The walk of x_ReleaseSubDoc. */
module ReleaseWalk {
  // It overwrites the next links it follows: a released record's next link joins it to the list of
  // deleted records.

  import opened ElemForest

  /** A record after release, in front of the deleted record next. */
  function Released(p: ElemPos, next: nat): ElemPos {
    p.(next := next, first := false, deleted := true, nonEnded := false, illData := false, illFormed := false)
  }

  /** The order of release: children before their parent, siblings left to right. */
  function Post(f: Forest): seq<nat> {
    if f.Nil? then [] else Post(f.kids) + [f.id] + Post(f.rest)
  }

  /** Release the records in order, the first in front of the list headed by deleted. */
  function ReleaseAll(e: Index, order: seq<nat>, deleted: nat): Index
    decreases |order|
  {
    if order == [] || order[0] >= |e| then e
    else ReleaseAll(e[order[0] := Released(e[order[0]], deleted)], order[1..], order[0])
  }

  ghost predicate NoDup(s: seq<nat>) {
    forall a, b :: 0 <= a < b < |s| ==> s[a] != s[b]
  }

  // -------------------------------------------------------- what the navigation reaches

  /** First-child links lead from i down to the leaf j, through records still to be released. */
  ghost predicate Descends(e: Index, i: nat, j: nat, todo: seq<nat>, fuel: nat)
    decreases fuel
  {
    i in todo && 0 < i < |e| &&
    if e[i].child == 0 then j == i else fuel > 0 && Descends(e, e[i].child, j, todo, fuel - 1)
  }

  /** About to enter i: the code will release exactly todo, in order, and stop after top. */
  ghost predicate Enters(e: Index, top: nat, i: nat, todo: seq<nat>, fuel: nat)
    decreases |todo|, 1
  {
    todo != [] && Descends(e, i, todo[0], todo, fuel) && Leaves(e, top, todo[0], todo)
  }

  /** About to release i itself. */
  ghost predicate Leaves(e: Index, top: nat, i: nat, todo: seq<nat>)
    decreases |todo|, 0
  {
    todo != [] && todo[0] == i && 0 < i < |e| &&
    if i == top then todo == [i]
    else if e[i].next != 0 then exists fuel :: Enters(e, top, e[i].next, todo[1..], fuel)
    else Leaves(e, top, e[i].parent, todo[1..])
  }

  // --------------------------------------------------------------------------- frames

  ghost predicate AgreeOn(e: Index, e': Index, ids: seq<nat>) {
    |e| == |e'| && forall j :: j in ids && j < |e| ==> e[j] == e'[j]
  }

  lemma {:induction false} DescendsFrame(e: Index, e': Index, i: nat, j: nat, todo: seq<nat>, fuel: nat)
    requires Descends(e, i, j, todo, fuel) && AgreeOn(e, e', todo)
    ensures Descends(e', i, j, todo, fuel)
    decreases fuel
  {
    if e[i].child != 0 {
      DescendsFrame(e, e', e[i].child, j, todo, fuel - 1);
    }
  }

  lemma {:induction false} LeavesFrame(e: Index, e': Index, top: nat, i: nat, todo: seq<nat>)
    requires Leaves(e, top, i, todo) && AgreeOn(e, e', todo)
    ensures Leaves(e', top, i, todo)
    decreases |todo|, 0
  {
    assert i in todo;
    assert AgreeOn(e, e', todo[1..]);
    if i != top {
      if e[i].next != 0 {
        var fuel :| Enters(e, top, e[i].next, todo[1..], fuel);
        EntersFrame(e, e', top, e[i].next, todo[1..], fuel);
      } else {
        LeavesFrame(e, e', top, e[i].parent, todo[1..]);
      }
    }
  }

  lemma {:induction false} EntersFrame(e: Index, e': Index, top: nat, i: nat, todo: seq<nat>, fuel: nat)
    requires Enters(e, top, i, todo, fuel) && AgreeOn(e, e', todo)
    ensures Enters(e', top, i, todo, fuel)
    decreases |todo|, 1
  {
    DescendsFrame(e, e', i, todo[0], todo, fuel);
    LeavesFrame(e, e', top, todo[0], todo);
  }

  /** After releasing the head of todo, the navigation still releases the rest. */
  lemma ReleaseHead(e: Index, top: nat, i: nat, todo: seq<nat>, deleted: nat)
    requires Leaves(e, top, i, todo) && NoDup(todo) && i != top
    ensures var e' := e[i := Released(e[i], deleted)];
            if e[i].next != 0 then exists fuel :: Enters(e', top, e[i].next, todo[1..], fuel)
            else Leaves(e', top, e[i].parent, todo[1..])
  {
    var e' := e[i := Released(e[i], deleted)];
    assert AgreeOn(e, e', todo[1..]);
    if e[i].next != 0 {
      var fuel :| Enters(e, top, e[i].next, todo[1..], fuel);
      EntersFrame(e, e', top, e[i].next, todo[1..], fuel);
    } else {
      LeavesFrame(e, e', top, e[i].parent, todo[1..]);
    }
  }

  // ------------------------------------------------------- the navigation follows the forest

  /** If after the siblings k the code goes on with tail, then from the first of k it does Post(k) first. */
  lemma {:induction false} ForestEnters(e: Index, top: nat, k: Forest, p: nat, tail: seq<nat>) returns (fuel: nat)
    requires k.Node? && Links(e, k, p) && top !in Ids(k)
    requires Leaves(e, top, p, tail)
    ensures Enters(e, top, k.id, Post(k) + tail, fuel)
    decreases k
  {
    var after := Post(k.rest) + tail;
    if k.rest.Node? {
      var fr := ForestEnters(e, top, k.rest, p, tail);
      assert ([k.id] + after)[1..] == after;
      assert Leaves(e, top, k.id, [k.id] + after);
    } else {
      assert after == tail;
      assert ([k.id] + after)[1..] == tail;
      assert Leaves(e, top, k.id, [k.id] + after);
    }
    assert Post(k) + tail == Post(k.kids) + ([k.id] + after);
    if k.kids.Node? {
      var fk := ForestEnters(e, top, k.kids, k.id, [k.id] + after);
      assert k.id in Post(k) + tail;
      fuel := fk + 1;
    } else {
      assert Post(k) + tail == [k.id] + after;
      fuel := 0;
    }
  }

  lemma TopEnters(e: Index, top: nat, k: Forest) returns (fuel: nat)
    requires 0 < top < |e| && e[top].child == First(k) && Links(e, k, top) && top !in Ids(k)
    ensures Enters(e, top, top, Post(k) + [top], fuel)
  {
    assert Leaves(e, top, top, [top]);
    if k.Node? {
      var fk := ForestEnters(e, top, k, top, [top]);
      fuel := fk + 1;
    } else {
      assert Post(k) + [top] == [top];
      fuel := 0;
    }
  }

  // -------------------------------------------------------------------- what is released

  lemma {:induction false} PostIds(f: Forest)
    ensures forall j :: j in Post(f) <==> j in Ids(f)
  {
    if f.Node? {
      PostIds(f.kids);
      PostIds(f.rest);
    }
  }

  lemma NoDupConcat(a: seq<nat>, b: seq<nat>)
    requires NoDup(a) && NoDup(b) && forall j :: j in a ==> j !in b
    ensures NoDup(a + b)
  {
    forall x, y | 0 <= x < y < |a + b| ensures (a + b)[x] != (a + b)[y] {
      if x < |a| <= y {
        assert a[x] in a;
        assert b[y - |a|] in b;
      }
    }
  }

  lemma {:induction false} PostNoDup(f: Forest)
    requires Distinct(f)
    ensures NoDup(Post(f))
  {
    if f.Node? {
      PostNoDup(f.kids);
      PostNoDup(f.rest);
      PostIds(f.kids);
      PostIds(f.rest);
      NoDupConcat(Post(f.kids), [f.id]);
      NoDupConcat(Post(f.kids) + [f.id], Post(f.rest));
    }
  }

  /** The list of deleted records that starts at head: following next links gives order, then stops at end. */
  ghost predicate DeletedList(e: Index, head: nat, order: seq<nat>, end: nat)
    decreases |order|
  {
    if order == [] then head == end
    else head == order[0] && 0 < head < |e| && e[head].deleted && DeletedList(e, e[head].next, order[1..], end)
  }

  function Reverse(s: seq<nat>): seq<nat> {
    if s == [] then [] else Reverse(s[1..]) + [s[0]]
  }

  lemma {:induction false} DeletedListFrame(e: Index, e': Index, head: nat, order: seq<nat>, end: nat)
    requires DeletedList(e, head, order, end) && AgreeOn(e, e', order)
    ensures DeletedList(e', head, order, end)
    decreases |order|
  {
    if order != [] {
      assert AgreeOn(e, e', order[1..]);
      DeletedListFrame(e, e', e[head].next, order[1..], end);
    }
  }

  lemma {:induction false} ReverseIds(s: seq<nat>)
    ensures |Reverse(s)| == |s| && forall j :: j in Reverse(s) <==> j in s
  {
    if s != [] { ReverseIds(s[1..]); }
  }

  /** Records outside order are untouched; those in order keep all but next and flags. */
  lemma {:induction false} ReleaseAllFrame(e: Index, order: seq<nat>, deleted: nat)
    requires NoDup(order) && forall j :: j in order ==> j < |e|
    ensures |ReleaseAll(e, order, deleted)| == |e|
    ensures forall j :: 0 <= j < |e| ==>
              ReleaseAll(e, order, deleted)[j] ==
              if j in order then Released(e[j], ReleaseAll(e, order, deleted)[j].next) else e[j]
    decreases |order|
  {
    if order != [] {
      assert order[0] in order;
      var e1 := e[order[0] := Released(e[order[0]], deleted)];
      assert NoDup(order[1..]);
      assert forall j :: j in order[1..] ==> j in order;
      ReleaseAllFrame(e1, order[1..], order[0]);
      assert order[0] !in order[1..];
      forall j | 0 <= j < |e|
        ensures ReleaseAll(e, order, deleted)[j] ==
              if j in order then Released(e[j], ReleaseAll(e, order, deleted)[j].next) else e[j]
      {
        assert j in order <==> j == order[0] || j in order[1..];
      }
    }
  }

  /** The last record released heads the list of deleted records. */
  function NewHead(order: seq<nat>, deleted: nat): nat {
    if order == [] then deleted else order[|order| - 1]
  }

  /** Every record released is pushed exactly once, ahead of the old list, latest first. */
  lemma {:induction false} ReleaseAllList(e: Index, order: seq<nat>, deleted: nat, kept: seq<nat>)
    requires NoDup(order) && forall j :: j in order ==> 0 < j < |e| && j !in kept
    requires DeletedList(e, deleted, kept, 0)
    ensures DeletedList(ReleaseAll(e, order, deleted), NewHead(order, deleted), Reverse(order) + kept, 0)
    decreases |order|
  {
    if order == [] {
      assert Reverse(order) + kept == kept;
    } else {
      var i := order[0];
      assert i in order;
      assert forall j :: j in order[1..] ==> j in order;
      var e1 := e[i := Released(e[i], deleted)];
      DeletedListFrame(e, e1, deleted, kept, 0);
      assert ([i] + kept)[1..] == kept;
      assert DeletedList(e1, i, [i] + kept, 0);
      assert NoDup(order[1..]) && i !in order[1..];
      ReleaseAllList(e1, order[1..], i, [i] + kept);
      assert Reverse(order) + kept == Reverse(order[1..]) + ([i] + kept);
    }
  }
}
