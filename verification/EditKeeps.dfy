/**
  What every edit keeps: matching tags, ended elements, the pool of records, the current
  position, and the text of the elements that the edit does not touch.
 */
module EditKeeps {
  import opened ElemForest
  import opened ReleaseWalk
  import opened ForestEdit
  import opened ForestGraft
  import opened SiblingLinks
  import opened Agreement
  import opened Tags
  import R = Removal

  // -------------------------------------------------------------------------- matching tags

  lemma {:induction false} InsertWellTagged(k: Forest, b: nat, n: Forest, v: string)
    requires n.Node? && WellTagged(k) && (b == 0 || b in Tops(k))
    requires TagsMatch(n.tag, n.kids, n.close) && WellTagged(n.kids)
    ensures WellTagged(InsertIn(k, b, n, v))
  {
    if b != 0 { InsertWellTagged(k.rest, if k.id == b then 0 else b, n, v); }
  }

  lemma {:induction false} RemoveWellTagged(k: Forest, i: nat, g: string)
    requires i in Tops(k) && WellTagged(k)
    ensures WellTagged(RemoveIn(k, i, g))
  {
    if k.id != i { RemoveWellTagged(k.rest, i, g); }
  }

  lemma {:induction false} GraftWellTagged(f: Forest, p: nat, n: Forest)
    requires p in Ids(f) && WellTagged(f) && n.Node? && TagsMatch(n.tag, n.kids, n.close) && WellTagged(n.kids)
    ensures WellTagged(Graft(f, p, n))
  {
    if f.id != p {
      if p in Ids(f.kids) {
        GraftWellTagged(f.kids, p, n);
        StillMatches(f.tag, f.kids, Graft(f.kids, p, n), f.close);
      } else {
        GraftWellTagged(f.rest, p, n);
      }
    }
  }

  lemma StillMatches(tag: string, k: Forest, k': Forest, close: string)
    requires TagsMatch(tag, k, close) && k.Node?
    ensures TagsMatch(tag, k', close)
  {
    var t, space :| TagsAre(t, space, tag, k, close);
    assert TagsAre(t, space, tag, k', close);
  }

  // ------------------------------------------------------------- the pool of element records

  /**
    Every record but the virtual parent is either used by the document or on the list of deleted
    records, and on it once.
   */
  ghost predicate Pooled(e: Index, f: Forest, head: nat, dead: seq<nat>) {
    DeletedList(e, head, dead, 0) && NoDup(dead) &&
    forall j: nat :: 0 < j < |e| ==> (j in Ids(f) <==> j !in dead)
  }

  /** The index e and the records outside the document belong to f. */
  ghost predicate Indexed(e: Index, f: Forest, head: nat, dead: seq<nat>) {
    Agree(e, f) && Ended(e, f) && WellTagged(f) && Pooled(e, f, head, dead)
  }

  lemma IndexedParts(e: Index, f: Forest, head: nat, dead: seq<nat>)
    requires Indexed(e, f, head, dead)
    ensures Agree(e, f) && Ended(e, f) && WellTagged(f) && Pooled(e, f, head, dead)
  {
  }

  lemma PooledFrame(e: Index, e': Index, f: Forest, f': Forest, head: nat, dead: seq<nat>)
    requires Pooled(e, f, head, dead) && |e| == |e'|
    requires forall j: nat :: 0 < j < |e| && j !in Ids(f) ==> e'[j] == e[j]
    requires forall j: nat :: 0 < j < |e| ==> (j in Ids(f) <==> j in Ids(f'))
    ensures Pooled(e', f', head, dead)
  {
    hide DeletedList;
    InDead(e, head, dead, 0);
    DeletedListFrame(e, e', head, dead, 0);
  }

  lemma {:induction false} InDead(e: Index, head: nat, dead: seq<nat>, end: nat)
    requires DeletedList(e, head, dead, end)
    ensures forall j :: j in dead ==> 0 < j < |e| && e[j].deleted
    decreases |dead|
  {
    if dead != [] {
      InDead(e, e[head].next, dead[1..], end);
      assert dead == [dead[0]] + dead[1..];
    }
  }

  /** A new record: nothing else has changed outside the document. */
  lemma PooledGrows(e: Index, e': Index, f: Forest, f': Forest, head: nat, dead: seq<nat>)
    requires Pooled(e, f, head, dead) && |e'| == |e| + 1
    requires forall j: nat :: 0 < j < |e| && j !in Ids(f) ==> e'[j] == e[j]
    requires forall j: nat :: j in Ids(f') <==> j in Ids(f) || j == |e|
    ensures Pooled(e', f', head, dead)
  {
    hide DeletedList;
    InDead(e, head, dead, 0);
    assert AgreeOn(e, e'[..|e|], dead);
    DeletedListFrame(e, e'[..|e|], head, dead, 0);
    DeletedListLonger(e'[..|e|], e', head, dead, 0);
  }

  lemma {:induction false} DeletedListLonger(e: Index, e': Index, head: nat, dead: seq<nat>, end: nat)
    requires DeletedList(e, head, dead, end) && |e| <= |e'| && forall j :: 0 <= j < |e| ==> e'[j] == e[j]
    ensures DeletedList(e', head, dead, end)
    decreases |dead|
  {
    if dead != [] { DeletedListLonger(e, e', e[head].next, dead[1..], end); }
  }

  /** After a removal the records of the removed element head the list, its own first. */
  lemma PooledRemoval(e: Index, mid: Index, e3: Index, f: Forest, a: R.Remove, head: nat, dead: seq<nat>)
    requires R.Applies(f, a) && Agree(e, f) && R.Unlinked(e, mid, e3, f, a, head) && Pooled(e, f, head, dead)
    ensures var gone := Post(TopNode(KidsOf(f, a.p), a.i).kids) + [a.i];
      Pooled(e3, R.RemovedFrom(f, a), a.i, Reverse(gone) + dead)
  {
    hide *;
    var gone := GoneFacts(e, f, a);
    UnlinkedOthers(e, mid, e3, f, a, head);
    PoolAfter(e, mid, f, R.RemovedFrom(f, a), gone, head, dead);
  }

  lemma PoolAfter(e: Index, mid: Index, f: Forest, f': Forest, gone: seq<nat>, head: nat, dead: seq<nat>)
    requires Pooled(e, f, head, dead) && |mid| == |e| && NoDup(gone) && gone != []
    requires forall j: nat :: 0 < j < |e| && j !in Ids(f) ==> mid[j] == e[j]
    requires forall j: nat :: j in gone ==> 0 < j < |e| && j in Ids(f)
    requires forall j: nat :: j in Ids(f') <==> j in Ids(f) && j !in gone
    ensures Pooled(ReleaseAll(mid, gone, head), f', gone[|gone| - 1], Reverse(gone) + dead)
  {
    hide DeletedList, Reverse, NoDup, ReleaseAll;
    InDead(e, head, dead, 0);
    GoneNotDead(f, gone, dead);
    DeletedListFrame(e, mid, head, dead, 0);
    ReleaseAllList(mid, gone, head, dead);
    ReleaseAllFrame(mid, gone, head);
    GoneAndDead(f, f', |e|, gone, dead);
  }

  lemma GoneNotDead(f: Forest, gone: seq<nat>, dead: seq<nat>)
    requires forall j: nat :: j in gone ==> j in Ids(f)
    requires forall j: nat :: j in dead ==> j !in Ids(f)
    ensures forall j: nat :: j in gone ==> j !in dead
  {
  }

  lemma GoneAndDead(f: Forest, f': Forest, n: nat, gone: seq<nat>, dead: seq<nat>)
    requires forall j: nat :: j in Ids(f') <==> j in Ids(f) && j !in gone
    requires forall j: nat :: j in gone ==> j in Ids(f) && j !in dead
    requires forall j: nat :: 0 < j < n ==> (j in Ids(f) <==> j !in dead)
    requires NoDup(gone) && NoDup(dead)
    ensures forall j: nat :: 0 < j < n ==> (j in Ids(f') <==> j !in Reverse(gone) + dead)
    ensures NoDup(Reverse(gone) + dead)
  {
    ReverseIds(gone);
    ReverseNoDup(gone);
    NoDupConcat(Reverse(gone), dead);
  }

  lemma {:induction false} ReverseNoDup(s: seq<nat>)
    requires NoDup(s)
    ensures NoDup(Reverse(s))
  {
    if s != [] {
      assert NoDup(s[1..]);
      assert s[0] !in s[1..];
      ReverseNoDup(s[1..]);
      ReverseIds(s[1..]);
      NoDupConcat(Reverse(s[1..]), [s[0]]);
    }
  }

  lemma GoneFacts(e: Index, f: Forest, a: R.Remove) returns (gone: seq<nat>)
    requires R.Applies(f, a) && Agree(e, f)
    ensures gone == Post(TopNode(KidsOf(f, a.p), a.i).kids) + [a.i] && gone[|gone| - 1] == a.i
    ensures NoDup(gone) && (forall j: nat :: j in gone ==> 0 < j < |e| && j in Ids(f)) &&
      (forall j: nat :: j in Ids(R.RemovedFrom(f, a)) <==> j in Ids(f) && j !in gone)
  {
    hide Find, Distinct, Spans, Links, Ring, R.RemovedFrom, R.LeftKids, Text;
    var t := TopNode(KidsOf(f, a.p), a.i);
    gone := Post(t.kids) + [a.i];
    R.RemovedNode(f, a);
    R.KidDistinct(f, a.p);
    KidsNotSelf(f, a.i);
    FindInside(f, a.i);
    PostIds(t.kids);
    PostNoDup(t.kids);
    NoDupConcat(Post(t.kids), [a.i]);
    R.RemovedIds(f, a);
    RemovedAreGone(f, a);
    LinksInRange(e, f, 0);
  }

  lemma RemovedAreGone(f: Forest, a: R.Remove)
    requires R.Applies(f, a) && Distinct(f)
    ensures forall j: nat :: j in Ids(R.RemovedFrom(f, a)) ==> j != a.i && j !in Ids(TopNode(KidsOf(f, a.p), a.i).kids)
  {
    hide Find, Distinct, R.LeftKids;
    R.LeftKidsFacts(f, a);
    R.KidsAround(f, a);
    if a.p != 0 {
      KidsNotSelf(f, a.p);
      GraftIds(f, a.p, R.LeftParent(f, a));
    }
  }

  lemma UnlinkedOthers(e: Index, mid: Index, e3: Index, f: Forest, a: R.Remove, head: nat)
    requires R.Applies(f, a) && Agree(e, f) && R.Unlinked(e, mid, e3, f, a, head)
    ensures |mid| == |e| == |e3| && e3 == ReleaseAll(mid, Post(TopNode(KidsOf(f, a.p), a.i).kids) + [a.i], head)
    ensures forall j: nat :: 0 < j < |e| && j !in Ids(f) ==> mid[j] == e[j]
  {
    hide Find, Distinct, Siblings, Spans, Links, Ring, Following, Ancestors, R.RemovedFrom, R.Growth, Text,
      ReleaseAll, Post;
    DistinctNoZero(f);
    R.LeftKidsFacts(f, a);
    R.KidDistinct(f, a.p);
    FollowingInside(f, a.i);
  }
}
