/** Saved positions of a document. */
module Restoring {
  // What is restored stands where it was saved, as long as its element is there.

  import opened ElemForest
  import opened ForestEdit
  import opened Agreement
  import opened EditKeeps
  import opened EditPlan
  import opened EditFrame
  import opened Placing
  import opened Removing
  import opened Retagging
  import opened Markup
  import I = Insertion
  import R = Removal
  import S = SavedPositions

  /** What SavePos stores for a position. */
  function PlaceOf(posParent: nat, pos: nat, posChild: nat): S.Place {
    if posChild != 0 then S.Place(posChild, S.Child)
    else if pos != 0 then S.Place(pos, S.Main)
    else S.Place(posParent, S.Parent)
  }

  datatype Position = Position(posParent: nat, pos: nat, posChild: nat)

  /** What RestorePos makes of it. */
  function Restored(e: Index, place: S.Place): Position
    requires place.pos < |e| && (place.kind == S.Child ==> e[place.pos].parent < |e|)
  {
    var i := place.pos;
    match place.kind
    case Child => Position(e[e[i].parent].parent, e[i].parent, i)
    case Main => Position(e[i].parent, i, 0)
    case Parent => Position(i, 0, 0)
  }

  /** The place is in the document. */
  ghost predicate Stands(f: Forest, place: S.Place) {
    if place.pos == 0 then place.kind == S.Parent
    else place.pos in Ids(f) && (place.kind == S.Child ==> place.pos !in Tops(f))
  }

  ghost predicate AllStand(f: Forest, saved: map<string, S.Place>) {
    forall name :: name in saved ==> Stands(f, saved[name])
  }

  lemma {:induction false} ParentLink(e: Index, f: Forest, p: nat, i: nat)
    requires Links(e, f, p) && Distinct(f) && i in Ids(f)
    ensures i < |e|
    ensures if i in Tops(f) then e[i].parent == p else e[i].parent in Ids(f) && i in Tops(Find(f, e[i].parent).kids)
  {
    TopsInIds(f.rest);
    if i in Ids(f.kids) {
      ParentLink(e, f.kids, f.id, i);
    } else if f.id != i {
      ParentLink(e, f.rest, p, i);
    }
  }

  /** The parent link of i names the element it is a child of. */
  lemma ParentIs(e: Index, f: Forest, i: nat)
    requires Agree(e, f) && i in Ids(f)
    ensures i < |e| && e[i].parent < |e| && (e[i].parent == 0 || e[i].parent in Ids(f)) &&
      i in Tops(KidsOf(f, e[i].parent))
    ensures e[i].parent == 0 <==> i in Tops(f)
  {
    DistinctNoZero(f);
    ParentLink(e, f, 0, i);
    LinksInRange(e, f, 0);
  }

  lemma ParentOnly(e: Index, f: Forest, p: nat, i: nat)
    requires Agree(e, f) && (p == 0 || p in Ids(f)) && i in Tops(KidsOf(f, p))
    ensures i in Ids(f) && i < |e| && e[i].parent == p
  {
    KidsFacts(e, f, p);
    TopsInIds(KidsOf(f, p));
    if p != 0 { FindInside(f, p); }
    ParentLink(e, KidsOf(f, p), p, i);
  }

  lemma RestoredIsPlaced(e: Index, f: Forest, place: S.Place)
    requires Agree(e, f) && Stands(f, place)
    ensures place.pos < |e| && (place.kind == S.Child ==> e[place.pos].parent < |e|)
    ensures var r := Restored(e, place); Placed(f, r.posParent, r.pos, r.posChild)
  {
    var i := place.pos;
    if i != 0 {
      ParentIs(e, f, i);
      if place.kind == S.Child { ParentIs(e, f, e[i].parent); }
    }
  }

  /** A saved position stands in the document and is restored as it was. */
  lemma SaveThenRestore(e: Index, f: Forest, posParent: nat, pos: nat, posChild: nat)
    requires Agree(e, f) && Placed(f, posParent, pos, posChild)
    ensures var place := PlaceOf(posParent, pos, posChild);
      Stands(f, place) && place.pos < |e| && (place.kind == S.Child ==> e[place.pos].parent < |e|) &&
      Restored(e, place) == Position(posParent, pos, posChild)
  {
    DistinctNoZero(f);
    if pos != 0 { ParentOnly(e, f, posParent, pos); }
    if posChild != 0 {
      ParentOnly(e, f, pos, posChild);
      ParentIs(e, f, posChild);
    }
    RestoredIsPlaced(e, f, PlaceOf(posParent, pos, posChild));
  }

  method SavePos(m: CMarkup, map_: S.SavedPosMap, name: string)
    requires m.Valid() && map_.Valid() && AllStand(m.forest, map_.saved)
    modifies map_
    ensures map_.Valid() && map_.saved == old(map_.saved)[name := PlaceOf(m.posParent, m.pos, m.posChild)]
    ensures AllStand(m.forest, map_.saved)
  {
    hide Placed, Stands;
    SaveThenRestore(m.elem, m.forest, m.posParent, m.pos, m.posChild);
    if m.posChild != 0 {
      map_.SavePos(name, S.Place(m.posChild, S.Child));
    } else if m.pos != 0 {
      map_.SavePos(name, S.Place(m.pos, S.Main));
    } else {
      map_.SavePos(name, S.Place(m.posParent, S.Parent));
    }
  }

  method RestorePos(m: CMarkup, map_: S.SavedPosMap, name: string) returns (ok: bool)
    requires m.Valid() && map_.Valid() && AllStand(m.forest, map_.saved)
    modifies m`posParent, m`pos, m`posChild
    ensures m.Valid() && ok == (name in map_.saved)
    ensures ok ==>
      var place := map_.saved[name];
      place.pos < |m.elem| && (place.kind == S.Child ==> m.elem[place.pos].parent < |m.elem|) &&
      Position(m.posParent, m.pos, m.posChild) == Restored(m.elem, place)
    ensures !ok ==> unchanged(m)
  {
    hide Placed, Stands;
    var r := map_.RestorePos(name);
    ok := r.Some?;
    if ok {
      var i := r.value.pos;
      RestoredIsPlaced(m.elem, m.forest, r.value);
      match r.value.kind
      case Child => m.SetPos(m.elem[m.elem[i].parent].parent, m.elem[i].parent, i);
      case Main => m.SetPos(m.elem[i].parent, i, 0);
      case Parent => m.SetPos(i, 0, 0);
    }
  }

  /** What is left of the saved positions stands in what is left of the document. */
  lemma LeftStand(e: Index, f: Forest, f': Forest, p: nat, i: nat, head: nat, dead: seq<nat>, gone: seq<nat>,
    saved: map<string, S.Place>)
    requires Distinct(f) && Removed(f, p, i, f', dead, gone) && Indexed(e, f', head, gone) && AllStand(f, saved)
    requires forall name :: name in saved ==> saved[name].pos < |e|
    ensures AllStand(f', S.Alive(saved, e))
    ensures forall name :: name in S.Alive(saved, e) <==>
      name in saved && (saved[name].pos == 0 || saved[name].pos in Ids(f'))
  {
    hide Removed, Indexed, Pooled, Agree, Tops;
    forall name | name in saved
      ensures e[saved[name].pos].deleted <==> saved[name].pos != 0 && saved[name].pos !in Ids(f')
    {
      DeletedOrUsed(e, f', head, gone, saved[name].pos);
    }
    TopsLeft(f, p, i, f', dead, gone);
  }

  lemma DeletedOrUsed(e: Index, f: Forest, head: nat, dead: seq<nat>, i: nat)
    requires Indexed(e, f, head, dead) && i < |e|
    ensures e[i].deleted <==> i != 0 && i !in Ids(f)
  {
    if i in Ids(f) {
      NodeRecord(e, f, i, 0);
    } else if i != 0 {
      InDead(e, head, dead, 0);
    }
  }

  lemma TopsLeft(f: Forest, p: nat, i: nat, f': Forest, dead: seq<nat>, gone: seq<nat>)
    requires Distinct(f) && Removed(f, p, i, f', dead, gone)
    ensures Tops(f') <= Tops(f)
  {
    if p == 0 {
      RemoveTops(f, i, PlanRemove(f, p, i).g);
    } else {
      GraftTopsSame(f, p, R.LeftParent(f, PlanRemove(f, p, i)));
    }
  }

  // ------------------------------------------------------------- edits that remove nothing

  /** Every place in f is in f'. */
  lemma AllKept(f: Forest, f': Forest, saved: map<string, S.Place>)
    requires AllStand(f, saved) && forall j: nat :: j in Ids(f) ==> j in Ids(f') && (j in Tops(f') ==> j in Tops(f))
    ensures AllStand(f', saved)
  {
    forall name | name in saved ensures Stands(f', saved[name]) { assert Stands(f, saved[name]); }
  }

  /** After AddElem or AddChildElem. */
  lemma AddedStand(f: Forest, p: nat, rel: nat, insert: bool, noLines: bool, n: Forest, f': Forest,
    saved: map<string, S.Place>)
    requires Distinct(f) && Added(f, p, rel, insert, noLines, n, f') && AllStand(f, saved)
    ensures AllStand(f', saved)
  {
    hide Plan, AllStand, Distinct, Find, Graft;
    var a := Plan(f, p, rel, insert, noLines, n);
    I.InsertedIds(f, a);
    if a.p == 0 { InsertTops(f, a.b, a.n, a.v); } else { GraftTopsSame(f, a.p, I.NewParent(f, a)); }
    AllKept(f, f', saved);
  }

  /** After SetData, of an element without children. */
  lemma RefilledStand(f: Forest, i: nat, content: string, saved: map<string, S.Place>)
    requires Distinct(f) && i in Ids(f) && KidsOf(f, i).Nil? && AllStand(f, saved)
    ensures AllStand(Graft(f, i, Refilled(f, i, content)), saved)
  {
    hide AllStand, Distinct, Graft, Find, Refilled;
    DistinctNoZero(f);
    SameIds(f, i, Refilled(f, i, content));
    GraftTopsSame(f, i, Refilled(f, i, content));
    AllKept(f, Graft(f, i, Refilled(f, i, content)), saved);
  }

  /** After SetAttrib. */
  lemma RetaggedStand(f: Forest, i: nat, name: string, v: string, f': Forest, saved: map<string, S.Place>)
    requires Distinct(f) && AttribSet(f, i, name, v, f') && AllStand(f, saved)
    ensures AllStand(f', saved)
  {
    hide AllStand, Distinct, Graft, Find, Retag;
    SameIds(f, i, Retag(f, i, name, v));
    GraftTopsSame(f, i, Retag(f, i, name, v));
    AllKept(f, f', saved);
  }

  // -------------------------------------------------------------------------- removals

  /** RemoveElem with its check of the saved positions: those of the elements that are left are kept. */
  method RemoveElem(m: CMarkup, map_: S.SavedPosMap) returns (ok: bool)
    requires m.Valid() && map_.Valid() && AllStand(m.forest, map_.saved)
    modifies m, map_
    ensures m.Valid() && map_.Valid() && AllStand(m.forest, map_.saved) && ok == (old(m.pos) != 0)
    ensures ok ==> Removed(old(m.forest), old(m.posParent), old(m.pos), m.forest, old(m.dead), m.dead)
    ensures forall name :: name in map_.saved <==>
      name in old(map_.saved) && (old(map_.saved)[name].pos == 0 || old(map_.saved)[name].pos in Ids(m.forest))
    ensures forall name :: name in map_.saved ==> map_.saved[name] == old(map_.saved)[name]
  {
    hide Removed, Placed, Indexed, Agree;
    ghost var f, e, dead, saved := m.forest, m.elem, m.dead, map_.saved;
    ghost var p, i := m.posParent, m.pos;
    InRange(e, f, m.posDeleted, dead, saved);
    ok := m.RemoveElem();
    if ok {
      map_.CheckSavedPos(m.elem);
      LeftStand(m.elem, f, m.forest, p, i, m.posDeleted, dead, m.dead, saved);
    }
  }

  /** RemoveChildElem with the same check. */
  method RemoveChildElem(m: CMarkup, map_: S.SavedPosMap) returns (ok: bool)
    requires m.Valid() && map_.Valid() && AllStand(m.forest, map_.saved)
    modifies m, map_
    ensures m.Valid() && map_.Valid() && AllStand(m.forest, map_.saved) && ok == (old(m.posChild) != 0)
    ensures ok ==> Removed(old(m.forest), old(m.pos), old(m.posChild), m.forest, old(m.dead), m.dead)
    ensures forall name :: name in map_.saved <==>
      name in old(map_.saved) && (old(map_.saved)[name].pos == 0 || old(map_.saved)[name].pos in Ids(m.forest))
    ensures forall name :: name in map_.saved ==> map_.saved[name] == old(map_.saved)[name]
  {
    hide Removed, Placed, Indexed, Agree;
    ghost var f, e, dead, saved := m.forest, m.elem, m.dead, map_.saved;
    ghost var p, i := m.pos, m.posChild;
    InRange(e, f, m.posDeleted, dead, saved);
    ok := m.RemoveChildElem();
    if ok {
      map_.CheckSavedPos(m.elem);
      LeftStand(m.elem, f, m.forest, p, i, m.posDeleted, dead, m.dead, saved);
    }
  }

  lemma InRange(e: Index, f: Forest, head: nat, dead: seq<nat>, saved: map<string, S.Place>)
    requires Indexed(e, f, head, dead) && AllStand(f, saved)
    ensures Distinct(f) && forall name :: name in saved ==>
      saved[name].pos < |e| && (saved[name].pos == 0 || saved[name].pos in Ids(f))
  {
    LinksInRange(e, f, 0);
  }
}
