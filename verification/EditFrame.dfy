/**
  What an edit leaves alone: every element that is neither edited nor around the edit keeps its
  tags, its children and so its text, and the current position stays meaningful.
 */
module EditFrame {
  import opened ElemForest
  import opened ForestEdit
  import opened ForestGraft
  import opened SiblingLinks
  import opened Agreement
  import I = Insertion
  import R = Removal

  /** The node n' is the node n: same tags, same content. */
  ghost predicate SameNode(n: Forest, n': Forest)
    requires n.Node? && n'.Node?
  {
    n'.id == n.id && n'.tag == n.tag && n'.kids == n.kids && n'.close == n.close
  }

  /** In a grafted document a node away from the graft is the same, but for the graft below it. */
  lemma {:induction false} GraftElsewhere(f: Forest, i: nat, n: Forest, q: nat)
    requires i in Ids(f) && Distinct(f) && n.Node? && FitsBelow(f, i, n.kids)
    requires q in Ids(f) && q != i && q !in Ids(Find(f, i).kids)
    ensures q in Ids(Graft(f, i, n))
    ensures var m, m' := Find(f, q), Find(Graft(f, i, n), q);
      m'.tag == m.tag && m'.close == m.close && m'.kids == if i in Ids(m.kids) then Graft(m.kids, i, n) else m.kids
  {
    GraftIds(f, i, n);
    if f.id == i {
      FindInside(f.rest, q);
    } else if i in Ids(f.kids) {
      FindInside(f.kids, i);
      GraftIds(f.kids, i, n);
      if q in Ids(f.kids) {
        assert FitsBelow(f.kids, i, n.kids);
        GraftElsewhere(f.kids, i, n, q);
      } else if q != f.id {
        FindInside(f.rest, q);
        QNotInGraft(f, i, n, q);
      }
    } else {
      FindInside(f.rest, i);
      GraftIds(f.rest, i, n);
      if q in Ids(f.rest) {
        assert FitsBelow(f.rest, i, n.kids);
        GraftElsewhere(f.rest, i, n, q);
      } else if q != f.id {
        FindInside(f.kids, q);
      }
    }
  }

  lemma QNotInGraft(f: Forest, i: nat, n: Forest, q: nat)
    requires f.Node? && Distinct(f) && i in Ids(f.kids) && f.id != i && n.Node? && FitsBelow(f, i, n.kids)
    requires q in Ids(f.rest) && q !in Ids(Find(f, i).kids)
    ensures q !in Ids(Graft(f.kids, i, n))
  {
    GraftIds(f.kids, i, n);
  }

  /** An element is above i exactly when i is below it. */
  lemma {:induction false} AncestorsAreAbove(f: Forest, i: nat, q: nat)
    requires i in Ids(f) && q in Ids(f) && Distinct(f)
    ensures q in Ancestors(f, i) <==> i in Ids(Find(f, q).kids)
  {
    if f.id == i {
      if f.id == q { KidsNotSelf(f, i); }
      else if q in Ids(f.kids) { FindInside(f.kids, q); }
      else { FindInside(f.rest, q); }
    } else if i in Ids(f.kids) {
      if q in Ids(f.kids) { AncestorsAreAbove(f.kids, i, q); }
      else {
        FollowingInside(f.kids, i);
        if q != f.id { FindInside(f.rest, q); }
      }
    } else {
      FollowingInside(f.rest, i);
      if q in Ids(f.rest) {
        AncestorsAreAbove(f.rest, i, q);
        FindInside(f.rest, q);
      } else if q != f.id { FindInside(f.kids, q); }
    }
  }

  lemma {:induction false} InsertFind(k: Forest, b: nat, n: Forest, v: string, j: nat)
    requires n.Node? && (b == 0 || b in Tops(k)) && Distinct(k) && j in Ids(k) && j != n.id && j !in Ids(n.kids)
    ensures j in Ids(InsertIn(k, b, n, v)) && SameNode(Find(k, j), Find(InsertIn(k, b, n, v), j))
  {
    InsertIds(k, b, n, v);
    if b != 0 && k.id != j && j !in Ids(k.kids) {
      InsertFind(k.rest, if k.id == b then 0 else b, n, v, j);
    }
  }

  lemma {:induction false} RemoveFind(k: Forest, i: nat, g: string, j: nat)
    requires i in Tops(k) && Distinct(k) && j in Ids(RemoveIn(k, i, g))
    ensures j in Ids(k) && SameNode(Find(k, j), Find(RemoveIn(k, i, g), j))
  {
    RemoveIds(k, i, g);
    TopsInIds(k.rest);
    if k.id != i {
      if k.id != j && j !in Ids(k.kids) { RemoveFind(k.rest, i, g, j); }
    }
  }

  /** Is j below the element p, or anywhere when p is the virtual parent? */
  ghost predicate Below(f: Forest, p: nat, j: nat)
    requires p == 0 || p in Ids(f)
  {
    j in Ids(KidsOf(f, p))
  }

  /** Inserting keeps every element but the parent and what is around it. */
  lemma InsertionKeeps(f: Forest, a: I.Insert, j: nat)
    requires I.Fits(f, a) && Distinct(f) && j in Ids(f)
    requires a.p != 0 ==> j != a.p && j !in Ancestors(f, a.p)
    ensures j in Ids(I.Inserted(f, a)) && SameNode(Find(f, j), Find(I.Inserted(f, a), j))
  {
    hide Find, Graft, Distinct, Ancestors, InsertIn;
    I.NewKidsFacts(f, a);
    if Below(f, a.p, j) {
      I.KidsDistinct(f, a.p);
      InsertFind(KidsOf(f, a.p), a.b, a.n, a.v, j);
      if a.p != 0 {
        assert FitsBelow(f, a.p, I.NewKids(f, a)) by { FindInside(f, a.p); }
        I.InsertedIds(f, a);
        GraftFind(f, a.p, I.NewParent(f, a));
        BelowNode(f, a.p, j);
        BelowNode(I.Inserted(f, a), a.p, j);
      }
    } else {
      assert FitsBelow(f, a.p, I.NewKids(f, a)) by { FindInside(f, a.p); }
      AncestorsAreAbove(f, a.p, j);
      GraftElsewhere(f, a.p, I.NewParent(f, a), j);
    }
  }

  /** Removing keeps every element that is left, but the parent and what is around it. */
  lemma RemovalKeeps(f: Forest, a: R.Remove, j: nat)
    requires R.Applies(f, a) && Distinct(f) && j in Ids(f)
    requires j != a.i && j !in Ids(TopNode(KidsOf(f, a.p), a.i).kids)
    requires a.p != 0 ==> j != a.p && j !in Ancestors(f, a.p)
    ensures j in Ids(R.RemovedFrom(f, a)) && SameNode(Find(f, j), Find(R.RemovedFrom(f, a), j))
  {
    hide Find, Graft, Distinct, Ancestors, RemoveIn, TopNode;
    R.LeftKidsFacts(f, a);
    R.RemovedIds(f, a);
    R.KidDistinct(f, a.p);
    if a.p != 0 {
      FindInside(f, a.p);
      assert FitsBelow(f, a.p, R.LeftKids(f, a));
    }
    if Below(f, a.p, j) {
      RemoveFind(KidsOf(f, a.p), a.i, a.g, j);
      if a.p != 0 {
        GraftFind(f, a.p, R.LeftParent(f, a));
        BelowNode(f, a.p, j);
        BelowNode(R.RemovedFrom(f, a), a.p, j);
      }
    } else {
      AncestorsAreAbove(f, a.p, j);
      GraftElsewhere(f, a.p, R.LeftParent(f, a), j);
    }
  }

  /** Changing one element in place keeps every other but what is around it. */
  lemma InPlaceKeeps(f: Forest, i: nat, n: Forest, j: nat)
    requires i in Ids(f) && Distinct(f) && n.Node? &&
      (Find(f, i).kids == n.kids || (Find(f, i).kids.Nil? && n.kids.Nil?))
    requires j in Ids(f) && j != i && j !in Ancestors(f, i)
    ensures j in Ids(Graft(f, i, n)) && SameNode(Find(f, j), Find(Graft(f, i, n), j))
  {
    hide Find, Graft, Distinct, Ancestors;
    InPlaceFits(f, i, n.kids);
    if j in Ids(Find(f, i).kids) {
      GraftDistinct(f, i, n);
      GraftFind(f, i, n);
      BelowNode(f, i, j);
      NotNil(Find(f, i).kids, j);
      BelowNode(Graft(f, i, n), i, j);
    } else {
      AncestorsAreAbove(f, i, j);
      GraftElsewhere(f, i, n, j);
    }
  }

  lemma NotNil(k: Forest, j: nat)
    requires j in Ids(k)
    ensures k.Node?
  {
  }

  // ----------------------------------------------------------------------------- positions

  /** The parent, main and child positions: each is 0 or a child of the one before. */
  ghost predicate Placed(f: Forest, posParent: nat, pos: nat, posChild: nat) {
    (posParent == 0 || posParent in Ids(f)) &&
    (pos == 0 || (pos in Ids(f) && pos in Tops(KidsOf(f, posParent)))) &&
    (posChild == 0 || (pos != 0 && posChild in Ids(f) && posChild in Tops(KidsOf(f, pos))))
  }

  lemma PlacedParts(f: Forest, posParent: nat, pos: nat, posChild: nat)
    requires Placed(f, posParent, pos, posChild)
    ensures posParent == 0 || posParent in Ids(f)
    ensures pos == 0 || (pos in Ids(f) && pos in Tops(KidsOf(f, posParent)))
    ensures posChild == 0 || (pos != 0 && posChild in Ids(f) && posChild in Tops(KidsOf(f, pos)))
  {
  }

  lemma {:induction false} GraftTopsSame(k: Forest, i: nat, n: Forest)
    requires n.Node?
    ensures Tops(Graft(k, i, n)) == Tops(k)
  {
    if k.Node? && k.id != i && i !in Ids(k.kids) { GraftTopsSame(k.rest, i, n); }
  }

  lemma {:induction false} InsertTops(k: Forest, b: nat, n: Forest, v: string)
    requires n.Node? && (b == 0 || b in Tops(k))
    ensures Tops(InsertIn(k, b, n, v)) == Tops(k) + {n.id}
  {
    if b != 0 { InsertTops(k.rest, if k.id == b then 0 else b, n, v); }
  }

  lemma {:induction false} RemoveTops(k: Forest, i: nat, g: string)
    requires i in Tops(k) && Distinct(k)
    ensures forall j :: j in Tops(RemoveIn(k, i, g)) <==> j in Tops(k) && j != i
  {
    TopsInIds(k.rest);
    if k.id != i { RemoveTops(k.rest, i, g); }
  }

  /** A graft keeps the list of children of every element that is not below it. */
  lemma GraftKeepsTops(f: Forest, i: nat, n: Forest, q: nat)
    requires i in Ids(f) && Distinct(f) && n.Node? && FitsBelow(f, i, n.kids)
    requires q == 0 || (q in Ids(f) && q != i && q !in Ids(Find(f, i).kids))
    ensures q == 0 || q in Ids(Graft(f, i, n))
    ensures Tops(KidsOf(Graft(f, i, n), q)) == Tops(KidsOf(f, q))
  {
    hide Find, Graft, Distinct;
    if q == 0 {
      GraftTopsSame(f, i, n);
    } else {
      GraftElsewhere(f, i, n, q);
      GraftTopsSame(Find(f, q).kids, i, n);
    }
  }

  lemma PlacedInPlace(f: Forest, i: nat, n: Forest, posParent: nat, pos: nat, posChild: nat)
    requires i in Ids(f) && Distinct(f) && n.Node? &&
      (Find(f, i).kids == n.kids || (Find(f, i).kids.Nil? && n.kids.Nil?))
    requires Placed(f, posParent, pos, posChild)
    ensures Placed(Graft(f, i, n), posParent, pos, posChild)
  {
    hide Find, Graft, Distinct, Ancestors, KidsOf, Tops;
    InPlaceFits(f, i, n.kids);
    GraftIds(f, i, n);
    SameIds(f, i, n);
    TopsInPlace(f, i, n, posParent);
    if pos != 0 { TopsInPlace(f, i, n, pos); }
  }

  lemma SameIds(f: Forest, i: nat, n: Forest)
    requires i in Ids(f) && Distinct(f) && n.Node? &&
      (Find(f, i).kids == n.kids || (Find(f, i).kids.Nil? && n.kids.Nil?))
    ensures forall j: nat :: j in Ids(Graft(f, i, n)) <==> j in Ids(f)
  {
    hide Graft, Distinct;
    GraftIds(f, i, n);
    FindInside(f, i);
  }

  lemma TopsInPlace(f: Forest, i: nat, n: Forest, q: nat)
    requires i in Ids(f) && Distinct(f) && n.Node? &&
      (Find(f, i).kids == n.kids || (Find(f, i).kids.Nil? && n.kids.Nil?))
    requires q == 0 || q in Ids(f)
    ensures q == 0 || q in Ids(Graft(f, i, n))
    ensures Tops(KidsOf(Graft(f, i, n), q)) == Tops(KidsOf(f, q))
  {
    hide Find, Graft, Distinct, Ancestors;
    InPlaceFits(f, i, n.kids);
    SameIds(f, i, n);
    if q == i {
      DistinctNoZero(f);
      GraftFind(f, i, n);
    } else if q != 0 && q in Ids(Find(f, i).kids) {
      GraftDistinct(f, i, n);
      GraftFind(f, i, n);
      BelowNode(f, i, q);
      NotNil(Find(f, i).kids, q);
      BelowNode(Graft(f, i, n), i, q);
    } else {
      GraftKeepsTops(f, i, n, q);
    }
  }

  /** The new element is a child of its parent, and the parent is where it was. */
  lemma PlacedInsert(f: Forest, a: I.Insert, posParent: nat, pos: nat, posChild: nat)
    requires I.Fits(f, a) && Distinct(f) && Placed(f, posParent, pos, posChild)
    ensures a.p == posParent ==> Placed(I.Inserted(f, a), posParent, a.n.id, 0)
    ensures a.p == pos != 0 ==> Placed(I.Inserted(f, a), posParent, pos, a.n.id)
  {
    hide Find, Graft, Distinct, InsertIn;
    I.InsertedIds(f, a);
    InsertTops(KidsOf(f, a.p), a.b, a.n, a.v);
    I.NewKidsFacts(f, a);
    if a.p != 0 {
      FindInside(f, a.p);
      assert FitsBelow(f, a.p, I.NewKids(f, a));
      GraftFind(f, a.p, I.NewParent(f, a));
    }
    if a.p == pos != 0 {
      ParentNotBelow(f, posParent, pos);
      GraftKeepsTops(f, pos, I.NewParent(f, a), posParent);
    }
  }

  lemma ParentNotBelow(f: Forest, p: nat, i: nat)
    requires (p == 0 || p in Ids(f)) && Distinct(f) && i in Tops(KidsOf(f, p)) && i in Ids(f)
    ensures p != i && p !in Ids(Find(f, i).kids)
  {
    R.ParentStays(f, R.Remove(p, i, ""));
    R.RemovedNode(f, R.Remove(p, i, ""));
  }

  lemma PlacedRemove(f: Forest, a: R.Remove, posParent: nat, pos: nat, posChild: nat)
    requires R.Applies(f, a) && Distinct(f) && Placed(f, posParent, pos, posChild)
    ensures a.p == posParent && a.i == pos ==> Placed(R.RemovedFrom(f, a), posParent, PrevOf(KidsOf(f, a.p), a.i, 0), 0)
    ensures a.p == pos != 0 && a.i == posChild ==>
      Placed(R.RemovedFrom(f, a), posParent, pos, PrevOf(KidsOf(f, a.p), a.i, 0))
  {
    hide Find, Graft, Distinct, RemoveIn, TopNode;
    R.RemovedIds(f, a);
    R.KidDistinct(f, a.p);
    RemoveTops(KidsOf(f, a.p), a.i, a.g);
    PrevInTops(KidsOf(f, a.p), a.i, 0);
    R.LeftKidsFacts(f, a);
    TopsInIds(R.LeftKids(f, a));
    PrevLeft(f, a);
    if a.p != 0 {
      FindInside(f, a.p);
      assert FitsBelow(f, a.p, R.LeftKids(f, a));
      GraftFind(f, a.p, R.LeftParent(f, a));
      GraftIds(f, a.p, R.LeftParent(f, a));
    }
    if a.p == pos != 0 {
      ParentNotBelow(f, posParent, pos);
      GraftKeepsTops(f, pos, R.LeftParent(f, a), posParent);
    }
  }

  lemma PrevLeft(f: Forest, a: R.Remove)
    requires R.Applies(f, a) && Distinct(f)
    ensures var b := PrevOf(KidsOf(f, a.p), a.i, 0); b == 0 || b in Tops(R.LeftKids(f, a))
  {
    hide Find, Distinct, RemoveIn;
    R.KidDistinct(f, a.p);
    PrevInTops(KidsOf(f, a.p), a.i, 0);
    RemoveIds(KidsOf(f, a.p), a.i, "");
    RemoveTops(KidsOf(f, a.p), a.i, a.g);
  }

  // ---------------------------------------------------------------------------- navigation

  /** The parent link of an element leads to where it is a child. */
  lemma {:induction false} ParentIs(e: Index, f: Forest, parent: nat, i: nat)
    requires Links(e, f, parent) && i in Ids(f) && Distinct(f)
    ensures i < |e|
    ensures if i in Tops(f) then e[i].parent == parent
            else e[i].parent in Ids(f) && i in Tops(Find(f, e[i].parent).kids)
  {
    if f.id != i {
      if i in Ids(f.kids) {
        ParentIs(e, f.kids, f.id, i);
        TopsInIds(f.rest);
      } else {
        ParentIs(e, f.rest, parent, i);
      }
    }
  }

  /** Out of the element: its own parent becomes the parent position. */
  lemma OutPlaced(e: Index, f: Forest, posParent: nat, pos: nat, posChild: nat)
    requires Agree(e, f) && Placed(f, posParent, pos, posChild) && posParent != 0
    ensures posParent < |e| && Placed(f, e[posParent].parent, posParent, pos)
  {
    hide Find, Spans;
    DistinctNoZero(f);
    ParentIs(e, f, 0, posParent);
  }

  /** The sibling after pos, or the first child of the parent position. */
  ghost function NextPos(f: Forest, posParent: nat, pos: nat): nat
    requires posParent == 0 || posParent in Ids(f)
  {
    if pos != 0 then NextAfter(KidsOf(f, posParent), pos) else First(KidsOf(f, posParent))
  }

  lemma NextPlaced(e: Index, f: Forest, posParent: nat, pos: nat)
    requires Agree(e, f) && Placed(f, posParent, pos, 0)
    ensures posParent < |e| && pos < |e|
    ensures NextPos(f, posParent, pos) == if pos != 0 then e[pos].next else e[posParent].child
    ensures NextPos(f, posParent, pos) != 0 ==>
      NextPos(f, posParent, pos) < |e| && e[NextPos(f, posParent, pos)].parent == posParent &&
      Placed(f, posParent, NextPos(f, posParent, pos), 0)
  {
    hide Find, Spans;
    var k := KidsOf(f, posParent);
    KidsFacts(e, f, posParent);
    if pos != 0 { NextIs(e, k, posParent, pos); NextInTops(k, pos); }
    TopsInIds(k);
    var n := NextPos(f, posParent, pos);
    if n != 0 { NextIs(e, k, posParent, n); }
  }
}
