/** The saved positions, a hash table. */
module SavedPositions {
  // From names to element positions; its buckets are kept as prefixes of used entries.

  import opened ElemForest

  /** What was saved: the child position, the main position, or only the parent position. */
  datatype Kind = Child | Main | Parent

  datatype Place = Place(pos: nat, kind: Kind)

  datatype SavedPos = SavedPos(name: string, place: Place, used: bool, last: bool)

  const Unset := SavedPos("", Place(0, Parent), false, false)

  datatype Option<T> = None | Some(value: T)

  /** The sum of the characters, in 32 bits, modulo the table size. */
  function CharSum(s: string): nat { if s == "" then 0 else (s[0] as int + CharSum(s[1..])) % 0x1_0000_0000 }

  function Hash(s: string, size: nat): (slot: nat)
    requires size > 0
    ensures slot < size
  {
    CharSum(s) % size
  }

  type Bucket = seq<SavedPos>

  /** Used entries come first, each name once; the last entry is marked, and no other. */
  ghost predicate BucketOk(b: Bucket) {
    (forall k :: 0 <= k < |b| ==> (b[k].last <==> k == |b| - 1)) &&
    (forall j, k :: 0 <= j < k < |b| && b[k].used ==> b[j].used && b[j].name != b[k].name)
  }

  /** The bucket holds exactly the names of the map that belong in its slot. */
  ghost predicate Represents(b: Bucket, m: map<string, Place>, slot: nat, size: nat)
    requires size > 0
  {
    (forall k :: 0 <= k < |b| && b[k].used ==>
       b[k].name in m && m[b[k].name] == b[k].place && Hash(b[k].name, size) == slot) &&
    (forall name :: name in m && Hash(name, size) == slot ==> Listed(b, name))
  }

  ghost predicate Listed(b: Bucket, name: string) { exists k :: 0 <= k < |b| && b[k].used && b[k].name == name }

  /** What is left of the map when the deleted elements are forgotten. */
  ghost function Alive(m: map<string, Place>, elem: Index): map<string, Place> {
    map name | name in m && !(m[name].pos < |elem| && elem[m[name].pos].deleted) :: m[name]
  }

  class SavedPosMap {
    var table: seq<Bucket>
    ghost var saved: map<string, Place>

    ghost predicate Valid()
      reads this
    {
      |table| > 0 && forall n :: 0 <= n < |table| ==> BucketOk(table[n]) && Represents(table[n], saved, n, |table|)
    }

    constructor (nSize: nat)
      requires nSize > 0
      ensures Valid() && saved == map[] && |table| == nSize
    {
      table := seq(nSize, _ => []);
      saved := map[];
    }

    /** Save a position under a name; an earlier one of that name is replaced. */
    method SavePos(name: string, place: Place)
      requires Valid()
      modifies this
      ensures Valid() && saved == old(saved)[name := place] && |table| == |old(table)|
    {
      var nSlot := Hash(name, |table|);
      var b := table[nSlot];
      var nOffset := 0;
      ghost var b0 := b;
      if b == [] {
        b := [Unset, Unset.(last := true)];
      } else {
        while b[nOffset].used && b[nOffset].name != name && !b[nOffset].last
          invariant 0 <= nOffset < |b|
          invariant forall k :: 0 <= k < nOffset ==> b[k].used && b[k].name != name
          decreases |b| - nOffset
        {
          nOffset := nOffset + 1;
        }
        if b[nOffset].used && b[nOffset].name != name {
          b := Enlarge(b, nOffset);
          nOffset := nOffset + 1;
        }
      }
      b := b[nOffset := SavedPos(name, place, true, b[nOffset].last)];
      table := table[nSlot := b];
      saved := saved[name := place];
      SlotSaved(b0, b, nOffset, old(saved), name, place, nSlot, |table|);
      OthersSaved(old(table), old(saved), name, place, nSlot);
    }

    /** A full bucket moves to a longer array. */
    method Enlarge(b: Bucket, nOffset: nat) returns (r: Bucket)
      requires nOffset == |b| - 1 && BucketOk(b) && forall k :: 0 <= k < |b| ==> b[k].used
      ensures |r| == (nOffset + 6) * 2 && (forall k :: 0 <= k < |r| ==> (r[k].last <==> k == |r| - 1))
      ensures forall k :: 0 <= k < |b| ==> r[k] == b[k].(last := false)
      ensures forall k :: |b| <= k < |r| ==> !r[k].used
    {
      var nNewSize := (nOffset + 6) * 2;
      r := seq(nNewSize, _ => Unset);
      var nCopy := 0;
      while nCopy <= nOffset
        invariant 0 <= nCopy <= nOffset + 1 && |r| == nNewSize
        invariant forall k :: 0 <= k < nCopy ==> r[k] == b[k]
        invariant forall k :: nCopy <= k < |r| ==> r[k] == Unset
      {
        r := r[nCopy := b[nCopy]];
        nCopy := nCopy + 1;
      }
      r := r[nOffset := r[nOffset].(last := !r[nOffset].last)];
      r := r[nNewSize - 1 := Unset.(last := true)];
    }

    /** The position last saved under a name. */
    method RestorePos(name: string) returns (r: Option<Place>)
      requires Valid()
      ensures r == if name in saved then Some(saved[name]) else None
    {
      var nSlot := Hash(name, |table|);
      var b := table[nSlot];
      assert BucketOk(b) && Represents(b, saved, nSlot, |table|);
      if b != [] {
        var nOffset := 0;
        while b[nOffset].used
          invariant 0 <= nOffset < |b|
          invariant forall k :: 0 <= k < nOffset ==> b[k].used && b[k].name != name
          decreases |b| - nOffset
        {
          if b[nOffset].name == name {
            return Some(b[nOffset].place);
          }
          if b[nOffset].last {
            break;
          }
          nOffset := nOffset + 1;
        }
      }
      assert !Listed(b, name);
      r := None;
    }

    /** Forget the positions of deleted elements. */
    method CheckSavedPos(elem: Index)
      requires Valid()
      modifies this
      ensures Valid() && saved == Alive(old(saved), elem) && |table| == |old(table)|
    {
      var nSlot := 0;
      ghost var m := saved;
      saved := Alive(saved, elem);
      while nSlot < |table|
        invariant 0 <= nSlot <= |table| == |old(table)| && saved == Alive(m, elem)
        invariant forall n :: nSlot <= n < |table| ==> BucketOk(table[n]) && Represents(table[n], m, n, |table|)
        invariant forall n :: 0 <= n < nSlot ==> BucketOk(table[n]) && Represents(table[n], saved, n, |table|)
      {
        if table[nSlot] != [] {
          ghost var b := table[nSlot];
          var r := Compact(table[nSlot], elem);
          CompactedRepresents(b, r, elem, m, nSlot, |table|);
          table := table[nSlot := r];
        } else {
          EmptyRepresents(m, elem, nSlot, |table|);
        }
        nSlot := nSlot + 1;
      }
    }

    /** Move the entries of elements that are not deleted to the front of the bucket. */
    method Compact(b: Bucket, elem: Index) returns (r: Bucket)
      requires b != [] && BucketOk(b)
      ensures Compacted(b, r, elem)
    {
      hide Kept, BucketOk, Packed, Compacted;
      r := b;
      var nOffset, nSavedPosCount: nat := 0, 0;
      PackBegins(b, elem);
      while true
        invariant nOffset < |b| == |r| && Packed(b, r, nOffset, nSavedPosCount, elem)
        decreases |b| - nOffset
      {
        PackStep(b, r, nOffset, nSavedPosCount, elem);
        if r[nOffset].used {
          if !IsDeleted(r[nOffset], elem) {
            if nSavedPosCount < nOffset {
              r := r[nSavedPosCount := r[nOffset].(last := false)];
            }
            nSavedPosCount := nSavedPosCount + 1;
          }
        }
        if r[nOffset].last {
          break;
        }
        nOffset := nOffset + 1;
      }
      ghost var packed := r;
      r := ClearFrom(r, nSavedPosCount);
      PackEnds(b, packed, r, nSavedPosCount, elem);
    }

    /** The rest of the bucket is no longer used. */
    method ClearFrom(b: Bucket, nSavedPosCount: nat) returns (r: Bucket)
      requires nSavedPosCount <= |b|
      ensures |r| == |b| && forall k :: 0 <= k < |b| ==>
        r[k] == if k < nSavedPosCount then b[k] else b[k].(used := false)
    {
      r := b;
      var n := nSavedPosCount;
      while n < |r|
        invariant nSavedPosCount <= n <= |r| == |b|
        invariant forall k :: 0 <= k < |b| ==> r[k] == if nSavedPosCount <= k < n then b[k].(used := false) else b[k]
      {
        r := r[n := r[n].(used := false)];
        n := n + 1;
      }
    }
  }

  predicate IsDeleted(p: SavedPos, elem: Index) { p.place.pos < |elem| && elem[p.place.pos].deleted }

  predicate SameEntry(p: SavedPos, q: SavedPos) { p.name == q.name && p.place == q.place && p.used == q.used }

  /** The used entries among the first n whose element is not deleted. */
  function Kept(b: Bucket, n: nat, elem: Index): (r: Bucket)
    requires n <= |b|
    ensures |r| <= n
  {
    if n == 0 then []
    else Kept(b, n - 1, elem) + if b[n - 1].used && !IsDeleted(b[n - 1], elem) then [b[n - 1]] else []
  }

  /** The first n entries have been looked at, and c of them moved to the front. */
  ghost predicate Packed(b: Bucket, r: Bucket, n: nat, c: nat, elem: Index) {
    n <= |b| == |r| && c == |Kept(b, n, elem)| &&
    (forall k :: 0 <= k < c ==> SameEntry(r[k], Kept(b, n, elem)[k])) &&
    (forall k :: n <= k < |b| ==> r[k] == b[k]) && (forall k :: 0 <= k < |b| ==> r[k].last == b[k].last)
  }

  lemma PackBegins(b: Bucket, elem: Index)
    ensures Packed(b, b, 0, 0, elem)
  {
  }

  lemma PackEnds(b: Bucket, r: Bucket, r': Bucket, c: nat, elem: Index)
    requires Packed(b, r, |b|, c, elem) && |r'| == |b|
    requires forall k :: 0 <= k < |b| ==> r'[k] == if k < c then r[k] else r[k].(used := false)
    ensures Compacted(b, r', elem)
  {
  }

  lemma PackStep(b: Bucket, r: Bucket, n: nat, c: nat, elem: Index)
    requires BucketOk(b) && n < |b| && Packed(b, r, n, c, elem)
    ensures c <= n && r[n] == b[n] && b[n].last == (n == |b| - 1)
    ensures if r[n].used && !IsDeleted(r[n], elem)
            then Packed(b, if c < n then r[c := r[n].(last := false)] else r, n + 1, c + 1, elem)
            else Packed(b, r, n + 1, c, elem)
  {
  }

  ghost predicate Compacted(b: Bucket, r: Bucket, elem: Index) {
    |r| == |b| && (forall k :: 0 <= k < |b| ==> r[k].last == b[k].last) &&
    (forall k :: 0 <= k < |Kept(b, |b|, elem)| ==> SameEntry(r[k], Kept(b, |b|, elem)[k])) &&
    (forall k :: |Kept(b, |b|, elem)| <= k < |b| ==> !r[k].used)
  }

  /** The kept entries are entries of the bucket in use, in the same order, and every such entry is kept. */
  lemma {:induction false} KeptFrom(b: Bucket, n: nat, elem: Index, k: nat) returns (j: nat)
    requires n <= |b| && k < |Kept(b, n, elem)|
    ensures k <= j < n && Kept(b, n, elem)[k] == b[j] && b[j].used && !IsDeleted(b[j], elem)
  {
    if k < |Kept(b, n - 1, elem)| { j := KeptFrom(b, n - 1, elem, k); } else { j := n - 1; }
  }

  lemma {:induction false} KeptAll(b: Bucket, n: nat, elem: Index, j: nat) returns (k: nat)
    requires j < n <= |b| && b[j].used && !IsDeleted(b[j], elem)
    ensures k < |Kept(b, n, elem)| && Kept(b, n, elem)[k] == b[j]
  {
    if j < n - 1 { k := KeptAll(b, n - 1, elem, j); } else { k := |Kept(b, n - 1, elem)|; }
  }

  lemma {:induction false} KeptDistinct(b: Bucket, n: nat, elem: Index)
    requires n <= |b| && BucketOk(b)
    ensures forall i, k :: 0 <= i < k < |Kept(b, n, elem)| ==> Kept(b, n, elem)[i].name != Kept(b, n, elem)[k].name
  {
    if n > 0 {
      KeptDistinct(b, n - 1, elem);
      var r := Kept(b, n - 1, elem);
      forall i | 0 <= i < |r| ensures b[n - 1].used ==> r[i].name != b[n - 1].name {
        var j := KeptFrom(b, n - 1, elem, i);
      }
    }
  }

  lemma CompactedRepresents(b: Bucket, r: Bucket, elem: Index, m: map<string, Place>, slot: nat, size: nat)
    requires size > 0 && BucketOk(b) && Represents(b, m, slot, size) && Compacted(b, r, elem)
    ensures BucketOk(r) && Represents(r, Alive(m, elem), slot, size)
  {
    var c := Kept(b, |b|, elem);
    KeptDistinct(b, |b|, elem);
    forall k | 0 <= k < |r| && r[k].used
      ensures k < |c| && r[k].name in Alive(m, elem) && m[r[k].name] == r[k].place && Hash(r[k].name, size) == slot
    {
      var j := KeptFrom(b, |b|, elem, k);
    }
    forall k | 0 <= k < |c| ensures r[k].used {
      var j := KeptFrom(b, |b|, elem, k);
    }
    forall name | name in Alive(m, elem) && Hash(name, size) == slot ensures Listed(r, name) {
      assert Listed(b, name);
      var j :| 0 <= j < |b| && b[j].used && b[j].name == name;
      var k := KeptAll(b, |b|, elem, j);
      assert r[k].used && r[k].name == name;
    }
  }

  lemma EmptyRepresents(m: map<string, Place>, elem: Index, slot: nat, size: nat)
    requires size > 0 && Represents([], m, slot, size)
    ensures Represents([], Alive(m, elem), slot, size)
  {
    forall name | name in Alive(m, elem) && Hash(name, size) == slot ensures Listed([], name) {
      assert Listed([], name);
    }
  }

  /** The bucket b0 with the entry of name written at offset k, in b. */
  lemma SlotSaved(b0: Bucket, b: Bucket, k: nat, m: map<string, Place>, name: string, place: Place, slot: nat,
    size: nat)
    requires size > 0 && slot == Hash(name, size) && BucketOk(b0) && Represents(b0, m, slot, size)
    requires k < |b| && b[k].name == name && b[k].place == place && b[k].used
    requires forall j :: 0 <= j < |b| ==> (b[j].last <==> j == |b| - 1)
    requires |b0| <= |b| && forall j :: 0 <= j < |b| && j != k ==>
      if j < |b0| then SameEntry(b[j], b0[j]) else !b[j].used
    requires forall j :: 0 <= j < k ==> b[j].used && b[j].name != name
    requires k < |b0| ==> b0[k].used ==> b0[k].name == name
    ensures BucketOk(b) && Represents(b, m[name := place], slot, size)
  {
    forall i, j | 0 <= i < j < |b| && b[j].used ensures b[i].used && b[i].name != b[j].name {
      if j != k && i == k && !b0[k].used { assert false; }
    }
    forall x | x in m[name := place] && Hash(x, size) == slot ensures Listed(b, x) {
      if x == name {
        assert b[k].used && b[k].name == x;
      } else {
        assert Listed(b0, x);
        var j :| 0 <= j < |b0| && b0[j].used && b0[j].name == x;
        assert b[j].used && b[j].name == x;
      }
    }
  }

  /** The other buckets do not hold names of that slot. */
  lemma OthersSaved(table: seq<Bucket>, m: map<string, Place>, name: string, place: Place, slot: nat)
    requires |table| > 0 && slot == Hash(name, |table|)
    requires forall n :: 0 <= n < |table| ==> BucketOk(table[n]) && Represents(table[n], m, n, |table|)
    ensures forall n :: 0 <= n < |table| && n != slot ==> Represents(table[n], m[name := place], n, |table|)
  {
    forall n | 0 <= n < |table| && n != slot ensures Represents(table[n], m[name := place], n, |table|) {
      assert Represents(table[n], m, n, |table|);
    }
  }
}
