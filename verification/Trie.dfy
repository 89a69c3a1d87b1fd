/** The trie of words in test.cpp. */
module TrieWords {
  type Word = seq<int>

  /** The branches of a trie, in the ascending order of their keys. */
  datatype Branches = Leaf | Branch(key: int, sub: Branches, rest: Branches)

  datatype Option<T> = None | Some(value: T)

  predicate Sorted(t: Branches) {
    t.Branch? ==> Sorted(t.sub) && Sorted(t.rest) && (t.rest.Branch? ==> t.key < t.rest.key)
  }

  function Child(t: Branches, k: int): Option<Branches> {
    if t.Leaf? then None else if t.key == k then Some(t.sub) else Child(t.rest, k)
  }

  function Inserted(t: Branches, w: Word): Branches
    decreases |w|, t
  {
    if w == [] then t
    else if t.Leaf? || w[0] < t.key then Branch(w[0], Inserted(Leaf, w[1..]), t)
    else if t.key == w[0] then Branch(t.key, Inserted(t.sub, w[1..]), t.rest)
    else Branch(t.key, t.sub, Inserted(t.rest, w))
  }

  function Subtrie(t: Branches, p: Word): Option<Branches>
    decreases |p|
  {
    if p == [] then Some(t)
    else match Child(t, p[0]) { case None => None case Some(s) => Subtrie(s, p[1..]) }
  }

  function Each(k: int, ws: seq<Word>): seq<Word> {
    if ws == [] then [] else [[k] + ws[0]] + Each(k, ws[1..])
  }

  /** The words printed below t. */
  function Words(t: Branches): seq<Word>
    decreases t, 1
  {
    if t.Leaf? then [[]] else BranchWords(t)
  }

  function BranchWords(t: Branches): seq<Word>
    decreases t, 0
  {
    if t.Leaf? then [] else Each(t.key, Words(t.sub)) + BranchWords(t.rest)
  }

  function Prefixed(v: Word, ws: seq<Word>): seq<Word> {
    if ws == [] then [] else [v + ws[0]] + Prefixed(v, ws[1..])
  }

  class Trie {
    var tries: Branches

    constructor ()
      ensures tries == Leaf
    {
      tries := Leaf;
    }

    /** The word and its prefixes can be found now, besides those that could before. */
    method Insert(w: Word)
      requires Sorted(tries)
      modifies this
      ensures tries == Inserted(old(tries), w) && Sorted(tries)
      ensures forall p: Word :: Subtrie(tries, p).Some? <==> Subtrie(old(tries), p).Some? || p <= w
    {
      ghost var was := tries;
      tries := Inserted(tries, w);
      InsertedSorted(was, w);
      forall p: Word ensures Subtrie(tries, p).Some? <==> Subtrie(was, p).Some? || p <= w {
        InsertAddsPrefixes(was, w, p);
      }
    }

    method Print() returns (lines: seq<Word>)
      ensures lines == Words(tries)
    {
      var printer := new Printer();
      printer.Show(tries);
      lines := printer.lines;
      PrefixedByNothing(Words(tries));
    }
  }

  /** The accumulator of print, and the lines written so far. */
  class Printer {
    var v: Word
    var lines: seq<Word>

    constructor ()
      ensures v == [] && lines == []
    {
      v, lines := [], [];
    }

    method Show(t: Branches)
      modifies this
      ensures v == old(v) && lines == old(lines) + Prefixed(v, Words(t))
      decreases t
    {
      hide Prefixed, Words, BranchWords;
      ghost var shown: seq<Word> := if t.Leaf? then [v] else [];
      PrintEnds(v, t, shown);
      if t.Leaf? { lines := lines + [v]; }
      var at := t;
      while at.Branch?
        invariant v == old(v) && lines == old(lines) + shown && (at.Branch? ==> at == t || at < t)
        invariant shown + Prefixed(v, BranchWords(at)) == Prefixed(v, Words(t))
        decreases at
      {
        PrintStep(v, at, shown);
        v := v + [at.key];
        Show(at.sub);
        shown := shown + Prefixed(v, Words(at.sub));
        v := v[..|v| - 1];
        at := at.rest;
      }
    }
  }

  lemma PrintEnds(v: Word, t: Branches, shown: seq<Word>)
    requires shown == if t.Leaf? then [v] else []
    ensures shown + Prefixed(v, BranchWords(t)) == Prefixed(v, Words(t))
    ensures Prefixed(v, BranchWords(Leaf)) == []
  {
    assert v + [] == v;
    if t.Leaf? { assert Words(t)[1..] == []; }
  }

  lemma PrintStep(v: Word, t: Branches, shown: seq<Word>)
    requires t.Branch?
    ensures shown + Prefixed(v + [t.key], Words(t.sub)) + Prefixed(v, BranchWords(t.rest))
      == shown + Prefixed(v, BranchWords(t))
    ensures (v + [t.key])[..|v|] == v
  {
    PrefixedEach(v, t.key, Words(t.sub));
    PrefixedAppend(v, Each(t.key, Words(t.sub)), BranchWords(t.rest));
    Regroup(shown, Prefixed(v + [t.key], Words(t.sub)), Prefixed(v, BranchWords(t.rest)));
  }

  lemma Regroup(a: seq<Word>, b: seq<Word>, c: seq<Word>)
    ensures a + b + c == a + (b + c)
  {
  }

  lemma {:induction false} PrefixedByNothing(ws: seq<Word>)
    ensures Prefixed([], ws) == ws
  {
    if ws != [] {
      PrefixedByNothing(ws[1..]);
      assert [] + ws[0] == ws[0];
    }
  }

  lemma {:induction false} PrefixedAppend(v: Word, a: seq<Word>, b: seq<Word>)
    ensures Prefixed(v, a + b) == Prefixed(v, a) + Prefixed(v, b)
  {
    if a == [] {
      assert a + b == b;
    } else {
      PrefixedAppend(v, a[1..], b);
      assert (a + b)[1..] == a[1..] + b;
    }
  }

  lemma {:induction false} PrefixedEach(v: Word, k: int, ws: seq<Word>)
    ensures Prefixed(v + [k], ws) == Prefixed(v, Each(k, ws))
  {
    if ws != [] {
      PrefixedEach(v, k, ws[1..]);
      assert v + [k] + ws[0] == v + ([k] + ws[0]);
      assert Each(k, ws)[1..] == Each(k, ws[1..]);
    }
  }

  // -------------------------------------------------------------------------- prefixes

  lemma {:induction false} InsertedChild(t: Branches, w: Word, k: int)
    requires Sorted(t) && w != []
    ensures var below := match Child(t, k) { case None => Leaf case Some(s) => s };
      Child(Inserted(t, w), k) == if k == w[0] then Some(Inserted(below, w[1..])) else Child(t, k)
    decreases t
  {
    if t.Branch? {
      if w[0] < t.key {
        NoSmaller(t, w[0]);
      } else if t.key < w[0] {
        InsertedChild(t.rest, w, k);
      }
    }
  }

  lemma {:induction false} NoSmaller(t: Branches, k: int)
    requires Sorted(t) && (t.Branch? ==> k < t.key)
    ensures Child(t, k).None?
  {
    if t.Branch? { NoSmaller(t.rest, k); }
  }

  lemma {:induction false} InsertedSorted(t: Branches, w: Word)
    requires Sorted(t)
    ensures Sorted(Inserted(t, w)) &&
      (t.Branch? && w != [] && t.key < w[0] ==> Inserted(t, w).Branch? && Inserted(t, w).key == t.key)
    decreases |w|, t
  {
    if w != [] {
      if t.Leaf? || w[0] < t.key {
        InsertedSorted(Leaf, w[1..]);
      } else if t.key == w[0] {
        InsertedSorted(t.sub, w[1..]);
      } else {
        InsertedSorted(t.rest, w);
      }
    }
  }

  lemma {:induction false} ChildSorted(t: Branches, k: int)
    requires Sorted(t)
    ensures Child(t, k).Some? ==> Sorted(Child(t, k).value)
  {
    if t.Branch? && t.key != k { ChildSorted(t.rest, k); }
  }

  lemma {:induction false} InsertAddsPrefixes(t: Branches, w: Word, p: Word)
    requires Sorted(t)
    ensures Subtrie(Inserted(t, w), p).Some? <==> Subtrie(t, p).Some? || p <= w
    decreases |p|
  {
    if p != [] && w != [] {
      InsertedChild(t, w, p[0]);
      ChildSorted(t, p[0]);
      assert p <= w <==> p[0] == w[0] && p[1..] <= w[1..] by { PrefixStep(p, w); }
      if p[0] == w[0] {
        match Child(t, p[0])
        case None => InsertAddsPrefixes(Leaf, w[1..], p[1..]);
        case Some(s) => InsertAddsPrefixes(s, w[1..], p[1..]);
      }
    }
  }

  lemma PrefixStep(p: Word, w: Word)
    requires p != [] && w != []
    ensures p <= w <==> p[0] == w[0] && p[1..] <= w[1..]
    ensures p < w <==> p[0] == w[0] && p[1..] < w[1..]
  {
    if p[0] == w[0] && p[1..] <= w[1..] {
      assert p == [p[0]] + p[1..] && w == [w[0]] + w[1..];
    }
    if p <= w {
      assert w[..|p|] == p && w[1..][..|p| - 1] == w[..|p|][1..];
    }
  }

  /** The trie after the insertions of ws, the last one last. */
  function Built(ws: seq<Word>): (t: Branches) {
    if ws == [] then Leaf else Inserted(Built(ws[..|ws| - 1]), ws[|ws| - 1])
  }

  ghost predicate Begins(p: Word, ws: seq<Word>) { exists i :: 0 <= i < |ws| && p <= ws[i] }

  /** subtrie finds exactly the prefixes of the inserted words. */
  lemma {:induction false} FindsPrefixes(ws: seq<Word>, p: Word)
    ensures Sorted(Built(ws)) && (Subtrie(Built(ws), p).Some? <==> p == [] || Begins(p, ws))
  {
    if ws != [] {
      var b := ws[..|ws| - 1];
      var w := ws[|ws| - 1];
      FindsPrefixes(b, p);
      InsertedSorted(Built(b), w);
      InsertAddsPrefixes(Built(b), w, p);
      assert Begins(p, b) ==> Begins(p, ws) by {
        if Begins(p, b) {
          var i :| 0 <= i < |b| && p <= b[i];
          assert p <= ws[i];
        }
      }
      assert Begins(p, ws) ==> Begins(p, b) || p <= w by {
        if Begins(p, ws) {
          var i :| 0 <= i < |ws| && p <= ws[i];
          if i < |b| { assert p <= b[i]; }
        }
      }
    }
  }

  // -------------------------------------------------------------------------- printing

  ghost predicate Listed(w: Word, ws: seq<Word>) { exists i :: 0 <= i < |ws| && ws[i] == w }

  lemma {:induction false} ListedAppend(w: Word, a: seq<Word>, b: seq<Word>)
    ensures Listed(w, a + b) <==> Listed(w, a) || Listed(w, b)
  {
    if Listed(w, a + b) {
      var i :| 0 <= i < |a + b| && (a + b)[i] == w;
      if i < |a| { assert a[i] == w; } else { assert b[i - |a|] == w; }
    }
    if Listed(w, a) {
      var i :| 0 <= i < |a| && a[i] == w;
      assert (a + b)[i] == w;
    }
    if Listed(w, b) {
      var i :| 0 <= i < |b| && b[i] == w;
      assert (a + b)[|a| + i] == w;
    }
  }

  lemma {:induction false} ListedEach(w: Word, k: int, ws: seq<Word>)
    ensures Listed(w, Each(k, ws)) <==> w != [] && w[0] == k && Listed(w[1..], ws)
  {
    if ws != [] {
      ListedEach(w, k, ws[1..]);
      ListedAppend(w, [[k] + ws[0]], Each(k, ws[1..]));
      assert ws == [ws[0]] + ws[1..];
      if w != [] {
        ListedAppend(w[1..], [ws[0]], ws[1..]);
        assert [ws[0]][0] == ws[0];
        assert w == [w[0]] + w[1..];
      }
      assert [[k] + ws[0]][0] == [k] + ws[0];
      assert Listed(w, [[k] + ws[0]]) <==> w == [k] + ws[0];
    }
  }

  /** Printing shows exactly the words that end in a leaf. */
  lemma {:induction false} WordsEndInLeaves(t: Branches, w: Word)
    requires Sorted(t)
    ensures Listed(w, Words(t)) <==> Subtrie(t, w) == Some(Leaf)
    ensures Listed(w, BranchWords(t)) <==> w != [] && Subtrie(t, w) == Some(Leaf)
  {
    if t.Leaf? {
      assert Words(t)[0] == [];
    } else {
      ListedAppend(w, Each(t.key, Words(t.sub)), BranchWords(t.rest));
      ListedEach(w, t.key, Words(t.sub));
      WordsEndInLeaves(t.rest, w);
      if w != [] {
        WordsEndInLeaves(t.sub, w[1..]);
        if w[0] == t.key { NoSmaller(t.rest, t.key); }
      }
    }
  }

  lemma {:induction false} SubtrieAppend(t: Branches, p: Word, q: Word)
    ensures Subtrie(t, p + q) == match Subtrie(t, p) { case None => None case Some(s) => Subtrie(s, q) }
    decreases |p|
  {
    if p == [] {
      assert p + q == q;
    } else {
      assert (p + q)[1..] == p[1..] + q;
      if Child(t, p[0]).Some? { SubtrieAppend(Child(t, p[0]).value, p[1..], q); }
    }
  }

  /** A leaf is a word that no longer one extends. */
  lemma LeafIsMaximal(t: Branches, w: Word)
    ensures Subtrie(t, w) == Some(Leaf) <==> Subtrie(t, w).Some? && forall x: Word :: w < x ==> Subtrie(t, x).None?
  {
    if Subtrie(t, w) == Some(Leaf) {
      forall x: Word | w < x ensures Subtrie(t, x).None? {
        SubtrieAppend(t, w, x[|w|..]);
        assert w + x[|w|..] == x;
      }
    } else if Subtrie(t, w).Some? {
      var x := w + [Subtrie(t, w).value.key];
      SubtrieAppend(t, w, [Subtrie(t, w).value.key]);
      assert w < x && Subtrie(t, x).Some?;
    }
  }

  /** print writes exactly the inserted words, or the empty one, that none extends: once, in dictionary order. */
  lemma PrintsLongest(ws: seq<Word>, w: Word)
    ensures Listed(w, Words(Built(ws))) <==> (w == [] || Listed(w, ws)) && forall i :: 0 <= i < |ws| ==> !(w < ws[i])
    ensures var lines := Words(Built(ws));
      Ascending(lines) && forall i, j :: 0 <= i < j < |lines| ==> lines[i] != lines[j]
  {
    var t := Built(ws);
    OnceEach(ws);
    FindsPrefixes(ws, w);
    WordsEndInLeaves(t, w);
    LeafIsMaximal(t, w);
    if Listed(w, Words(t)) {
      forall i | 0 <= i < |ws| ensures !(w < ws[i]) {
        FindsPrefixes(ws, ws[i]);
        assert ws[i] <= ws[i];
      }
      if w != [] {
        var i :| 0 <= i < |ws| && w <= ws[i];
        assert !(w < ws[i]) && ws[i] == w;
      }
    } else if w == [] || Listed(w, ws) {
      if w != [] {
        var j :| 0 <= j < |ws| && ws[j] == w;
        assert w <= ws[j];
      }
      var x: Word :| w < x && !Subtrie(t, x).None?;
      FindsPrefixes(ws, x);
      var i :| 0 <= i < |ws| && x <= ws[i];
      assert w < ws[i] by { PrefixTrans(w, x, ws[i]); }
    }
  }

  lemma OnceEach(ws: seq<Word>)
    ensures var lines := Words(Built(ws));
      Ascending(lines) && forall i, j :: 0 <= i < j < |lines| ==> lines[i] != lines[j]
  {
    FindsPrefixes(ws, []);
    PrintsInOrder(Built(ws));
    forall w: Word ensures !Before(w, w) { NotBeforeItself(w); }
  }

  lemma PrefixTrans(a: Word, b: Word, c: Word)
    requires a < b && b <= c
    ensures a < c
  {
    assert c[..|a|] == c[..|b|][..|a|];
  }

  /** Dictionary order. */
  predicate Before(a: Word, b: Word) {
    b != [] && (a == [] || a[0] < b[0] || (a[0] == b[0] && Before(a[1..], b[1..])))
  }

  ghost predicate Ascending(ws: seq<Word>) { forall i, j :: 0 <= i < j < |ws| ==> Before(ws[i], ws[j]) }

  lemma {:induction false} EachIs(k: int, ws: seq<Word>)
    ensures |Each(k, ws)| == |ws| && forall i :: 0 <= i < |ws| ==> Each(k, ws)[i] == [k] + ws[i]
  {
    if ws != [] { EachIs(k, ws[1..]); }
  }

  /** Printing goes by dictionary order. */
  lemma {:induction false} PrintsInOrder(t: Branches)
    requires Sorted(t)
    ensures Ascending(Words(t)) && Ascending(BranchWords(t))
    ensures t.Branch? ==>
      forall i :: 0 <= i < |BranchWords(t)| ==> BranchWords(t)[i] != [] && t.key <= BranchWords(t)[i][0]
  {
    if t.Branch? {
      PrintsInOrder(t.sub);
      PrintsInOrder(t.rest);
      EachIs(t.key, Words(t.sub));
      var a, b := Each(t.key, Words(t.sub)), BranchWords(t.rest);
      forall i, j | 0 <= i < j < |a + b| ensures Before((a + b)[i], (a + b)[j]) {
        if j < |a| {
          assert Before(Words(t.sub)[i], Words(t.sub)[j]);
          assert a[i][1..] == Words(t.sub)[i] && a[j][1..] == Words(t.sub)[j];
        }
      }
    }
  }

  lemma {:induction false} NotBeforeItself(w: Word)
    ensures !Before(w, w)
  {
    if w != [] { NotBeforeItself(w[1..]); }
  }
}
