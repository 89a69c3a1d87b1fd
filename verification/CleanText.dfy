/** Text that holds no tags, wherever it stands. */
module CleanText {
  // What may stand between the tags of a document so that reading it again finds the same tags.

  import opened Escape
  import opened Nodes
  import opened CData
  import D = ElementData

  predicate OtherKind(kind: int) {
    kind == TEXT || kind == WHITESPACE || kind == CDATA_SECTION || kind == PROCESSING_INSTRUCTION || kind == COMMENT ||
    kind == DOCUMENT_TYPE
  }

  /** What begins at k with a left bracket is an instruction without a name. */
  predicate Bare(s: string, k: nat) { k + 2 < |s| && s[k + 1] == '?' && s[k + 2] == '>' }

  /** The text begins with an instruction without a name: there alone it does not end at its first bracket. */
  predicate BareFront(s: string) { s != "" && s[0] == '<' && Bare(s, 0) }

  /** x is one node that is no tag, wherever it stands; without a name, wherever but at the front. */
  ghost predicate Section(x: string) {
    x != "" && x[0] == '<' &&
    forall s: string, i: nat, l: int, r: int ::
      NulFree(s) && TextAt(s, i, x) && (i == 0 ==> !Bare(x, 0)) ==> NodeThere(s, i, l, r, |x|)
  }

  predicate NodeThere(s: string, i: nat, l: int, r: int, len: nat) {
    var n := NodeAt(s, i, l, r);
    OtherKind(n.kind) && n.start == i && n.next == i + len
  }

  /** Characters and sections. */
  ghost predicate Clean(g: string)
    decreases |g|
  {
    g == "" || (g[0] != '<' && Clean(g[1..])) || (g[0] == '<' && exists n: nat :: CleanFrom(g, n))
  }

  ghost predicate CleanFrom(g: string, n: nat)
    decreases |g|, 0
  {
    0 < n <= |g| && Section(g[..n]) && Clean(g[n..])
  }

  lemma {:induction false} CleanConcat(a: string, b: string)
    requires Clean(a) && Clean(b)
    ensures Clean(a + b)
    decreases |a|
  {
    hide Section;
    if a == "" {
      assert a + b == b;
    } else if a[0] != '<' {
      CleanConcat(a[1..], b);
      assert (a + b)[1..] == a[1..] + b;
    } else {
      var n: nat :| CleanFrom(a, n);
      CleanConcat(a[n..], b);
      assert (a + b)[..n] == a[..n] && (a + b)[n..] == a[n..] + b;
      assert CleanFrom(a + b, n);
    }
  }

  /** Leading characters can be left out. */
  lemma {:induction false} CleanSuffix(g: string, n: nat)
    requires Clean(g) && n <= |g| && forall k :: 0 <= k < n ==> g[k] != '<'
    ensures Clean(g[n..])
    decreases n
  {
    if n > 0 {
      CleanSuffix(g[1..], n - 1);
      assert g[1..][n - 1..] == g[n..];
    } else {
      assert g[0..] == g;
    }
  }

  lemma {:induction false} NoTagIsClean(g: string)
    requires forall k :: 0 <= k < |g| ==> g[k] != '<'
    ensures Clean(g)
    decreases |g|
  {
    if g != "" { NoTagIsClean(g[1..]); }
  }

  lemma SectionIsClean(x: string)
    requires Section(x)
    ensures Clean(x)
  {
    assert x != "" && x[0] == '<';
    hide Section;
    assert x[..|x|] == x && x[|x|..] == "" && Clean("");
    assert CleanFrom(x, |x|);
  }

  // ---------------------------------------------------------------------- character data

  /** Character data is cut into nodes that end at a tag, at the end, or behind a bracket. */
  lemma {:induction false} TextRun(s: string, j: nat, start: nat, end: nat, st: State)
    requires start <= j <= end <= |s| && NulFree(s) && (end == |s| || s[end] == '<')
    requires forall k :: j <= k < end ==> s[k] != '<'
    requires st == Initial(st.nameL, st.nameR).(phase := st.phase, kind := st.kind, find := st.find)
    requires if j == start then start < end && st == Initial(st.nameL, st.nameR) else
      (st.kind == TEXT && st.find == TagBegin) ||
        (st.kind == WHITESPACE && st.phase == TextOrSpace && st.find == Unknown)
    ensures var n := Run(s, j, start, st);
      (n.kind == TEXT || n.kind == WHITESPACE) && n.start == start && start < n.next <= end
    decreases |s| - j
  {
    hide Run;
    if j == |s| {
      CutRun(s, j, start, st);
    } else {
      TextStep(s, j, st);
      match Step(s, j, st)
      case Stop(kind, next, empty) => StopRun(s, j, start, st);
      case Go(st') =>
        StepTo(s, j, start, st, st');
        TextRun(s, j + 1, start, end, st');
    }
  }

  lemma CutRun(s: string, j: nat, start: nat, st: State)
    requires j == |s|
    ensures Run(s, j, start, st) == Cut(j, start, st)
  {
  }

  lemma StopRun(s: string, j: nat, start: nat, st: State)
    requires j < |s| && s[j] != '\0' && Step(s, j, st).Stop?
    ensures var m := Step(s, j, st); var n := Run(s, j, start, st);
      n.kind == m.kind && n.start == start && n.next == m.next
  {
  }

  lemma TextStep(s: string, j: nat, st: State)
    requires j < |s|
    requires st == Initial(st.nameL, st.nameR).(phase := st.phase, kind := st.kind, find := st.find)
    requires (st.kind == TEXT && st.find == TagBegin) ||
      (st.kind == WHITESPACE && st.phase == TextOrSpace && st.find == Unknown) ||
             (st == Initial(st.nameL, st.nameR) && s[j] != '<')
    ensures match Step(s, j, st)
      case Stop(kind, next, _) => kind == st.kind && kind != BAD_NODE && next == if s[j] == '<' then j else j + 1
      case Go(st') =>
        s[j] != '<' && st' == Initial(st.nameL, st.nameR).(phase := st'.phase, kind := st'.kind, find := st'.find) &&
        ((st'.kind == TEXT && st'.find == TagBegin) ||
          (st'.kind == WHITESPACE && st'.phase == TextOrSpace && st'.find == Unknown))
  {
  }

  function PlainLength(g: string): (n: nat)
    ensures n <= |g| && (forall k :: 0 <= k < n ==> g[k] != '<') && (n < |g| ==> g[n] == '<')
  {
    if g == "" || g[0] == '<' then 0 else 1 + PlainLength(g[1..])
  }

  /** The first node of clean text. */
  lemma CleanNode(g: string, s: string, i: nat, l: int, r: int) returns (m: nat)
    requires Clean(g) && g != "" && NulFree(s) && TextAt(s, i, g) && (i + |g| == |s| || s[i + |g|] == '<')
    requires i == 0 ==> !BareFront(g)
    ensures 0 < m <= |g| && NodeThere(s, i, l, r, m) && Clean(g[m..])
  {
    if g[0] == '<' {
      var n: nat :| CleanFrom(g, n);
      assert g == g[..n] + g[n..];
      TextSplit(s, i, g[..n], g[n..]);
      m := n;
    } else {
      hide Section;
      var p := PlainLength(g);
      forall k | i <= k < i + p ensures s[k] != '<' { CharsAt(s, i, g, k - i); }
      if p < |g| { CharsAt(s, i, g, p); }
      TextRun(s, i, i, i + p, Initial(l, r));
      m := NodeAt(s, i, l, r).next - i;
      CleanSuffix(g, m);
    }
  }

  // --------------------------------------------------------------------- stored values

  lemma CDataSection(c: string)
    requires D.Closable(c)
    ensures Section(OPEN + (c + CLOSE))
  {
    var x := OPEN + (c + CLOSE);
    assert |x| == |c| + 12;
    forall s: string, i: nat, l: int, r: int | NulFree(s) && TextAt(s, i, x) ensures NodeThere(s, i, l, r, |x|) {
      D.SectionNode(s, i, c, l, r);
    }
  }

  lemma {:induction false} SectionsClean(v: string, j: nat, pre: string)
    requires j <= |v| && (pre == "" || pre == ">")
    ensures Clean(D.SectionsText(v, j, pre))
    decreases |v| - j
  {
    hide Clean, Section, SplitFrom, D.Closable, TextAt;
    var k := StrStr(v, j, CLOSE);
    SplitCopies(v, j, k);
    if k == |v| {
      assert pre + v[j..|v|] + "" == pre + v[j..];
      D.PieceClosable(v, j, |v|, pre, "");
      SplitEnds(v);
      D.LastSection(v, j, pre, pre + v[j..]);
      OneSectionClean(pre + v[j..]);
    } else {
      D.SectionAt(v, k);
      var c := pre + v[j..k] + "]]";
      D.PieceClosable(v, j, k, pre, "]]");
      D.NextSection(v, j, k, pre);
      OneSectionClean(c);
      SectionsClean(v, k + 3, ">");
      CleanConcat(OPEN + (c + CLOSE), D.SectionsText(v, k + 3, ">"));
    }
  }

  lemma OneSectionClean(c: string)
    requires D.Closable(c)
    ensures Clean(OPEN + (c + CLOSE))
  {
    hide Section, Clean;
    CDataSection(c);
    SectionIsClean(OPEN + (c + CLOSE));
  }

  /** A stored value, escaped or in sections, is clean. */
  lemma StoredIsClean(value: string, cdata: bool, quotes: bool, refs: bool)
    requires NulFree(value)
    ensures Clean(if cdata then CDataText(value) else Escaped(value, 0, quotes, refs))
  {
    hide Clean, SplitFrom, Escaped;
    if cdata {
      SectionsClean(value, 0, "");
      assert CDataText(value) == D.SectionsText(value, 0, "");
    } else {
      EscapedIsInert(value, 0, quotes, refs);
      NoTagIsClean(Escaped(value, 0, quotes, refs));
    }
  }
}
