/** The data of an element, read node by node off its content. */
module ElementData {
  // Text and CDATA sections of its content, and that a stored value reads back unchanged.

  import E = ElemForest
  import opened Escape
  import opened CData
  import opened Nodes

  /** The data in s[i..end], one node after the other; l and r are the token before. */
  function NodesData(s: string, i: nat, end: nat, l: int, r: int, table: map<string, int>): string
    requires end <= |s| && NulFree(s)
    decreases end - i
  {
    if i >= end then ""
    else
      var n := NodeAt(s, i, l, r);
      assert i < n.next <= |s| && n.start == i by { RunProgress(s, i, i, Initial(l, r)); }
      NodeData(s, n, table) + NodesData(s, n.next, end, n.nameL, n.nameR, table)
  }

  lemma NodesDataStep(s: string, i: nat, end: nat, l: int, r: int, n: Node, table: map<string, int>)
    requires i < end <= |s| && NulFree(s) && n == NodeAt(s, i, l, r) && n.next <= |s|
    ensures NodesData(s, i, end, l, r, table)
      == NodeData(s, n, table) + NodesData(s, n.next, end, n.nameL, n.nameR, table)
  {
  }

  lemma NodesDataEnd(s: string, end: nat, table: map<string, int>)
    requires end <= |s| && NulFree(s)
    ensures forall i: nat, l, r :: end <= i ==> NodesData(s, i, end, l, r, table) == ""
  {
  }

  /** What one node adds to the data. */
  function NodeData(s: string, n: Node, table: map<string, int>): string {
    if n.kind == TEXT && n.start <= n.next <= |s| then Unescaped(s, n.start, n.next, table)
    else if n.kind == CDATA_SECTION && n.start + 12 <= n.next <= |s| then s[n.start + 9..n.next - 3]
    else ""
  }

  predicate HasTag(s: string, i: nat, end: nat)
    requires end <= |s|
  {
    exists k :: i <= k < end && s[k] == '<'
  }

  function ContentData(s: string, i: nat, end: nat, table: map<string, int>): string
    requires end <= |s| && NulFree(s)
  {
    if HasTag(s, i, end) then NodesData(s, i, end, 0, -1, table) else Unescaped(s, i, end, table)
  }

  /** The data of the element p. */
  function DataOf(s: string, p: E.ElemPos, table: map<string, int>): string
    requires NulFree(s)
  {
    if p.IsEmptyElement() || p.child != 0 ||
      !(0 <= p.StartContent() <= p.StartContent() + p.ContentLen() <= |s|) then ""
    else ContentData(s, p.StartContent(), p.StartContent() + p.ContentLen(), table)
  }

  // -------------------------------------------------------------------------- CDATA sections

  /** A bracket here would end the section. */
  predicate EndsAt(s: string, k: int) { 2 <= k < |s| && s[k] == '>' && s[k - 1] == ']' && s[k - 2] == ']' }

  function InSection(nameL: int, nameR: int): State {
    Initial(nameL, nameR).(phase := Bracket, kind := CDATA_SECTION, find := SectionEnd)
  }

  /** The first characters of a section. */
  lemma SectionOpens(s: string, i: nat, nameL: int, nameR: int)
    requires TextAt(s, i, "<![C")
    ensures NodeAt(s, i, nameL, nameR) == Run(s, i + 4, i, InSection(nameL, nameR))
  {
    CharsAt(s, i, "<![C", 0);
    CharsAt(s, i, "<![C", 1);
    CharsAt(s, i, "<![C", 2);
    CharsAt(s, i, "<![C", 3);
    var st := Initial(nameL, nameR);
    StepTo(s, i, i, st, st.(phase := OpenTag));
    StepTo(s, i + 1, i, st.(phase := OpenTag), st.(phase := Bang));
    StepTo(s, i + 2, i, st.(phase := Bang), st.(phase := Bracket));
    StepTo(s, i + 3, i, st.(phase := Bracket), InSection(nameL, nameR));
  }

  /** Inside a section everything is skipped up to the first end delimiter. */
  lemma {:induction false} SectionRuns(s: string, i: nat, start: nat, end: nat, nameL: int, nameR: int)
    requires 4 <= i <= end < |s| && EndsAt(s, end) && NulFree(s)
    requires forall k :: i <= k < end ==> !EndsAt(s, k)
    ensures Run(s, i, start, InSection(nameL, nameR)) == Node(CDATA_SECTION, start, end + 1, false, nameL, nameR)
    decreases end - i
  {
    var st := InSection(nameL, nameR);
    SectionStep(s, i, st);
    if i < end {
      StepTo(s, i, start, st, st);
      SectionRuns(s, i + 1, start, end, nameL, nameR);
    }
  }

  lemma SectionStep(s: string, i: nat, st: State)
    requires 4 <= i < |s| && st.find == SectionEnd && st.kind == CDATA_SECTION && st.name == 0 && !st.docType
    requires !st.single && !st.double && !st.bare && !st.empty
    ensures Step(s, i, st) == if EndsAt(s, i) then Stop(CDATA_SECTION, i + 1, false) else Go(st)
  {
    if s[i] == '>' {
      assert "]]>"[..2] == "]]";
      assert s[i - 2..i] == [s[i - 2], s[i - 1]];
    }
  }

  /** No end delimiter inside the text of a section. */
  predicate Closable(c: string) { forall k :: 0 <= k < |c| ==> !EndsAt(c, k) }

  /** A section is one node. */
  lemma SectionNode(s: string, i: nat, c: string, nameL: int, nameR: int)
    requires TextAt(s, i, OPEN + (c + CLOSE)) && Closable(c) && NulFree(s)
    ensures NodeAt(s, i, nameL, nameR) == Node(CDATA_SECTION, i, i + |c| + 12, false, nameL, nameR)
    ensures s[i + 9..i + 9 + |c|] == c
  {
    assert OPEN + (c + CLOSE) == "<![C" + ("DATA[" + (c + CLOSE));
    TextSplit(s, i, "<![C", "DATA[" + (c + CLOSE));
    TextSplit(s, i + 4, "DATA[", c + CLOSE);
    TextSplit(s, i + 9, c, CLOSE);
    SectionOpens(s, i, nameL, nameR);
    EndOfSection(s, i, c);
    SectionRuns(s, i + 4, i, i + |c| + 11, nameL, nameR);
  }

  /** The end delimiter behind the text of the section is the first. */
  lemma EndOfSection(s: string, i: nat, c: string)
    requires TextAt(s, i + 4, "DATA[") && TextAt(s, i + 9, c) && TextAt(s, i + 9 + |c|, CLOSE) && Closable(c)
    ensures EndsAt(s, i + |c| + 11) && forall k :: i + 4 <= k < i + |c| + 11 ==> !EndsAt(s, k)
  {
    CharsAt(s, i + 9 + |c|, CLOSE, 0);
    CharsAt(s, i + 9 + |c|, CLOSE, 1);
    CharsAt(s, i + 9 + |c|, CLOSE, 2);
    forall k | i + 4 <= k < i + |c| + 11 ensures !EndsAt(s, k) {
      NotYet(s, i, c, k);
    }
  }

  lemma NotYet(s: string, i: nat, c: string, k: nat)
    requires TextAt(s, i + 4, "DATA[") && TextAt(s, i + 9, c) && TextAt(s, i + 9 + |c|, CLOSE) && Closable(c)
    requires i + 4 <= k < i + |c| + 11
    ensures !EndsAt(s, k)
  {
    if k < i + 9 {
      CharsAt(s, i + 4, "DATA[", k - i - 4);
    } else if k >= i + 9 + |c| {
      CharsAt(s, i + 9 + |c|, CLOSE, k - i - 9 - |c|);
    } else {
      CharsAt(s, i + 9, c, k - i - 9);
      CharsAt(s, i + 4, "DATA[", 4);
      if k >= i + 10 { CharsAt(s, i + 9, c, k - i - 10); }
      if k >= i + 11 { CharsAt(s, i + 9, c, k - i - 11); }
      assert !EndsAt(c, k - i - 9);
    }
  }

  lemma ClosesHere(v: string, m: nat)
    requires m + 3 <= |v|
    ensures v[m] == ']' && v[m + 1] == ']' && v[m + 2] == '>' ==> TextAt(v, m, CLOSE)
  {
    assert v[m..m + 3] == [v[m], v[m + 1], v[m + 2]];
  }

  /** Where the value has no end delimiter, the text pre + v[j..k] + post can be closed. */
  lemma PieceClosable(v: string, j: nat, k: nat, pre: string, post: string)
    requires j <= k <= |v| && forall m :: j <= m < k ==> !TextAt(v, m, CLOSE)
    requires (pre == "" || pre == ">") &&
      (if post == "" then k == |v| else post == "]]" && k < |v| && TextAt(v, k, CLOSE))
    ensures Closable(pre + v[j..k] + post)
  {
    var c, o := pre + v[j..k] + post, |pre|;
    forall x | 0 <= x < |c| ensures !EndsAt(c, x) {
      if o + 2 <= x < o + k - j {
        var m := j + x - o - 2;
        assert c[x] == v[m + 2] && c[x - 1] == v[m + 1] && c[x - 2] == v[m];
        assert !TextAt(v, m, CLOSE);
        ClosesHere(v, m);
      }
    }
  }

  lemma DataStep(s: string, i: nat, end: nat, c: string, table: map<string, int>)
    requires i + |c| + 12 <= |s| && i < end <= |s| && NulFree(s)
    requires NodeAt(s, i, 0, -1) == Node(CDATA_SECTION, i, i + |c| + 12, false, 0, -1) && s[i + 9..i + 9 + |c|] == c
    ensures NodesData(s, i, end, 0, -1, table) == c + NodesData(s, i + |c| + 12, end, 0, -1, table)
  {
    hide NodeAt;
  }

  /** What is stored from the value's position j on, in one or more sections. */
  function SectionsText(v: string, j: nat, pre: string): string
    requires j <= |v|
  {
    OPEN + (pre + SplitFrom(v, j) + CLOSE)
  }

  /** Sections with the rest of the value in them read as that rest, even if their last characters are not asked for. */
  lemma {:induction false} SectionsRead(s: string, i: nat, v: string, j: nat, pre: string, cut: nat,
    table: map<string, int>)
    requires j <= |v| && NulFree(s) && (pre == "" || pre == ">") && cut < 12
    requires TextAt(s, i, SectionsText(v, j, pre)) && cut < |SectionsText(v, j, pre)|
    ensures NodesData(s, i, i + |SectionsText(v, j, pre)| - cut, 0, -1, table) == pre + v[j..]
    decreases |v| - j
  {
    hide NodesData, SplitFrom, SectionsText, TextAt;
    var k := StrStr(v, j, CLOSE);
    SplitCopies(v, j, k);
    if k == |v| {
      LastReads(s, i, v, j, pre, cut, table);
    } else {
      SectionAt(v, k);
      NextReads(s, i, v, j, k, pre, cut, table);
      SectionsLength(v, k + 3, ">");
      SectionsRead(s, i + |pre| + k - j + 14, v, k + 3, ">", cut, table);
      JoinValue(v, j, k, pre);
    }
  }

  lemma SectionAt(v: string, k: nat)
    requires TextAt(v, k, CLOSE)
    ensures k + 3 <= |v|
  {
  }

  lemma SectionsLength(v: string, j: nat, pre: string)
    requires j <= |v|
    ensures |SectionsText(v, j, pre)| >= 12 && SectionsText(v, j, pre)[0] == '<'
  {
  }

  lemma LastReads(s: string, i: nat, v: string, j: nat, pre: string, cut: nat, table: map<string, int>)
    requires j <= |v| && NulFree(s) && cut < 12 && cut < |SectionsText(v, j, pre)| && (pre == "" || pre == ">")
    requires SplitFrom(v, j) == v[j..|v|] + SplitFrom(v, |v|) && forall m :: j <= m < |v| ==> !TextAt(v, m, CLOSE)
    requires TextAt(s, i, SectionsText(v, j, pre))
    ensures NodesData(s, i, i + |SectionsText(v, j, pre)| - cut, 0, -1, table) == pre + v[j..]
  {
    hide NodeAt, NodesData, EndsAt;
    var c := pre + v[j..];
    assert pre + v[j..|v|] + "" == c;
    PieceClosable(v, j, |v|, pre, "");
    LastSection(v, j, pre, c);
    SectionNode(s, i, c, 0, -1);
    DataStep(s, i, i + |c| + 12 - cut, c, table);
    NoMoreData(s, i + |c| + 12, i + |c| + 12 - cut, table);
    assert c + "" == c;
  }

  lemma NextReads(s: string, i: nat, v: string, j: nat, k: nat, pre: string, cut: nat, table: map<string, int>)
    requires cut < 12 && j <= k < |v| && k + 3 <= |v| && NulFree(s) && (pre == "" || pre == ">") &&
      TextAt(v, k, CLOSE)
    requires SplitFrom(v, j) == v[j..k] + SplitFrom(v, k) && forall m :: j <= m < k ==> !TextAt(v, m, CLOSE)
    requires TextAt(s, i, SectionsText(v, j, pre))
    ensures var next := i + |pre| + k - j + 14;
      TextAt(s, next, SectionsText(v, k + 3, ">")) &&
      i + |SectionsText(v, j, pre)| == next + |SectionsText(v, k + 3, ">")| &&
      cut < |SectionsText(v, j, pre)| &&
      NodesData(s, i, i + |SectionsText(v, j, pre)| - cut, 0, -1, table)
        == (pre + v[j..k] + "]]") + NodesData(s, next, i + |SectionsText(v, j, pre)| - cut, 0, -1, table)
  {
    hide NodeAt, NodesData, EndsAt, TextAt, SplitFrom;
    var c := pre + v[j..k] + "]]";
    PieceClosable(v, j, k, pre, "]]");
    NextSection(v, j, k, pre);
    TextSplit(s, i, OPEN + (c + CLOSE), SectionsText(v, k + 3, ">"));
    SectionNode(s, i, c, 0, -1);
    SectionsLength(v, k + 3, ">");
    DataStep(s, i, i + |SectionsText(v, j, pre)| - cut, c, table);
  }

  lemma NoMoreData(s: string, i: nat, end: nat, table: map<string, int>)
    requires end <= i <= |s| && NulFree(s)
    ensures NodesData(s, i, end, 0, -1, table) == ""
  {
  }

  lemma LastSection(v: string, j: nat, pre: string, c: string)
    requires j <= |v| && SplitFrom(v, j) == v[j..|v|] + "" && c == pre + v[j..]
    ensures pre + SplitFrom(v, j) + CLOSE == c + CLOSE
  {
    assert v[j..|v|] + "" == v[j..];
  }

  lemma NextSection(v: string, j: nat, k: nat, pre: string)
    requires j <= k < |v| && TextAt(v, k, CLOSE) && SplitFrom(v, j) == v[j..k] + SplitFrom(v, k)
    ensures OPEN + (pre + SplitFrom(v, j) + CLOSE)
         == (OPEN + (pre + v[j..k] + "]]" + CLOSE)) + (OPEN + (">" + SplitFrom(v, k + 3) + CLOSE))
  {
    SplitHere(v, k);
    hide SplitFrom, TextAt;
    SectionJoin(pre, v[j..k], SplitFrom(v, k + 3));
  }

  lemma SplitHere(v: string, k: nat)
    requires k < |v| && TextAt(v, k, CLOSE)
    ensures k + 3 <= |v| && SplitFrom(v, k) == "]]" + (CLOSE + OPEN) + ">" + SplitFrom(v, k + 3)
  {
    assert "]]]]><![CDATA[>" == "]]" + (CLOSE + OPEN) + ">";
  }

  lemma SectionJoin(pre: string, a: string, r: string)
    ensures OPEN + (pre + (a + ("]]" + (CLOSE + OPEN) + ">" + r)) + CLOSE)
         == (OPEN + (pre + a + "]]" + CLOSE)) + (OPEN + (">" + r + CLOSE))
  {
  }

  lemma JoinValue(v: string, j: nat, k: nat, pre: string)
    requires j <= k && TextAt(v, k, CLOSE)
    ensures (pre + v[j..k] + "]]") + (">" + v[k + 3..]) == pre + v[j..]
  {
    assert v[k..k + 3] == "]]>";
    assert v[j..] == v[j..k] + v[k..k + 3] + v[k + 3..];
  }

  // ------------------------------------------------------------------------- stored values

  /** A value stored as CDATA sections or escaped reads back as it was. */
  lemma StoredReads(s: string, i: nat, value: string, cdata: bool, quotes: bool, table: map<string, int>)
    requires NulFree(s) && NulFree(value) && HasXmlEntities(table)
    requires TextAt(s, i, if cdata then CDataText(value) else Escaped(value, 0, quotes, false))
    ensures var x := if cdata then CDataText(value) else Escaped(value, 0, quotes, false);
      ContentData(s, i, i + |x|, table) == value
  {
    hide NodesData, Unescaped, Escaped, CDataText, ContentData;
    if cdata { SectionedReads(s, i, value, table); } else { EscapedReads(s, i, value, quotes, table); }
  }

  lemma SectionedReads(s: string, i: nat, value: string, table: map<string, int>)
    requires NulFree(s) && TextAt(s, i, CDataText(value))
    ensures ContentData(s, i, i + |CDataText(value)|, table) == value
  {
    hide NodesData, SplitFrom;
    assert CDataText(value) == SectionsText(value, 0, "");
    CharsAt(s, i, CDataText(value), 0);
    SectionsRead(s, i, value, 0, "", 0, table);
    assert "" + value[0..] == value;
  }

  lemma EscapedReads(s: string, i: nat, value: string, quotes: bool, table: map<string, int>)
    requires NulFree(s) && NulFree(value) && HasXmlEntities(table) && TextAt(s, i, Escaped(value, 0, quotes, false))
    ensures ContentData(s, i, i + |Escaped(value, 0, quotes, false)|, table) == value
  {
    hide NodesData, Unescaped, Escaped;
    var x := Escaped(value, 0, quotes, false);
    EscapedIsInert(value, 0, quotes, false);
    forall k | i <= k < i + |x| ensures s[k] != '<' {
      CharsAt(s, i, x, k - i);
    }
    UnescapeEscaped(value, 0, quotes, s, i, i + |x|, table);
    assert value[0..] == value;
  }

  // ------------------------------------------------- reading from one character too early

  /** Escaped text but for its last character; only a reference there is still read whole. */
  lemma {:induction false} CutUnescape(v: string, j: nat, quotes: bool, s: string, i: nat, n: nat,
    table: map<string, int>)
    requires j < |v| && i <= n <= |s| && HasXmlEntities(table) && s[i..n] == Escaped(v, j, quotes, false)
    ensures i < n
    ensures var u := Unescaped(s, i, n - 1, table);
      u == v[j..] || (u == v[j..|v| - 1] && !Replaced(v[|v| - 1], quotes))
    decreases |v| - j
  {
    hide Piece, Escape.After, HasXmlEntities, Escaped, Unescaped, Entity, Replaced;
    var next := EscapedHead(v, j, quotes, s, i, n, table);
    if j + 1 < |v| {
      CutUnescape(v, j + 1, quotes, s, next, n, table);
      UnescapedStep(s, i, n - 1, v[j], next, table);
      assert v[j..] == [v[j]] + v[j + 1..] && v[j..|v| - 1] == [v[j]] + v[j + 1..|v| - 1];
    } else {
      LastUnescaped(s, i, n, v[j], next, table);
      assert v[j..] == [v[j]] && v[j..|v| - 1] == "";
    }
  }

  /** The first character of escaped text, and where the rest of it is. */
  lemma EscapedHead(v: string, j: nat, quotes: bool, s: string, i: nat, n: nat,
    table: map<string, int>) returns (next: nat)
    requires j < |v| && i <= n <= |s| && HasXmlEntities(table) && s[i..n] == Escaped(v, j, quotes, false)
    ensures i < next <= n && s[next..n] == Escaped(v, j + 1, quotes, false) && (j + 1 == |v| ==> next == n)
    ensures Piece(s, i, table) == [v[j]] && Escape.After(s, i, table) == next &&
      (!Replaced(v[j], quotes) <==> next == i + 1)
  {
    hide Piece, Escape.After, HasXmlEntities, Entity;
    var head := if Replaced(v[j], quotes) then Entity(v[j]) else [v[j]];
    next := i + |head|;
    HeadAt(s, i, n, head, Escaped(v, j + 1, quotes, false));
    if Replaced(v[j], quotes) {
      NameOfEntity(v[j]);
      ReadsEntity(s, i, v[j], table);
    } else {
      ReadsPlain(s, i, v[j], table);
    }
  }

  lemma UnescapedStep(s: string, i: nat, n: nat, c: char, next: nat, table: map<string, int>)
    requires i < n <= |s| && Piece(s, i, table) == [c] && Escape.After(s, i, table) == next
    ensures Unescaped(s, i, n, table) == [c] + Unescaped(s, next, n, table)
  {
  }

  lemma LastUnescaped(s: string, i: nat, n: nat, c: char, next: nat, table: map<string, int>)
    requires i < n <= |s| && Piece(s, i, table) == [c] && Escape.After(s, i, table) == next == n
    ensures Unescaped(s, i, n - 1, table) == if n == i + 1 then "" else [c]
  {
  }

  lemma ReadsPlain(s: string, i: nat, c: char, table: map<string, int>)
    requires TextAt(s, i, [c]) && c != '&'
    ensures i < |s| && Piece(s, i, table) == [c] && Escape.After(s, i, table) == i + 1
  {
    CharsAt(s, i, [c], 0);
  }

  /** Only a text of brackets is the same after a bracket is put in front and the last character left out. */
  lemma {:induction false} Shifted(v: string, k: nat)
    requires 0 < |v| && ">" + v[..|v| - 1] == v && k < |v|
    ensures v[k] == '>'
  {
    if k > 0 {
      Shifted(v, k - 1);
      assert v[k] == (">" + v[..|v| - 1])[k] == v[k - 1];
    }
  }

  lemma EscapedShifted(s: string, i: nat, value: string, quotes: bool, table: map<string, int>)
    requires 0 < i && NulFree(s) && NulFree(value) && value != "" && HasXmlEntities(table)
    requires i <= |s| && s[i - 1] == '>' && TextAt(s, i, Escaped(value, 0, quotes, false))
    ensures ContentData(s, i - 1, i - 1 + |Escaped(value, 0, quotes, false)|, table) != value
  {
    hide NodesData, Unescaped, Escaped, Piece, Escape.After;
    var x := Escaped(value, 0, quotes, false);
    EscapedIsInert(value, 0, quotes, false);
    forall k | i - 1 <= k < i - 1 + |x| ensures s[k] != '<' {
      if k >= i { CharsAt(s, i, x, k - i); }
    }
    CutUnescape(value, 0, quotes, s, i, i + |x|, table);
    OneMore(s, i, i + |x| - 1, table);
    assert value[0..] == value && value[0..|value| - 1] == value[..|value| - 1];
    if ">" + value[..|value| - 1] == value { Shifted(value, |value| - 1); }
  }

  lemma OneMore(s: string, i: nat, n: nat, table: map<string, int>)
    requires 0 < i <= n <= |s| && s[i - 1] == '>'
    ensures Unescaped(s, i - 1, n, table) == ">" + Unescaped(s, i, n, table)
  {
  }

  lemma SectionedShifted(s: string, i: nat, value: string, table: map<string, int>)
    requires 0 < i && NulFree(s) && i <= |s| && s[i - 1] == '>' && TextAt(s, i, CDataText(value))
    ensures ContentData(s, i - 1, i - 1 + |CDataText(value)|, table) == ">" + value
  {
    hide NodesData, SplitFrom, Unescaped;
    var x := CDataText(value);
    assert x == SectionsText(value, 0, "");
    SectionsLength(value, 0, "");
    CharsAt(s, i, x, 0);
    SectionsRead(s, i, value, 0, "", 1, table);
    assert "" + value[0..] == value;
    BracketNode(s, i);
    NodesDataStep(s, i - 1, i - 1 + |x|, 0, -1, NodeAt(s, i - 1, 0, -1), table);
    OneMore(s, i, i, table);
    assert Unescaped(s, i, i, table) == "" by { NothingRead(s, i, table); }
  }

  lemma NothingRead(s: string, i: nat, table: map<string, int>)
    requires i <= |s|
    ensures Unescaped(s, i, i, table) == ""
  {
  }

  /** A bracket in front of a tag is a text node. */
  lemma BracketNode(s: string, i: nat)
    requires 0 < i < |s| && s[i - 1] == '>' && s[i] == '<'
    ensures NodeAt(s, i - 1, 0, -1) == Node(TEXT, i - 1, i, false, 0, -1)
  {
    var st := Initial(0, -1);
    StepTo(s, i - 1, i - 1, st, st.(kind := TEXT, find := TagBegin));
  }

  /** A stored value does not read back from one character further left. */
  lemma StoredShifted(s: string, i: nat, value: string, cdata: bool, quotes: bool, table: map<string, int>)
    requires NulFree(s) && NulFree(value) && HasXmlEntities(table) && 0 < i <= |s| && s[i - 1] == '>' && value != ""
    requires TextAt(s, i, if cdata then CDataText(value) else Escaped(value, 0, quotes, false))
    ensures var x := if cdata then CDataText(value) else Escaped(value, 0, quotes, false);
      ContentData(s, i - 1, i - 1 + |x|, table) != value
  {
    hide NodesData, Unescaped, Escaped, CDataText, ContentData;
    if cdata { SectionedShifted(s, i, value, table); } else { EscapedShifted(s, i, value, quotes, table); }
  }
}
