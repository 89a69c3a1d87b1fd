/** The data of mixed content. */
module MixedContent {
  // Character data and CDATA sections add to the data of an element; whitespace between tags,
  // comments and instructions add nothing.

  import opened ElemForest
  import opened ForestGraft
  import opened Agreement
  import opened Escape
  import opened EditFacts
  import opened CData
  import opened Nodes
  import D = ElementData
  import Ends = NodeEnds

  /** Pieces of content, each by its whole text. */
  datatype Part =
    | Chars(x: string)       // with something other than whitespace
    | Space(x: string)
    | Section(x: string)
    | Comment(x: string)
    | Instruction(x: string)

  predicate IsChars(p: Part) { p.Chars? || p.Space? }

  /** x is one piece with this opening, up to its first delimiter. */
  predicate Framed(x: string, open: string, from: nat, close: string) {
    TextAt(x, 0, open) && |x| >= |close| && StrStr(x, from, close) == |x| - |close|
  }

  predicate AllSpace(x: string) { forall k :: 0 <= k < |x| ==> IsWhitespace(x[k]) }

  predicate PartOk(p: Part) {
    match p
    case Chars(x) => !AllSpace(x) && forall k :: 0 <= k < |x| ==> x[k] != '<' && x[k] != '>'
    case Space(x) => x != "" && AllSpace(x)
    case Section(x) => Framed(x, "<![CDATA[", 9, "]]>")
    case Comment(x) => Framed(x, "<!--", 2, "-->")
    case Instruction(x) => Framed(x, "<?", 1, "?>")
  }

  /** Two pieces of characters do not follow each other. */
  predicate PartsOk(ps: seq<Part>) {
    (forall k :: 0 <= k < |ps| ==> PartOk(ps[k])) &&
    forall k :: 0 < k < |ps| ==> !(IsChars(ps[k - 1]) && IsChars(ps[k]))
  }

  function PartKind(p: Part): int {
    match p
    case Chars(_) => TEXT
    case Space(_) => WHITESPACE
    case Section(_) => CDATA_SECTION
    case Comment(_) => COMMENT
    case Instruction(_) => PROCESSING_INSTRUCTION
  }

  function PartsText(ps: seq<Part>): string {
    if ps == [] then "" else ps[0].x + PartsText(ps[1..])
  }

  /** What the part, which stands at i, adds: only characters and sections count. */
  function PartData(p: Part, s: string, i: nat, table: map<string, int>): string
    requires i + |p.x| <= |s|
  {
    match p
    case Chars(x) => Unescaped(s, i, i + |x|, table)
    case Section(x) => if |x| >= 12 then x[9..|x| - 3] else ""
    case _ => ""
  }

  /** What the parts, which stand at i, add up to. */
  function PartsData(ps: seq<Part>, s: string, i: nat, table: map<string, int>): string
    requires i + |PartsText(ps)| <= |s|
  {
    if ps == [] then ""
    else PartData(ps[0], s, i, table) + PartsData(ps[1..], s, i + |ps[0].x|, table)
  }

  // ------------------------------------------------------------------------ searching

  lemma TextInside(s: string, i: nat, x: string, k: nat, t: string)
    requires TextAt(s, i, x) && k + |t| <= |x|
    ensures TextAt(s, i + k, t) <==> TextAt(x, k, t)
  {
    var y, u := s[i..i + |x|], s[i + k..i + k + |t|];
    forall m | 0 <= m < |t| ensures u[m] == x[k + m] { assert y[k + m] == x[k + m]; }
    assert u == x[k..k + |t|];
  }

  lemma {:induction false} StrStrIs(s: string, i: nat, t: string, k: nat)
    requires i <= k <= |s| && t != "" && (k < |s| ==> TextAt(s, k, t)) && forall m :: i <= m < k ==> !TextAt(s, m, t)
    ensures StrStr(s, i, t) == k
    decreases k - i
  {
    if i < k { StrStrIs(s, i + 1, t, k); }
  }

  /** The first delimiter in x is the first in the text from there. */
  lemma FoundInside(s: string, i: nat, x: string, from: nat, t: string)
    requires TextAt(s, i, x) && t != "" && from <= StrStr(x, from, t) && StrStr(x, from, t) + |t| == |x|
    ensures StrStr(s, i + from, t) == i + |x| - |t|
  {
    var k := StrStr(x, from, t);
    TextInside(s, i, x, k, t);
    forall m | i + from <= m < i + k ensures !TextAt(s, m, t) {
      TextInside(s, i, x, m - i, t);
    }
    StrStrIs(s, i + from, t, i + k);
  }

  // ----------------------------------------------------------------------- one node a part

  lemma FramedNode(s: string, i: nat, l: int, r: int, p: Part)
    requires 0 < i && NulFree(s) && PartOk(p) && !IsChars(p) && TextAt(s, i, p.x)
    ensures var n := NodeAt(s, i, l, r);
      n.start == i && n.next == i + |p.x| <= |s| && p.x != "" && s[i] == '<' &&
      n.kind == PartKind(p)
  {
    hide NodeAt, StrStr, TextAt;
    TextBounds(s, i, p.x);
    match p
    case Section(x) =>
      Opens(s, i, x, "<![CDATA[", "<![C");
      Early(s, i, x);
      Ends.SectionNode(s, i, l, r);
    case Comment(x) =>
      Opens(s, i, x, "<!--", "<!--");
      Longer(x, "<!--", 2, "-->");
      FoundInside(s, i, x, 2, "-->");
      Ends.CommentNode(s, i, l, r);
    case Instruction(x) =>
      Opens(s, i, x, "<?", "<?");
      Longer(x, "<?", 1, "?>");
      FoundInside(s, i, x, 1, "?>");
      Ends.InstructionNode(s, i, l, r);
  }

  lemma TextBounds(s: string, i: nat, x: string)
    requires TextAt(s, i, x)
    ensures i + |x| <= |s|
  {
  }

  lemma Opens(s: string, i: nat, x: string, open: string, t: string)
    requires TextAt(s, i, x) && TextAt(x, 0, open) && 0 < |t| <= |open| && t == open[..|t|]
    ensures TextAt(s, i, t) && i < |s| && s[i] == t[0] && x != ""
  {
    TextInside(s, i, x, 0, open);
    assert s[i..i + |t|] == s[i..i + |open|][..|t|];
    assert s[i] == s[i..i + |t|][0];
  }

  lemma Longer(x: string, open: string, from: nat, close: string)
    requires Framed(x, open, from, close) && from <= |open|
    ensures from <= StrStr(x, from, close) && from <= |x|
  {
  }

  /** There is no end of a section in its opening. */
  lemma Early(s: string, i: nat, x: string)
    requires TextAt(s, i, x) && Framed(x, "<![CDATA[", 9, "]]>")
    ensures StrStr(s, i + 2, "]]>") == i + |x| - 3
  {
    Longer(x, "<![CDATA[", 9, "]]>");
    forall m | 2 <= m < |x| - 3 ensures !TextAt(x, m, "]]>") {
      if m < 9 {
        CharsAt(x, 0, "<![CDATA[", m);
        if TextAt(x, m, "]]>") { CharsAt(x, m, "]]>", 0); }
      }
    }
    StrStrIs(x, 2, "]]>", |x| - 3);
    FoundInside(s, i, x, 2, "]]>");
  }

  lemma {:induction false} SpaceBefore(x: string) returns (b: nat)
    ensures b <= |x| && AllSpace(x[..b]) && (b < |x| ==> !IsWhitespace(x[b])) && (b == |x| <==> AllSpace(x))
  {
    b := 0;
    while b < |x| && IsWhitespace(x[b])
      invariant b <= |x| && AllSpace(x[..b])
    {
      b := b + 1;
    }
    if b == |x| { assert x[..b] == x; }
  }

  lemma {:induction false} TextEndIs(s: string, j: nat, e: nat)
    requires j <= e <= |s| && (e == |s| || s[e] == '<') && forall k :: j <= k < e ==> s[k] != '<' && s[k] != '>'
    ensures Ends.TextEnd(s, j) == e
    decreases e - j
  {
    if j < e { TextEndIs(s, j + 1, e); }
  }

  /** Characters in front of a tag, or at the end, are one node. */
  lemma CharsNode(s: string, i: nat, l: int, r: int, p: Part)
    requires NulFree(s) && PartOk(p) && IsChars(p) && TextAt(s, i, p.x) && (i + |p.x| == |s| || s[i + |p.x|] == '<')
    ensures var n := NodeAt(s, i, l, r);
      n.start == i && n.next == i + |p.x| <= |s| && p.x != "" && n.kind == PartKind(p)
    ensures forall k :: i <= k < i + |p.x| ==> s[k] != '<'
  {
    hide NodeAt;
    var x, e := p.x, i + |p.x|;
    TextBounds(s, i, x);
    forall k | 0 <= k < |x| ensures s[i + k] == x[k] { CharsAt(s, i, x, k); }
    var b := SpaceBefore(x);
    forall k | i <= k < i + b ensures IsWhitespace(s[k]) { assert x[..b][k - i] == x[k - i] == s[i + (k - i)]; }
    forall k | i <= k < e ensures s[k] != '<' { assert s[i + (k - i)] == x[k - i]; }
    if p.Chars? {
      forall k | i + b + 1 <= k < e ensures s[k] != '<' && s[k] != '>' { assert s[i + (k - i)] == x[k - i]; }
      TextEndIs(s, i + b + 1, e);
    }
    Ends.TextNode(s, i, l, r, i + b);
  }

  // --------------------------------------------------------------------------- all of them

  lemma PartReads(s: string, i: nat, end: nat, l: int, r: int, p: Part, n: Node, table: map<string, int>)
    requires NulFree(s) && n == NodeAt(s, i, l, r) && n.start == i && n.next == i + |p.x| <= end <= |s| && p.x != ""
    requires TextAt(s, i, p.x)
    requires n.kind == PartKind(p)
    ensures D.NodesData(s, i, end, l, r, table) ==
      PartData(p, s, i, table) + D.NodesData(s, i + |p.x|, end, n.nameL, n.nameR, table)
  {
    hide NodeAt, D.NodesData, Unescaped;
    D.NodesDataStep(s, i, end, l, r, n, table);
    if p.Section? && |p.x| >= 12 { SliceAt(s, i, p.x, 9, |p.x| - 3); }
  }

  /** Mixed content is read part by part: only characters and sections count. */
  lemma {:induction false} MixedReads(ps: seq<Part>, s: string, i: nat, l: int, r: int, table: map<string, int>)
    requires 0 < i && NulFree(s) && PartsOk(ps) && TextAt(s, i, PartsText(ps))
    requires i + |PartsText(ps)| == |s| || (i + |PartsText(ps)| < |s| && s[i + |PartsText(ps)|] == '<')
    ensures i + |PartsText(ps)| <= |s|
    ensures D.NodesData(s, i, i + |PartsText(ps)|, l, r, table) == PartsData(ps, s, i, table)
    decreases |ps|
  {
    hide NodeAt, D.NodesData, Unescaped, PartOk, TextAt, IsChars, PartsOk;
    var end := i + |PartsText(ps)|;
    TextBounds(s, i, PartsText(ps));
    if ps == [] {
      D.NodesDataEnd(s, end, table);
    } else {
      var n := PartRead(ps, s, i, l, r);
      MixedReads(ps[1..], s, i + |ps[0].x|, n.nameL, n.nameR, table);
      PartReads(s, i, end, l, r, ps[0], n, table);
    }
  }

  /** The node of the first part is that part. */
  lemma PartRead(ps: seq<Part>, s: string, i: nat, l: int, r: int) returns (n: Node)
    requires 0 < i && NulFree(s) && PartsOk(ps) && ps != [] && TextAt(s, i, PartsText(ps))
    requires i + |PartsText(ps)| == |s| || (i + |PartsText(ps)| < |s| && s[i + |PartsText(ps)|] == '<')
    ensures n == NodeAt(s, i, l, r) && n.start == i && n.next == i + |ps[0].x| <= i + |PartsText(ps)| <= |s|
    ensures ps[0].x != "" && n.kind == PartKind(ps[0])
    ensures TextAt(s, i, ps[0].x) && TextAt(s, n.next, PartsText(ps[1..])) && PartsOk(ps[1..])
    ensures n.next + |PartsText(ps[1..])| == i + |PartsText(ps)|
  {
    hide NodeAt, PartOk, TextAt, PartsOk;
    var p := ps[0];
    TextBounds(s, i, PartsText(ps));
    TextSplit(s, i, p.x, PartsText(ps[1..]));
    RestOk(ps);
    n := NodeAt(s, i, l, r);
    if IsChars(p) {
      if |ps| > 1 {
        TextSplit(s, i + |p.x|, ps[1].x, PartsText(ps[1..][1..]));
        FramedNode(s, i + |p.x|, 0, -1, ps[1]);
      }
      CharsNode(s, i, l, r, p);
    } else {
      FramedNode(s, i, l, r, p);
    }
  }

  lemma RestOk(ps: seq<Part>)
    requires PartsOk(ps) && ps != []
    ensures PartsOk(ps[1..]) && PartOk(ps[0]) && (|ps| > 1 ==> PartOk(ps[1]) && !(IsChars(ps[0]) && IsChars(ps[1])))
  {
    hide PartOk;
    var r := ps[1..];
    forall k | 0 < k < |r| ensures !(IsChars(r[k - 1]) && IsChars(r[k])) {
      assert r[k] == ps[k + 1] && r[k - 1] == ps[k];
    }
  }

  // ------------------------------------------------------------------------ an element's data

  /** Content that is one run of characters is unescaped, be it only whitespace. */
  lemma ContentRead(s: string, i: nat, ps: seq<Part>, table: map<string, int>)
    requires 0 < i && NulFree(s) && PartsOk(ps) && TextAt(s, i, PartsText(ps))
    requires i + |PartsText(ps)| < |s| && s[i + |PartsText(ps)|] == '<'
    ensures D.ContentData(s, i, i + |PartsText(ps)|, table) ==
      if |ps| == 1 && IsChars(ps[0]) then Unescaped(s, i, i + |PartsText(ps)|, table)
      else PartsData(ps, s, i, table)
  {
    hide NodeAt, D.NodesData, Unescaped, PartOk, TextAt, PartsOk, PartsData;
    var end := i + |PartsText(ps)|;
    MixedReads(ps, s, i, 0, -1, table);
    if ps == [] {
      NoParts(s, i, table);
    } else {
      var n := PartRead(ps, s, i, 0, -1);
      RestOk(ps);
      if !IsChars(ps[0]) {
        FramedNode(s, i, 0, -1, ps[0]);
        assert D.HasTag(s, i, end);
      } else if |ps| > 1 {
        var m := PartRead(ps[1..], s, n.next, 0, -1);
        FramedNode(s, n.next, 0, -1, ps[1]);
        assert D.HasTag(s, i, end);
      } else {
        OnePart(ps);
        CharsNode(s, i, 0, -1, ps[0]);
      }
    }
  }

  lemma NoParts(s: string, i: nat, table: map<string, int>)
    requires i <= |s| && NulFree(s)
    ensures PartsData([], s, i, table) == "" && D.ContentData(s, i, i, table) == ""
  {
  }

  lemma OnePart(ps: seq<Part>)
    requires |ps| == 1
    ensures PartsText(ps) == ps[0].x
  {
    assert PartsText(ps[1..]) == "";
  }

  /** GetData of an element reads its mixed content part by part. */
  lemma {:induction false} ElementReads(e: Index, f: Forest, i: nat, ps: seq<Part>, table: map<string, int>)
    requires Agree(e, f) && i in Ids(f) && Find(f, i).kids == Nil(PartsText(ps)) && NulFree(Text(f)) && PartsOk(ps)
    requires Find(f, i).close != "" && Find(f, i).tag != "" && Find(f, i).close[0] == '<'
    ensures i < |e| && |Front(f, i)| + |Find(f, i).tag| + |PartsText(ps)| <= |Text(f)|
    ensures var from := |Front(f, i)| + |Find(f, i).tag|;
      D.DataOf(Text(f), e[i], table) ==
        if |ps| == 1 && IsChars(ps[0]) then Unescaped(Text(f), from, from + |PartsText(ps)|, table)
        else PartsData(ps, Text(f), from, table)
  {
    hide Find, Front, Text, Agree, D.DataOf, D.ContentData, PartsText, PartsData, PartsOk, Unescaped, TextAt, IsChars;
    ContentStands(e, f, i, PartsText(ps), table);
    ContentRead(Text(f), |Front(f, i)| + |Find(f, i).tag|, ps, table);
  }

  /** The content of an element, between its tags. */
  lemma {:induction false} ContentStands(e: Index, f: Forest, i: nat, x: string, table: map<string, int>)
    requires Agree(e, f) && i in Ids(f) && Find(f, i).kids == Nil(x) && NulFree(Text(f))
    requires Find(f, i).close != "" && Find(f, i).tag != "" && Find(f, i).close[0] == '<'
    ensures var s, from := Text(f), |Front(f, i)| + |Find(f, i).tag|;
      i < |e| && 0 < from && from + |x| < |s| && s[from + |x|] == '<' && TextAt(s, from, x) &&
      D.DataOf(s, e[i], table) == D.ContentData(s, from, from + |x|, table)
  {
    hide Find, Front, Back, Text, Links, Ring, Distinct, D.ContentData, NulFree;
    var n, s := Find(f, i), Text(f);
    NodeInDoc(e, f, i);
    SpanOfNode(e, f, i, 0);
    NodeRecord(e, f, i, 0);
    LeafText(x);
    ContentAt(s, |Front(f, i)|, n.tag, x, n.close);
    CharsAt(s, |Front(f, i)| + |n.tag| + |x|, n.close, 0);
  }
}
