/** Where nodes end. */
module NodeEnds {
  // What ParseNode cuts off, told by the characters alone: a comment up to its delimiter, and so on
  // for each kind of node.

  import opened Escape
  import opened Nodes
  import opened CData
  import opened CleanText
  import opened NodesAlone

  // ---------------------------------------------------- comments, sections and instructions

  /** A comment, section or instruction whose end is being looked for. */
  predicate Seeking(st: State) {
    st.name == 0 && !st.single && !st.double && !st.bare &&
    ((st.kind == COMMENT && st.find == CommentEnd) || (st.kind == CDATA_SECTION && st.find == SectionEnd) ||
     (st.kind == PROCESSING_INSTRUCTION && st.find == InstructionEnd))
  }

  /** The delimiter by its literal text. */
  function Delimiter(kind: int): string {
    if kind == COMMENT then "-->" else if kind == CDATA_SECTION then "]]>" else "?>"
  }

  lemma SeekStep(s: string, i: nat, st: State)
    requires i < |s| && Seeking(st) && i > |Delimiter(st.kind)|
    ensures Step(s, i, st) ==
      if !TextAt(s, i + 1 - |Delimiter(st.kind)|, Delimiter(st.kind)) then Go(st)
      else if st.docType then Go(st.(find := Unknown, phase := InDocType))
      else Stop(st.kind, i + 1, st.empty)
  {
    var n, d := |Delimiter(st.kind)|, Delimiter(st.kind);
    assert EndText(st.find) == d && d[n - 1] == '>';
    assert s[i + 1 - n..i + 1] == s[i + 1 - n..i] + [s[i]];
    assert d == d[..n - 1] + ['>'];
    SameParts(s[i + 1 - n..i], s[i], d[..n - 1], '>');
  }

  lemma SameParts(a: string, c: char, b: string, d: char)
    requires |a| == |b|
    ensures a + [c] == b + [d] <==> a == b && c == d
  {
    if a + [c] == b + [d] {
      assert (a + [c])[..|a|] == a && (b + [d])[..|b|] == b;
      assert (a + [c])[|a|] == c && (b + [d])[|b|] == d;
    }
  }

  /** The node ends with the first delimiter, at k; a text without one is bad up to its end. */
  lemma {:induction false} SeekRun(s: string, i: nat, start: nat, st: State, k: nat)
    requires NulFree(s) && i <= |s| && start < i && Seeking(st) && i > |Delimiter(st.kind)|
    requires k <= |s| && i + 1 - |Delimiter(st.kind)| <= k && (k < |s| ==> TextAt(s, k, Delimiter(st.kind)))
    requires forall m :: i + 1 - |Delimiter(st.kind)| <= m < k ==> !TextAt(s, m, Delimiter(st.kind))
    ensures var n := Run(s, i, start, st);
      if k == |s| then n.kind == BAD_NODE && n.next == |s|
      else if st.docType then
        Run(s, i, start, st) == Run(s, k + |Delimiter(st.kind)|, start, st.(find := Unknown, phase := InDocType))
      else n.kind == st.kind && n.next == k + |Delimiter(st.kind)|
    decreases |s| - i
  {
    hide Run;
    if i == |s| {
      CutRun(s, i, start, st);
    } else {
      SeekStep(s, i, st);
      StepRuns(s, i, start, st);
      if Step(s, i, st) == Go(st) && !TextAt(s, i + 1 - |Delimiter(st.kind)|, Delimiter(st.kind)) {
        SeekRun(s, i + 1, start, st, k);
      }
    }
  }

  /** Behind an opening bracket. */
  predicate Opening(st: State) {
    st.phase == OpenTag && st.find == Unknown && st.name == 0 && !st.single && !st.double && !st.bare
  }

  lemma OpensComment(s: string, j: nat, start: nat, st: State)
    requires Opening(st) && TextAt(s, j, "!--")
    ensures Run(s, j, start, st) == Run(s, j + 3, start, st.(phase := Dash, kind := COMMENT, find := CommentEnd))
  {
    hide Run;
    CharsAt(s, j, "!--", 0);
    CharsAt(s, j, "!--", 1);
    CharsAt(s, j, "!--", 2);
    StepTo(s, j, start, st, st.(phase := Bang));
    StepTo(s, j + 1, start, st.(phase := Bang), st.(phase := Dash));
    StepTo(s, j + 2, start, st.(phase := Dash), st.(phase := Dash, kind := COMMENT, find := CommentEnd));
  }

  lemma OpensSection(s: string, j: nat, start: nat, st: State)
    requires Opening(st) && !st.docType && TextAt(s, j, "![C")
    ensures Run(s, j, start, st)
      == Run(s, j + 3, start, st.(phase := Bracket, kind := CDATA_SECTION, find := SectionEnd))
  {
    hide Run;
    CharsAt(s, j, "![C", 0);
    CharsAt(s, j, "![C", 1);
    CharsAt(s, j, "![C", 2);
    StepTo(s, j, start, st, st.(phase := Bang));
    StepTo(s, j + 1, start, st.(phase := Bang), st.(phase := Bracket));
    StepTo(s, j + 2, start, st.(phase := Bracket), st.(phase := Bracket, kind := CDATA_SECTION, find := SectionEnd));
  }

  lemma OpensInstruction(s: string, j: nat, start: nat, st: State)
    requires Opening(st) && j < |s| && s[j] == '?'
    ensures Run(s, j, start, st)
      == Run(s, j + 1, start, st.(kind := PROCESSING_INSTRUCTION, find := InstructionEnd, name := j + 1))
  {
    hide Run;
    StepTo(s, j, start, st, st.(kind := PROCESSING_INSTRUCTION, find := InstructionEnd, name := j + 1));
  }

  /** The name of an instruction holds no bracket, so its end is not missed. */
  lemma {:induction false} InstructionRun(s: string, i: nat, start: nat, st: State, k: nat)
    requires NulFree(s) && i <= |s| && start + 1 < i && st.name != 0 && st.kind == PROCESSING_INSTRUCTION
    requires st.find == InstructionEnd && !st.single && !st.double && !st.bare && (i > 2 || i == |s| || s[i] != '>')
    requires k <= |s| && i <= k + 1 && (k < |s| ==> TextAt(s, k, "?>")) && (i == 2 ==> 2 <= k)
    requires forall m :: i <= m + 1 && m < k && 0 <= m ==> !TextAt(s, m, "?>")
    ensures var n := Run(s, i, start, st);
      if k == |s| then n.kind == BAD_NODE && n.next == |s|
      else if st.docType then
        exists l, r :: Run(s, i, start, st)
          == Run(s, k + 2, start, st.(find := Unknown, phase := InDocType, name := 0, nameL := l, nameR := r,
                                      c1 := '\0', c2 := '\0'))
      else n.kind == PROCESSING_INSTRUCTION && n.next == k + 2
    decreases |s| - i
  {
    hide Run;
    if i == |s| {
      CutRun(s, i, start, st);
    } else if EndsTagName(s[i]) {
      NameOver(s, i, start, st);
      if s[i] == '>' || i > 2 {
        SeekRun(s, i, start, NameRead(i, st), k);
      } else {
        var st' := NameRead(i, st);
        StepTo(s, i, start, st', st');
        SeekRun(s, i + 1, start, st', k);
      }
    } else {
      StepTo(s, i, start, st, st);
      if k < |s| { CharsAt(s, k, "?>", 1); }
      InstructionRun(s, i + 1, start, st, k);
    }
  }

  lemma NameOver(s: string, i: nat, start: nat, st: State)
    requires i < |s| && st.name != 0 && EndsTagName(s[i])
    ensures Run(s, i, start, st) == Run(s, i, start, NameRead(i, st))
  {
  }

  lemma FirstBracket(s: string, i: nat, start: nat, st: State)
    requires i < |s| && s[i] == '<' && st.phase == Begin && st.find == Unknown && st.name == 0
    ensures Run(s, i, start, st) == Run(s, i + 1, start, st.(phase := OpenTag))
  {
    hide Run;
    StepTo(s, i, start, st, st.(phase := OpenTag));
  }

  lemma RestOf(s: string, i: nat, rest: string)
    requires TextAt(s, i, "<" + rest)
    ensures i < |s| && s[i] == '<' && TextAt(s, i + 1, rest) && i + 1 + |rest| <= |s|
  {
    TextSplit(s, i, "<", rest);
    CharsAt(s, i, "<", 0);
  }

  /** A comment ends with the first delimiter behind its first two characters. */
  lemma CommentNode(s: string, i: nat, l: int, r: int)
    requires NulFree(s) && TextAt(s, i, "<!--")
    ensures var n, k := NodeAt(s, i, l, r), StrStr(s, i + 2, "-->");
      n.start == i && if k == |s| then n.kind == BAD_NODE && n.next == |s| else n.kind == COMMENT && n.next == k + 3
  {
    hide Run, StrStr, TextAt;
    assert "<!--" == "<" + "!--";
    RestOf(s, i, "!--");
    var st := Initial(l, r).(phase := OpenTag);
    FirstBracket(s, i, i, Initial(l, r));
    OpensComment(s, i + 1, i, st);
    SeekRun(s, i + 4, i, st.(phase := Dash, kind := COMMENT, find := CommentEnd), StrStr(s, i + 2, "-->"));
    RunProgress(s, i, i, Initial(l, r));
  }

  /** So does a CDATA section; that its opening goes on as it should is not looked at. */
  lemma SectionNode(s: string, i: nat, l: int, r: int)
    requires NulFree(s) && TextAt(s, i, "<![C")
    ensures var n, k := NodeAt(s, i, l, r), StrStr(s, i + 2, "]]>");
      n.start == i &&
      if k == |s| then n.kind == BAD_NODE && n.next == |s| else n.kind == CDATA_SECTION && n.next == k + 3
  {
    hide Run, StrStr, TextAt;
    assert "<![C" == "<" + "![C";
    RestOf(s, i, "![C");
    var st := Initial(l, r).(phase := OpenTag);
    FirstBracket(s, i, i, Initial(l, r));
    OpensSection(s, i + 1, i, st);
    SeekRun(s, i + 4, i, st.(phase := Bracket, kind := CDATA_SECTION, find := SectionEnd), StrStr(s, i + 2, "]]>"));
    RunProgress(s, i, i, Initial(l, r));
  }

  /** So does an instruction, but at the front of a text the delimiter does not share its question mark. */
  lemma InstructionNode(s: string, i: nat, l: int, r: int)
    requires NulFree(s) && TextAt(s, i, "<?")
    ensures var n, k := NodeAt(s, i, l, r), StrStr(s, if i == 0 then 2 else i + 1, "?>");
      n.start == i &&
      if k == |s| then n.kind == BAD_NODE && n.next == |s| else n.kind == PROCESSING_INSTRUCTION && n.next == k + 2
  {
    hide Run, StrStr;
    assert "<?" == "<" + "?";
    RestOf(s, i, "?");
    CharsAt(s, i + 1, "?", 0);
    var st := Initial(l, r).(phase := OpenTag);
    var a := st.(kind := PROCESSING_INSTRUCTION, find := InstructionEnd, name := i + 2);
    var k := StrStr(s, if i == 0 then 2 else i + 1, "?>");
    FirstBracket(s, i, i, Initial(l, r));
    OpensInstruction(s, i + 1, i, st);
    if i == 0 && 2 < |s| && s[2] == '>' {
      NameOver(s, 2, 0, a);
      var b := NameRead(2, a);
      StepTo(s, 2, 0, b, b);
      assert k != 2;
      SeekRun(s, 3, 0, b, k);
    } else {
      InstructionRun(s, i + 2, i, a, k);
    }
    RunProgress(s, i, i, Initial(l, r));
  }

  /** An end tag ends with its first bracket, quoted or not. */
  lemma EndTagNode(s: string, i: nat, l: int, r: int)
    requires NulFree(s) && TextAt(s, i, "</")
    ensures var n, k := NodeAt(s, i, l, r), StrStr(s, i + 2, ">");
      n.start == i && if k == |s| then n.kind == BAD_NODE && n.next == |s| else n.kind == END_TAG && n.next == k + 1
  {
    hide Run, StrStr;
    assert "</" == "<" + "/";
    RestOf(s, i, "/");
    CharsAt(s, i + 1, "/", 0);
    var st := Initial(l, r).(phase := OpenTag);
    var a := st.(kind := END_TAG, find := TagEnd, name := i + 2);
    FirstBracket(s, i, i, Initial(l, r));
    StepTo(s, i + 1, i, st, a);
    EndTagRun(s, i + 2, i, a, StrStr(s, i + 2, ">"));
    RunProgress(s, i, i, Initial(l, r));
  }

  lemma {:induction false} EndTagRun(s: string, i: nat, start: nat, st: State, k: nat)
    requires NulFree(s) && i <= k <= |s| && start < i && st.kind == END_TAG && st.find == TagEnd && !st.docType
    requires !st.single && !st.double && (k < |s| ==> TextAt(s, k, ">"))
    requires forall m :: i <= m < k ==> !TextAt(s, m, ">")
    ensures var n := Run(s, i, start, st);
      if k == |s| then n.kind == BAD_NODE && n.next == |s| else n.kind == END_TAG && n.next == k + 1
    decreases |s| - i
  {
    hide Run;
    if i == |s| {
      CutRun(s, i, start, st);
    } else {
      assert TextAt(s, i, ">") <==> s[i] == '>' by { assert s[i..i + 1] == [s[i]]; }
      StepRuns(s, i, start, st);
      if i < k {
        StepInEndTag(s, i, st);
        EndTagRun(s, i + 1, start, Step(s, i, st).st, k);
      }
    }
  }

  lemma StepInEndTag(s: string, i: nat, st: State)
    requires i < |s| && s[i] != '>' && st.kind == END_TAG && st.find == TagEnd
    requires !st.single && !st.double && !st.docType
    ensures var m := Step(s, i, st);
      m.Go? && m.st.kind == END_TAG && m.st.find == TagEnd && !m.st.docType && !m.st.single && !m.st.double
  {
  }

  // ------------------------------------------------------------------------- character data

  /** Where text ends whose first character other than whitespace is in front of j. */
  function TextEnd(s: string, j: nat): (k: nat)
    ensures j <= |s| ==> j <= k <= |s|
    decreases |s| - j
  {
    if j >= |s| then |s| else if s[j] == '<' then j else if s[j] == '>' then j + 1 else TextEnd(s, j + 1)
  }

  /**
    Whitespace up to a tag or the end is a node. Other text goes on to the next tag, or it is cut
    behind the first closing bracket that is not its first character.
   */
  lemma TextNode(s: string, i: nat, l: int, r: int, b: nat)
    requires NulFree(s) && i < |s| && s[i] != '<' && i <= b <= |s|
    requires (forall k :: i <= k < b ==> IsWhitespace(s[k])) && (b < |s| ==> !IsWhitespace(s[b]))
    ensures var n := NodeAt(s, i, l, r);
      n.start == i &&
      if b == |s| || s[b] == '<' then n.kind == WHITESPACE && n.next == b
      else n.kind == TEXT && n.next == TextEnd(s, b + 1)
  {
    hide Run;
    var st := Initial(l, r);
    RunProgress(s, i, i, st);
    if b == i {
      StepTo(s, i, i, st, st.(kind := TEXT, find := TagBegin));
      TextRuns(s, i + 1, i, st.(kind := TEXT, find := TagBegin));
    } else {
      StepTo(s, i, i, st, st.(kind := WHITESPACE, phase := TextOrSpace));
      SpaceRuns(s, i + 1, i, st.(kind := WHITESPACE, phase := TextOrSpace), b);
    }
  }

  /** In character data, with or without something other than whitespace yet. */
  predicate InText(st: State) {
    st.kind == TEXT && st.find == TagBegin && st.name == 0 && !st.single && !st.double && !st.docType
  }

  predicate InSpace(st: State) {
    st.kind == WHITESPACE && st.phase == TextOrSpace && st.find == Unknown && st.name == 0 && !st.single &&
    !st.double && !st.docType
  }

  lemma {:induction false} SpaceRuns(s: string, i: nat, start: nat, st: State, b: nat)
    requires NulFree(s) && start < i <= b <= |s| && InSpace(st)
    requires (forall k :: i <= k < b ==> IsWhitespace(s[k])) && (b < |s| ==> !IsWhitespace(s[b]))
    ensures var n := Run(s, i, start, st);
      if b == |s| || s[b] == '<' then n.kind == WHITESPACE && n.next == b
      else n.kind == TEXT && n.next == TextEnd(s, b + 1)
    decreases b - i
  {
    hide Run;
    if i == |s| {
      CutRun(s, i, start, st);
    } else if i < b {
      StepTo(s, i, start, st, st);
      SpaceRuns(s, i + 1, start, st, b);
    } else if s[i] == '<' {
      StepRuns(s, i, start, st);
    } else {
      StepTo(s, i, start, st, st.(kind := TEXT, find := TagBegin));
      TextRuns(s, i + 1, start, st.(kind := TEXT, find := TagBegin));
    }
  }

  lemma {:induction false} TextRuns(s: string, i: nat, start: nat, st: State)
    requires NulFree(s) && start < i <= |s| && InText(st)
    ensures var n := Run(s, i, start, st); n.kind == TEXT && n.next == TextEnd(s, i)
    decreases |s| - i
  {
    hide Run;
    if i == |s| {
      CutRun(s, i, start, st);
    } else {
      StepRuns(s, i, start, st);
      if s[i] != '<' && s[i] != '>' {
        StepTo(s, i, start, st, st);
        TextRuns(s, i + 1, start, st);
      }
    }
  }

  // --------------------------------------------------------------------------- document types

  /** The bracket that ends a declaration from j on, none inside quotes; |s| if there is none. */
  function DeclEnd(s: string, j: nat, quote: char): (k: nat)
    ensures j <= |s| ==> j <= k <= |s|
    ensures k < |s| ==> s[k] == '>'
    decreases |s| - j
  {
    if j >= |s| then |s|
    else if quote == '\0' then
      if s[j] == '>' then j else DeclEnd(s, j + 1, if s[j] == '\"' || s[j] == '\'' then s[j] else '\0')
    else DeclEnd(s, j + 1, if s[j] == quote then '\0' else quote)
  }

  predicate IsDecl(s: string, j: nat) {
    TextAt(s, j, "<!") && j + 2 < |s| && (s[j + 2] == 'E' || s[j + 2] == 'A' || s[j + 2] == 'N')
  }

  /** Behind the comment, instruction or declaration at j; 0 if it does not end. */
  function InnerEnd(s: string, j: nat): (k: nat)
    ensures k == 0 || j < k <= |s|
  {
    if TextAt(s, j, "<!--") then
      var c := StrStr(s, j + 2, "-->"); if c < |s| then c + 3 else 0
    else if TextAt(s, j, "<?") then
      var c := StrStr(s, j + 1, "?>"); if c < |s| then c + 2 else 0
    else if IsDecl(s, j) then
      var c := DeclEnd(s, j + 3, '\0'); if c < |s| then c + 1 else 0
    else 0
  }

  /** Behind the document type that is read from j on; 0 if it does not end. */
  function DocTypeEnd(s: string, j: nat): (k: nat)
    ensures k == 0 || j < k <= |s|
    decreases |s| - j
  {
    if j >= |s| then 0
    else if s[j] == '>' then j + 1
    else if s[j] != '<' then DocTypeEnd(s, j + 1)
    else if InnerEnd(s, j) == 0 then 0
    else DocTypeEnd(s, InnerEnd(s, j))
  }

  /** What is nested in it from j on are comments, instructions and declarations. */
  predicate PlainDocType(s: string, j: nat)
    decreases |s| - j
  {
    j >= |s| || s[j] == '>' ||
    if s[j] != '<' then PlainDocType(s, j + 1)
    else
      (TextAt(s, j, "<!--") || TextAt(s, j, "<?") || IsDecl(s, j)) &&
      (InnerEnd(s, j) == 0 || PlainDocType(s, InnerEnd(s, j)))
  }

  /** In a document type, outside of what is nested in it. */
  predicate InDoc(st: State) {
    st.phase == InDocType && st.find == Unknown && st.docType && st.name == 0 && !st.single && !st.double && !st.bare &&
    st.kind != TEXT && st.kind != WHITESPACE
  }

  lemma {:induction false} DocRun(s: string, j: nat, start: nat, st: State)
    requires NulFree(s) && 0 < start + 1 < j <= |s| && InDoc(st) && PlainDocType(s, j)
    ensures var n, k := Run(s, j, start, st), DocTypeEnd(s, j);
      if k == 0 then n.kind == BAD_NODE && n.next == |s| else n.kind == DOCUMENT_TYPE && n.next == k
    decreases |s| - j
  {
    hide Run, InnerEnd, IsDecl, TextAt;
    if j == |s| {
      CutRun(s, j, start, st);
    } else if s[j] == '>' {
      StepRuns(s, j, start, st);
    } else if s[j] != '<' {
      StepTo(s, j, start, st, st);
      DocRun(s, j + 1, start, st);
    } else {
      var st' := InnerRun(s, j, start, st);
      if InnerEnd(s, j) != 0 { DocRun(s, InnerEnd(s, j), start, st'); }
    }
  }

  /** One comment, instruction or declaration. */
  lemma InnerRun(s: string, j: nat, start: nat, st: State) returns (st': State)
    requires NulFree(s) && start + 1 < j < |s| && s[j] == '<' && InDoc(st)
    requires TextAt(s, j, "<!--") || TextAt(s, j, "<?") || IsDecl(s, j)
    ensures var n, k := Run(s, j, start, st), InnerEnd(s, j);
      if k == 0 then n.kind == BAD_NODE && n.next == |s| else InDoc(st') && n == Run(s, k, start, st')
  {
    hide Run;
    StepTo(s, j, start, st, st.(phase := OpenTag));
    if TextAt(s, j, "<!--") {
      st' := InnerComment(s, j, start, st.(phase := OpenTag));
    } else if TextAt(s, j, "<?") {
      st' := InnerInstruction(s, j, start, st.(phase := OpenTag));
    } else {
      st' := InnerDecl(s, j, start, st.(phase := OpenTag));
    }
  }

  lemma InnerComment(s: string, j: nat, start: nat, st: State) returns (st': State)
    requires NulFree(s) && start + 1 < j && TextAt(s, j, "<!--")
    requires InDoc(st.(phase := InDocType)) && st.phase == OpenTag
    ensures var n, k := Run(s, j + 1, start, st), InnerEnd(s, j);
      if k == 0 then n.kind == BAD_NODE && n.next == |s| else InDoc(st') && n == Run(s, k, start, st')
  {
    hide Run, StrStr;
    assert "<!--" == "<" + "!--";
    RestOf(s, j, "!--");
    var a := st.(phase := Dash, kind := COMMENT, find := CommentEnd);
    OpensComment(s, j + 1, start, st);
    SeekRun(s, j + 4, start, a, StrStr(s, j + 2, "-->"));
    st' := a.(find := Unknown, phase := InDocType);
  }

  lemma InnerInstruction(s: string, j: nat, start: nat, st: State) returns (st': State)
    requires NulFree(s) && start + 1 < j && TextAt(s, j, "<?") && InDoc(st.(phase := InDocType)) && st.phase == OpenTag
    ensures var n, k := Run(s, j + 1, start, st), InnerEnd(s, j);
      if k == 0 then n.kind == BAD_NODE && n.next == |s| else InDoc(st') && n == Run(s, k, start, st')
  {
    hide Run, StrStr;
    assert "<?" == "<" + "?";
    RestOf(s, j, "?");
    CharsAt(s, j, "<?", 1);
    NoComment(s, j);
    var a := st.(kind := PROCESSING_INSTRUCTION, find := InstructionEnd, name := j + 2);
    var k := StrStr(s, j + 1, "?>");
    OpensInstruction(s, j + 1, start, st);
    InstructionRun(s, j + 2, start, a, k);
    st' := st;
    if k < |s| {
      var l, r :| Run(s, j + 2, start, a)
        == Run(s, k + 2, start, a.(find := Unknown, phase := InDocType, name := 0, nameL := l, nameR := r,
                                   c1 := '\0', c2 := '\0'));
      st' := a.(find := Unknown, phase := InDocType, name := 0, nameL := l, nameR := r, c1 := '\0', c2 := '\0');
    }
  }

  lemma NoComment(s: string, j: nat)
    requires j + 1 < |s| && s[j + 1] != '!'
    ensures !TextAt(s, j, "<!--")
  {
    if TextAt(s, j, "<!--") { CharsAt(s, j, "<!--", 1); }
  }

  lemma InnerDecl(s: string, j: nat, start: nat, st: State) returns (st': State)
    requires NulFree(s) && start + 1 < j && IsDecl(s, j) && InDoc(st.(phase := InDocType)) && st.phase == OpenTag
    ensures var n, k := Run(s, j + 1, start, st), InnerEnd(s, j);
      if k == 0 then n.kind == BAD_NODE && n.next == |s| else InDoc(st') && n == Run(s, k, start, st')
  {
    hide Run, DeclEnd;
    CharsAt(s, j, "<!", 1);
    DeclOnly(s, j);
    var a := st.(phase := Bang);
    var b := a.(kind := DOCUMENT_TYPE, find := TagEnd);
    StepTo(s, j + 1, start, st, a);
    StepTo(s, j + 2, start, a, b);
    DeclRun(s, j + 3, start, b, '\0');
    st' := b.(find := Unknown, phase := InDocType);
  }

  lemma DeclOnly(s: string, j: nat)
    requires IsDecl(s, j)
    ensures !TextAt(s, j, "<!--") && !TextAt(s, j, "<?")
  {
    CharsAt(s, j, "<!", 1);
    if TextAt(s, j, "<!--") { CharsAt(s, j, "<!--", 2); }
    if TextAt(s, j, "<?") { CharsAt(s, j, "<?", 1); }
  }

  /** In a declaration, inside this quote. */
  predicate InDecl(st: State, quote: char) {
    st.kind == DOCUMENT_TYPE && st.find == TagEnd && st.docType && st.name == 0 && !st.bare &&
    (st.single <==> quote == '\'') && (st.double <==> quote == '\"') &&
    (quote == '\0' || quote == '\'' || quote == '\"')
  }

  lemma {:induction false} DeclRun(s: string, j: nat, start: nat, st: State, quote: char)
    requires NulFree(s) && start < j <= |s| && InDecl(st, quote)
    ensures var n, k := Run(s, j, start, st), DeclEnd(s, j, quote);
      if k == |s| then n.kind == BAD_NODE && n.next == |s|
      else n == Run(s, k + 1, start, st.(find := Unknown, phase := InDocType, single := false, double := false))
    decreases |s| - j
  {
    hide Run;
    if j == |s| {
      CutRun(s, j, start, st);
    } else if s[j] == '>' && quote == '\0' {
      StepTo(s, j, start, st, st.(find := Unknown, phase := InDocType));
      assert st.(single := false, double := false) == st;
    } else {
      var st' := Toggled(st, s[j]);
      DeclStep(s, j, st, quote);
      StepTo(s, j, start, st, st');
      DeclRun(s, j + 1, start, st', DeclQuote(s[j], quote));
    }
  }

  function DeclQuote(c: char, quote: char): char {
    if quote == '\0' then if c == '\"' || c == '\'' then c else '\0' else if c == quote then '\0' else quote
  }

  function Toggled(st: State, c: char): State {
    st.(single := st.single != (c == '\'' && !st.double), double := st.double != (c == '\"' && !st.single))
  }

  lemma DeclStep(s: string, j: nat, st: State, quote: char)
    requires j < |s| && InDecl(st, quote) && !(s[j] == '>' && quote == '\0')
    ensures Step(s, j, st) == Go(Toggled(st, s[j])) && InDecl(Toggled(st, s[j]), DeclQuote(s[j], quote))
  {
  }

  /** A document type ends with the first bracket behind or between what is nested in it, quoted or not. */
  lemma DocTypeNode(s: string, i: nat, l: int, r: int)
    requires NulFree(s) && TextAt(s, i, "<!D") && PlainDocType(s, i + 3)
    ensures var n, k := NodeAt(s, i, l, r), DocTypeEnd(s, i + 3);
      n.start == i &&
      if k == 0 then n.kind == BAD_NODE && n.next == |s| else n.kind == DOCUMENT_TYPE && n.next == k
  {
    hide Run, DocTypeEnd, PlainDocType;
    assert "<!D" == "<" + "!D";
    RestOf(s, i, "!D");
    CharsAt(s, i + 1, "!D", 0);
    CharsAt(s, i + 1, "!D", 1);
    var st := Initial(l, r).(phase := OpenTag);
    var a := st.(phase := Bang);
    FirstBracket(s, i, i, Initial(l, r));
    StepTo(s, i + 1, i, st, a);
    StepTo(s, i + 2, i, a, a.(docType := true, phase := InDocType));
    DocRun(s, i + 3, i, a.(docType := true, phase := InDocType));
    RunProgress(s, i, i, Initial(l, r));
  }
}
