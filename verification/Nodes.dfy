/** ParseNode, the tokenizer state machine. */
module Nodes {
  // It cuts the next node or tag off the text, character by character.

  import opened Escape

  const ELEMENT := 1
  const TEXT := 2
  const WHITESPACE := 4
  const CDATA_SECTION := 8
  const PROCESSING_INSTRUCTION := 16
  const COMMENT := 32
  const DOCUMENT_TYPE := 64
  const END_TAG := 0
  const BAD_NODE := -1
  const END_OF_DOCUMENT := -2

  predicate EndsTagName(c: char) { IsWhitespace(c) || c == '/' || c == '>' }

  predicate NotSecondLast(c: char) { IsWhitespace(c) || c == '\"' || c == '\'' }

  predicate StartsDocType(c: char) { c == 'E' || c == 'A' || c == 'N' }

  predicate StartsTagName(c: char) { c as int > 0x60 || 'A' <= c <= 'Z' || c == '_' || c == ':' }

  /** What has been seen of the node while its kind, and so its end, is not known. */
  datatype Phase = Begin | TextOrSpace | OpenTag | Bang | Dash | Bracket | InDocType

  /** What the node ends with, if that is known. */
  datatype End = Unknown | TagBegin | TagEnd | InstructionEnd | CommentEnd | SectionEnd

  function EndText(e: End): (t: string)
    ensures (|t| == 0 <==> e == Unknown) && (|t| == 1 <==> e == TagBegin || e == TagEnd)
  {
    match e
    case Unknown => ""
    case TagBegin => "<"
    case TagEnd => ">"
    case InstructionEnd => "?>"
    case CommentEnd => "-->"
    case SectionEnd => "]]>"
  }

  /**
    The state between two characters. find is what the node ends with. docType is set from the D of
    a document type on. name is where a name being read begins, 0 if none is; nameL and nameR are
    the first and last character of the last name read.
    The next four tell of attribute values: inside one or the other quotes, behind an equal sign,
    inside a value without quotes. c1 and c2 are the last two characters inside a tag, a zero
    character if there were none.
   */
  datatype State = State(phase: Phase, docType: bool, kind: int, find: End, name: nat, nameL: int, nameR: int,
                         single: bool, double: bool, equals: bool, bare: bool, c1: char, c2: char, empty: bool)

  function Initial(nameL: int, nameR: int): State {
    State(Begin, false, BAD_NODE, Unknown, 0, nameL, nameR, false, false, false, false, '\0', '\0', false)
  }

  /** A node: s[start..next]. */
  datatype Node = Node(kind: int, start: nat, next: nat, empty: bool, nameL: int, nameR: int)

  datatype Move = Stop(kind: int, next: nat, empty: bool) | Go(st: State)

  /** The kind of node and the end that is looked for are the same. */
  predicate SameSearch(st: State, r: State) {
    r.phase == st.phase && r.docType == st.docType && r.kind == st.kind && r.find == st.find && r.name == st.name &&
    r.nameL == st.nameL && r.nameR == st.nameR && r.empty == st.empty
  }

  /** The end of the node is being looked for, and c is not where it ends. */
  function InTag(c: char, st: State): (r: State)
    ensures SameSearch(st, r)
  {
    var q :=
      if st.single || st.double || st.bare then
        if c == '\"' && st.double then st.(double := false)
        else if c == '\'' && st.single then st.(single := false)
        else if st.bare && IsWhitespace(c) then st.(bare := false)
        else st
      else if c == '\"' && st.equals then st.(double := true, equals := false)
      else if c == '\'' && st.equals then st.(single := true, equals := false)
      else if c == '=' && st.c1 != '=' && !st.equals then st.(equals := true)
      else if st.equals && !IsWhitespace(c) then st.(bare := true, equals := false)
      else st;
    q.(c2 := st.c1, c1 := c)
  }

  function InDocTypeDecl(c: char, st: State): (r: State)
    ensures SameSearch(st, r)
  {
    if c == '\"' && !st.single then st.(double := !st.double)
    else if c == '\'' && !st.double then st.(single := !st.single)
    else st
  }

  /** A closing bracket at i outside quotes: is this the end that is being looked for? */
  function Closes(s: string, i: nat, st: State): (st': State)
    requires i < |s| && st.find != Unknown
    ensures st' == st.(find := st'.find, empty := st'.empty, bare := false)
  {
    var n := |EndText(st.find)|;
    var ended := n == 1 || (i > n && s[i - n + 1..i] == EndText(st.find)[..n - 1]);
    var empty := n == 1 && st.kind == ELEMENT && st.c1 == '/' && (st.c2 == '\0' || !st.bare || NotSecondLast(st.c2));
    st.(find := if ended then Unknown else st.find, empty := st.empty || empty, bare := false)
  }

  function FindEnd(s: string, i: nat, st: State): Move
    requires i < |s| && st.find != Unknown
  {
    var c := s[i];
    if c == '>' && !st.single && !st.double then
      var st' := Closes(s, i, st);
      if st'.find == Unknown && !st.docType then Stop(st.kind, i + 1, st'.empty)
      else Go(if st'.find == Unknown then st'.(phase := InDocType) else st')
    else if c == '<' && (st.kind == TEXT || st.kind == BAD_NODE) then Stop(st.kind, i, st.empty)
    else if st.kind == ELEMENT || st.kind == BAD_NODE then Go(InTag(c, st))
    else if st.kind == DOCUMENT_TYPE then Go(InDocTypeDecl(c, st))
    else Go(st)
  }

  function Bad(st: State): State { st.(kind := BAD_NODE, find := TagEnd) }

  /** The first character of a node. */
  function Starts(c: char, st: State): (r: State)
    ensures r.phase != Begin || r.find != Unknown
    ensures st.kind >= BAD_NODE ==> r.kind >= BAD_NODE
    ensures r.kind == st.kind || r.kind == WHITESPACE || r.kind == TEXT
    ensures r.find == st.find || r.kind == TEXT
  {
    if c == '<' then st.(phase := OpenTag)
    else if IsWhitespace(c) then st.(kind := WHITESPACE, phase := TextOrSpace)
    else st.(kind := TEXT, find := TagBegin)
  }

  /** The character behind the opening bracket of a tag. */
  function Opens(i: nat, c: char, st: State): (r: State)
    ensures r.phase == Bang || r.find != Unknown
    ensures st.kind >= BAD_NODE ==> r.kind >= BAD_NODE
    ensures st.find == Unknown && r.find != Unknown && (r.kind == ELEMENT || r.kind == END_TAG) ==> i <= r.name <= i + 1
  {
    if StartsTagName(c) then st.(kind := ELEMENT, find := TagEnd, name := i)
    else if c == '/' then st.(kind := END_TAG, find := TagEnd, name := i + 1)
    else if c == '!' then st.(phase := Bang)
    else if c == '?' then st.(kind := PROCESSING_INSTRUCTION, find := InstructionEnd, name := i + 1)
    else Bad(st)
  }

  /** The character behind an exclamation mark. */
  function AfterBang(c: char, st: State): (r: State)
    ensures r.phase != Begin || r.find != Unknown
    ensures st.kind >= BAD_NODE ==> r.kind >= BAD_NODE
    ensures r.find == st.find || r.kind == DOCUMENT_TYPE || r.kind == BAD_NODE
  {
    if c == '-' then st.(phase := Dash)
    else if st.docType then if StartsDocType(c) then st.(kind := DOCUMENT_TYPE, find := TagEnd) else Bad(st)
    else if c == '[' then st.(phase := Bracket)
    else if c == 'D' then st.(docType := true, phase := InDocType)
    else Bad(st)
  }

  function FindKind(s: string, i: nat, st: State): Move
    requires i < |s|
  {
    var c := s[i];
    match st.phase
    case Begin => Go(Starts(c, st))
    case TextOrSpace =>
      if c == '<' then Stop(WHITESPACE, i, st.empty)
      else if IsWhitespace(c) then Go(st)
      else Go(st.(kind := TEXT, find := TagBegin))
    case OpenTag => Go(Opens(i, c, st))
    case Bang => Go(AfterBang(c, st))
    case Dash => Go(if c == '-' then st.(kind := COMMENT, find := CommentEnd) else Bad(st))
    case Bracket => Go(if c == 'C' then st.(kind := CDATA_SECTION, find := SectionEnd) else Bad(st))
    case InDocType =>
      if c == '<' then Go(st.(phase := OpenTag))
      else if c == '>' then Stop(DOCUMENT_TYPE, i + 1, st.empty)
      else Go(st)
  }

  /** The end of a name has been reached at i. */
  function NameRead(i: nat, st: State): State {
    st.(nameL := st.name, nameR := i - 1, name := 0, c1 := '\0', c2 := '\0')
  }

  function Step(s: string, i: nat, st: State): Move
    requires i < |s|
  {
    if st.name != 0 && !EndsTagName(s[i]) then Go(st)
    else
      var st' := if st.name != 0 then NameRead(i, st) else st;
      if st'.find != Unknown then FindEnd(s, i, st') else FindKind(s, i, st')
  }

  /** The state after a step, for a node that stops too. */
  function After(i: nat, st: State, c: char): State {
    if st.name != 0 && EndsTagName(c) then NameRead(i, st) else st
  }

  /** The text ends inside the node. */
  function Cut(i: nat, start: nat, st: State): Node {
    if i == start then Node(END_OF_DOCUMENT, start, i, false, st.nameL, st.nameR)
    else
      var kind := if st.kind == WHITESPACE || st.kind == TEXT then st.kind else BAD_NODE;
      Node(kind, start, i, st.empty, st.nameL, st.nameR)
  }

  /** The node that began at start, from the state st in front of i on. */
  function Run(s: string, i: nat, start: nat, st: State): Node
    decreases |s| - i
  {
    if CharAt(s, i) == '\0' then Cut(i, start, st)
    else match Step(s, i, st)
      case Stop(kind, next, empty) =>
        var st' := After(i, st, s[i]);
        Node(kind, start, next, empty, st'.nameL, st'.nameR)
      case Go(st') => Run(s, i + 1, start, st')
  }

  /** The node that begins at i. */
  function NodeAt(s: string, i: nat, nameL: int, nameR: int): Node { Run(s, i, i, Initial(nameL, nameR)) }

  lemma StepTo(s: string, i: nat, start: nat, st: State, st': State)
    requires i < |s| && s[i] != '\0' && Step(s, i, st) == Go(st')
    ensures Run(s, i, start, st) == Run(s, i + 1, start, st')
  {
  }

  // ------------------------------------------------------------------------------- tiling

  /** A state that a scan from start can be in at i. */
  predicate Live(i: nat, start: nat, st: State) {
    start <= i && st.kind >= BAD_NODE &&
    if i == start then st.phase == Begin && st.find == Unknown && st.name == 0 && st.kind == BAD_NODE
    else st.phase == Begin ==> st.find != Unknown
  }

  /** The move keeps the scan live, or ends a node that is not empty. */
  ghost predicate Progress(i: nat, start: nat, m: Move) {
    match m
    case Go(st) => Live(i + 1, start, st)
    case Stop(kind, next, _) => start < next <= i + 1 && kind >= BAD_NODE
  }

  lemma FindEndProgress(s: string, i: nat, start: nat, st: State)
    requires i < |s| && start < i && st.kind >= BAD_NODE && st.find != Unknown
    ensures Progress(i, start, FindEnd(s, i, st))
  {
    hide Closes, InTag, InDocTypeDecl;
  }

  lemma FindKindProgress(s: string, i: nat, start: nat, st: State)
    requires i < |s| && Live(i, start, st)
    ensures Progress(i, start, FindKind(s, i, st))
  {
    hide Starts, Opens, AfterBang;
    match st.phase
    case Begin =>
    case TextOrSpace =>
    case OpenTag =>
    case Bang =>
    case Dash =>
    case Bracket =>
    case InDocType =>
  }

  lemma StepProgress(s: string, i: nat, start: nat, st: State)
    requires i < |s| && Live(i, start, st)
    ensures Progress(i, start, Step(s, i, st))
  {
    hide FindEnd, FindKind;
    var st' := if st.name != 0 then NameRead(i, st) else st;
    if st'.find != Unknown { FindEndProgress(s, i, start, st'); } else { FindKindProgress(s, i, start, st'); }
  }

  /** A node is cut off at the front, and it is not empty unless the text is at its end. */
  lemma {:induction false} RunProgress(s: string, i: nat, start: nat, st: State)
    requires i <= |s| && Live(i, start, st)
    ensures var n := Run(s, i, start, st);
      n.start == start && n.next <= |s| && (n.kind == END_OF_DOCUMENT <==> CharAt(s, start) == '\0' && i == start) &&
      (n.kind == END_OF_DOCUMENT ==> n.next == start) && (n.kind != END_OF_DOCUMENT ==> start < n.next)
    decreases |s| - i
  {
    hide Step, After;
    if CharAt(s, i) != '\0' {
      StepProgress(s, i, start, st);
      if Step(s, i, st).Go? { RunProgress(s, i + 1, start, Step(s, i, st).st); }
    }
  }

  /** What repeated calls return from i on, up to the end of the document. */
  function NodesFrom(s: string, i: nat, nameL: int, nameR: int): seq<Node>
    requires i <= |s|
    decreases |s| - i
  {
    var n := NodeAt(s, i, nameL, nameR);
    RunProgress(s, i, i, Initial(nameL, nameR));
    if n.kind == END_OF_DOCUMENT then [n] else [n] + NodesFrom(s, n.next, n.nameL, n.nameR)
  }

  /** Each node begins where the one before it ends. */
  predicate Tiles(ns: seq<Node>, from: nat, to: nat) {
    if ns == [] then from == to else ns[0].start == from && from < ns[0].next && Tiles(ns[1..], ns[0].next, to)
  }

  /** Repeated calls tile the rest of the text, without gap or overlap, and soon report its end. */
  lemma {:induction false} NodesTile(s: string, i: nat, nameL: int, nameR: int)
    requires i <= |s| && NulFree(s)
    ensures var ns := NodesFrom(s, i, nameL, nameR);
      0 < |ns| <= |s| - i + 1 && Tiles(ns[..|ns| - 1], i, |s|) && ns[|ns| - 1].kind == END_OF_DOCUMENT
    decreases |s| - i
  {
    hide Run;
    var n := NodeAt(s, i, nameL, nameR);
    RunProgress(s, i, i, Initial(nameL, nameR));
    if n.kind != END_OF_DOCUMENT {
      NodesTile(s, n.next, n.nameL, n.nameR);
      var rest := NodesFrom(s, n.next, n.nameL, n.nameR);
      var ns := [n] + rest;
      assert ns[..|ns| - 1] == [n] + rest[..|rest| - 1];
      assert ([n] + rest[..|rest| - 1])[1..] == rest[..|rest| - 1];
    }
  }

  // -------------------------------------------------------------------- names inside tags

  /** The name of a tag being scanned lies inside it. */
  predicate Named(i: nat, start: nat, st: State) {
    (st.kind == ELEMENT || st.kind == END_TAG) && !st.docType && st.find != Unknown ==>
      if st.name != 0 then start < st.name <= i else start < st.nameL <= st.nameR + 1 <= i
  }

  /** The move keeps it so, or ends a tag whose name has been read. */
  ghost predicate NamedMove(i: nat, start: nat, m: Move, st: State) {
    match m
    case Go(st') => Named(i + 1, start, st')
    case Stop(kind, next, _) => kind == ELEMENT || kind == END_TAG ==> start < st.nameL <= st.nameR + 1 < next
  }

  lemma FindEndNamed(s: string, i: nat, start: nat, st: State)
    requires i < |s| && start < i && st.find != Unknown && st.name == 0 && Named(i, start, st)
    ensures NamedMove(i, start, FindEnd(s, i, st), st)
  {
    hide Closes, InTag, InDocTypeDecl;
  }

  lemma FindKindNamed(s: string, i: nat, start: nat, st: State)
    requires i < |s| && Live(i, start, st) && st.find == Unknown && st.name == 0
    ensures NamedMove(i, start, FindKind(s, i, st), st)
  {
    hide Starts, Opens, AfterBang;
  }

  lemma StepNamed(s: string, i: nat, start: nat, st: State)
    requires i < |s| && Live(i, start, st) && Named(i, start, st)
    ensures NamedMove(i, start, Step(s, i, st), After(i, st, s[i]))
  {
    hide FindEnd, FindKind;
    var st' := if st.name != 0 then NameRead(i, st) else st;
    if st.name == 0 || EndsTagName(s[i]) {
      if st'.find != Unknown { FindEndNamed(s, i, start, st'); } else { FindKindNamed(s, i, start, st'); }
    }
  }

  /** The name of a start tag or end tag lies inside it. */
  lemma {:induction false} NameInside(s: string, i: nat, start: nat, st: State)
    requires i <= |s| && Live(i, start, st) && Named(i, start, st)
    ensures var n := Run(s, i, start, st);
      n.kind == ELEMENT || n.kind == END_TAG ==> start < n.nameL <= n.nameR + 1 < n.next
    decreases |s| - i
  {
    hide Step, After;
    if CharAt(s, i) != '\0' {
      StepProgress(s, i, start, st);
      StepNamed(s, i, start, st);
      if Step(s, i, st).Go? { NameInside(s, i + 1, start, Step(s, i, st).st); }
    }
  }
}
