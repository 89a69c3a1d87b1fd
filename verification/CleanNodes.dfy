/** Nodes that are no tags read the same wherever they are moved. */
module CleanNodes {
  // So the gaps of a well-formed text are clean.

  import opened ElemForest
  import opened Escape
  import opened Nodes
  import opened Parsing
  import opened OpenElements
  import opened ParseSteps
  import opened Reading
  import opened CData
  import opened CleanText
  import opened NodeEnds
  import opened Rereading
  import A = Attribs

  // ------------------------------------------------------------------ two runs side by side

  /** Where names stand makes no difference, only whether one is being read. */
  predicate Alike(a: State, b: State) {
    a.phase == b.phase && a.docType == b.docType && a.kind == b.kind && a.find == b.find &&
      (a.name == 0 <==> b.name == 0) &&
    a.single == b.single && a.double == b.double && a.equals == b.equals && a.bare == b.bare &&
    a.c1 == b.c1 && a.c2 == b.c2 && a.empty == b.empty
  }

  predicate AlikeMoves(a: Move, b: Move, i: nat, j: nat) {
    if a.Go? then b.Go? && Alike(a.st, b.st)
    else b.Stop? && b.kind == a.kind && b.next - j == a.next - i
  }

  /** The node is long enough for its end to be looked for in it. */
  predicate Deep(i: nat, start: nat, st: State) {
    start <= i && (st.find == InstructionEnd ==> i >= start + 2) &&
      (st.find == CommentEnd || st.find == SectionEnd ==> i >= start + 4) &&
    (st.phase == OpenTag ==> i >= start + 1) && (st.phase == Bang ==> i >= start + 2) &&
    (st.phase == Dash || st.phase == Bracket ==> i >= start + 3)
  }

  /** The same end is found at i as at j. */
  lemma ClosesAlike(s: string, i: nat, a: State, s': string, j: nat, b: State, start: nat, start': nat)
    requires i < |s| && j < |s'| && a.find != Unknown && Alike(a, b) && Deep(i, start, a) && i - start == j - start'
    requires forall k :: start <= k < i ==> s[k] == s'[k - start + start']
    requires a.find == InstructionEnd ==> (i > 2 <==> j > 2)
    ensures Alike(Closes(s, i, a), Closes(s', j, b))
  {
    var n := |EndText(a.find)|;
    if n > 1 && i > n {
      assert s[i - n + 1..i] == s'[j - n + 1..j] by {
        SameWindow(s, i - n + 1, i, s', j - n + 1);
      }
    }
  }

  lemma StepAlike(s: string, i: nat, a: State, s': string, j: nat, b: State, start: nat, start': nat)
    requires i < |s| && j < |s'| && s[i] == s'[j] && Alike(a, b) && Deep(i, start, a) && i - start == j - start'
    requires forall k :: start <= k < i ==> s[k] == s'[k - start + start']
    requires a.find == InstructionEnd && s[i] == '>' ==> (i > 2 <==> j > 2)
    requires a.phase == OpenTag ==> i > start
    ensures AlikeMoves(Step(s, i, a), Step(s', j, b), i, j)
  {
    hide Closes;
    if a.name == 0 || EndsTagName(s[i]) {
      var a', b' := if a.name != 0 then NameRead(i, a) else a, if b.name != 0 then NameRead(j, b) else b;
      assert Alike(a', b');
      if a'.find != Unknown {
        if s[i] == '>' { ClosesAlike(s, i, a', s', j, b', start, start'); }
        FindEndAlike(s, i, a', s', j, b');
      } else {
        FindKindAlike(s, i, a', s', j, b');
      }
    }
  }

  lemma SameWindow(s: string, l: nat, r: nat, s': string, l': nat)
    requires l <= r <= |s| && l' + (r - l) <= |s'| && forall k :: l <= k < r ==> s[k] == s'[k - l + l']
    ensures s[l..r] == s'[l'..l' + (r - l)]
  {
  }

  lemma FlagsAlike(a: State, b: State, single: bool, double: bool, equals: bool, bare: bool, c: char)
    requires Alike(a, b)
    ensures var a', b' := a.(single := single, double := double, equals := equals, bare := bare),
                          b.(single := single, double := double, equals := equals, bare := bare);
      Alike(a'.(c2 := a'.c1, c1 := c), b'.(c2 := b'.c1, c1 := c))
  {
  }

  /** The flags behind a character of a tag. */
  lemma InTagAlike(c: char, a: State, b: State)
    requires Alike(a, b)
    ensures Alike(InTag(c, a), InTag(c, b))
  {
    var q, r := InTag(c, a), InTag(c, b);
    SameFlags(c, a, b);
    InTagIs(c, a);
    InTagIs(c, b);
    hide InTag, Alike;
    FlagsAlike(a, b, q.single, q.double, q.equals, q.bare, c);
  }

  lemma SameFlags(c: char, a: State, b: State)
    requires Alike(a, b)
    ensures InTag(c, a).single == InTag(c, b).single && InTag(c, a).double == InTag(c, b).double
    ensures InTag(c, a).equals == InTag(c, b).equals && InTag(c, a).bare == InTag(c, b).bare
  {
    hide InTag;
    if a.single || a.double || a.bare { FlagsInside(c, a, b); } else { FlagsOutside(c, a, b); }
  }

  lemma FlagsInside(c: char, a: State, b: State)
    requires Alike(a, b) && (a.single || a.double || a.bare)
    ensures InTag(c, a).single == InTag(c, b).single && InTag(c, a).double == InTag(c, b).double
    ensures InTag(c, a).equals == InTag(c, b).equals && InTag(c, a).bare == InTag(c, b).bare
  {
  }

  lemma FlagsOutside(c: char, a: State, b: State)
    requires Alike(a, b) && !a.single && !a.double && !a.bare
    ensures InTag(c, a).single == InTag(c, b).single && InTag(c, a).double == InTag(c, b).double
    ensures InTag(c, a).equals == InTag(c, b).equals && InTag(c, a).bare == InTag(c, b).bare
  {
  }

  lemma InTagIs(c: char, a: State)
    ensures var q := InTag(c, a);
      var a' := a.(single := q.single, double := q.double, equals := q.equals, bare := q.bare);
      q == a'.(c2 := a'.c1, c1 := c)
  {
  }

  lemma InDocTypeAlike(c: char, a: State, b: State)
    requires Alike(a, b)
    ensures Alike(InDocTypeDecl(c, a), InDocTypeDecl(c, b))
  {
    if c == '\"' && !a.single {
    } else if c == '\'' && !a.double {
    }
  }

  lemma FindEndAlike(s: string, i: nat, a: State, s': string, j: nat, b: State)
    requires i < |s| && j < |s'| && s[i] == s'[j] && a.find != Unknown && Alike(a, b)
    requires s[i] == '>' ==> Alike(Closes(s, i, a), Closes(s', j, b))
    ensures AlikeMoves(FindEnd(s, i, a), FindEnd(s', j, b), i, j)
  {
    hide Closes, InTag, InDocTypeDecl;
    InTagAlike(s[i], a, b);
    InDocTypeAlike(s[i], a, b);
  }

  lemma UpdatesAlike(a: State, b: State, phase: Phase, kind: int, find: End)
    requires Alike(a, b)
    ensures Alike(a.(phase := phase), b.(phase := phase))
    ensures Alike(a.(kind := kind, find := find), b.(kind := kind, find := find))
    ensures Alike(a.(kind := kind, phase := phase), b.(kind := kind, phase := phase))
    ensures Alike(a.(docType := true, phase := phase), b.(docType := true, phase := phase))
  {
  }

  lemma NameAlike(a: State, b: State, kind: int, find: End, i: nat, j: nat)
    requires Alike(a, b) && i > 0 && j > 0
    ensures Alike(a.(kind := kind, find := find, name := i), b.(kind := kind, find := find, name := j))
  {
  }

  lemma StartsAlike(c: char, a: State, b: State)
    requires Alike(a, b)
    ensures Alike(Starts(c, a), Starts(c, b))
  {
    hide Alike;
    UpdatesAlike(a, b, OpenTag, TEXT, TagBegin);
    UpdatesAlike(a, b, TextOrSpace, WHITESPACE, TagBegin);
  }

  lemma OpensAlike(c: char, i: nat, a: State, j: nat, b: State)
    requires Alike(a, b) && i > 0 && j > 0
    ensures Alike(Opens(i, c, a), Opens(j, c, b))
  {
    hide Alike;
    UpdatesAlike(a, b, Bang, BAD_NODE, TagEnd);
    NameAlike(a, b, ELEMENT, TagEnd, i, j);
    NameAlike(a, b, END_TAG, TagEnd, i + 1, j + 1);
    NameAlike(a, b, PROCESSING_INSTRUCTION, InstructionEnd, i + 1, j + 1);
  }

  lemma AfterBangAlike(c: char, a: State, b: State)
    requires Alike(a, b)
    ensures Alike(AfterBang(c, a), AfterBang(c, b))
  {
    SameDocType(a, b);
    hide Alike;
    UpdatesAlike(a, b, Dash, DOCUMENT_TYPE, TagEnd);
    UpdatesAlike(a, b, Bracket, BAD_NODE, TagEnd);
    UpdatesAlike(a, b, InDocType, BAD_NODE, TagEnd);
  }

  lemma SameDocType(a: State, b: State)
    requires Alike(a, b)
    ensures a.docType == b.docType && a.phase == b.phase && a.empty == b.empty
  {
  }

  lemma FindKindAlike(s: string, i: nat, a: State, s': string, j: nat, b: State)
    requires i < |s| && j < |s'| && s[i] == s'[j] && Alike(a, b)
    requires a.phase == OpenTag ==> i > 0 && j > 0
    ensures AlikeMoves(FindKind(s, i, a), FindKind(s', j, b), i, j)
  {
    SameDocType(a, b);
    hide Starts, Opens, AfterBang, Alike;
    StartsAlike(s[i], a, b);
    AfterBangAlike(s[i], a, b);
    UpdatesAlike(a, b, OpenTag, TEXT, TagBegin);
    UpdatesAlike(a, b, OpenTag, COMMENT, CommentEnd);
    UpdatesAlike(a, b, OpenTag, CDATA_SECTION, SectionEnd);
    UpdatesAlike(a, b, OpenTag, BAD_NODE, TagEnd);
    if a.phase == OpenTag { OpensAlike(s[i], i, a, j, b); }
    match a.phase
    case Begin =>
    case TextOrSpace =>
    case OpenTag =>
    case Bang =>
    case Dash =>
    case Bracket =>
    case InDocType =>
  }

  lemma StartsDeep(c: char, i: nat, start: nat, st: State)
    requires Deep(i, start, st) && st.find == Unknown
    ensures Deep(i + 1, start, Starts(c, st))
  {
    if c == '<' {
    } else if IsWhitespace(c) {
    } else {
    }
  }

  lemma OpensDeep(c: char, i: nat, start: nat, st: State)
    requires Deep(i, start, st) && st.find == Unknown && st.phase == OpenTag
    ensures Deep(i + 1, start, Opens(i, c, st))
  {
    hide Bad, StartsTagName;
    BadDeep(i, start, st);
    if StartsTagName(c) {
    } else if c == '/' {
    } else if c == '!' {
    } else if c == '?' {
    } else {
    }
  }

  lemma BadDeep(i: nat, start: nat, st: State)
    requires Deep(i, start, st) && st.find == Unknown
    ensures Deep(i + 1, start, Bad(st))
  {
  }

  lemma AfterBangDeep(c: char, i: nat, start: nat, st: State)
    requires Deep(i, start, st) && st.find == Unknown && st.phase == Bang
    ensures Deep(i + 1, start, AfterBang(c, st))
  {
    hide Bad, StartsDocType;
    BadDeep(i, start, st);
    if c == '-' {
    } else if st.docType {
    } else if c == '[' {
    } else if c == 'D' {
    } else {
    }
  }

  lemma FindKindDeep(s: string, i: nat, start: nat, st: State)
    requires i < |s| && Deep(i, start, st) && st.find == Unknown
    ensures var m := FindKind(s, i, st); m.Go? ==> Deep(i + 1, start, m.st)
  {
    hide Starts, Opens, AfterBang, Bad;
    BadDeep(i, start, st);
    match st.phase
    case Begin => StartsDeep(s[i], i, start, st);
    case TextOrSpace =>
    case OpenTag => OpensDeep(s[i], i, start, st);
    case Bang => AfterBangDeep(s[i], i, start, st);
    case Dash =>
    case Bracket =>
    case InDocType =>
  }

  lemma FindEndDeep(s: string, i: nat, start: nat, st: State)
    requires i < |s| && Deep(i, start, st) && st.find != Unknown
    ensures var m := FindEnd(s, i, st); m.Go? ==> Deep(i + 1, start, m.st)
  {
    hide Closes, InTag, InDocTypeDecl;
    var c := s[i];
    if c == '>' && !st.single && !st.double {
      var st' := Closes(s, i, st);
      assert st' == st.(find := st'.find, empty := st'.empty, bare := false);
      assert st'.find == Unknown || st'.find == st.find by { ClosesFind(s, i, st); }
    } else if c == '<' && (st.kind == TEXT || st.kind == BAD_NODE) {
    } else if st.kind == ELEMENT || st.kind == BAD_NODE {
      assert SameSearch(st, InTag(c, st));
    } else if st.kind == DOCUMENT_TYPE {
      assert SameSearch(st, InDocTypeDecl(c, st));
    }
  }

  lemma ClosesFind(s: string, i: nat, st: State)
    requires i < |s| && st.find != Unknown
    ensures Closes(s, i, st).find == Unknown || Closes(s, i, st).find == st.find
  {
  }

  lemma StepDeep(s: string, i: nat, start: nat, st: State)
    requires i < |s| && Deep(i, start, st)
    ensures var m := Step(s, i, st); m.Go? ==> Deep(i + 1, start, m.st)
  {
    hide FindEnd, FindKind;
    var st' := if st.name != 0 then NameRead(i, st) else st;
    if st'.find == Unknown { FindKindDeep(s, i, start, st'); } else { FindEndDeep(s, i, start, st'); }
  }

  /** An instruction that could end here began with a question mark. */
  predicate Asked(s: string, i: nat, start: nat, st: State) {
    st.find == InstructionEnd && i == start + 2 ==> i <= |s| && s[start + 1] == '?'
  }

  lemma StepAsked(s: string, i: nat, start: nat, st: State)
    requires i < |s| && Deep(i, start, st)
    ensures var m := Step(s, i, st); m.Go? ==> Asked(s, i + 1, start, m.st)
  {
    if i == start + 1 {
      hide FindEnd;
      var st' := if st.name != 0 then NameRead(i, st) else st;
      if st'.find != Unknown { FindEndSame(s, i, st'); } else { KindAsked(s, i, st'); }
    }
  }

  lemma FindEndSame(s: string, i: nat, st: State)
    requires i < |s| && st.find != Unknown
    ensures var m := FindEnd(s, i, st); m.Go? ==> m.st.find == Unknown || m.st.find == st.find
  {
    hide Closes, InTag, InDocTypeDecl;
    ClosesFind(s, i, st);
    assert SameSearch(st, InTag(s[i], st)) && SameSearch(st, InDocTypeDecl(s[i], st));
  }

  lemma KindAsked(s: string, i: nat, st: State)
    requires i < |s| && st.find == Unknown
    ensures var m := FindKind(s, i, st); m.Go? && m.st.find == InstructionEnd ==> s[i] == '?'
  {
    hide Starts, Opens, AfterBang, Bad;
    var c := s[i];
    if st.phase == OpenTag {
      OpensKinds(c, i, st);
    } else if st.phase == Bang {
      AfterBangKinds(c, st);
    } else if st.phase == Begin {
      StartsFind(c, st);
    } else {
      OthersAsked(s, i, st);
    }
  }

  lemma OthersAsked(s: string, i: nat, st: State)
    requires i < |s| && st.find == Unknown && st.phase != OpenTag && st.phase != Bang && st.phase != Begin
    ensures var m := FindKind(s, i, st); m.Go? ==> m.st.find != InstructionEnd
  {
    hide Starts, Opens, AfterBang, Bad;
    BadFind(st);
  }

  lemma BadFind(st: State)
    ensures Bad(st).find == TagEnd
  {
  }

  lemma StartsFind(c: char, st: State)
    ensures Starts(c, st).find == st.find || Starts(c, st).find == TagBegin
  {
    hide IsWhitespace;
  }

  predicate SectionKind(kind: int) {
    kind == CDATA_SECTION || kind == PROCESSING_INSTRUCTION || kind == COMMENT || kind == DOCUMENT_TYPE
  }

  /** The same characters are cut off as the same node; without a name, if both places or none are the front. */
  lemma {:induction false} RunAlike(s: string, i: nat, start: nat, a: State, s': string, j: nat, start': nat,
    b: State, next: nat)
    requires i <= next <= |s| && next - start + start' <= |s'| && i - start == j - start' && NulFree(s) &&
      NulFree(s') && (Bare(s, start) ==> (start == 0 <==> start' == 0))
    requires forall k :: start <= k < next ==> s[k] == s'[k - start + start']
    requires Alike(a, b) && Deep(i, start, a) && Asked(s, i, start, a) && Live(i, start, a)
    requires Run(s, i, start, a).next == next && SectionKind(Run(s, i, start, a).kind)
    ensures var n, n' := Run(s, i, start, a), Run(s', j, start', b);
      n'.kind == n.kind && n'.start == start' && n'.next - start' == n.next - start
    decreases |s| - i
  {
    hide Step, Alike, Deep, Run, Asked;
    if i == |s| {
      CutRun(s, i, start, a);
      assert false;
    } else {
      StepProgress(s, i, start, a);
      RunStep(s, i, start, a);
      StepBounds(s, i, start, a, next);
      PartsOfDeep(s, i, start, a, start');
      StepAlike(s, i, a, s', j, b, start, start');
      StepDeep(s, i, start, a);
      StepAsked(s, i, start, a);
      SameMoves(Step(s, i, a), Step(s', j, b), i, j);
      RunStep(s', j, start', b);
      if Step(s, i, a).Go? { RunAlike(s, i + 1, start, Step(s, i, a).st, s', j + 1, start', Step(s', j, b).st, next); }
    }
  }

  lemma SameMoves(a: Move, b: Move, i: nat, j: nat)
    requires AlikeMoves(a, b, i, j)
    ensures a.Go? == b.Go? && (a.Go? ==> Alike(a.st, b.st)) &&
      (a.Stop? ==> b.kind == a.kind && b.next - j == a.next - i)
  {
  }

  lemma RunStep(s: string, i: nat, start: nat, st: State)
    requires i < |s| && s[i] != '\0'
    ensures match Step(s, i, st)
      case Stop(kind, next, _) =>
        Run(s, i, start, st).kind == kind && Run(s, i, start, st).next == next && Run(s, i, start, st).start == start
      case Go(st') => Run(s, i, start, st) == Run(s, i + 1, start, st')
  {
  }

  /** A node that goes on behind i has its character at i. */
  lemma StepBounds(s: string, i: nat, start: nat, st: State, next: nat)
    requires i < |s| && NulFree(s) && Live(i, start, st) && i <= next && Run(s, i, start, st).next == next
    requires SectionKind(Run(s, i, start, st).kind)
    ensures i < next
  {
    hide Step;
    RunStep(s, i, start, st);
    StepProgress(s, i, start, st);
    var m := Step(s, i, st);
    if m.Stop? {
      StopBehind(s, i, st);
    } else {
      RunNext(s, i + 1, start, m.st);
    }
  }

  lemma StopBehind(s: string, i: nat, st: State)
    requires i < |s|
    ensures var m := Step(s, i, st); m.Stop? && SectionKind(m.kind) ==> m.next == i + 1
  {
  }

  lemma {:induction false} RunNext(s: string, i: nat, start: nat, st: State)
    requires i <= |s|
    ensures Run(s, i, start, st).next >= i
    decreases |s| - i
  {
    hide Step, Run;
    if i < |s| && s[i] != '\0' {
      RunStep(s, i, start, st);
      StopNear(s, i, st);
      if Step(s, i, st).Go? { RunNext(s, i + 1, start, Step(s, i, st).st); }
    } else {
      RunCut(s, i, start, st);
    }
  }

  lemma RunCut(s: string, i: nat, start: nat, st: State)
    requires CharAt(s, i) == '\0'
    ensures Run(s, i, start, st).next == i
  {
  }

  lemma StopNear(s: string, i: nat, st: State)
    requires i < |s|
    ensures var m := Step(s, i, st); m.Stop? ==> m.next >= i
  {
  }

  lemma PartsOfDeep(s: string, i: nat, start: nat, st: State, start': nat)
    requires i < |s| && Deep(i, start, st) && Asked(s, i, start, st)
    requires Bare(s, start) ==> (start == 0 <==> start' == 0)
    ensures st.find == InstructionEnd && s[i] == '>' ==> (i > 2 <==> i - start + start' > 2)
    ensures st.phase == OpenTag ==> i > start
  {
  }

  // ------------------------------------------------------------------ the text of a node

  predicate Known(kind: int) { kind == BAD_NODE || kind == ELEMENT || kind == END_TAG || OtherKind(kind) }

  /** A tag, of whatever kind, does not turn into character data. */
  predicate NotText(st: State) {
    st.kind != TEXT && st.kind != WHITESPACE && st.phase != Begin && st.phase != TextOrSpace
  }

  lemma StepNotText(s: string, i: nat, st: State)
    requires i < |s| && NotText(st)
    ensures match Step(s, i, st)
      case Go(st') => NotText(st')
      case Stop(kind, _, _) => kind != TEXT && kind != WHITESPACE
  {
    hide FindEnd, FindKind;
    var st' := if st.name != 0 then NameRead(i, st) else st;
    if st'.find != Unknown { FindEndNotText(s, i, st'); } else { FindKindNotText(s, i, st'); }
  }

  lemma FindEndNotText(s: string, i: nat, st: State)
    requires i < |s| && NotText(st) && st.find != Unknown
    ensures match FindEnd(s, i, st)
      case Go(st') => NotText(st')
      case Stop(kind, _, _) => kind != TEXT && kind != WHITESPACE
  {
    hide Closes, InTag, InDocTypeDecl;
    assert SameSearch(st, InTag(s[i], st)) && SameSearch(st, InDocTypeDecl(s[i], st));
  }

  lemma FindKindNotText(s: string, i: nat, st: State)
    requires i < |s| && NotText(st) && st.find == Unknown
    ensures match FindKind(s, i, st)
      case Go(st') => NotText(st')
      case Stop(kind, _, _) => kind != TEXT && kind != WHITESPACE
  {
    hide Starts, Opens, AfterBang, Bad;
    TagKinds(s[i], i, st);
    match st.phase
    case Begin =>
    case TextOrSpace =>
    case OpenTag =>
    case Bang =>
    case Dash =>
    case Bracket =>
    case InDocType =>
  }

  lemma TagKinds(c: char, i: nat, st: State)
    ensures NotText(st) ==> NotText(Opens(i, c, st)) && NotText(AfterBang(c, st)) && NotText(Bad(st))
    ensures Known(st.kind) ==> Known(Opens(i, c, st).kind) && Known(AfterBang(c, st).kind) && Known(Bad(st).kind)
  {
    hide Starts, Opens, AfterBang;
    OpensKinds(c, i, st);
    AfterBangKinds(c, st);
  }

  lemma OpensKinds(c: char, i: nat, st: State)
    ensures var r := Opens(i, c, st);
      (r.phase == st.phase || r.phase == Bang) &&
      (r.kind == st.kind || r.kind == ELEMENT || r.kind == END_TAG || r.kind == PROCESSING_INSTRUCTION ||
        r.kind == BAD_NODE)
    ensures Opens(i, c, st).find == InstructionEnd ==> st.find == InstructionEnd || c == '?'
  {
    hide StartsTagName;
    if StartsTagName(c) {
    } else if c == '/' {
    } else if c == '!' {
    } else if c == '?' {
    }
  }

  lemma AfterBangKinds(c: char, st: State)
    ensures var r := AfterBang(c, st);
      (r.phase == st.phase || r.phase == Dash || r.phase == Bracket || r.phase == InDocType) &&
      (r.kind == st.kind || r.kind == DOCUMENT_TYPE || r.kind == BAD_NODE) && (r.find == st.find || r.find == TagEnd)
  {
    hide StartsDocType;
    if c == '-' {
    } else if st.docType {
    } else if c == '[' {
    } else if c == 'D' {
    }
  }

  lemma {:induction false} TagNotText(s: string, i: nat, start: nat, st: State)
    requires start < i && NotText(st)
    ensures Run(s, i, start, st).kind != TEXT && Run(s, i, start, st).kind != WHITESPACE
    decreases |s| - i
  {
    hide Step, Run;
    if i < |s| && s[i] != '\0' {
      RunStep(s, i, start, st);
      StepNotText(s, i, st);
      if Step(s, i, st).Go? { TagNotText(s, i + 1, start, Step(s, i, st).st); }
    } else {
      CutNotText(s, i, start, st);
    }
  }

  lemma CutNotText(s: string, i: nat, start: nat, st: State)
    requires CharAt(s, i) == '\0' && start < i && NotText(st)
    ensures Run(s, i, start, st).kind != TEXT && Run(s, i, start, st).kind != WHITESPACE
  {
  }

  /** The first character tells character data from everything else. */
  lemma FirstTells(s: string, i: nat, l: int, r: int)
    requires i < |s| && NulFree(s)
    ensures var n := NodeAt(s, i, l, r);
      if s[i] == '<' then n.kind != TEXT && n.kind != WHITESPACE
      else !SectionKind(n.kind) && i < n.next <= |s| && forall k :: i <= k < n.next ==> s[k] != '<'
  {
    hide Run;
    if s[i] == '<' {
      StepTo(s, i, i, Initial(l, r), Initial(l, r).(phase := OpenTag));
      TagNotText(s, i + 1, i, Initial(l, r).(phase := OpenTag));
    } else {
      var p := PlainLength(s[i..]);
      forall k | i <= k < i + p ensures s[k] != '<' { assert s[k] == s[i..][k - i]; }
      TextRun(s, i, i, i + p, Initial(l, r));
    }
  }

  /** A node that is no tag is clean text. */
  lemma NodeIsClean(s: string, i: nat, l: int, r: int)
    requires i < |s| && NulFree(s) && OtherKind(NodeAt(s, i, l, r).kind) && (i == 0 ==> !BareFront(s))
    ensures i < NodeAt(s, i, l, r).next <= |s| && Clean(s[i..NodeAt(s, i, l, r).next])
  {
    hide Run, Clean, Section;
    var n := NodeAt(s, i, l, r);
    RunProgress(s, i, i, Initial(l, r));
    FirstTells(s, i, l, r);
    var x := s[i..n.next];
    if s[i] == '<' {
      NodeIsSection(s, i, l, r);
      SectionIsClean(x);
    } else {
      NoTagIsClean(x);
    }
  }

  lemma NodeIsSection(s: string, i: nat, l: int, r: int)
    requires i < |s| && s[i] == '<' && NulFree(s) && SectionKind(NodeAt(s, i, l, r).kind)
    requires i == 0 ==> !Bare(s, 0)
    ensures i < NodeAt(s, i, l, r).next <= |s| && Section(s[i..NodeAt(s, i, l, r).next])
  {
    hide Run;
    var n := NodeAt(s, i, l, r);
    RunProgress(s, i, i, Initial(l, r));
    var x := s[i..n.next];
    if Bare(s, i) { BareElsewhere(s, i, l, r); }
    forall s': string, j: nat, l': int, r': int | NulFree(s') && TextAt(s', j, x) && (j == 0 ==> !Bare(x, 0))
      ensures NodeThere(s', j, l', r', |x|)
    {
      forall k | i <= k < n.next ensures s[k] == s'[k - i + j] { CharsAt(s', j, x, k - i); }
      FirstAlike(i, l, r, l', r');
      RunAlike(s, i, i, Initial(l, r), s', j, j, Initial(l', r'), n.next);
    }
  }

  lemma FirstAlike(i: nat, l: int, r: int, l': int, r': int)
    ensures Alike(Initial(l, r), Initial(l', r')) && Deep(i, i, Initial(l, r)) && Live(i, i, Initial(l, r))
  {
  }

  // ------------------------------------------------------------- instructions without a name

  lemma EndThere(s: string, i: nat)
    requires i + 1 < |s|
    ensures TextAt(s, i, "?>") <==> s[i] == '?' && s[i + 1] == '>'
  {
    assert s[i..i + 2] == [s[i], s[i + 1]];
  }

  /** Behind the front of a text a nameless instruction ends at its first bracket. */
  lemma BareElsewhere(s: string, start: nat, l: int, r: int)
    requires 0 < start < |s| && s[start] == '<' && Bare(s, start)
    ensures var n := NodeAt(s, start, l, r); n.kind == PROCESSING_INSTRUCTION && n.next == start + 3
  {
    hide Run;
    var st := Initial(l, r).(phase := OpenTag);
    var a := st.(kind := PROCESSING_INSTRUCTION, find := InstructionEnd, name := start + 2);
    StepTo(s, start, start, Initial(l, r), st);
    StepTo(s, start + 1, start, st, a);
    assert s[start + 1..start + 2] == "?" == "?>"[..1];
    RunStep(s, start + 2, start, a);
  }

  lemma AskedThere(s: string, i: nat)
    requires i + 1 < |s| && s[i] == '<' && s[i + 1] == '?'
    ensures TextAt(s, i, "<?")
  {
    assert s[i..i + 2] == [s[i], s[i + 1]];
  }

  /** At the front it goes on to the next question mark with a bracket, or is bad up to the end. */
  lemma BareAtFront(s: string, l: int, r: int)
    requires BareFront(s) && NulFree(s)
    ensures var n, k := NodeAt(s, 0, l, r), StrStr(s, 3, "?>");
      if k == |s| then n.kind == BAD_NODE && n.next == |s| else n.kind == PROCESSING_INSTRUCTION && n.next == k + 2
  {
    hide NodeAt;
    AskedThere(s, 0);
    if 3 < |s| { EndThere(s, 2); }
    InstructionNode(s, 0, l, r);
  }

  /** The same nameless instruction is one node at the front of a text and another one elsewhere. */
  lemma BareDiffers(s: string, l: int, r: int, s': string, start: nat, l': int, r': int)
    requires BareFront(s) && NulFree(s) && 0 < start < |s'| && s'[start] == '<' && Bare(s', start)
    ensures var n, n' := NodeAt(s, 0, l, r), NodeAt(s', start, l', r');
      n'.kind != n.kind || n'.next - start != n.next
  {
    hide NodeAt;
    BareAtFront(s, l, r);
    BareElsewhere(s', start, l', r');
  }

  // ----------------------------------------------------------------- the text of a document

  ghost predicate OpenClean(o: Open) { CleanGaps(o.done) && (o.Level? ==> OpenClean(o.below)) }

  lemma {:induction false} AddTextClean(k: Forest, s: string)
    requires CleanGaps(k) && Clean(s)
    ensures CleanGaps(AddText(k, s))
  {
    hide Clean;
    if k.Nil? { CleanConcat(k.gap, s); } else { AddTextClean(k.rest, s); }
  }

  lemma {:induction false} AppendClean(k: Forest, id: nat, tag: string, kids: Forest, close: string)
    requires CleanGaps(k) && CleanGaps(kids)
    ensures CleanGaps(Append(k, id, tag, kids, close, Nil("")))
  {
    hide Clean;
    NoTagIsClean("");
    if k.Node? { AppendClean(k.rest, id, tag, kids, close); }
  }

  lemma ClosedClean(o: Open, close: string)
    requires o.Level? && OpenClean(o)
    ensures OpenClean(Closed(o, close))
  {
    assert OpenClean(o.below);
    AppendClean(o.below.done, o.id, o.tag, o.done, close);
  }

  lemma StartedClean(o: Open, id: nat, tag: string, name: string)
    requires OpenClean(o)
    ensures OpenClean(Started(o, id, tag, name))
  {
    NoTagIsClean("");
  }

  // ------------------------------------------------------------------------ kinds of nodes

  lemma StepKnown(s: string, i: nat, st: State)
    requires i < |s| && Known(st.kind)
    ensures match Step(s, i, st) case Go(st') => Known(st'.kind) case Stop(kind, _, _) => Known(kind)
  {
    hide FindEnd, FindKind;
    var st' := if st.name != 0 then NameRead(i, st) else st;
    if st'.find != Unknown { FindEndKnown(s, i, st'); } else { FindKindKnown(s, i, st'); }
  }

  lemma FindEndKnown(s: string, i: nat, st: State)
    requires i < |s| && Known(st.kind) && st.find != Unknown
    ensures match FindEnd(s, i, st) case Go(st') => Known(st'.kind) case Stop(kind, _, _) => Known(kind)
  {
    hide Closes, InTag, InDocTypeDecl;
    assert SameSearch(st, InTag(s[i], st)) && SameSearch(st, InDocTypeDecl(s[i], st));
  }

  lemma FindKindKnown(s: string, i: nat, st: State)
    requires i < |s| && Known(st.kind) && st.find == Unknown
    ensures match FindKind(s, i, st) case Go(st') => Known(st'.kind) case Stop(kind, _, _) => Known(kind)
  {
    hide Starts, Opens, AfterBang, Bad, Known;
    KnownKinds();
    TagKinds(s[i], i, st);
    match st.phase
    case Begin => StartsKnown(s[i], st);
    case TextOrSpace =>
    case OpenTag =>
    case Bang =>
    case Dash =>
    case Bracket =>
    case InDocType =>
  }

  lemma KnownKinds()
    ensures Known(COMMENT) && Known(CDATA_SECTION) && Known(DOCUMENT_TYPE) && Known(TEXT) && Known(WHITESPACE)
  {
  }

  lemma StartsKnown(c: char, st: State)
    requires Known(st.kind)
    ensures Known(Starts(c, st).kind)
  {
    hide IsWhitespace;
  }

  lemma {:induction false} RunKnown(s: string, i: nat, start: nat, st: State)
    requires Known(st.kind)
    ensures var n := Run(s, i, start, st); Known(n.kind) || n.kind == END_OF_DOCUMENT
    decreases |s| - i
  {
    hide Step, Run, Known;
    if i < |s| && s[i] != '\0' {
      RunStep(s, i, start, st);
      StepKnown(s, i, st);
      if Step(s, i, st).Go? { RunKnown(s, i + 1, start, Step(s, i, st).st); }
    } else {
      CutKnown(s, i, start, st);
    }
  }

  lemma CutKnown(s: string, i: nat, start: nat, st: State)
    requires CharAt(s, i) == '\0'
    ensures var n := Run(s, i, start, st); Known(n.kind) || n.kind == END_OF_DOCUMENT
  {
  }

  // ---------------------------------------------------------------- a well-formed text

  lemma TopMatches(o: Open, name: string)
    requires Names(o) != [] && A.Matches(name, Names(o)[|Names(o)| - 1])
    ensures MatchDepth(Names(o), name) == |Names(o)| && UnwoundTo(o, |Names(o)|) == o && o.Level?
  {
    hide A.Matches;
    MatchDepthIs(Names(o), name, |Names(o)|);
  }

  lemma MoreClean(o: Open, s: string)
    requires OpenClean(o) && Clean(s)
    ensures OpenClean(MoreText(o, s))
  {
    hide Clean;
    AddTextClean(o.done, s);
  }

  /** What a node of a well-formed text does to the text between the tags. */
  lemma NodeKeepsClean(s: string, i: nat, l: int, r: int, o: Open, free: nat, n: Node)
    requires i < |s| && NulFree(s) && !BareFront(s) && OpenClean(o) && n == NodeAt(s, i, l, r) &&
      n.kind != END_OF_DOCUMENT
    requires WellFormedFrom(s, i, l, r, Names(o), Roots(o))
    ensures n.start == i < n.next <= |s|
    ensures OpenClean(ReadNode(o, free, s, n))
    ensures var o' := ReadNode(o, free, s, n); WellFormedFrom(s, n.next, n.nameL, n.nameR, Names(o'), Roots(o'))
  {
    hide Run, WellFormedFrom, OpenClean, Closed, Clean, MatchDepth, A.Matches, UnwoundTo, MoreText;
    RunProgress(s, i, i, Initial(l, r));
    CheckNode(s, i, l, r, Names(o), Roots(o), n);
    var text := s[i..n.next];
    var name := Slice(s, n.nameL, n.nameR);
    if n.kind == ELEMENT {
      StartedClean(o, free, text, name);
      ClosedClean(Started(o, free, text, name), "");
      StartedNames(o, free, text, name);
    } else if n.kind == END_TAG {
      TopMatches(o, name);
      NamesDepth(o);
      ClosedClean(o, text);
      ClosedNames(o, text);
      RootsOf(o, text, "");
    } else {
      RunKnown(s, i, i, Initial(l, r));
      NodeIsClean(s, i, l, r);
      MoreClean(o, text);
      SameNames(o, text);
    }
  }

  lemma {:induction false} ReadClean(s: string, i: nat, l: int, r: int, o: Open, free: nat)
    requires i <= |s| && NulFree(s) && !BareFront(s) && OpenClean(o) && WellFormedFrom(s, i, l, r, Names(o), Roots(o))
    ensures CleanGaps(ReadFrom(s, i, l, r, o, free))
    decreases |s| - i
  {
    hide Run, WellFormedFrom, OpenClean, ReadNode, BareFront, Names, Roots, UnwoundTo;
    RunProgress(s, i, i, Initial(l, r));
    var n := NodeAt(s, i, l, r);
    if n.kind == END_OF_DOCUMENT {
      CheckEnd(s, i, l, r, Names(o), Roots(o));
      NothingOpen(o);
    } else {
      NodeKeepsClean(s, i, l, r, o, free, n);
      ReadClean(s, n.next, n.nameL, n.nameR, ReadNode(o, free, s, n), Free(free, n));
    }
  }

  lemma NothingOpen(o: Open)
    requires Names(o) == [] && OpenClean(o)
    ensures UnwoundTo(o, 0) == o && CleanGaps(o.done)
  {
  }

  /** Between the tags of a well-formed text that does not begin with a nameless instruction all text is clean. */
  lemma ParsedClean(s: string)
    requires NulFree(s) && !BareFront(s) && WellFormed(s)
    ensures CleanGaps(Document(s))
  {
    hide ReadFrom, WellFormedFrom, BareFront;
    NoTagIsClean("");
    ReadClean(s, 0, 0, -1, Bottom(Nil("")), 1);
  }
}
