/** A node does not depend on the name that was read before it. */
module NodesAlone {
  import opened Escape
  import opened Nodes
  import N = Nodes

  /** The state with another last name. */
  function Renamed(a: State, l: int, r: int): State { a.(nameL := l, nameR := r) }

  function MoveRenamed(m: Move, l: int, r: int): Move {
    if m.Go? then Go(Renamed(m.st, l, r)) else m
  }

  lemma InTagRenamed(c: char, a: State, l: int, r: int)
    ensures InTag(c, Renamed(a, l, r)) == Renamed(InTag(c, a), l, r)
  {
    hide InTag;
    if a.single || a.double || a.bare { InsideRenamed(c, a, l, r); } else { OutsideRenamed(c, a, l, r); }
  }

  lemma InsideRenamed(c: char, a: State, l: int, r: int)
    requires a.single || a.double || a.bare
    ensures InTag(c, Renamed(a, l, r)) == Renamed(InTag(c, a), l, r)
  {
    if c == '\"' && a.double {
    } else if c == '\'' && a.single {
    } else {
    }
  }

  lemma OutsideRenamed(c: char, a: State, l: int, r: int)
    requires !a.single && !a.double && !a.bare
    ensures InTag(c, Renamed(a, l, r)) == Renamed(InTag(c, a), l, r)
  {
    if c == '\"' && a.equals {
    } else if c == '\'' && a.equals {
    } else {
    }
  }

  lemma InDocTypeRenamed(c: char, a: State, l: int, r: int)
    ensures InDocTypeDecl(c, Renamed(a, l, r)) == Renamed(InDocTypeDecl(c, a), l, r)
  {
  }

  lemma ClosesRenamed(s: string, i: nat, a: State, l: int, r: int)
    requires i < |s| && a.find != Unknown
    ensures Closes(s, i, Renamed(a, l, r)) == Renamed(Closes(s, i, a), l, r)
  {
  }

  lemma FindEndRenamed(s: string, i: nat, a: State, l: int, r: int)
    requires i < |s| && a.find != Unknown
    ensures FindEnd(s, i, Renamed(a, l, r)) == MoveRenamed(FindEnd(s, i, a), l, r)
  {
    hide Closes, InTag, InDocTypeDecl;
    ClosesRenamed(s, i, a, l, r);
    InTagRenamed(s[i], a, l, r);
    InDocTypeRenamed(s[i], a, l, r);
  }

  lemma StartsRenamed(c: char, a: State, l: int, r: int)
    ensures Starts(c, Renamed(a, l, r)) == Renamed(Starts(c, a), l, r)
  {
    hide IsWhitespace;
    if c == '<' {
    } else if IsWhitespace(c) {
    } else {
    }
  }

  lemma OpensRenamed(c: char, i: nat, a: State, l: int, r: int)
    ensures Opens(i, c, Renamed(a, l, r)) == Renamed(Opens(i, c, a), l, r)
  {
    hide StartsTagName;
    if StartsTagName(c) {
    } else if c == '/' {
    } else if c == '!' {
    } else if c == '?' {
    } else {
    }
  }

  lemma AfterBangRenamed(c: char, a: State, l: int, r: int)
    ensures AfterBang(c, Renamed(a, l, r)) == Renamed(AfterBang(c, a), l, r)
  {
    hide StartsDocType;
    if c == '-' {
    } else if a.docType {
    } else if c == '[' {
    } else if c == 'D' {
    } else {
    }
  }

  lemma UpdatesRenamed(a: State, phase: Phase, kind: int, find: End, l: int, r: int)
    ensures Renamed(a, l, r).(phase := phase) == Renamed(a.(phase := phase), l, r)
    ensures Renamed(a, l, r).(kind := kind, find := find) == Renamed(a.(kind := kind, find := find), l, r)
  {
  }

  lemma BadRenamed(a: State, l: int, r: int)
    ensures Bad(Renamed(a, l, r)) == Renamed(Bad(a), l, r)
  {
  }

  lemma SamePhase(a: State, l: int, r: int)
    ensures var b := Renamed(a, l, r);
      b.phase == a.phase && b.empty == a.empty && b.name == a.name && b.find == a.find && b.kind == a.kind
  {
  }

  lemma FindKindRenamed(s: string, i: nat, a: State, l: int, r: int)
    requires i < |s|
    ensures FindKind(s, i, Renamed(a, l, r)) == MoveRenamed(FindKind(s, i, a), l, r)
  {
    hide Starts, Opens, AfterBang, Renamed, Bad;
    SamePhase(a, l, r);
    StartsRenamed(s[i], a, l, r);
    OpensRenamed(s[i], i, a, l, r);
    AfterBangRenamed(s[i], a, l, r);
    BadRenamed(a, l, r);
    UpdatesRenamed(a, OpenTag, TEXT, TagBegin, l, r);
    UpdatesRenamed(a, OpenTag, COMMENT, CommentEnd, l, r);
    UpdatesRenamed(a, OpenTag, CDATA_SECTION, SectionEnd, l, r);
    match a.phase
    case Begin =>
    case TextOrSpace =>
    case OpenTag =>
    case Bang =>
    case Dash =>
    case Bracket =>
    case InDocType =>
  }

  /** The name is kept, or a new one is read. */
  lemma StepRenamed(s: string, i: nat, a: State, l: int, r: int)
    requires i < |s|
    ensures
      if a.name != 0 && EndsTagName(s[i]) then Step(s, i, Renamed(a, l, r)) == Step(s, i, a)
      else Step(s, i, Renamed(a, l, r)) == MoveRenamed(Step(s, i, a), l, r)
  {
    hide FindEnd, FindKind;
    if a.name == 0 {
      if a.find != Unknown { FindEndRenamed(s, i, a, l, r); } else { FindKindRenamed(s, i, a, l, r); }
    }
  }

  lemma StepRuns(s: string, i: nat, start: nat, a: State)
    requires i < |s| && s[i] != '\0'
    ensures var n := Run(s, i, start, a);
      match Step(s, i, a)
      case Stop(kind, next, empty) =>
        var a' := N.After(i, a, s[i]); n == Node(kind, start, next, empty, a'.nameL, a'.nameR)
      case Go(st) => n == Run(s, i + 1, start, st)
  {
  }

  lemma AfterRenamed(i: nat, a: State, c: char, l: int, r: int)
    ensures if a.name != 0 && EndsTagName(c) then N.After(i, Renamed(a, l, r), c) == N.After(i, a, c)
      else N.After(i, Renamed(a, l, r), c) == Renamed(a, l, r) && N.After(i, a, c) == a
    ensures Renamed(a, l, r).nameL == l && Renamed(a, l, r).nameR == r && Renamed(a, a.nameL, a.nameR) == a
  {
  }

  lemma CutAlone(s: string, i: nat, start: nat, a: State, l: int, r: int)
    requires CharAt(s, i) == '\0'
    ensures var n, n' := Run(s, i, start, a), Run(s, i, start, Renamed(a, l, r));
      n' == n.(nameL := l, nameR := r) && n.nameL == a.nameL && n.nameR == a.nameR
  {
  }

  /** A node is the same whatever name was read before it, but for that name where it has none. */
  lemma {:induction false} RunAlone(s: string, i: nat, start: nat, a: State, l: int, r: int)
    requires i <= |s|
    ensures var n, n' := Run(s, i, start, a), Run(s, i, start, Renamed(a, l, r));
      n' == n || (n' == n.(nameL := l, nameR := r) && n.nameL == a.nameL && n.nameR == a.nameR)
    decreases |s| - i
  {
    hide Step, Run, Renamed, N.After;
    if i == |s| || s[i] == '\0' {
      CutAlone(s, i, start, a, l, r);
    } else {
      StepRenamed(s, i, a, l, r);
      StepRenamed(s, i, a, a.nameL, a.nameR);
      AfterRenamed(i, a, s[i], l, r);
      StepRuns(s, i, start, a);
      StepRuns(s, i, start, Renamed(a, l, r));
      if Step(s, i, a).Go? && !(a.name != 0 && EndsTagName(s[i])) {
        var st := Step(s, i, a).st;
        RunAlone(s, i + 1, start, st, l, r);
        AfterRenamed(i, st, s[i], a.nameL, a.nameR);
      }
    }
  }

  /** Tags have their own name, so a node at i depends on nothing but the text. */
  lemma NodeAlone(s: string, i: nat, l: int, r: int)
    requires i <= |s|
    ensures var n, n' := NodeAt(s, i, l, r), NodeAt(s, i, 0, -1);
      n.kind == n'.kind && n.start == n'.start && n.next == n'.next && n.empty == n'.empty &&
      (n.kind == ELEMENT || n.kind == END_TAG ==> n == n')
  {
    hide Run;
    RunAlone(s, i, i, Initial(0, -1), l, r);
    NameInside(s, i, i, Initial(0, -1));
  }
}
