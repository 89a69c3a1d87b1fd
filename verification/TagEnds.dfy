/** Where start tags and bad nodes end, whatever is in them. */
module TagEnds {
  // Told by the values in the tag: a bracket in quotes behind an equal sign does not end it.

  import opened Escape
  import opened CData
  import opened CleanText
  import opened Nodes
  import opened NodesAlone

  // ------------------------------------------------------------------ the end of a tag

  /** Where a tag is closed, and if so in a value without quotes. */
  datatype Close = Close(at: nat, bare: bool)

  function NameEnd(s: string, j: nat): (k: nat)
    requires j <= |s|
    ensures j <= k <= |s| && (k < |s| ==> IsWhitespace(s[k]) || s[k] == '/' || s[k] == '>')
    decreases |s| - j
  {
    if j == |s| || IsWhitespace(s[j]) || s[j] == '/' || s[j] == '>' then j else NameEnd(s, j + 1)
  }

  function SpaceEnd(s: string, j: nat, end: nat): (k: nat)
    requires j <= end <= |s|
    ensures j <= k <= end
    decreases end - j
  {
    if j < end && IsWhitespace(s[j]) then SpaceEnd(s, j + 1, end) else j
  }

  /** Where a value without quotes ends. */
  function BareEnd(s: string, j: nat, end: nat): (k: nat)
    requires j <= end <= |s|
    ensures j <= k <= end
    decreases end - j
  {
    if j == end || IsWhitespace(s[j]) || s[j] == '>' then j else BareEnd(s, j + 1, end)
  }

  /** The closing quote from j on; end if there is none. */
  function ClosingQuote(s: string, j: nat, q: char, end: nat): (k: nat)
    requires j <= end <= |s|
    ensures j <= k <= end
    decreases end - j
  {
    if j == end || s[j] == q then j else ClosingQuote(s, j + 1, q, end)
  }

  /** The bracket that closes the tag, from j on between its values; end if there is none. */
  function TagClose(s: string, j: nat, end: nat): (c: Close)
    requires j <= end <= |s|
    ensures c.at <= end
    decreases end - j, 0
  {
    if j == end then Close(end, false)
    else if s[j] == '>' then Close(j, false)
    else if s[j] == '=' then ValueClose(s, SpaceEnd(s, j + 1, end), end)
    else TagClose(s, j + 1, end)
  }

  /** The same from the beginning of a value on. */
  function ValueClose(s: string, k: nat, end: nat): (c: Close)
    requires k <= end <= |s|
    ensures c.at <= end
    decreases end - k, 0
  {
    if k == end then Close(end, false)
    else if s[k] == '>' then Close(k, false)
    else if s[k] == '\"' || s[k] == '\'' then QuoteClose(s, k + 1, s[k], end)
    else BareClose(s, k + 1, end)
  }

  function QuoteClose(s: string, j: nat, q: char, end: nat): (c: Close)
    requires j <= end <= |s|
    ensures c.at <= end
    decreases end - j, 1
  {
    var m := ClosingQuote(s, j, q, end);
    if m == end then Close(end, false) else TagClose(s, m + 1, end)
  }

  function BareClose(s: string, j: nat, end: nat): (c: Close)
    requires j <= end <= |s|
    ensures c.at <= end
    decreases end - j, 1
  {
    var m := BareEnd(s, j, end);
    if m < end && s[m] == '>' then Close(m, true) else TagClose(s, m, end)
  }

  /** A slash in front of the bracket makes an empty tag unless it belongs to a value without quotes. */
  predicate Slashed(s: string, b: nat, c: Close)
    requires c.at < |s|
  {
    b < c.at && s[c.at - 1] == '/' &&
    (c.at - 1 == b || !c.bare || IsWhitespace(s[c.at - 2]) || s[c.at - 2] == '\"' || s[c.at - 2] == '\'')
  }

  // ------------------------------------------------------------------------- the scan

  /** In a tag whose name ends at b, with the last two characters known. */
  predicate Inside(s: string, b: nat, j: nat, end: nat, start: nat, st: State) {
    NulFree(s) && start < b <= j <= end <= |s| && (st.kind == ELEMENT || st.kind == BAD_NODE) &&
    st.find == TagEnd && st.name == 0 && !st.docType && !st.empty &&
    st.c1 == (if j > b then s[j - 1] else '\0') && st.c2 == (if j > b + 1 then s[j - 2] else '\0') &&
    (end == |s| || (st.kind == BAD_NODE && s[end] == '<')) &&
    (st.kind == BAD_NODE ==> forall k :: j <= k < end ==> s[k] != '<')
  }

  /** The node that the tag closed there is. */
  predicate EndsAs(s: string, b: nat, st: State, n: Node, c: Close, end: nat)
    requires c.at <= end <= |s|
  {
    n.nameL == st.nameL && n.nameR == st.nameR &&
    if c.at == end then n.kind == BAD_NODE && n.next == end
    else n.kind == st.kind && n.next == c.at + 1 && (st.kind == ELEMENT ==> n.empty == Slashed(s, b, c))
  }

  lemma Ended(s: string, b: nat, end: nat, start: nat, st: State)
    requires Inside(s, b, end, end, start, st)
    ensures EndsAs(s, b, st, Run(s, end, start, st), Close(end, false), end)
  {
    hide Run;
    if end == |s| { CutRun(s, end, start, st); } else { StepRuns(s, end, start, st); }
  }

  lemma Closed(s: string, b: nat, j: nat, end: nat, start: nat, st: State)
    requires Inside(s, b, j, end, start, st) && j < end && s[j] == '>' && !st.single && !st.double
    ensures EndsAs(s, b, st, Run(s, j, start, st), Close(j, st.bare), end)
  {
    hide Run;
    StepRuns(s, j, start, st);
  }

  lemma Moves(s: string, b: nat, j: nat, end: nat, start: nat, st: State)
    requires Inside(s, b, j, end, start, st) && j < end && (s[j] != '>' || st.single || st.double)
    ensures Run(s, j, start, st) == Run(s, j + 1, start, InTag(s[j], st))
    ensures Inside(s, b, j + 1, end, start, InTag(s[j], st)) && SameSearch(st, InTag(s[j], st))
  {
    hide Run, InTag;
    MovesInTag(s[j], st);
    StepTo(s, j, start, st, InTag(s[j], st));
  }

  lemma MovesInTag(c: char, st: State)
    ensures InTag(c, st).c1 == c && InTag(c, st).c2 == st.c1
  {
  }

  predicate Between(st: State) { !st.single && !st.double && !st.equals && !st.bare && st.c1 != '=' }

  predicate Awaiting(st: State) { !st.single && !st.double && st.equals && !st.bare }

  predicate InBare(st: State) { !st.single && !st.double && !st.equals && st.bare }

  predicate InQuotes(st: State, q: char) {
    (q == '\"' || q == '\'') && st.double == (q == '\"') && st.single == (q == '\'') && !st.equals && !st.bare
  }

  lemma {:induction false} BetweenRun(s: string, b: nat, j: nat, end: nat, start: nat, st: State)
    requires Inside(s, b, j, end, start, st) && Between(st)
    ensures EndsAs(s, b, st, Run(s, j, start, st), TagClose(s, j, end), end)
    decreases end - j
  {
    hide Run, Slashed;
    if j == end {
      Ended(s, b, end, start, st);
    } else if s[j] == '>' {
      Closed(s, b, j, end, start, st);
    } else {
      Moves(s, b, j, end, start, st);
      if s[j] == '=' {
        AwaitingRun(s, b, j + 1, end, start, InTag(s[j], st));
      } else {
        BetweenRun(s, b, j + 1, end, start, InTag(s[j], st));
      }
    }
  }

  lemma {:induction false} AwaitingRun(s: string, b: nat, j: nat, end: nat, start: nat, st: State)
    requires Inside(s, b, j, end, start, st) && Awaiting(st)
    ensures EndsAs(s, b, st, Run(s, j, start, st), ValueClose(s, SpaceEnd(s, j, end), end), end)
    decreases end - j
  {
    hide Run, Slashed;
    if j == end {
      Ended(s, b, end, start, st);
    } else if s[j] == '>' {
      Closed(s, b, j, end, start, st);
    } else {
      Moves(s, b, j, end, start, st);
      if IsWhitespace(s[j]) {
        AwaitingRun(s, b, j + 1, end, start, InTag(s[j], st));
      } else if s[j] == '\"' || s[j] == '\'' {
        QuotesRun(s, b, j + 1, end, start, InTag(s[j], st), s[j]);
      } else {
        BareRun(s, b, j + 1, end, start, InTag(s[j], st));
      }
    }
  }

  lemma {:induction false} QuotesRun(s: string, b: nat, j: nat, end: nat, start: nat, st: State, q: char)
    requires Inside(s, b, j, end, start, st) && InQuotes(st, q)
    ensures EndsAs(s, b, st, Run(s, j, start, st), QuoteClose(s, j, q, end), end)
    decreases end - j
  {
    hide Run, Slashed;
    if j == end {
      Ended(s, b, end, start, st);
    } else {
      Moves(s, b, j, end, start, st);
      if s[j] == q {
        BetweenRun(s, b, j + 1, end, start, InTag(s[j], st));
      } else {
        QuotesRun(s, b, j + 1, end, start, InTag(s[j], st), q);
      }
    }
  }

  lemma {:induction false} BareRun(s: string, b: nat, j: nat, end: nat, start: nat, st: State)
    requires Inside(s, b, j, end, start, st) && InBare(st)
    ensures EndsAs(s, b, st, Run(s, j, start, st), BareClose(s, j, end), end)
    decreases end - j
  {
    hide Run, Slashed;
    if j == end {
      Ended(s, b, end, start, st);
    } else if s[j] == '>' {
      Closed(s, b, j, end, start, st);
    } else {
      Moves(s, b, j, end, start, st);
      if IsWhitespace(s[j]) {
        BetweenRun(s, b, j + 1, end, start, InTag(s[j], st));
      } else {
        BareRun(s, b, j + 1, end, start, InTag(s[j], st));
      }
    }
  }

  // ------------------------------------------------------------------------- the nodes

  lemma {:induction false} NameRun(s: string, j: nat, start: nat, st: State)
    requires NulFree(s) && j <= |s| && st.name != 0
    ensures Run(s, j, start, st) == Run(s, NameEnd(s, j), start, st)
    decreases |s| - j
  {
    hide Run;
    if j < |s| && !EndsTagName(s[j]) {
      StepTo(s, j, start, st, st);
      NameRun(s, j + 1, start, st);
    }
  }

  lemma NameOver(s: string, b: nat, start: nat, st: State)
    requires b < |s| && st.name != 0 && EndsTagName(s[b])
    ensures Run(s, b, start, st) == Run(s, b, start, NameRead(b, st))
  {
  }

  /** The first character of a tag name: a letter, a sign for names, or anything behind the letters. */
  predicate BeginsName(c: char) { c >= 'a' || 'A' <= c <= 'Z' || c == '_' || c == ':' }

  /** Every start tag, with values of any form or none, is one node up to the bracket that closes it. */
  lemma ElementNode(s: string, i: nat, l: int, r: int)
    requires NulFree(s) && i + 1 < |s| && s[i] == '<' && BeginsName(s[i + 1])
    ensures var n, b := NodeAt(s, i, l, r), NameEnd(s, i + 2);
      var c := TagClose(s, b, |s|);
      n.start == i &&
      if c.at == |s| then n.kind == BAD_NODE && n.next == |s|
      else n == Node(ELEMENT, i, c.at + 1, Slashed(s, b, c), i + 1, b - 1)
  {
    hide Run, NameEnd, TagClose;
    var st := Initial(l, r);
    var a := st.(phase := OpenTag);
    var e := a.(kind := ELEMENT, find := TagEnd, name := i + 1);
    var b := NameEnd(s, i + 2);
    RunProgress(s, i, i, st);
    StepTo(s, i, i, st, a);
    StepTo(s, i + 1, i, a, e);
    NameRun(s, i + 2, i, e);
    if b == |s| {
      CutRun(s, b, i, e);
      NoneLeft(s);
    } else {
      NameOver(s, b, i, e);
      BetweenRun(s, b, b, |s|, i, NameRead(b, e));
    }
  }

  lemma NoneLeft(s: string)
    ensures TagClose(s, |s|, |s|) == Close(|s|, false)
  {
  }

  /** What stands at i opens no node of any kind; the node is bad from j on. */
  predicate OpensBad(s: string, i: nat, j: nat) {
    i + 1 < |s| && s[i] == '<' &&
    if s[i + 1] != '!' then j == i + 2 && s[i + 1] != '/' && s[i + 1] != '?' && !BeginsName(s[i + 1])
    else
      i + 2 < |s| &&
      if s[i + 2] == '-' then j == i + 4 && i + 3 < |s| && s[i + 3] != '-'
      else if s[i + 2] == '[' then j == i + 4 && i + 3 < |s| && s[i + 3] != 'C'
      else j == i + 3 && s[i + 2] != 'D'
  }

  /** A bad node ends in front of the next tag, or earlier where a tag would be closed. */
  lemma BadNode(s: string, i: nat, l: int, r: int, j: nat)
    requires NulFree(s) && OpensBad(s, i, j)
    ensures var n, m := NodeAt(s, i, l, r), StrStr(s, j, "<");
      j <= m <= |s| && n.start == i && n.kind == BAD_NODE &&
      var k := TagClose(s, j, m).at;
      n.next == if k == m then m else k + 1
  {
    hide Run, TagClose, StrStr;
    var st := Initial(l, r).(phase := OpenTag);
    RunProgress(s, i, i, Initial(l, r));
    StepTo(s, i, i, Initial(l, r), st);
    if s[i + 1] != '!' {
      StepTo(s, i + 1, i, st, Bad(st));
      BadRun(s, j, i, Bad(st));
    } else {
      var a := st.(phase := Bang);
      StepTo(s, i + 1, i, st, a);
      if s[i + 2] == '-' {
        StepTo(s, i + 2, i, a, a.(phase := Dash));
        StepTo(s, i + 3, i, a.(phase := Dash), Bad(a.(phase := Dash)));
        BadRun(s, j, i, Bad(a.(phase := Dash)));
      } else if s[i + 2] == '[' {
        StepTo(s, i + 2, i, a, a.(phase := Bracket));
        StepTo(s, i + 3, i, a.(phase := Bracket), Bad(a.(phase := Bracket)));
        BadRun(s, j, i, Bad(a.(phase := Bracket)));
      } else {
        StepTo(s, i + 2, i, a, Bad(a));
        BadRun(s, j, i, Bad(a));
      }
    }
  }

  lemma BadRun(s: string, j: nat, start: nat, st: State)
    requires NulFree(s) && start < j <= |s| && st.kind == BAD_NODE && st.find == TagEnd && st.name == 0 && !st.docType
    requires Between(st) && !st.empty && st.c1 == st.c2 == '\0'
    ensures var n, m := Run(s, j, start, st), StrStr(s, j, "<");
      j <= m <= |s| && n.kind == BAD_NODE &&
      var k := TagClose(s, j, m).at;
      n.next == if k == m then m else k + 1
  {
    hide Run, TagClose, StrStr;
    var m := StrStr(s, j, "<");
    forall k | j <= k < |s| ensures TextAt(s, k, "<") <==> s[k] == '<' { assert s[k..k + 1] == [s[k]]; }
    BetweenRun(s, j, j, m, start, st);
  }
}
