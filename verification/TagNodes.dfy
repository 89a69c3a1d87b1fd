/** Well-formed tags, as ParseNode cuts them off. */
module TagNodes {
  import opened Escape
  import opened Tags
  import opened Attribs
  import opened Nodes

  // ----------------------------------------------------------------------------- start tags

  /** Inside a start tag behind its name, with the last two characters read. */
  function InStartTag(start: nat, nameR: int, c1: char, c2: char): State {
    Initial(start + 1, nameR).(phase := OpenTag, kind := ELEMENT, find := TagEnd, c1 := c1, c2 := c2)
  }

  /** A character that does not end the tag and does not begin a value. */
  predicate Neutral(c: char) { c != '>' && c != '=' && c != '\0' }

  lemma NeutralStep(s: string, i: nat, start: nat, st: State)
    requires i < |s| && Neutral(s[i]) && st.kind == ELEMENT && st.find == TagEnd && st.name == 0 && !st.bare
    requires if st.equals then IsWhitespace(s[i]) && !st.single && !st.double else !st.single && !st.double
    ensures Run(s, i, start, st) == Run(s, i + 1, start, st.(c1 := s[i], c2 := st.c1))
  {
    StepTo(s, i, start, st, st.(c1 := s[i], c2 := st.c1));
  }

  /** Whitespace and names inside a tag. */
  lemma {:induction false} NeutralRun(s: string, i: nat, start: nat, st: State, w: string) returns (st': State)
    requires TextAt(s, i, w) && st.kind == ELEMENT && st.find == TagEnd && st.name == 0 && !st.bare && !st.single &&
      !st.double
    requires forall k :: 0 <= k < |w| ==> Neutral(w[k]) && (st.equals ==> IsWhitespace(w[k]))
    ensures Run(s, i, start, st) == Run(s, i + |w|, start, st')
    ensures st' == st.(c1 := if w == "" then st.c1 else w[|w| - 1], c2 := st'.c2)
    decreases |w|
  {
    hide Run;
    if w == "" {
      st' := st;
    } else {
      TextSplit(s, i, [w[0]], w[1..]) by { assert w == [w[0]] + w[1..]; }
      CharsAt(s, i, w, 0);
      NeutralStep(s, i, start, st);
      st' := NeutralRun(s, i + 1, start, st.(c1 := s[i], c2 := st.c1), w[1..]);
    }
  }

  /** Inside quotes everything but the same quote is skipped. */
  lemma {:induction false} QuotedRun(s: string, i: nat, start: nat, st: State, q: char, w: string) returns (st': State)
    requires TextAt(s, i, w) && st.kind == ELEMENT && st.find == TagEnd && st.name == 0 && !st.bare && !st.equals
    requires if q == '\"' then st.double && !st.single else q == '\'' && st.single && !st.double
    requires forall k :: 0 <= k < |w| ==> w[k] != q && w[k] != '\0'
    ensures Run(s, i, start, st) == Run(s, i + |w|, start, st')
    ensures st' == st.(c1 := st'.c1, c2 := st'.c2)
    decreases |w|
  {
    hide Run;
    if w == "" {
      st' := st;
    } else {
      TextSplit(s, i, [w[0]], w[1..]) by { assert w == [w[0]] + w[1..]; }
      CharsAt(s, i, w, 0);
      var next := st.(c1 := s[i], c2 := st.c1);
      StepTo(s, i, start, st, next) by { QuotedStep(s, i, st, q); }
      st' := QuotedRun(s, i + 1, start, next, q, w[1..]);
    }
  }

  lemma QuotedStep(s: string, i: nat, st: State, q: char)
    requires i < |s| && s[i] != q && st.kind == ELEMENT && st.find == TagEnd && st.name == 0 && !st.bare && !st.equals
    requires if q == '\"' then st.double && !st.single else q == '\'' && st.single && !st.double
    ensures Step(s, i, st) == Go(st.(c1 := s[i], c2 := st.c1))
  {
  }

  lemma QuoteStep(s: string, i: nat, st: State, q: char)
    requires i < |s| && s[i] == q && st.kind == ELEMENT && st.find == TagEnd && st.name == 0 && !st.bare
    requires (q == '\"' || q == '\'') && (st.equals ==> !st.single && !st.double)
    requires st.equals || if q == '\"' then st.double && !st.single else st.single && !st.double
    ensures Step(s, i, st) ==
      Go(st.(double := q == '\"' && st.equals, single := q == '\'' && st.equals, equals := false, c1 := q, c2 := st.c1))
  {
  }

  lemma EqualsStep(s: string, i: nat, st: State)
    requires i < |s| && s[i] == '=' && st.kind == ELEMENT && st.find == TagEnd && st.name == 0 && !st.bare
    requires st.c1 != '=' && !st.equals && !st.single && !st.double
    ensures Step(s, i, st) == Go(st.(equals := true, c1 := '=', c2 := st.c1))
  {
  }

  /** The state is that between two attributes. */
  predicate Calm(st: State, start: nat, nameR: int) {
    st == InStartTag(start, nameR, st.c1, st.c2) && st.c1 != '='
  }

  lemma AttrRun(s: string, i: nat, start: nat, nameR: int, st: State, a: Attr) returns (st': State)
    requires TextAt(s, i, AttrText(a)) && AttrOk(a) && Calm(st, start, nameR)
    ensures Run(s, i, start, st) == Run(s, i + |AttrText(a)|, start, st')
    ensures Calm(st', start, nameR) && st'.c1 == a.quote
  {
    hide Run;
    var w := a.space + a.name + a.before;
    AttrPieces(s, i, a);
    NeutralName(a);
    var st1 := NeutralRun(s, i, start, st, w);
    var j := i + |w|;
    EqualsStep(s, j, st1);
    var st2 := st1.(equals := true, c1 := '=', c2 := st1.c1);
    StepTo(s, j, start, st1, st2);
    var st3 := NeutralRun(s, j + 1, start, st2, a.after);
    var k := j + 1 + |a.after|;
    QuoteStep(s, k, st3, a.quote);
    var st4 := Step(s, k, st3).st;
    StepTo(s, k, start, st3, st4);
    var st5 := QuotedRun(s, k + 1, start, st4, a.quote, a.value);
    var m := k + 1 + |a.value|;
    QuoteStep(s, m, st5, a.quote);
    st' := Step(s, m, st5).st;
    StepTo(s, m, start, st5, st');
  }

  lemma NeutralName(a: Attr)
    requires AttrOk(a)
    ensures var w := a.space + a.name + a.before;
      w != "" && w[|w| - 1] != '=' && forall k :: 0 <= k < |w| ==> Neutral(w[k])
    ensures forall k :: 0 <= k < |a.after| ==> Neutral(a.after[k]) && IsWhitespace(a.after[k])
  {
  }

  lemma AttrPieces(s: string, i: nat, a: Attr)
    requires TextAt(s, i, AttrText(a))
    ensures var w := a.space + a.name + a.before;
      var j := i + |w|;
      var k := j + 1 + |a.after|;
      TextAt(s, i, w) && j < |s| && s[j] == '=' && TextAt(s, j + 1, a.after) && k < |s| && s[k] == a.quote &&
      TextAt(s, k + 1, a.value) && k + 1 + |a.value| < |s| && s[k + 1 + |a.value|] == a.quote &&
      k + 2 + |a.value| == i + |AttrText(a)|
  {
    hide TextAt, AttrText;
    AttrLength(a);
    var w := a.space + a.name + a.before;
    var rest := a.after + ([a.quote] + (a.value + [a.quote]));
    AttrJoin(w, a.after, [a.quote], a.value);
    TextSplit(s, i, w, "=" + rest);
    TextSplit(s, i + |w|, "=", rest);
    CharsAt(s, i + |w|, "=", 0);
    TextSplit(s, i + |w| + 1, a.after, [a.quote] + (a.value + [a.quote]));
    QuotePieces(s, i + |w| + 1 + |a.after|, a.quote, a.value);
    InText(s, i + |w|, "=");
  }

  lemma AttrLength(a: Attr)
    ensures AttrText(a) == (a.space + a.name + a.before) + "=" + a.after + [a.quote] + a.value + [a.quote]
    ensures |AttrText(a)| == |a.space + a.name + a.before| + 3 + |a.after| + |a.value|
  {
  }

  lemma QuotePieces(s: string, k: nat, q: char, v: string)
    requires TextAt(s, k, [q] + (v + [q]))
    ensures k < |s| && s[k] == q && TextAt(s, k + 1, v) && k + 1 + |v| < |s| && s[k + 1 + |v|] == q
  {
    TextSplit(s, k, [q], v + [q]);
    CharsAt(s, k, [q], 0);
    TextSplit(s, k + 1, v, [q]);
    CharsAt(s, k + 1 + |v|, [q], 0);
  }

  lemma InText(s: string, i: nat, t: string)
    requires TextAt(s, i, t)
    ensures i + |t| <= |s|
  {
  }

  lemma AttrJoin(w: string, after: string, q: string, v: string)
    ensures w + "=" + after + q + v + q == w + ("=" + (after + (q + (v + q))))
  {
  }

  lemma {:induction false} AttrsRun(s: string, i: nat, start: nat, nameR: int, st: State,
    attrs: seq<Attr>)
    returns (st': State)
    requires TextAt(s, i, AttrsText(attrs)) && AttrsOk(attrs) && Calm(st, start, nameR) && st.c1 != '/'
    ensures Run(s, i, start, st) == Run(s, i + |AttrsText(attrs)|, start, st')
    ensures Calm(st', start, nameR) && st'.c1 != '/'
    decreases |attrs|
  {
    hide Run, AttrText, Calm;
    if attrs == [] {
      st' := st;
    } else {
      TextSplit(s, i, AttrText(attrs[0]), AttrsText(attrs[1..]));
      var mid := AttrRun(s, i, start, nameR, st, attrs[0]);
      st' := AttrsRun(s, i + |AttrText(attrs[0])|, start, nameR, mid, attrs[1..]);
    }
  }

  lemma {:induction false} NameRun(s: string, i: nat, start: nat, st: State, w: string)
    requires TextAt(s, i, w) && st.name != 0 && forall k :: 0 <= k < |w| ==> !EndsTagName(w[k]) && w[k] != '\0'
    ensures Run(s, i, start, st) == Run(s, i + |w|, start, st)
    decreases |w|
  {
    hide Run;
    if w != "" {
      TextSplit(s, i, [w[0]], w[1..]) by { assert w == [w[0]] + w[1..]; }
      CharsAt(s, i, w, 0);
      StepTo(s, i, start, st, st);
      NameRun(s, i + 1, start, st, w[1..]);
    }
  }

  /** Reading the name is over. */
  lemma NameEnds(s: string, i: nat, start: nat, st: State)
    requires i < |s| && st.name != 0 && EndsTagName(s[i])
    ensures Run(s, i, start, st) == Run(s, i, start, NameRead(i, st))
  {
  }

  lemma TagCloses(s: string, i: nat, start: nat, nameR: int, st: State, empty: bool)
    requires i < |s| && s[i] == '>' && st == InStartTag(start, nameR, st.c1, st.c2) && empty == (st.c1 == '/')
    ensures Run(s, i, start, st) == Node(ELEMENT, start, i + 1, empty, start + 1, nameR)
  {
  }

  lemma NameChars(name: string)
    requires IsName(name)
    ensures name != "" && StartsTagName(name[0]) && name[0] != '\0'
    ensures forall k :: 0 <= k < |name| ==> !EndsTagName(name[k]) && name[k] != '\0'
  {
  }

  /** The name of a start tag. */
  lemma TagOpens(s: string, i: nat, l: int, r: int, name: string)
    requires TextAt(s, i, "<" + name) && IsName(name) && i + 1 + |name| < |s| && EndsTagName(s[i + 1 + |name|])
    ensures NodeAt(s, i, l, r) == Run(s, i + 1 + |name|, i, InStartTag(i, i + |name|, '\0', '\0'))
  {
    hide Run, TextAt, IsName;
    NameChars(name);
    TextSplit(s, i, "<", name);
    TextSplit(s, i + 1, [name[0]], name[1..]) by { assert name == [name[0]] + name[1..]; }
    CharsAt(s, i, "<", 0);
    CharsAt(s, i + 1, name, 0);
    InText(s, i + 1, name);
    var st0 := Initial(l, r);
    var st1 := st0.(phase := OpenTag);
    var st2 := st1.(kind := ELEMENT, find := TagEnd, name := i + 1);
    StepTo(s, i, i, st0, st1);
    StepTo(s, i + 1, i, st1, st2);
    NameRun(s, i + 2, i, st2, name[1..]);
    NameEnds(s, i + 1 + |name|, i, st2);
  }

  lemma TagParts(t: StartTag)
    ensures TagText(t) == ("<" + t.name) + (AttrsText(t.attrs) + (t.space + if t.empty then "/>" else ">"))
  {
  }

  lemma FirstBehindName(t: StartTag)
    requires TagOk(t)
    ensures var rest := AttrsText(t.attrs) + (t.space + if t.empty then "/>" else ">");
      rest != "" && EndsTagName(rest[0])
  {
    if t.attrs != [] {
      assert AttrText(t.attrs[0])[0] == t.attrs[0].space[0];
    } else if t.space != "" {
      assert (t.space + if t.empty then "/>" else ">")[0] == t.space[0];
    }
  }

  /** A well-formed start tag is one node, wherever it stands. */
  lemma StartTagNode(s: string, i: nat, l: int, r: int, t: StartTag)
    requires TagOk(t) && TextAt(s, i, TagText(t))
    ensures NodeAt(s, i, l, r) == Node(ELEMENT, i, i + |TagText(t)|, t.empty, i + 1, i + |t.name|)
  {
    hide Run, NodeAt, AttrsText, TagText, TextAt, Calm, EndsTagName;
    var tail := t.space + if t.empty then "/>" else ">";
    TagParts(t);
    FirstBehindName(t);
    TextSplit(s, i, "<" + t.name, AttrsText(t.attrs) + tail);
    CharsAt(s, i + 1 + |t.name|, AttrsText(t.attrs) + tail, 0);
    InText(s, i + 1 + |t.name|, AttrsText(t.attrs) + tail);
    TagOpens(s, i, l, r, t.name);
    TextSplit(s, i + 1 + |t.name|, AttrsText(t.attrs), tail);
    CalmAtFirst(i, i + |t.name|);
    var st := AttrsRun(s, i + 1 + |t.name|, i, i + |t.name|, InStartTag(i, i + |t.name|, '\0', '\0'), t.attrs);
    TailNode(s, i + 1 + |t.name| + |AttrsText(t.attrs)|, i, i + |t.name|, st, t.space, t.empty);
  }

  lemma CalmAtFirst(start: nat, nameR: int)
    ensures var st := InStartTag(start, nameR, '\0', '\0'); Calm(st, start, nameR) && st.c1 != '/'
  {
  }

  lemma TailNode(s: string, i: nat, start: nat, nameR: int, st: State, space: string, empty: bool)
    requires Calm(st, start, nameR) && st.c1 != '/' && IsSpace(space) &&
      TextAt(s, i, space + if empty then "/>" else ">")
    ensures Run(s, i, start, st) == Node(ELEMENT, start, i + |space| + if empty then 2 else 1, empty, start + 1, nameR)
  {
    hide Run;
    var sign := if empty then "/>" else ">";
    TextSplit(s, i, space, sign);
    var st1 := NeutralRun(s, i, start, st, space);
    var j := i + |space|;
    CharsAt(s, j, sign, 0);
    if empty {
      CharsAt(s, j, sign, 1);
      NeutralStep(s, j, start, st1);
      TagCloses(s, j + 1, start, nameR, st1.(c1 := s[j], c2 := st1.c1), true);
    } else {
      TagCloses(s, j, start, nameR, st1, false);
    }
  }

  // ------------------------------------------------------------------------------- end tags

  function InEndTag(start: nat, nameR: int): State {
    Initial(start + 2, nameR).(phase := OpenTag, kind := END_TAG, find := TagEnd)
  }

  lemma {:induction false} EndTagTail(s: string, i: nat, start: nat, nameR: int, space: string)
    requires TextAt(s, i, space + ">") && IsSpace(space)
    ensures Run(s, i, start, InEndTag(start, nameR)) == Node(END_TAG, start, i + |space| + 1, false, start + 2, nameR)
    decreases |space|
  {
    CharsAt(s, i, space + ">", 0);
    if space != "" {
      hide Run;
      TextSplit(s, i, [space[0]], space[1..] + ">") by { assert space + ">" == [space[0]] + (space[1..] + ">"); }
      StepTo(s, i, start, InEndTag(start, nameR), InEndTag(start, nameR));
      EndTagTail(s, i + 1, start, nameR, space[1..]);
    }
  }

  /** An end tag is one node, wherever it stands. */
  lemma EndTagNode(s: string, i: nat, l: int, r: int, name: string, space: string)
    requires IsName(name) && IsSpace(space) && TextAt(s, i, EndTag(name, space))
    ensures NodeAt(s, i, l, r) == Node(END_TAG, i, i + |EndTag(name, space)|, false, i + 2, i + 1 + |name|)
  {
    hide Run, TextAt, EndTag, IsName;
    EndTagParts(name, space);
    InText(s, i, EndTag(name, space));
    TextSplit(s, i, "</", name + (space + ">"));
    TextSplit(s, i + 2, name, space + ">");
    CharsAt(s, i, "</", 0);
    CharsAt(s, i, "</", 1);
    CharsAt(s, i + 2 + |name|, space + ">", 0);
    NameChars(name);
    var st0 := Initial(l, r);
    var st1 := st0.(phase := OpenTag);
    var st2 := st1.(kind := END_TAG, find := TagEnd, name := i + 2);
    StepTo(s, i, i, st0, st1);
    StepTo(s, i + 1, i, st1, st2);
    NameRun(s, i + 2, i, st2, name);
    NameEnds(s, i + 2 + |name|, i, st2);
    EndTagTail(s, i + 2 + |name|, i, i + 1 + |name|, space);
  }

  lemma EndTagParts(name: string, space: string)
    ensures EndTag(name, space) == "</" + (name + (space + ">"))
    ensures EndsTagName((space + ">")[0]) || space != ""
  {
  }
}
