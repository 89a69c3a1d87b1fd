/** Attributes of a start tag. */
module Attribs {
  // The scan over its tokens, and what it finds in a well-formed tag.

  import opened Escape
  import opened Tags
  import opened DocText

  predicate EndsAttribName(c: char) { IsWhitespace(c) || c == '=' || c == '>' || c == '/' || c == '?' }

  predicate EndsUnquoted(c: char) { IsWhitespace(c) || c == '>' }

  predicate EndsPathWord(c: char) { c == ' ' || c == '=' || c == '/' || c == '[' || c == ']' }

  /** The name szName matches the token tok, up to the end of a path word. */
  predicate Matches(tok: string, szName: string) {
    |tok| <= |szName| && szName[..|tok|] == tok && (|szName| == |tok| || EndsPathWord(szName[|tok|]))
  }

  predicate IsQuote(c: char) { c == '\"' || c == '\'' }

  function SkipSpace(s: string, i: nat): (j: nat)
    ensures i <= j && (i <= |s| ==> j <= |s|)
    decreases |s| - i
  {
    if IsWhitespace(CharAt(s, i)) then SkipSpace(s, i + 1) else i
  }

  /** Where the quoted text from i on ends. */
  function QuoteEnd(s: string, i: nat, q: char): (j: nat)
    ensures i <= j && (i <= |s| ==> j <= |s|)
    decreases |s| - i
  {
    if CharAt(s, i) == '\0' || CharAt(s, i) == q then i else QuoteEnd(s, i + 1, q)
  }

  /** Where the unquoted word from i on ends. */
  function WordEnd(s: string, i: nat, value: bool): (j: nat)
    ensures i <= j && (i <= |s| ==> j <= |s|)
    decreases |s| - i
  {
    var c := CharAt(s, i);
    if c == '\0' || (if value then EndsUnquoted(c) else EndsAttribName(c)) then i else WordEnd(s, i + 1, value)
  }

  /** A token of a tag: its text is s[l..r], reading goes on at next. */
  datatype Token = Token(l: nat, r: nat, quoted: bool, next: nat)

  function TokenAt(s: string, i: nat, value: bool): (t: Token)
    requires i < |s|
    ensures i <= t.l <= t.r <= t.next <= |s| && i < t.next && (!t.quoted ==> t.l == i < t.r)
  {
    if IsQuote(s[i]) then
      var r := QuoteEnd(s, i + 1, s[i]);
      Token(i + 1, r, true, if CharAt(s, r) != '\0' then r + 1 else r)
    else
      var r := WordEnd(s, i, value);
      if r == i then Token(i, i + 1, false, i + 1) else Token(i, r, false, r)
  }

  /** The value found, or where a new attribute goes. */
  datatype AttribPos = At(l: nat, r: nat, quoted: bool) | Absent(insertAt: nat)

  /** The attribute name found so far, if any. */
  datatype NameFound = NoName | Name(l: nat, r: nat)

  function Outcome(found: NameFound, afterEqual: bool, l: nat, r: nat, quoted: bool, next: nat): AttribPos {
    if found.NoName? then Absent(next)
    else if afterEqual then At(l, r, quoted)
    else At(found.l, found.r, quoted)
  }

  /**
    The scan from i on. nAttrib is -1 until the tag name has been read; quoted tells of the
    token before.
   */
  function Search(s: string, i: nat, name: string, nAttrib: int, found: NameFound, afterEqual: bool,
    quoted: bool): AttribPos
    decreases |s| - i
  {
    var j := SkipSpace(s, i);
    if CharAt(s, j) == '\0' then Outcome(found, afterEqual, j, j, quoted, j)
    else
      var t := TokenAt(s, j, afterEqual);
      if !afterEqual && !t.quoted then
        var c := s[t.l];
        if c == '=' then Search(s, t.next, name, nAttrib, found, true, false)
        else if c == '>' || c == '/' || c == '?' then Outcome(found, false, t.l, t.r, false, i)
        else if found.Name? then Outcome(found, false, t.l, t.r, false, t.next)
        else if nAttrib != -1 && Matches(s[t.l..t.r], name) then
          Search(s, t.next, name, nAttrib + 1, Name(t.l, t.r), false, false)
        else Search(s, t.next, name, nAttrib + 1, NoName, false, false)
      else if found.Name? then Outcome(found, afterEqual, t.l, t.r, t.quoted, t.next)
      else Search(s, t.next, name, nAttrib, NoName, false, t.quoted)
  }

  /** What FindAttrib finds in the tag whose name begins at i. */
  function Lookup(s: string, i: nat, name: string): AttribPos { Search(s, i, name, -1, NoName, false, false) }

  // -------------------------------------------------------------- tokens of well-formed tags

  lemma {:induction false} SkipsSpace(s: string, i: nat, w: string)
    requires TextAt(s, i, w) && IsSpace(w) && !IsWhitespace(CharAt(s, i + |w|))
    ensures SkipSpace(s, i) == i + |w|
    decreases |w|
  {
    if w != "" {
      CharsAt(s, i, w, 0);
      assert s[i + 1..i + 1 + |w[1..]|] == s[i..i + |w|][1..];
      SkipsSpace(s, i + 1, w[1..]);
    }
  }

  lemma {:induction false} WordEnds(s: string, i: nat, w: string)
    requires TextAt(s, i, w) && EndsAttribName(CharAt(s, i + |w|))
    requires forall k :: 0 <= k < |w| ==> !EndsAttribName(w[k]) && w[k] != '\0'
    ensures WordEnd(s, i, false) == i + |w|
    decreases |w|
  {
    if w != "" {
      CharsAt(s, i, w, 0);
      assert s[i + 1..i + 1 + |w[1..]|] == s[i..i + |w|][1..];
      WordEnds(s, i + 1, w[1..]);
    }
  }

  lemma {:induction false} QuoteEnds(s: string, i: nat, w: string, q: char)
    requires TextAt(s, i, w) && CharAt(s, i + |w|) == q
    requires forall k :: 0 <= k < |w| ==> w[k] != q && w[k] != '\0'
    ensures QuoteEnd(s, i, q) == i + |w|
    decreases |w|
  {
    if w != "" {
      CharsAt(s, i, w, 0);
      assert s[i + 1..i + 1 + |w[1..]|] == s[i..i + |w|][1..];
      QuoteEnds(s, i + 1, w[1..], q);
    }
  }

  /** A name is one token, whatever whitespace is in front of it. */
  lemma NameToken(s: string, i: nat, w: string, name: string)
    requires TextAt(s, i, w + name) && IsSpace(w) && IsName(name) && EndsAttribName(CharAt(s, i + |w| + |name|))
    ensures SkipSpace(s, i) == i + |w| && i + |w| < |s| && CharAt(s, i + |w|) != '\0'
    ensures TokenAt(s, i + |w|, false) == Token(i + |w|, i + |w| + |name|, false, i + |w| + |name|)
    ensures s[i + |w|..i + |w| + |name|] == name && s[i + |w|] == name[0]
  {
    TextSplit(s, i, w, name);
    CharsAt(s, i + |w|, name, 0);
    SkipsSpace(s, i, w);
    WordEnds(s, i + |w|, name);
  }

  lemma SignToken(s: string, i: nat, w: string, c: char)
    requires TextAt(s, i, w + [c]) && IsSpace(w) && (c == '=' || c == '>' || c == '/')
    ensures SkipSpace(s, i) == i + |w| && i + |w| < |s| && CharAt(s, i + |w|) != '\0'
    ensures TokenAt(s, i + |w|, false) == Token(i + |w|, i + |w| + 1, false, i + |w| + 1) && s[i + |w|] == c
  {
    TextSplit(s, i, w, [c]);
    CharsAt(s, i + |w|, [c], 0);
    SkipsSpace(s, i, w);
  }

  lemma QuotedToken(s: string, i: nat, w: string, q: char, v: string)
    requires TextAt(s, i, w + [q] + v + [q]) && IsSpace(w) && IsQuote(q)
    requires forall k :: 0 <= k < |v| ==> v[k] != q && v[k] != '\0'
    ensures var j := i + |w|;
      SkipSpace(s, i) == j && j < |s| && CharAt(s, j) != '\0' &&
      TokenAt(s, j, true) == Token(j + 1, j + 1 + |v|, true, j + 2 + |v|)
  {
    hide TextAt, SkipSpace, QuoteEnd, IsSpace;
    TextSplit(s, i, w + [q] + v, [q]);
    TextSplit(s, i, w + [q], v);
    TextSplit(s, i, w, [q]);
    CharsAt(s, i + |w|, [q], 0);
    CharsAt(s, i + |w| + 1 + |v|, [q], 0);
    SkipsSpace(s, i, w);
    QuoteEnds(s, i + |w| + 1, v, q);
  }

  // --------------------------------------------------------------- what is found in the tag

  /** A name that no path word ends in. */
  predicate IsPlainName(s: string) { IsName(s) && forall k :: 0 <= k < |s| ==> !EndsPathWord(s[k]) }

  lemma MatchIsEqual(tok: string, name: string)
    requires IsPlainName(name)
    ensures Matches(tok, name) <==> tok == name
  {
    if |tok| == |name| { assert name[..|tok|] == name; }
  }

  /** A name in a path is matched by the word it begins with. */
  lemma MatchesWord(tok: string, name: string, k: nat)
    requires k <= |name| && (k < |name| ==> IsPathSign(name[k]))
    requires forall j :: 0 <= j < k ==> !IsPathSign(name[j])
    requires forall j :: 0 <= j < |tok| ==> !IsPathSign(tok[j])
    ensures Matches(tok, name) <==> tok == name[..k]
  {
    if Matches(tok, name) {
      SamePrefix(tok, name);
    }
  }

  predicate IsPathSign(c: char) { c in " =/[]" }

  lemma SamePrefix(tok: string, name: string)
    requires |tok| <= |name| && name[..|tok|] == tok
    ensures forall j :: 0 <= j < |tok| ==> tok[j] == name[j]
  {
  }

  /** The first attribute with that name; |attrs| if there is none. */
  function FirstAttr(attrs: seq<Attr>, name: string): (k: nat)
    ensures k <= |attrs| && (k < |attrs| ==> attrs[k].name == name)
    ensures forall j :: 0 <= j < k ==> attrs[j].name != name
  {
    if attrs == [] || attrs[0].name == name then 0 else 1 + FirstAttr(attrs[1..], name)
  }

  predicate AttrsOk(attrs: seq<Attr>) { forall k :: 0 <= k < |attrs| ==> AttrOk(attrs[k]) }

  /** An attribute behind its name. */
  function AttrValuePart(a: Attr): string { a.before + ("=" + (a.after + [a.quote] + a.value + [a.quote])) }

  /** Where the value of attribute k begins, counted from the first attribute. */
  function ValueOffset(attrs: seq<Attr>, k: nat): nat
    requires k < |attrs|
  {
    if k == 0 then |attrs[0].space + attrs[0].name + attrs[0].before| + 1 + |attrs[0].after| + 1
    else |AttrText(attrs[0])| + ValueOffset(attrs[1..], k - 1)
  }

  /** What comes behind the attributes. */
  function TagTail(space: string, empty: bool): string { space + if empty then "/>" else ">" }

  lemma StepEqual(s: string, i: nat, j: nat, name: string, nAttrib: int, found: NameFound, quoted: bool)
    requires SkipSpace(s, i) == j < |s| && CharAt(s, j) != '\0'
    requires TokenAt(s, j, false) == Token(j, j + 1, false, j + 1) && s[j] == '='
    ensures Search(s, i, name, nAttrib, found, false, quoted) == Search(s, j + 1, name, nAttrib, found, true, false)
  {
  }

  lemma StepQuoted(s: string, i: nat, j: nat, t: Token, name: string, nAttrib: int, found: NameFound, quoted: bool)
    requires SkipSpace(s, i) == j < |s| && CharAt(s, j) != '\0' && TokenAt(s, j, true) == t && t.quoted
    ensures Search(s, i, name, nAttrib, found, true, quoted) ==
      if found.Name? then At(t.l, t.r, true) else Search(s, t.next, name, nAttrib, NoName, false, true)
  {
  }

  lemma StepName(s: string, i: nat, j: nat, r: nat, name: string, nAttrib: int, quoted: bool)
    requires SkipSpace(s, i) == j < |s| && CharAt(s, j) != '\0' && TokenAt(s, j, false) == Token(j, r, false, r)
    requires s[j] != '=' && s[j] != '>' && s[j] != '/' && s[j] != '?'
    ensures Search(s, i, name, nAttrib, NoName, false, quoted) ==
      Search(s, r, name, nAttrib + 1,
        if nAttrib != -1 && Matches(s[j..r], name) then Name(j, r) else NoName, false, false)
  {
  }

  /** The scan of one attribute, from the end of its name on. */
  lemma ReadsValue(s: string, i: nat, a: Attr, name: string, nAttrib: int, found: NameFound)
    requires AttrOk(a) && TextAt(s, i, AttrValuePart(a))
    ensures var j := i + |a.before| + 1 + |a.after| + 1;
      Search(s, i, name, nAttrib, found, false, false) ==
        if found.Name? then At(j, j + |a.value|, true)
        else Search(s, j + |a.value| + 1, name, nAttrib, NoName, false, true)
  {
    hide Search, TokenAt, SkipSpace;
    var v := a.after + [a.quote] + a.value + [a.quote];
    var m := i + |a.before|;
    assert a.before + ("=" + v) == (a.before + "=") + v;
    TextSplit(s, i, a.before + "=", v);
    SignToken(s, i, a.before, '=');
    QuotedToken(s, m + 1, a.after, a.quote, a.value);
    StepEqual(s, i, m, name, nAttrib, found, false);
    StepQuoted(s, m + 1, m + 1 + |a.after|, TokenAt(s, m + 1 + |a.after|, true), name, nAttrib, found, false);
  }

  /** Before a name is found nothing depends on whether the token before was quoted. */
  lemma QuotedBefore(s: string, i: nat, name: string, nAttrib: int, quoted: bool)
    ensures Search(s, i, name, nAttrib, NoName, false, quoted) == Search(s, i, name, nAttrib, NoName, false, false)
  {
  }

  lemma AttrParts(a: Attr, r: string)
    ensures AttrText(a) + r == (a.space + a.name) + (AttrValuePart(a) + r)
    ensures |AttrText(a)| == |a.space + a.name| + |a.before| + 1 + |a.after| + 1 + |a.value| + 1
  {
  }

  /** The scan finds the first attribute with the name, or the end of the attributes. */
  lemma {:induction false} SearchAttrs(s: string, i: nat, attrs: seq<Attr>, space: string, empty: bool, name: string,
    nAttrib: int)
    requires AttrsOk(attrs) && IsSpace(space) && IsPlainName(name) && nAttrib >= 0
    requires TextAt(s, i, AttrsText(attrs) + TagTail(space, empty))
    ensures var k := FirstAttr(attrs, name);
      Search(s, i, name, nAttrib, NoName, false, false) ==
        if k < |attrs| then At(i + ValueOffset(attrs, k), i + ValueOffset(attrs, k) + |attrs[k].value|, true)
        else Absent(i + |AttrsText(attrs)|)
    decreases |attrs|
  {
    hide AttrsText, AttrText, Search, TokenAt, SkipSpace;
    if attrs == [] {
      SearchEnd(s, i, space, empty, name, nAttrib);
    } else {
      SearchOne(s, i, attrs, TagTail(space, empty), name, nAttrib);
      if attrs[0].name != name {
        FirstSkips(attrs, name);
        SearchAttrs(s, i + |AttrText(attrs[0])|, attrs[1..], space, empty, name, nAttrib + 1);
      }
    }
  }

  lemma FirstSkips(attrs: seq<Attr>, name: string)
    requires attrs != [] && attrs[0].name != name
    ensures FirstAttr(attrs, name) == 1 + FirstAttr(attrs[1..], name)
    ensures AttrsText(attrs) == AttrText(attrs[0]) + AttrsText(attrs[1..])
  {
  }

  lemma SearchEnd(s: string, i: nat, space: string, empty: bool, name: string, nAttrib: int)
    requires IsSpace(space) && TextAt(s, i, AttrsText([]) + TagTail(space, empty))
    ensures Search(s, i, name, nAttrib, NoName, false, false) == Absent(i) && |AttrsText([])| == 0
  {
    var c := if empty then '/' else '>';
    assert AttrsText([]) + TagTail(space, empty) == (space + [c]) + if empty then ">" else "";
    TextSplit(s, i, space + [c], if empty then ">" else "");
    SignToken(s, i, space, c);
  }

  /** The scan of one attribute. */
  lemma SearchOne(s: string, i: nat, attrs: seq<Attr>, tail: string, name: string, nAttrib: int)
    requires AttrsOk(attrs) && attrs != [] && IsPlainName(name) && nAttrib >= 0
    requires TextAt(s, i, AttrsText(attrs) + tail)
    ensures Search(s, i, name, nAttrib, NoName, false, false) ==
      if attrs[0].name == name then At(i + ValueOffset(attrs, 0), i + ValueOffset(attrs, 0) + |attrs[0].value|, true)
      else Search(s, i + |AttrText(attrs[0])|, name, nAttrib + 1, NoName, false, false)
    ensures TextAt(s, i + |AttrText(attrs[0])|, AttrsText(attrs[1..]) + tail)
  {
    hide Search, TokenAt, SkipSpace, Matches, AttrText, AttrsText, TextAt, IsPlainName, AttrOk;
    var a, r := attrs[0], AttrsText(attrs[1..]) + tail;
    var w, v := a.space + a.name, AttrValuePart(a);
    AttrsSplit(attrs, tail);
    TextSplit(s, i, AttrText(a), r);
    AttrParts(a, r);
    TextSplit(s, i, w, v + r);
    TextSplit(s, i + |w|, v, r);
    FirstOfValue(s, i + |w|, a);
    NameToken(s, i, a.space, a.name);
    var j := i + |a.space|;
    StepName(s, i, j, j + |a.name|, name, nAttrib, false);
    MatchIsEqual(a.name, name);
    ReadsValue(s, i + |w|, a, name, nAttrib + 1, if a.name == name then Name(j, j + |a.name|) else NoName);
    QuotedBefore(s, i + |AttrText(a)|, name, nAttrib + 1, true);
  }

  lemma AttrsSplit(attrs: seq<Attr>, tail: string)
    requires attrs != []
    ensures AttrsText(attrs) + tail == AttrText(attrs[0]) + (AttrsText(attrs[1..]) + tail)
  {
  }

  lemma FirstOfValue(s: string, i: nat, a: Attr)
    requires AttrOk(a) && TextAt(s, i, AttrValuePart(a))
    ensures EndsAttribName(CharAt(s, i)) && a.name != "" && IsSpace(a.space) && IsName(a.name)
    ensures a.name[0] != '=' && a.name[0] != '>' && a.name[0] != '/' && a.name[0] != '?'
  {
    var v := AttrValuePart(a);
    CharsAt(s, i, v, 0);
    if a.before != "" { assert v[0] == a.before[0]; } else { assert v[0] == '='; }
  }

  /** In a well-formed start tag the first attribute with the name is found, or the place behind the last one. */
  lemma LookupInTag(s: string, i: nat, t: StartTag, name: string)
    requires TagOk(t) && IsPlainName(name) && TextAt(s, i, TagText(t))
    ensures var k := FirstAttr(t.attrs, name);
      var o := i + 1 + |t.name|;
      Lookup(s, i + 1, name) ==
        if k < |t.attrs| then At(o + ValueOffset(t.attrs, k), o + ValueOffset(t.attrs, k) + |t.attrs[k].value|, true)
        else Absent(o + |AttrsText(t.attrs)|)
  {
    hide Search, AttrText, AttrsText, FirstAttr, ValueOffset, TagTail, AttrOk, TagText;
    LookupBehindName(s, i, t, name);
    SearchAttrs(s, i + 1 + |t.name|, t.attrs, t.space, t.empty, name, 0);
  }

  /** The first token of a start tag is its name. */
  lemma LookupBehindName(s: string, i: nat, t: StartTag, name: string)
    requires TagOk(t) && TextAt(s, i, TagText(t))
    ensures TextAt(s, i + 1 + |t.name|, AttrsText(t.attrs) + TagTail(t.space, t.empty))
    ensures Lookup(s, i + 1, name) == Search(s, i + 1 + |t.name|, name, 0, NoName, false, false)
  {
    hide Search, TokenAt, SkipSpace, Matches, AttrText, AttrsText, TagTail, AttrOk, TagText, IsName, EndsAttribName;
    NameOpens(t);
    var rest := AttrsText(t.attrs) + TagTail(t.space, t.empty);
    TagPieces(t);
    TextSplit(s, i, "<", t.name + rest);
    TextSplit(s, i + 1, t.name, rest);
    RestEndsName(t, rest);
    CharsAt(s, i + 1 + |t.name|, rest, 0);
    assert "" + t.name == t.name;
    NameToken(s, i + 1, "", t.name);
    StepName(s, i + 1, i + 1, i + 1 + |t.name|, name, -1, false);
  }

  lemma NameOpens(t: StartTag)
    requires TagOk(t)
    ensures IsName(t.name) && t.name != ""
  {
  }

  lemma TagPieces(t: StartTag)
    ensures TagText(t) == "<" + (t.name + (AttrsText(t.attrs) + TagTail(t.space, t.empty)))
  {
  }

  lemma RestEndsName(t: StartTag, rest: string)
    requires TagOk(t) && rest == AttrsText(t.attrs) + TagTail(t.space, t.empty)
    ensures rest != "" && EndsAttribName(rest[0])
    ensures t.name[0] != '=' && t.name[0] != '>' && t.name[0] != '/' && t.name[0] != '?'
  {
    if t.attrs != [] {
      assert rest[0] == t.attrs[0].space[0];
    } else if t.space != "" {
      assert rest[0] == t.space[0];
    }
  }

  // ------------------------------------------------------------------- setting an attribute

  /** The tag with the attribute set: its value replaced, or a new attribute behind the others. */
  function SetIn(t: StartTag, name: string, value: string): StartTag {
    var k := FirstAttr(t.attrs, name);
    if k < |t.attrs| then t.(attrs := t.attrs[k := t.attrs[k].(quote := '\"', value := value)])
    else t.(attrs := t.attrs + [Attr(" ", name, "", "", '\"', value)])
  }

  function Quoted(value: string): string { "\"" + value + "\"" }

  /** What x_SetAttrib makes of the text s, with a tag whose name begins at i. */
  function SetAttribText(s: string, i: nat, name: string, value: string): string {
    match Lookup(s, i, name)
    case At(l, r, q) =>
      var ll, rr := if q then l - 1 else l, if q then r + 1 else r;
      if 0 <= ll <= rr <= |s| then Splice(s, ll, rr - ll, Quoted(value)) else s
    case Absent(at) => if at <= |s| then Splice(s, at, 0, " " + name + "=" + Quoted(value)) else s
  }

  /** The attributes in front of and behind the quoted value of attribute k. */
  function FrontOf(attrs: seq<Attr>, k: nat): string
    requires k < |attrs|
  {
    if k == 0 then attrs[0].space + attrs[0].name + attrs[0].before + "=" + attrs[0].after
    else AttrText(attrs[0]) + FrontOf(attrs[1..], k - 1)
  }

  function BackOf(attrs: seq<Attr>, k: nat): string
    requires k < |attrs|
  {
    if k == 0 then AttrsText(attrs[1..]) else BackOf(attrs[1..], k - 1)
  }

  lemma {:induction false} AroundValue(attrs: seq<Attr>, k: nat, a: Attr)
    requires k < |attrs| && a == attrs[k].(quote := a.quote, value := a.value)
    ensures AttrsText(attrs[k := a]) == FrontOf(attrs, k) + ([a.quote] + a.value + [a.quote]) + BackOf(attrs, k)
    ensures ValueOffset(attrs, k) == |FrontOf(attrs, k)| + 1
  {
    if k == 0 {
      assert attrs[0 := a][1..] == attrs[1..];
      ValueJoin(a, AttrsText(attrs[1..]));
    } else {
      AroundValue(attrs[1..], k - 1, a);
      assert attrs[k := a][1..] == attrs[1..][k - 1 := a];
      Regroup4(AttrText(attrs[0]), FrontOf(attrs[1..], k - 1), [a.quote] + a.value + [a.quote],
        BackOf(attrs[1..], k - 1));
    }
  }

  lemma ValueJoin(a: Attr, r: string)
    ensures AttrText(a) + r
         == (a.space + a.name + a.before + "=" + a.after) + ([a.quote] + a.value + [a.quote]) + r
  {
  }

  lemma Regroup4(a: string, b: string, c: string, d: string)
    ensures a + (b + c + d) == (a + b) + c + d
  {
  }

  lemma {:induction false} AttrsAppend(attrs: seq<Attr>, a: Attr)
    ensures AttrsText(attrs + [a]) == AttrsText(attrs) + AttrText(a)
  {
    if attrs == [] {
      assert [] + [a] == [a];
      assert AttrText(a) + AttrsText([]) == AttrText(a);
      assert AttrsText([]) + AttrText(a) == AttrText(a);
    } else {
      assert (attrs + [a])[1..] == attrs[1..] + [a];
      AttrsAppend(attrs[1..], a);
      Appended(AttrText(attrs[0]), AttrsText(attrs[1..]), AttrText(a));
    }
  }

  predicate IsInert(s: string) { forall k :: 0 <= k < |s| ==> Inert(s[k], true) }

  lemma SetInOk(t: StartTag, name: string, value: string)
    requires TagOk(t) && IsName(name) && IsInert(value)
    ensures TagOk(SetIn(t, name, value)) && SetIn(t, name, value).empty == t.empty &&
      SetIn(t, name, value).name == t.name
  {
  }

  /** Setting the attribute in the text sets it in the tag, and nothing else in the text. */
  lemma SetsInTag(x: string, t: StartTag, y: string, name: string, value: string)
    requires TagOk(t) && IsPlainName(name)
    ensures SetAttribText(x + TagText(t) + y, |x| + 1, name, value) == x + TagText(SetIn(t, name, value)) + y
  {
    hide Search, AttrsText, AttrText, TagText, TagOk, Splice, IsPlainName, ValueOffset, FrontOf, BackOf;
    var s, k := x + TagText(t) + y, FirstAttr(t.attrs, name);
    TextInside(x, TagText(t), y);
    LookupInTag(s, |x|, t, name);
    if k < |t.attrs| {
      var a := t.attrs[k];
      AroundValue(t.attrs, k, a);
      AroundValue(t.attrs, k, a.(quote := '\"', value := value));
      assert t.attrs[k := a] == t.attrs;
      ReplaceInTag(x, t, y, FrontOf(t.attrs, k), [a.quote] + a.value + [a.quote], BackOf(t.attrs, k), Quoted(value),
        SetIn(t, name, value));
    } else {
      var a := Attr(" ", name, "", "", '\"', value);
      AttrsAppend(t.attrs, a);
      NewAttrText(a);
      InsertInTag(x, t, y, AttrText(a), SetIn(t, name, value));
    }
  }

  lemma TextInside(x: string, t: string, y: string)
    ensures TextAt(x + t + y, |x|, t)
  {
  }

  lemma NewAttrText(a: Attr)
    requires a.space == " " && a.before == a.after == "" && a.quote == '\"'
    ensures AttrText(a) == " " + a.name + "=" + Quoted(a.value)
  {
  }

  lemma ReplaceInTag(x: string, t: StartTag, y: string, f: string, v: string, b: string, v': string, t': StartTag)
    requires AttrsText(t.attrs) == f + v + b && AttrsText(t'.attrs) == f + v' + b && t' == t.(attrs := t'.attrs)
    ensures |x| + 1 + |t.name| + |f| + |v| <= |x + TagText(t) + y|
    ensures Splice(x + TagText(t) + y, |x| + 1 + |t.name| + |f|, |v|, v') == x + TagText(t') + y
  {
    hide AttrsText;
    var w := TagTail(t.space, t.empty);
    TagPieces(t);
    TagPieces(t');
    Parts3(x, t.name, f, v, b, w, y);
    Parts3(x, t.name, f, v', b, w, y);
    SpliceParts(x + "<" + t.name + f, v, b + w + y, v');
  }

  lemma Parts3(x: string, n: string, f: string, v: string, b: string, w: string, y: string)
    ensures x + ("<" + (n + ((f + v + b) + w))) + y == (x + "<" + n + f) + v + (b + w + y)
  {
  }

  lemma InsertInTag(x: string, t: StartTag, y: string, v: string, t': StartTag)
    requires AttrsText(t'.attrs) == AttrsText(t.attrs) + v && t' == t.(attrs := t'.attrs)
    ensures |x| + 1 + |t.name| + |AttrsText(t.attrs)| <= |x + TagText(t) + y|
    ensures Splice(x + TagText(t) + y, |x| + 1 + |t.name| + |AttrsText(t.attrs)|, 0, v) == x + TagText(t') + y
  {
    hide AttrsText;
    var f := AttrsText(t.attrs);
    assert f + "" + "" == f && f + v + "" == f + v;
    ReplaceInTag(x, t, y, f, "", "", v, t');
  }

  // ------------------------------------------------------------------- reading it back

  /** The value of an attribute as GetAttrib reads it, in the element that starts at i. */
  function ReadAttrib(s: string, i: nat, name: string, table: map<string, int>): string {
    match Lookup(s, i + 1, name)
    case At(l, r, _) => if l <= r <= |s| then Unescaped(s, l, r, table) else ""
    case Absent(_) => ""
  }

  lemma FirstAfterSet(t: StartTag, name: string, value: string)
    ensures var k := FirstAttr(SetIn(t, name, value).attrs, name);
      k < |SetIn(t, name, value).attrs| && SetIn(t, name, value).attrs[k].value == value
  {
    var k, t' := FirstAttr(t.attrs, name), SetIn(t, name, value);
    FirstIs(t'.attrs, name, k);
  }

  lemma {:induction false} FirstIs(attrs: seq<Attr>, name: string, k: nat)
    requires k < |attrs| && attrs[k].name == name && forall j :: 0 <= j < k ==> attrs[j].name != name
    ensures FirstAttr(attrs, name) == k
  {
    if k > 0 { FirstIs(attrs[1..], name, k - 1); }
  }

  /** The text of a value in the tag. */
  lemma ValueAt(s: string, i: nat, t: StartTag, k: nat)
    requires TagOk(t) && TextAt(s, i, TagText(t)) && k < |t.attrs|
    ensures var l := i + 1 + |t.name| + ValueOffset(t.attrs, k);
      l + |t.attrs[k].value| <= |s| && s[l..l + |t.attrs[k].value|] == t.attrs[k].value
  {
    hide AttrsText, AttrText, TagText;
    var a := t.attrs[k];
    AroundValue(t.attrs, k, a);
    assert t.attrs[k := a] == t.attrs;
    TagPieces(t);
    var f, b, w := FrontOf(t.attrs, k), BackOf(t.attrs, k), TagTail(t.space, t.empty);
    Parts4(t.name, f, a.quote, a.value, b, w);
    TextSplit(s, i, "<" + t.name + f + [a.quote], a.value + ([a.quote] + b + w));
    TextSplit(s, i + 1 + |t.name| + |f| + 1, a.value, [a.quote] + b + w);
  }

  lemma Parts4(n: string, f: string, q: char, v: string, b: string, w: string)
    ensures "<" + (n + ((f + ([q] + v + [q]) + b) + w)) == ("<" + n + f + [q]) + (v + ([q] + b + w))
  {
  }

  /** The attribute set is read from the value put in. */
  lemma SetIsRead(s: string, i: nat, t: StartTag, name: string, v: string, table: map<string, int>) returns (l: nat)
    requires TagOk(t) && IsPlainName(name) && IsInert(v) && TextAt(s, i, TagText(SetIn(t, name, v)))
    ensures l + |v| <= |s| && s[l..l + |v|] == v && ReadAttrib(s, i, name, table) == Unescaped(s, l, l + |v|, table)
  {
    hide Search, AttrsText, AttrText, TagText, Unescaped;
    var t' := SetIn(t, name, v);
    SetInOk(t, name, v);
    FirstAfterSet(t, name, v);
    LookupInTag(s, i, t', name);
    var k := FirstAttr(t'.attrs, name);
    ValueAt(s, i, t', k);
    l := i + 1 + |t'.name| + ValueOffset(t'.attrs, k);
  }

  /** A value that was stored escaped reads back as it was. */
  lemma SetThenRead(s: string, i: nat, t: StartTag, name: string, value: string, table: map<string, int>)
    requires TagOk(t) && IsPlainName(name) && HasXmlEntities(table) && IsInert(Escaped(value, 0, true, false))
    requires TextAt(s, i, TagText(SetIn(t, name, Escaped(value, 0, true, false))))
    ensures ReadAttrib(s, i, name, table) == value
  {
    hide ReadAttrib, TagText, Escaped, Unescaped;
    var v := Escaped(value, 0, true, false);
    var l := SetIsRead(s, i, t, name, v, table);
    UnescapeEscaped(value, 0, true, s, l, l + |v|, table);
    assert value[0..] == value;
  }

  /** Every other attribute keeps its value. */
  lemma OthersKept(t: StartTag, name: string, value: string, other: string)
    requires other != name
    ensures var k, k' := FirstAttr(t.attrs, other), FirstAttr(SetIn(t, name, value).attrs, other);
      if k < |t.attrs| then k' == k && SetIn(t, name, value).attrs[k'] == t.attrs[k]
      else k' == |SetIn(t, name, value).attrs|
  {
    var k, t' := FirstAttr(t.attrs, other), SetIn(t, name, value);
    if k < |t.attrs| {
      FirstIs(t'.attrs, other, k);
    }
  }

  /** What is found lies inside the text, and a value inside its quotes. */
  lemma LookupBounds(s: string, i: nat, t: StartTag, name: string)
    requires TagOk(t) && IsPlainName(name) && TextAt(s, i, TagText(t))
    ensures match Lookup(s, i + 1, name) case At(l, r, q) => q && 1 <= l <= r < |s| case Absent(at) => at <= |s|
  {
    hide Search, TagText, AttrsText, AttrText;
    LookupInTag(s, i, t, name);
    var k := FirstAttr(t.attrs, name);
    TagPieces(t);
    if k < |t.attrs| {
      ValueAt(s, i, t, k);
      ValueInTag(t, k);
    }
  }

  lemma ValueInTag(t: StartTag, k: nat)
    requires k < |t.attrs|
    ensures 1 + |t.name| + ValueOffset(t.attrs, k) + |t.attrs[k].value| < |TagText(t)|
  {
    hide AttrsText, AttrText;
    var a := t.attrs[k];
    AroundValue(t.attrs, k, a);
    assert t.attrs[k := a] == t.attrs;
  }
}
