/** Attributes without quotes or without a value. */
module Valueless {
  // FindAttrib takes the name of one without a value for its value, so setting it replaces the name.

  import opened Escape
  import opened Tags
  import opened DocText
  import opened Attribs

  /** An attribute with a value, in quotes or not, or the name of one without. */
  datatype Item =
    | Valued(a: Attr)
    | Unquoted(space: string, name: string, before: string, after: string, word: string)
    | Flag(space: string, flag: string)

  /** A value without quotes. */
  predicate WordOk(w: string) {
    w != "" && !IsQuote(w[0]) && forall k :: 0 <= k < |w| ==> !IsWhitespace(w[k]) && w[k] != '>' && w[k] != '\0'
  }

  predicate ItemOk(m: Item) {
    match m
    case Valued(a) => AttrOk(a)
    case Unquoted(w, n, b, a, v) => w != "" && IsSpace(w) && IsName(n) && IsSpace(b) && IsSpace(a) && WordOk(v)
    case Flag(w, n) => w != "" && IsSpace(w) && IsName(n)
  }

  function ItemName(m: Item): string {
    match m
    case Valued(a) => a.name
    case Unquoted(_, n, _, _, _) => n
    case Flag(_, n) => n
  }

  function ItemText(m: Item): string {
    match m
    case Valued(a) => AttrText(a)
    case Unquoted(w, n, _, _, _) => (w + n) + WordPart(m)
    case Flag(w, n) => w + n
  }

  /** Such an attribute behind its name. */
  function WordPart(m: Item): string
    requires m.Unquoted?
  {
    m.before + ("=" + (m.after + m.word))
  }

  function ItemsText(ms: seq<Item>): string {
    if ms == [] then "" else ItemText(ms[0]) + ItemsText(ms[1..])
  }

  predicate ItemsOk(ms: seq<Item>) { forall k :: 0 <= k < |ms| ==> ItemOk(ms[k]) }

  /** The slash of an empty tag does not belong to a value. */
  predicate Apart(ms: seq<Item>, space: string, empty: bool) {
    ms != [] && ms[|ms| - 1].Unquoted? && empty ==> space != ""
  }

  /** The first attribute with that name; |ms| if there is none. */
  function FirstItem(ms: seq<Item>, name: string): (k: nat)
    ensures k <= |ms| && (k < |ms| ==> ItemName(ms[k]) == name)
    ensures forall j :: 0 <= j < k ==> ItemName(ms[j]) != name
  {
    if ms == [] || ItemName(ms[0]) == name then 0 else 1 + FirstItem(ms[1..], name)
  }

  /** The text of a start tag. */
  function ItemTag(name: string, ms: seq<Item>, space: string, empty: bool): string {
    "<" + (name + (ItemsText(ms) + TagTail(space, empty)))
  }

  /** What is found at the attribute m that begins at i. */
  function FoundIn(m: Item, i: nat): AttribPos {
    match m
    case Valued(a) => At(i + ValueOffset([a], 0), i + ValueOffset([a], 0) + |a.value|, true)
    case Unquoted(_, _, _, _, v) => At(i + WordOffset(m), i + WordOffset(m) + |v|, false)
    case Flag(w, n) => At(i + |w|, i + |w| + |n|, false)
  }

  /** Where the value begins in the attribute. */
  function WordOffset(m: Item): nat
    requires m.Unquoted?
  {
    |m.space| + |m.name| + |m.before| + 1 + |m.after|
  }

  // --------------------------------------------------------------------------- the scan

  /** Behind a name that was found comes no equal sign: the name is taken for the value. */
  lemma NoValue(s: string, i: nat, ms: seq<Item>, space: string, empty: bool, name: string, nAttrib: int, l: nat,
    r: nat)
    requires ItemsOk(ms) && IsSpace(space) && TextAt(s, i, ItemsText(ms) + TagTail(space, empty))
    ensures Search(s, i, name, nAttrib, Name(l, r), false, false) == At(l, r, false)
  {
    hide TokenAt, SkipSpace, Matches;
    if ms == [] {
      TailToken(s, i, space, empty);
    } else {
      TailEnds(space, empty);
      ItemToken(s, i, ms, TagTail(space, empty));
    }
  }

  /** What comes behind the attributes ends the scan. */
  lemma TailToken(s: string, i: nat, space: string, empty: bool)
    requires IsSpace(space) && TextAt(s, i, ItemsText([]) + TagTail(space, empty))
    ensures var j := SkipSpace(s, i);
      j < |s| && CharAt(s, j) != '\0' && (s[j] == '>' || s[j] == '/') &&
        TokenAt(s, j, false) == Token(j, j + 1, false, j + 1)
  {
    hide TokenAt, SkipSpace;
    var c := if empty then '/' else '>';
    assert ItemsText([]) + TagTail(space, empty) == (space + [c]) + if empty then ">" else "";
    TextSplit(s, i, space + [c], if empty then ">" else "");
    SignToken(s, i, space, c);
  }

  /** What comes behind a name begins with no character of a name. */
  lemma RestEnds(ms: seq<Item>, tail: string)
    requires ItemsOk(ms) && tail != "" && EndsAttribName(tail[0])
    ensures var r := ItemsText(ms) + tail; r != "" && EndsAttribName(r[0])
  {
    hide EndsAttribName;
    if ms != [] {
      SpaceEnds(ItemSpace(ms[0]));
      ItemBegins(ms[0]);
      assert (ItemsText(ms) + tail)[0] == ItemSpace(ms[0])[0];
    }
  }

  function ItemSpace(m: Item): string { if m.Valued? then m.a.space else m.space }

  lemma ItemBegins(m: Item)
    requires ItemOk(m)
    ensures var w := ItemSpace(m); w != "" && IsSpace(w) && ItemText(m) != "" && ItemText(m)[0] == w[0]
  {
  }

  lemma SpaceEnds(w: string)
    requires w != "" && IsSpace(w)
    ensures EndsAttribName(w[0])
  {
  }

  lemma TailEnds(space: string, empty: bool)
    requires IsSpace(space)
    ensures TagTail(space, empty) != "" && EndsAttribName(TagTail(space, empty)[0])
  {
    if space != "" { assert TagTail(space, empty)[0] == space[0]; }
  }

  /** The next token is the name of the next attribute. */
  predicate NameNext(s: string, i: nat, name: string) {
    var j := SkipSpace(s, i);
    var r := j + |name|;
    j < |s| && r <= |s| && CharAt(s, j) != '\0' && TokenAt(s, j, false) == Token(j, r, false, r) && s[j..r] == name &&
    s[j] != '=' && s[j] != '>' && s[j] != '/' && s[j] != '?'
  }

  /** The name of an attribute is such a token. */
  lemma NameInItem(s: string, i: nat, w: string, n: string, rest: string)
    requires w != "" && IsSpace(w) && IsName(n) && TextAt(s, i, (w + n) + rest) && rest != "" && EndsAttribName(rest[0])
    ensures SkipSpace(s, i) == i + |w| && NameNext(s, i, n)
    ensures TextAt(s, i + |w| + |n|, rest)
  {
    hide TextAt, TokenAt, SkipSpace, IsSpace, EndsAttribName;
    TextSplit(s, i, w + n, rest);
    CharsAt(s, i + |w| + |n|, rest, 0);
    NameToken(s, i, w, n);
    NameBegins(n);
    InRange(s, i + |w| + |n|, rest);
  }

  lemma NameBegins(n: string)
    requires IsName(n)
    ensures n != "" && n[0] != '=' && n[0] != '>' && n[0] != '/' && n[0] != '?'
  {
  }

  lemma InRange(s: string, i: nat, t: string)
    requires TextAt(s, i, t)
    ensures i + |t| <= |s|
  {
  }

  lemma ItemParts(ms: seq<Item>, tail: string)
    requires ms != [] && ItemsOk(ms)
    ensures var r := ItemsText(ms[1..]) + tail;
      ItemsText(ms) + tail ==
        match ms[0]
        case Valued(a) => (a.space + a.name) + (AttrValuePart(a) + r)
        case Unquoted(w, n, _, _, _) => (w + n) + (WordPart(ms[0]) + r)
        case Flag(w, n) => (w + n) + r
  {
    hide AttrText, AttrValuePart, WordPart;
    var r := ItemsText(ms[1..]) + tail;
    assert ItemsText(ms) + tail == ItemText(ms[0]) + r;
    if ms[0].Valued? { AttrParts(ms[0].a, r); }
    if ms[0].Unquoted? { Appended(ms[0].space + ms[0].name, WordPart(ms[0]), r); }
  }

  lemma ItemToken(s: string, i: nat, ms: seq<Item>, tail: string)
    requires ItemsOk(ms) && ms != [] && TextAt(s, i, ItemsText(ms) + tail) && tail != "" && EndsAttribName(tail[0])
    ensures NameNext(s, i, ItemName(ms[0]))
    ensures ms[0].Flag? ==>
      SkipSpace(s, i) == i + |ms[0].space| && TextAt(s, i + |ItemText(ms[0])|, ItemsText(ms[1..]) + tail)
  {
    hide TextAt, NameNext, SkipSpace, IsSpace, EndsAttribName, AttrValuePart, AttrText, ItemsText, WordPart, WordOk;
    ItemParts(ms, tail);
    var r := ItemsText(ms[1..]) + tail;
    match ms[0]
    case Valued(a) =>
      ValueEnds(a, r);
      NameInItem(s, i, a.space, a.name, AttrValuePart(a) + r);
    case Unquoted(w, n, _, _, _) =>
      WordBegins(ms[0], r);
      NameInItem(s, i, w, n, WordPart(ms[0]) + r);
    case Flag(w, n) =>
      RestEnds(ms[1..], tail);
      NameInItem(s, i, w, n, r);
  }

  lemma ValueEnds(a: Attr, r: string)
    requires AttrOk(a)
    ensures AttrValuePart(a) + r != "" && EndsAttribName((AttrValuePart(a) + r)[0])
    ensures a.space != "" && IsSpace(a.space) && IsName(a.name)
  {
    if a.before != "" { assert (AttrValuePart(a) + r)[0] == a.before[0]; }
  }

  lemma WordBegins(m: Item, r: string)
    requires m.Unquoted? && ItemOk(m)
    ensures WordPart(m) + r != "" && EndsAttribName((WordPart(m) + r)[0])
  {
    if m.before != "" { assert (WordPart(m) + r)[0] == m.before[0]; }
  }

  lemma {:induction false} WordIsToken(s: string, j: nat, w: string)
    requires TextAt(s, j, w) && j + |w| < |s| && EndsUnquoted(s[j + |w|])
    requires forall k :: 0 <= k < |w| ==> !IsWhitespace(w[k]) && w[k] != '>' && w[k] != '\0'
    ensures WordEnd(s, j, true) == j + |w|
    decreases |w|
  {
    if w != "" {
      CharsAt(s, j, w, 0);
      assert w == [w[0]] + w[1..];
      TextSplit(s, j, [w[0]], w[1..]);
      WordIsToken(s, j + 1, w[1..]);
    }
  }

  /** The scan of a value without quotes, from the end of the name on. */
  lemma ReadsWord(s: string, i: nat, m: Item, name: string, nAttrib: int, found: NameFound)
    requires m.Unquoted? && ItemOk(m) && TextAt(s, i, WordPart(m))
    requires i + |WordPart(m)| < |s| && EndsUnquoted(s[i + |WordPart(m)|])
    ensures var j := i + |m.before| + 1 + |m.after|;
      Search(s, i, name, nAttrib, found, false, false) ==
        if found.Name? then At(j, j + |m.word|, false)
        else Search(s, j + |m.word|, name, nAttrib, NoName, false, false)
  {
    hide Search, TokenAt, SkipSpace, EndsUnquoted, TextAt;
    var b, v := i + |m.before|, m.after + m.word;
    assert m.before + ("=" + v) == (m.before + "=") + v;
    TextSplit(s, i, m.before + "=", v);
    SignToken(s, i, m.before, '=');
    StepEqual(s, i, b, name, nAttrib, found, false);
    WordToken(s, b + 1, m.after, m.word);
    StepWord(s, b + 1, b + 1 + |m.after|, |m.word|, name, nAttrib, found);
  }

  lemma WordToken(s: string, i: nat, after: string, w: string)
    requires IsSpace(after) && WordOk(w) && TextAt(s, i, after + w)
    requires i + |after + w| < |s| && EndsUnquoted(s[i + |after + w|])
    ensures var j := i + |after|;
      SkipSpace(s, i) == j && CharAt(s, j) != '\0' &&
      TokenAt(s, j, true) == Token(j, j + |w|, false, j + |w|)
  {
    hide WordEnd, SkipSpace, EndsUnquoted;
    TextSplit(s, i, after, w);
    CharsAt(s, i + |after|, w, 0);
    SkipsSpace(s, i, after);
    WordIsToken(s, i + |after|, w);
  }

  lemma StepWord(s: string, i: nat, j: nat, n: nat, name: string, nAttrib: int, found: NameFound)
    requires SkipSpace(s, i) == j < |s| && CharAt(s, j) != '\0' && TokenAt(s, j, true) == Token(j, j + n, false, j + n)
    ensures Search(s, i, name, nAttrib, found, true, false) ==
      if found.Name? then At(j, j + n, false) else Search(s, j + n, name, nAttrib, NoName, false, false)
  {
  }

  /** The scan finds the first attribute with the name: its value, or its name if it has none. */
  lemma {:induction false} SearchItems(s: string, i: nat, ms: seq<Item>, space: string, empty: bool, name: string,
    nAttrib: int)
    requires ItemsOk(ms) && Apart(ms, space, empty) && IsSpace(space) && IsPlainName(name) && nAttrib >= 0
    requires TextAt(s, i, ItemsText(ms) + TagTail(space, empty))
    ensures var k := FirstItem(ms, name);
      Search(s, i, name, nAttrib, NoName, false, false) ==
        if k < |ms| then FoundIn(ms[k], i + |ItemsText(ms[..k])|) else Absent(i + |ItemsText(ms)|)
    decreases |ms|
  {
    hide Search, TextAt, TokenAt, SkipSpace, ItemsText, ItemText, TagTail, FoundIn, ItemOk;
    if ms == [] {
      NoItems();
      SearchEnd(s, i, space, empty, name, nAttrib);
    } else {
      SearchItem(s, i, ms, space, empty, name, nAttrib);
      if ItemName(ms[0]) == name {
        assert ms[..0] == [];
        NoItems();
      } else {
        var k := FirstItem(ms[1..], name);
        SearchItems(s, i + |ItemText(ms[0])|, ms[1..], space, empty, name, nAttrib + 1);
        MoreItems(ms, k);
      }
    }
  }

  lemma NoItems()
    ensures ItemsText([]) == "" == AttrsText([])
  {
  }

  lemma MoreItems(ms: seq<Item>, k: nat)
    requires ms != [] && k <= |ms| - 1
    ensures |ItemsText(ms[..k + 1])| == |ItemText(ms[0])| + |ItemsText(ms[1..][..k])|
    ensures |ItemsText(ms)| == |ItemText(ms[0])| + |ItemsText(ms[1..])|
  {
    assert ms[..k + 1][1..] == ms[1..][..k];
  }

  /** The scan of one attribute. */
  lemma SearchItem(s: string, i: nat, ms: seq<Item>, space: string, empty: bool, name: string, nAttrib: int)
    requires ItemsOk(ms) && Apart(ms, space, empty) && ms != [] && IsSpace(space) && IsPlainName(name) && nAttrib >= 0
    requires TextAt(s, i, ItemsText(ms) + TagTail(space, empty))
    ensures Search(s, i, name, nAttrib, NoName, false, false) ==
      if ItemName(ms[0]) == name then FoundIn(ms[0], i)
      else Search(s, i + |ItemText(ms[0])|, name, nAttrib + 1, NoName, false, false)
    ensures ItemName(ms[0]) != name ==>
      TextAt(s, i + |ItemText(ms[0])|, ItemsText(ms[1..]) + TagTail(space, empty))
  {
    hide Search, TextAt, TokenAt, SkipSpace, ItemsText, TagTail, AttrsText, AttrText, ValueOffset, Matches, IsPlainName;
    var tail := TagTail(space, empty);
    TailEnds(space, empty);
    match ms[0]
    case Valued(a) =>
      OneAttr(ms, tail);
      SearchOne(s, i, [a], ItemsText(ms[1..]) + tail, name, nAttrib);
    case Unquoted(_, _, _, _, _) =>
      SearchWord(s, i, ms, space, empty, name, nAttrib);
    case Flag(w, n) =>
      ItemToken(s, i, ms, tail);
      var j := i + |w|;
      StepName(s, i, j, j + |n|, name, nAttrib, false);
      MatchIsEqual(n, name);
      if n == name { NoValue(s, j + |n|, ms[1..], space, empty, name, nAttrib + 1, j, j + |n|); }
  }

  lemma SearchWord(s: string, i: nat, ms: seq<Item>, space: string, empty: bool, name: string, nAttrib: int)
    requires ItemsOk(ms) && Apart(ms, space, empty) && ms != [] && ms[0].Unquoted?
    requires IsSpace(space) && IsPlainName(name) && nAttrib >= 0
    requires TextAt(s, i, ItemsText(ms) + TagTail(space, empty))
    ensures Search(s, i, name, nAttrib, NoName, false, false) ==
      if ItemName(ms[0]) == name then FoundIn(ms[0], i)
      else Search(s, i + |ItemText(ms[0])|, name, nAttrib + 1, NoName, false, false)
    ensures TextAt(s, i + |ItemText(ms[0])|, ItemsText(ms[1..]) + TagTail(space, empty))
  {
    hide Search, TextAt, TokenAt, SkipSpace, ItemsText, TagTail, Matches, IsPlainName, WordPart, EndsUnquoted,
      EndsAttribName, IsSpace, WordOk, ItemOk;
    var m, tail := ms[0], TagTail(space, empty);
    var r := ItemsText(ms[1..]) + tail;
    ItemParts(ms, tail);
    WordBegins(m, r);
    ItemIsOk(m);
    NameInItem(s, i, m.space, m.name, WordPart(m) + r);
    RestEndsWord(ms[1..], space, empty);
    var j := i + |m.space|;
    var h := j + |m.name|;
    TextSplit(s, h, WordPart(m), r);
    CharsAt(s, h + |WordPart(m)|, r, 0);
    InRange(s, h + |WordPart(m)|, r);
    WordLength(m);
    StepName(s, i, j, h, name, nAttrib, false);
    MatchIsEqual(m.name, name);
    ReadsWord(s, h, m, name, nAttrib + 1, if m.name == name then Name(j, h) else NoName);
  }

  lemma ItemIsOk(m: Item)
    requires m.Unquoted? && ItemOk(m)
    ensures m.space != "" && IsSpace(m.space) && IsName(m.name)
  {
  }

  lemma RestEndsWord(ms: seq<Item>, space: string, empty: bool)
    requires ItemsOk(ms) && IsSpace(space) && (ms == [] && empty ==> space != "")
    ensures var r := ItemsText(ms) + TagTail(space, empty); r != "" && EndsUnquoted(r[0])
  {
    var r := ItemsText(ms) + TagTail(space, empty);
    if ms != [] {
      ItemBegins(ms[0]);
      assert r[0] == ItemSpace(ms[0])[0];
    } else if space != "" {
      assert r[0] == space[0];
    }
  }

  lemma WordLength(m: Item)
    requires m.Unquoted?
    ensures |WordPart(m)| == |m.before| + 1 + |m.after| + |m.word|
    ensures |ItemText(m)| == |m.space| + |m.name| + |WordPart(m)|
  {
  }

  lemma OneAttr(ms: seq<Item>, tail: string)
    requires ms != [] && ms[0].Valued?
    ensures ItemsText(ms) + tail == AttrsText([ms[0].a]) + (ItemsText(ms[1..]) + tail)
    ensures ItemText(ms[0]) == AttrText(ms[0].a) && AttrsText([ms[0].a][1..]) == ""
    ensures AttrsText([ms[0].a][1..]) + (ItemsText(ms[1..]) + tail) == ItemsText(ms[1..]) + tail
  {
    hide AttrText;
    var a, r := ms[0].a, ItemsText(ms[1..]) + tail;
    assert [a][1..] == [];
    assert AttrText(a) + "" == AttrText(a);
    assert "" + r == r;
  }

  // ------------------------------------------------------------------------ setting one

  /** The attributes with that one set: its value replaced or given, or a new attribute behind the others. */
  function SetItem(ms: seq<Item>, name: string, value: string): seq<Item> {
    var k := FirstItem(ms, name);
    if k == |ms| then ms + [Valued(Attr(" ", name, "", "", '\"', value))]
    else ms[k := WithValue(ms[k], value)]
  }

  function WithValue(m: Item, value: string): Item {
    match m
    case Valued(a) => Valued(a.(quote := '\"', value := value))
    case Unquoted(w, n, b, a, _) => Valued(Attr(w, n, b, a, '\"', value))
    case Flag(w, n) => Valued(Attr(w, n, "", "", '\"', value))
  }

  lemma {:induction false} ItemsAround(ms: seq<Item>, k: nat, m: Item)
    requires k < |ms|
    ensures ItemsText(ms[k := m]) == ItemsText(ms[..k]) + ItemText(m) + ItemsText(ms[k + 1..])
  {
    if k == 0 {
      assert ms[0 := m][1..] == ms[1..] && ms[..0] == [];
      assert "" + ItemText(m) == ItemText(m);
    } else {
      ItemsAround(ms[1..], k - 1, m);
      assert ms[k := m][1..] == ms[1..][k - 1 := m] && ms[..k][1..] == ms[1..][..k - 1];
      assert ms[1..][k..] == ms[k + 1..];
      Regroup4(ItemText(ms[0]), ItemsText(ms[1..][..k - 1]), ItemText(m), ItemsText(ms[k + 1..]));
    }
  }

  lemma {:induction false} ItemsAppend(ms: seq<Item>, m: Item)
    ensures ItemsText(ms + [m]) == ItemsText(ms) + ItemText(m)
  {
    if ms == [] {
      assert [] + [m] == [m] && [m][1..] == [];
      assert ItemText(m) + "" == ItemText(m) && "" + ItemText(m) == ItemText(m);
    } else {
      assert (ms + [m])[1..] == ms[1..] + [m];
      ItemsAppend(ms[1..], m);
      Appended(ItemText(ms[0]), ItemsText(ms[1..]), ItemText(m));
    }
  }

  /** The first token is the name of the tag. */
  lemma LookupInItems(s: string, i: nat, tag: string, ms: seq<Item>, space: string, empty: bool, name: string)
    requires IsName(tag) && ItemsOk(ms) && Apart(ms, space, empty) && IsSpace(space) && IsPlainName(name)
    requires TextAt(s, i, ItemTag(tag, ms, space, empty))
    ensures var k, o := FirstItem(ms, name), i + 1 + |tag|;
      Lookup(s, i + 1, name) ==
        if k < |ms| then FoundIn(ms[k], o + |ItemsText(ms[..k])|) else Absent(o + |ItemsText(ms)|)
  {
    hide Search, TokenAt, SkipSpace, TextAt, ItemsText, TagTail, IsName, EndsAttribName, FoundIn, IsPlainName, Matches;
    var rest := ItemsText(ms) + TagTail(space, empty);
    TextSplit(s, i, "<", tag + rest);
    TextSplit(s, i + 1, tag, rest);
    TailEnds(space, empty);
    RestEnds(ms, TagTail(space, empty));
    CharsAt(s, i + 1 + |tag|, rest, 0);
    assert "" + tag == tag;
    NameToken(s, i + 1, "", tag);
    NameBegins(tag);
    StepName(s, i + 1, i + 1, i + 1 + |tag|, name, -1, false);
    SearchItems(s, i + 1 + |tag|, ms, space, empty, name, 0);
  }

  /** The tag around the attribute k. */
  lemma TagAround(x: string, tag: string, ms: seq<Item>, space: string, empty: bool, y: string, k: nat, m: Item)
    requires k < |ms|
    ensures x + ItemTag(tag, ms[k := m], space, empty) + y ==
      (x + "<" + tag + ItemsText(ms[..k])) + ItemText(m) + (ItemsText(ms[k + 1..]) + TagTail(space, empty) + y)
  {
    hide ItemText, TagTail;
    ItemsAround(ms, k, m);
    Parts3(x, tag, ItemsText(ms[..k]), ItemText(m), ItemsText(ms[k + 1..]), TagTail(space, empty), y);
  }

  lemma ValuedText(a: Attr, p: string, r: string)
    ensures ValueOffset([a], 0) == |a.space + a.name + a.before + "=" + a.after| + 1
    ensures p + AttrText(a) + r
         == (p + (a.space + a.name + a.before + "=" + a.after)) + ([a.quote] + a.value + [a.quote]) + r
  {
  }

  lemma SetsValued(s: string, i: nat, p: string, a: Attr, r: string, name: string, value: string)
    requires s == p + AttrText(a) + r && Lookup(s, i, name) == FoundIn(Valued(a), |p|)
    ensures SetAttribText(s, i, name, value) == p + AttrText(a.(quote := '\"', value := value)) + r
  {
    hide Search, AttrText, ValueOffset;
    var f, v := a.space + a.name + a.before + "=" + a.after, [a.quote] + a.value + [a.quote];
    ValuedText(a, p, r);
    ValuedText(a.(quote := '\"', value := value), p, r);
    SpliceParts(p + f, v, r, Quoted(value));
  }

  lemma SetsWord(s: string, i: nat, p: string, m: Item, r: string, name: string, value: string)
    requires m.Unquoted? && s == p + ItemText(m) + r && Lookup(s, i, name) == FoundIn(m, |p|)
    ensures SetAttribText(s, i, name, value) == p + ItemText(WithValue(m, value)) + r
  {
    hide Search, ItemText, AttrText, ValueOffset;
    var a := Attr(m.space, m.name, m.before, m.after, '\"', value);
    var f := m.space + m.name + m.before + "=" + m.after;
    WordText(m, p, r);
    ValuedText(a, p, r);
    AttrItem(a);
    SpliceParts(p + f, m.word, r, Quoted(value));
  }

  lemma AttrItem(a: Attr)
    ensures ItemText(Valued(a)) == AttrText(a)
  {
  }

  lemma WordText(m: Item, p: string, r: string)
    requires m.Unquoted?
    ensures WordOffset(m) == |m.space + m.name + m.before + "=" + m.after|
    ensures p + ItemText(m) + r == (p + (m.space + m.name + m.before + "=" + m.after)) + m.word + r
  {
    var f, w := m.space + m.name, m.before + "=" + m.after;
    assert WordPart(m) == w + m.word;
    Appended(f, w, m.word);
    assert f + w == m.space + m.name + m.before + "=" + m.after;
    assert p + ((f + w) + m.word) + r == (p + (f + w)) + m.word + r;
  }

  lemma SetsFlag(s: string, i: nat, p: string, m: Item, r: string, name: string, value: string)
    requires m.Flag? && s == p + ItemText(m) + r && Lookup(s, i, name) == FoundIn(m, |p|)
    ensures SetAttribText(s, i, name, value) == p + (m.space + Quoted(value)) + r
  {
    hide Search;
    assert s == (p + m.space) + m.flag + r;
    SpliceParts(p + m.space, m.flag, r, Quoted(value));
  }

  /** The text with the value in place of the attribute k. */
  function Unnamed(x: string, tag: string, ms: seq<Item>, space: string, empty: bool, y: string, k: nat,
    value: string): string
    requires k < |ms| && ms[k].Flag?
  {
    (x + "<" + tag + ItemsText(ms[..k])) + (ms[k].space + Quoted(value)) +
    (ItemsText(ms[k + 1..]) + TagTail(space, empty) + y)
  }

  /** What is found in the attribute k. */
  predicate FoundAt(x: string, tag: string, ms: seq<Item>, space: string, empty: bool, y: string, name: string,
    k: nat)
  {
    k == FirstItem(ms, name) < |ms| &&
    Lookup(x + ItemTag(tag, ms, space, empty) + y, |x| + 1, name)
      == FoundIn(ms[k], |x| + 1 + |tag| + |ItemsText(ms[..k])|)
  }

  lemma SetsOld(x: string, tag: string, ms: seq<Item>, space: string, empty: bool, y: string, name: string,
    value: string, k: nat)
    requires FoundAt(x, tag, ms, space, empty, y, name, k) && !ms[k].Flag?
    ensures SetAttribText(x + ItemTag(tag, ms, space, empty) + y, |x| + 1, name, value)
         == x + ItemTag(tag, SetItem(ms, name, value), space, empty) + y
  {
    hide Search, ItemTag, ItemsText, ItemText, TagTail, FoundIn, SetAttribText, AttrText;
    var p, r := x + "<" + tag + ItemsText(ms[..k]), ItemsText(ms[k + 1..]) + TagTail(space, empty) + y;
    assert ms[k := ms[k]] == ms;
    TagAround(x, tag, ms, space, empty, y, k, ms[k]);
    TagAround(x, tag, ms, space, empty, y, k, WithValue(ms[k], value));
    ItemTexts(ms[k], value);
    var s := x + ItemTag(tag, ms, space, empty) + y;
    if ms[k].Valued? {
      SetsValued(s, |x| + 1, p, ms[k].a, r, name, value);
    } else {
      SetsWord(s, |x| + 1, p, ms[k], r, name, value);
    }
  }

  lemma SetsName(x: string, tag: string, ms: seq<Item>, space: string, empty: bool, y: string, name: string,
    value: string, k: nat)
    requires FoundAt(x, tag, ms, space, empty, y, name, k) && ms[k].Flag?
    ensures var z := SetAttribText(x + ItemTag(tag, ms, space, empty) + y, |x| + 1, name, value);
      z == Unnamed(x, tag, ms, space, empty, y, k, value) &&
      z != x + ItemTag(tag, SetItem(ms, name, value), space, empty) + y
  {
    hide Search, ItemTag, ItemsText, ItemText, TagTail, FoundIn, SetAttribText, AttrText, Quoted;
    var p, r := x + "<" + tag + ItemsText(ms[..k]), ItemsText(ms[k + 1..]) + TagTail(space, empty) + y;
    assert ms[k := ms[k]] == ms;
    TagAround(x, tag, ms, space, empty, y, k, ms[k]);
    TagAround(x, tag, ms, space, empty, y, k, WithValue(ms[k], value));
    ItemTexts(ms[k], value);
    SetsFlag(x + ItemTag(tag, ms, space, empty) + y, |x| + 1, p, ms[k], r, name, value);
    OtherLength(p, ms[k].space + Quoted(value), ItemText(WithValue(ms[k], value)), r);
  }

  lemma OtherLength(p: string, a: string, b: string, r: string)
    requires |a| != |b|
    ensures p + a + r != p + b + r
  {
    assert |p + a + r| != |p + b + r|;
  }

  lemma ItemTexts(m: Item, value: string)
    ensures m.Valued? ==> ItemText(m) == AttrText(m.a)
    ensures m.Valued? ==> ItemText(WithValue(m, value)) == AttrText(m.a.(quote := '\"', value := value))
    ensures m.Flag? ==> |ItemText(WithValue(m, value))| == |m.space + Quoted(value)| + |m.flag| + 1
  {
  }

  lemma SetsNew(x: string, tag: string, ms: seq<Item>, space: string, empty: bool, y: string, name: string,
    value: string)
    requires var s := x + ItemTag(tag, ms, space, empty) + y;
      FirstItem(ms, name) == |ms| && Lookup(s, |x| + 1, name) == Absent(|x| + 1 + |tag| + |ItemsText(ms)|)
    ensures SetAttribText(x + ItemTag(tag, ms, space, empty) + y, |x| + 1, name, value)
         == x + ItemTag(tag, SetItem(ms, name, value), space, empty) + y
  {
    hide Search, ItemsText, TagTail, AttrText, Quoted;
    var a := Attr(" ", name, "", "", '\"', value);
    var f, w := ItemsText(ms), TagTail(space, empty);
    ItemsAppend(ms, Valued(a));
    NewAttrText(a);
    Parts3(x, tag, f, "", "", w, y);
    Parts3(x, tag, f, AttrText(a), "", w, y);
    assert f + "" + "" == f && f + AttrText(a) + "" == f + AttrText(a);
    SpliceParts(x + "<" + tag + f, "", "" + w + y, AttrText(a));
  }

  /** Setting an attribute without value puts the value in place of its name; otherwise the attribute is set. */
  lemma SetsItem(x: string, tag: string, ms: seq<Item>, space: string, empty: bool, y: string, name: string,
    value: string)
    requires IsName(tag) && ItemsOk(ms) && Apart(ms, space, empty) && IsSpace(space) && IsPlainName(name)
    ensures var s, k := x + ItemTag(tag, ms, space, empty) + y, FirstItem(ms, name);
      (SetAttribText(s, |x| + 1, name, value) == x + ItemTag(tag, SetItem(ms, name, value), space, empty) + y <==>
         k < |ms| ==> !ms[k].Flag?) &&
      (k < |ms| && ms[k].Flag? ==>
         SetAttribText(s, |x| + 1, name, value) == Unnamed(x, tag, ms, space, empty, y, k, value))
  {
    hide Search, ItemTag, ItemsText, FoundIn, TagTail, Lookup, IsSpace, IsName, ItemOk, IsPlainName, SetAttribText,
      SetItem, Unnamed;
    var s, k := x + ItemTag(tag, ms, space, empty) + y, FirstItem(ms, name);
    TextInside(x, ItemTag(tag, ms, space, empty), y);
    LookupInItems(s, |x|, tag, ms, space, empty, name);
    if k == |ms| {
      SetsNew(x, tag, ms, space, empty, y, name, value);
    } else if !ms[k].Flag? {
      SetsOld(x, tag, ms, space, empty, y, name, value, k);
    } else {
      SetsName(x, tag, ms, space, empty, y, name, value, k);
    }
  }

  /** An attribute without value loses its name. */
  lemma FlagLost()
    ensures SetAttribText("<p checked>", 1, "checked", "v") == "<p \"v\">"
  {
    hide SetAttribText, Unnamed, SetItem;
    var ms := [Flag(" ", "checked")];
    SetsItem("", "p", ms, "", false, "", "checked", "v");
    FlagTexts();
  }

  lemma FlagTexts()
    ensures var ms := [Flag(" ", "checked")];
      "" + ItemTag("p", ms, "", false) + "" == "<p checked>" && FirstItem(ms, "checked") == 0 &&
      Unnamed("", "p", ms, "", false, "", 0, "v") == "<p \"v\">"
  {
    var ms := [Flag(" ", "checked")];
    assert ms[..0] == [] && ms[1..] == [];
    assert ItemText(ms[0]) == " checked" && ItemsText(ms) == " checked" && TagTail("", false) == ">";
  }
}
