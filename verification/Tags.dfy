/**
  Start tags and end tags, well formed as in section 3.1 of XML 1.0, and the documents made of them.
 */
module Tags {
  import opened Escape
  import opened ElemForest

  predicate EndsName(c: char) {
    IsWhitespace(c) || c == '<' || c == '>' || c == '=' || c == '\\' || c == '/' || c == '?' || c == '!' ||
    c == '\"' || c == '\'' || c == ';'
  }

  predicate StartsName(c: char) {
    c as int > 0x60 || 'A' <= c <= 'Z' || c == '_' || c == ':'
  }

  /** Every XML name is one, and more. */
  predicate IsName(s: string) {
    s != "" && StartsName(s[0]) && forall k :: 0 <= k < |s| ==> !EndsName(s[k]) && s[k] != '\0'
  }

  /** The name in a tag, after its first character. */
  function NameAt(s: string, i: nat): string
    decreases |s| - i
  {
    if i >= |s| || EndsName(s[i]) || s[i] == '\0' then "" else [s[i]] + NameAt(s, i + 1)
  }

  function TagName(tag: string): string { NameAt(tag, 1) }

  predicate IsSpace(s: string) { forall k :: 0 <= k < |s| ==> IsWhitespace(s[k]) }

  /** space name before = after "value" */
  datatype Attr = Attr(space: string, name: string, before: string, after: string, quote: char, value: string)

  predicate AttrOk(a: Attr) {
    a.space != "" && IsSpace(a.space) && IsName(a.name) && IsSpace(a.before) && IsSpace(a.after) &&
    (a.quote == '\"' || a.quote == '\'') && forall k :: 0 <= k < |a.value| ==>
      a.value[k] != a.quote && a.value[k] != '\0'
  }

  function AttrText(a: Attr): string {
    a.space + a.name + a.before + "=" + a.after + [a.quote] + a.value + [a.quote]
  }

  function AttrsText(s: seq<Attr>): string {
    if s == [] then "" else AttrText(s[0]) + AttrsText(s[1..])
  }

  datatype StartTag = StartTag(name: string, attrs: seq<Attr>, space: string, empty: bool)

  predicate TagOk(t: StartTag) {
    IsName(t.name) && (forall k :: 0 <= k < |t.attrs| ==> AttrOk(t.attrs[k])) && IsSpace(t.space)
  }

  /** The start tag up to its closing bracket or slash. */
  function TagHead(t: StartTag): string {
    "<" + t.name + AttrsText(t.attrs) + t.space
  }

  function TagText(t: StartTag): string {
    TagHead(t) + if t.empty then "/>" else ">"
  }

  function EndTag(name: string, space: string): string { "</" + name + space + ">" }

  /** The tags of one element belong together; an element written as an empty tag has no content. */
  ghost predicate TagsMatch(tag: string, kids: Forest, close: string) {
    exists t: StartTag, space: string :: TagsAre(t, space, tag, kids, close)
  }

  predicate TagsAre(t: StartTag, space: string, tag: string, kids: Forest, close: string) {
    TagOk(t) && IsSpace(space) && tag == TagText(t) &&
    if t.empty then close == "" && kids == Nil("") else close == EndTag(t.name, space)
  }

  /** Every element of the document has matching, well-formed tags. */
  ghost predicate WellTagged(f: Forest) {
    f.Node? ==> TagsMatch(f.tag, f.kids, f.close) && WellTagged(f.kids) && WellTagged(f.rest)
  }

  lemma TagTextFacts(t: StartTag)
    requires TagOk(t)
    ensures |TagText(t)| >= 3 && TagText(t)[0] == '<' && TagText(t)[|TagText(t)| - 1] == '>'
    ensures TagText(t)[1..1 + |t.name|] == t.name
    ensures t.empty ==> |TagText(t)| >= 4 && TagText(t) == TagHead(t) + "/>"
  {
    assert TagHead(t)[0] == '<';
  }

  lemma {:induction false} WellTaggedTagged(f: Forest)
    requires WellTagged(f)
    ensures Tagged(f)
  {
    if f.Node? {
      var t, space :| TagsAre(t, space, f.tag, f.kids, f.close);
      TagTextFacts(t);
      WellTaggedTagged(f.kids);
      WellTaggedTagged(f.rest);
    }
  }

  lemma {:induction false} NodeWellTagged(f: Forest, i: nat)
    requires i in Ids(f) && WellTagged(f)
    ensures TagsMatch(Find(f, i).tag, Find(f, i).kids, Find(f, i).close) && WellTagged(Find(f, i).kids)
  {
    if f.id != i {
      if i in Ids(f.kids) { NodeWellTagged(f.kids, i); } else { NodeWellTagged(f.rest, i); }
    }
  }

  // ------------------------------------------------------------------ skipping whitespace

  /** The length of the whitespace at the front of s. */
  function LeadingSpace(s: string): (n: nat)
    ensures n <= |s| && IsSpace(s[..n]) && (n < |s| ==> !IsWhitespace(s[n]))
  {
    if s == "" || !IsWhitespace(s[0]) then 0 else 1 + LeadingSpace(s[1..])
  }

  /** How far an insertion at the front of the gap g moves: up to a tag, if only whitespace is in between. */
  function TagCut(g: string): (c: nat)
    ensures c <= |g|
  {
    var n := LeadingSpace(g);
    if n < |g| && g[n] != '<' then 0 else n
  }

  lemma {:induction false} LeadingSpaceIs(s: string, n: nat)
    requires n <= |s| && IsSpace(s[..n]) && (n == |s| || !IsWhitespace(s[n]))
    ensures LeadingSpace(s) == n
  {
    if n > 0 {
      assert IsWhitespace(s[..n][0]) && s[1..][..n - 1] == s[..n][1..];
      LeadingSpaceIs(s[1..], n - 1);
    }
  }

  /** Whitespace up to a tag or the end is passed; in front of other text nothing is. */
  lemma TagCutIs(g: string, k: nat)
    requires k <= |g| && IsSpace(g[..k]) && (k == |g| || !IsWhitespace(g[k]))
    ensures TagCut(g) == if k == |g| || g[k] == '<' then k else 0
  {
    LeadingSpaceIs(g, k);
  }

  /** What follows a gap is the end of the text or a tag. */
  predicate AtTag(s: string) { s == "" || s[0] == '<' }

  lemma {:induction false} LeadingSpaceOfGap(g: string, x: string)
    requires AtTag(x)
    ensures LeadingSpace(g + x) == LeadingSpace(g)
  {
    if g != "" && IsWhitespace(g[0]) {
      assert (g + x)[1..] == g[1..] + x;
      LeadingSpaceOfGap(g[1..], x);
    } else if g == "" {
      assert g + x == x;
    }
  }
}
