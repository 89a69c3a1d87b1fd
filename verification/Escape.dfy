/** Entity references in values. */
module Escape {
  import Utf

  // -------------------------------------------------------------------- character classes

  predicate IsWhitespace(c: char) { c == ' ' || c == '\t' || c == '\n' || c == '\r' }

  /** C strings hold no zero character. */
  predicate NulFree(s: string) { forall k :: 0 <= k < |s| ==> s[k] != '\0' }

  predicate IsSpecial(c: char) { c == '<' || c == '&' || c == '>' }

  predicate IsAttribSpecial(c: char) { IsSpecial(c) || c == '\"' || c == '\'' }

  predicate IsAlpha(c: char) { 'A' <= c <= 'Z' || 'a' <= c <= 'z' }

  predicate IsDigit(c: char) { '0' <= c <= '9' }

  predicate IsHigh(c: char) { c as int > 0x7F }

  predicate StartsEntityRef(c: char) { IsAlpha(c) || c == '#' || c == '_' || c == ':' || IsHigh(c) }

  predicate InEntityRef(c: char) {
    IsAlpha(c) || IsDigit(c) || c == '_' || c == ':' || c == '-' || c == '.' || IsHigh(c)
  }

  // ------------------------------------------------------------------------------ escaping

  predicate Replaced(c: char, quotes: bool) { if quotes then IsAttribSpecial(c) else IsSpecial(c) }

  function Entity(c: char): string
    requires IsAttribSpecial(c)
  {
    if c == '<' then "&lt;" else if c == '&' then "&amp;" else if c == '>' then "&gt;"
    else if c == '\"' then "&quot;" else "&apos;"
  }

  /** The end of the name of an entity reference scanned from j; 0 if no semicolon ends it. */
  function RefScan(s: string, j: nat): (r: nat)
    ensures r != 0 ==> j < r <= |s|
    decreases |s| - j
  {
    if j >= |s| then 0
    else if s[j] == ';' then j + 1
    else if InEntityRef(s[j]) then RefScan(s, j + 1)
    else 0
  }

  /** The end of the entity reference that begins with the ampersand at i, or 0. */
  function RefEnd(s: string, i: nat): (r: nat)
    ensures r != 0 ==> i < r <= |s|
  {
    if i + 1 < |s| && StartsEntityRef(s[i + 1]) then RefScan(s, i + 2) else 0
  }

  /** The escaped form of s from i on. */
  function Escaped(s: string, i: nat, quotes: bool, refs: bool): string
    requires i <= |s|
    decreases |s| - i
  {
    if i == |s| then ""
    else if !Replaced(s[i], quotes) then [s[i]] + Escaped(s, i + 1, quotes, refs)
    else if refs && s[i] == '&' && RefEnd(s, i) != 0 then
      s[i..RefEnd(s, i)] + Escaped(s, RefEnd(s, i), quotes, refs)
    else Entity(s[i]) + Escaped(s, i + 1, quotes, refs)
  }

  /** EscapeText: quotes is MNF_ESCAPEQUOTES, refs is MNF_WITHREFS. */
  method EscapeText(szText: string, quotes: bool, refs: bool) returns (strText: string)
    ensures strText == Escaped(szText, 0, quotes, refs)
  {
    strText := "";
    var i := 0;
    while i < |szText|
      invariant i <= |szText| && strText + Escaped(szText, i, quotes, refs) == Escaped(szText, 0, quotes, refs)
    {
      ghost var before, at := strText, i;
      if Replaced(szText[i], quotes) {
        var ignoreAmpersand := false;
        if refs && szText[i] == '&' {
          var end := ScanReference(szText, i);
          if end != 0 {
            strText := strText + szText[i..end];
            i := end - 1;
            ignoreAmpersand := true;
          }
        }
        if !ignoreAmpersand {
          strText := strText + Entity(szText[i]);
        }
        i := i + 1;
      } else {
        strText := strText + [szText[i]];
        i := i + 1;
      }
      Appended(before, strText[|before|..], Escaped(szText, i, quotes, refs));
    }
  }

  lemma Appended(a: string, b: string, c: string)
    ensures (a + b) + c == a + (b + c)
  {
  }

  /** The check for an existing entity reference. */
  method ScanReference(s: string, i: nat) returns (end: nat)
    requires i < |s|
    ensures end == RefEnd(s, i)
  {
    end := 0;
    if i + 1 < |s| && StartsEntityRef(s[i + 1]) {
      var j := i + 2;
      while j < |s| && s[j] != ';' && InEntityRef(s[j])
        invariant i + 2 <= j && RefScan(s, i + 2) == RefScan(s, j)
        decreases |s| - j
      {
        j := j + 1;
      }
      if j < |s| && s[j] == ';' {
        end := j + 1;
      }
    }
  }

  // ---------------------------------------------------------------------------- unescaping

  /** A character of the buffer; beyond its end the model reads zeros. */
  function CharAt(s: string, i: nat): char {
    if i < |s| then s[i] else '\0'
  }

  function LowerCase(c: char): char {
    if 'A' <= c <= 'Z' then (c as int + 32) as char else c
  }

  /** Up to room ASCII characters from j on, in lower case, that do not include a semicolon. */
  function CodeName(s: string, j: nat, room: nat): string
    decreases room
  {
    if room == 0 || IsHigh(CharAt(s, j)) || CharAt(s, j) == ';' then ""
    else [LowerCase(CharAt(s, j))] + CodeName(s, j + 1, room - 1)
  }

  function DigitValue(c: char): int {
    if IsDigit(c) then c as int - '0' as int else if 'a' <= c <= 'z' then c as int - 'a' as int + 10 else 99
  }

  /** The digits at the front of s in the given base, after the number n. */
  function Digits(s: string, n: int, base: int): int {
    if s == "" || DigitValue(s[0]) >= base then n else Digits(s[1..], n * base + DigitValue(s[0]), base)
  }

  /** strtol on lower-case ASCII text: leading space, sign, 0x in base 16, then digits. */
  function StrToL(s: string, base: int): int {
    if s != "" && (s[0] == ' ' || 9 <= s[0] as int <= 13) then StrToL(s[1..], base)
    else if s != "" && s[0] == '-' then -Unsigned(s[1..], base)
    else if s != "" && s[0] == '+' then Unsigned(s[1..], base)
    else Unsigned(s, base)
  }

  function Unsigned(s: string, base: int): int {
    if base == 16 && |s| > 2 && s[..2] == "0x" && DigitValue(s[2]) < 16 then Digits(s[2..], 0, base)
    else Digits(s, 0, base)
  }

  /** The code point a code name stands for; 0 for none. The table holds the named entities. */
  function CodePoint(name: string, table: map<string, int>): int {
    if name != "" && name[0] == '#' then
      if |name| > 1 && name[1] == 'x' then StrToL(name[2..], 16) else StrToL(name[1..], 10)
    else if name in table then table[name] else 0
  }

  function Utf8Text(c: int): string {
    var bs := Utf.Encode8(c);
    seq(|bs|, i requires 0 <= i < |bs| => assert bs[i] in bs; bs[i] as char)
  }

  /** The code point that the reference at i stands for; 0 if it is left as it is. */
  function Reference(s: string, i: nat, table: map<string, int>): int {
    var name := CodeName(s, i + 1, 9);
    if CharAt(s, i + 1 + |name|) == ';' then CodePoint(name, table) else 0
  }

  /** The text that one character or reference at i is read as. */
  function Piece(s: string, i: nat, table: map<string, int>): string
    requires i < |s|
  {
    if s[i] != '&' then [s[i]]
    else if Reference(s, i, table) == 0 then "&"
    else Utf8Text(Reference(s, i, table))
  }

  /** Where reading goes on after it. */
  function After(s: string, i: nat, table: map<string, int>): (next: nat)
    requires i < |s|
    ensures next > i
  {
    if s[i] != '&' || Reference(s, i, table) == 0 then i + 1 else i + |CodeName(s, i + 1, 9)| + 2
  }

  /** What is read from the first n characters of s, from i on. */
  function Unescaped(s: string, i: nat, n: nat, table: map<string, int>): string
    requires n <= |s|
    decreases n - i
  {
    if i >= n then "" else Piece(s, i, table) + Unescaped(s, After(s, i, table), n, table)
  }

  /** UnescapeText without whitespace flags, on the first nTextLength characters of szText. */
  method UnescapeText(szText: string, nTextLength: nat, table: map<string, int>) returns (strText: string)
    requires nTextLength <= |szText|
    ensures strText == Unescaped(szText, 0, nTextLength, table)
  {
    strText := "";
    var i := 0;
    while i < nTextLength
      invariant strText + Unescaped(szText, i, nTextLength, table) == Unescaped(szText, 0, nTextLength, table)
      decreases nTextLength - i
    {
      var piece, next;
      if szText[i] == '&' {
        piece, next := ReadReference(szText, i, table);
      } else {
        piece, next := [szText[i]], i + 1;
      }
      Appended(strText, piece, Unescaped(szText, next, nTextLength, table));
      strText := strText + piece;
      i := next;
    }
  }

  /** The text for the ampersand at i, and where reading goes on. */
  method ReadReference(s: string, i: nat, table: map<string, int>) returns (piece: string, next: nat)
    requires i < |s| && s[i] == '&'
    ensures piece == Piece(s, i, table) && next == After(s, i, table)
  {
    var name := ReadCodeName(s, i);
    var code := 0;
    if CharAt(s, i + 1 + |name|) == ';' {
      code := CodePoint(name, table);
    }
    if code != 0 {
      piece, next := Utf8Text(code), i + |name| + 2;
    } else {
      // an unknown reference is plain text
      piece, next := "&", i + 1;
    }
  }

  method ReadCodeName(s: string, i: nat) returns (name: string)
    ensures name == CodeName(s, i + 1, 9)
  {
    name := "";
    var c := CharAt(s, i + 1);
    while |name| < 9 && !IsHigh(c) && c != ';'
      invariant |name| <= 9 && c == CharAt(s, i + 1 + |name|)
      invariant name + CodeName(s, i + 1 + |name|, 9 - |name|) == CodeName(s, i + 1, 9)
      decreases 9 - |name|
    {
      Appended(name, [LowerCase(c)], CodeName(s, i + 2 + |name|, 8 - |name|));
      name := name + [LowerCase(c)];
      c := CharAt(s, i + 1 + |name|);
    }
  }

  // ----------------------------------------------------------------------------- round trip

  /** The five entities of XML 1.0, section 4.6; the table may hold more. */
  ghost predicate HasXmlEntities(table: map<string, int>) {
    "lt" in table && table["lt"] == 60 && "amp" in table && table["amp"] == 38 &&
    "gt" in table && table["gt"] == 62 && "quot" in table && table["quot"] == 34 &&
    "apos" in table && table["apos"] == 39
  }

  /** The text at i is t. */
  predicate TextAt(s: string, i: nat, t: string) {
    i + |t| <= |s| && s[i..i + |t|] == t
  }

  lemma CharsAt(s: string, i: nat, t: string, k: nat)
    requires TextAt(s, i, t) && k < |t|
    ensures s[i + k] == t[k] && CharAt(s, i + k) == t[k]
  {
    assert s[i..i + |t|][k] == t[k];
  }

  lemma TextSplit(s: string, i: nat, a: string, b: string)
    requires TextAt(s, i, a + b)
    ensures TextAt(s, i, a) && TextAt(s, i + |a|, b)
  {
    assert s[i..i + |a|] == s[i..i + |a + b|][..|a|];
    assert s[i + |a|..i + |a| + |b|] == s[i..i + |a + b|][|a|..];
  }

  lemma {:induction false} ReadsCodeName(s: string, j: nat, room: nat, name: string)
    requires TextAt(s, j, name + ";") && |name| < room
    requires forall k :: 0 <= k < |name| ==> 'a' <= name[k] <= 'z'
    ensures CodeName(s, j, room) == name && CharAt(s, j + |name|) == ';'
    decreases |name|
  {
    CharsAt(s, j, name + ";", 0);
    if name != "" {
      assert s[j + 1..j + 1 + |name[1..] + ";"|] == s[j..j + |name + ";"|][1..] == name[1..] + ";";
      ReadsCodeName(s, j + 1, room - 1, name[1..]);
    }
  }

  function EntityName(c: char): string
    requires IsAttribSpecial(c)
  {
    if c == '<' then "lt" else if c == '&' then "amp" else if c == '>' then "gt"
    else if c == '"' then "quot" else "apos"
  }

  lemma ReadsEntity(s: string, i: nat, c: char, table: map<string, int>)
    requires IsAttribSpecial(c) && TextAt(s, i, Entity(c)) && HasXmlEntities(table)
    ensures i < |s| && Piece(s, i, table) == [c] && After(s, i, table) == i + |Entity(c)|
  {
    hide CodePoint, Utf8Text, HasXmlEntities, EntityName, CodeName;
    var name := EntityName(c);
    NameOfEntity(c);
    CharsAt(s, i, Entity(c), 0);
    assert s[i + 1..i + 1 + |name + ";"|] == s[i..i + |Entity(c)|][1..] == name + ";";
    ReadsCodeName(s, i + 1, 9, name);
    EntityMeans(c, table);
  }

  lemma NameOfEntity(c: char)
    requires IsAttribSpecial(c)
    ensures Entity(c) == "&" + EntityName(c) + ";" && |EntityName(c)| < 9
    ensures forall k :: 0 <= k < |EntityName(c)| ==> 'a' <= EntityName(c)[k] <= 'z'
  {
  }

  lemma EntityMeans(c: char, table: map<string, int>)
    requires IsAttribSpecial(c) && HasXmlEntities(table)
    ensures CodePoint(EntityName(c), table) == c as int && Utf8Text(c as int) == [c]
  {
  }

  /** Escaped text reads back as the original, wherever it stands and whatever follows it. */
  lemma {:induction false} UnescapeEscaped(v: string, j: nat, quotes: bool, s: string, i: nat, n: nat,
    table: map<string, int>)
    requires j <= |v| && i <= n <= |s| && HasXmlEntities(table)
    requires s[i..n] == Escaped(v, j, quotes, false)
    ensures Unescaped(s, i, n, table) == v[j..]
    decreases |v| - j
  {
    hide Piece, After, Unescaped, Escaped, Entity, HasXmlEntities, TextAt;
    if j == |v| {
      NothingEscaped(v, quotes, s, i, n, table);
    } else {
      var head := if Replaced(v[j], quotes) then Entity(v[j]) else [v[j]];
      EscapedHead(v, j, quotes);
      HeadAt(s, i, n, head, Escaped(v, j + 1, quotes, false));
      UnescapeEscaped(v, j + 1, quotes, s, i + |head|, n, table);
      if Replaced(v[j], quotes) { ReadsEntity(s, i, v[j], table); } else { ReadsPlain(s, i, v[j], table); }
      UnescapedStep(s, i, n, table);
      assert v[j..] == [v[j]] + v[j + 1..];
    }
  }

  lemma NothingEscaped(v: string, quotes: bool, s: string, i: nat, n: nat, table: map<string, int>)
    requires i <= n <= |s| && s[i..n] == Escaped(v, |v|, quotes, false)
    ensures Unescaped(s, i, n, table) == "" == v[|v|..]
  {
    assert s[i..n] == "";
  }

  lemma EscapedHead(v: string, j: nat, quotes: bool)
    requires j < |v|
    ensures var head := if Replaced(v[j], quotes) then Entity(v[j]) else [v[j]];
      head != "" && Escaped(v, j, quotes, false) == head + Escaped(v, j + 1, quotes, false)
  {
  }

  lemma UnescapedStep(s: string, i: nat, n: nat, table: map<string, int>)
    requires i < n <= |s|
    ensures Unescaped(s, i, n, table) == Piece(s, i, table) + Unescaped(s, After(s, i, table), n, table)
  {
  }

  lemma ReadsPlain(s: string, i: nat, c: char, table: map<string, int>)
    requires TextAt(s, i, [c]) && c != '&'
    ensures i < |s| && Piece(s, i, table) == [c] && After(s, i, table) == i + 1
  {
    CharsAt(s, i, [c], 0);
  }

  lemma HeadAt(s: string, i: nat, n: nat, head: string, rest: string)
    requires i <= n <= |s| && s[i..n] == head + rest
    ensures TextAt(s, i, head) && i + |head| <= n && s[i + |head|..n] == rest
  {
    assert s[i..i + |head|] == s[i..n][..|head|];
    assert s[i + |head|..n] == s[i..n][|head|..];
  }

  lemma {:induction false} RefScanChars(s: string, j: nat)
    requires RefScan(s, j) != 0
    ensures j < RefScan(s, j) <= |s| && s[RefScan(s, j) - 1] == ';'
    ensures forall k :: j <= k < RefScan(s, j) - 1 ==> InEntityRef(s[k])
    decreases |s| - j
  {
    if s[j] != ';' { RefScanChars(s, j + 1); }
  }

  /** No tag opener, no zero, and with quotes no quote. */
  predicate Inert(c: char, quotes: bool) {
    c != '<' && c != '>' && c != '\0' && (quotes ==> c != '\"' && c != '\'')
  }

  /** Escaped text has no character that would end it. */
  lemma {:induction false} EscapedIsInert(v: string, j: nat, quotes: bool, refs: bool)
    requires j <= |v| && forall k :: 0 <= k < |v| ==> v[k] != '\0'
    ensures forall k :: 0 <= k < |Escaped(v, j, quotes, refs)| ==> Inert(Escaped(v, j, quotes, refs)[k], quotes)
    decreases |v| - j
  {
    if j < |v| {
      if refs && v[j] == '&' && RefEnd(v, j) != 0 {
        RefScanChars(v, j + 2);
        EscapedIsInert(v, RefEnd(v, j), quotes, refs);
      } else {
        EscapedIsInert(v, j + 1, quotes, refs);
        if IsAttribSpecial(v[j]) { EntityInert(v[j], quotes); }
      }
    }
  }

  /** Escaping changes a text exactly if it holds one of the characters that are written as entities. */
  lemma {:induction false} EscapedSame(v: string, j: nat, quotes: bool)
    requires j <= |v|
    ensures |Escaped(v, j, quotes, false)| >= |v| - j
    ensures Escaped(v, j, quotes, false) == v[j..] <==>
      forall k :: j <= k < |v| ==>
        v[k] != '<' && v[k] != '>' && v[k] != '&' && (quotes ==> v[k] != '\"' && v[k] != '\'')
    decreases |v| - j
  {
    if j < |v| {
      hide Escaped, Entity;
      EscapedSame(v, j + 1, quotes);
      var rest := Escaped(v, j + 1, quotes, false);
      EscapedFirst(v, j, quotes);
      assert v[j..] == [v[j]] + v[j + 1..];
      if !Replaced(v[j], quotes) {
        assert ([v[j]] + rest)[1..] == rest && ([v[j]] + v[j + 1..])[1..] == v[j + 1..];
      }
    }
  }

  lemma EscapedFirst(v: string, j: nat, quotes: bool)
    requires j < |v|
    ensures var rest := Escaped(v, j + 1, quotes, false);
      if Replaced(v[j], quotes) then |Escaped(v, j, quotes, false)| > 1 + |rest|
      else Escaped(v, j, quotes, false) == [v[j]] + rest
  {
  }

  lemma EntityInert(c: char, quotes: bool)
    requires IsAttribSpecial(c)
    ensures forall k :: 0 <= k < |Entity(c)| ==> Inert(Entity(c)[k], quotes)
  {
  }

  // ------------------------------------------------------------------- reading from a pointer

  lemma {:induction false} CodeNameAt(s: string, l: nat, j: nat, room: nat)
    requires l <= |s|
    ensures CodeName(s[l..], j, room) == CodeName(s, l + j, room)
    decreases room
  {
    assert CharAt(s[l..], j) == CharAt(s, l + j);
    if room != 0 { CodeNameAt(s, l, j + 1, room - 1); }
  }

  lemma PieceAt(s: string, l: nat, i: nat, table: map<string, int>)
    requires l <= |s| && l + i < |s|
    ensures Piece(s[l..], i, table) == Piece(s, l + i, table) && l + After(s[l..], i, table) == After(s, l + i, table)
  {
    hide CodeName, CodePoint, Utf8Text;
    CodeNameAt(s, l, i + 1, 9);
    var name := CodeName(s, l + i + 1, 9);
    assert CharAt(s[l..], i + 1 + |name|) == CharAt(s, l + (i + 1 + |name|));
  }

  /** Reading from a pointer into the text is reading the text at that place. */
  lemma {:induction false} UnescapedAt(s: string, l: nat, i: nat, n: nat, table: map<string, int>)
    requires l + n <= |s|
    ensures Unescaped(s[l..], i, n, table) == Unescaped(s, l + i, l + n, table)
    decreases n - i
  {
    hide Piece, After;
    if i < n {
      PieceAt(s, l, i, table);
      UnescapedAt(s, l, After(s[l..], i, table), n, table);
    }
  }
}
