/** References by number, and references kept. */
module References {
  // What numeric references are read as, by the positional value of their digits; and which
  // references EscapeText keeps.

  import opened Escape
  import Utf
  import Unicode

  // --------------------------------------------------------------------- positional values

  predicate IsDecimal(d: string) { forall k :: 0 <= k < |d| ==> '0' <= d[k] <= '9' }

  predicate IsHexDigit(c: char) { '0' <= c <= '9' || 'a' <= c <= 'f' || 'A' <= c <= 'F' }

  predicate IsHexadecimal(d: string) { forall k :: 0 <= k < |d| ==> IsHexDigit(d[k]) }

  /** A digit of either case by its place in the alphabet of digits. */
  function HexValue(c: char): nat
    requires IsHexDigit(c)
  {
    if c <= '9' then c as int - 48 else if c <= 'F' then c as int - 55 else c as int - 87
  }

  /** Units, tens, hundreds and so on. */
  function Decimal(d: string): nat
    requires IsDecimal(d)
  {
    if d == "" then 0 else 10 * Decimal(d[..|d| - 1]) + (d[|d| - 1] as int - 48)
  }

  function Hexadecimal(d: string): nat
    requires IsHexadecimal(d)
  {
    if d == "" then 0 else 16 * Hexadecimal(d[..|d| - 1]) + HexValue(d[|d| - 1])
  }

  lemma {:induction false} DigitsOneMore(s: string, c: char, n: int, base: int)
    requires forall k :: 0 <= k < |s| ==> DigitValue(s[k]) < base
    requires DigitValue(c) < base
    ensures Digits(s + [c], n, base) == base * Digits(s, n, base) + DigitValue(c)
    decreases |s|
  {
    if s == "" {
      assert s + [c] == [c] && [c][1..] == "";
    } else {
      assert (s + [c])[0] == s[0] && (s + [c])[1..] == s[1..] + [c];
      DigitsOneMore(s[1..], c, n * base + DigitValue(s[0]), base);
    }
  }

  lemma {:induction false} ReadsDecimal(d: string)
    requires IsDecimal(d)
    ensures Digits(d, 0, 10) == Decimal(d)
  {
    if d != "" {
      var e, c := d[..|d| - 1], d[|d| - 1];
      assert d == e + [c];
      ReadsDecimal(e);
      DigitsOneMore(e, c, 0, 10);
    }
  }

  /** The text in lower case. */
  function Lowered(s: string): string { seq(|s|, k requires 0 <= k < |s| => LowerCase(s[k])) }

  lemma {:induction false} ReadsHexadecimal(d: string)
    requires IsHexadecimal(d)
    ensures Digits(Lowered(d), 0, 16) == Hexadecimal(d)
  {
    if d != "" {
      var e, c := d[..|d| - 1], d[|d| - 1];
      assert Lowered(d) == Lowered(e) + [LowerCase(c)];
      ReadsHexadecimal(e);
      forall k | 0 <= k < |Lowered(e)| ensures DigitValue(Lowered(e)[k]) < 16 { assert IsHexDigit(d[k]); }
      assert IsHexDigit(c);
      DigitsOneMore(Lowered(e), LowerCase(c), 0, 16);
    }
  }

  // --------------------------------------------------------------------------- code names

  lemma {:induction false} ReadsName(s: string, j: nat, room: nat, name: string)
    requires TextAt(s, j, name + ";") && |name| <= room
    requires forall k :: 0 <= k < |name| ==> !IsHigh(name[k]) && name[k] != ';'
    ensures CodeName(s, j, room) == Lowered(name) && CharAt(s, j + |name|) == ';'
    decreases |name|
  {
    CharsAt(s, j, name + ";", 0);
    if name == "" {
      assert Lowered(name) == "";
    } else {
      assert s[j + 1..j + 1 + |name[1..] + ";"|] == s[j..j + |name + ";"|][1..] == name[1..] + ";";
      ReadsName(s, j + 1, room - 1, name[1..]);
      assert Lowered(name) == [LowerCase(name[0])] + Lowered(name[1..]);
    }
  }

  lemma ReadsReference(s: string, i: nat, name: string, table: map<string, int>)
    requires TextAt(s, i, "&" + (name + ";")) && |name| <= 9
    requires forall k :: 0 <= k < |name| ==> !IsHigh(name[k]) && name[k] != ';'
    ensures i < |s| && s[i] == '&' && Reference(s, i, table) == CodePoint(Lowered(name), table)
    ensures CodePoint(Lowered(name), table) != 0 ==>
      Piece(s, i, table) == Utf8Text(CodePoint(Lowered(name), table)) && After(s, i, table) == i + |name| + 2
  {
    hide CodePoint, CodeName, Utf8Text;
    TextSplit(s, i, "&", name + ";");
    CharsAt(s, i, "&", 0);
    ReadsName(s, i + 1, 9, name);
  }

  /** Hexadecimal digits have no sign, no space and no prefix in front. */
  lemma NotPrefixed(d: string)
    requires d != "" && IsHexadecimal(d)
    ensures StrToL(Lowered(d), 16) == Digits(Lowered(d), 0, 16)
  {
    hide Digits;
    var x := Lowered(d);
    assert IsHexDigit(d[0]) && x[0] == LowerCase(d[0]);
    if |x| > 2 {
      assert IsHexDigit(d[1]) && x[1] == LowerCase(d[1]);
      assert x[..2][1] == x[1] != 'x';
    }
  }

  lemma DecimalName(d: string)
    requires d != "" && IsDecimal(d)
    ensures forall k :: 0 <= k < |"#" + d| ==> !IsHigh(("#" + d)[k]) && ("#" + d)[k] != ';'
    ensures forall table :: CodePoint(Lowered("#" + d), table) == Decimal(d)
  {
    hide Digits;
    var x := "#" + d;
    forall k | 0 <= k < |x| ensures !IsHigh(x[k]) && x[k] != ';' && LowerCase(x[k]) == x[k] {
      if k > 0 { assert x[k] == d[k - 1]; }
    }
    assert Lowered(x) == x && x[1..] == d && x[1] == d[0];
    ReadsDecimal(d);
  }

  lemma HexName(d: string)
    requires d != "" && IsHexadecimal(d)
    ensures forall k :: 0 <= k < |"#x" + d| ==> !IsHigh(("#x" + d)[k]) && ("#x" + d)[k] != ';'
    ensures forall table :: CodePoint(Lowered("#x" + d), table) == Hexadecimal(d)
  {
    hide Digits, StrToL;
    var x := "#x" + d;
    forall k | 0 <= k < |x| ensures !IsHigh(x[k]) && x[k] != ';' {
      if k > 1 { assert x[k] == d[k - 2] && IsHexDigit(d[k - 2]); }
    }
    assert Lowered(x)[..2] == "#x" && Lowered(x)[2..] == Lowered(d);
    assert Lowered(x)[0] == '#' && Lowered(x)[1] == 'x';
    NotPrefixed(d);
    ReadsHexadecimal(d);
  }

  /** A decimal reference is read as the character with that number. */
  lemma ReadsDecimalReference(s: string, i: nat, d: string, table: map<string, int>)
    requires d != "" && |d| <= 8 && IsDecimal(d) && Decimal(d) != 0 && TextAt(s, i, "&#" + d + ";")
    ensures i < |s| && Piece(s, i, table) == Utf8Text(Decimal(d)) && After(s, i, table) == i + |d| + 3
  {
    DecimalName(d);
    hide Utf8Text, CodeName, CodePoint, Lowered, IsDecimal;
    assert "&#" == "&" + "#";
    Regroup("&", "#", d, ";");
    ReadsReference(s, i, "#" + d, table);
  }

  /** So is a hexadecimal one, its digits of either case. */
  lemma ReadsHexReference(s: string, i: nat, d: string, table: map<string, int>)
    requires d != "" && |d| <= 7 && IsHexadecimal(d) && Hexadecimal(d) != 0 && TextAt(s, i, "&#x" + d + ";")
    ensures i < |s| && Piece(s, i, table) == Utf8Text(Hexadecimal(d)) && After(s, i, table) == i + |d| + 4
  {
    HexName(d);
    hide Utf8Text, CodeName, CodePoint, Lowered, IsHexadecimal;
    assert "&#x" == "&" + "#x";
    Regroup("&", "#x", d, ";");
    ReadsReference(s, i, "#x" + d, table);
  }

  /** A name in the table, in any case, is read as its character; another one is left as it is. */
  lemma ReadsNamedReference(s: string, i: nat, name: string, table: map<string, int>)
    requires |name| <= 9 && (name != "" ==> name[0] != '#') && TextAt(s, i, "&" + (name + ";"))
    requires forall k :: 0 <= k < |name| ==> !IsHigh(name[k]) && name[k] != ';'
    ensures i < |s|
    ensures
      if Lowered(name) in table && table[Lowered(name)] != 0 then
        Piece(s, i, table) == Utf8Text(table[Lowered(name)]) && After(s, i, table) == i + |name| + 2
      else Piece(s, i, table) == "&" && After(s, i, table) == i + 1
  {
    hide Utf8Text, CodeName;
    if name != "" { assert Lowered(name)[0] != '#'; }
    ReadsReference(s, i, name, table);
  }

  /** An ampersand without a semicolon among the next ten characters is left as it is. */
  lemma LeftAlone(s: string, i: nat, table: map<string, int>)
    requires i < |s| && s[i] == '&' && forall k :: i < k <= i + 10 && k < |s| ==> s[k] != ';'
    ensures Piece(s, i, table) == "&" && After(s, i, table) == i + 1
  {
    hide CodePoint;
    NameRoom(s, i + 1, 9);
  }

  lemma {:induction false} NameRoom(s: string, j: nat, room: nat)
    ensures |CodeName(s, j, room)| <= room
    decreases room
  {
    if room != 0 { NameRoom(s, j + 1, room - 1); }
  }

  lemma Regroup(a: string, b: string, c: string, d: string)
    ensures (a + b) + c + d == a + ((b + c) + d)
  {
  }

  // ------------------------------------------------------------------------- whole values

  datatype Numeral = Dec(d: string) | Hex(d: string)

  predicate NumeralOk(r: Numeral) {
    r.d != "" &&
    match r
    case Dec(d) => |d| <= 8 && IsDecimal(d) && Utf.IsScalar(Decimal(d))
    case Hex(d) => |d| <= 7 && IsHexadecimal(d) && Utf.IsScalar(Hexadecimal(d))
  }

  function NumeralText(r: Numeral): string { (if r.Dec? then "&#" else "&#x") + r.d + ";" }

  function Number(r: Numeral): nat
    requires NumeralOk(r)
  {
    if r.Dec? then Decimal(r.d) else Hexadecimal(r.d)
  }

  function NumeralsText(rs: seq<Numeral>): string {
    if rs == [] then "" else NumeralText(rs[0]) + NumeralsText(rs[1..])
  }

  predicate NumeralsOk(rs: seq<Numeral>) { forall k :: 0 <= k < |rs| ==> NumeralOk(rs[k]) }

  function Numbers(rs: seq<Numeral>): seq<int>
    requires NumeralsOk(rs)
  {
    if rs == [] then [] else [Number(rs[0])] + Numbers(rs[1..])
  }

  /** Characters as bytes. */
  function ByteValues(s: string): seq<int> { seq(|s|, k requires 0 <= k < |s| => s[k] as int) }

  lemma Utf8Bytes(c: int)
    ensures ByteValues(Utf8Text(c)) == Utf.Encode8(c)
  {
    assert forall k :: 0 <= k < |Utf.Encode8(c)| ==> Utf.Encode8(c)[k] in Utf.Encode8(c);
  }

  lemma ReadsNumeral(s: string, i: nat, r: Numeral, table: map<string, int>)
    requires NumeralOk(r) && TextAt(s, i, NumeralText(r))
    ensures i < |s| && Piece(s, i, table) == Utf8Text(Number(r)) && After(s, i, table) == i + |NumeralText(r)|
  {
    match r
    case Dec(d) => ReadsDecimalReference(s, i, d, table);
    case Hex(d) => ReadsHexReference(s, i, d, table);
  }

  /** A value of numeric references is read as the characters with these numbers, whatever stands around it. */
  lemma {:induction false} NumeralsRead(rs: seq<Numeral>, s: string, i: nat, n: nat, table: map<string, int>)
    requires NumeralsOk(rs) && i <= n <= |s| && s[i..n] == NumeralsText(rs)
    ensures ByteValues(Unescaped(s, i, n, table)) == Utf.EncodeAll8(Numbers(rs))
    ensures Unicode.Read8(ByteValues(Unescaped(s, i, n, table))) == Unicode.Points(Numbers(rs))
    decreases |rs|
  {
    hide Piece, After, NumeralText, Number, Utf8Text, Unicode.Read8, Utf.Encode8, NumeralOk;
    if rs == [] {
    } else {
      var t := NumeralText(rs[0]);
      HeadAt(s, i, n, t, NumeralsText(rs[1..]));
      ReadsNumeral(s, i, rs[0], table);
      NumeralsRead(rs[1..], s, i + |t|, n, table);
      Utf8Bytes(Number(rs[0]));
      var a, b := Piece(s, i, table), Unescaped(s, i + |t|, n, table);
      assert ByteValues(a + b) == ByteValues(a) + ByteValues(b);
    }
    NumbersScalar(rs);
    Unicode.Written8(Numbers(rs));
  }

  lemma {:induction false} NumbersScalar(rs: seq<Numeral>)
    requires NumeralsOk(rs)
    ensures forall k :: 0 <= k < |Numbers(rs)| ==> Utf.IsScalar(Numbers(rs)[k])
  {
    if rs != [] {
      NumbersScalar(rs[1..]);
      assert NumeralOk(rs[0]);
    }
  }

  // ------------------------------------------------------------------------ references kept

  /** An ampersand, the first character of a name, more of it, and a semicolon. */
  predicate IsReference(t: string) {
    |t| > 2 && t[0] == '&' && StartsEntityRef(t[1]) && t[|t| - 1] == ';' &&
    forall k :: 2 <= k < |t| - 1 ==> InEntityRef(t[k])
  }

  lemma {:induction false} ScanFinds(s: string, j: nat, e: nat)
    requires j < e <= |s| && s[e - 1] == ';' && forall k :: j <= k < e - 1 ==> InEntityRef(s[k])
    ensures RefScan(s, j) == e
    decreases e - j
  {
    if j < e - 1 { ScanFinds(s, j + 1, e); }
  }

  /** The reference that begins at i, if one does, is what RefEnd finds. */
  lemma ReferenceFound(s: string, i: nat)
    requires i < |s| && s[i] == '&'
    ensures forall e :: i < e <= |s| && IsReference(s[i..e]) ==> RefEnd(s, i) == e
    ensures RefEnd(s, i) != 0 ==> IsReference(s[i..RefEnd(s, i)])
  {
    forall e | i < e <= |s| && IsReference(s[i..e]) ensures RefEnd(s, i) == e {
      var t := s[i..e];
      assert forall k :: 0 <= k < |t| ==> t[k] == s[i + k];
      forall k | i + 2 <= k < e - 1 ensures InEntityRef(s[k]) { assert t[k - i] == s[k]; }
      assert s[i + 1] == t[1];
      ScanFinds(s, i + 2, e);
    }
    if RefEnd(s, i) != 0 {
      RefScanChars(s, i + 2);
      var t := s[i..RefEnd(s, i)];
      assert forall k :: 0 <= k < |t| ==> t[k] == s[i + k];
    }
  }

  lemma FoundIsReference(s: string, i: nat)
    requires i < |s| && s[i] == '&' && RefEnd(s, i) != 0
    ensures i < RefEnd(s, i) <= |s| && IsReference(s[i..RefEnd(s, i)])
  {
    ReferenceFound(s, i);
  }

  /** What a reference is read as: what it stands for, or itself. */
  function Meaning(t: string, table: map<string, int>): string
    requires IsReference(t)
  {
    if Reference(t, 0, table) == 0 then t else Utf8Text(Reference(t, 0, table))
  }

  /** A text in which references stand for something, and nothing else does. */
  function Meant(v: string, j: nat, table: map<string, int>): string
    requires j <= |v|
    decreases |v| - j
  {
    if j == |v| then ""
    else if v[j] == '&' && RefEnd(v, j) != 0 then
      FoundIsReference(v, j);
      Meaning(v[j..RefEnd(v, j)], table) + Meant(v, RefEnd(v, j), table)
    else [v[j]] + Meant(v, j + 1, table)
  }

  // What a reference is read as depends on it alone, up to its semicolon.
  lemma {:induction false} NameWithin(s: string, i: nat, t: string, j: nat, room: nat)
    requires TextAt(s, i, t) && t != "" && t[|t| - 1] == ';' && j < |t|
    ensures CodeName(s, i + j, room) == CodeName(t, j, room) && j + |CodeName(t, j, room)| < |t|
    decreases room
  {
    CharsAt(s, i, t, j);
    if room != 0 && !IsHigh(t[j]) && t[j] != ';' { NameWithin(s, i, t, j + 1, room - 1); }
  }

  lemma ReferenceWithin(s: string, i: nat, t: string, table: map<string, int>)
    requires TextAt(s, i, t) && |t| > 1 && t[|t| - 1] == ';'
    ensures Reference(s, i, table) == Reference(t, 0, table) && 1 + |CodeName(t, 1, 9)| < |t|
  {
    hide CodePoint, CodeName;
    NameWithin(s, i, t, 1, 9);
    CharsAt(s, i, t, 1 + |CodeName(t, 1, 9)|);
  }

  /** In a reference the code name either ends at its semicolon or stands for nothing. */
  lemma {:induction false} NameToEnd(t: string, j: nat, room: nat)
    requires |t| > 2 && 0 < j < |t| && t[|t| - 1] == ';' && forall k :: j <= k < |t| - 1 ==> t[k] != ';'
    ensures CharAt(t, j + |CodeName(t, j, room)|) == ';' ==> j + |CodeName(t, j, room)| == |t| - 1
    ensures j + |CodeName(t, j, room)| < |t|
    decreases room
  {
    if room != 0 && !IsHigh(t[j]) && t[j] != ';' { NameToEnd(t, j + 1, room - 1); }
  }

  lemma NoSemicolon(t: string)
    requires IsReference(t)
    ensures forall k :: 0 <= k < |t| - 1 ==> t[k] != ';' && (0 < k ==> t[k] != '&')
  {
  }

  lemma {:induction false} PlainReads(s: string, i: nat, n: nat, t: string, table: map<string, int>)
    requires TextAt(s, i, t) && i + |t| <= n <= |s| && forall k :: 0 <= k < |t| ==> t[k] != '&'
    ensures Unescaped(s, i, n, table) == t + Unescaped(s, i + |t|, n, table)
    decreases |t|
  {
    hide Unescaped, Piece, After, TextAt;
    var rest := Unescaped(s, i + |t|, n, table);
    if t == "" {
      assert t + rest == rest;
    } else {
      assert t == [t[0]] + t[1..];
      TextSplit(s, i, [t[0]], t[1..]);
      ReadsPlain(s, i, t[0], table);
      UnescapedStep(s, i, n, table);
      PlainReads(s, i + 1, n, t[1..], table);
      Appended([t[0]], t[1..], rest);
    }
  }

  lemma InText(s: string, i: nat, t: string, n: nat)
    requires TextAt(s, i, t) && t != "" && i + |t| <= n
    ensures i < |s| && i < n && s[i] == t[0]
  {
    CharsAt(s, i, t, 0);
  }

  lemma ReadsTail(s: string, i: nat, n: nat, t: string, table: map<string, int>)
    requires TextAt(s, i, t) && t != "" && i + |t| <= n <= |s| && forall k :: 0 < k < |t| ==> t[k] != '&'
    requires i < |s| && Piece(s, i, table) == [t[0]] && After(s, i, table) == i + 1
    ensures Unescaped(s, i, n, table) == t + Unescaped(s, i + |t|, n, table)
  {
    hide Unescaped, Piece, After, TextAt;
    UnescapedStep(s, i, n, table);
    assert t == [t[0]] + t[1..];
    TextSplit(s, i, [t[0]], t[1..]);
    PlainReads(s, i + 1, n, t[1..], table);
    Appended([t[0]], t[1..], Unescaped(s, i + |t|, n, table));
  }

  /** An unknown reference is read as it stands. */
  lemma ReadsUnknown(s: string, i: nat, n: nat, t: string, table: map<string, int>)
    requires IsReference(t) && TextAt(s, i, t) && i + |t| <= n <= |s| && Reference(s, i, table) == 0
    ensures Unescaped(s, i, n, table) == t + Unescaped(s, i + |t|, n, table)
  {
    hide Unescaped, Reference, InEntityRef, StartsEntityRef;
    InText(s, i, t, n);
    NoSemicolon(t);
    ReadsTail(s, i, n, t, table);
  }

  lemma ReadsKnown(s: string, i: nat, n: nat, t: string, table: map<string, int>)
    requires IsReference(t) && TextAt(s, i, t) && i + |t| <= n <= |s| && Reference(s, i, table) != 0
    ensures Unescaped(s, i, n, table) == Utf8Text(Reference(s, i, table)) + Unescaped(s, i + |t|, n, table)
  {
    hide CodePoint, CodeName, Utf8Text;
    InText(s, i, t, n);
    NoSemicolon(t);
    NameToEnd(t, 1, 9);
    NameWithin(s, i, t, 1, 9);
    CharsAt(s, i, t, 1 + |CodeName(t, 1, 9)|);
    UnescapedStep(s, i, n, table);
  }

  /** A reference is read as what it means, wherever it stands. */
  lemma ReadsKept(s: string, i: nat, n: nat, t: string, table: map<string, int>)
    requires IsReference(t) && TextAt(s, i, t) && i + |t| <= n <= |s|
    ensures Unescaped(s, i, n, table) == Meaning(t, table) + Unescaped(s, i + |t|, n, table)
  {
    ReferenceWithin(s, i, t, table);
    hide Reference, Unescaped, Utf8Text;
    if Reference(s, i, table) == 0 { ReadsUnknown(s, i, n, t, table); } else { ReadsKnown(s, i, n, t, table); }
  }

  /** One character or reference of an escaped text, and the rest. */
  lemma EscapedParts(v: string, j: nat, quotes: bool)
    requires j < |v|
    ensures Escaped(v, j, quotes, true) ==
      if v[j] == '&' && RefEnd(v, j) != 0 then v[j..RefEnd(v, j)] + Escaped(v, RefEnd(v, j), quotes, true)
      else (if Replaced(v[j], quotes) then Entity(v[j]) else [v[j]]) + Escaped(v, j + 1, quotes, true)
  {
    hide RefScan;
  }

  /**
    Text escaped with its references kept reads back with the references as what they mean and all
    else as it was.
   */
  lemma {:induction false} UnescapeKept(v: string, j: nat, quotes: bool, s: string, i: nat, n: nat,
    table: map<string, int>)
    requires j <= |v| && i <= n <= |s| && HasXmlEntities(table)
    requires s[i..n] == Escaped(v, j, quotes, true)
    ensures Unescaped(s, i, n, table) == Meant(v, j, table)
    decreases |v| - j
  {
    hide Piece, After, Meaning, IsReference, HasXmlEntities, RefEnd, Escaped, TextAt, Entity, Unescaped, Meant;
    if j == |v| {
      NothingMeant(v, quotes, s, i, n, table);
    } else {
      EscapedParts(v, j, quotes);
      MeantParts(v, j, table);
      if v[j] == '&' && RefEnd(v, j) != 0 {
        var e := RefEnd(v, j);
        FoundIsReference(v, j);
        HeadAt(s, i, n, v[j..e], Escaped(v, e, quotes, true));
        UnescapeKept(v, e, quotes, s, i + (e - j), n, table);
        ReadsKept(s, i, n, v[j..e], table);
      } else {
        var head := if Replaced(v[j], quotes) then Entity(v[j]) else [v[j]];
        HeadAt(s, i, n, head, Escaped(v, j + 1, quotes, true));
        UnescapeKept(v, j + 1, quotes, s, i + |head|, n, table);
        ReadsOne(s, i, n, v[j], quotes, table);
      }
    }
  }

  lemma NothingMeant(v: string, quotes: bool, s: string, i: nat, n: nat, table: map<string, int>)
    requires i <= n <= |s| && s[i..n] == Escaped(v, |v|, quotes, true)
    ensures Unescaped(s, i, n, table) == "" == Meant(v, |v|, table)
  {
    assert s[i..n] == "";
  }

  lemma MeantParts(v: string, j: nat, table: map<string, int>)
    requires j < |v|
    ensures v[j] == '&' && RefEnd(v, j) != 0 ==>
      j < RefEnd(v, j) <= |v| && IsReference(v[j..RefEnd(v, j)]) &&
      Meant(v, j, table) == Meaning(v[j..RefEnd(v, j)], table) + Meant(v, RefEnd(v, j), table)
    ensures !(v[j] == '&' && RefEnd(v, j) != 0) ==> Meant(v, j, table) == [v[j]] + Meant(v, j + 1, table)
  {
    hide IsReference, Meaning, RefScan;
    if v[j] == '&' && RefEnd(v, j) != 0 { FoundIsReference(v, j); }
  }

  lemma ReadsOne(s: string, i: nat, n: nat, c: char, quotes: bool, table: map<string, int>)
    requires HasXmlEntities(table) && n <= |s|
    requires var head := if Replaced(c, quotes) then Entity(c) else [c]; TextAt(s, i, head) && i + |head| <= n
    ensures var head := if Replaced(c, quotes) then Entity(c) else [c];
      Unescaped(s, i, n, table) == [c] + Unescaped(s, i + |head|, n, table)
  {
    hide Piece, After, HasXmlEntities, TextAt, Unescaped;
    if Replaced(c, quotes) { ReadsEntity(s, i, c, table); } else { ReadsPlain(s, i, c, table); }
    UnescapedStep(s, i, n, table);
  }

  // ------------------------------------------------- kept references, cut by one character

  /** The text but for its last character, which is no closing bracket. */
  predicate CutOff(u: string, m: string) { m != "" && u == m[..|m| - 1] && m[|m| - 1] != '>' }

  lemma CutOffBehind(a: string, u: string, m: string)
    requires CutOff(u, m)
    ensures CutOff(a + u, a + m)
  {
    assert (a + m)[..|a + m| - 1] == a + m[..|m| - 1];
  }

  lemma LastKept(s: string, i: nat, n: nat, t: string, table: map<string, int>)
    requires IsReference(t) && TextAt(s, i, t) && i + |t| == n <= |s|
    ensures var u := Unescaped(s, i, n - 1, table); u == Meaning(t, table) || CutOff(u, Meaning(t, table))
  {
    ReferenceWithin(s, i, t, table);
    InText(s, i, t, n);
    UnescapedStep(s, i, n - 1, table);
    NoSemicolon(t);
    if Reference(s, i, table) == 0 {
      LastUnknown(s, i, n, t, table);
    } else {
      LastKnown(s, i, n, t, table);
    }
  }

  lemma LastUnknown(s: string, i: nat, n: nat, t: string, table: map<string, int>)
    requires IsReference(t) && TextAt(s, i, t) && i + |t| == n <= |s| && Reference(s, i, table) == 0
    ensures CutOff(Unescaped(s, i, n - 1, table), t)
  {
    hide Unescaped, Reference, InEntityRef, StartsEntityRef, TextAt;
    InText(s, i, t, n);
    NoSemicolon(t);
    var x := t[..|t| - 1];
    assert t == x + [t[|t| - 1]];
    TextSplit(s, i, x, [t[|t| - 1]]);
    ReadsTail(s, i, n - 1, x, table);
    NothingUnescaped(s, n - 1, table);
    assert x + "" == x;
  }

  lemma NothingUnescaped(s: string, n: nat, table: map<string, int>)
    requires n <= |s|
    ensures Unescaped(s, n, n, table) == ""
  {
  }

  lemma LastKnown(s: string, i: nat, n: nat, t: string, table: map<string, int>)
    requires IsReference(t) && TextAt(s, i, t) && i + |t| == n <= |s| && Reference(s, i, table) != 0
    ensures Unescaped(s, i, n - 1, table) == Utf8Text(Reference(s, i, table))
  {
    hide CodePoint, CodeName, Utf8Text;
    InText(s, i, t, n);
    NoSemicolon(t);
    NameToEnd(t, 1, 9);
    NameWithin(s, i, t, 1, 9);
    CharsAt(s, i, t, 1 + |CodeName(t, 1, 9)|);
    UnescapedStep(s, i, n - 1, table);
  }

  /** Text escaped with its references kept, but for its last character. */
  lemma {:induction false} CutKept(v: string, j: nat, quotes: bool, s: string, i: nat, n: nat, table: map<string, int>)
    requires j < |v| && i <= n <= |s| && HasXmlEntities(table) && s[i..n] == Escaped(v, j, quotes, true)
    ensures i < n
    ensures var u, m := Unescaped(s, i, n - 1, table), Meant(v, j, table); u == m || CutOff(u, m)
    decreases |v| - j
  {
    hide Piece, After, Meaning, IsReference, HasXmlEntities, RefEnd, Escaped, TextAt, Entity, Unescaped, Meant, CutOff;
    EscapedParts(v, j, quotes);
    MeantParts(v, j, table);
    if v[j] == '&' && RefEnd(v, j) != 0 {
      var e := RefEnd(v, j);
      var t := v[j..e];
      FoundIsReference(v, j);
      HeadAt(s, i, n, t, Escaped(v, e, quotes, true));
      if e == |v| {
        NothingKept(v, quotes, table);
        assert s[i + |t|..n] == "" && Meaning(t, table) + "" == Meaning(t, table);
        LastKept(s, i, n, t, table);
      } else {
        CutKept(v, e, quotes, s, i + |t|, n, table);
        ReadsKept(s, i, n - 1, t, table);
        Prefixed(Meaning(t, table), Unescaped(s, i + |t|, n - 1, table), Meant(v, e, table));
      }
    } else {
      var head := if Replaced(v[j], quotes) then Entity(v[j]) else [v[j]];
      HeadAt(s, i, n, head, Escaped(v, j + 1, quotes, true));
      if j + 1 == |v| {
        NothingKept(v, quotes, table);
        assert s[i + |head|..n] == "" && [v[j]] + "" == [v[j]];
        LastOne(s, i, n, v[j], quotes, table);
      } else {
        CutKept(v, j + 1, quotes, s, i + |head|, n, table);
        ReadsOne(s, i, n - 1, v[j], quotes, table);
        Prefixed([v[j]], Unescaped(s, i + |head|, n - 1, table), Meant(v, j + 1, table));
      }
    }
  }

  lemma Prefixed(a: string, u: string, m: string)
    requires u == m || CutOff(u, m)
    ensures a + u == a + m || CutOff(a + u, a + m)
  {
    if u != m { CutOffBehind(a, u, m); }
  }

  lemma NothingKept(v: string, quotes: bool, table: map<string, int>)
    ensures Escaped(v, |v|, quotes, true) == "" && Meant(v, |v|, table) == ""
  {
  }

  lemma LastOne(s: string, i: nat, n: nat, c: char, quotes: bool, table: map<string, int>)
    requires HasXmlEntities(table) && n <= |s|
    requires var head := if Replaced(c, quotes) then Entity(c) else [c]; TextAt(s, i, head) && i + |head| == n
    ensures i < n
    ensures var u := Unescaped(s, i, n - 1, table); u == [c] || CutOff(u, [c])
  {
    hide HasXmlEntities, TextAt, Piece, After;
    if Replaced(c, quotes) {
      ReadsEntity(s, i, c, table);
      UnescapedStep(s, i, n - 1, table);
    } else {
      assert [c][..0] == "";
    }
  }

  /** It is not read as it was meant from one character further left, behind a bracket. */
  lemma KeptShifted(v: string, quotes: bool, s: string, i: nat, n: nat, table: map<string, int>)
    requires v != "" && 0 < i <= n <= |s| && HasXmlEntities(table) && s[i..n] == Escaped(v, 0, quotes, true)
    requires s[i - 1] == '>'
    ensures i < n && Unescaped(s, i - 1, n - 1, table) != Meant(v, 0, table)
  {
    CutKept(v, 0, quotes, s, i, n, table);
    hide Meant, Escaped, Piece, After;
    var u, m := Unescaped(s, i, n - 1, table), Meant(v, 0, table);
    UnescapedStep(s, i - 1, n - 1, table);
    BracketReads(s, i - 1, table);
    if u != m && ">" + u == m { ShiftedText(m, |m| - 1); }
  }

  lemma BracketReads(s: string, i: nat, table: map<string, int>)
    requires i < |s| && s[i] == '>'
    ensures Piece(s, i, table) == ">" && After(s, i, table) == i + 1
  {
  }

  lemma {:induction false} ShiftedText(m: string, k: nat)
    requires 0 < |m| && ">" + m[..|m| - 1] == m && k < |m|
    ensures m[k] == '>'
  {
    if k > 0 {
      ShiftedText(m, k - 1);
      assert m[k] == (">" + m[..|m| - 1])[k] == m[k - 1];
    }
  }
}
