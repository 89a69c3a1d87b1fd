/** The Base64 codec of RFC 4648, section 4. */
module Base64 {
  // demos/openssl/main.cpp; / and % stand for shifts and masks of bytes.

  type Byte = x: int | 0 <= x < 256

  const Upper: string := "ABCDEFGHIJKLMNOPQRSTUVWXYZ"
  const Lower: string := "abcdefghijklmnopqrstuvwxyz"
  const Signs: string := "0123456789+/"
  const Chars: string := Upper + Lower + Signs

  predicate IsBase64(c: char) {
    'A' <= c <= 'Z' || 'a' <= c <= 'z' || '0' <= c <= '9' || c == '+' || c == '/'
  }

  /** The position of c in Chars; npos, cut to a byte, when it is not there. */
  function Index(c: char): (i: Byte) {
    if 'A' <= c <= 'Z' then c as int - 'A' as int
    else if 'a' <= c <= 'z' then c as int - 'a' as int + 26
    else if '0' <= c <= '9' then c as int - '0' as int + 52
    else if c == '+' then 62
    else if c == '/' then 63
    else 255
  }

  lemma UpperTable(i: nat)
    requires i < 26
    ensures |Upper| == 26 && Upper[i] as int == 'A' as int + i
  {
  }

  lemma LowerTable(i: nat)
    requires i < 26
    ensures |Lower| == 26 && Lower[i] as int == 'a' as int + i
  {
  }

  lemma SignsTable(i: nat)
    requires i < 12
    ensures |Signs| == 12 && IsBase64(Signs[i]) && Signs[i] != '=' && Index(Signs[i]) == 52 + i
  {
  }

  /** Index finds every character of the table where it stands. */
  lemma Table(i: nat)
    requires i < 64
    ensures |Chars| == 64 && IsBase64(Chars[i]) && Chars[i] != '=' && Index(Chars[i]) == i
  {
    hide Upper, Lower, Signs;
    UpperTable(if i < 26 then i else 0);
    LowerTable(if 26 <= i < 52 then i - 26 else 0);
    SignsTable(if 52 <= i then i - 52 else 0);
  }

  // --------------------------------------------------------------------------- encoding

  function Digit0(a: Byte): nat { a / 4 }

  function Digit1(a: Byte, b: Byte): nat { a % 4 * 16 + b / 16 }

  function Digit2(b: Byte, c: Byte): nat { b % 16 * 4 + c / 64 }

  function Digit3(c: Byte): nat { c % 64 }

  function Letter(d: nat): (c: char)
    requires d < 64
    ensures IsBase64(c) && Index(c) == d
  {
    Table(d);
    Chars[d]
  }

  /** The alphabet: capitals, small letters, digits, and the two signs. */
  lemma Alphabet(d: nat)
    requires d < 64
    ensures d < 26 ==> Letter(d) as int == 'A' as int + d
    ensures 26 <= d < 52 ==> Letter(d) as int == 'a' as int + (d - 26)
    ensures 52 <= d < 62 ==> Letter(d) as int == '0' as int + (d - 52)
    ensures d == 62 ==> Letter(d) == '+'
    ensures d == 63 ==> Letter(d) == '/'
  {
    hide Upper, Lower, Signs, Chars;
  }

  function Quad(a: Byte, b: Byte, c: Byte): (q: string)
    ensures |q| == 4 && forall k :: 0 <= k < 4 ==> IsBase64(q[k])
  {
    DigitsFit(a, b, c);
    [Letter(Digit0(a)), Letter(Digit1(a, b)), Letter(Digit2(b, c)), Letter(Digit3(c))]
  }

  function Encoded(b: seq<Byte>): string {
    if b == [] then ""
    else if |b| == 1 then Quad(b[0], 0, 0)[..2] + "=="
    else if |b| == 2 then Quad(b[0], b[1], 0)[..3] + "="
    else Quad(b[0], b[1], b[2]) + Encoded(b[3..])
  }

  method Encode(bytes: seq<Byte>) returns (ret: string)
    ensures ret == Encoded(bytes)
  {
    hide Encoded, Quad, IsBase64;
    ret := "";
    var three := new Byte[3](_ => 0);
    var i, at := 0, 0;
    while at < |bytes|
      invariant 0 <= i < 3 && i <= at <= |bytes|
      invariant three[..i] == bytes[at - i..at]
      invariant ret + Encoded(bytes[at - i..]) == Encoded(bytes)
    {
      three[i] := bytes[at];
      i, at := i + 1, at + 1;
      assert three[..i] == three[..i - 1] + [bytes[at - 1]];
      assert bytes[at - i..at] == bytes[at - i..at - 1] + [bytes[at - 1]];
      if i == 3 {
        GroupEncoded(ret, bytes, at, three[..]);
        ret := Emit(ret, three, 4);
        i := 0;
      }
    }
    assert bytes[at - i..at] == bytes[at - i..];
    EncodedTail(bytes[at - i..]);
    if i != 0 { ret := Finish(ret, three, i); }
  }

  lemma GroupEncoded(ret: string, bytes: seq<Byte>, at: nat, three: seq<Byte>)
    requires 3 <= at <= |bytes| && |three| == 3 && three[..3] == bytes[at - 3..at]
    ensures ret + Quad(three[0], three[1], three[2])[..4] + Encoded(bytes[at..]) == ret + Encoded(bytes[at - 3..])
  {
    hide Encoded, Quad, IsBase64;
    var rest := bytes[at - 3..];
    assert rest[3..] == bytes[at..] && rest[..3] == bytes[at - 3..at];
    assert rest[0] == three[..3][0] && rest[1] == three[..3][1] && rest[2] == three[..3][2];
    assert Quad(three[0], three[1], three[2])[..4] == Quad(three[0], three[1], three[2]);
    EncodedStep(ret, rest);
  }

  /** Appends the last group, of n bytes. */
  method Finish(ret: string, three: array<Byte>, n: nat) returns (r: string)
    requires three.Length == 3 && 0 < n < 3
    modifies three
    ensures r == ret + Encoded(old(three[..n]))
  {
    hide Encoded, Quad, IsBase64;
    EncodedTail(three[..n]);
    for j := n to 3
      invariant three[..n] == old(three[..n]) && forall k :: n <= k < j ==> three[k] == 0
    {
      three[j] := 0;
    }
    r := Emit(ret, three, n + 1);
    var i := n;
    while i < 3
      invariant n <= i <= 3 && r == ret + (Quad(three[0], three[1], three[2])[..n + 1] + "=="[..i - n])
    {
      r := r + ['='];
      i := i + 1;
    }
  }

  lemma EncodedStep(ret: string, b: seq<Byte>)
    requires |b| >= 3
    ensures ret + Quad(b[0], b[1], b[2]) + Encoded(b[3..]) == ret + Encoded(b)
  {
    hide Quad, IsBase64;
    Regroup(ret, Quad(b[0], b[1], b[2]), Encoded(b[3..]));
  }

  lemma EncodedTail(b: seq<Byte>)
    requires |b| < 3
    ensures b == [] ==> Encoded(b) == ""
    ensures |b| == 1 ==> Encoded(b) == Quad(b[0], 0, 0)[..2] + "=="
    ensures |b| == 2 ==> Encoded(b) == Quad(b[0], b[1], 0)[..3] + "="
  {
  }

  /** Appends the first n characters of the group in three. */
  method Emit(ret: string, three: array<Byte>, n: nat) returns (r: string)
    requires three.Length == 3 && n <= 4
    ensures r == ret + Quad(three[0], three[1], three[2])[..n]
  {
    var four := Split(three);
    r := ret;
    for j := 0 to n
      invariant r == ret + Quad(three[0], three[1], three[2])[..j]
    {
      r := r + [Letter(four[j])];
    }
  }

  method Split(three: array<Byte>) returns (four: array<nat>)
    requires three.Length == 3
    ensures fresh(four) &&
      four[..] == [Digit0(three[0]), Digit1(three[0], three[1]), Digit2(three[1], three[2]), Digit3(three[2])]
  {
    four := new nat[4];
    four[0] := three[0] / 4;
    four[1] := three[0] % 4 * 16 + three[1] / 16;
    four[2] := three[1] % 16 * 4 + three[2] / 64;
    four[3] := three[2] % 64;
  }

  // --------------------------------------------------------------------------- decoding

  function Byte0(p: Byte, q: Byte): Byte { (p * 4 + q % 64 / 16) % 256 }

  function Byte1(q: Byte, r: Byte): Byte { (q % 16 * 16 + r % 64 / 4) % 256 }

  function Byte2(r: Byte, s: Byte): Byte { (r % 4 * 64 + s) % 256 }

  /** The characters up to the first that is not one of the 64. */
  function Body(s: string): (b: string)
    ensures forall k :: 0 <= k < |b| ==> IsBase64(b[k])
    ensures |b| <= |s| && b == s[..|b|] && (|b| < |s| ==> !IsBase64(s[|b|]))
  {
    if s == "" || !IsBase64(s[0]) then "" else [s[0]] + Body(s[1..])
  }

  /** What the characters stand for; no byte is made of missing characters. */
  function Decoded(s: string): seq<Byte> {
    if |s| < 2 then []
    else if |s| == 2 then [Byte0(Index(s[0]), Index(s[1]))]
    else if |s| == 3 then [Byte0(Index(s[0]), Index(s[1])), Byte1(Index(s[1]), Index(s[2]))]
    else Triple(s[..4]) + Decoded(s[4..])
  }

  function Triple(s: string): (t: seq<Byte>)
    requires |s| >= 4
    ensures |t| == 3
  {
    [Byte0(Index(s[0]), Index(s[1])), Byte1(Index(s[1]), Index(s[2])), Byte2(Index(s[2]), Index(s[3]))]
  }

  method Decode(s: string) returns (ret: seq<Byte>)
    ensures ret == Decoded(Body(s))
  {
    hide Decoded, Triple, Body, Index;
    ret := [];
    var codes := new char[4](_ => '\0');
    var i, at := 0, 0;
    ghost var body := Body(s);
    while at < |s| && s[at] != '=' && IsBase64(s[at])
      invariant 0 <= i < 4 && i <= at <= |body|
      invariant forall k :: 0 <= k < i ==> codes[k] == body[at - i + k]
      invariant ret + Decoded(body[at - i..]) == Decoded(body)
      decreases |s| - at
    {
      codes[i] := s[at];
      i, at := i + 1, at + 1;
      if i == 4 {
        DecodedStep(ret, body[at - 4..]);
        assert body[at - 4..][4..] == body[at..];
        assert codes[..] == body[at - 4..][..4];
        var three := Join(codes);
        ret := ret + three;
        i := 0;
      }
    }
    assert at == |body|;
    DecodedTail("", codes[..]);
    if i != 0 {
      for j := i to 4
        invariant forall k :: 0 <= k < i ==> codes[k] == body[at - i + k]
      {
        codes[j] := '\0';
      }
      assert codes[..i] == body[at - i..];
      DecodedTail(body[at - i..], codes[..]);
      var three := Join(codes);
      ret := ret + three[..i - 1];
    }
  }

  lemma DecodedStep(ret: seq<Byte>, s: string)
    requires |s| >= 4
    ensures ret + Triple(s[..4]) + Decoded(s[4..]) == ret + Decoded(s)
  {
    hide Triple, Index;
    Regroup(ret, Triple(s[..4]), Decoded(s[4..]));
  }

  lemma DecodedTail(s: string, codes: string)
    requires |s| < 4 <= |codes| && codes[..|s|] == s
    ensures s == "" ==> Decoded(s) == []
    ensures s != "" ==> Decoded(s) == Triple(codes)[..|s| - 1]
  {
  }

  method Join(codes: array<char>) returns (three: seq<Byte>)
    requires codes.Length == 4
    ensures three == Triple(codes[..])
  {
    var p, q, r, s := Index(codes[0]), Index(codes[1]), Index(codes[2]), Index(codes[3]);
    three := [Byte0(p, q), Byte1(q, r), Byte2(r, s)];
  }

  // ------------------------------------------------------------------------ the round trip

  lemma Parts(u: nat, v: nat)
    ensures v < 16 ==> (u * 16 + v) / 16 == u && (u * 16 + v) % 16 == v
    ensures v < 4 ==> (u * 4 + v) / 4 == u && (u * 4 + v) % 4 == v
  {
  }

  lemma DigitsFit(a: Byte, b: Byte, c: Byte)
    ensures Digit0(a) < 64 && Digit1(a, b) < 64 && Digit2(b, c) < 64 && Digit3(c) < 64
  {
  }

  lemma Back0(a: Byte, b: Byte)
    ensures Digit0(a) < 64 && Digit1(a, b) < 64 && Byte0(Digit0(a), Digit1(a, b)) == a
  {
    DigitsFit(a, b, 0);
    Parts(a % 4, b / 16);
  }

  lemma Back1(a: Byte, b: Byte, c: Byte)
    ensures Digit1(a, b) < 64 && Digit2(b, c) < 64 && Byte1(Digit1(a, b), Digit2(b, c)) == b
  {
    DigitsFit(a, b, c);
    Parts(a % 4, b / 16);
    Parts(b % 16, c / 64);
    hide Byte1;
    Byte1Is(Digit1(a, b), Digit2(b, c), b);
  }

  lemma Byte1Is(q: Byte, r: Byte, b: Byte)
    requires q % 16 == b / 16 && r < 64 && r / 4 == b % 16
    ensures Byte1(q, r) == b
  {
  }

  lemma Back2(b: Byte, c: Byte)
    ensures Digit2(b, c) < 64 && Digit3(c) < 64 && Byte2(Digit2(b, c), Digit3(c)) == c
  {
    DigitsFit(0, b, c);
    Parts(b % 16, c / 64);
  }

  function Padding(n: nat): nat { (3 - n % 3) % 3 }

  /** The characters that carry the bytes. */
  function Digits(b: seq<Byte>): string {
    if b == [] then ""
    else if |b| == 1 then Quad(b[0], 0, 0)[..2]
    else if |b| == 2 then Quad(b[0], b[1], 0)[..3]
    else Quad(b[0], b[1], b[2]) + Digits(b[3..])
  }

  /** Four characters for every three bytes, the last ones padding. */
  lemma {:induction false} EncodedShape(b: seq<Byte>)
    ensures |Encoded(b)| == (|b| + 2) / 3 * 4 && |Digits(b)| == |Encoded(b)| - Padding(|b|)
    ensures Encoded(b) == Digits(b) + "=="[..Padding(|b|)]
  {
    hide Quad, IsBase64;
    if |b| >= 3 {
      EncodedShape(b[3..]);
      Regroup(Quad(b[0], b[1], b[2]), Digits(b[3..]), "=="[..Padding(|b|)]);
    } else if b != [] {
      TailShape(b);
    } else {
      assert "" + "=="[..0] == "";
    }
  }

  lemma TailShape(b: seq<Byte>)
    requires 0 < |b| < 3
    ensures Padding(|b|) == 3 - |b| && Encoded(b) == Digits(b) + "=="[..Padding(|b|)]
    ensures |Digits(b)| == |b| + 1
  {
    hide Quad, IsBase64;
    assert "=="[..2] == "==" && "=="[..1] == "=";
  }

  lemma {:induction false} DigitsAreBase64(b: seq<Byte>)
    ensures forall k :: 0 <= k < |Digits(b)| ==> IsBase64(Digits(b)[k])
  {
    hide Quad, IsBase64;
    if |b| >= 3 { DigitsAreBase64(b[3..]); }
  }

  lemma Regroup<T>(a: seq<T>, b: seq<T>, c: seq<T>)
    ensures a + (b + c) == a + b + c
  {
  }

  lemma {:induction false} BodyOfDigits(d: string, pad: string)
    requires forall k :: 0 <= k < |d| ==> IsBase64(d[k])
    requires pad == "" || pad[0] == '='
    ensures Body(d + pad) == d
  {
    if d != "" {
      assert (d + pad)[1..] == d[1..] + pad;
      BodyOfDigits(d[1..], pad);
    }
  }

  lemma {:induction false} DigitsDecoded(b: seq<Byte>)
    ensures Decoded(Digits(b)) == b
  {
    hide Quad, Byte0, Byte1, Byte2;
    if b != [] {
      var b1 := if |b| > 1 then b[1] else 0;
      var b2 := if |b| > 2 then b[2] else 0;
      GroupBack(b[0], b1, b2);
      var q := Quad(b[0], b1, b2);
      DecodedTail(if |b| < 3 then q[..|b| + 1] else "", q);
      if |b| >= 3 {
        DigitsDecoded(b[3..]);
        DecodedStep([], Digits(b));
        assert Digits(b)[..4] == q && Digits(b)[4..] == Digits(b[3..]);
        assert b == [b[0], b1, b2] + b[3..];
      }
    }
  }

  lemma GroupBack(a: Byte, b: Byte, c: Byte)
    ensures |Quad(a, b, c)| == 4 && Triple(Quad(a, b, c)) == [a, b, c]
  {
    hide Digit0, Digit1, Digit2, Digit3, Byte0, Byte1, Byte2, Index, IsBase64;
    Back0(a, b);
    Back1(a, b, c);
    Back2(b, c);
  }

  /** Decoding an encoding gives the bytes back. */
  lemma DecodeEncode(b: seq<Byte>)
    ensures Decoded(Body(Encoded(b))) == b
  {
    EncodedShape(b);
    DigitsAreBase64(b);
    BodyOfDigits(Digits(b), "=="[..Padding(|b|)]);
    DigitsDecoded(b);
  }
}
