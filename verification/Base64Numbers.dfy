/** Base64 as a change of base. */
module Base64Numbers {
  // Bytes are read as a number in base 256, the characters as one in base 64.

  import opened Base64

  function Three256(n: int, a: int, b: int, c: int): int { n * 16777216 + a * 65536 + b * 256 + c }

  function Four64(n: int, p: int, q: int, r: int, s: int): int {
    n * 16777216 + p * 262144 + q * 4096 + r * 64 + s
  }

  /** The number that the bytes are in base 256, behind the digits of n. */
  function Bytes256(n: nat, b: seq<Byte>): nat
    decreases |b|
  {
    if b == [] then n else Bytes256(n * 256 + b[0], b[1..])
  }

  /** The number that the characters are in base 64, behind the digits of n. */
  function Text64(n: nat, s: string): nat
    decreases |s|
  {
    if s == "" then n else Text64(n * 64 + Index(s[0]), s[1..])
  }

  lemma Bytes256Step(n: nat, b: seq<Byte>)
    requires |b| >= 3
    ensures Bytes256(n, b) == Bytes256(Three256(n, b[0], b[1], b[2]), b[3..])
  {
    hide Bytes256;
    FirstByte(n, b);
    FirstByte(n * 256 + b[0], b[1..]);
    FirstByte((n * 256 + b[0]) * 256 + b[1], b[1..][1..]);
    assert b[1..][1..][1..] == b[3..];
  }

  lemma FirstByte(n: nat, b: seq<Byte>)
    requires b != []
    ensures Bytes256(n, b) == Bytes256(n * 256 + b[0], b[1..])
  {
  }

  lemma Text64Step(n: nat, s: string)
    requires |s| >= 4
    ensures Text64(n, s)
      == Text64(Four64(n, Index(s[0]), Index(s[1]), Index(s[2]), Index(s[3])), s[4..])
  {
    hide Text64, Index;
    var n1 := n * 64 + Index(s[0]);
    var n2 := n1 * 64 + Index(s[1]);
    FirstLetter(n, s);
    FirstLetter(n1, s[1..]);
    FirstLetter(n2, s[1..][1..]);
    FirstLetter(n2 * 64 + Index(s[2]), s[1..][1..][1..]);
    assert s[1..][1..][1..][1..] == s[4..];
  }

  lemma FirstLetter(n: nat, s: string)
    requires s != ""
    ensures Text64(n, s) == Text64(n * 64 + Index(s[0]), s[1..])
  {
  }

  lemma ShortText(n: nat, s: string)
    requires |s| < 4
    ensures s == "" ==> Text64(n, s) == n
    ensures |s| == 1 ==> Text64(n, s) == n * 64 + Index(s[0])
    ensures |s| == 2 ==> Text64(n, s) == Four64(0, 0, n, Index(s[0]), Index(s[1]))
    ensures |s| == 3 ==> Text64(n, s) == Four64(0, n, Index(s[0]), Index(s[1]), Index(s[2]))
    decreases |s|
  {
    hide Index, Text64;
    if s != "" {
      FirstLetter(n, s);
      ShortText(n * 64 + Index(s[0]), s[1..]);
    } else {
      NoText(n);
    }
  }

  lemma NoText(n: nat)
    ensures Text64(n, "") == n
  {
  }

  lemma ShortBytes(n: nat, b: seq<Byte>)
    requires |b| < 3
    ensures b == [] ==> Bytes256(n, b) == n
    ensures |b| == 1 ==> Bytes256(n, b) == n * 256 + b[0]
    ensures |b| == 2 ==> Bytes256(n, b) == Three256(0, n, b[0], b[1])
    decreases |b|
  {
    if b != [] { ShortBytes(n * 256 + b[0], b[1..]); }
  }

  lemma QuadIndexes(a: Byte, b: Byte, c: Byte)
    ensures var q := Quad(a, b, c);
      |q| == 4 && Index(q[0]) == a / 4 && Index(q[1]) == a % 4 * 16 + b / 16 &&
      Index(q[2]) == b % 16 * 4 + c / 64 && Index(q[3]) == c % 64
  {
    hide Index, IsBase64;
    DigitsFit(a, b, c);
  }

  lemma GroupNumber(n: int, a: int, b: int, c: int)
    ensures Four64(n, a / 4, a % 4 * 16 + b / 16, b % 16 * 4 + c / 64, c % 64) == Three256(n, a, b, c)
    ensures b == 0 ==> Four64(0, 0, n, a / 4, a % 4 * 16 + b / 16) == 16 * (n * 256 + a)
    ensures c == 0 ==>
      Four64(0, n, a / 4, a % 4 * 16 + b / 16, b % 16 * 4 + c / 64) == 4 * Three256(0, n, a, b)
  {
  }

  /** What is left of the last byte when the characters end, as a factor. */
  function Slack(bytes: nat): nat { if bytes % 3 == 0 then 1 else if bytes % 3 == 1 then 16 else 4 }

  lemma {:induction false} ShortEncoded(n: nat, b: seq<Byte>)
    requires |b| < 3
    ensures Text64(n, Digits(b)) == Bytes256(n, b) * Slack(|b|)
  {
    hide Quad, Text64, Bytes256, Index, Four64, Three256, IsBase64;
    ShortBytes(n, b);
    ShortText(n, Digits(b));
    if b != [] {
      var b1 := if |b| > 1 then b[1] else 0;
      QuadIndexes(b[0], b1, 0);
      GroupNumber(n, b[0], b1, 0);
    }
  }

  /** The characters are the number of the bytes, filled up with zero bits. */
  lemma {:induction false} EncodedNumber(n: nat, b: seq<Byte>)
    ensures Text64(n, Digits(b)) == Bytes256(n, b) * Slack(|b|)
    decreases |b|
  {
    hide Quad, Text64, Bytes256, Index, Four64, Three256, IsBase64, Slack;
    if |b| < 3 {
      ShortEncoded(n, b);
    } else {
      var q := Quad(b[0], b[1], b[2]);
      QuadIndexes(b[0], b[1], b[2]);
      GroupNumber(n, b[0], b[1], b[2]);
      assert Digits(b) == q + Digits(b[3..]);
      assert Digits(b)[4..] == Digits(b[3..]);
      Text64Step(n, Digits(b));
      Bytes256Step(n, b);
      ThreeIsNat(n, b[0], b[1], b[2]);
      EncodedNumber(Three256(n, b[0], b[1], b[2]), b[3..]);
      SlackStep(|b|);
    }
  }

  lemma SlackStep(n: nat)
    requires n >= 3
    ensures Slack(n) == Slack(n - 3)
  {
  }

  lemma ThreeIsNat(n: nat, a: nat, b: nat, c: nat)
    ensures Three256(n, a, b, c) >= 0
  {
  }

  lemma IndexFits(c: char)
    requires IsBase64(c)
    ensures Index(c) < 64
  {
  }

  /** The bits of the characters that make no whole byte, as a divisor. */
  function Rest(letters: nat): nat {
    if letters % 4 == 0 then 1 else if letters % 4 == 1 then 64 else if letters % 4 == 2 then 16 else 4
  }

  lemma Byte0Number(p: Byte, q: Byte)
    requires p < 64 && q < 64
    ensures Byte0(p, q) as int == p as int * 4 + q as int / 16
  {
  }

  lemma Byte1Number(q: Byte, r: Byte)
    requires r < 64
    ensures Byte1(q, r) as int == q as int % 16 * 16 + r as int / 4
  {
  }

  lemma Byte2Number(r: Byte, s: Byte)
    requires s < 64
    ensures Byte2(r, s) as int == r as int % 4 * 64 + s as int
  {
  }

  lemma TripleParts(p: Byte, q: Byte, r: Byte, s: Byte)
    requires p < 64 && q < 64 && r < 64 && s < 64
    ensures Byte0(p, q) as int == p as int * 4 + q as int / 16
    ensures Byte1(q, r) as int == q as int % 16 * 16 + r as int / 4
    ensures Byte2(r, s) as int == r as int % 4 * 64 + s as int
  {
    hide Byte0, Byte1, Byte2;
    Byte0Number(p, q);
    Byte1Number(q, r);
    Byte2Number(r, s);
  }

  lemma TripleNumber(n: int, p: int, q: int, r: int, s: int)
    ensures Three256(n, p * 4 + q / 16, q % 16 * 16 + r / 4, r % 4 * 64 + s) == Four64(n, p, q, r, s)
  {
  }

  lemma ShortNumber(n: nat, p: nat, q: nat, r: nat)
    requires p < 64
    ensures (n * 64 + p) / 64 == n && Four64(0, 0, n, p, q) / 16 == n * 256 + (p * 4 + q / 16)
    ensures Four64(0, n, p, q, r) / 4 == Three256(0, n, p * 4 + q / 16, q % 16 * 16 + r / 4)
  {
    assert Four64(0, 0, n, p, q) == (n * 256 + p * 4) * 16 + q;
    assert Four64(0, n, p, q, r) == (n * 65536 + p * 1024 + q * 16) * 4 + r;
  }

  /** The bytes are the number of the characters, without the bits that make no whole byte. */
  lemma {:induction false} DecodedNumber(n: nat, s: string)
    requires forall k :: 0 <= k < |s| ==> IsBase64(s[k])
    ensures |Decoded(s)| == |s| * 3 / 4 && Bytes256(n, Decoded(s)) == Text64(n, s) / Rest(|s|)
    decreases |s|
  {
    hide Text64, Bytes256, Index, Byte0, Byte1, Byte2, IsBase64, Four64, Three256, Decoded, Triple, Rest;
    if |s| < 4 {
      ShortDecoded(n, s);
    } else {
      RestStep(|s|);
      var p, q, r, c := Index(s[0]), Index(s[1]), Index(s[2]), Index(s[3]);
      GroupDecoded(n, s);
      FourIsNat(n, p, q, r, c);
      DecodedNumber(Four64(n, p, q, r, c), s[4..]);
    }
  }

  lemma RestStep(n: nat)
    requires n >= 4
    ensures Rest(n) == Rest(n - 4) && n * 3 / 4 == 3 + (n - 4) * 3 / 4
  {
  }

  lemma GroupDecoded(n: nat, s: string)
    requires |s| >= 4 && forall k :: 0 <= k < |s| ==> IsBase64(s[k])
    ensures var m := Four64(n, Index(s[0]), Index(s[1]), Index(s[2]), Index(s[3]));
      m >= 0 && Text64(n, s) == Text64(m, s[4..]) && Bytes256(n, Decoded(s)) == Bytes256(m, Decoded(s[4..]))
    ensures |Decoded(s)| == 3 + |Decoded(s[4..])|
  {
    hide Text64, Bytes256, Index, Byte0, Byte1, Byte2, IsBase64, Four64, Three256;
    var p, q, r, c := Index(s[0]), Index(s[1]), Index(s[2]), Index(s[3]);
    LettersFit(s);
    TripleParts(p, q, r, c);
    TripleNumber(n, p, q, r, c);
    FourIsNat(n, p, q, r, c);
    assert Decoded(s)[3..] == Decoded(s[4..]);
    Text64Step(n, s);
    Bytes256Step(n, Decoded(s));
  }

  lemma FourIsNat(n: nat, p: nat, q: nat, r: nat, s: nat)
    ensures Four64(n, p, q, r, s) >= 0
  {
  }

  lemma LettersFit(s: string)
    requires |s| >= 4 && forall k :: 0 <= k < |s| ==> IsBase64(s[k])
    ensures Index(s[0]) < 64 && Index(s[1]) < 64 && Index(s[2]) < 64 && Index(s[3]) < 64
  {
    hide Index, IsBase64;
    IndexFits(s[0]);
    IndexFits(s[1]);
    IndexFits(s[2]);
    IndexFits(s[3]);
  }

  lemma ShortDecoded(n: nat, s: string)
    requires |s| < 4 && forall k :: 0 <= k < |s| ==> IsBase64(s[k])
    ensures |Decoded(s)| == |s| * 3 / 4 && Bytes256(n, Decoded(s)) == Text64(n, s) / Rest(|s|)
  {
    hide Text64, Bytes256, Index, Byte0, Byte1, Byte2, IsBase64, Four64, Three256;
    ShortText(n, s);
    ShortBytes(n, Decoded(s));
    if s != "" {
      IndexFits(s[0]);
      var q: Byte := if |s| > 1 then Index(s[1]) else 0;
      var r: Byte := if |s| > 2 then Index(s[2]) else 0;
      if |s| > 1 { IndexFits(s[1]); }
      if |s| > 2 { IndexFits(s[2]); }
      TripleParts(Index(s[0]), q, r, 0);
      ShortNumber(n, Index(s[0]), q, r);
    }
  }
}
