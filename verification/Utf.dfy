/** The UTF-8 and UTF-16 codecs: decoding, encoding, counting. */
module Utf {
  // Bytes and code units are natural numbers; the source's masks and shifts are written as quotients
  // and remainders, which agree with them on two's complement.

  const REPLACEMENT := 0x3F  // '?'

  predicate IsByte(b: int) { 0 <= b < 0x100 }

  predicate IsUnit(u: int) { 0 <= u < 0x10000 }

  predicate IsScalar(c: int) { 0 < c < 0xD800 || 0xE000 <= c < 0x110000 }

  /** EncodeCharUTF8: the bytes written for a code point, negative values included. */
  function Encode8(c: int): (bs: seq<int>)
    ensures 1 <= |bs| <= 4
    ensures forall b :: b in bs ==> IsByte(b)
  {
    if 0 <= c < 0x80 then [c]
    else if 0 <= c < 0x800 then [c / 0x40 + 0xC0, c % 0x40 + 0x80]
    else if 0 <= c < 0x10000 then [c / 0x1000 + 0xE0, c / 0x40 % 0x40 + 0x80, c % 0x40 + 0x80]
    else [c / 0x40000 % 8 + 0xF0, c / 0x1000 % 0x40 + 0x80, c / 0x40 % 0x40 + 0x80, c % 0x40 + 0x80]
  }

  /** EncodeCharUTF16: one unit, or a surrogate pair. */
  function Encode16(c: int): (us: seq<int>)
    ensures 1 <= |us| <= 2
    ensures forall u :: u in us ==> IsUnit(u)
  {
    if 0 <= c < 0x10000 then [c]
    else [(c - 0x10000) / 0x400 % 0x400 + 0xD800, (c - 0x10000) % 0x400 + 0xDC00]
  }

  function EncodeAll8(cs: seq<int>): seq<int> {
    if cs == [] then [] else Encode8(cs[0]) + EncodeAll8(cs[1..])
  }

  function EncodeAll16(cs: seq<int>): seq<int> {
    if cs == [] then [] else Encode16(cs[0]) + EncodeAll16(cs[1..])
  }

  // ------------------------------------------------------------------------------ decoding

  /** The payload of a lead byte and the number of bytes that follow it; -1 for a bad lead byte. */
  function Lead(b: int): (int, int) {
    if b < 0x80 then (b, 0)
    else if b / 0x20 % 2 == 0 then (b % 0x20, 1)
    else if b / 0x10 % 2 == 0 then (b % 0x10, 2)
    else if b / 8 % 2 == 0 then (b % 8, 3)
    else (-1, -1)
  }

  /** The continuation loop: n more bytes from position i of bytes, up to its end. */
  function Continue8(bytes: seq<int>, i: nat, c: int, n: nat): (r: (int, nat))
    requires i <= |bytes|
    ensures i <= r.1 <= |bytes|
    decreases n
  {
    if n == 0 then (c, i)
    else if i == |bytes| || bytes[i] < 0x80 then (-1, i)
    else Continue8(bytes, i + 1, c * 0x40 + bytes[i] % 0x40, n - 1)
  }

  /** DecodeCharUTF8: the code point at i, or -1, and the position after it. */
  function Decode8(bytes: seq<int>, i: nat): (r: (int, nat))
    requires i < |bytes|
    ensures i < r.1 <= |bytes|
  {
    var (c, n) := Lead(bytes[i]);
    if n < 0 then (-1, i + 1) else Continue8(bytes, i + 1, c, n)
  }

  /** DecodeCharUTF16 on units that a zero follows. */
  function Decode16(units: seq<int>, i: nat): (r: (int, nat))
    requires i < |units|
    ensures i < r.1 <= |units|
  {
    var u := units[i];
    if u / 0x800 != 0x1B then (u, i + 1)  // neither half of a surrogate pair
    else if i + 1 == |units| || units[i + 1] == 0 then (-1, i + 1)
    else ((u % 0x400) * 0x400 + units[i + 1] % 0x400 + 0x10000, i + 2)
  }

  // --------------------------------------------------------- one character there and back

  lemma LeadOfEncode(c: int)
    requires IsScalar(c)
    ensures Lead(Encode8(c)[0]) ==
      if c < 0x80 then (c, 0) else if c < 0x800 then (c / 0x40, 1)
      else if c < 0x10000 then (c / 0x1000, 2) else (c / 0x40000, 3)
  {
    if 0x80 <= c < 0x800 {
      LeadTwo(c / 0x40);
    } else if 0x800 <= c < 0x10000 {
      LeadThree(c / 0x1000);
    } else if 0x10000 <= c {
      LeadFour(c / 0x40000);
    }
  }

  lemma LeadTwo(q: int)
    requires 0 <= q < 0x20
    ensures Lead(q + 0xC0) == (q, 1)
  {
  }

  lemma LeadThree(q: int)
    requires 0 <= q < 0x10
    ensures Lead(q + 0xE0) == (q, 2)
  {
  }

  lemma LeadFour(q: int)
    requires 0 <= q < 8
    ensures Lead(q % 8 + 0xF0) == (q, 3)
  {
  }

  /** The continuation byte with payload c % 64 brings c / 64 back to c. */
  lemma OneMore(bytes: seq<int>, i: nat, c: int, n: nat)
    requires i < |bytes| && 0 <= c && bytes[i] == c % 0x40 + 0x80
    ensures Continue8(bytes, i, c / 0x40, n + 1) == Continue8(bytes, i + 1, c, n)
  {
    assert bytes[i] % 0x40 == c % 0x40;
    assert c / 0x40 * 0x40 + c % 0x40 == c;
  }

  lemma Quotients(c: int)
    requires 0 <= c
    ensures c / 0x40 / 0x40 == c / 0x1000 && c / 0x1000 / 0x40 == c / 0x40000
  {
  }

  /** Wherever it stands, the encoding of a character decodes to that character. */
  lemma DecodeEncode8(c: int, pre: seq<int>, post: seq<int>)
    requires IsScalar(c)
    ensures Decode8(pre + Encode8(c) + post, |pre|) == (c, |pre| + |Encode8(c)|)
  {
    var bytes, i := pre + Encode8(c) + post, |pre|;
    assert forall j :: 0 <= j < |Encode8(c)| ==> bytes[i + j] == Encode8(c)[j];
    assert bytes[i + 0] == Encode8(c)[0];
    LeadOfEncode(c);
    DecodeAt(bytes, i, c);
  }

  lemma Continuations(c: int)
    requires IsScalar(c)
    ensures var n := |Encode8(c)|;
      && (n > 1 ==> Encode8(c)[n - 1] == c % 0x40 + 0x80)
      && (n > 2 ==> Encode8(c)[n - 2] == c / 0x40 % 0x40 + 0x80)
      && (n > 3 ==> Encode8(c)[n - 3] == c / 0x1000 % 0x40 + 0x80)
  {
  }

  lemma DecodeAt(bytes: seq<int>, i: nat, c: int)
    requires IsScalar(c) && i + |Encode8(c)| <= |bytes|
    requires forall j :: 0 <= j < |Encode8(c)| ==> bytes[i + j] == Encode8(c)[j]
    requires Lead(bytes[i]) == Lead(Encode8(c)[0])
    ensures Decode8(bytes, i) == (c, i + |Encode8(c)|)
  {
    LeadOfEncode(c);
    Quotients(c);
    Continuations(c);
    var n := |Encode8(c)|;
    if n > 1 {
      assert bytes[i + (n - 1)] == Encode8(c)[n - 1];
      OneMore(bytes, i + n - 1, c, 0);
    }
    if n > 2 {
      assert bytes[i + (n - 2)] == Encode8(c)[n - 2];
      OneMore(bytes, i + n - 2, c / 0x40, 1);
    }
    if n > 3 {
      assert bytes[i + (n - 3)] == Encode8(c)[n - 3];
      OneMore(bytes, i + n - 3, c / 0x1000, 2);
    }
  }

  lemma DecodeEncode16(c: int, pre: seq<int>, post: seq<int>)
    requires IsScalar(c)
    ensures Decode16(pre + Encode16(c) + post, |pre|) == (c, |pre| + |Encode16(c)|)
  {
    var units, i := pre + Encode16(c) + post, |pre|;
    assert units[i] == Encode16(c)[0];
    if c >= 0x10000 {
      assert units[i + 1] == Encode16(c)[1];
      SurrogatePair(c);
    }
  }

  lemma SurrogatePair(c: int)
    requires 0x10000 <= c < 0x110000
    ensures Encode16(c)[0] / 0x800 == 0x1B && Encode16(c)[1] != 0
    ensures (Encode16(c)[0] % 0x400) * 0x400 + Encode16(c)[1] % 0x400 + 0x10000 == c
  {
    var d := c - 0x10000;
    assert d / 0x400 % 0x400 == d / 0x400;
  }

  lemma EncodingNonZero(c: int)
    requires IsScalar(c)
    ensures forall b :: b in Encode8(c) ==> b != 0
    ensures forall u :: u in Encode16(c) ==> u != 0
  {
  }

  // --------------------------------------------------------- the conversion loops, as meaning

  /** The code points the UTF-8 loop sees from i on: it stops at a zero, bad sequences become '?'. */
  function Points8(bytes: seq<int>, i: nat): seq<int>
    requires i <= |bytes|
    decreases |bytes| - i
  {
    if i == |bytes| then []
    else
      var (c, next) := Decode8(bytes, i);
      if c == 0 then [] else [if c == -1 then REPLACEMENT else c] + Points8(bytes, next)
  }

  /** Where the UTF-8 loop stops. */
  function Stop8(bytes: seq<int>, i: nat): nat
    requires i <= |bytes|
    decreases |bytes| - i
  {
    if i == |bytes| then i
    else var (c, next) := Decode8(bytes, i); if c == 0 then next else Stop8(bytes, next)
  }

  predicate Zero8(bytes: seq<int>, i: nat)
    requires i <= |bytes|
    decreases |bytes| - i
  {
    i < |bytes| && var (c, next) := Decode8(bytes, i); c == 0 || Zero8(bytes, next)
  }

  function Points16(units: seq<int>, i: nat): seq<int>
    requires i <= |units|
    decreases |units| - i
  {
    if i == |units| || units[i] == 0 then []
    else var (c, next) := Decode16(units, i); [if c == -1 then REPLACEMENT else c] + Points16(units, next)
  }

  lemma PointsStep8(bytes: seq<int>, i: nat, c: int, next: nat)
    requires i < |bytes| && Decode8(bytes, i) == (c, next) && c > 0
    ensures Points8(bytes, i) == [c] + Points8(bytes, next)
    ensures Stop8(bytes, i) == Stop8(bytes, next) && Zero8(bytes, i) == Zero8(bytes, next)
  {
  }

  lemma PointsStep16(units: seq<int>, i: nat, c: int, next: nat)
    requires i < |units| && units[i] != 0 && Decode16(units, i) == (c, next) && c > 0
    ensures Points16(units, i) == [c] + Points16(units, next)
  {
  }

  lemma {:induction false} PointsOfEncoding8(cs: seq<int>, bytes: seq<int>, i: nat)
    requires forall c :: c in cs ==> IsScalar(c)
    requires i <= |bytes| && bytes[i..] == EncodeAll8(cs)
    ensures Points8(bytes, i) == cs && Stop8(bytes, i) == |bytes| && !Zero8(bytes, i)
    decreases |cs|
  {
    if cs != [] {
      var c, rest := cs[0], EncodeAll8(cs[1..]);
      var next := i + |Encode8(c)|;
      SplitAt(bytes, i, Encode8(c), rest);
      DecodeEncode8(c, bytes[..i], rest);
      PointsStep8(bytes, i, c, next);
      PointsOfEncoding8(cs[1..], bytes, next);
    }
  }

  lemma SplitAt(s: seq<int>, i: nat, a: seq<int>, b: seq<int>)
    requires i <= |s| && s[i..] == a + b
    ensures s == s[..i] + a + b && i + |a| <= |s| && s[i + |a|..] == b
    ensures a != [] ==> i < |s| && s[i] == a[0]
  {
    assert s == s[..i] + s[i..];
    assert s[i + |a|..] == s[i..][|a|..];
  }

  lemma {:induction false} PointsOfEncoding16(cs: seq<int>, units: seq<int>, i: nat)
    requires forall c :: c in cs ==> IsScalar(c)
    requires i <= |units| && units[i..] == EncodeAll16(cs)
    ensures Points16(units, i) == cs
    decreases |cs|
  {
    if cs != [] {
      var c, rest := cs[0], EncodeAll16(cs[1..]);
      var next := i + |Encode16(c)|;
      SplitAt(units, i, Encode16(c), rest);
      DecodeEncode16(c, units[..i], rest);
      EncodingNonZero(c);
      PointsStep16(units, i, c, next);
      PointsOfEncoding16(cs[1..], units, next);
    }
  }

  /** The longest prefix of cs whose UTF-8 encoding fits into room bytes. */
  function Fitting(cs: seq<int>, room: int): nat
    ensures Fitting(cs, room) <= |cs|
  {
    if cs == [] || |Encode8(cs[0])| > room then 0 else 1 + Fitting(cs[1..], room - |Encode8(cs[0])|)
  }

  lemma {:induction false} FittingIsLongest(cs: seq<int>, room: int, m: nat)
    requires 0 <= room && m <= |cs|
    ensures |EncodeAll8(cs[..m])| <= room <==> m <= Fitting(cs, room)
    decreases |cs|
  {
    if m > 0 {
      assert cs[..m][1..] == cs[1..][..m - 1] && cs[..m][0] == cs[0];
      if |Encode8(cs[0])| <= room {
        FittingIsLongest(cs[1..], room - |Encode8(cs[0])|, m - 1);
      }
    }
  }

  lemma {:induction false} FittingSplit(a: seq<int>, b: seq<int>, room: int)
    requires |EncodeAll8(a)| <= room
    ensures Fitting(a + b, room) == |a| + Fitting(b, room - |EncodeAll8(a)|)
    decreases |a|
  {
    if a == [] {
      assert a + b == b;
    } else {
      assert (a + b)[1..] == a[1..] + b;
      FittingSplit(a[1..], b, room - |Encode8(a[0])|);
    }
  }

  lemma {:induction false} Encode8Concat(a: seq<int>, b: seq<int>)
    ensures EncodeAll8(a + b) == EncodeAll8(a) + EncodeAll8(b)
    decreases |a|
  {
    if a == [] {
      assert a + b == b;
    } else {
      assert (a + b)[1..] == a[1..] + b;
      Encode8Concat(a[1..], b);
    }
  }

  lemma {:induction false} Encode16Concat(a: seq<int>, b: seq<int>)
    ensures EncodeAll16(a + b) == EncodeAll16(a) + EncodeAll16(b)
    decreases |a|
  {
    if a == [] {
      assert a + b == b;
    } else {
      assert (a + b)[1..] == a[1..] + b;
      Encode16Concat(a[1..], b);
    }
  }

  lemma AppendOne8(done: seq<int>, c: int)
    ensures EncodeAll8(done + [c]) == EncodeAll8(done) + Encode8(c)
  {
    Encode8Concat(done, [c]);
    assert [c][1..] == [];
  }

  lemma AppendOne16(done: seq<int>, c: int)
    ensures EncodeAll16(done + [c]) == EncodeAll16(done) + Encode16(c)
  {
    Encode16Concat(done, [c]);
    assert [c][1..] == [];
  }

  // ------------------------------------------------------------------- the conversions

  lemma PushOne(a: seq<int>, c: int, b: seq<int>)
    ensures a + ([c] + b) == (a + [c]) + b
  {
  }

  /** Append s to the first len entries of a buffer, or only count it when there is no buffer. */
  method Append(buffer: array?<int>, len: nat, s: seq<int>) returns (len': nat)
    requires buffer != null ==> len + |s| <= buffer.Length
    modifies if buffer == null then {} else {buffer}
    ensures len' == len + |s|
    ensures buffer != null ==> buffer[..len'] == old(buffer[..len]) + s && buffer[len'..] == old(buffer[len + |s|..])
  {
    len' := len + |s|;
    if buffer != null {
      for i := 0 to |s|
        invariant buffer[..len + i] == old(buffer[..len]) + s[..i]
        invariant buffer[len + i..] == old(buffer[len + i..])
      {
        buffer[len + i] := s[i];
        assert s[..i + 1] == s[..i] + [s[i]];
        assert buffer[..len + i + 1] == buffer[..len + i] + [s[i]];
      }
      assert s[..|s|] == s;
    }
  }

  /** The text so far, in the buffer if there is one; what lies beyond is as it was. */
  ghost predicate Written(buffer: array?<int>, len: nat, text: seq<int>, beyond: seq<int>)
    reads if buffer == null then {} else {buffer}
  {
    len == |text| &&
    (buffer != null ==>
       len <= buffer.Length == |beyond| && buffer[..len] == text && buffer[len..] == beyond[len..])
  }

  /** One round of UTF16To8: encode c behind what is done, if it fits. */
  method Round8(pszUTF8: array?<int>, len: nat, nUTF8Count: nat, c: int, ghost done: seq<int>, ghost beyond: seq<int>)
    returns (len': nat, full: bool)
    requires Written(pszUTF8, len, EncodeAll8(done), beyond)
    requires pszUTF8 != null ==> len <= nUTF8Count <= pszUTF8.Length
    modifies if pszUTF8 == null then {} else {pszUTF8}
    ensures full <==> pszUTF8 != null && len + |Encode8(c)| > nUTF8Count
    ensures full ==> len' == len && Written(pszUTF8, len, EncodeAll8(done), beyond)
    ensures !full ==> Written(pszUTF8, len', EncodeAll8(done + [c]), beyond)
    ensures pszUTF8 != null ==> len' <= nUTF8Count
  {
    AppendOne8(done, c);
    if pszUTF8 != null && len + |Encode8(c)| > nUTF8Count {
      return len, true;
    }
    len' := Append(pszUTF8, len, Encode8(c));
    full := false;
    if pszUTF8 != null {
      assert beyond[len..][|Encode8(c)|..] == beyond[len'..];
    }
  }

  /** What UTF16To8 leaves in the buffer for the code points cs. */
  ghost predicate Result8(buffer: array<int>, n: nat, cs: seq<int>, nUTF8Count: nat, beyond: seq<int>)
    reads buffer
  {
    var m := Fitting(cs, nUTF8Count);
    n == |EncodeAll8(cs[..m])| <= nUTF8Count <= buffer.Length == |beyond| && buffer[..n] == EncodeAll8(cs[..m]) &&
    (m == |cs| && n < nUTF8Count ==> buffer[n] == 0) &&
    (m == |cs| && n < nUTF8Count ==> buffer[n + 1..] == beyond[n + 1..]) &&
    (m < |cs| || n == nUTF8Count ==> buffer[n..] == beyond[n..])
  }

  /**
    UTF16To8: with no destination, count the bytes; otherwise write the longest prefix of whole
    characters that fits into nUTF8Count bytes, and a zero behind the complete text if it fits.
   */
  method UTF16To8(pszUTF8: array?<int>, units: seq<int>, nUTF8Count: nat) returns (n: nat)
    requires pszUTF8 != null ==> nUTF8Count <= pszUTF8.Length
    modifies if pszUTF8 == null then {} else {pszUTF8}
    ensures pszUTF8 == null ==> n == |EncodeAll8(Points16(units, 0))|
    ensures pszUTF8 != null ==> Result8(pszUTF8, n, Points16(units, 0), nUTF8Count, old(pszUTF8[..]))
  {
    n := 0;
    var i := 0;
    ghost var done: seq<int> := [];
    ghost var cs := Points16(units, 0);
    ghost var beyond := if pszUTF8 == null then [] else pszUTF8[..];
    while i < |units| && units[i] != 0
      invariant i <= |units| && cs == done + Points16(units, i)
      invariant Written(pszUTF8, n, EncodeAll8(done), beyond) && (pszUTF8 != null ==> n <= nUTF8Count)
    {
      var (c, next) := Decode16(units, i);
      if c == -1 {
        c := REPLACEMENT;
      }
      var full;
      n, full := Round8(pszUTF8, n, nUTF8Count, c, done, beyond);
      if full {
        Stopped8(pszUTF8, n, done, Points16(units, i), nUTF8Count, beyond);
        return;
      }
      PushOne(done, c, Points16(units, next));
      i := next;
      done := done + [c];
    }
    assert cs == done;
    if pszUTF8 != null {
      Terminate8(pszUTF8, n, nUTF8Count, done, beyond);
    }
  }

  /** The buffer when the next character does not fit. */
  lemma Stopped8(pszUTF8: array<int>, n: nat, done: seq<int>, rest: seq<int>, nUTF8Count: nat, beyond: seq<int>)
    requires Written(pszUTF8, n, EncodeAll8(done), beyond) && n <= nUTF8Count <= pszUTF8.Length
    requires rest != [] && n + |Encode8(rest[0])| > nUTF8Count
    ensures Result8(pszUTF8, n, done + rest, nUTF8Count, beyond)
  {
    FittingSplit(done, rest, nUTF8Count);
    assert (done + rest)[..|done|] == done;
  }

  /** The end of UTF16To8: a zero behind the text if it fits. */
  method Terminate8(pszUTF8: array<int>, n: nat, nUTF8Count: nat, ghost done: seq<int>, ghost beyond: seq<int>)
    requires Written(pszUTF8, n, EncodeAll8(done), beyond) && n <= nUTF8Count <= pszUTF8.Length
    modifies pszUTF8
    ensures Result8(pszUTF8, n, done, nUTF8Count, beyond)
  {
    FittingSplit(done, [], nUTF8Count);
    assert done + [] == done && done[..|done|] == done;
    ghost var text := pszUTF8[..n];
    if n < nUTF8Count {
      pszUTF8[n] := 0;
      assert pszUTF8[..n] == text;
      assert pszUTF8[n + 1..] == beyond[n..][1..];
    }
  }

  /** What UTF8To16 leaves in the buffer for the bytes it reads. */
  ghost predicate Result16(buffer: array<int>, bytes: seq<int>, beyond: seq<int>)
    reads buffer
  {
    var us := EncodeAll16(Points8(bytes, 0));
    |us| < buffer.Length == |beyond| && buffer[..|us|] == us &&
    (if Zero8(bytes, 0) then buffer[|us|] == 0 && buffer[|us| + 1..] == beyond[|us| + 1..]
     else buffer[|us|..] == beyond[|us|..])
  }

  /**
    UTF8To16: with no destination, count the units; otherwise write them all, and a zero when one
    ends the source, and return how many bytes were read.
   */
  method UTF8To16(pwszUTF16: array?<int>, bytes: seq<int>) returns (n: nat)
    requires pwszUTF16 != null ==> |EncodeAll16(Points8(bytes, 0))| < pwszUTF16.Length
    modifies if pwszUTF16 == null then {} else {pwszUTF16}
    ensures pwszUTF16 == null ==> n == |EncodeAll16(Points8(bytes, 0))|
    ensures pwszUTF16 != null ==> n == Stop8(bytes, 0) && Result16(pwszUTF16, bytes, old(pwszUTF16[..]))
  {
    var i: nat, len: nat := 0, 0;
    ghost var done: seq<int> := [];
    ghost var cs := Points8(bytes, 0);
    ghost var beyond := if pwszUTF16 == null then [] else pwszUTF16[..];
    while i != |bytes|
      invariant i <= |bytes| && cs == done + Points8(bytes, i)
      invariant Stop8(bytes, 0) == Stop8(bytes, i) && Zero8(bytes, 0) == Zero8(bytes, i)
      invariant Written(pwszUTF16, len, EncodeAll16(done), beyond)
      decreases |bytes| - i
    {
      Encode16Concat(done, Points8(bytes, i));
      var (c, next) := Decode8(bytes, i);
      if c == 0 {
        assert cs == done;
        if pwszUTF16 != null {
          Terminate16(pwszUTF16, len, done, beyond);
        }
        n := if pwszUTF16 == null then len else next;
        return;
      }
      if c == -1 {
        c := REPLACEMENT;
      }
      PushOne(done, c, Points8(bytes, next));
      len := Round16(pwszUTF16, len, c, done, Points8(bytes, next), beyond);
      i := next;
      done := done + [c];
    }
    assert cs == done;
    n := if pwszUTF16 == null then len else i;
  }

  /** The end of UTF8To16 at a zero: a zero behind the text. */
  method Terminate16(pwszUTF16: array<int>, len: nat, ghost done: seq<int>, ghost beyond: seq<int>)
    requires Written(pwszUTF16, len, EncodeAll16(done), beyond) && len < pwszUTF16.Length
    modifies pwszUTF16
    ensures |beyond| == pwszUTF16.Length && pwszUTF16[..len] == EncodeAll16(done) && len == |EncodeAll16(done)|
    ensures pwszUTF16[len] == 0 && pwszUTF16[len + 1..] == beyond[len + 1..]
  {
    ghost var text := pwszUTF16[..len];
    pwszUTF16[len] := 0;
    assert pwszUTF16[..len] == text;
    assert pwszUTF16[len + 1..] == beyond[len..][1..];
  }

  /** One round of UTF8To16: encode c behind what is done. */
  method Round16(pwszUTF16: array?<int>, len: nat, c: int, ghost done: seq<int>, ghost rest: seq<int>,
    ghost beyond: seq<int>)
    returns (len': nat)
    requires Written(pwszUTF16, len, EncodeAll16(done), beyond)
    requires pwszUTF16 != null ==> |EncodeAll16(done + [c] + rest)| < pwszUTF16.Length
    modifies if pwszUTF16 == null then {} else {pwszUTF16}
    ensures Written(pwszUTF16, len', EncodeAll16(done + [c]), beyond)
  {
    AppendOne16(done, c);
    Encode16Concat(done + [c], rest);
    len' := Append(pwszUTF16, len, Encode16(c));
    if pwszUTF16 != null {
      assert beyond[len..][|Encode16(c)|..] == beyond[len'..];
    }
  }

  /**
    Non-zero scalar values survive UTF-8 to UTF-16 and back: the units that UTF8To16 writes for
    their UTF-8 bytes are their UTF-16 encoding, from which UTF16To8 writes the same bytes.
   */
  lemma RoundTrip(cs: seq<int>)
    requires forall c :: c in cs ==> IsScalar(c)
    ensures EncodeAll16(Points8(EncodeAll8(cs), 0)) == EncodeAll16(cs)
    ensures EncodeAll8(Points16(EncodeAll16(Points8(EncodeAll8(cs), 0)), 0)) == EncodeAll8(cs)
    ensures Stop8(EncodeAll8(cs), 0) == |EncodeAll8(cs)| && !Zero8(EncodeAll8(cs), 0)
  {
    PointsOfEncoding8(cs, EncodeAll8(cs), 0);
    PointsOfEncoding16(cs, EncodeAll16(cs), 0);
  }
}
