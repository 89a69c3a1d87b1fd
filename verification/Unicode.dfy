/** UTF-8 and UTF-16 read strictly. */
module Unicode {
  // The forms of section 3.9 of the Unicode Standard, told by ranges and weights, and what they say
  // of the codecs, which use masks and shifts.

  import opened Utf

  datatype Reading = Malformed | Points(cs: seq<int>)

  function Before(c: int, r: Reading): Reading { if r.Malformed? then r else Points([c] + r.cs) }

  predicate IsHigh(u: int) { 0xD800 <= u < 0xDC00 }

  predicate IsLow(u: int) { 0xDC00 <= u < 0xE000 }

  /** The code points of UTF-16 units: a high half must be followed by a low half, and only it may be. */
  function Read16(us: seq<int>): Reading {
    if us == [] then Points([])
    else if IsHigh(us[0]) then
      if |us| > 1 && IsLow(us[1]) then
        Before(0x10000 + (us[0] - 0xD800) * 0x400 + (us[1] - 0xDC00), Read16(us[2..]))
      else Malformed
    else if IsLow(us[0]) then Malformed
    else Before(us[0], Read16(us[1..]))
  }

  predicate IsTrail(b: int) { 0x80 <= b < 0xC0 }

  /** The code points of UTF-8 bytes: one lead byte, and as many trail bytes as it asks for. */
  function Read8(bs: seq<int>): Reading {
    if bs == [] then Points([])
    else if 0 <= bs[0] < 0x80 then Before(bs[0], Read8(bs[1..]))
    else if 0xC0 <= bs[0] < 0xE0 && |bs| > 1 && IsTrail(bs[1]) then
      Before((bs[0] - 0xC0) * 0x40 + (bs[1] - 0x80), Read8(bs[2..]))
    else if 0xE0 <= bs[0] < 0xF0 && |bs| > 2 && IsTrail(bs[1]) && IsTrail(bs[2]) then
      Before((bs[0] - 0xE0) * 0x1000 + (bs[1] - 0x80) * 0x40 + (bs[2] - 0x80), Read8(bs[3..]))
    else if 0xF0 <= bs[0] < 0xF8 && |bs| > 3 && IsTrail(bs[1]) && IsTrail(bs[2]) && IsTrail(bs[3]) then
      Before((bs[0] - 0xF0) * 0x40000 + (bs[1] - 0x80) * 0x1000 + (bs[2] - 0x80) * 0x40 + (bs[3] - 0x80),
        Read8(bs[4..]))
    else Malformed
  }

  // ------------------------------------------------------------------------- one character

  /** A character beyond the first plane is a high half and a low half with its weights, others are one unit. */
  lemma Units(c: int)
    requires IsScalar(c)
    ensures var us := Encode16(c);
      if c < 0x10000 then us == [c] && !IsHigh(c) && !IsLow(c)
      else |us| == 2 && IsHigh(us[0]) && IsLow(us[1]) && c == 0x10000 + (us[0] - 0xD800) * 0x400 + (us[1] - 0xDC00)
  {
  }

  /** The bytes of a character: as many as its size asks for, with its weights. */
  lemma Bytes(c: int)
    requires IsScalar(c)
    ensures var bs := Encode8(c);
      if c < 0x80 then bs == [c]
      else if c < 0x800 then
        |bs| == 2 && 0xC0 <= bs[0] < 0xE0 && IsTrail(bs[1]) && c == (bs[0] - 0xC0) * 0x40 + (bs[1] - 0x80)
      else if c < 0x10000 then
        |bs| == 3 && 0xE0 <= bs[0] < 0xF0 && IsTrail(bs[1]) && IsTrail(bs[2]) &&
        c == (bs[0] - 0xE0) * 0x1000 + (bs[1] - 0x80) * 0x40 + (bs[2] - 0x80)
      else
        |bs| == 4 && 0xF0 <= bs[0] < 0xF8 && IsTrail(bs[1]) && IsTrail(bs[2]) && IsTrail(bs[3]) &&
        c == (bs[0] - 0xF0) * 0x40000 + (bs[1] - 0x80) * 0x1000 + (bs[2] - 0x80) * 0x40 + (bs[3] - 0x80)
  {
    Sextets(c);
    Quotients(c);
  }

  /** A number by its last six bits and the rest, three times. */
  lemma Sextets(c: int)
    requires 0 <= c < 0x110000
    ensures c == c / 0x40 * 0x40 + c % 0x40 && 0 <= c % 0x40 < 0x40
    ensures c / 0x40 == c / 0x1000 * 0x40 + c / 0x40 % 0x40 && 0 <= c / 0x40 % 0x40 < 0x40
    ensures c / 0x1000 == c / 0x40000 * 0x40 + c / 0x1000 % 0x40 && 0 <= c / 0x1000 % 0x40 < 0x40
    ensures c / 0x40000 % 8 == c / 0x40000 < 8
  {
    Quotients(c);
  }

  lemma ReadOne16(c: int, rest: seq<int>)
    requires IsScalar(c)
    ensures Read16(Encode16(c) + rest) == Before(c, Read16(rest))
  {
    Units(c);
    hide Encode16;
    var us := Encode16(c);
    assert (us + rest)[|us|..] == rest;
  }

  lemma ReadOne8(c: int, rest: seq<int>)
    requires IsScalar(c)
    ensures Read8(Encode8(c) + rest) == Before(c, Read8(rest))
  {
    Bytes(c);
    hide Encode8;
    var bs := Encode8(c);
    assert (bs + rest)[|bs|..] == rest;
  }

  // ------------------------------------------------------------------------ what is written

  /** What is written as UTF-16 reads strictly as the characters it was made of. */
  lemma {:induction false} Written16(cs: seq<int>)
    requires forall k :: 0 <= k < |cs| ==> IsScalar(cs[k])
    ensures Read16(EncodeAll16(cs)) == Points(cs)
  {
    if cs != [] {
      Written16(cs[1..]);
      ReadOne16(cs[0], EncodeAll16(cs[1..]));
    }
  }

  /** So does what is written as UTF-8. */
  lemma {:induction false} Written8(cs: seq<int>)
    requires forall k :: 0 <= k < |cs| ==> IsScalar(cs[k])
    ensures Read8(EncodeAll8(cs)) == Points(cs)
  {
    if cs != [] {
      Written8(cs[1..]);
      ReadOne8(cs[0], EncodeAll8(cs[1..]));
    }
  }

  // --------------------------------------------------------------------------- what is read

  predicate NoZero(s: seq<int>) { forall k :: 0 <= k < |s| ==> s[k] != 0 }

  predicate AllUnits(s: seq<int>) { forall k :: 0 <= k < |s| ==> IsUnit(s[k]) }

  lemma DecodeUnit(us: seq<int>, i: nat)
    requires i < |us| && AllUnits(us)
    ensures !IsHigh(us[i]) && !IsLow(us[i]) ==> Decode16(us, i) == (us[i], i + 1)
    ensures IsHigh(us[i]) && i + 1 < |us| && IsLow(us[i + 1]) ==>
      Decode16(us, i) == (0x10000 + (us[i] - 0xD800) * 0x400 + (us[i + 1] - 0xDC00), i + 2)
    ensures (IsHigh(us[i]) || IsLow(us[i])) && (i + 1 == |us| || us[i + 1] == 0) ==> Decode16(us, i) == (-1, i + 1)
  {
    assert 0 <= us[i] < 0x10000;
  }

  /** Units that read strictly are decoded so. */
  lemma {:induction false} Reads16(us: seq<int>, i: nat)
    requires i <= |us| && AllUnits(us) && NoZero(us) && Read16(us[i..]).Points?
    ensures Points16(us, i) == Read16(us[i..]).cs
    decreases |us| - i
  {
    hide Decode16;
    if i < |us| {
      DecodeUnit(us, i);
      var n := if IsHigh(us[i]) then 2 else 1;
      assert us[i..][0] == us[i] && (|us[i..]| > 1 ==> us[i..][1] == us[i + 1]);
      assert us[i..][1..] == us[i + 1..];
      if n == 2 { assert us[i..][2..] == us[i + 2..]; }
      Reads16(us, i + n);
    }
  }

  predicate AllBytes(s: seq<int>) { forall k :: 0 <= k < |s| ==> IsByte(s[k]) }

  /** How many bytes a byte asks for behind it, -1 if it cannot lead; most trail bytes are let lead. */
  function Asks(b: int): int {
    if b < 0x80 then 0
    else if b < 0xA0 || 0xC0 <= b < 0xE0 then 1
    else if b < 0xB0 || 0xE0 <= b < 0xF0 then 2
    else if b < 0xB8 || 0xF0 <= b < 0xF8 then 3
    else -1
  }

  lemma Asked(b: int)
    requires IsByte(b)
    ensures Lead(b).1 == Asks(b)
    ensures b < 0x80 ==> Lead(b).0 == b
    ensures 0xC0 <= b < 0xE0 ==> Lead(b).0 == b - 0xC0
    ensures 0xE0 <= b < 0xF0 ==> Lead(b).0 == b - 0xE0
    ensures 0xF0 <= b < 0xF8 ==> Lead(b).0 == b - 0xF0
  {
    var h := b / 8;
    assert b / 0x10 == h / 2 && b / 0x20 == h / 4 && 0 <= h < 32;
    assert b - 8 * h == b % 8;
  }

  lemma {:induction false} CutShort(bs: seq<int>, i: nat, c: int, n: nat, k: nat)
    requires k < n && i + k <= |bs| && forall m :: i <= m < i + k ==> bs[m] >= 0x80
    requires i + k == |bs| || bs[i + k] < 0x80
    ensures Continue8(bs, i, c, n) == (-1, i + k)
    decreases k
  {
    if k > 0 { CutShort(bs, i + 1, c * 0x40 + bs[i] % 0x40, n - 1, k - 1); }
  }

  /**
    A sequence that is cut short, by the end or by a byte below 0x80, is bad as far as it goes; so is a
    byte that cannot lead.
   */
  lemma BadSequence(bs: seq<int>, i: nat, k: nat)
    requires i < |bs| && AllBytes(bs) && i + 1 + k <= |bs|
    requires if Asks(bs[i]) < 0 then k == 0 else
      k < Asks(bs[i]) && (forall m :: i < m <= i + k ==> bs[m] >= 0x80) && (i + 1 + k == |bs| || bs[i + 1 + k] < 0x80)
    ensures Decode8(bs, i) == (-1, i + 1 + k)
  {
    assert IsByte(bs[i]);
    Asked(bs[i]);
    if Asks(bs[i]) > 0 { CutShort(bs, i + 1, Lead(bs[i]).0, Lead(bs[i]).1, k); }
  }

  lemma Trail(bs: seq<int>, i: nat, c: int, n: nat)
    requires i < |bs| && IsTrail(bs[i])
    ensures Continue8(bs, i, c, n + 1) == Continue8(bs, i + 1, c * 0x40 + (bs[i] - 0x80), n)
  {
  }

  lemma DecodeOne(bs: seq<int>, i: nat)
    requires i < |bs| && 0 <= bs[i] < 0x80
    ensures Decode8(bs, i) == (bs[i], i + 1)
  {
  }

  lemma DecodeTwo(bs: seq<int>, i: nat)
    requires i + 1 < |bs| && 0xC0 <= bs[i] < 0xE0 && IsTrail(bs[i + 1])
    ensures Decode8(bs, i) == ((bs[i] - 0xC0) * 0x40 + (bs[i + 1] - 0x80), i + 2)
  {
    Asked(bs[i]);
    hide Lead;
    Trail(bs, i + 1, bs[i] - 0xC0, 0);
  }

  lemma DecodeThree(bs: seq<int>, i: nat)
    requires i + 2 < |bs| && 0xE0 <= bs[i] < 0xF0 && IsTrail(bs[i + 1]) && IsTrail(bs[i + 2])
    ensures Decode8(bs, i) == ((bs[i] - 0xE0) * 0x1000 + (bs[i + 1] - 0x80) * 0x40 + (bs[i + 2] - 0x80), i + 3)
  {
    Asked(bs[i]);
    hide Lead;
    var c := bs[i] - 0xE0;
    Trail(bs, i + 1, c, 1);
    Trail(bs, i + 2, c * 0x40 + (bs[i + 1] - 0x80), 0);
  }

  lemma DecodeFour(bs: seq<int>, i: nat)
    requires i + 3 < |bs| && 0xF0 <= bs[i] < 0xF8 && IsTrail(bs[i + 1]) && IsTrail(bs[i + 2]) && IsTrail(bs[i + 3])
    ensures Decode8(bs, i).1 == i + 4
    ensures Decode8(bs, i).0
      == (bs[i] - 0xF0) * 0x40000 + (bs[i + 1] - 0x80) * 0x1000 + (bs[i + 2] - 0x80) * 0x40 + (bs[i + 3] - 0x80)
  {
    Asked(bs[i]);
    hide Lead;
    var c := bs[i] - 0xF0;
    Trail(bs, i + 1, c, 2);
    Trail(bs, i + 2, c * 0x40 + (bs[i + 1] - 0x80), 1);
    Trail(bs, i + 3, (c * 0x40 + (bs[i + 1] - 0x80)) * 0x40 + (bs[i + 2] - 0x80), 0);
  }

  /** How many bytes the first character read strictly takes. */
  function Taken(b: int): nat { if b < 0x80 then 1 else if b < 0xE0 then 2 else if b < 0xF0 then 3 else 4 }

  lemma DecodeStrict(bs: seq<int>, i: nat)
    requires i < |bs| && AllBytes(bs) && Read8(bs[i..]).Points?
    ensures var n := Taken(bs[i]);
      i + n <= |bs| && Decode8(bs, i).1 == i + n && Decode8(bs, i).0 >= 0 &&
      Read8(bs[i..]) == Before(Decode8(bs, i).0, Read8(bs[i + n..]))
  {
    hide Decode8;
    assert IsByte(bs[i]);
    var n, x := Taken(bs[i]), bs[i..];
    assert x[0] == bs[i] && (|x| > 1 ==> x[1] == bs[i + 1]) && (|x| > 2 ==> x[2] == bs[i + 2]) &&
      (|x| > 3 ==> x[3] == bs[i + 3]);
    if n <= |x| { assert x[n..] == bs[i + n..]; }
    if n == 1 {
      DecodeOne(bs, i);
    } else if n == 2 {
      DecodeTwo(bs, i);
    } else if n == 3 {
      DecodeThree(bs, i);
    } else {
      DecodeFour(bs, i);
    }
  }

  /** Bytes that read strictly are decoded so, up to a zero. */
  lemma {:induction false} Reads8(bs: seq<int>, i: nat)
    requires i <= |bs| && AllBytes(bs) && Read8(bs[i..]).Points? && NoZero(Read8(bs[i..]).cs)
    ensures Points8(bs, i) == Read8(bs[i..]).cs
    decreases |bs| - i
  {
    hide Decode8, Read8;
    if i < |bs| {
      DecodeStrict(bs, i);
      var c, n := Decode8(bs, i).0, Taken(bs[i]);
      assert Read8(bs[i..]).cs[0] == c && Read8(bs[i..]).cs[1..] == Read8(bs[i + n..]).cs;
      Reads8(bs, i + n);
    } else {
      NothingRead(bs[i..]);
    }
  }

  lemma NothingRead(bs: seq<int>)
    requires bs == []
    ensures Read8(bs) == Points([])
  {
  }

  /** Strict UTF-8 becomes strict UTF-16 of the same characters, and the other way round. */
  lemma Converted(bs: seq<int>, us: seq<int>)
    requires AllBytes(bs) && AllUnits(us) && NoZero(us)
    ensures Read8(bs).Points? && (forall k :: 0 <= k < |Read8(bs).cs| ==> IsScalar(Read8(bs).cs[k])) ==>
      Read16(EncodeAll16(Points8(bs, 0))) == Read8(bs)
    ensures Read16(us).Points? && (forall k :: 0 <= k < |Read16(us).cs| ==> IsScalar(Read16(us).cs[k])) ==>
      Read8(EncodeAll8(Points16(us, 0))) == Read16(us)
  {
    assert bs[0..] == bs && us[0..] == us;
    if Read8(bs).Points? && forall k :: 0 <= k < |Read8(bs).cs| ==> IsScalar(Read8(bs).cs[k]) {
      Reads8(bs, 0);
      Written16(Read8(bs).cs);
    }
    if Read16(us).Points? && forall k :: 0 <= k < |Read16(us).cs| ==> IsScalar(Read16(us).cs[k]) {
      Reads16(us, 0);
      Written8(Read16(us).cs);
    }
  }

  /** What UTF8To16 leaves in the buffer for strict bytes reads strictly as the same characters. */
  lemma Buffer16(buffer: array<int>, bs: seq<int>, beyond: seq<int>)
    requires Result16(buffer, bs, beyond) && AllBytes(bs) && Read8(bs).Points?
    requires forall k :: 0 <= k < |Read8(bs).cs| ==> IsScalar(Read8(bs).cs[k])
    ensures var n := |EncodeAll16(Points8(bs, 0))|; n < buffer.Length && Read16(buffer[..n]) == Read8(bs)
  {
    hide Read8, Read16, EncodeAll16, Points8, Zero8;
    Converted(bs, []);
  }

  /** What UTF16To8 leaves there for strict units reads as the characters that fit. */
  lemma Buffer8(buffer: array<int>, n: nat, us: seq<int>, nUTF8Count: nat, beyond: seq<int>)
    requires AllUnits(us) && NoZero(us) && Read16(us).Points? && Result8(buffer, n, Points16(us, 0), nUTF8Count, beyond)
    requires forall k :: 0 <= k < |Read16(us).cs| ==> IsScalar(Read16(us).cs[k])
    ensures n <= buffer.Length && Read8(buffer[..n]) == Points(Read16(us).cs[..Fitting(Read16(us).cs, nUTF8Count)])
  {
    hide Read8, Read16, EncodeAll8, Points16, Fitting;
    assert us[0..] == us;
    Reads16(us, 0);
    Written8(Read16(us).cs[..Fitting(Read16(us).cs, nUTF8Count)]);
  }
}
