/** Rolling hashes, the search with them and the plain search. */
module StringSearch {
  // The search that uses them, and the plain search that it must agree with.

  const BASE := 256
  const MODULUS := 101

  /** The C remainder, which takes the sign of the dividend. */
  function Rem(a: int, b: int): int
    requires b > 0
  {
    if a >= 0 then a % b else -((-a) % b)
  }

  /** Characters of one byte. */
  predicate Bytes(s: string) { forall k :: 0 <= k < |s| ==> s[k] as int < 256 }

  /** Characters that are not negative as C chars. */
  predicate Ascii(s: string) { forall k :: 0 <= k < |s| ==> s[k] as int < 128 }

  /** A byte as a C char, which is signed. */
  function Code(c: char): int { if c as int < 128 then c as int else c as int - 256 }

  function Pow(n: nat): nat { if n == 0 then 1 else BASE * Pow(n - 1) }

  /** The text read as a number in base 256. */
  function Value(s: string): int {
    if s == "" then 0 else BASE * Value(s[..|s| - 1]) + Code(s[|s| - 1])
  }

  function Hash(s: string): nat { Value(s) % MODULUS }

  /** The hash as the loop computes it, with C remainders: it may be negative. */
  function SignedHash(s: string): int {
    if s == "" then 0 else Rem(BASE * SignedHash(s[..|s| - 1]) + Code(s[|s| - 1]), MODULUS)
  }

  /** The text with its terminating zero. */
  function Terminated(t: string): string { t + ['\0'] }

  predicate OccursAt(t: string, p: string, i: nat) { i + |p| <= |t| && t[i..i + |p|] == p }

  /** The places from i on where p occurs in t, in increasing order. */
  function OccurrencesFrom(t: string, p: string, i: nat): seq<nat>
    decreases |t| - i
  {
    if i >= |t| then if i == |t| && p == "" then [i] else []
    else if OccursAt(t, p, i) then [i] + OccurrencesFrom(t, p, i + 1)
    else OccurrencesFrom(t, p, i + 1)
  }

  /** They are all the places, each once, and in order. */
  lemma {:induction false} OccurrencesAre(t: string, p: string, i: nat)
    ensures var r := OccurrencesFrom(t, p, i);
      (forall k :: 0 <= k < |r| ==> i <= r[k] && OccursAt(t, p, r[k])) &&
      (forall k, l :: 0 <= k < l < |r| ==> r[k] < r[l]) &&
      (forall j: nat :: j >= i && OccursAt(t, p, j) ==> j in r)
    decreases |t| - i
  {
    if i < |t| { OccurrencesAre(t, p, i + 1); }
  }

  // -------------------------------------------------------------------- hashes modulo 101

  lemma SameMod(a: int, b: int, k: int)
    requires a == b + MODULUS * k
    ensures a % MODULUS == b % MODULUS
  {
  }

  /** One more character, from the hash so far. */
  lemma HashStep(s: string, c: char)
    ensures (BASE * Hash(s) + Code(c)) % MODULUS == Hash(s + [c])
  {
    assert (s + [c])[..|s|] == s;
    SameMod(BASE * Value(s) + Code(c), BASE * Hash(s) + Code(c), BASE * (Value(s) / MODULUS));
  }

  lemma {:induction false} ValueFront(c: char, s: string)
    ensures Value([c] + s) == Code(c) * Pow(|s|) + Value(s)
  {
    if s != "" {
      var r := s[..|s| - 1];
      assert ([c] + s)[..|[c] + s| - 1] == [c] + r;
      ValueFront(c, r);
      Distribute(Code(c), Pow(|r|), Value(r));
    }
  }

  lemma Distribute(c: int, p: int, v: int)
    ensures BASE * (c * p + v) == c * (BASE * p) + BASE * v
  {
  }

  /** The window without its first character and with a new last one. */
  lemma ValueRolls(c: char, s: string, d: char)
    ensures Value(s + [d]) == BASE * (Value([c] + s) - Code(c) * Pow(|s|)) + Code(d)
  {
    ValueFront(c, s);
    assert (s + [d])[..|s|] == s;
  }

  /** The rolled hash is the direct one, whatever multiples of the modulus are left out of its parts. */
  lemma HashRolls(c: char, s: string, d: char, th: int, h: int)
    requires th % MODULUS == Hash([c] + s) && h == Pow(|s|) % MODULUS
    ensures (BASE * (th - Code(c) * h) + Code(d)) % MODULUS == Hash(s + [d])
  {
    ValueRolls(c, s, d);
    hide Value, Pow;
    RollMod(Value([c] + s), Pow(|s|), Code(c), Code(d), th, h, Value(s + [d]));
  }

  lemma RollMod(v: int, p: int, c: int, d: int, th: int, h: int, x: int)
    requires v % MODULUS == th % MODULUS && p % MODULUS == h % MODULUS && x == BASE * (v - c * p) + d
    ensures (BASE * (th - c * h) + d) % MODULUS == x % MODULUS
  {
    var k, r := v / MODULUS - th / MODULUS, p / MODULUS - h / MODULUS;
    SameRemainder(v, th);
    SameRemainder(p, h);
    RollParts(v, p, c, d, th, h, k, r);
    SameMod(x, BASE * (th - c * h) + d, BASE * (k - c * r));
  }

  lemma SameRemainder(v: int, u: int)
    requires v % MODULUS == u % MODULUS
    ensures v == u + MODULUS * (v / MODULUS - u / MODULUS)
  {
  }

  lemma RollParts(v: int, p: int, c: int, d: int, th: int, h: int, k: int, r: int)
    requires v == th + MODULUS * k && p == h + MODULUS * r
    ensures BASE * (v - c * p) + d == BASE * (th - c * h) + d + MODULUS * (BASE * (k - c * r))
  {
    assert c * p == c * h + MODULUS * (c * r) by { Expand(c, h, r); }
  }

  lemma Expand(c: int, h: int, r: int)
    ensures c * (h + MODULUS * r) == c * h + MODULUS * (c * r)
  {
  }

  lemma RemIsMod(a: int)
    ensures -MODULUS < Rem(a, MODULUS) < MODULUS
    ensures (if Rem(a, MODULUS) < 0 then Rem(a, MODULUS) + MODULUS else Rem(a, MODULUS)) == a % MODULUS
  {
  }

  /** The signed hash is the hash but for its sign. */
  lemma {:induction false} SignedIsHash(s: string)
    ensures -MODULUS < SignedHash(s) < MODULUS && SignedHash(s) % MODULUS == Hash(s)
    ensures SignedHash(s) >= 0 ==> SignedHash(s) == Hash(s)
  {
    if s != "" {
      var r, c := s[..|s| - 1], Code(s[|s| - 1]);
      SignedIsHash(r);
      RemIsMod(BASE * SignedHash(r) + c);
      SameRemainder(Value(r), SignedHash(r));
      SameMod(Value(s), BASE * SignedHash(r) + c, BASE * (Value(r) / MODULUS - SignedHash(r) / MODULUS));
    }
  }

  lemma {:induction false} AsciiHash(s: string)
    requires Ascii(s)
    ensures SignedHash(s) >= 0
  {
    if s != "" { AsciiHash(s[..|s| - 1]); }
  }

  // -------------------------------------------------------------------------- the searches

  /** The power of the base that the first character of a window of m characters has. */
  method TopPower(m: nat) returns (h: nat)
    requires m > 0
    ensures h == Pow(m - 1) % MODULUS
  {
    h := 1;
    for i := 0 to m - 1
      invariant h == Pow(i) % MODULUS
    {
      SameMod(BASE * Pow(i), h * BASE, BASE * (Pow(i) / MODULUS));
      h := Rem(h * BASE, MODULUS);
    }
  }

  /** The hash of the m characters from i on; behind the text stands a zero. */
  function WindowHash(t: string, i: nat, m: nat): int
    requires i + m <= |t| + 1
  {
    Hash(Terminated(t)[i..i + m])
  }

  /**
    What is found: every place where p occurs; but if the hash of p is negative only the front of
    the text, because the hash of every other window is not.
   */
  function Found(t: string, p: string): seq<nat> {
    if SignedHash(p) >= 0 then OccurrencesFrom(t, p, 0) else if OccursAt(t, p, 0) then [0] else []
  }

  /** RabinKarp: the places where p is found, in increasing order. */
  method RabinKarp(t: string, p: string) returns (found: seq<nat>)
    requires Bytes(t) && Bytes(p) && 0 < |p| <= |t|
    ensures found == Found(t, p)
  {
    hide Hash, SignedHash, OccurrencesFrom, Pow, Bytes, WindowHash;
    var tLen, pLen := |t|, |p|;
    var h := TopPower(pLen);
    var tHash, pHash := FirstHashes(t, p);
    found := [];
    var i := 0;
    while i <= tLen - pLen
      invariant 0 <= i <= tLen - pLen + 1 && WindowHashed(t, i, pLen, tHash)
      invariant pHash >= 0 ==> found + OccurrencesFrom(t, p, i) == OccurrencesFrom(t, p, 0)
      invariant pHash < 0 ==> found == if i > 0 && OccursAt(t, p, 0) then [0] else []
    {
      var same := SameAt(t, p, i, tHash, pHash);
      NextOccurrence(t, p, i, found);
      if same {
        found := found + [i];
      }
      tHash := Roll(t, i, pLen, tHash, h);
      i := i + 1;
    }
    NoneLeft(t, p, i);
  }

  /** The hash that the loop has for the window at i: signed at the front, else not negative. */
  predicate WindowHashed(t: string, i: nat, m: nat, hash: int) {
    i + m <= |t| + 1 &&
    if i == 0 then m <= |t| && hash == SignedHash(t[..m]) else 0 <= hash < MODULUS && hash == WindowHash(t, i, m)
  }

  /** The hashes of the first window and of the pattern. */
  method FirstHashes(t: string, p: string) returns (tHash: int, pHash: int)
    requires |p| <= |t|
    ensures tHash == SignedHash(t[..|p|]) && pHash == SignedHash(p)
  {
    tHash, pHash := 0, 0;
    for i := 0 to |p|
      invariant tHash == SignedHash(t[..i]) && pHash == SignedHash(p[..i])
    {
      assert t[..i + 1][..i] == t[..i] && p[..i + 1][..i] == p[..i];
      tHash := Rem(BASE * tHash + Code(t[i]), MODULUS);
      pHash := Rem(BASE * pHash + Code(p[i]), MODULUS);
    }
    assert p[..|p|] == p;
  }

  /** Is p found at i? The texts are compared only if the hashes agree. */
  method SameAt(t: string, p: string, i: nat, tHash: int, pHash: int) returns (same: bool)
    requires i + |p| <= |t| && WindowHashed(t, i, |p|, tHash) && pHash == SignedHash(p)
    ensures same == (t[i..i + |p|] == p && (i == 0 || pHash >= 0))
  {
    InText(t, i, |p|);
    SignedIsHash(p);
    assert t[0..|p|] == t[..|p|];
    same := tHash == pHash && t[i..i + |p|] == p;
  }

  /** The hash of the window one character on; behind the text stands a zero. */
  method Roll(t: string, i: nat, pLen: nat, tHash0: int, h: int) returns (tHash: int)
    requires 0 < pLen && i + pLen <= |t| && h == Pow(pLen - 1) % MODULUS && WindowHashed(t, i, pLen, tHash0)
    ensures WindowHashed(t, i + 1, pLen, tHash)
  {
    ghost var z := Terminated(t);
    var next := if i + pLen < |t| then t[i + pLen] else '\0';
    Window(z, i, pLen);
    WindowMod(t, i, pLen, tHash0);
    HashRolls(z[i], z[i + 1..i + pLen], z[i + pLen], tHash0, h);
    RemIsMod(BASE * (tHash0 - Code(t[i]) * h) + Code(next));
    tHash := Rem(BASE * (tHash0 - Code(t[i]) * h) + Code(next), MODULUS);
    if tHash < 0 {
      tHash := tHash + MODULUS;
    }
  }

  lemma WindowMod(t: string, i: nat, m: nat, hash: int)
    requires i + m <= |t| && WindowHashed(t, i, m, hash)
    ensures hash % MODULUS == Hash(Terminated(t)[i..i + m])
  {
    InText(t, i, m);
    if i == 0 {
      SignedIsHash(t[..m]);
      assert t[0..m] == t[..m];
    }
  }

  lemma NextOccurrence(t: string, p: string, i: nat, found: seq<nat>)
    requires i + |p| <= |t| && p != ""
    ensures OccurrencesFrom(t, p, i) == (if t[i..i + |p|] == p then [i] else []) + OccurrencesFrom(t, p, i + 1)
    ensures found + OccurrencesFrom(t, p, i)
      == (if t[i..i + |p|] == p then found + [i] else found) + OccurrencesFrom(t, p, i + 1)
  {
    assert OccursAt(t, p, i) <==> t[i..i + |p|] == p;
    var r := OccurrencesFrom(t, p, i + 1);
    assert found + ([i] + r) == (found + [i]) + r;
    assert [] + r == r;
  }

  lemma NoneLeft(t: string, p: string, i: nat)
    requires i + |p| > |t| && p != ""
    ensures OccurrencesFrom(t, p, i) == []
    decreases |t| - i
  {
    if i < |t| { NoneLeft(t, p, i + 1); }
  }

  lemma InText(t: string, i: nat, m: nat)
    requires i + m <= |t|
    ensures Terminated(t)[i..i + m] == t[i..i + m] && 0 <= Hash(t[i..i + m]) < MODULUS && t[..m] == t[0..m]
  {
  }

  lemma Window(z: string, i: nat, m: nat)
    requires m > 0 && i + m < |z|
    ensures z[i..i + m] == [z[i]] + z[i + 1..i + m] && z[i + 1..i + 1 + m] == z[i + 1..i + m] + [z[i + m]]
  {
  }

  /** Every occurrence is found if and only if the hash of p is not negative, or there is none behind the front. */
  lemma FoundIffSigned(t: string, p: string)
    requires 0 < |p| <= |t|
    ensures Found(t, p) == OccurrencesFrom(t, p, 0) <==> SignedHash(p) >= 0 || OccurrencesFrom(t, p, 1) == []
    ensures Ascii(p) ==> Found(t, p) == OccurrencesFrom(t, p, 0)
  {
    if Ascii(p) { AsciiHash(p); }
    NextOccurrence(t, p, 0, []);
    assert t[0..|p|] == t[..|p|];
  }

  /** A pattern that is not found where it stands: the character 200 is negative. */
  lemma NegativeMissed()
    ensures OccursAt(['a', 200 as char], [200 as char], 1) && Found(['a', 200 as char], [200 as char]) == []
  {
    var t, p := ['a', 200 as char], [200 as char];
    assert t[1..2] == p && t[0..1][0] == 'a';
    assert p[..0] == "";
    assert SignedHash(p) == -56;
  }

  /** The first place where p occurs, -1 if there is none. */
  function FirstOccurrence(t: string, p: string): int {
    if OccurrencesFrom(t, p, 0) == [] then -1 else OccurrencesFrom(t, p, 0)[0]
  }

  /** BruteForce: the search with backtracking. */
  method BruteForce(str: string, pat: string) returns (r: int)
    ensures r == FirstOccurrence(str, pat)
  {
    var i, j := 0, 0;
    while i < |str| && j < |pat|
      invariant 0 <= j <= i <= |str| && j <= |pat| && str[i - j..i] == pat[..j]
      invariant forall k: nat :: k < i - j ==> !OccursAt(str, pat, k)
      decreases |str| - (i - j), |pat| - j
    {
      if str[i] == pat[j] {
        assert str[i - j..i + 1] == str[i - j..i] + [str[i]] && pat[..j + 1] == pat[..j] + [pat[j]];
        i := i + 1;
        j := j + 1;
      } else {
        Mismatch(str, pat, i - j, j);
        i := i - j + 1;
        j := 0;
      }
    }
    if j == |pat| {
      assert pat[..j] == pat;
      IsFirst(str, pat, i - j);
      return i - j;
    }
    IsNone(str, pat, i - j);
    return -1;
  }

  lemma Mismatch(t: string, p: string, k: nat, j: nat)
    requires j < |p| && k + j < |t| && t[k + j] != p[j]
    ensures !OccursAt(t, p, k)
  {
    if k + |p| <= |t| { assert t[k..k + |p|][j] == t[k + j]; }
  }

  lemma IsFirst(t: string, p: string, i: nat)
    requires OccursAt(t, p, i) && forall k: nat :: k < i ==> !OccursAt(t, p, k)
    ensures FirstOccurrence(t, p) == i
  {
    OccurrencesAre(t, p, 0);
    var r := OccurrencesFrom(t, p, 0);
    assert i in r;
    assert OccursAt(t, p, r[0]);
  }

  lemma {:induction false} FirstOccurs(t: string, p: string, i: nat)
    ensures OccurrencesFrom(t, p, i) != [] ==> OccursAt(t, p, OccurrencesFrom(t, p, i)[0])
    decreases |t| - i
  {
    if i < |t| { FirstOccurs(t, p, i + 1); }
  }

  lemma IsNone(t: string, p: string, i: nat)
    requires i + |p| > |t| && forall k: nat :: k < i ==> !OccursAt(t, p, k)
    ensures FirstOccurrence(t, p) == -1
  {
    FirstOccurs(t, p, 0);
  }

  // ------------------------------------------------------------------- the hash as a class

  class RabinHash {
    const maxPower: nat

    constructor (windowSize: nat)
      ensures maxPower == Pow(if windowSize == 0 then 0 else windowSize - 1) % MODULUS
    {
      var power := 1;
      var i := 1;
      while i < windowSize
        invariant 1 <= i && (i <= windowSize || i == 1) && power == Pow(i - 1) % MODULUS
      {
        SameMod(BASE * Pow(i - 1), power * BASE, BASE * (Pow(i - 1) / MODULUS));
        power := power * BASE % MODULUS;
        i := i + 1;
      }
      maxPower := power;
    }

    method ComputeInitialHash(str: string, len: nat) returns (hash: nat)
      requires len <= |str| && Ascii(str)
      ensures hash == Hash(str[..len])
    {
      hash := 0;
      for i := 0 to len
        invariant hash == Hash(str[..i])
      {
        HashStep(str[..i], str[i]);
        assert str[..i + 1] == str[..i] + [str[i]];
        hash := (hash * BASE + str[i] as int) % MODULUS;
      }
    }

    /** From the hash of a window to the hash of the window one character on. */
    method RollHash(prevHash: nat, left: char, right: char, ghost middle: string) returns (hash: nat)
      requires maxPower == Pow(|middle|) % MODULUS && prevHash == Hash([left] + middle)
      requires Ascii([left] + middle + [right])
      ensures hash == Hash(middle + [right])
    {
      hide Value, Pow, Ascii;
      AsciiEnds(left, middle, right);
      var d := left as int * maxPower % MODULUS;
      var prev := (prevHash + MODULUS - d) % MODULUS;
      hash := (prev * BASE + right as int) % MODULUS;
      HashRolls(left, middle, right, prevHash, maxPower);
      RollUnsigned(prevHash, left as int * maxPower, right as int);
    }
  }

  lemma AsciiEnds(left: char, middle: string, right: char)
    requires Ascii([left] + middle + [right])
    ensures Code(left) == left as int && Code(right) == right as int
  {
    var s := [left] + middle + [right];
    assert s[0] == left && s[|s| - 1] == right;
  }

  /** Taking the remainder after every step makes no difference. */
  lemma RollUnsigned(prev: nat, x: nat, r: nat)
    ensures ((prev + MODULUS - x % MODULUS) % MODULUS * BASE + r) % MODULUS == (BASE * (prev - x) + r) % MODULUS
  {
    var a := prev + MODULUS - x % MODULUS;
    var k := a / MODULUS;
    assert a % MODULUS * BASE + r == BASE * (prev - x) + r + MODULUS * (BASE * (1 + x / MODULUS - k));
    SameMod(a % MODULUS * BASE + r, BASE * (prev - x) + r, BASE * (1 + x / MODULUS - k));
  }
}
