/** The string hash of the patch identifiers, 32-bit FNV-1a (shared/stringid.h:3-14), and the
    chain of hashes over the fields of a patch (game_patch/patch.c:143-158).
  */
module Fnv {
  import opened Words

  const OFFSET_BASIS: Word := 0x811c9dc5
  const PRIME: int := 0x01000193
  const PRIME_INVERSE: int := 0x359c449b

  ghost predicate ZeroFree(s: Bytes) {
    forall i :: 0 <= i < |s| ==> s[i] != 0
  }

  /** A character as the 32-bit integer it is promoted to; `char` may be signed. */
  function Promote(c: Byte, signedChar: bool): Word {
    if signedChar && c >= 0x80 then c + 0xFFFF_FF00 else c
  }

  /** Bitwise exclusive or of the low `n` bits. */
  function Xor(a: nat, b: nat, n: nat): (r: nat)
    ensures r < Pow2(n)
    decreases n, a + b
  {
    if n == 0 then 0 else 2 * Xor(a / 2, b / 2, n - 1) + (a + b) % 2
  }

  lemma WordBits()
    ensures Pow2(32) == WORD_SPAN
  {
    assert Pow2(8) == 0x100;
    assert Pow2(16) == 0x1_0000 by {
      assert Pow2(12) == 16 * Pow2(8);
      assert Pow2(16) == 16 * Pow2(12);
    }
    assert Pow2(24) == 0x100_0000 by {
      assert Pow2(20) == 16 * Pow2(16);
      assert Pow2(24) == 16 * Pow2(20);
    }
    assert Pow2(28) == 16 * Pow2(24);
    assert Pow2(32) == 16 * Pow2(28);
  }

  function XorWord(a: Word, b: Word): Word {
    WordBits();
    Xor(a, b, 32)
  }

  function TimesPrime(x: Word): Word {
    PRIME * x % WORD_SPAN
  }

  function Mix(base: Word, c: Byte, signedChar: bool): Word {
    TimesPrime(XorWord(base, Promote(c, signedChar)))
  }

  /** The loop, from position `i` on. */
  function Fold(s: Bytes, i: nat, base: Word, signedChar: bool): Word
    decreases |s| - i
  {
    if i >= |s| then base else Fold(s, i + 1, Mix(base, s[i], signedChar), signedChar)
  }

  /** A zero base means the offset basis. */
  function Rebase(base: Word): Word {
    if base == 0 then OFFSET_BASIS else base
  }

  function Hash(s: Bytes, base: Word, signedChar: bool): Word {
    Fold(s, 0, Rebase(base), signedChar)
  }

  method StringId(s: Bytes, base: Word, signedChar: bool) returns (h: Word)
    requires ZeroFree(s)
    ensures h == Hash(s, base, signedChar)
  {
    h := base;
    if h == 0 {
      h := OFFSET_BASIS;
    }
    var i := 0;
    while i < |s| && s[i] != 0
      invariant i <= |s| && Fold(s, 0, Rebase(base), signedChar) == Fold(s, i, h, signedChar)
    {
      h := TimesPrime(XorWord(h, Promote(s[i], signedChar)));
      i := i + 1;
    }
  }

  // ----- One step can be undone -----

  /** The multiplier has an inverse modulo 2^32. */
  lemma PrimeInvertible(x: Word)
    ensures PRIME_INVERSE * TimesPrime(x) % WORD_SPAN == x
  {
    var q := PRIME * x / WORD_SPAN;
    var k := (PRIME_INVERSE * PRIME - 1) / WORD_SPAN;
    assert PRIME_INVERSE * PRIME == 1 + WORD_SPAN * k;
    assert PRIME_INVERSE * TimesPrime(x) == x + WORD_SPAN * (k * x - PRIME_INVERSE * q);
    RemainderIs(PRIME_INVERSE * TimesPrime(x), k * x - PRIME_INVERSE * q, x);
  }

  lemma RemainderIs(v: int, q: int, r: Word)
    requires v == r + WORD_SPAN * q
    ensures v % WORD_SPAN == r
  {
  }

  lemma HalvesApart(a: nat, b: nat, p: nat, n: nat)
    requires a != b && a / 2 == b / 2 && n > 0
    ensures Xor(a, p, n) != Xor(b, p, n) && Xor(p, a, n) != Xor(p, b, n)
  {
    assert a % 2 != b % 2;
    var h := XorUnfolds(a, p, n);
    h := XorUnfolds(b, p, n);
    h := XorUnfolds(p, a, n);
    h := XorUnfolds(p, b, n);
  }

  lemma HigherApart(a: nat, b: nat, p: nat, n: nat)
    requires n > 0 && Xor(a / 2, p / 2, n - 1) != Xor(b / 2, p / 2, n - 1)
    requires Xor(p / 2, a / 2, n - 1) != Xor(p / 2, b / 2, n - 1)
    ensures Xor(a, p, n) != Xor(b, p, n) && Xor(p, a, n) != Xor(p, b, n)
  {
  }

  lemma {:induction false} XorApart(a: nat, b: nat, p: nat, n: nat)
    requires a != b && a < Pow2(n) && b < Pow2(n)
    ensures Xor(a, p, n) != Xor(b, p, n) && Xor(p, a, n) != Xor(p, b, n)
    decreases n
  {
    if a / 2 != b / 2 {
      XorApart(a / 2, b / 2, p / 2, n - 1);
      HigherApart(a, b, p, n);
    } else {
      HalvesApart(a, b, p, n);
    }
  }

  lemma XorWordApart(a: Word, b: Word, p: Word)
    requires a != b
    ensures XorWord(a, p) != XorWord(b, p) && XorWord(p, a) != XorWord(p, b)
  {
    WordBits();
    XorApart(a, b, p, 32);
  }

  lemma MixInjective(a: Word, b: Word, c: Byte, signedChar: bool)
    requires a != b
    ensures Mix(a, c, signedChar) != Mix(b, c, signedChar)
  {
    XorWordApart(a, b, Promote(c, signedChar));
    PrimeInvertible(XorWord(a, Promote(c, signedChar)));
    PrimeInvertible(XorWord(b, Promote(c, signedChar)));
  }

  lemma MixSensitive(base: Word, c: Byte, d: Byte, signedChar: bool)
    requires c != d
    ensures Mix(base, c, signedChar) != Mix(base, d, signedChar)
  {
    XorWordApart(Promote(c, signedChar), Promote(d, signedChar), base);
    PrimeInvertible(XorWord(base, Promote(c, signedChar)));
    PrimeInvertible(XorWord(base, Promote(d, signedChar)));
  }

  /** Different bases stay different over any common text. */
  lemma {:induction false} FoldInjective(s: Bytes, i: nat, a: Word, b: Word, signedChar: bool)
    requires a != b
    ensures Fold(s, i, a, signedChar) != Fold(s, i, b, signedChar)
    decreases |s| - i
  {
    if i < |s| {
      MixInjective(a, b, s[i], signedChar);
      FoldInjective(s, i + 1, Mix(a, s[i], signedChar), Mix(b, s[i], signedChar), signedChar);
    }
  }

  lemma {:induction false} FoldSameTail(s: Bytes, t: Bytes, i: nat, base: Word, signedChar: bool)
    requires |s| == |t| && forall j :: i <= j < |s| ==> s[j] == t[j]
    ensures Fold(s, i, base, signedChar) == Fold(t, i, base, signedChar)
    decreases |s| - i
  {
    if i < |s| {
      FoldSameTail(s, t, i + 1, Mix(base, s[i], signedChar), signedChar);
    }
  }

  lemma {:induction false} FoldSensitive(s: Bytes, t: Bytes, k: nat, i: nat, base: Word, signedChar: bool)
    requires |s| == |t| && i <= k < |s| && s[k] != t[k]
    requires forall j :: 0 <= j < |s| && j != k ==> s[j] == t[j]
    ensures Fold(s, i, base, signedChar) != Fold(t, i, base, signedChar)
    decreases k - i
  {
    if i < k {
      FoldSensitive(s, t, k, i + 1, Mix(base, s[i], signedChar), signedChar);
    } else {
      MixSensitive(base, s[k], t[k], signedChar);
      FoldSameTail(s, t, k + 1, Mix(base, t[k], signedChar), signedChar);
      FoldInjective(s, k + 1, Mix(base, s[k], signedChar), Mix(base, t[k], signedChar), signedChar);
    }
  }

  /** Strings of one length that differ in exactly one byte never collide. */
  lemma OneByteChangesTheHash(s: Bytes, t: Bytes, k: nat, base: Word, signedChar: bool)
    requires |s| == |t| && k < |s| && s[k] != t[k]
    requires forall j :: 0 <= j < |s| && j != k ==> s[j] == t[j]
    ensures Hash(s, base, signedChar) != Hash(t, base, signedChar)
  {
    FoldSensitive(s, t, k, 0, Rebase(base), signedChar);
  }

  // ----- Chains -----

  lemma {:induction false} FoldAppend(a: Bytes, b: Bytes, i: nat, base: Word, signedChar: bool)
    requires i <= |a|
    ensures Fold(a + b, i, base, signedChar) == Fold(b, 0, Fold(a, i, base, signedChar), signedChar)
    decreases |a| - i
  {
    if i < |a| {
      FoldAppend(a, b, i + 1, Mix(base, a[i], signedChar), signedChar);
    } else {
      FoldShift(a, b, 0, base, signedChar);
    }
  }

  lemma {:induction false} FoldShift(a: Bytes, b: Bytes, j: nat, base: Word, signedChar: bool)
    requires j <= |b|
    ensures Fold(a + b, |a| + j, base, signedChar) == Fold(b, j, base, signedChar)
    decreases |b| - j
  {
    if j < |b| {
      FoldShift(a, b, j + 1, Mix(base, b[j], signedChar), signedChar);
    }
  }

  /** Hashing two parts in turn equals hashing them joined exactly when the value in between is
      not zero, which the second call would take for "no base". */
  lemma ChainingExactly(a: Bytes, b: Bytes, base: Word, signedChar: bool)
    ensures Hash(b, Hash(a, base, signedChar), signedChar) == Hash(a + b, base, signedChar) <==>
            Hash(a, base, signedChar) != 0
  {
    var between := Hash(a, base, signedChar);
    FoldAppend(a, b, 0, Rebase(base), signedChar);
    if between == 0 {
      FoldInjective(b, 0, Rebase(between), between, signedChar);
    }
  }

  /** calculate_patch_hash: each field hashed on top of the previous value. */
  function Chain(fields: seq<Bytes>, base: Word, signedChar: bool): Word {
    if fields == [] then base
    else Chain(fields[1..], Hash(fields[0], base, signedChar), signedChar)
  }

  function Joined(fields: seq<Bytes>): Bytes {
    if fields == [] then [] else fields[0] + Joined(fields[1..])
  }

  /** No value between two fields is zero. */
  predicate NoZeroBetween(fields: seq<Bytes>, base: Word, signedChar: bool) {
    |fields| <= 1 ||
    (Hash(fields[0], base, signedChar) != 0
     && NoZeroBetween(fields[1..], Hash(fields[0], base, signedChar), signedChar))
  }

  method HashFields(fields: seq<Bytes>, base: Word, signedChar: bool) returns (h: Word)
    requires forall k :: 0 <= k < |fields| ==> ZeroFree(fields[k])
    ensures h == Chain(fields, base, signedChar)
  {
    h := base;
    var i := 0;
    while i < |fields|
      invariant i <= |fields| && Chain(fields, base, signedChar) == Chain(fields[i..], h, signedChar)
    {
      assert fields[i..][1..] == fields[i + 1..];
      h := StringId(fields[i], h, signedChar);
      i := i + 1;
    }
  }

  lemma {:induction false} ChainIsOneHash(fields: seq<Bytes>, base: Word, signedChar: bool)
    requires fields != [] && NoZeroBetween(fields, base, signedChar)
    ensures Chain(fields, base, signedChar) == Hash(Joined(fields), base, signedChar)
    decreases |fields|
  {
    var h := Hash(fields[0], base, signedChar);
    if |fields| == 1 {
      assert fields[0] + [] == fields[0];
    } else {
      ChainIsOneHash(fields[1..], h, signedChar);
      ChainingExactly(fields[0], Joined(fields[1..]), base, signedChar);
    }
  }

  // ----- The numbers -----

  /** Bit `k`, counted from the low end. */
  function BitOf(x: nat, k: nat): (b: nat)
    ensures b < 2
    decreases k, x
  {
    if k == 0 then x % 2 else BitOf(x / 2, k - 1)
  }

  lemma HigherBits(x: nat, h: nat, p: nat)
    requires x == 2 * h + p && p < 2
    ensures x / 2 == h && x % 2 == p
  {
  }

  lemma XorUnfolds(a: nat, b: nat, n: nat) returns (h: nat)
    requires n > 0
    ensures h == Xor(a / 2, b / 2, n - 1) && Xor(a, b, n) == 2 * h + (if a % 2 == b % 2 then 0 else 1)
  {
    h := Xor(a / 2, b / 2, n - 1);
    Parity(a, b);
  }

  lemma Parity(a: nat, b: nat)
    ensures (a + b) % 2 == if a % 2 == b % 2 then 0 else 1
  {
  }

  /** Each bit of an exclusive or is one exactly when the two bits differ. */
  lemma {:induction false} XorBits(a: nat, b: nat, n: nat, k: nat, x: nat)
    requires k < n && x == Xor(a, b, n)
    ensures BitOf(x, k) == if BitOf(a, k) == BitOf(b, k) then 0 else 1
    decreases k
  {
    var h := XorUnfolds(a, b, n);
    HigherBits(x, h, if a % 2 == b % 2 then 0 else 1);
    if k > 0 {
      XorBits(a / 2, b / 2, n - 1, k - 1, h);
    }
  }

  lemma {:induction false} XorWithZero(a: nat, n: nat)
    requires a < Pow2(n)
    ensures Xor(a, 0, n) == a
    decreases n
  {
    if n > 0 {
      XorWithZero(a / 2, n - 1);
    }
  }

  lemma {:induction false} FoldSnoc(s: Bytes, c: Byte, i: nat, base: Word, signedChar: bool)
    requires i <= |s|
    ensures Fold(s + [c], i, base, signedChar) == Mix(Fold(s, i, base, signedChar), c, signedChar)
    decreases |s| - i
  {
    if i < |s| {
      FoldSnoc(s, c, i + 1, Mix(base, s[i], signedChar), signedChar);
    } else {
      assert Fold(s + [c], i + 1, Mix(base, c, signedChar), signedChar) == Mix(base, c, signedChar);
    }
  }

  /** Each further byte is taken into the low bits by exclusive or before the multiplication by
      0x01000193 modulo 2^32; a signed `char` from 128 on fills the other bits. */
  lemma NextByte(s: Bytes, c: Byte, base: Word, signedChar: bool)
    ensures var wide: Word := if signedChar && c >= 128 then 0x1_0000_0000 - 256 + c else c;
            Hash(s + [c], base, signedChar) == 0x0100_0193 * XorWord(Hash(s, base, signedChar), wide) % 0x1_0000_0000
  {
    FoldSnoc(s, c, 0, Rebase(base), signedChar);
  }

  /** No byte leaves the base; a zero base is the offset basis. */
  lemma NoByte(s: Bytes, base: Word, signedChar: bool)
    ensures base != 0 ==> Hash([], base, signedChar) == base
    ensures Hash(s, 0, signedChar) == Hash(s, 0x811C_9DC5, signedChar)
  {
  }

  lemma XorInHalves(a: nat, b: nat, n: nat, a': nat, b': nat, h: nat, p: nat, q: nat)
    requires n > 0 && a == 2 * a' + p && b == 2 * b' + q && p < 2 && q < 2 && h == Xor(a', b', n - 1)
    ensures Xor(a, b, n) == 2 * h + (if p == q then 0 else 1)
  {
    HigherBits(a, a', p);
    HigherBits(b, b', q);
    Parity(a, b);
  }

  /** The offset basis with the code of "a". */
  lemma LowByte(basis: Word, a: Byte, high: nat)
    requires basis == 0x811C_9DC5 && a == 0x61 && high == 0x102_393B
    ensures XorWord(basis, a) == 0x811C_9DA4
  {
    HighFits(high);
    XorWithZero(high, 25);
    XorInHalves(2 * high + 1, 1, 26, high, 0, high, 1, 1);
    XorInHalves(4 * high + 2, 3, 27, 2 * high + 1, 1, 2 * high, 0, 1);
    XorInHalves(8 * high + 4, 6, 28, 4 * high + 2, 3, 4 * high + 1, 0, 0);
    XorInHalves(16 * high + 8, 12, 29, 8 * high + 4, 6, 8 * high + 2, 0, 0);
    XorInHalves(32 * high + 17, 24, 30, 16 * high + 8, 12, 16 * high + 4, 1, 0);
    XorInHalves(64 * high + 34, 48, 31, 32 * high + 17, 24, 32 * high + 9, 0, 0);
    XorInHalves(basis, a, 32, 64 * high + 34, 48, 64 * high + 18, 1, 1);
  }

  lemma HighFits(high: nat)
    requires high == 0x102_393B
    ensures high < Pow2(25)
  {
    WordBits();
    assert Pow2(32) == 16 * Pow2(28) && Pow2(28) == 8 * Pow2(25);
  }

  lemma OneByte(a: Byte, base: Word, basis: Word, x: Word, signedChar: bool)
    requires a < 128 && basis == Hash([], base, signedChar) && x == XorWord(basis, a)
    ensures Hash([a], base, signedChar) == 0x0100_0193 * x % 0x1_0000_0000
  {
    NextByte([], a, base, signedChar);
    assert [] + [a] == [a];
  }

  lemma LastProduct(x: Word)
    requires x == 0x811C_9DA4
    ensures 0x0100_0193 * x % 0x1_0000_0000 == 0xE40C_292C
  {
  }

  lemma EmptyHash(base: Word, signedChar: bool) returns (basis: Word)
    requires base == 0
    ensures basis == Hash([], base, signedChar) && basis == 0x811C_9DC5
  {
    basis := Hash([], base, signedChar);
  }

  /** The published value for the one letter "a". */
  lemma LetterA(a: Byte, base: Word, signedChar: bool)
    requires a == 0x61 && base == 0
    ensures Hash([a], base, signedChar) == 0xE40C_292C
  {
    var basis := EmptyHash(base, signedChar);
    LowByte(basis, a, 0x102_393B);
    var x := XorWord(basis, a);
    OneByte(a, base, basis, x, signedChar);
    LastProduct(x);
  }
}
