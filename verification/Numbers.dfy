/** Number parsing: `strtoul` for an unsigned type of `modulus` values, and the wrappers that
    read patch operands (game_patch/lv2_stdio.h:69-288, game_patch/patch.c:1090-1123).
  */
module Numbers {
  import Words
  import opened CText

  // ----- Digits -----

  /** The value of a digit or letter, either case; -1 for anything else. */
  function DigitValue(c: char): (d: int)
    ensures -1 <= d < 36
  {
    if '0' <= c <= '9' then c as int - '0' as int
    else if 'a' <= c <= 'z' then c as int - 'a' as int + 10
    else if 'A' <= c <= 'Z' then c as int - 'A' as int + 10
    else -1
  }

  predicate IsDigitOf(c: char, base: nat) {
    0 <= DigitValue(c) < base
  }

  /** The first position from `i` on that is not a digit of the base. */
  function DigitsEnd(s: string, i: nat, base: nat): (r: nat)
    requires i <= |s|
    ensures i <= r <= |s|
    decreases |s| - i
  {
    if i < |s| && IsDigitOf(s[i], base) then DigitsEnd(s, i + 1, base) else i
  }

  /** The positional value of the characters from `i` up to `j`. */
  function ValueOf(s: string, i: nat, j: nat, base: nat): (v: nat)
    requires j <= |s|
    decreases j - i
  {
    if i >= j then 0
    else ValueOf(s, i, j - 1, base) * base + (if IsDigitOf(s[j - 1], base) then DigitValue(s[j - 1]) else 0)
  }

  // ----- What strtoul reads -----

  /** What comes before the digits: the sign, the base in use, where the digits start, and
      whether an octal prefix already counts as a digit. */
  datatype Prefix = Prefix(neg: bool, base: nat, start: nat, seen: bool)

  /** The sign, the base used, the span of the digits and whether a digit was seen. */
  datatype Scan = Scan(neg: bool, base: nat, start: nat, end: nat, sawDigits: bool)

  predicate ValidBase(base: int) {
    base == 0 || 2 <= base <= 36
  }

  predicate HexPrefixAt(s: string, i: nat) {
    At(s, i) == '0' && (At(s, i + 1) == 'x' || At(s, i + 1) == 'X')
  }

  /** After the sign, at `i`. */
  function BasePrefix(s: string, base: nat, neg: bool, i: nat): (r: Prefix)
    requires i <= |s|
    ensures i <= r.start <= |s|
  {
    if (base == 0 || base == 16) && HexPrefixAt(s, i) then Prefix(neg, 16, i + 2, false)
    else if (base == 0 || base == 8) && At(s, i) == '0' then Prefix(neg, 8, i + 1, true)
    else Prefix(neg, if base == 0 then 10 else base, i, false)
  }

  function ScanPrefix(s: string, base: nat): (r: Prefix)
    ensures r.start <= |s|
  {
    var i := SkipSpace(s, 0);
    var c := At(s, i);
    BasePrefix(s, base, c == '-', if c == '+' || c == '-' then i + 1 else i)
  }

  function ScanNumber(s: string, base: nat): (r: Scan)
    ensures r.start <= r.end <= |s|
  {
    var p := ScanPrefix(s, base);
    var end := DigitsEnd(s, p.start, p.base);
    Scan(p.neg, p.base, p.start, end, p.seen || end > p.start)
  }

  /** The number read, before the sign: overflow wraps. */
  function Magnitude(s: string, scan: Scan, modulus: nat): (v: nat)
    requires modulus > 0 && scan.end <= |s|
    ensures v < modulus
  {
    ValueOf(s, scan.start, scan.end, scan.base) % modulus
  }

  /** Negation wraps too, except that the largest value is returned as it is. */
  function Negated(v: nat, modulus: nat): (r: nat)
    requires v < modulus
    ensures r < modulus
  {
    if v == modulus - 1 || v == 0 then v else modulus - v
  }

  function StrtoulValue(s: string, base: int, modulus: nat): (v: nat)
    requires modulus > 0
    ensures v < modulus
  {
    if !ValidBase(base) then 0
    else
      var scan := ScanNumber(s, base);
      var v := Magnitude(s, scan, modulus);
      if scan.neg then Negated(v, modulus) else v
  }

  /** Where the end pointer is set. */
  function StrtoulEnd(s: string, base: int): nat {
    if !ValidBase(base) || !ScanNumber(s, base).sawDigits then 0 else ScanNumber(s, base).end
  }

  // ----- The method -----

  /** The value of a character in the given base, as the switch computes it. */
  method DigitOf(c: char) returns (val: int)
    ensures val == DigitValue(c)
  {
    if '0' <= c <= '9' {
      return c as int - '0' as int;
    }
    var lowered := c;
    if 'A' <= c <= 'Z' {
      lowered := (c as int + ('a' as int - 'A' as int)) as char;
    }
    if 'a' <= lowered <= 'z' {
      return lowered as int - 'a' as int + 10;
    }
    return -1;
  }

  lemma NextDigit(s: string, i: nat, j: nat, base: nat, modulus: nat, result: nat)
    requires j < |s| && i <= j && IsDigitOf(s[j], base) && modulus > 0
    requires result == ValueOf(s, i, j, base) % modulus
    ensures (result * base % modulus + DigitValue(s[j])) % modulus == ValueOf(s, i, j + 1, base) % modulus
  {
    var v, d := ValueOf(s, i, j, base), DigitValue(s[j]);
    ModMulAdd(v, base, d, modulus);
  }

  lemma ModMulAdd(v: nat, base: nat, d: nat, m: nat)
    requires m > 0
    ensures ((v % m) * base % m + d) % m == (v * base + d) % m
  {
    var q, r := Divided(v, m);
    var k, rest := Divided(r * base, m);
    var y := Rearranged(v, base, d, m, q, r, k, rest);
    AddMultiple(y, rest + d, q * base + k, m);
  }

  lemma Divided(x: nat, m: nat) returns (q: nat, r: nat)
    requires m > 0
    ensures x == m * q + r && r == x % m
  {
    q, r := x / m, x % m;
  }

  lemma Rearranged(v: int, base: int, d: int, m: int, q: int, r: int, k: int, rest: int) returns (y: int)
    requires v == m * q + r && r * base == m * k + rest
    ensures y == v * base + d == m * (q * base + k) + (rest + d)
  {
    y := v * base + d;
    assert (m * q + r) * base == (m * q) * base + r * base;
    assert (m * q) * base == m * (q * base);
    assert m * (q * base + k) == m * (q * base) + m * k;
  }

  lemma AddMultiple(y: int, x: nat, k: nat, m: nat)
    requires m > 0 && y == m * k + x
    ensures y % m == x % m
  {
    var q, r := Divided(x, m);
    assert m * (k + q) == m * k + m * q;
    UniqueRemainder(y, k + q, r, m);
  }

  lemma UniqueRemainder(v: int, q: int, r: int, m: int)
    requires m > 0 && 0 <= r < m && v == m * q + r
    ensures v % m == r
  {
    var q', r' := v / m, v % m;
    assert m * (q - q') == r' - r;
    var k: int := q - q';
    MultipleIsFar(m, k);
  }

  lemma MultipleIsFar(m: int, k: int)
    requires m > 0
    ensures k >= 1 ==> m * k >= m
    ensures k <= -1 ==> m * k <= -m
  {
  }

  /** The digit loop. */
  method ReadDigits(s: string, start: nat, base: nat, modulus: nat) returns (result: nat, end: nat)
    requires NulFree(s) && modulus > 0 && start <= |s|
    ensures end == DigitsEnd(s, start, base) && result == ValueOf(s, start, end, base) % modulus
  {
    result, end := 0, start;
    while At(s, end) != NUL
      invariant start <= end <= |s| && DigitsEnd(s, start, base) == DigitsEnd(s, end, base)
      invariant result == ValueOf(s, start, end, base) % modulus
      decreases |s| - end
    {
      var val := DigitOf(s[end]);
      if val < 0 || val >= base {
        break;
      }
      NextDigit(s, start, end, base, modulus, result);
      result := result * base % modulus;
      result := (result + val) % modulus;
      end := end + 1;
    }
  }

  /** White space, sign and base prefix. */
  method ReadPrefix(s: string, base: nat) returns (neg: bool, radix: nat, nptr: nat, sawDigits: bool)
    requires NulFree(s)
    ensures Prefix(neg, radix, nptr, sawDigits) == ScanPrefix(s, base)
  {
    neg, radix, nptr, sawDigits := false, base, 0, false;
    while IsSpace(At(s, nptr))
      invariant nptr <= |s| && SkipSpace(s, 0) == SkipSpace(s, nptr)
      decreases |s| - nptr
    {
      nptr := nptr + 1;
    }
    if At(s, nptr) == '+' {
      nptr := nptr + 1;
    } else if At(s, nptr) == '-' {
      nptr := nptr + 1;
      neg := true;
    }
    if (base == 0 || base == 16) && At(s, nptr) == '0' && (At(s, nptr + 1) == 'x' || At(s, nptr + 1) == 'X') {
      radix := 16;
      nptr := nptr + 2;
    } else if (base == 0 || base == 8) && At(s, nptr) == '0' {
      radix := 8;
      nptr := nptr + 1;
      sawDigits := true;
    } else if base == 0 {
      radix := 10;
    }
  }

  /** Unsigned negation, but for the largest value, which stands for overflow. */
  method ApplySign(neg: bool, result: nat, modulus: nat) returns (value: nat)
    requires result < modulus
    ensures value == if neg then Negated(result, modulus) else result
  {
    if neg && result == modulus - 1 {
      return modulus - 1;
    } else if neg {
      return if result == 0 then 0 else modulus - result;
    }
    return result;
  }

  lemma NothingRead(s: string, base: nat, modulus: nat)
    requires modulus > 0 && ValidBase(base) && !ScanNumber(s, base).sawDigits
    ensures StrtoulValue(s, base, modulus) == 0
  {
    var scan := ScanNumber(s, base);
    assert Magnitude(s, scan, modulus) == 0;
  }

  method Strtoul(s: string, base: int, modulus: nat) returns (value: nat, endptr: nat)
    requires NulFree(s) && modulus > 0
    ensures value == StrtoulValue(s, base, modulus) && endptr == StrtoulEnd(s, base)
  {
    if base != 0 && (base < 2 || base > 36) {
      return 0, 0;
    }
    var neg, radix, nptr, sawDigits := ReadPrefix(s, base);
    var result, end := ReadDigits(s, nptr, radix, modulus);
    sawDigits := sawDigits || end > nptr;
    if !sawDigits {
      NothingRead(s, base, modulus);
      return 0, 0;
    }
    endptr := end;
    value := ApplySign(neg, result, modulus);
  }

  // ----- What is read, piece by piece -----

  predicate AllDigits(s: string, base: nat) {
    forall i :: 0 <= i < |s| ==> IsDigitOf(s[i], base)
  }

  /** The positional value of a string of digits. */
  function Positional(ds: string, base: nat): nat {
    ValueOf(ds, 0, |ds|, base)
  }

  /** `prefix` before the digits in `tail` makes strtoul use `radix` for the given base. */
  predicate PrefixFor(base: nat, prefix: string, radix: nat, tail: string) {
    || (prefix == "" && ValidBase(base) && radix == (if base == 0 then 10 else base)
        && (base == 0 || base == 8 ==> At(tail, 0) != '0')
        && (base == 0 || base == 16 ==> !HexPrefixAt(tail, 0)))
    || ((prefix == "0x" || prefix == "0X") && (base == 0 || base == 16) && radix == 16)
    || (prefix == "0" && (base == 0 || base == 8) && radix == 8)
  }

  lemma {:induction false} DigitsEndIs(s: string, i: nat, j: nat, base: nat)
    requires i <= j <= |s| && (forall k :: i <= k < j ==> IsDigitOf(s[k], base)) && !IsDigitOf(At(s, j), base)
    ensures DigitsEnd(s, i, base) == j
    decreases j - i
  {
    if i < j {
      DigitsEndIs(s, i + 1, j, base);
    }
  }

  lemma {:induction false} ValueOfStanding(s: string, i: nat, ds: string, n: nat, base: nat)
    requires n <= |ds| && Stands(s, i, ds)
    ensures ValueOf(s, i, i + n, base) == ValueOf(ds, 0, n, base)
    decreases n
  {
    if n > 0 {
      ValueOfStanding(s, i, ds, n - 1, base);
      assert ds[n - 1] == s[i + (n - 1)];
    }
  }

  /** The sign and white space are skipped, whatever comes after, if it starts with a digit. */
  lemma PrefixAfterSign(s: string, ws: string, sign: string, base: nat)
    requires AllSpace(ws) && (sign == "" || sign == "+" || sign == "-")
    requires Stands(s, 0, ws) && Stands(s, |ws|, sign) && DigitValue(At(s, |ws| + |sign|)) >= 0
    ensures |ws| + |sign| <= |s|
    ensures ScanPrefix(s, base) == BasePrefix(s, base, sign == "-", |ws| + |sign|)
  {
    forall k | 0 <= k < |ws|
      ensures IsSpace(s[k])
    {
      assert ws[k] == s[0 + k];
    }
    if sign != "" {
      assert sign[0] == s[|ws| + 0];
    }
    SkipsAll(s, 0, |ws|);
  }

  lemma PrefixTaken(s: string, i: nat, base: nat, neg: bool, prefix: string, radix: nat, tail: string)
    requires PrefixFor(base, prefix, radix, tail) && Stands(s, i, prefix) && i + |prefix| + |tail| == |s|
    requires Stands(s, i + |prefix|, tail) && tail != [] && DigitValue(tail[0]) >= 0
    requires prefix == "0" ==> DigitValue(tail[0]) < 8
    ensures var p := BasePrefix(s, base, neg, i); p.neg == neg && p.base == radix && p.start == i + |prefix|
  {
    assert tail[0] == s[i + |prefix| + 0];
    assert |tail| > 1 ==> tail[1] == s[i + |prefix| + 1];
    if prefix != "" {
      assert prefix[0] == s[i + 0];
      assert |prefix| == 2 ==> prefix[1] == s[i + 1];
    }
  }

  lemma DigitsRead(s: string, start: nat, ds: string, radix: nat)
    requires Stands(s, start, ds) && AllDigits(ds, radix) && !IsDigitOf(At(s, start + |ds|), radix)
    ensures DigitsEnd(s, start, radix) == start + |ds|
    ensures ValueOf(s, start, start + |ds|, radix) == Positional(ds, radix)
  {
    forall k | start <= k < start + |ds|
      ensures IsDigitOf(s[k], radix)
    {
      assert ds[k - start] == s[start + (k - start)];
    }
    DigitsEndIs(s, start, start + |ds|, radix);
    ValueOfStanding(s, start, ds, |ds|, radix);
  }

  lemma PrefixRead(s: string, ws: string, sign: string, prefix: string, tail: string, base: nat, radix: nat)
    requires AllSpace(ws) && (sign == "" || sign == "+" || sign == "-") && tail != [] && DigitValue(tail[0]) >= 0
    requires PrefixFor(base, prefix, radix, tail) && (prefix == "0" ==> DigitValue(tail[0]) < 8)
    requires Stands(s, 0, ws) && Stands(s, |ws|, sign) && Stands(s, |ws| + |sign|, prefix)
    requires Stands(s, |ws| + |sign| + |prefix|, tail) && |s| == |ws| + |sign| + |prefix| + |tail|
    ensures var p := ScanPrefix(s, base);
            p.neg == (sign == "-") && p.base == radix && p.start == |ws| + |sign| + |prefix|
  {
    var i := |ws| + |sign|;
    assert tail[0] == s[i + |prefix| + 0];
    if prefix != "" {
      assert prefix[0] == s[i + 0];
    }
    PrefixAfterSign(s, ws, sign, base);
    PrefixTaken(s, i, base, sign == "-", prefix, radix, tail);
  }

  ghost predicate Placed(s: string, ws: string, sign: string, prefix: string, ds: string, rest: string) {
    && Stands(s, 0, ws) && Stands(s, |ws|, sign) && Stands(s, |ws| + |sign|, prefix)
    && Stands(s, |ws| + |sign| + |prefix|, ds) && Stands(s, |ws| + |sign| + |prefix|, ds + rest)
    && |s| == |ws| + |sign| + |prefix| + |ds| + |rest|
    && At(s, |ws| + |sign| + |prefix| + |ds|) == At(rest, 0)
  }

  lemma Pieces(ws: string, sign: string, prefix: string, ds: string, rest: string)
    ensures Placed(ws + sign + prefix + ds + rest, ws, sign, prefix, ds, rest)
  {
  }

  lemma ScanReads(s: string, ws: string, sign: string, prefix: string, ds: string, rest: string, base: nat, radix: nat)
    requires AllSpace(ws) && (sign == "" || sign == "+" || sign == "-")
    requires ds != [] && AllDigits(ds, radix) && (rest != [] ==> !IsDigitOf(rest[0], radix))
    requires PrefixFor(base, prefix, radix, ds + rest) && Placed(s, ws, sign, prefix, ds, rest)
    ensures var start := |ws| + |sign| + |prefix|;
            && start + |ds| <= |s|
            && ScanNumber(s, base) == Scan(sign == "-", radix, start, start + |ds|, true)
            && ValueOf(s, start, start + |ds|, radix) == Positional(ds, radix)
  {
    assert (ds + rest)[0] == ds[0] && IsDigitOf(ds[0], radix);
    PrefixRead(s, ws, sign, prefix, ds + rest, base, radix);
    DigitsRead(s, |ws| + |sign| + |prefix|, ds, radix);
  }

  /** The text `s`, however it was put together from its parts. */
  lemma PlacedReads(s: string, ws: string, sign: string, prefix: string, ds: string, rest: string, base: nat,
                    radix: nat, modulus: nat)
    requires modulus > 0 && ValidBase(base) && AllSpace(ws) && (sign == "" || sign == "+" || sign == "-")
    requires ds != [] && AllDigits(ds, radix) && (rest != [] ==> !IsDigitOf(rest[0], radix))
    requires PrefixFor(base, prefix, radix, ds + rest) && Placed(s, ws, sign, prefix, ds, rest)
    ensures StrtoulEnd(s, base) == |ws| + |sign| + |prefix| + |ds|
    ensures var v := Positional(ds, radix) % modulus;
            StrtoulValue(s, base, modulus) == if sign == "-" then Negated(v, modulus) else v
  {
    var start := |ws| + |sign| + |prefix|;
    ScanReads(s, ws, sign, prefix, ds, rest, base, radix);
    ValueFromScan(s, base, Scan(sign == "-", radix, start, start + |ds|, true), modulus);
  }

  /** For any white space, sign, prefix, run of digits and remainder: the value is the signed
      positional value, wrapped, and the end pointer is at the remainder. */
  lemma StrtoulReads(ws: string, sign: string, prefix: string, ds: string, rest: string, base: nat, radix: nat,
                     modulus: nat)
    requires modulus > 0 && ValidBase(base) && AllSpace(ws) && (sign == "" || sign == "+" || sign == "-")
    requires ds != [] && AllDigits(ds, radix) && (rest != [] ==> !IsDigitOf(rest[0], radix))
    requires PrefixFor(base, prefix, radix, ds + rest)
    ensures var s := ws + sign + prefix + ds + rest;
            var v := Positional(ds, radix) % modulus;
            && StrtoulEnd(s, base) == |ws + sign + prefix + ds|
            && StrtoulValue(s, base, modulus) == if sign == "-" then Negated(v, modulus) else v
  {
    Pieces(ws, sign, prefix, ds, rest);
    PlacedReads(ws + sign + prefix + ds + rest, ws, sign, prefix, ds, rest, base, radix, modulus);
  }

  lemma ValueFromScan(s: string, base: nat, scan: Scan, modulus: nat)
    requires modulus > 0 && ValidBase(base) && scan == ScanNumber(s, base) && scan.sawDigits
    ensures StrtoulEnd(s, base) == scan.end
    ensures var v := ValueOf(s, scan.start, scan.end, scan.base) % modulus;
            StrtoulValue(s, base, modulus) == if scan.neg then Negated(v, modulus) else v
  {
  }

  // ----- Printing and reading back -----

  /** The digits of `n`, most significant first. */
  function Print(n: nat, base: nat): (ds: string)
    requires 2 <= base <= 36
    ensures ds != []
    decreases n
  {
    if n < base then [DigitChar(n)]
    else
      QuotientIsSmaller(n, base);
      Print(n / base, base) + [DigitChar(n % base)]
  }

  lemma {:induction false} PrintFacts(n: nat, base: nat)
    requires 2 <= base <= 36
    ensures AllDigits(Print(n, base), base) && Positional(Print(n, base), base) == n
    decreases n
  {
    if n < base {
      AppendDigit([], n, base);
      assert [] + [DigitChar(n)] == [DigitChar(n)];
    } else {
      QuotientIsSmaller(n, base);
      PrintFacts(n / base, base);
      AppendDigit(Print(n / base, base), n % base, base);
      Recompose(n, base);
    }
  }

  lemma Recompose(n: nat, base: nat)
    requires base > 0
    ensures n / base * base + n % base == n
  {
  }

  lemma AppendDigit(ds: string, d: nat, base: nat)
    requires d < base <= 36 && AllDigits(ds, base)
    ensures AllDigits(ds + [DigitChar(d)], base)
    ensures Positional(ds + [DigitChar(d)], base) == Positional(ds, base) * base + d
  {
    PositionalSnoc(ds, DigitChar(d), base);
  }

  lemma QuotientIsSmaller(n: nat, base: nat)
    requires 2 <= base <= n
    ensures n / base < n
  {
    var q := n / base;
    assert n == base * q + n % base;
    TwiceAtMost(base, q);
  }

  lemma TwiceAtMost(base: nat, q: nat)
    requires base >= 2
    ensures base * q >= 2 * q
  {
    assert (base - 2) * q >= 0;
  }

  lemma PositionalSnoc(ds: string, c: char, base: nat)
    requires IsDigitOf(c, base)
    ensures Positional(ds + [c], base) == Positional(ds, base) * base + DigitValue(c)
  {
    assert Stands(ds + [c], 0, ds);
    ValueOfStanding(ds + [c], 0, ds, |ds|, base);
  }

  predicate IsHex(s: string) {
    HexPrefixAt(s, 0)
  }

  function HexBase(s: string): nat {
    if IsHex(s) then 16 else 10
  }

  function StringToUint(s: string, modulus: nat): (v: nat)
    requires modulus > 0
    ensures v < modulus
  {
    StrtoulValue(s, HexBase(s), modulus)
  }

  /** The 2^64 values of a `long long`; an `unsigned long` may have fewer. */
  const LONG_LONG_SPAN: nat := 0x1_0000_0000_0000_0000

  /** The value of an `unsigned long`, widened to 64 bits and reinterpreted as signed. */
  function StringToInt(s: string, modulus: nat): (v: int)
    requires 0 < modulus <= LONG_LONG_SPAN
    ensures -(LONG_LONG_SPAN / 2) <= v < LONG_LONG_SPAN / 2
  {
    var v := StrtoulValue(s, HexBase(s), modulus);
    if v < LONG_LONG_SPAN / 2 then v else v - LONG_LONG_SPAN
  }

  /** Decimal text reads back as its value, wrapped. */
  lemma DecimalRoundTrip(n: nat, modulus: nat)
    requires modulus > 0
    ensures StringToUint(Print(n, 10), modulus) == n % modulus
  {
    var ds := Print(n, 10);
    PrintFacts(n, 10);
    NotHex("", ds);
    StrtoulReads("", "", "", ds, "", 10, 10, modulus);
    assert "" + "" + "" + ds + "" == ds;
    assert ds + "" == ds;
  }

  /** So does hexadecimal text behind 0x. */
  lemma HexRoundTrip(n: nat, modulus: nat)
    requires modulus > 0
    ensures StringToUint("0x" + Print(n, 16), modulus) == n % modulus
  {
    var ds := Print(n, 16);
    PrintFacts(n, 16);
    StrtoulReads("", "", "0x", ds, "", 16, 16, modulus);
    assert "" + "" + "0x" + ds + "" == "0x" + ds;
    assert ds + "" == ds;
  }

  lemma NotHex(sign: string, ds: string)
    requires (sign == "" || sign == "-") && ds != [] && AllDigits(ds, 10)
    ensures !IsHex(sign + ds)
  {
    var s := sign + ds;
    if sign == "" {
      assert s == ds;
      assert |ds| > 1 ==> IsDigitOf(ds[1], 10);
    }
  }

  function PrintSigned(n: int): string {
    if n >= 0 then Print(n, 10) else "-" + Print(-n, 10)
  }

  lemma NegativePlaced(ds: string)
    ensures Placed("-" + ds, "", "-", "", ds, "") && ds + "" == ds
  {
    Pieces("", "-", "", ds, "");
    assert "" + "-" + "" + ds + "" == "-" + ds;
  }

  lemma NegativeDecimalReads(n: nat, modulus: nat)
    requires modulus > 0
    ensures StrtoulValue("-" + Print(n, 10), HexBase("-" + Print(n, 10)), modulus) == Negated(n % modulus, modulus)
  {
    var ds := Print(n, 10);
    PrintFacts(n, 10);
    NotHex("-", ds);
    NegativePlaced(ds);
    PlacedReads("-" + ds, "", "-", "", ds, "", 10, 10, modulus);
  }

  /** For a `long` of 32 or 64 bits: a printed value reads back if and only if it is not negative
      and fits the `unsigned long`, or that has all 64 bits. A shorter one loses the sign. */
  lemma SignedRoundTripExactly(n: int, modulus: nat)
    requires modulus == Words.WORD_SPAN || modulus == LONG_LONG_SPAN
    requires -(LONG_LONG_SPAN / 2) <= n < LONG_LONG_SPAN / 2
    ensures StringToInt(PrintSigned(n), modulus) == n <==> 0 <= n < modulus || modulus == LONG_LONG_SPAN
  {
    if n >= 0 {
      DecimalRoundTrip(n, modulus);
      RemainderIsSelfExactly(n, modulus);
    } else {
      NegativeDecimalReads(-n, modulus);
      if modulus == LONG_LONG_SPAN {
        SmallRemainder(-n, modulus);
      }
    }
  }

  lemma RemainderIsSelfExactly(n: nat, modulus: nat)
    requires modulus > 0
    ensures n % modulus == n <==> n < modulus
  {
  }

  /** With 64 bits, every value of the signed type survives printing and reading back. */
  lemma SignedRoundTrip(n: int)
    requires -(LONG_LONG_SPAN / 2) <= n < LONG_LONG_SPAN / 2
    ensures StringToInt(PrintSigned(n), LONG_LONG_SPAN) == n
  {
    SignedRoundTripExactly(n, LONG_LONG_SPAN);
  }

  lemma SmallRemainder(n: nat, modulus: nat)
    requires n < modulus
    ensures n % modulus == n
  {
  }

  /** A minus sign negates the value modulo the type's size, except exactly when the unsigned
      value is the largest one (which is returned unchanged). */
  lemma NegationExactly(n: nat, modulus: nat)
    requires modulus > 2
    ensures (StrtoulValue("-" + Print(n, 10), 10, modulus) + n % modulus) % modulus == 0 <==> n % modulus != modulus - 1
  {
    var v := n % modulus;
    PrintFacts(n, 10);
    NotHex("-", Print(n, 10));
    NegativeDecimalReads(n, modulus);
    if v == modulus - 1 {
      UniqueRemainder(v + v, 1, modulus - 2, modulus);
    } else if v == 0 {
      SmallRemainder(0, modulus);
    } else {
      UniqueRemainder(modulus - v + v, 1, 0, modulus);
    }
  }

  /** The base is chosen from the first two characters. With white space or a sign before it, a
      hexadecimal operand is read in base ten, up to its `x`: always zero. */
  lemma ShiftedHexReadsAsZero(ws: string, sign: string, prefix: string, n: nat, modulus: nat)
    requires modulus > 0 && AllSpace(ws) && (sign == "" || sign == "+" || sign == "-") &&
             (prefix == "0x" || prefix == "0X")
    requires ws + sign != ""
    ensures StrtoulValue(ws + sign + prefix + Print(n, 16), HexBase(ws + sign + prefix + Print(n, 16)), modulus) == 0
  {
    var s := ws + sign + prefix + Print(n, 16);
    var rest := [prefix[1]] + Print(n, 16);
    NotHexAfter(ws, sign, prefix + Print(n, 16));
    ZeroPlaced(ws, sign, prefix, Print(n, 16));
    ZeroDigit();
    PlacedReads(s, ws, sign, "", "0", rest, 10, 10, modulus);
    SmallRemainder(0, modulus);
  }

  lemma NotHexAfter(ws: string, sign: string, tail: string)
    requires AllSpace(ws) && (sign == "" || sign == "+" || sign == "-") && ws + sign != ""
    ensures !IsHex(ws + sign + tail)
  {
    assert (ws + sign + tail)[0] == (ws + sign)[0];
  }

  lemma ZeroPlaced(ws: string, sign: string, prefix: string, digits: string)
    requires prefix == "0x" || prefix == "0X"
    ensures Placed(ws + sign + prefix + digits, ws, sign, "", "0", [prefix[1]] + digits)
  {
    var rest := [prefix[1]] + digits;
    Pieces(ws, sign, "", "0", rest);
    assert prefix == "0" + [prefix[1]];
    assert ws + sign + "" + "0" + rest == ws + sign + prefix + digits;
  }

  lemma ZeroDigit()
    ensures AllDigits("0", 10) && Positional("0", 10) == 0
  {
    PositionalSnoc([], '0', 10);
    assert [] + ['0'] == "0";
  }

  /** For unsigned text, possibly behind white space and a plus sign: it reads as its value if and
      only if nothing stands before the prefix or the value is zero. */
  lemma PrefixedHexExactly(ws: string, sign: string, n: nat, modulus: nat)
    requires modulus > 0 && AllSpace(ws) && (sign == "" || sign == "+")
    ensures StringToUint(ws + sign + "0x" + Print(n, 16), modulus) == n % modulus <==>
            ws + sign == "" || n % modulus == 0
  {
    if ws + sign == "" {
      HexRoundTrip(n, modulus);
      assert ws + sign + "0x" + Print(n, 16) == "0x" + Print(n, 16);
    } else {
      ShiftedHexReadsAsZero(ws, sign, "0x", n, modulus);
    }
  }

  /** So negative hexadecimal text always reads as zero. */
  lemma NegativeHexReadsAsZero(n: nat, modulus: nat)
    requires 0 < modulus <= LONG_LONG_SPAN
    ensures StringToInt("-0x" + Print(n, 16), modulus) == 0
  {
    ShiftedHexReadsAsZero("", "-", "0x", n, modulus);
    assert "" + "-" + "0x" + Print(n, 16) == "-0x" + Print(n, 16);
  }

  // ----- Numerals in either case -----

  const LOWER: string := "0123456789abcdefghijklmnopqrstuvwxyz"
  const UPPER: string := "0123456789ABCDEFGHIJKLMNOPQRSTUVWXYZ"

  datatype Digit = Digit(value: nat, upper: bool)

  function DigitText(d: Digit): char
    requires d.value < 36
  {
    if d.upper then UPPER[d.value] else LOWER[d.value]
  }

  /** What a digit is worth, and that nothing else is a digit. */
  lemma DigitWorth(d: Digit)
    requires d.value < 36
    ensures DigitValue(DigitText(d)) == d.value
  {
    if d.upper {
      UpperWorth(d.value);
    } else {
      LowerWorth(d.value);
    }
  }

  lemma LowerWorth(v: nat)
    requires v < 36
    ensures DigitValue(LOWER[v]) == v
  {
  }

  lemma UpperWorth(v: nat)
    requires v < 36
    ensures DigitValue(UPPER[v]) == v
  {
  }

  lemma OnlyDigits(c: char)
    ensures DigitValue(c) >= 0 ==> c in LOWER || c in UPPER
  {
    var d := DigitValue(c);
    if d >= 0 {
      if '0' <= c <= '9' || 'a' <= c <= 'z' {
        assert c == LOWER[d];
      } else {
        assert c == UPPER[d];
      }
    }
  }

  ghost predicate DigitsOf(ds: seq<Digit>, base: nat) {
    forall k :: 0 <= k < |ds| ==> ds[k].value < base <= 36
  }

  function Numeral(ds: seq<Digit>): (t: string)
    requires forall k :: 0 <= k < |ds| ==> ds[k].value < 36
    ensures |t| == |ds|
  {
    seq(|ds|, k requires 0 <= k < |ds| => DigitText(ds[k]))
  }

  /** The value of the first `n` digits. */
  function Worth(ds: seq<Digit>, n: nat, base: nat): nat
    requires n <= |ds|
    decreases n
  {
    if n == 0 then 0 else Worth(ds, n - 1, base) * base + ds[n - 1].value
  }

  lemma ValueSnoc(t: string, n: nat, base: nat, d: nat, v: nat)
    requires 0 < n <= |t| && DigitValue(t[n - 1]) == d < base && v == ValueOf(t, 0, n - 1, base)
    ensures ValueOf(t, 0, n, base) == v * base + d
  {
  }

  lemma WorthSnoc(ds: seq<Digit>, n: nat, base: nat, v: nat)
    requires 0 < n <= |ds| && v == Worth(ds, n - 1, base)
    ensures Worth(ds, n, base) == v * base + ds[n - 1].value
  {
  }

  ghost predicate Spells(t: string, ds: seq<Digit>) {
    |t| == |ds| && forall k :: 0 <= k < |ds| ==> DigitValue(t[k]) == ds[k].value
  }

  lemma NumeralSpells(ds: seq<Digit>, base: nat)
    requires DigitsOf(ds, base) && base <= 36
    ensures Spells(Numeral(ds), ds)
  {
    forall k | 0 <= k < |ds|
      ensures DigitValue(Numeral(ds)[k]) == ds[k].value
    {
      DigitWorth(ds[k]);
    }
  }

  lemma {:induction false} NumeralWorth(ds: seq<Digit>, n: nat, base: nat, t: string)
    requires n <= |ds| && DigitsOf(ds, base) && Spells(t, ds)
    ensures ValueOf(t, 0, n, base) == Worth(ds, n, base)
    decreases n
  {
    if n > 0 {
      var v := Worth(ds, n - 1, base);
      NumeralWorth(ds, n - 1, base, t);
      ValueSnoc(t, n, base, ds[n - 1].value, v);
      WorthSnoc(ds, n, base, v);
    }
  }

  lemma NumeralIsDigits(ds: seq<Digit>, base: nat)
    requires DigitsOf(ds, base) && base <= 36
    ensures AllDigits(Numeral(ds), base) && Positional(Numeral(ds), base) == Worth(ds, |ds|, base)
  {
    NumeralSpells(ds, base);
    NumeralWorth(ds, |ds|, base, Numeral(ds));
  }

  /** Hexadecimal digits in any mixture of cases behind 0x. */
  lemma HexNumeral(ds: seq<Digit>, modulus: nat)
    requires modulus > 0 && ds != [] && DigitsOf(ds, 16)
    ensures StringToUint("0x" + Numeral(ds), modulus) == Worth(ds, |ds|, 16) % modulus
  {
    NumeralIsDigits(ds, 16);
    HexReads(Numeral(ds), Worth(ds, |ds|, 16), modulus);
  }

  /** Decimal digits without a prefix. */
  lemma DecimalNumeral(ds: seq<Digit>, modulus: nat)
    requires modulus > 0 && ds != [] && DigitsOf(ds, 10)
    ensures StringToUint(Numeral(ds), modulus) == Worth(ds, |ds|, 10) % modulus
  {
    NumeralIsDigits(ds, 10);
    DecimalReads(Numeral(ds), Worth(ds, |ds|, 10), modulus);
  }

  lemma HexReads(ds: string, v: nat, modulus: nat)
    requires modulus > 0 && ds != [] && AllDigits(ds, 16) && v == Positional(ds, 16)
    ensures StringToUint("0x" + ds, modulus) == v % modulus
  {
    StrtoulReads("", "", "0x", ds, "", 16, 16, modulus);
    assert "" + "" + "0x" + ds + "" == "0x" + ds;
    assert ds + "" == ds;
  }

  lemma DecimalReads(ds: string, v: nat, modulus: nat)
    requires modulus > 0 && ds != [] && AllDigits(ds, 10) && v == Positional(ds, 10)
    ensures StringToUint(ds, modulus) == v % modulus
  {
    NotHex("", ds);
    StrtoulReads("", "", "", ds, "", 10, 10, modulus);
    assert "" + "" + "" + ds + "" == ds;
    assert ds + "" == ds;
  }

  /** Printing: one digit below ten, and otherwise the last digit behind the rest. */
  lemma PrintedDigits(n: nat, d: nat)
    requires d < 10
    ensures Print(d, 10) == [LOWER[d]]
    ensures n > 0 ==> Print(10 * n + d, 10) == Print(n, 10) + [LOWER[d]]
  {
    DigitWorth(Digit(d, false));
    assert (10 * n + d) / 10 == n && (10 * n + d) % 10 == d;
  }

  // ----- What is no number -----

  /** No other base is accepted: nothing is read. */
  lemma BadBase(s: string, base: int, modulus: nat)
    requires modulus > 0 && (base < 0 || base == 1 || base > 36)
    ensures StrtoulValue(s, base, modulus) == 0 && StrtoulEnd(s, base) == 0
  {
  }

  /** White space and a sign without a digit behind them are no number: the end stays at the start. */
  lemma NoNumber(ws: string, sign: string, rest: string, base: nat, modulus: nat)
    requires modulus > 0 && (base == 0 || 2 <= base <= 36)
    requires AllSpace(ws) && (sign == "" || sign == "+" || sign == "-")
    requires rest == [] || (rest[0] !in LOWER && rest[0] !in UPPER)
    requires sign == "" ==> rest == [] || (!IsSpace(rest[0]) && rest[0] != '+' && rest[0] != '-')
    ensures StrtoulValue(ws + sign + rest, base, modulus) == 0 && StrtoulEnd(ws + sign + rest, base) == 0
  {
    var s, i := ws + sign + rest, |ws| + |sign|;
    forall k | 0 <= k < |ws|
      ensures IsSpace(s[k])
    {
      assert s[k] == ws[k];
    }
    if sign != "" {
      assert s[|ws|] == sign[0];
    } else if rest != [] {
      assert s[|ws|] == rest[0];
    }
    SkipsAll(s, 0, |ws|);
    if rest != [] {
      assert s[i] == rest[0];
      OnlyDigits(rest[0]);
      assert LOWER[0] == '0';
    }
    assert DigitValue(At(s, i)) < 0;
    NothingScanned(s, base, sign == "-", i);
    NothingRead(s, base, modulus);
  }

  lemma NothingScanned(s: string, base: nat, neg: bool, i: nat)
    requires i <= |s| && DigitValue(At(s, i)) < 0 && ScanPrefix(s, base) == BasePrefix(s, base, neg, i)
    ensures !ScanNumber(s, base).sawDigits
  {
  }

  const OCTAL_DIGITS: string := "01234567"
  const HEX_DIGITS: string := "0123456789abcdefABCDEF"

  lemma NotADigit(c: char)
    ensures c !in OCTAL_DIGITS ==> !IsDigitOf(c, 8)
    ensures c !in HEX_DIGITS ==> !IsDigitOf(c, 16)
  {
    if DigitValue(c) >= 0 {
      if c <= '7' {
        assert OCTAL_DIGITS[c as int - '0' as int] == c;
      }
      if c <= '9' {
        assert HEX_DIGITS[c as int - '0' as int] == c;
      } else if 'a' <= c <= 'f' {
        assert HEX_DIGITS[c as int - 'a' as int + 10] == c;
      } else if 'A' <= c <= 'F' {
        assert HEX_DIGITS[c as int - 'A' as int + 16] == c;
      }
    }
  }

  lemma BehindSign(ws: string, sign: string, tail: string) returns (s: string, i: nat)
    ensures s == ws + sign + tail && i == |ws| + |sign| && Stands(s, 0, ws) && Stands(s, |ws|, sign)
    ensures |s| == i + |tail| && forall k :: 0 <= k < |tail| ==> s[i + k] == tail[k]
  {
    s, i := ws + sign + tail, |ws| + |sign|;
  }

  lemma OctalPrefixAt(s: string, i: nat, base: nat, neg: bool)
    requires i < |s| && s[i] == '0' && (base == 0 || base == 8) && At(s, i + 1) != 'x' && At(s, i + 1) != 'X'
    ensures BasePrefix(s, base, neg, i) == Prefix(neg, 8, i + 1, true)
  {
  }

  lemma HexPrefixIs(s: string, i: nat, base: nat, neg: bool)
    requires i + 1 < |s| && s[i] == '0' && (base == 0 || base == 16) && (s[i + 1] == 'x' || s[i + 1] == 'X')
    ensures BasePrefix(s, base, neg, i) == Prefix(neg, 16, i + 2, false)
  {
  }

  /** No digit behind the prefix. */
  lemma NoDigitBehind(s: string, base: nat, p: Prefix, modulus: nat)
    requires modulus > 0 && ValidBase(base) && p == ScanPrefix(s, base) && p.start <= |s|
    requires !IsDigitOf(At(s, p.start), p.base)
    ensures StrtoulValue(s, base, modulus) == 0 && StrtoulEnd(s, base) == if p.seen then p.start else 0
  {
    assert DigitsEnd(s, p.start, p.base) == p.start && ValueOf(s, p.start, p.start, p.base) == 0;
  }

  lemma NotADigitAt(s: string, i: nat, rest: string)
    requires At(s, i) == At(rest, 0)
    ensures (rest != [] ==> rest[0] !in OCTAL_DIGITS) ==> !IsDigitOf(At(s, i), 8)
    ensures (rest != [] ==> rest[0] !in HEX_DIGITS) ==> !IsDigitOf(At(s, i), 16)
  {
    if rest != [] {
      NotADigit(rest[0]);
    }
  }

  lemma ZeroAt(ws: string, sign: string, front: string, rest: string) returns (s: string, i: nat)
    requires |front| > 0 && front[0] == '0'
    ensures s == ws + sign + (front + rest) && i == |ws| + |sign| && Stands(s, 0, ws) && Stands(s, |ws|, sign)
    ensures i + |front| <= |s| && s[i] == '0' && (|front| > 1 ==> s[i + 1] == front[1])
    ensures At(s, i + |front|) == At(rest, 0)
  {
    var tail := front + rest;
    s, i := BehindSign(ws, sign, tail);
    assert s[i + 0] == tail[0] && (|front| > 1 ==> s[i + 1] == tail[1]);
    if rest != [] {
      assert s[i + |front|] == tail[|front|] == rest[0];
    }
  }

  /** An octal prefix is a number by itself: zero, and the end behind it. */
  lemma LoneZero(ws: string, sign: string, rest: string, base: nat, modulus: nat)
    requires modulus > 0 && (base == 0 || base == 8)
    requires AllSpace(ws) && (sign == "" || sign == "+" || sign == "-")
    requires rest != [] ==> rest[0] !in OCTAL_DIGITS && rest[0] != 'x' && rest[0] != 'X'
    ensures var s := ws + sign + ("0" + rest);
            StrtoulValue(s, base, modulus) == 0 && StrtoulEnd(s, base) == |ws| + |sign| + 1
  {
    var s, i := ZeroAt(ws, sign, "0", rest);
    PrefixAfterSign(s, ws, sign, base);
    OctalPrefixAt(s, i, base, sign == "-");
    NotADigitAt(s, i + 1, rest);
    NoDigitBehind(s, base, Prefix(sign == "-", 8, i + 1, true), modulus);
  }

  /** A hexadecimal prefix is not: without a digit behind it nothing is read. */
  lemma BareHexPrefix(ws: string, sign: string, x: char, rest: string, base: nat, modulus: nat)
    requires modulus > 0 && (base == 0 || base == 16) && (x == 'x' || x == 'X')
    requires AllSpace(ws) && (sign == "" || sign == "+" || sign == "-")
    requires rest != [] ==> rest[0] !in HEX_DIGITS
    ensures var s := ws + sign + (['0', x] + rest);
            StrtoulValue(s, base, modulus) == 0 && StrtoulEnd(s, base) == 0
  {
    var s, i := ZeroAt(ws, sign, ['0', x], rest);
    PrefixAfterSign(s, ws, sign, base);
    HexPrefixIs(s, i, base, sign == "-");
    NotADigitAt(s, i + 2, rest);
    NoDigitBehind(s, base, Prefix(sign == "-", 16, i + 2, false), modulus);
  }
}
