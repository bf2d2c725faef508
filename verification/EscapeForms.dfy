/** The escapes of the quoted strings, written out: which text stands for which byte and how much
    of it is used up (game_patch/my_string.h:67-193).
  */
module EscapeForms {
  import opened CText
  import opened QuotedText

  const LOWER_HEX: string := "0123456789abcdef"
  const UPPER_HEX: string := "0123456789ABCDEF"
  const OCTAL: string := "01234567"

  /** A hexadecimal digit in either case. */
  function HexChar(d: nat, upper: bool): char
    requires d < 16
  {
    if upper then UPPER_HEX[d] else LOWER_HEX[d]
  }

  predicate IsHexChar(c: char) {
    c in LOWER_HEX || c in UPPER_HEX
  }

  /** Nothing follows, or something that is no such digit. */
  predicate EndsHex(rest: string) {
    rest == [] || !IsHexChar(rest[0])
  }

  predicate EndsOctal(rest: string) {
    rest == [] || rest[0] !in OCTAL
  }

  lemma HexValue(d: nat, upper: bool)
    requires d < 16
    ensures HexDigit(HexChar(d, upper)) == d
  {
  }

  lemma OnlyHexValues(c: char)
    requires HexDigit(c) >= 0
    ensures IsHexChar(c)
  {
    if '0' <= c <= '9' {
      assert c == LOWER_HEX[c as int - '0' as int];
    } else if 'a' <= c <= 'f' {
      assert c == LOWER_HEX[c as int - 'a' as int + 10];
    } else {
      assert c == UPPER_HEX[c as int - 'A' as int + 10];
    }
  }

  lemma NoHexValue(c: char)
    requires !IsHexChar(c)
    ensures HexDigit(c) == -1
  {
    if HexDigit(c) >= 0 {
      OnlyHexValues(c);
    }
  }

  lemma OctalValue(d: nat)
    requires d < 8
    ensures OctalDigit(OCTAL[d]) == d && IsDigit(OCTAL[d])
  {
  }

  lemma OnlyOctalValues(c: char)
    requires OctalDigit(c) >= 0
    ensures c in OCTAL
  {
    assert c == OCTAL[c as int - '0' as int];
  }

  lemma NoOctalValue(c: char)
    requires c !in OCTAL
    ensures OctalDigit(c) == -1
  {
    if OctalDigit(c) >= 0 {
      OnlyOctalValues(c);
    }
  }

  /** What stands from `i` on, character by character. */
  lemma Ahead(s: string, i: nat, text: string, rest: string)
    requires i <= |s| && s[i..] == text + rest
    ensures forall k :: 0 <= k < |text| ==> i + k < |s| && s[i + k] == text[k]
    ensures i + |text| <= |s| && At(s, i + |text|) == At(rest, 0)
  {
    assert |s[i..]| == |text| + |rest|;
    forall k | 0 <= k < |text|
      ensures i + k < |s| && s[i + k] == text[k]
    {
      assert s[i..][k] == (text + rest)[k];
    }
    if rest != [] {
      assert s[i..][|text|] == rest[0];
    }
  }

  // ----- Hexadecimal -----

  lemma EndOfHex(s: string, i: nat, rest: string)
    requires i <= |s| && At(s, i) == At(rest, 0) && EndsHex(rest) && (rest == [] <==> i == |s|)
    ensures forall n: nat, value: nat :: HexRun(s, i, n, value) == (value, i)
  {
    if rest != [] {
      NoHexValue(rest[0]);
    }
  }

  /** `\x` and two digits, whatever follows: a third digit is text. */
  lemma HexTwo(s: string, i: nat, d: nat, upperD: bool, e: nat, upperE: bool, rest: string)
    requires d < 16 && e < 16 && i <= |s|
    requires s[i..] == [BACKSLASH, 'x', HexChar(d, upperD), HexChar(e, upperE)] + rest
    ensures UnescapeAt(s, i) == ((16 * d + e) as char, 4)
  {
    var text := [BACKSLASH, 'x', HexChar(d, upperD), HexChar(e, upperE)];
    Ahead(s, i, text, rest);
    assert s[i + 0] == text[0] && s[i + 1] == text[1] && s[i + 2] == text[2] && s[i + 3] == text[3];
    HexValue(d, upperD);
    HexValue(e, upperE);
    assert HexRun(s, i + 4, 0, 16 * d + e) == (16 * d + e, i + 4);
    assert HexRun(s, i + 3, 1, d) == (16 * d + e, i + 4);
    assert HexRun(s, i + 2, 2, 0) == (16 * d + e, i + 4);
  }

  /** `\x` and one digit. */
  lemma HexOne(s: string, i: nat, d: nat, upper: bool, rest: string)
    requires d < 16 && i <= |s| && s[i..] == [BACKSLASH, 'x', HexChar(d, upper)] + rest && EndsHex(rest)
    ensures UnescapeAt(s, i) == (d as char, 3)
  {
    var text := [BACKSLASH, 'x', HexChar(d, upper)];
    Ahead(s, i, text, rest);
    assert s[i + 0] == text[0] && s[i + 1] == text[1] && s[i + 2] == text[2];
    HexValue(d, upper);
    EndOfHex(s, i + 3, rest);
    assert HexRun(s, i + 3, 1, d) == (d, i + 3);
    assert HexRun(s, i + 2, 2, 0) == (d, i + 3);
  }

  /** `\x` alone is the letter. */
  lemma HexNone(s: string, i: nat, rest: string)
    requires i <= |s| && s[i..] == [BACKSLASH, 'x'] + rest && EndsHex(rest)
    ensures UnescapeAt(s, i) == ('x', 2)
  {
    var text := [BACKSLASH, 'x'];
    Ahead(s, i, text, rest);
    assert s[i + 0] == text[0] && s[i + 1] == text[1];
    EndOfHex(s, i + 2, rest);
    assert HexRun(s, i + 2, 2, 0) == (0, i + 2);
  }

  // ----- Octal -----

  lemma EndOfOctal(s: string, i: nat, rest: string)
    requires i <= |s| && At(s, i) == At(rest, 0) && EndsOctal(rest) && (rest == [] <==> i == |s|)
    ensures forall n: nat, value: nat :: OctalRun(s, i, n, value) == (value, i)
  {
    if rest != [] {
      NoOctalValue(rest[0]);
    }
  }

  /** Three octal digits, whatever follows; what exceeds a byte is cut off. */
  lemma OctalThree(s: string, i: nat, d: nat, e: nat, f: nat, rest: string)
    requires d < 8 && e < 8 && f < 8 && i <= |s|
    requires s[i..] == [BACKSLASH, OCTAL[d], OCTAL[e], OCTAL[f]] + rest
    ensures UnescapeAt(s, i) == (((64 * d + 8 * e + f) % 256) as char, 4)
  {
    var text := [BACKSLASH, OCTAL[d], OCTAL[e], OCTAL[f]];
    Ahead(s, i, text, rest);
    assert s[i + 0] == text[0] && s[i + 1] == text[1] && s[i + 2] == text[2] && s[i + 3] == text[3];
    OctalValue(d);
    OctalValue(e);
    OctalValue(f);
    assert OctalRun(s, i + 4, 0, 64 * d + 8 * e + f) == (64 * d + 8 * e + f, i + 4);
    assert OctalRun(s, i + 3, 1, 8 * d + e) == (64 * d + 8 * e + f, i + 4);
    assert OctalRun(s, i + 2, 2, d) == (64 * d + 8 * e + f, i + 4);
    assert OctalRun(s, i + 1, 3, 0) == (64 * d + 8 * e + f, i + 4);
  }

  lemma OctalTwo(s: string, i: nat, d: nat, e: nat, rest: string)
    requires d < 8 && e < 8 && i <= |s| && s[i..] == [BACKSLASH, OCTAL[d], OCTAL[e]] + rest && EndsOctal(rest)
    ensures UnescapeAt(s, i) == ((8 * d + e) as char, 3)
  {
    var text := [BACKSLASH, OCTAL[d], OCTAL[e]];
    Ahead(s, i, text, rest);
    assert s[i + 0] == text[0] && s[i + 1] == text[1] && s[i + 2] == text[2];
    OctalValue(d);
    OctalValue(e);
    EndOfOctal(s, i + 3, rest);
    assert OctalRun(s, i + 3, 1, 8 * d + e) == (8 * d + e, i + 3);
    assert OctalRun(s, i + 2, 2, d) == (8 * d + e, i + 3);
    assert OctalRun(s, i + 1, 3, 0) == (8 * d + e, i + 3);
  }

  /** One octal digit; `\0` is the terminator, before an 8 or a 9 too. */
  lemma OctalOne(s: string, i: nat, d: nat, rest: string)
    requires d < 8 && i <= |s| && s[i..] == [BACKSLASH, OCTAL[d]] + rest && EndsOctal(rest)
    ensures UnescapeAt(s, i) == (d as char, 2)
  {
    var text := [BACKSLASH, OCTAL[d]];
    Ahead(s, i, text, rest);
    assert s[i + 0] == text[0] && s[i + 1] == text[1];
    OctalValue(d);
    EndOfOctal(s, i + 2, rest);
    assert OctalRun(s, i + 2, 2, d) == (d, i + 2);
    assert OctalRun(s, i + 1, 3, 0) == (d, i + 2);
  }

  // ----- Letters and the rest -----

  /** The seven letters, with the codes of the control characters they stand for. */
  lemma LetterEscapes(s: string, i: nat, e: char, rest: string)
    requires i <= |s| && s[i..] == [BACKSLASH, e] + rest
    ensures e == 'a' ==> UnescapeAt(s, i) == (7 as char, 2)
    ensures e == 'b' ==> UnescapeAt(s, i) == (8 as char, 2)
    ensures e == 't' ==> UnescapeAt(s, i) == (9 as char, 2)
    ensures e == 'n' ==> UnescapeAt(s, i) == (10 as char, 2)
    ensures e == 'v' ==> UnescapeAt(s, i) == (11 as char, 2)
    ensures e == 'f' ==> UnescapeAt(s, i) == (12 as char, 2)
    ensures e == 'r' ==> UnescapeAt(s, i) == (13 as char, 2)
  {
    Ahead(s, i, [BACKSLASH, e], rest);
    assert s[i + 0] == [BACKSLASH, e][0] && s[i + 1] == [BACKSLASH, e][1];
  }

  /** Any other escaped character stands for itself, quotes and backslashes among them. */
  lemma OtherEscapes(s: string, i: nat, e: char, rest: string)
    requires i <= |s| && s[i..] == [BACKSLASH, e] + rest && e !in "abtnvfrx" && e !in OCTAL
    ensures UnescapeAt(s, i) == (e, 2)
  {
    Ahead(s, i, [BACKSLASH, e], rest);
    assert s[i + 0] == [BACKSLASH, e][0] && s[i + 1] == [BACKSLASH, e][1];
    NoOctalValue(e);
    assert e != OCTAL[0];
    assert forall k :: 0 <= k < 8 ==> e != "abtnvfrx"[k];
    NotALetter(e);
  }

  lemma NotALetter(e: char)
    requires e !in "abtnvfrx"
    ensures e !in LETTERS && e != 'x'
  {
    var letters := "abtnvfrx";
    assert letters[0] == 'a' && letters[1] == 'b' && letters[2] == 't' && letters[3] == 'n';
    assert letters[4] == 'v' && letters[5] == 'f' && letters[6] == 'r' && letters[7] == 'x';
  }

  /** A character that is not escaped stands for itself; a backslash with nothing behind it for the
      terminator. */
  lemma NoEscape(s: string, i: nat)
    requires i < |s|
    ensures s[i] != BACKSLASH ==> UnescapeAt(s, i) == (s[i], 1)
    ensures s[i] == BACKSLASH && i + 1 == |s| ==> UnescapeAt(s, i) == (NUL, 2)
  {
  }

  // ----- The whole string -----

  /** Without an opening quote, or without a closing one behind it, there is no string. */
  lemma NoString(s: string, prefix: string, open: string)
    requires QUOTE !in prefix && QUOTE !in open
    ensures ParseQuoted(prefix) == None && ParseQuoted(prefix + [QUOTE] + open) == None
  {
    IndexOfIs(prefix, QUOTE, 0, |prefix|);
    var t := prefix + [QUOTE] + open;
    assert t[|prefix|] == QUOTE;
    IndexOfIs(t, QUOTE, 0, |prefix|);
    forall k | |prefix| < k < |t|
      ensures t[k] != QUOTE
    {
      assert t[k] == open[k - |prefix| - 1];
    }
    NeverCloses(t, |prefix| + 1);
  }

  lemma {:induction false} NeverCloses(s: string, i: nat)
    requires i <= |s| && forall k :: i <= k < |s| ==> s[k] != QUOTE
    ensures ScanEnd(s, i) == |s|
    decreases |s| - i
  {
    if i < |s| {
      NeverCloses(s, if s[i] == BACKSLASH && i + 1 < |s| then i + 2 else i + 1);
    }
  }

  lemma {:induction false} ScanUnits(s: string, at: nat, body: string, k: nat)
    requires k <= |body| && Stands(s, at, body) && Units(body, k) && at + |body| < |s| && s[at + |body|] == QUOTE
    ensures ScanEnd(s, at + k) == at + |body|
    decreases |body| - k
  {
    if k < |body| {
      assert body[k] == s[at + k];
      ScanUnits(s, at, body, if body[k] == BACKSLASH then k + 2 else k + 1);
    }
  }

  lemma BodyStands(prefix: string, body: string, suffix: string) returns (s: string)
    requires QUOTE !in prefix
    ensures s == prefix + [QUOTE] + body + [QUOTE] + suffix && IndexOf(s, QUOTE, 0) == |prefix|
    ensures var i := |prefix| + 1;
            Stands(s, i, body) && i + |body| < |s| && s[i + |body|] == QUOTE && s[i..i + |body|] == body
  {
    s := prefix + [QUOTE] + body + [QUOTE] + suffix;
    var i := |prefix| + 1;
    assert s[|prefix|] == QUOTE;
    IndexOfIs(s, QUOTE, 0, |prefix|);
    assert s[i + |body|] == QUOTE;
    assert s[i..i + |body|] == body;
  }

  lemma ParsedBetween(s: string, open: nat, end: nat)
    requires IndexOf(s, QUOTE, 0) == open < end < |s| && ScanEnd(s, open + 1) == end
    ensures ParseQuoted(s) == Some(Cut(Unescape(s[open + 1..end])))
  {
  }

  /** A body made of whole escapes and other characters, none of them a bare quote, is unescaped and
      cut at the first terminator, wherever it stands. */
  lemma BodyParses(prefix: string, body: string, suffix: string)
    requires QUOTE !in prefix && Units(body, 0)
    ensures ParseQuoted(prefix + [QUOTE] + body + [QUOTE] + suffix) == Some(Cut(Unescape(body)))
  {
    var s := BodyStands(prefix, body, suffix);
    ScanUnits(s, |prefix| + 1, body, 0);
    ParsedBetween(s, |prefix|, |prefix| + 1 + |body|);
  }

  /** A byte written `\x` and two digits in quotes, anywhere in a line. */
  lemma QuotedByte(prefix: string, d: nat, upperD: bool, e: nat, upperE: bool, suffix: string)
    requires QUOTE !in prefix && d < 16 && e < 16 && 16 * d + e > 0
    ensures ParseQuoted(prefix + [QUOTE] + [BACKSLASH, 'x', HexChar(d, upperD), HexChar(e, upperE)] + [QUOTE] + suffix)
         == Some([(16 * d + e) as char])
  {
    var body := [BACKSLASH, 'x', HexChar(d, upperD), HexChar(e, upperE)];
    HexIsPlain(d, upperD);
    HexIsPlain(e, upperE);
    assert Units(body, 3);
    assert Units(body, 2);
    BodyParses(prefix, body, suffix);
    ByteBody(body, d, upperD, e, upperE);
  }

  lemma HexIsPlain(d: nat, upper: bool)
    requires d < 16
    ensures HexChar(d, upper) != QUOTE && HexChar(d, upper) != BACKSLASH
  {
    HexValue(d, upper);
  }

  lemma ByteBody(body: string, d: nat, upperD: bool, e: nat, upperE: bool)
    requires d < 16 && e < 16 && 16 * d + e > 0 && body == [BACKSLASH, 'x', HexChar(d, upperD), HexChar(e, upperE)]
    ensures Cut(Unescape(body)) == [(16 * d + e) as char]
  {
    assert body[0..] == body + [];
    HexTwo(body, 0, d, upperD, e, upperE, []);
    var byte := (16 * d + e) as char;
    UnescapeStep(body, 0, byte, 4);
    assert Unescape(body) == [byte];
    CutFacts([byte]);
  }
}
