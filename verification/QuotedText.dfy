/** The quoted-string parser: scanning to the closing quote and undoing escapes
    (game_patch/my_string.h:67-266), with the printer it inverts.
  */
module QuotedText {
  import opened CText

  const QUOTE: char := '\"'
  const BACKSLASH: char := '\\'

  // ----- One escape -----

  function HexDigit(c: char): (d: int)
    ensures -1 <= d < 16
  {
    if '0' <= c <= '9' then c as int - '0' as int
    else if 'a' <= c <= 'f' then c as int - 'a' as int + 10
    else if 'A' <= c <= 'F' then c as int - 'A' as int + 10
    else -1
  }

  function OctalDigit(c: char): (d: int)
    ensures -1 <= d < 8
  {
    if '0' <= c <= '7' then c as int - '0' as int else -1
  }

  function ByteChar(value: nat): char {
    (value % 256) as char
  }

  /** At most `n` octal digits from `i` on, added to `value`: the value and the position after. */
  function OctalRun(s: string, i: nat, n: nat, value: nat): (r: (nat, nat))
    ensures i <= r.1 <= i + n && (r.1 > i ==> r.1 <= |s|)
    ensures forall j :: i <= j < r.1 ==> j < |s| && OctalDigit(s[j]) >= 0
    ensures n > 0 && i < |s| && OctalDigit(s[i]) >= 0 ==> r.1 > i
    decreases n
  {
    if n == 0 || i >= |s| || OctalDigit(s[i]) < 0 then (value, i)
    else OctalRun(s, i + 1, n - 1, value * 8 + OctalDigit(s[i]))
  }

  function HexRun(s: string, i: nat, n: nat, value: nat): (r: (nat, nat))
    ensures i <= r.1 <= i + n && (r.1 > i ==> r.1 <= |s|)
    ensures forall j :: i <= j < r.1 ==> j < |s| && HexDigit(s[j]) >= 0
    decreases n
  {
    if n == 0 || i >= |s| || HexDigit(s[i]) < 0 then (value, i)
    else HexRun(s, i + 1, n - 1, value * 16 + HexDigit(s[i]))
  }

  /** The escapes of one letter. */
  const LETTERS: map<char, char> :=
    map['n' := '\n', 't' := '\t', 'r' := '\r', 'b' := '\U{0008}',
        'f' := '\U{000C}', 'v' := '\U{000B}', 'a' := '\U{0007}']

  /** The character that the source at `i` stands for, and how much of the source that takes. */
  function UnescapeAt(s: string, i: nat): (r: (char, nat))
    requires i < |s|
    ensures 1 <= r.1 <= 4
  {
    if s[i] != BACKSLASH then (s[i], 1) else UnescapeCode(s, i, At(s, i + 1))
  }

  /** A backslash at `i`, followed by `e`. */
  function UnescapeCode(s: string, i: nat, e: char): (r: (char, nat))
    requires e == At(s, i + 1)
    ensures 2 <= r.1 <= 4
  {
    if e in LETTERS then (LETTERS[e], 2)
    else if e == '0' && !IsDigit(At(s, i + 2)) then (NUL, 2)
    else if OctalDigit(e) >= 0 then
      var (value, end) := OctalRun(s, i + 1, 3, 0);
      (ByteChar(value), end - i)
    else if e == 'x' then
      var (value, end) := HexRun(s, i + 2, 2, 0);
      if end == i + 2 then ('x', 2) else (ByteChar(value), end - i)
    else (e, 2)
  }

  /** The octal loop: at most three digits from position `i` on. */
  method ReadOctal(s: string, i: nat) returns (value: nat, end: nat)
    requires NulFree(s)
    ensures (value, end) == OctalRun(s, i, 3, 0)
  {
    value, end := 0, i;
    for n := 0 to 3
      invariant OctalRun(s, i, 3, 0) == OctalRun(s, end, 3 - n, value)
    {
      if At(s, end) == NUL {
        return;
      }
      var digit := OctalDigit(At(s, end));
      if digit < 0 {
        return;
      }
      value := value * 8 + digit;
      end := end + 1;
    }
  }

  /** The hexadecimal loop: at most two digits from position `i` on. */
  method ReadHex(s: string, i: nat) returns (value: nat, end: nat)
    requires NulFree(s)
    ensures (value, end) == HexRun(s, i, 2, 0)
  {
    value, end := 0, i;
    for n := 0 to 2
      invariant HexRun(s, i, 2, 0) == HexRun(s, end, 2 - n, value)
    {
      if At(s, end) == NUL {
        return;
      }
      var digit := HexDigit(At(s, end));
      if digit < 0 {
        return;
      }
      value := value * 16 + digit;
      end := end + 1;
    }
  }

  method UnescapeChar(s: string, i: nat) returns (c: char, consumed: nat)
    requires NulFree(s) && i < |s|
    ensures (c, consumed) == UnescapeAt(s, i)
  {
    if s[i] != BACKSLASH {
      return s[i], 1;
    }
    var e := At(s, i + 1);
    match e {
      case 'n' => return '\n', 2;
      case 't' => return '\t', 2;
      case 'r' => return '\r', 2;
      case 'b' => return '\U{0008}', 2;
      case 'f' => return '\U{000C}', 2;
      case 'v' => return '\U{000B}', 2;
      case 'a' => return '\U{0007}', 2;
      case _ =>
    }
    if e == '0' && (At(s, i + 2) == NUL || !IsDigit(At(s, i + 2))) {
      return NUL, 2;
    }
    if '0' <= e <= '7' {
      var value, end := ReadOctal(s, i + 1);
      return ByteChar(value), end - i;
    }
    if e == 'x' {
      var value, end := ReadHex(s, i + 2);
      if end == i + 2 {
        return 'x', 2;
      }
      return ByteChar(value), end - i;
    }
    return e, 2;
  }

  // ----- A whole string -----

  /** The bytes written from source position `i` on. */
  function UnescapeFrom(s: string, i: nat): (r: string)
    ensures i <= |s| ==> |r| <= |s| - i
    decreases |s| - i
  {
    if i >= |s| then [] else [UnescapeAt(s, i).0] + UnescapeFrom(s, i + UnescapeAt(s, i).1)
  }

  lemma UnescapeStep(s: string, i: nat, c: char, n: nat)
    requires i < |s| && UnescapeAt(s, i) == (c, n)
    ensures UnescapeFrom(s, i) == [c] + UnescapeFrom(s, i + n)
  {
  }

  function Unescape(s: string): string {
    UnescapeFrom(s, 0)
  }

  /** Where the source position stops. */
  function UnescapeEnd(s: string, i: nat): (r: nat)
    ensures r >= |s|
    decreases |s| - i
  {
    if i >= |s| then i else UnescapeEnd(s, i + UnescapeAt(s, i).1)
  }

  /** Fills a fresh buffer, one byte longer than the source, and terminates it. */
  method UnescapeString(s: string) returns (result: array<char>, length: nat)
    requires NulFree(s)
    ensures fresh(result) && result.Length == |s| + 1
    ensures length <= |s| && result[..length] == Unescape(s) && result[length] == NUL
  {
    result := new char[|s| + 1];
    var srcPos: nat := 0;
    length := 0;
    ghost var whole := Unescape(s);
    ghost var rest := whole;
    while srcPos < |s|
      invariant length <= |s| && (srcPos <= |s| ==> length <= srcPos)
      invariant rest == UnescapeFrom(s, srcPos) && result[..length] + rest == whole
      decreases |s| - srcPos
    {
      ghost var before, pos := result[..length], srcPos;
      var c, consumed := UnescapeChar(s, srcPos);
      result[length] := c;
      srcPos := srcPos + consumed;
      length := length + 1;
      ghost var rest' := UnescapeFrom(s, srcPos);
      UnescapeStep(s, pos, c, consumed);
      Advance(c, before, rest, rest', whole);
      assert result[..length] == before + [c];
      rest := rest';
    }
    result[length] := NUL;
  }

  lemma Advance(c: char, before: string, rest: string, rest': string, whole: string)
    requires rest == [c] + rest' && before + rest == whole
    ensures (before + [c]) + rest' == whole
  {
    assert before + ([c] + rest') == (before + [c]) + rest';
  }

  // ----- The closing quote -----

  /** The scan for the closing quote, from `i` on: its position, or the length. */
  function ScanEnd(s: string, i: nat): (r: nat)
    requires i <= |s|
    ensures i <= r <= |s| && (r < |s| ==> s[r] == QUOTE)
    decreases |s| - i
  {
    if i == |s| then i
    else if s[i] == BACKSLASH && i + 1 < |s| then ScanEnd(s, i + 2)
    else if s[i] == QUOTE then i
    else ScanEnd(s, i + 1)
  }

  function ParseQuoted(s: string): Option<string> {
    var open := IndexOf(s, QUOTE, 0);
    if open == |s| then None
    else
      var end := ScanEnd(s, open + 1);
      if end == |s| then None else Some(Cut(Unescape(s[open + 1..end])))
  }

  method ParseQuotedString(s: string) returns (result: Option<string>)
    requires NulFree(s)
    ensures result == ParseQuoted(s)
  {
    var start: nat := 0;
    while start < |s| && s[start] != QUOTE
      invariant start <= |s| && IndexOf(s, QUOTE, 0) == IndexOf(s, QUOTE, start)
    {
      start := start + 1;
    }
    if start == |s| {
      return None;
    }
    start := start + 1;
    var end := start;
    while At(s, end) != NUL
      invariant start <= end <= |s| && ScanEnd(s, start) == ScanEnd(s, end)
      decreases |s| - end
    {
      if s[end] == BACKSLASH && At(s, end + 1) != NUL {
        end := end + 2;
        continue;
      }
      if s[end] == QUOTE {
        break;
      }
      end := end + 1;
    }
    if At(s, end) != QUOTE {
      return None;
    }
    var buffer, length := UnescapeString(s[start..end]);
    return Some(Cut(buffer[..length]));
  }

  // ----- Alignment -----

  /** `s` from `i` on is made of whole units: an escaped pair, or one character that is neither
      a quote nor a backslash. */
  predicate Units(s: string, i: nat)
    decreases |s| - i
  {
    i == |s| ||
    (i < |s| &&
     if s[i] == BACKSLASH then i + 1 < |s| && Units(s, i + 2)
     else s[i] != QUOTE && Units(s, i + 1))
  }

  lemma {:induction false} ScannedIsUnits(s: string, start: nat, i: nat)
    requires start <= i <= |s| && i <= ScanEnd(s, start) < |s| && ScanEnd(s, i) == ScanEnd(s, start)
    ensures Units(s[start..ScanEnd(s, start)], i - start)
    decreases |s| - i
  {
    var end := ScanEnd(s, start);
    if i < end {
      var next := if s[i] == BACKSLASH then i + 2 else i + 1;
      assert s[i] == BACKSLASH ==> i + 1 < |s|;
      assert ScanEnd(s, next) == end;
      ScannedIsUnits(s, start, next);
    }
  }

  /** Digits after an escape are units of their own, so skipping them keeps the alignment. */
  lemma {:induction false} SkipDigits(s: string, i: nat, j: nat)
    requires Units(s, i) && i <= j <= |s|
    requires forall k :: i <= k < j ==> OctalDigit(s[k]) >= 0 || HexDigit(s[k]) >= 0
    ensures Units(s, j)
    decreases j - i
  {
    if i < j {
      assert OctalDigit(s[i]) >= 0 || HexDigit(s[i]) >= 0;
      SkipDigits(s, i + 1, j);
    }
  }

  lemma UnescapeKeepsUnits(s: string, i: nat)
    requires Units(s, i) && i < |s|
    ensures Units(s, i + UnescapeAt(s, i).1)
  {
    if s[i] == BACKSLASH {
      SkipDigits(s, i + 2, if UnescapeAt(s, i).1 <= 2 then i + 2 else i + UnescapeAt(s, i).1);
    }
  }

  lemma {:induction false} UnitsEndExactly(s: string, i: nat)
    requires Units(s, i)
    ensures UnescapeEnd(s, i) == |s| && |UnescapeFrom(s, i)| <= |s| - i
    decreases |s| - i
  {
    if i < |s| {
      UnescapeKeepsUnits(s, i);
      UnitsEndExactly(s, i + UnescapeAt(s, i).1);
    }
  }

  /** On every accepted input the unescaper stops exactly at the end of the content: no escape
      reaches over the closing quote. */
  lemma AcceptedStopsAtContent(s: string)
    requires ParseQuoted(s).Some?
    ensures var open := IndexOf(s, QUOTE, 0);
            var content := s[open + 1..ScanEnd(s, open + 1)];
            UnescapeEnd(content, 0) == |content| && |Unescape(content)| <= |content|
  {
    var open := IndexOf(s, QUOTE, 0);
    ScannedIsUnits(s, open + 1, open + 1);
    UnitsEndExactly(s[open + 1..ScanEnd(s, open + 1)], 0);
  }

  // ----- The printer and the round trip -----

  function EscapeChar(c: char): (r: string)
    ensures |r| == 1 || |r| == 2
  {
    if c == QUOTE then "\\\""
    else if c == BACKSLASH then "\\\\"
    else if c == '\n' then "\\n"
    else if c == '\r' then "\\r"
    else if c == '\t' then "\\t"
    else [c]
  }

  /** The escaped form of `s` from position `k` on. */
  function EscapeFrom(s: string, k: nat): string
    decreases |s| - k
  {
    if k >= |s| then [] else EscapeChar(s[k]) + EscapeFrom(s, k + 1)
  }

  function Escape(s: string): string {
    EscapeFrom(s, 0)
  }

  function Quoted(s: string): string {
    [QUOTE] + Escape(s) + [QUOTE]
  }

  lemma UnescapeEscapedChar(s: string, i: nat, c: char)
    requires Stands(s, i, EscapeChar(c))
    ensures i < |s| && UnescapeAt(s, i) == (c, |EscapeChar(c)|)
  {
    assert EscapeChar(c)[0] == s[i + 0];
    if |EscapeChar(c)| == 2 {
      assert EscapeChar(c)[1] == s[i + 1];
    }
  }

  /** The first unit of an escaped text, and the rest of it. */
  lemma EscapedHead(s: string, i: nat, t: string, k: nat)
    requires k < |t| && Stands(s, i, EscapeFrom(t, k))
    ensures Stands(s, i, EscapeChar(t[k])) && Stands(s, i + |EscapeChar(t[k])|, EscapeFrom(t, k + 1))
    ensures |EscapeFrom(t, k)| == |EscapeChar(t[k])| + |EscapeFrom(t, k + 1)|
  {
    StandsSplit(s, i, EscapeChar(t[k]), EscapeFrom(t, k + 1));
  }

  ghost predicate SameFrom(u: string, t: string, k: nat)
    requires k <= |t|
  {
    |u| == |t| - k && forall m :: 0 <= m < |u| ==> u[m] == t[k + m]
  }

  lemma SameFromCons(u: string, t: string, k: nat)
    requires k < |t| && SameFrom(u, t, k + 1)
    ensures SameFrom([t[k]] + u, t, k)
  {
  }

  lemma UnescapeOne(s: string, i: nat, t: string, k: nat, u: string, u': string)
    requires k < |t| && Stands(s, i, EscapeChar(t[k])) && u == UnescapeFrom(s, i)
    requires u' == UnescapeFrom(s, i + |EscapeChar(t[k])|) && SameFrom(u', t, k + 1)
    ensures SameFrom(u, t, k)
  {
    UnescapeEscapedChar(s, i, t[k]);
    UnescapeStep(s, i, t[k], |EscapeChar(t[k])|);
    SameFromCons(u', t, k);
  }

  lemma {:induction false} UnescapeEscaped(s: string, i: nat, t: string, k: nat, u: string)
    requires k <= |t| && Stands(s, i, EscapeFrom(t, k)) && i + |EscapeFrom(t, k)| == |s| && u == UnescapeFrom(s, i)
    ensures SameFrom(u, t, k)
    decreases |t| - k
  {
    if k < |t| {
      var u' := UnescapeFrom(s, i + |EscapeChar(t[k])|);
      EscapedHead(s, i, t, k);
      UnescapeEscaped(s, i + |EscapeChar(t[k])|, t, k + 1, u');
      UnescapeOne(s, i, t, k, u, u');
    }
  }

  lemma ScanPastUnit(s: string, i: nat, c: char)
    requires Stands(s, i, EscapeChar(c))
    ensures ScanEnd(s, i) == ScanEnd(s, i + |EscapeChar(c)|)
  {
    assert EscapeChar(c)[0] == s[i + 0];
  }

  lemma {:induction false} ScanEscaped(s: string, i: nat, t: string, k: nat)
    requires k <= |t| && Stands(s, i, EscapeFrom(t, k))
    requires i + |EscapeFrom(t, k)| < |s| && s[i + |EscapeFrom(t, k)|] == QUOTE
    ensures ScanEnd(s, i) == i + |EscapeFrom(t, k)|
    decreases |t| - k
  {
    if k < |t| {
      EscapedHead(s, i, t, k);
      ScanPastUnit(s, i, t[k]);
      ScanEscaped(s, i + |EscapeChar(t[k])|, t, k + 1);
    }
  }

  /** Printing then parsing gives the string back, whatever surrounds the quotes, as long as no
      quote comes before them. */
  lemma QuotedRoundTrip(prefix: string, t: string, suffix: string)
    requires NulFree(t) && QUOTE !in prefix
    ensures ParseQuoted(prefix + Quoted(t) + suffix) == Some(t)
  {
    var s := prefix + Quoted(t) + suffix;
    var i := |prefix| + 1;
    assert s[|prefix|] == QUOTE;
    IndexOfIs(s, QUOTE, 0, |prefix|);
    assert Stands(s, i, Escape(t));
    assert s[i + |Escape(t)|] == QUOTE;
    ScanEscaped(s, i, t, 0);
    assert s[i..i + |Escape(t)|] == Escape(t);
    UnescapePrinted(t);
    CutFacts(t);
  }

  lemma UnescapePrinted(t: string)
    ensures Unescape(Escape(t)) == t
  {
    UnescapeEscaped(Escape(t), 0, t, 0, Unescape(Escape(t)));
  }

  // ----- Numeric escapes -----

  /** A byte printed as three octal digits decodes to itself, whatever follows. */
  lemma OctalFormDecodes(b: nat, rest: string)
    requires b < 256
    ensures UnescapeAt([BACKSLASH, DigitChar(b / 64), DigitChar(b / 8 % 8), DigitChar(b % 8)] + rest, 0)
         == (b as char, 4)
  {
    var s := [BACKSLASH, DigitChar(b / 64), DigitChar(b / 8 % 8), DigitChar(b % 8)] + rest;
    var d1, d2, d3 := b / 64, b / 8 % 8, b % 8;
    assert s[1] == DigitChar(d1) && s[2] == DigitChar(d2) && s[3] == DigitChar(d3);
    assert OctalRun(s, 4, 0, d1 * 64 + d2 * 8 + d3) == (b, 4);
    assert OctalRun(s, 3, 1, d1 * 8 + d2) == (b, 4);
    assert OctalRun(s, 2, 2, d1) == (b, 4);
    assert OctalRun(s, 1, 3, 0) == (b, 4);
  }

  /** A byte printed as \x and two hexadecimal digits decodes to itself: a third digit is text. */
  lemma HexFormDecodes(b: nat, rest: string)
    requires b < 256
    ensures UnescapeAt([BACKSLASH, 'x', DigitChar(b / 16), DigitChar(b % 16)] + rest, 0) == (b as char, 4)
  {
    var s := [BACKSLASH, 'x', DigitChar(b / 16), DigitChar(b % 16)] + rest;
    assert s[1] == 'x' && s[2] == DigitChar(b / 16) && s[3] == DigitChar(b % 16);
    assert HexRun(s, 4, 0, b) == (b, 4);
    assert HexRun(s, 3, 1, b / 16) == (b, 4);
    assert HexRun(s, 2, 2, 0) == (b, 4);
  }
}
