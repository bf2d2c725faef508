/** C strings as sequences of characters, without their terminating NUL, and the library
    routines and limits the parsers share (game_patch/lv2_stdio.h:30-57,
    game_patch/my_string.h:9-47, shared/macros.h:15-28).
  */
module CText {
  const NUL: char := '\0'
  const MAX_LINE_LENGTH: nat := 1024
  const MAX_APP_VERS: nat := 16
  const MAX_TITLE_IDS: nat := 16

  datatype Option<+T> = None | Some(value: T)

  ghost predicate NulFree(s: string) {
    forall i :: 0 <= i < |s| ==> s[i] != NUL
  }

  /** The character at `i`, with the terminator past the end. */
  function At(s: string, i: nat): char {
    if i < |s| then s[i] else NUL
  }

  /** What a C string holds when the bytes `s` are written before a NUL. */
  function Cut(s: string): (r: string) {
    if s == [] || s[0] == NUL then [] else [s[0]] + Cut(s[1..])
  }

  lemma {:induction false} CutFacts(s: string)
    ensures NulFree(Cut(s)) && Cut(s) <= s
    ensures NulFree(s) ==> Cut(s) == s
  {
    if s != [] && s[0] != NUL {
      CutFacts(s[1..]);
    }
  }

  /** What a C string holds is what stands before its first terminator. */
  lemma {:induction false} CutAtTerminator(a: string, b: string)
    requires NulFree(a)
    ensures Cut(a + [NUL] + b) == a
  {
    var s := a + [NUL] + b;
    if a != [] {
      assert s[1..] == a[1..] + [NUL] + b;
      CutAtTerminator(a[1..], b);
    }
  }

  predicate IsSpace(c: char) {
    c == ' ' || c == '\n' || c == '\t' || c == '\r' || c == '\U{000C}' || c == '\U{000B}'
  }

  /** The space and the codes 9 to 13. */
  lemma SpaceCodes(c: char)
    ensures IsSpace(c) <==> c as int == 32 || 9 <= c as int <= 13
  {
  }

  predicate IsDigit(c: char) {
    '0' <= c <= '9'
  }

  /** The digit for `d`, in lower case. */
  function DigitChar(d: nat): (c: char)
    requires d < 36
    ensures d < 10 ==> IsDigit(c) && c as int - '0' as int == d
    ensures d >= 10 ==> 'a' <= c <= 'z' && c as int - 'a' as int + 10 == d
  {
    if d < 10 then ('0' as int + d) as char else ('a' as int + (d - 10)) as char
  }

  /** strchr: the first position of `c`, or the length. */
  function IndexOf(s: string, c: char, i: nat): (r: nat)
    requires i <= |s|
    ensures i <= r <= |s|
    ensures r < |s| ==> s[r] == c
    decreases |s| - i
  {
    if i == |s| || s[i] == c then i else IndexOf(s, c, i + 1)
  }

  lemma {:induction false} IndexOfIs(s: string, c: char, i: nat, r: nat)
    requires i <= r <= |s| && (r < |s| ==> s[r] == c)
    requires forall j :: i <= j < r ==> s[j] != c
    ensures IndexOf(s, c, i) == r
    decreases r - i
  {
    if i < r {
      IndexOfIs(s, c, i + 1, r);
    }
  }

  /** The first position from `i` on that does not hold white space. */
  function SkipSpace(s: string, i: nat): (r: nat)
    requires i <= |s|
    ensures i <= r <= |s|
    decreases |s| - i
  {
    if i < |s| && IsSpace(s[i]) then SkipSpace(s, i + 1) else i
  }

  predicate AllSpace(s: string) {
    forall i :: 0 <= i < |s| ==> IsSpace(s[i])
  }

  lemma {:induction false} SkipsAll(s: string, i: nat, j: nat)
    requires i <= j <= |s| && (forall k :: i <= k < j ==> IsSpace(s[k])) && !IsSpace(At(s, j))
    ensures SkipSpace(s, i) == j
    decreases j - i
  {
    if i < j {
      SkipsAll(s, i + 1, j);
    }
  }

  predicate OccursAt(s: string, needle: string, i: nat) {
    i + |needle| <= |s| && s[i..i + |needle|] == needle
  }

  /** The first occurrence from `i` on, or the length. */
  function Find(s: string, needle: string, i: nat): (r: nat)
    decreases |s| - i
  {
    if i >= |s| then |s| else if OccursAt(s, needle, i) then i else Find(s, needle, i + 1)
  }

  predicate Contains(s: string, needle: string) {
    Find(s, needle, 0) < |s|
  }

  lemma {:induction false} FindIsFirst(s: string, needle: string, i: nat)
    requires i <= |s|
    ensures i <= Find(s, needle, i) <= |s|
    ensures Find(s, needle, i) < |s| ==> OccursAt(s, needle, Find(s, needle, i))
    ensures forall k :: i <= k < Find(s, needle, i) ==> !OccursAt(s, needle, k)
    decreases |s| - i
  {
    if i < |s| && !OccursAt(s, needle, i) {
      FindIsFirst(s, needle, i + 1);
    }
  }

  ghost predicate Occurs(s: string, needle: string) {
    exists i: nat :: OccursAt(s, needle, i)
  }

  /** A text that is not empty is found if and only if it occurs. */
  lemma ContainsExactly(s: string, needle: string)
    requires needle != []
    ensures Contains(s, needle) <==> Occurs(s, needle)
  {
    FindIsFirst(s, needle, 0);
    if Occurs(s, needle) {
      var i: nat :| OccursAt(s, needle, i);
      assert i < Find(s, needle, 0) || Find(s, needle, 0) < |s|;
    }
  }

  lemma Mismatch(s: string, needle: string, i: nat, j: nat)
    requires j < |needle| && (i + j >= |s| || s[i + j] != needle[j])
    ensures !OccursAt(s, needle, i)
  {
    if i + |needle| <= |s| {
      assert s[i..i + |needle|][j] == s[i + j];
    }
  }

  /** strstr: the first occurrence, or nothing; an empty haystack contains nothing. */
  method Strstr(haystack: string, needle: string) returns (r: Option<nat>)
    requires NulFree(haystack) && NulFree(needle)
    ensures r == if Contains(haystack, needle) then Some(Find(haystack, needle, 0)) else None
  {
    var i: nat := 0;
    while At(haystack, i) != NUL
      invariant i <= |haystack| && Find(haystack, needle, 0) == Find(haystack, needle, i)
      decreases |haystack| - i
    {
      var j: nat := 0;
      while At(needle, j) != NUL && At(haystack, i + j) == At(needle, j)
        invariant j <= |needle| && i + j <= |haystack|
        invariant haystack[i..i + j] == needle[..j]
        decreases |needle| - j
      {
        assert haystack[i..i + j + 1] == haystack[i..i + j] + [haystack[i + j]];
        assert needle[..j + 1] == needle[..j] + [needle[j]];
        j := j + 1;
      }
      if At(needle, j) == NUL {
        assert j == |needle| && needle[..j] == needle;
        assert OccursAt(haystack, needle, i);
        return Some(i);
      }
      Mismatch(haystack, needle, i, j);
      i := i + 1;
    }
    r := None;
  }

  /** `t` stands in `s` at `i`. */
  ghost predicate Stands(s: string, i: nat, t: string) {
    i + |t| <= |s| && forall k :: 0 <= k < |t| ==> t[k] == s[i + k]
  }

  lemma StandsSplit(s: string, i: nat, a: string, b: string)
    requires Stands(s, i, a + b)
    ensures Stands(s, i, a) && Stands(s, i + |a|, b)
  {
    assert |a + b| == |a| + |b|;
    forall k | 0 <= k < |a|
      ensures a[k] == s[i + k]
    {
      assert (a + b)[k] == s[i + k];
    }
    forall k | 0 <= k < |b|
      ensures b[k] == s[i + |a| + k]
    {
      assert (a + b)[|a| + k] == s[i + (|a| + k)];
    }
  }

  // ----- Lines -----

  predicate IsCommentOrEmpty(line: string) {
    var i := SkipSpace(line, 0);
    i == |line| || line[i] == '#'
  }

  function IndentLevel(line: string, i: nat): (n: nat)
    decreases |line| - i
  {
    if i < |line| && line[i] == ' ' then IndentLevel(line, i + 1) else i
  }

  /** A value that starts with a bracket, after the first colon. */
  predicate IsListValue(s: string) {
    var colon := IndexOf(s, ':', 0);
    colon < |s| && At(s, SkipSpace(s, colon + 1)) == '['
  }

  predicate StartsWith(s: string, prefix: string) {
    |prefix| <= |s| && s[..|prefix|] == prefix
  }
}
