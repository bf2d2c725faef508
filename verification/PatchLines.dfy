/** What one line of a patch file asks for (game_patch/patch.c:330-487,
    game_patch/my_string.h:29-47).
  */
module PatchLines {
  import opened CText
  import opened QuotedText
  import opened StringList

  const MIN_PATCH_PARAMS: nat := 3

  datatype Name = Title | PatchName | Notes | Author | PatchVersion | AppBin

  datatype Line =
    | Ignored
    | TitleIds(ids: Option<seq<string>>)
    | Block
    | Field(name: Name, value: Option<string>)
    | VersionList(versions: seq<string>)
    | Version(version: Option<string>)
    | Patches
    | Item(params: seq<string>)

  // ----- Trimming -----

  /** One past the last character at or after `i` that is not white space, or `i`. */
  function TrimEnd(s: string, i: nat, end: nat): (r: nat)
    requires i <= end <= |s|
    ensures i <= r <= end && (i < r ==> !IsSpace(s[r - 1]))
    ensures forall k :: r <= k < end ==> IsSpace(s[k])
    decreases end
  {
    if end > i && IsSpace(s[end - 1]) then TrimEnd(s, i, end - 1) else end
  }

  function Trimmed(s: string): string {
    var start := SkipSpace(s, 0);
    s[start..TrimEnd(s, start, |s|)]
  }

  lemma TrimmedNulFree(s: string)
    requires NulFree(s)
    ensures NulFree(Trimmed(s))
  {
    var start := SkipSpace(s, 0);
    forall i | 0 <= i < |Trimmed(s)|
      ensures Trimmed(s)[i] != NUL
    {
      assert Trimmed(s)[i] == s[start + i];
    }
  }

  method Trim(s: string) returns (r: string)
    requires NulFree(s)
    ensures r == Trimmed(s) && NulFree(r)
  {
    TrimmedNulFree(s);
    var start: nat := 0;
    while IsSpace(At(s, start))
      invariant start <= |s| && SkipSpace(s, 0) == SkipSpace(s, start)
      decreases |s| - start
    {
      start := start + 1;
    }
    if At(s, start) == NUL {
      return s[start..];
    }
    var end: nat := |s| - 1;
    while end > start && IsSpace(s[end])
      invariant start <= end < |s| && TrimEnd(s, start, |s|) == TrimEnd(s, start, end + 1)
      decreases end
    {
      end := end - 1;
    }
    r := s[start..end + 1];
  }

  // ----- Classification -----

  /** The keys of the fields, in the order in which they are looked for; a line may hold several,
      and the first of this list that occurs anywhere in it decides. */
  function FieldOf(content: string): Option<Name> {
    if Contains(content, "title:") then Some(Title)
    else if Contains(content, "name:") then Some(PatchName)
    else if Contains(content, "notes:") then Some(Notes)
    else if Contains(content, "author:") then Some(Author)
    else if Contains(content, "version:") then Some(PatchVersion)
    else if Contains(content, "app_bin:") then Some(AppBin)
    else None
  }

  /** A line inside a block. */
  function ClassifyInner(content: string): Line {
    var field := FieldOf(content);
    if field.Some? then Field(field.value, ParseQuoted(content))
    else if Contains(content, "app_ver:") then
      if IsListValue(content) then VersionList(ParseList(content, MAX_APP_VERS)) else Version(ParseQuoted(content))
    else if Contains(content, "patches:") then Patches
    else if StartsWith(content, "- [") then Item(ParseList(content[2..], MAX_PATCH_PARAMS))
    else Ignored
  }

  function Classify(line: string): Line {
    var content := Trimmed(line);
    if IsCommentOrEmpty(line) then Ignored
    else if IndentLevel(line, 0) == 0 && Contains(content, "titleid:") then
      TitleIds(if IsListValue(content) then Some(ParseList(content, MAX_TITLE_IDS)) else None)
    else if IndentLevel(line, 0) == 0 && Contains(content, "patch:") then Block
    else ClassifyInner(content)
  }

  // ----- Which key decides -----

  const KEYS: seq<string> := ["title:", "name:", "notes:", "author:", "version:", "app_bin:"]
  const NAMES: seq<Name> := [Title, PatchName, Notes, Author, PatchVersion, AppBin]

  lemma FieldIs(content: string, i: nat)
    requires i < |KEYS| && Contains(content, KEYS[i])
    requires forall j :: 0 <= j < i ==> !Contains(content, KEYS[j])
    ensures FieldOf(content) == Some(NAMES[i])
  {
    assert i > 0 ==> !Contains(content, KEYS[0]);
    assert i > 1 ==> !Contains(content, KEYS[1]);
    assert i > 2 ==> !Contains(content, KEYS[2]);
    assert i > 3 ==> !Contains(content, KEYS[3]);
    assert i > 4 ==> !Contains(content, KEYS[4]);
  }

  lemma NoField(content: string)
    requires forall j :: 0 <= j < |KEYS| ==> !Contains(content, KEYS[j])
    ensures FieldOf(content) == None
  {
    assert !Contains(content, KEYS[0]) && !Contains(content, KEYS[1]) && !Contains(content, KEYS[2]);
    assert !Contains(content, KEYS[3]) && !Contains(content, KEYS[4]) && !Contains(content, KEYS[5]);
  }

  /** The first key of the list that occurs in the line, or the length. */
  function FirstKey(content: string, i: nat): (k: nat)
    requires i <= |KEYS|
    ensures i <= k <= |KEYS| && (k < |KEYS| ==> Contains(content, KEYS[k]))
    decreases |KEYS| - i
  {
    if i == |KEYS| || Contains(content, KEYS[i]) then i else FirstKey(content, i + 1)
  }

  lemma {:induction false} FirstKeyIsFirst(content: string, i: nat)
    requires i <= |KEYS|
    ensures forall j :: i <= j < FirstKey(content, i) ==> !Contains(content, KEYS[j])
    decreases |KEYS| - i
  {
    if i < |KEYS| && !Contains(content, KEYS[i]) {
      FirstKeyIsFirst(content, i + 1);
    }
  }

  /** Some key that is looked for before key `i` occurs in the line. */
  predicate EarlierKey(content: string, i: nat)
    requires i < |KEYS|
  {
    exists j :: 0 <= j < i && Contains(content, KEYS[j])
  }

  lemma NamesDiffer(i: nat, j: nat)
    requires i < |NAMES| && j < |NAMES| && NAMES[i] == NAMES[j]
    ensures i == j
  {
  }

  /** A key that occurs in a line decides if and only if none that is looked for before it does. */
  lemma FieldExactly(content: string, i: nat)
    requires i < |KEYS| && Contains(content, KEYS[i])
    ensures FieldOf(content).Some?
    ensures FieldOf(content) == Some(NAMES[i]) <==> !EarlierKey(content, i)
  {
    var k := FirstKey(content, 0);
    FirstKeyIsFirst(content, 0);
    assert k <= i;
    FieldIs(content, k);
    if FieldOf(content) == Some(NAMES[i]) {
      NamesDiffer(i, k);
    }
  }

  /** The text of a field. */
  function FieldText(i: nat, gap: string, value: string): string
    requires i < |KEYS|
  {
    KEYS[i] + gap + Quoted(value)
  }

  lemma BareKey(i: nat)
    requires i < |KEYS|
    ensures QUOTE !in KEYS[i]
  {
  }

  lemma TextFacts(i: nat, gap: string, value: string)
    requires i < |KEYS| && NulFree(value) && QUOTE !in gap
    ensures var content := FieldText(i, gap, value);
            && content != [] && !IsSpace(content[0]) && content[0] != '#' && !IsSpace(content[|content| - 1])
            && OccursAt(content, KEYS[i], 0) && ParseQuoted(content) == Some(value)
  {
    var content := FieldText(i, gap, value);
    assert content == KEYS[i] + (gap + Quoted(value));
    assert content[0] == KEYS[i][0];
    assert content[|content| - 1] == QUOTE;
    BareKey(i);
    QuotedRoundTrip(KEYS[i] + gap, value, []);
    assert KEYS[i] + gap + Quoted(value) + [] == content;
  }

  lemma {:induction false} TrimsEnd(s: string, i: nat, r: nat, end: nat)
    requires i < r <= end <= |s| && !IsSpace(s[r - 1]) && forall k :: r <= k < end ==> IsSpace(s[k])
    ensures TrimEnd(s, i, end) == r
    decreases end
  {
    if r < end {
      TrimsEnd(s, i, r, end - 1);
    }
  }

  /** White space around a text that has none at its ends is trimmed. */
  lemma TrimmedText(before: string, content: string, after: string)
    requires AllSpace(before) && AllSpace(after)
    requires content != [] && !IsSpace(content[0]) && !IsSpace(content[|content| - 1])
    ensures var line := before + content + after;
            SkipSpace(line, 0) == |before| && line[|before|] == content[0] && Trimmed(line) == content
  {
    var line := before + content + after;
    var n := |before|;
    assert line[n] == content[0];
    SkipsAll(line, 0, n);
    assert line[n + |content| - 1] == content[|content| - 1];
    forall k | n + |content| <= k < |line|
      ensures IsSpace(line[k])
    {
      assert line[k] == after[k - (n + |content|)];
    }
    TrimsEnd(line, n, n + |content|, |line|);
    assert line[n..n + |content|] == content;
  }

  /** The line starts a file-wide entry or a block, whatever its own key is. */
  predicate TopLevel(line: string, content: string) {
    IndentLevel(line, 0) == 0 && (Contains(content, "titleid:") || Contains(content, "patch:"))
  }

  /** A printed field line gives that field with that value if and only if no key that is looked
      for earlier occurs anywhere in it, the value included. */
  lemma FieldLineExactly(before: string, i: nat, gap: string, value: string, after: string)
    requires AllSpace(before) && AllSpace(after) && i < |KEYS| && QUOTE !in gap && NulFree(value)
    ensures var content := FieldText(i, gap, value);
            var line := before + content + after;
            Classify(line) == Field(NAMES[i], Some(value)) <==> !TopLevel(line, content) && !EarlierKey(content, i)
  {
    var content := FieldText(i, gap, value);
    TextFacts(i, gap, value);
    TrimmedText(before, content, after);
    FoundAtStart(content, KEYS[i]);
    FieldExactly(content, i);
  }

  lemma FoundAtStart(s: string, needle: string)
    requires s != [] && OccursAt(s, needle, 0)
    ensures Contains(s, needle)
  {
  }

  lemma {:induction false} EscapeAppend(a: string, b: string, k: nat)
    requires k <= |a|
    ensures EscapeFrom(a + b, k) == EscapeFrom(a, k) + EscapeFrom(b, 0)
    decreases |a| - k
  {
    if k < |a| {
      EscapeAppend(a, b, k + 1);
      assert EscapeChar(a[k]) + (EscapeFrom(a, k + 1) + EscapeFrom(b, 0)) ==
             (EscapeChar(a[k]) + EscapeFrom(a, k + 1)) + EscapeFrom(b, 0);
    } else {
      EscapeShift(a, b, 0);
    }
  }

  lemma EscapeShiftOne(a: string, b: string, k: nat)
    requires k < |b| && EscapeFrom(a + b, |a| + (k + 1)) == EscapeFrom(b, k + 1)
    ensures EscapeFrom(a + b, |a| + k) == EscapeFrom(b, k)
  {
    assert (a + b)[|a| + k] == b[k];
  }

  lemma {:induction false} EscapeShift(a: string, b: string, k: nat)
    requires k <= |b|
    ensures EscapeFrom(a + b, |a| + k) == EscapeFrom(b, k)
    decreases |b| - k
  {
    if k < |b| {
      EscapeShift(a, b, k + 1);
      EscapeShiftOne(a, b, k);
    }
  }

  predicate Unescaped(s: string) {
    forall k :: 0 <= k < |s| ==> EscapeChar(s[k]) == [s[k]]
  }

  lemma {:induction false} EscapeIsSelf(s: string, k: nat)
    requires k <= |s| && Unescaped(s)
    ensures EscapeFrom(s, k) == s[k..]
    decreases |s| - k
  {
    if k < |s| {
      EscapeIsSelf(s, k + 1);
    }
  }

  /** A key inside a value is found in the printed line. */
  lemma KeyIsFound(i: nat, gap: string, before: string, key: string, after: string)
    requires i < |KEYS| && Unescaped(key)
    ensures Contains(FieldText(i, gap, before + key + after), key)
  {
    var value := before + key + after;
    var content := FieldText(i, gap, value);
    EscapeAppend(before + key, after, 0);
    EscapeAppend(before, key, 0);
    EscapeIsSelf(key, 0);
    assert key[0..] == key;
    var front := KEYS[i] + gap + [QUOTE] + Escape(before);
    var back := Escape(after) + [QUOTE];
    assert content == front + key + back;
    assert content[|front|..|front| + |key|] == key;
    FindIsFirst(content, key, 0);
    assert OccursAt(content, key, |front|);
  }

  lemma KeyIsUnescaped(i: nat)
    requires i < |KEYS|
    ensures Unescaped(KEYS[i])
  {
  }

  /** So a value that contains an earlier key is never read into its own field; below the top
      level, a value with "title:" in it sets the title, as in `name: "my title: x"`. */
  lemma KeyInValueDecides(before: string, i: nat, gap: string, front: string, j: nat, back: string, after: string)
    requires AllSpace(before) && AllSpace(after) && j < i < |KEYS| && QUOTE !in gap
    requires NulFree(front + KEYS[j] + back)
    ensures var value := front + KEYS[j] + back;
            var content := FieldText(i, gap, value);
            var line := before + content + after;
            && Classify(line) != Field(NAMES[i], Some(value))
            && (j == 0 && !TopLevel(line, content) ==> Classify(line) == Field(Title, Some(value)))
  {
    var value := front + KEYS[j] + back;
    var content := FieldText(i, gap, value);
    KeyIsUnescaped(j);
    KeyIsFound(i, gap, front, KEYS[j], back);
    FieldLineExactly(before, i, gap, value, after);
    TextFacts(i, gap, value);
    TrimmedText(before, content, after);
  }
}
