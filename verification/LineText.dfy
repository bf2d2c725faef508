/** What the text of a line of a patch file asks for: which lines are headers, identifiers, versions,
    sections, entries or remarks, and what values they give (game_patch/patch.c:330-487).
  */
module LineText {
  import opened CText
  import opened QuotedText
  import opened StringList
  import opened ListText
  import opened PatchLines

  /** The keys inside a block, in the order in which they are looked for. */
  const INNER: seq<string> :=
    ["title:", "name:", "notes:", "author:", "version:", "app_bin:", "app_ver:", "patches:"]

  /** None of the first `n` of them occurs in the line. */
  ghost predicate FreeOf(line: string, n: nat)
    requires n <= |INNER|
  {
    forall j :: 0 <= j < n ==> !Occurs(line, INNER[j])
  }

  /** The line starts at the left margin and names identifiers or a block. */
  ghost predicate AtTop(line: string) {
    line != [] && line[0] != ' ' && (Occurs(line, "titleid:") || Occurs(line, "patch:"))
  }

  /** `body` starts and ends the line but for white space, and is no remark. */
  predicate IsBody(body: string) {
    body != [] && !IsSpace(body[0]) && !IsSpace(body[|body| - 1]) && body[0] != '#'
  }

  predicate IsKey(key: string) {
    key != [] && !IsSpace(key[0]) && !IsSpace(key[|key| - 1])
  }

  // ----- White space around a line -----

  /** A key lies inside the body of a line. */
  lemma KeyInBody(before: string, body: string, after: string, key: string)
    requires AllSpace(before) && AllSpace(after) && IsKey(key)
    ensures Occurs(before + body + after, key) <==> Occurs(body, key)
  {
    var line, n := before + body + after, |before|;
    if Occurs(line, key) {
      var i: nat :| OccursAt(line, key, i);
      assert line[i..i + |key|][0] == line[i] && line[i..i + |key|][|key| - 1] == line[i + |key| - 1];
      OutsideIsSpace(before, body, after, i);
      OutsideIsSpace(before, body, after, i + |key| - 1);
      assert body[i - n..i - n + |key|] == line[i..i + |key|];
      assert OccursAt(body, key, i - n);
    }
    if Occurs(body, key) {
      var i: nat :| OccursAt(body, key, i);
      assert line[n + i..n + i + |key|] == body[i..i + |key|];
      assert OccursAt(line, key, n + i);
    }
  }

  lemma OutsideIsSpace(before: string, body: string, after: string, k: nat)
    requires AllSpace(before) && AllSpace(after) && k < |before + body + after|
    ensures !(|before| <= k < |before| + |body|) ==> IsSpace((before + body + after)[k])
  {
    var line := before + body + after;
    if k < |before| {
      assert line[k] == before[k];
    } else if k >= |before| + |body| {
      assert line[k] == after[k - |before| - |body|];
    }
  }

  /** A line with a body: what is trimmed, and that it is no remark. */
  lemma BodyOfLine(before: string, body: string, after: string)
    requires AllSpace(before) && AllSpace(after) && IsBody(body)
    ensures var line := before + body + after; Trimmed(line) == body && !IsCommentOrEmpty(line) && line != []
  {
    TrimmedText(before, body, after);
  }

  lemma {:induction false} IndentGrows(line: string, i: nat)
    ensures IndentLevel(line, i) >= i
    decreases |line| - i
  {
    if i < |line| && line[i] == ' ' {
      IndentGrows(line, i + 1);
    }
  }

  lemma MarginExactly(line: string)
    requires line != []
    ensures IndentLevel(line, 0) == 0 <==> line[0] != ' '
  {
    if line[0] == ' ' {
      IndentGrows(line, 1);
    }
  }

  lemma KeysAreKeys(j: nat)
    requires j < |INNER|
    ensures IsKey(INNER[j])
  {
  }

  /** Looking for a key in the trimmed line is looking for it in the line. */
  lemma FoundExactly(before: string, body: string, after: string, key: string)
    requires AllSpace(before) && AllSpace(after) && IsKey(key)
    ensures Contains(body, key) <==> Occurs(before + body + after, key)
  {
    ContainsExactly(body, key);
    KeyInBody(before, body, after, key);
  }

  // ----- The fields -----

  lemma InnerFound(before: string, body: string, after: string, j: nat)
    requires AllSpace(before) && AllSpace(after) && j < |INNER|
    ensures Contains(body, INNER[j]) <==> Occurs(before + body + after, INNER[j])
  {
    KeysAreKeys(j);
    FoundExactly(before, body, after, INNER[j]);
  }

  /** No field is found if and only if none of their keys occurs. */
  lemma NoFieldExactly(before: string, body: string, after: string)
    requires AllSpace(before) && AllSpace(after)
    ensures FieldOf(body) == None <==> FreeOf(before + body + after, 6)
  {
    var line := before + body + after;
    InnerFound(before, body, after, 0);
    InnerFound(before, body, after, 1);
    InnerFound(before, body, after, 2);
    InnerFound(before, body, after, 3);
    InnerFound(before, body, after, 4);
    InnerFound(before, body, after, 5);
    SixKeys(line);
  }

  lemma SixKeys(line: string)
    ensures FreeOf(line, 6) <==>
            && !Occurs(line, INNER[0]) && !Occurs(line, INNER[1]) && !Occurs(line, INNER[2])
            && !Occurs(line, INNER[3]) && !Occurs(line, INNER[4]) && !Occurs(line, INNER[5])
  {
  }

  lemma TopExactly(before: string, body: string, after: string)
    requires AllSpace(before) && AllSpace(after) && IsBody(body)
    ensures var line := before + body + after;
            TopLevel(line, body) <==> AtTop(line)
  {
    BodyOfLine(before, body, after);
    MarginExactly(before + body + after);
    FoundExactly(before, body, after, "titleid:");
    FoundExactly(before, body, after, "patch:");
  }

  // ----- Remarks and what asks for nothing -----

  /** Blank lines and lines whose first character is a hash sign say nothing, whatever follows. */
  lemma Remarks(before: string, text: string)
    requires AllSpace(before)
    ensures Classify(before) == Ignored && Classify(before + "#" + text) == Ignored
  {
    SkipsAll(before, 0, |before|);
    var line := before + "#" + text;
    assert line[|before|] == '#';
    SkipsAll(line, 0, |before|);
  }

  // ----- Headers -----

  /** Any other line is a header if and only if it starts at the left margin and "patch:" occurs in
      it but "titleid:" does not. */
  lemma HeaderExactly(before: string, body: string, after: string)
    requires AllSpace(before) && AllSpace(after) && IsBody(body)
    ensures var line := before + body + after;
            Classify(line) == Block <==> line[0] != ' ' && Occurs(line, "patch:") && !Occurs(line, "titleid:")
  {
    BodyOfLine(before, body, after);
    MarginExactly(before + body + after);
    FoundExactly(before, body, after, "titleid:");
    FoundExactly(before, body, after, "patch:");
  }

  /** It names identifiers if and only if it starts there and "titleid:" occurs in it. */
  lemma IdentifiersExactly(before: string, body: string, after: string)
    requires AllSpace(before) && AllSpace(after) && IsBody(body)
    ensures var line := before + body + after;
            Classify(line).TitleIds? <==> line[0] != ' ' && Occurs(line, "titleid:")
  {
    BodyOfLine(before, body, after);
    MarginExactly(before + body + after);
    FoundExactly(before, body, after, "titleid:");
  }

  // ----- Values behind a key -----

  predicate ColonKey(key: string) {
    key != [] && key[|key| - 1] == ':' && forall k :: 0 <= k < |key| - 1 ==> key[k] != ':'
  }

  /** A value is a list if and only if it starts with a bracket, after any white space. */
  lemma ListValueExactly(key: string, gap: string, value: string)
    requires ColonKey(key) && AllSpace(gap) && value != [] && !IsSpace(value[0])
    ensures IsListValue(key + gap + value) <==> value[0] == '['
  {
    var s, n := key + gap + value, |key|;
    IndexOfIs(s, ':', 0, n - 1);
    forall k | n <= k < n + |gap|
      ensures IsSpace(s[k])
    {
      assert s[k] == gap[k - n];
    }
    assert s[n + |gap|] == value[0];
    SkipsAll(s, n, n + |gap|);
  }

  /** Neither keys nor white space hold brackets or quotes. */
  lemma PlainGap(key: string, gap: string)
    requires AllSpace(gap) && OPEN !in key && QUOTE !in key
    ensures OPEN !in key + gap && QUOTE !in key + gap
  {
  }

  /** A body that starts with a key and ends as `value` does. */
  lemma KeyedBody(key: string, gap: string, value: string)
    requires IsKey(key) && key[0] != '#' && value != [] && !IsSpace(value[|value| - 1])
    ensures IsBody(key + gap + value) && OccursAt(key + gap + value, key, 0) && Occurs(key + gap + value, key)
  {
    var s := key + gap + value;
    assert s[0] == key[0] && s[|s| - 1] == value[|value| - 1];
    assert s[0..|key|] == key;
    assert OccursAt(s, key, 0);
  }

  /** What may stand behind a value on its line. */
  predicate IsRest(rest: string) {
    rest == [] || !IsSpace(rest[|rest| - 1])
  }

  lemma ListThenRest(ps: seq<Piece>, rest: string)
    requires IsRest(rest)
    ensures var value := ListOf(ps) + rest; value != [] && value[0] == '[' && !IsSpace(value[|value| - 1])
  {
    assert ListOf(ps)[0] == OPEN && ListOf(ps)[|ListOf(ps)| - 1] == CLOSE;
  }

  lemma QuotedThenRest(t: string, rest: string)
    requires IsRest(rest)
    ensures var value := Quoted(t) + rest; value != [] && value[0] == QUOTE && !IsSpace(value[|value| - 1])
  {
    assert Quoted(t)[|Quoted(t)| - 1] == QUOTE;
  }

  lemma KeyedList(key: string, gap: string, ps: seq<Piece>, rest: string, cap: nat)
    requires ColonKey(key) && AllSpace(gap) && OPEN !in key && QUOTE !in key && GoodPieces(ps) && IsRest(rest)
    requires |key + gap + ListOf(ps)| <= 1024
    ensures var body := key + gap + (ListOf(ps) + rest);
            IsListValue(body) && ParseList(body, cap) == FirstOf(Values(ps, 0), cap)
  {
    ListThenRest(ps, rest);
    ListValueExactly(key, gap, ListOf(ps) + rest);
    PlainGap(key, gap);
    WrittenList(key + gap, ps, rest, cap);
    assert key + gap + ListOf(ps) + rest == key + gap + (ListOf(ps) + rest);
  }

  lemma KeyedString(key: string, gap: string, t: string, rest: string)
    requires ColonKey(key) && AllSpace(gap) && OPEN !in key && QUOTE !in key && NulFree(t) && IsRest(rest)
    ensures var body := key + gap + (Quoted(t) + rest);
            !IsListValue(body) && ParseQuoted(body) == Some(t)
  {
    QuotedThenRest(t, rest);
    ListValueExactly(key, gap, Quoted(t) + rest);
    PlainGap(key, gap);
    QuotedRoundTrip(key + gap, t, rest);
    assert key + gap + Quoted(t) + rest == key + gap + (Quoted(t) + rest);
  }

  // ----- Identifiers -----

  predicate GoodKey(key: string) {
    IsKey(key) && ColonKey(key) && key[0] != '#' && OPEN !in key && QUOTE !in key
  }

  lemma GoodKeys()
    ensures GoodKey("titleid:") && GoodKey("app_ver:")
  {
  }

  lemma ListBody(key: string, gap: string, ps: seq<Piece>, rest: string, cap: nat) returns (body: string)
    requires GoodKey(key) && AllSpace(gap) && GoodPieces(ps) && IsRest(rest) && |key + gap + ListOf(ps)| <= 1024
    ensures body == key + gap + (ListOf(ps) + rest) && IsBody(body) && OccursAt(body, key, 0)
    ensures IsListValue(body) && ParseList(body, cap) == FirstOf(Values(ps, 0), cap)
  {
    body := key + gap + (ListOf(ps) + rest);
    ListThenRest(ps, rest);
    KeyedBody(key, gap, ListOf(ps) + rest);
    KeyedList(key, gap, ps, rest, cap);
  }

  lemma StringBody(key: string, gap: string, t: string, rest: string) returns (body: string)
    requires GoodKey(key) && AllSpace(gap) && NulFree(t) && IsRest(rest)
    ensures body == key + gap + (Quoted(t) + rest) && IsBody(body) && OccursAt(body, key, 0)
    ensures !IsListValue(body) && ParseQuoted(body) == Some(t)
  {
    body := key + gap + (Quoted(t) + rest);
    QuotedThenRest(t, rest);
    KeyedBody(key, gap, Quoted(t) + rest);
    KeyedString(key, gap, t, rest);
  }

  lemma IdentifierCase(body: string, after: string)
    requires AllSpace(after) && IsBody(body) && OccursAt(body, "titleid:", 0) && IsListValue(body)
    ensures Classify(body + after) == TitleIds(Some(ParseList(body, 16)))
  {
    BodyOfLine([], body, after);
    assert [] + body + after == body + after;
    MarginExactly(body + after);
    assert Occurs(body, "titleid:");
    ContainsExactly(body, "titleid:");
  }

  /** The identifiers of a file: the first sixteen items of the list, however it is written. */
  lemma IdentifierLine(gap: string, ps: seq<Piece>, rest: string, after: string)
    requires AllSpace(gap) && GoodPieces(ps) && IsRest(rest) && AllSpace(after)
    requires |"titleid:" + gap + ListOf(ps)| <= 1024
    ensures Classify("titleid:" + gap + (ListOf(ps) + rest) + after) == TitleIds(Some(FirstOf(Values(ps, 0), 16)))
  {
    GoodKeys();
    var body := ListBody("titleid:", gap, ps, rest, 16);
    IdentifierCase(body, after);
  }

  // ----- Versions -----

  /** What a line that is neither at the top nor a field asks for. */
  lemma OtherLine(before: string, body: string, after: string)
    requires AllSpace(before) && AllSpace(after) && IsBody(body)
    ensures var line := before + body + after;
            !AtTop(line) && FreeOf(line, 6) ==>
            Classify(line) ==
            if Occurs(line, "app_ver:") then
              if IsListValue(body) then VersionList(ParseList(body, 16)) else Version(ParseQuoted(body))
            else if Occurs(line, "patches:") then Patches
            else if StartsWith(body, "- [") then PatchLines.Item(ParseList(body[2..], 8))
            else Ignored
    ensures var line := before + body + after; AtTop(line) ==> Classify(line).TitleIds? || Classify(line).Block?
    ensures var line := before + body + after; !AtTop(line) && !FreeOf(line, 6) ==> Classify(line).Field?
  {
    BodyOfLine(before, body, after);
    TopExactly(before, body, after);
    NoFieldExactly(before, body, after);
    FoundExactly(before, body, after, "app_ver:");
    FoundExactly(before, body, after, "patches:");
  }

  lemma FreeOfMore(line: string)
    ensures FreeOf(line, 7) <==> FreeOf(line, 6) && !Occurs(line, "app_ver:")
    ensures FreeOf(line, 8) <==> FreeOf(line, 7) && !Occurs(line, "patches:")
  {
    assert INNER[6] == "app_ver:" && INNER[7] == "patches:";
  }

  lemma OccursInLine(before: string, body: string, after: string, key: string)
    requires AllSpace(before) && AllSpace(after) && IsKey(key) && OccursAt(body, key, 0)
    ensures Occurs(before + body + after, key)
  {
    assert Occurs(body, key);
    KeyInBody(before, body, after, key);
  }

  /** A version line, given what its body says. */
  lemma VersionCase(before: string, body: string, after: string)
    requires AllSpace(before) && AllSpace(after) && IsBody(body) && OccursAt(body, "app_ver:", 0)
    ensures var line := before + body + after;
            var says := if IsListValue(body) then VersionList(ParseList(body, 16)) else Version(ParseQuoted(body));
            Classify(line) == says <==> !AtTop(line) && FreeOf(line, 6)
  {
    OccursInLine(before, body, after, "app_ver:");
    OtherLine(before, body, after);
  }

  /** A list of versions: its first sixteen items, if and only if no other key decides. */
  lemma VersionsLine(before: string, gap: string, ps: seq<Piece>, rest: string, after: string)
    requires AllSpace(before) && AllSpace(gap) && GoodPieces(ps) && IsRest(rest) && AllSpace(after)
    requires |"app_ver:" + gap + ListOf(ps)| <= 1024
    ensures var line := before + ("app_ver:" + gap + (ListOf(ps) + rest)) + after;
            Classify(line) == VersionList(FirstOf(Values(ps, 0), 16)) <==> !AtTop(line) && FreeOf(line, 6)
  {
    GoodKeys();
    var body := ListBody("app_ver:", gap, ps, rest, 16);
    VersionCase(before, body, after);
  }

  /** One version in quotes. */
  lemma VersionLine(before: string, gap: string, t: string, rest: string, after: string)
    requires AllSpace(before) && AllSpace(gap) && NulFree(t) && IsRest(rest) && AllSpace(after)
    ensures var line := before + ("app_ver:" + gap + (Quoted(t) + rest)) + after;
            Classify(line) == Version(Some(t)) <==> !AtTop(line) && FreeOf(line, 6)
  {
    GoodKeys();
    var body := StringBody("app_ver:", gap, t, rest);
    VersionCase(before, body, after);
  }

  // ----- Sections and entries -----

  /** The line that starts the entries, whatever stands behind the key. */
  lemma SectionLine(before: string, rest: string, after: string)
    requires AllSpace(before) && IsRest(rest) && AllSpace(after)
    ensures var line := before + ("patches:" + rest) + after;
            Classify(line) == Patches <==> !AtTop(line) && FreeOf(line, 7)
  {
    var body := "patches:" + rest;
    assert body[0] == 'p' && body[|body| - 1] == (if rest == [] then ':' else rest[|rest| - 1]);
    assert body[0..8] == "patches:";
    OccursInLine(before, body, after, "patches:");
    FreeOfMore(before + body + after);
    OtherLine(before, body, after);
  }

  lemma EntryBody(ps: seq<Piece>, rest: string)
    requires GoodPieces(ps) && IsRest(rest) && |ListOf(ps)| <= 1024
    ensures var body := "- " + (ListOf(ps) + rest);
            && IsBody(body) && StartsWith(body, "- [") && ParseList(body[2..], 8) == FirstOf(Values(ps, 0), 8)
  {
    var value := ListOf(ps) + rest;
    var body := "- " + value;
    ListThenRest(ps, rest);
    assert body[0] == '-' && body[|body| - 1] == value[|value| - 1];
    assert body[..3] == "- [";
    assert body[2..] == [] + ListOf(ps) + rest;
    assert |[] + ListOf(ps)| <= 1024;
    WrittenList([], ps, rest, 8);
  }

  /** An entry: the first eight items of the list behind the dash, if and only if no key decides. */
  lemma EntryLine(before: string, ps: seq<Piece>, rest: string, after: string)
    requires AllSpace(before) && GoodPieces(ps) && IsRest(rest) && AllSpace(after) && |ListOf(ps)| <= 1024
    ensures var line := before + ("- " + (ListOf(ps) + rest)) + after;
            Classify(line) == PatchLines.Item(FirstOf(Values(ps, 0), 8)) <==> !AtTop(line) && FreeOf(line, 8)
  {
    var body := "- " + (ListOf(ps) + rest);
    EntryBody(ps, rest);
    FreeOfMore(before + body + after);
    OtherLine(before, body, after);
  }

  /** A line without a key that starts no entry asks for nothing. */
  lemma NothingLine(before: string, body: string, after: string)
    requires AllSpace(before) && AllSpace(after) && IsBody(body) && !StartsWith(body, "- [")
    ensures var line := before + body + after;
            Classify(line) == Ignored <==> !AtTop(line) && FreeOf(line, 8)
  {
    FreeOfMore(before + body + after);
    OtherLine(before, body, after);
  }
}
