/** From the text of a patch file to what is read from it: each written line to what it asks for, and
    a whole file of patches to its records (game_patch/patch.c:231-487, 619-700).
  */
module FileText {
  import opened CText
  import opened QuotedText
  import opened StringList
  import opened ListText
  import opened PatchLines
  import opened LineText
  import opened PatchFile
  import LineReader

  // ----- Written lines -----

  datatype Source =
    | Blank(before: string)
    | Remark(before: string, text: string)
    | Ids(gap: string, ids: seq<Piece>)
    | Header(text: string)
    | FieldIs(before: string, name: Name, gap: string, value: string)
    | VersionsAre(before: string, gap: string, versions: seq<Piece>)
    | VersionIs(before: string, gap: string, version: string)
    | Section(before: string)
    | EntryIs(before: string, params: seq<Piece>)

  function FieldKey(name: Name): string {
    match name
    case Title => "title:"
    case PatchName => "name:"
    case Notes => "notes:"
    case Author => "author:"
    case PatchVersion => "version:"
    case AppBin => "app_bin:"
  }

  /** How many of the other keys are looked for before this one. */
  function Rank(name: Name): (r: nat)
    ensures r < 6
  {
    match name
    case Title => 0
    case PatchName => 1
    case Notes => 2
    case Author => 3
    case PatchVersion => 4
    case AppBin => 5
  }

  function SourceText(s: Source): string {
    match s
    case Blank(before) => before
    case Remark(before, text) => before + "#" + text
    case Ids(gap, ids) => "titleid:" + gap + ListOf(ids)
    case Header(text) => "patch:" + text
    case FieldIs(before, name, gap, value) => before + (FieldKey(name) + gap + Quoted(value))
    case VersionsAre(before, gap, versions) => before + ("app_ver:" + gap + ListOf(versions))
    case VersionIs(before, gap, version) => before + ("app_ver:" + gap + Quoted(version))
    case Section(before) => before + "patches:"
    case EntryIs(before, params) => before + ("- " + ListOf(params))
  }

  /** What the line asks for. */
  function Meaning(s: Source): Line {
    match s
    case Blank(_) => Ignored
    case Remark(_, _) => Ignored
    case Ids(_, ids) => TitleIds(Some(FirstOf(Values(ids, 0), 16)))
    case Header(_) => Block
    case FieldIs(_, name, _, value) => Field(name, Some(value))
    case VersionsAre(_, _, versions) => VersionList(FirstOf(Values(versions, 0), 16))
    case VersionIs(_, _, version) => Version(Some(version))
    case Section(_) => Patches
    case EntryIs(_, params) => PatchLines.Item(FirstOf(Values(params, 0), 8))
  }

  /** The line is well formed, fits, and no other key in it decides. */
  ghost predicate GoodSource(s: Source) {
    match s
    case Blank(before) => AllSpace(before)
    case Remark(before, _) => AllSpace(before)
    case Ids(gap, ids) => AllSpace(gap) && GoodPieces(ids) && |SourceText(s)| <= 1024
    case Header(text) => IsRest(text) && !Occurs("patch:" + text, "titleid:")
    case FieldIs(before, name, gap, value) =>
      && AllSpace(before) && AllSpace(gap) && NulFree(value)
      && !AtTop(SourceText(s)) && FreeOf(SourceText(s), Rank(name))
    case VersionsAre(before, gap, versions) =>
      && AllSpace(before) && AllSpace(gap) && GoodPieces(versions) && |"app_ver:" + gap + ListOf(versions)| <= 1024
      && !AtTop(SourceText(s)) && FreeOf(SourceText(s), 6)
    case VersionIs(before, gap, version) =>
      && AllSpace(before) && AllSpace(gap) && NulFree(version)
      && !AtTop(SourceText(s)) && FreeOf(SourceText(s), 6)
    case Section(before) => AllSpace(before) && !AtTop(SourceText(s))
    case EntryIs(before, params) =>
      && AllSpace(before) && GoodPieces(params) && |ListOf(params)| <= 1024
      && !AtTop(SourceText(s)) && FreeOf(SourceText(s), 8)
  }

  // ----- Each line -----

  lemma NothingBehind(before: string, body: string, value: string)
    ensures before + body + [] == before + body && value + [] == value
  {
  }

  lemma KeyOfName(name: Name)
    ensures KEYS[Rank(name)] == FieldKey(name) == INNER[Rank(name)] && NAMES[Rank(name)] == name
  {
  }

  lemma EarlierExactly(before: string, body: string, after: string, i: nat)
    requires AllSpace(before) && AllSpace(after) && i < |KEYS|
    ensures EarlierKey(body, i) <==> !FreeOf(before + body + after, i)
  {
    forall j | 0 <= j < i
      ensures Contains(body, KEYS[j]) <==> Occurs(before + body + after, INNER[j])
    {
      assert KEYS[j] == INNER[j];
      InnerFound(before, body, after, j);
    }
  }

  lemma FieldReads(before: string, name: Name, gap: string, value: string)
    requires AllSpace(before) && AllSpace(gap) && NulFree(value)
    ensures var line := before + (FieldKey(name) + gap + Quoted(value));
            Classify(line) == Field(name, Some(value)) <==> !AtTop(line) && FreeOf(line, Rank(name))
  {
    var i := Rank(name);
    KeyOfName(name);
    var body := FieldText(i, gap, value);
    TextFacts(i, gap, value);
    NothingBehind(before, body, []);
    FieldLineExactly(before, i, gap, value, []);
    TopExactly(before, body, []);
    EarlierExactly(before, body, [], i);
  }

  /** A body that starts with a key and holds no quote. */
  lemma BareBody(key: string, text: string)
    requires IsKey(key) && key[0] != '#' && QUOTE !in key && QUOTE !in text && IsRest(text)
    ensures IsBody(key + text) && OccursAt(key + text, key, 0) && ParseQuoted(key + text) == None
  {
    var body := key + text;
    assert body[0] == key[0] && body[|body| - 1] == (if text == [] then key[|key| - 1] else text[|text| - 1]);
    assert body[0..|key|] == key;
    assert QUOTE !in body;
    IndexOfIs(body, QUOTE, 0, |body|);
  }

  lemma FieldCase(before: string, body: string, i: nat)
    requires AllSpace(before) && IsBody(body) && i < |KEYS| && Contains(body, KEYS[i])
    ensures Classify(before + body) == Field(NAMES[i], ParseQuoted(body)) <==>
            !TopLevel(before + body, body) && !EarlierKey(body, i)
  {
    NothingBehind(before, body, []);
    BodyOfLine(before, body, []);
    FieldExactly(body, i);
  }

  lemma DecidesExactly(before: string, body: string, i: nat)
    requires AllSpace(before) && IsBody(body) && i < |KEYS|
    ensures TopLevel(before + body, body) <==> AtTop(before + body)
    ensures EarlierKey(body, i) <==> !FreeOf(before + body, i)
  {
    NothingBehind(before, body, []);
    TopExactly(before, body, []);
    EarlierExactly(before, body, [], i);
  }

  /** A key without a quoted text behind it takes the value away, if and only if it decides. */
  lemma FieldWithout(before: string, name: Name, text: string)
    requires AllSpace(before) && QUOTE !in text && IsRest(text)
    ensures var line := before + (FieldKey(name) + text);
            Classify(line) == Field(name, None) <==> !AtTop(line) && FreeOf(line, Rank(name))
  {
    var i, key := Rank(name), FieldKey(name);
    var body := key + text;
    KeyOfName(name);
    BareBody(key, text);
    DecidesExactly(before, body, i);
    FoundAtStart(body, key);
    FieldCase(before, body, i);
  }

  /** The same for the versions: none are left. */
  lemma VersionWithout(before: string, text: string)
    requires AllSpace(before) && QUOTE !in text && OPEN !in text && IsRest(text)
    ensures var line := before + ("app_ver:" + text);
            Classify(line) == Version(None) <==> !AtTop(line) && FreeOf(line, 6)
  {
    var body := "app_ver:" + text;
    BareBody("app_ver:", text);
    NothingBehind(before, body, []);
    assert OPEN !in body;
    VersionCase(before, body, []);
  }

  lemma IdentifiersCase(body: string)
    requires IsBody(body) && OccursAt(body, "titleid:", 0) && !IsListValue(body)
    ensures Classify(body) == TitleIds(None)
  {
    BodyOfLine([], body, []);
    assert [] + body + [] == body;
    MarginExactly(body);
    FoundAtStart(body, "titleid:");
  }

  /** Identifiers without a list leave those before. */
  lemma IdentifiersWithout(text: string)
    requires OPEN !in text && QUOTE !in text && IsRest(text)
    ensures Classify("titleid:" + text) == TitleIds(None)
  {
    var body := "titleid:" + text;
    BareBody("titleid:", text);
    assert OPEN !in body;
    IdentifiersCase(body);
  }

  lemma HeaderReads(text: string)
    requires IsRest(text) && !Occurs("patch:" + text, "titleid:")
    ensures Classify("patch:" + text) == Block
  {
    var line := "patch:" + text;
    assert line[0] == 'p' && line[|line| - 1] == (if text == [] then ':' else text[|text| - 1]);
    assert line[0..6] == "patch:";
    assert OccursAt(line, "patch:", 0);
    assert [] + line + [] == line;
    HeaderExactly([], line, []);
  }

  lemma SectionReads(before: string)
    requires AllSpace(before) && !AtTop(before + "patches:")
    ensures Classify(before + "patches:") == Patches
  {
    var line := before + "patches:";
    assert "patches:" + [] == "patches:";
    NothingBehind(before, "patches:", []);
    SectionLine(before, [], []);
    SectionIsFree(before);
  }

  /** No other key occurs in "patches:". */
  lemma SectionIsFree(before: string)
    requires AllSpace(before)
    ensures FreeOf(before + "patches:", 7)
  {
    forall j | 0 <= j < 7
      ensures !Occurs(before + "patches:", INNER[j])
    {
      NothingBehind(before, "patches:", []);
      KeysAreKeys(j);
      KeyInBody(before, "patches:", [], INNER[j]);
      KeyNotInSection(j);
    }
  }

  lemma KeyNotInSection(j: nat)
    requires j < 7
    ensures !Occurs("patches:", INNER[j])
  {
    forall i: nat | true
      ensures !OccursAt("patches:", INNER[j], i)
    {
      KeyNotAt(j, i);
    }
  }

  lemma KeyNotAt(j: nat, i: nat)
    requires j < 7
    ensures !OccursAt("patches:", INNER[j], i)
  {
    var s, n := "patches:", |INNER[j]|;
    if i + n <= |s| {
      var part := s[i..i + n];
      assert part[n - 1] == s[i + (n - 1)] && part[n - 2] == s[i + (n - 2)];
      assert part[n - 3] == s[i + (n - 3)] && part[n - 4] == s[i + (n - 4)];
    }
  }

  lemma IdentifiersRead(gap: string, ids: seq<Piece>)
    requires AllSpace(gap) && GoodPieces(ids) && |"titleid:" + gap + ListOf(ids)| <= 1024
    ensures Classify("titleid:" + gap + ListOf(ids)) == TitleIds(Some(FirstOf(Values(ids, 0), 16)))
  {
    IdentifierLine(gap, ids, [], []);
    NothingBehind([], "titleid:" + gap + (ListOf(ids) + []), ListOf(ids));
    assert "titleid:" + gap + (ListOf(ids) + []) + [] == "titleid:" + gap + ListOf(ids);
  }

  lemma VersionsRead(before: string, gap: string, versions: seq<Piece>)
    requires AllSpace(before) && AllSpace(gap) && GoodPieces(versions) && |"app_ver:" + gap + ListOf(versions)| <= 1024
    ensures var line := before + ("app_ver:" + gap + ListOf(versions));
            Classify(line) == VersionList(FirstOf(Values(versions, 0), 16)) <==> !AtTop(line) && FreeOf(line, 6)
  {
    VersionsLine(before, gap, versions, [], []);
    NothingBehind(before, "app_ver:" + gap + (ListOf(versions) + []), ListOf(versions));
  }

  lemma VersionReads(before: string, gap: string, version: string)
    requires AllSpace(before) && AllSpace(gap) && NulFree(version)
    ensures var line := before + ("app_ver:" + gap + Quoted(version));
            Classify(line) == Version(Some(version)) <==> !AtTop(line) && FreeOf(line, 6)
  {
    VersionLine(before, gap, version, [], []);
    NothingBehind(before, "app_ver:" + gap + (Quoted(version) + []), Quoted(version));
  }

  lemma EntryReads(before: string, params: seq<Piece>)
    requires AllSpace(before) && GoodPieces(params) && |ListOf(params)| <= 1024
    ensures var line := before + ("- " + ListOf(params));
            Classify(line) == PatchLines.Item(FirstOf(Values(params, 0), 8)) <==> !AtTop(line) && FreeOf(line, 8)
  {
    EntryLine(before, params, [], []);
    NothingBehind(before, "- " + (ListOf(params) + []), ListOf(params));
  }

  /** Every written line asks for what it means. */
  lemma SourceReads(s: Source)
    requires GoodSource(s)
    ensures Classify(SourceText(s)) == Meaning(s)
  {
    match s
    case Blank(before) => Remarks(before, []);
    case Remark(before, text) => Remarks(before, text);
    case Ids(gap, ids) => IdentifiersRead(gap, ids);
    case Header(text) => HeaderReads(text);
    case FieldIs(before, name, gap, value) => FieldReads(before, name, gap, value);
    case VersionsAre(before, gap, versions) => VersionsRead(before, gap, versions);
    case VersionIs(before, gap, version) => VersionReads(before, gap, version);
    case Section(before) => SectionReads(before);
    case EntryIs(before, params) => EntryReads(before, params);
  }

  // ----- Lines without a second colon -----

  predicate ColonFree(t: string) {
    ':' !in t
  }

  lemma {:induction false} EscapedColonFree(t: string, k: nat)
    requires k <= |t| && ColonFree(t)
    ensures ColonFree(EscapeFrom(t, k))
    decreases |t| - k
  {
    if k < |t| {
      EscapedColonFree(t, k + 1);
      assert t[k] in t;
    }
  }

  lemma TheColon(key: string, tail: string, p: nat)
    requires ColonKey(key) && ColonFree(tail) && p < |key + tail|
    ensures (key + tail)[p] == ':' ==> p == |key| - 1
  {
    if p >= |key| {
      assert (key + tail)[p] == tail[p - |key|];
    }
  }

  /** In a text with one colon, behind `key`, another key can only end where `key` does. */
  lemma OneColon(key: string, tail: string, other: string)
    requires ColonKey(key) && ColonKey(other) && ColonFree(tail) && Occurs(key + tail, other)
    ensures |other| <= |key| && other == key[|key| - |other|..]
  {
    var s, n := key + tail, |other|;
    var i: nat :| OccursAt(s, other, i);
    assert s[i..i + n][n - 1] == s[i + n - 1];
    TheColon(key, tail, i + n - 1);
    assert s[i..i + n] == key[i..i + n];
  }

  lemma EndsOfKeys(name: Name, j: nat)
    requires j < 6 && j != Rank(name)
    ensures ColonKey(FieldKey(name)) && ColonKey(INNER[j])
    ensures FieldKey(name)[|FieldKey(name)| - 2] != INNER[j][|INNER[j]| - 2]
         || FieldKey(name)[|FieldKey(name)| - 3] != INNER[j][|INNER[j]| - 3]
  {
  }

  lemma NotTheEnd(name: Name, j: nat)
    requires j < 6 && j != Rank(name) && |INNER[j]| <= |FieldKey(name)|
    ensures INNER[j] != FieldKey(name)[|FieldKey(name)| - |INNER[j]|..]
  {
    EndsOfKeys(name, j);
    var key, other := FieldKey(name), INNER[j];
    var n := |other|;
    assert key[|key| - n..][n - 2] == key[|key| - 2] && key[|key| - n..][n - 3] == key[|key| - 3];
  }

  lemma NoOtherKey(name: Name, tail: string, j: nat)
    requires j < 6 && j != Rank(name) && ColonFree(tail)
    ensures !Occurs(FieldKey(name) + tail, INNER[j])
  {
    EndsOfKeys(name, j);
    if Occurs(FieldKey(name) + tail, INNER[j]) {
      OneColon(FieldKey(name), tail, INNER[j]);
      NotTheEnd(name, j);
    }
  }

  lemma IndentedFreeOf(before: string, name: Name, tail: string)
    requires AllSpace(before) && ColonFree(tail)
    ensures FreeOf(before + (FieldKey(name) + tail), Rank(name))
  {
    var body := FieldKey(name) + tail;
    NothingBehind(before, body, []);
    forall j | 0 <= j < Rank(name)
      ensures !Occurs(before + body, INNER[j])
    {
      KeysAreKeys(j);
      KeyInBody(before, body, [], INNER[j]);
      NoOtherKey(name, tail, j);
    }
  }

  /** An indented field whose value has no colon is read into its own field. */
  lemma ColonFreeField(before: string, name: Name, gap: string, value: string)
    requires AllSpace(before) && AllSpace(gap) && NulFree(value) && ColonFree(value) && before != [] && before[0] == ' '
    ensures GoodSource(FieldIs(before, name, gap, value))
  {
    var tail := gap + Quoted(value);
    var body := FieldKey(name) + tail;
    var line := before + body;
    assert line == before + (FieldKey(name) + gap + Quoted(value)) && line[0] == ' ';
    EscapedColonFree(value, 0);
    IndentedFreeOf(before, name, tail);
  }
}
