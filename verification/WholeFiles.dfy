/** Whole patch files, from their text to what the parser reports: every patch of a file, with its own
    number, fields, versions and entries (game_patch/patch.c:231-487, 619-778).
  */
module WholeFiles {
  import opened CText
  import opened PatchLines
  import opened FileText
  import opened PatchFile
  import opened PatchMetadata
  import LineReader
  import MetadataFields

  // ----- The lines of a file -----

  function Meanings(ss: seq<Source>): (lines: seq<Line>)
    ensures |lines| == |ss|
  {
    seq(|ss|, k requires 0 <= k < |ss| => Meaning(ss[k]))
  }

  ghost predicate GoodLine(s: Source) {
    GoodSource(s) && NulFree(SourceText(s)) && LineReader.Plain(SourceText(s))
  }

  /** The lines of the file, each with either ending. */
  ghost predicate Prints(lines: seq<LineReader.TextLine>, ss: seq<Source>) {
    |lines| == |ss| && forall k :: 0 <= k < |ss| ==> lines[k].text == SourceText(ss[k]) && GoodLine(ss[k])
  }

  /** The lines of a printed file ask, one by one, for what was written. */
  lemma FileReads(lines: seq<LineReader.TextLine>, ss: seq<Source>, content: string)
    requires Prints(lines, ss) && content == LineReader.PrintLines(lines, 0, [])
    ensures LineReader.LinesAs(content, 0, Classify) == Meanings(ss)
  {
    forall k | 0 <= k < |lines|
      ensures LineReader.Plain(lines[k].text)
    {
      assert GoodLine(ss[k]);
    }
    LineReader.SplitRoundTrip(lines, []);
    LineReader.LinesAreSplit(content, 0, Classify);
    var texts := LineReader.SplitLines(content, 0);
    forall k | 0 <= k < |ss|
      ensures texts[k] == SourceText(ss[k]) && Classify(Cut(texts[k])) == Meaning(ss[k])
    {
      assert texts[k] == lines[0 + k].text;
      CutFacts(SourceText(ss[k]));
      SourceReads(ss[k]);
    }
  }

  // ----- Remarks -----

  /** The lines that ask for something. */
  function Strip(lines: seq<Line>, i: nat): seq<Line>
    decreases |lines| - i
  {
    if i >= |lines| then [] else (if lines[i].Ignored? then [] else [lines[i]]) + Strip(lines, i + 1)
  }

  lemma FoldCons(env: Env, ctx: Ctx, line: Line, rest: seq<Line>)
    ensures Fold(env, ctx, [line] + rest, 0) == Fold(env, Step(env, ctx, line), rest, 0)
  {
    FoldShift(env, Step(env, ctx, line), [line], rest, 0);
  }

  lemma {:induction false} FoldShift(env: Env, ctx: Ctx, front: seq<Line>, rest: seq<Line>, i: nat)
    requires i <= |rest|
    ensures Fold(env, ctx, front + rest, |front| + i) == Fold(env, ctx, rest, i)
    decreases |rest| - i
  {
    if i < |rest| {
      assert (front + rest)[|front| + i] == rest[i];
      FoldShift(env, Step(env, ctx, rest[i]), front, rest, i + 1);
    }
  }

  lemma {:induction false} RemarksSayNothing(env: Env, ctx: Ctx, lines: seq<Line>, i: nat)
    ensures Fold(env, ctx, lines, i) == Fold(env, ctx, Strip(lines, i), 0)
    decreases |lines| - i
  {
    if i < |lines| {
      RemarksSayNothing(env, Step(env, ctx, lines[i]), lines, i + 1);
      if lines[i].Ignored? {
        assert [] + Strip(lines, i + 1) == Strip(lines, i + 1);
      } else {
        FoldCons(env, ctx, lines[i], Strip(lines, i + 1));
      }
    }
  }

  // ----- The patches of a file -----

  datatype Doc = Doc(title: string, name: string, author: string, version: string, appBin: string,
                     versions: seq<string>, entries: seq<seq<string>>)

  /** The lines of one patch stand from `i` on. */
  ghost predicate DocAt(lines: seq<Line>, i: nat, d: Doc) {
    && i + 8 + |d.entries| <= |lines|
    && lines[i] == Block
    && lines[i + 1] == Field(Title, Some(d.title)) && lines[i + 2] == Field(PatchName, Some(d.name))
    && lines[i + 3] == Field(Author, Some(d.author)) && lines[i + 4] == Field(PatchVersion, Some(d.version))
    && lines[i + 5] == Field(AppBin, Some(d.appBin)) && lines[i + 6] == VersionList(d.versions)
    && lines[i + 7] == Patches
    && forall j :: 0 <= j < |d.entries| ==> lines[i + 8 + j] == Item(d.entries[j])
  }

  function DocEnd(i: nat, d: Doc): nat {
    i + 8 + |d.entries|
  }

  /** The patches from `k` on and nothing else stand from `i` on. */
  ghost predicate DocsAt(lines: seq<Line>, i: nat, docs: seq<Doc>, k: nat)
    decreases |docs| - k
  {
    if k >= |docs| then i == |lines|
    else DocAt(lines, i, docs[k]) && docs[k].versions != [] && DocsAt(lines, DocEnd(i, docs[k]), docs, k + 1)
  }

  function DocPatch(d: Doc): Patch {
    Patch(Some(d.title), Some(d.name), None, Some(d.author), Some(d.version), Some(d.appBin), d.versions, true)
  }

  /** The entries with at least three parameters, among the first `n`. */
  function LongEntries(entries: seq<seq<string>>, n: nat): seq<seq<string>>
    requires n <= |entries|
    decreases n
  {
    if n == 0 then [] else LongEntries(entries, n - 1) + if |entries[n - 1]| >= 3 then [entries[n - 1]] else []
  }

  /** The metadata of every version. */
  function DocRecords(env: Env, d: Doc, number: nat): seq<Meta> {
    seq(|d.versions|, k requires 0 <= k < |d.versions| => env.metaOf(DocPatch(d), number, k))
  }

  /** One record for each version of each patch, in file order; patches are numbered from `number`. */
  function AllRecords(env: Env, docs: seq<Doc>, k: nat, number: nat): seq<Meta>
    decreases |docs| - k
  {
    if k >= |docs| then [] else DocRecords(env, docs[k], number) + AllRecords(env, docs, k + 1, number + 1)
  }

  /** The versions of the game among the first `n`, with the entries of the patch. */
  function DocKept(env: Env, d: Doc, number: nat, n: nat): seq<PatchData>
    requires n <= |d.versions|
    decreases n
  {
    if n == 0 then []
    else
      DocKept(env, d, number, n - 1)
      + if d.versions[n - 1] == env.gameVer then
          [PatchData(env.metaOf(DocPatch(d), number, n - 1), LongEntries(d.entries, |d.entries|))]
        else []
  }

  function OwnKept(env: Env, title: string, d: Doc, number: nat): seq<PatchData> {
    if d.title == title then DocKept(env, d, number, |d.versions|) else []
  }

  /** The same for the patches of one title. */
  function AllKept(env: Env, title: string, docs: seq<Doc>, k: nat, number: nat): seq<PatchData>
    decreases |docs| - k
  {
    if k >= |docs| then []
    else OwnKept(env, title, docs[k], number) + AllKept(env, title, docs, k + 1, number + 1)
  }

  // ----- Reading one patch -----

  lemma {:induction false} NextAfterEntries(lines: seq<Line>, i: nat, d: Doc, j: nat)
    requires DocAt(lines, i, d) && j <= |d.entries|
    requires DocEnd(i, d) < |lines| ==> lines[DocEnd(i, d)].Block?
    ensures NextBlock(lines, i + 8 + j) == DocEnd(i, d)
    decreases |d.entries| - j
  {
    if j < |d.entries| {
      assert lines[i + 8 + j] == Item(d.entries[j]);
      NextAfterEntries(lines, i, d, j + 1);
    }
  }

  lemma DocEnds(lines: seq<Line>, i: nat, d: Doc)
    requires DocAt(lines, i, d) && (DocEnd(i, d) < |lines| ==> lines[DocEnd(i, d)].Block?)
    ensures NextBlock(lines, i + 1) == DocEnd(i, d)
  {
    NextAfterEntries(lines, i, d, 0);
    assert NextBlock(lines, i + 6) == DocEnd(i, d);
    assert NextBlock(lines, i + 4) == DocEnd(i, d);
    assert NextBlock(lines, i + 2) == DocEnd(i, d);
  }

  lemma HeadReads(lines: seq<Line>, i: nat, d: Doc)
    requires DocAt(lines, i, d)
    ensures ReadBlock(lines, i + 1, i + 8) == BlockText(DocPatch(d), true, [])
  {
    assert ReadBlock(lines, i + 1, i + 1) == EMPTY_BLOCK;
    var p := NO_PATCH.(title := Some(d.title));
    assert ReadBlock(lines, i + 1, i + 2).patch == p;
    p := p.(name := Some(d.name));
    assert ReadBlock(lines, i + 1, i + 3) == BlockText(p, false, []);
    p := p.(author := Some(d.author));
    assert ReadBlock(lines, i + 1, i + 4) == BlockText(p, false, []);
    p := p.(version := Some(d.version));
    assert ReadBlock(lines, i + 1, i + 5) == BlockText(p, false, []);
    p := p.(appBin := Some(d.appBin));
    assert ReadBlock(lines, i + 1, i + 6) == BlockText(p, false, []);
    assert ReadBlock(lines, i + 1, i + 7) == BlockText(DocPatch(d), false, []);
  }

  lemma {:induction false} EntriesRead(lines: seq<Line>, i: nat, d: Doc, n: nat)
    requires DocAt(lines, i, d) && n <= |d.entries|
    ensures ReadBlock(lines, i + 1, i + 8 + n) == BlockText(DocPatch(d), true, LongEntries(d.entries, n))
    decreases n
  {
    if n == 0 {
      HeadReads(lines, i, d);
    } else {
      EntriesRead(lines, i, d, n - 1);
      assert lines[i + 8 + (n - 1)] == Item(d.entries[n - 1]);
    }
  }

  lemma NothingFaults(env: Env, d: Doc)
    requires d.versions != [] && !env.mode.LowMem?
    ensures !BlockFaults(env, DocPatch(d)) && VersionCount(DocPatch(d)) == |d.versions|
  {
  }

  lemma DocListed(env: Env, d: Doc, number: nat, entries: seq<seq<string>>)
    requires env.mode.Metadata? && d.versions != []
    ensures BlockOutcome(env, BlockText(DocPatch(d), true, entries), number) == Results([], DocRecords(env, d, number))
  {
    NothingFaults(env, d);
    NothingKept(env, DocPatch(d), entries, number, |d.versions|);
  }

  lemma {:induction false} NoneKept(env: Env, p: Patch, n: nat)
    requires !env.mode.All? || env.mode.wanted == None || env.mode.wanted != p.title
    ensures KeptVersions(env, p, n) == []
    decreases n
  {
    if n > 0 {
      NoneKept(env, p, n - 1);
    }
  }

  lemma NothingKept(env: Env, p: Patch, entries: seq<seq<string>>, number: nat, n: nat)
    requires !env.mode.All? || env.mode.wanted == None || env.mode.wanted != p.title
    ensures KeptOf(env, p, entries, number, n) == []
    ensures KeptOf(env, p, [], number, n) == []
  {
    NoneKept(env, p, n);
  }

  lemma {:induction false} VersionsKept(env: Env, d: Doc, number: nat, n: nat)
    requires env.mode == All(Some(d.title)) && n <= |d.versions|
    ensures KeptOf(env, DocPatch(d), LongEntries(d.entries, |d.entries|), number, n) == DocKept(env, d, number, n)
    decreases n
  {
    if n > 0 {
      VersionsKept(env, d, number, n - 1);
      var p, entries := DocPatch(d), LongEntries(d.entries, |d.entries|);
      var before := KeptOf(env, p, entries, number, n - 1);
      assert KeptOf(env, p, entries, number, n)
          == before + if Keeps(env, p, n - 1) then [PatchData(env.metaOf(p, number, n - 1), entries)] else [];
    }
  }

  lemma DocKeeps(env: Env, title: string, d: Doc, number: nat)
    requires env.mode == All(Some(title)) && d.versions != []
    ensures BlockOutcome(env, BlockText(DocPatch(d), true, LongEntries(d.entries, |d.entries|)), number)
         == Results(OwnKept(env, title, d, number), [])
  {
    NothingFaults(env, d);
    if d.title == title {
      VersionsKept(env, d, number, |d.versions|);
    } else {
      NothingKept(env, DocPatch(d), LongEntries(d.entries, |d.entries|), number, |d.versions|);
    }
  }

  // ----- Reading all of them -----

  lemma DocOfBlock(lines: seq<Line>, i: nat, docs: seq<Doc>, k: nat)
    requires k < |docs| && DocsAt(lines, i, docs, k)
    ensures var h := DocEnd(i, docs[k]);
            && NextBlock(lines, i + 1) == h <= |lines| && (h == |lines| <==> k + 1 >= |docs|)
            && ReadBlock(lines, i + 1, h)
            == BlockText(DocPatch(docs[k]), true, LongEntries(docs[k].entries, |docs[k].entries|))
  {
    DocEnds(lines, i, docs[k]);
    EntriesRead(lines, i, docs[k], |docs[k].entries|);
  }

  /** The first patch, and the rest. */
  lemma DocFirst(env: Env, lines: seq<Line>, i: nat, docs: seq<Doc>, k: nat, number: nat, own: Outcome)
    returns (next: nat)
    requires k < |docs| && DocsAt(lines, i, docs, k)
    requires var d := docs[k];
             own == BlockOutcome(env, BlockText(DocPatch(d), true, LongEntries(d.entries, |d.entries|)), number)
    ensures k + 1 < |docs| ==> DocsAt(lines, next, docs, k + 1) && next + 1 <= |lines|
    ensures i + 1 <= |lines|
    ensures PlainBlocks(env, lines, i + 1, number)
         == if k + 1 < |docs| then Then(own, PlainBlocks(env, lines, next + 1, number + 1)) else own
  {
    next := DocEnd(i, docs[k]);
    DocOfBlock(lines, i, docs, k);
  }

  lemma RecordsCons(env: Env, docs: seq<Doc>, k: nat, number: nat, own: Outcome, rest: Outcome)
    requires k < |docs| && own == Results([], DocRecords(env, docs[k], number))
    requires rest == Results([], AllRecords(env, docs, k + 1, number + 1))
    ensures Then(own, rest) == Results([], AllRecords(env, docs, k, number))
    ensures k + 1 == |docs| ==> own == Results([], AllRecords(env, docs, k, number))
  {
    assert DocRecords(env, docs[k], number) + [] == DocRecords(env, docs[k], number);
  }

  lemma {:induction false} DocsListed(env: Env, lines: seq<Line>, i: nat, docs: seq<Doc>, k: nat, number: nat)
    requires env.mode.Metadata? && k < |docs| && DocsAt(lines, i, docs, k)
    ensures i + 1 <= |lines| && PlainBlocks(env, lines, i + 1, number) == Results([], AllRecords(env, docs, k, number))
    decreases |docs| - k
  {
    var d := docs[k];
    DocListed(env, d, number, LongEntries(d.entries, |d.entries|));
    var own := Results([], DocRecords(env, d, number));
    var next := DocFirst(env, lines, i, docs, k, number, own);
    RecordsCons(env, docs, k, number, own, Results([], AllRecords(env, docs, k + 1, number + 1)));
    if k + 1 < |docs| {
      DocsListed(env, lines, next, docs, k + 1, number + 1);
    }
  }

  lemma KeptCons(env: Env, title: string, docs: seq<Doc>, k: nat, number: nat, own: Outcome, rest: Outcome)
    requires k < |docs| && own == Results(OwnKept(env, title, docs[k], number), [])
    requires rest == Results(AllKept(env, title, docs, k + 1, number + 1), [])
    ensures Then(own, rest) == Results(AllKept(env, title, docs, k, number), [])
    ensures k + 1 == |docs| ==> own == Results(AllKept(env, title, docs, k, number), [])
  {
    assert OwnKept(env, title, docs[k], number) + [] == OwnKept(env, title, docs[k], number);
  }

  lemma {:induction false} DocsKept(env: Env, title: string, lines: seq<Line>, i: nat, docs: seq<Doc>, k: nat,
                                    number: nat)
    requires env.mode == All(Some(title)) && k < |docs| && DocsAt(lines, i, docs, k)
    ensures i + 1 <= |lines|
    ensures PlainBlocks(env, lines, i + 1, number) == Results(AllKept(env, title, docs, k, number), [])
    decreases |docs| - k
  {
    var d := docs[k];
    DocKeeps(env, title, d, number);
    var own := Results(OwnKept(env, title, d, number), []);
    var next := DocFirst(env, lines, i, docs, k, number, own);
    KeptCons(env, title, docs, k, number, own, Results(AllKept(env, title, docs, k + 1, number + 1), []));
    if k + 1 < |docs| {
      DocsKept(env, title, lines, next, docs, k + 1, number + 1);
    }
  }

  lemma {:induction false} DocsTitled(lines: seq<Line>, i: nat, docs: seq<Doc>, k: nat)
    requires k < |docs| && DocsAt(lines, i, docs, k)
    ensures EachTitled(lines, i + 1)
    decreases |docs| - k
  {
    DocOfBlock(lines, i, docs, k);
    BlockFields(lines, i + 1, DocEnd(i, docs[k]), Title);
    if k + 1 < |docs| {
      DocsTitled(lines, DocEnd(i, docs[k]), docs, k + 1);
    }
  }

  /** The identifiers, then the patches, and nothing else but remarks. */
  ghost predicate FileOf(lines: seq<Line>, ids: seq<string>, docs: seq<Doc>) {
    lines != [] && lines[0] == TitleIds(Some(ids)) && docs != [] && DocsAt(lines, 1, docs, 0)
  }

  lemma FileIsPlain(env: Env, lines: seq<Line>, ids: seq<string>, docs: seq<Doc>)
    requires FileOf(lines, ids, docs) && !env.mode.LowMem?
    ensures |lines| > 1 && OutcomeOf(Run(env, lines)) == PlainBlocks(env, lines, 2, 0)
  {
    assert NextBlock(lines, 0) == 1;
    DocsTitled(lines, 1, docs, 0);
    RunIsPlainBlocks(env, lines);
  }

  lemma RunStripped(env: Env, all: seq<Line>, lines: seq<Line>)
    requires lines == Strip(all, 0)
    ensures Run(env, all) == Run(env, lines)
  {
    RemarksSayNothing(env, START, all, 0);
  }

  // ----- Identifiers -----

  predicate NoIds(lines: seq<Line>, i: nat)
    decreases |lines| - i
  {
    i >= |lines| || (!lines[i].TitleIds? && NoIds(lines, i + 1))
  }

  lemma CompleteKeepsIds(env: Env, ctx: Ctx)
    ensures Complete(env, ctx).titleIds == ctx.titleIds
  {
  }

  lemma {:induction false} IdsStay(env: Env, ctx: Ctx, lines: seq<Line>, i: nat)
    requires NoIds(lines, i)
    ensures Fold(env, ctx, lines, i).titleIds == ctx.titleIds
    decreases |lines| - i
  {
    if i < |lines| {
      CompleteKeepsIds(env, ctx);
      IdsStay(env, Step(env, ctx, lines[i]), lines, i + 1);
    }
  }

  lemma {:induction false} EntriesHaveNone(lines: seq<Line>, i: nat, d: Doc, j: nat)
    requires DocAt(lines, i, d) && j <= |d.entries| && NoIds(lines, DocEnd(i, d))
    ensures NoIds(lines, i + 8 + j)
    decreases |d.entries| - j
  {
    if j < |d.entries| {
      assert lines[i + 8 + j] == Item(d.entries[j]);
      EntriesHaveNone(lines, i, d, j + 1);
    }
  }

  lemma {:induction false} DocsHaveNone(lines: seq<Line>, i: nat, docs: seq<Doc>, k: nat)
    requires DocsAt(lines, i, docs, k)
    ensures NoIds(lines, i)
    decreases |docs| - k
  {
    if k < |docs| {
      DocsHaveNone(lines, DocEnd(i, docs[k]), docs, k + 1);
      EntriesHaveNone(lines, i, docs[k], 0);
      assert NoIds(lines, i + 6);
      assert NoIds(lines, i + 4);
      assert NoIds(lines, i + 2);
    }
  }

  /** The identifiers of the file are those of its first line, in every mode. */
  lemma FileToIds(env: Env, lines: seq<LineReader.TextLine>, ss: seq<Source>, content: string, ids: seq<string>,
                  docs: seq<Doc>)
    requires Prints(lines, ss) && content == LineReader.PrintLines(lines, 0, [])
    requires FileOf(Strip(Meanings(ss), 0), ids, docs)
    ensures Run(env, LineReader.LinesAs(content, 0, Classify)).titleIds == ids
  {
    FileReads(lines, ss, content);
    var stripped := Strip(Meanings(ss), 0);
    RunStripped(env, Meanings(ss), stripped);
    DocsHaveNone(stripped, 1, docs, 0);
    var ctx := START.(titleIds := ids);
    assert Fold(env, START, stripped, 0) == Fold(env, ctx, stripped, 1);
    IdsStay(env, ctx, stripped, 1);
    CompleteKeepsIds(env, Fold(env, START, stripped, 0));
  }

  /** Listing a printed file of patches: one record for each version of each patch, with its number
      and fields, whatever the layout of its lines and the remarks between them. */
  lemma FileToRecords(env: Env, lines: seq<LineReader.TextLine>, ss: seq<Source>, content: string, ids: seq<string>,
                      docs: seq<Doc>)
    requires env.mode.Metadata? && Prints(lines, ss) && content == LineReader.PrintLines(lines, 0, [])
    requires FileOf(Strip(Meanings(ss), 0), ids, docs)
    ensures OutcomeOf(Run(env, LineReader.LinesAs(content, 0, Classify))) == Results([], AllRecords(env, docs, 0, 0))
  {
    FileReads(lines, ss, content);
    var stripped := Strip(Meanings(ss), 0);
    RunStripped(env, Meanings(ss), stripped);
    FileIsPlain(env, stripped, ids, docs);
    DocsListed(env, stripped, 1, docs, 0, 0);
  }

  /** Keeping the patches of one title: their versions for the game, each with all its entries. */
  lemma FileToPatches(env: Env, title: string, lines: seq<LineReader.TextLine>, ss: seq<Source>, content: string,
                      ids: seq<string>, docs: seq<Doc>)
    requires env.mode == All(Some(title)) && Prints(lines, ss) && content == LineReader.PrintLines(lines, 0, [])
    requires FileOf(Strip(Meanings(ss), 0), ids, docs)
    ensures OutcomeOf(Run(env, LineReader.LinesAs(content, 0, Classify)))
         == Results(AllKept(env, title, docs, 0, 0), [])
  {
    FileReads(lines, ss, content);
    var stripped := Strip(Meanings(ss), 0);
    RunStripped(env, Meanings(ss), stripped);
    FileIsPlain(env, stripped, ids, docs);
    DocsKept(env, title, stripped, 1, docs, 0, 0);
  }

  /** With the metadata of a game, a record says what the file says: the fields of the patch, the version
      at its place and a number that counts patches in hundreds. */
  lemma RecordFields(mode: Mode, game: Game, d: Doc, number: nat, k: nat)
    requires k < |d.versions|
    ensures var m := EnvOf(mode, game).metaOf(DocPatch(d), number, k);
            && m.number == 100 * number + k && m.title == Some(d.title) && m.name == Some(d.name)
            && m.author == Some(d.author) && m.version == Some(d.version) && m.appBin == Some(d.appBin)
            && m.appVer == Some(d.versions[k])
            && (m.matchesGame <==> d.versions[k] == game.appVer && game.appVer != "")
  {
    MetadataFields.TextsAndNumber(game, DocPatch(d), number, k);
    MetadataFields.ForTheGame(game, DocPatch(d), number, k);
  }
}
