/** How the metadata of a patch is computed: its identifier, whether it is for the running game
    and whether it is switched on (game_patch/patch.c:133-210).
  */
module PatchMetadata {
  import opened CText
  import opened PatchLines
  import opened PatchFile
  import LowMemory
  import Fnv
  import Numbers
  import PatchState
  import Words

  /** The running game: its identifier and version, the program that runs, if known, and the
      file of enabled patches. */
  datatype Game = Game(titleId: string, appVer: string, exe: Option<string>, settings: Option<Words.Bytes>,
                       signedChar: bool)

  /** The bytes of a C string. No character of a file is above 255. */
  function AsBytes(s: string): (b: Words.Bytes)
    ensures |b| == |Cut(s)| && Fnv.ZeroFree(b)
  {
    CutFacts(s);
    var t := Cut(s);
    seq(|t|, i requires 0 <= i < |t| => if t[i] as int < 0x100 then t[i] as int else 0xFF)
  }

  function OrEmpty(s: Option<string>): string {
    if s.Some? then s.value else ""
  }

  /** What identifies a patch, in the order in which it is hashed. */
  function HashedFields(number: nat, titleId: string, p: Patch, appVer: Option<string>): seq<Words.Bytes> {
    [AsBytes(Numbers.Print(number, 10)), AsBytes(titleId), AsBytes(OrEmpty(p.title)), AsBytes(OrEmpty(p.name)),
     AsBytes(OrEmpty(p.author)), AsBytes(OrEmpty(p.version)), AsBytes(OrEmpty(p.appBin)), AsBytes(OrEmpty(appVer))]
  }

  function PatchHash(game: Game, number: nat, p: Patch, appVer: Option<string>): Words.Word {
    Fnv.Chain(HashedFields(number, game.titleId, p, appVer), Fnv.OFFSET_BASIS, game.signedChar)
  }

  predicate IsPrx(appBin: string) {
    Contains(appBin, ".prx") || Contains(appBin, ".PRX") || Contains(appBin, ".sprx") || Contains(appBin, ".SPRX")
  }

  predicate Enabled(game: Game, hash: Words.Word, appBin: string) {
    && PatchState.ReadEffect(game.settings, hash) == 1
    && game.exe.Some? && Contains(game.exe.value, appBin)
  }

  /** The metadata of version `k` of the block numbered `number`. */
  function MetaAt(game: Game, p: Patch, number: nat, k: nat): Meta {
    var unique := number * 100 + k;
    var hash := PatchHash(game, unique, p, VersionAt(p, k));
    Meta(hash, unique, p.title, p.name, p.author, p.version, p.appBin, VersionAt(p, k),
         MatchesGame(game.appVer, VersionAt(p, k)), Enabled(game, hash, OrEmpty(p.appBin)), IsPrx(OrEmpty(p.appBin)))
  }

  function EnvOf(mode: Mode, game: Game): Env {
    Env(mode, game.appVer, (p: Patch, number: nat, k: nat) => MetaAt(game, p, number, k))
  }

  lemma EnvIsFaithful(mode: Mode, game: Game)
    ensures Faithful(EnvOf(mode, game))
  {
  }

  /** The hash of a patch is one hash of its number and fields written one after the other, as
      long as no value in between is zero. */
  lemma PatchHashIsJoined(game: Game, number: nat, p: Patch, appVer: Option<string>)
    requires Fnv.NoZeroBetween(HashedFields(number, game.titleId, p, appVer), Fnv.OFFSET_BASIS, game.signedChar)
    ensures PatchHash(game, number, p, appVer)
         == Fnv.Hash(Fnv.Joined(HashedFields(number, game.titleId, p, appVer)), Fnv.OFFSET_BASIS, game.signedChar)
  {
    Fnv.ChainIsOneHash(HashedFields(number, game.titleId, p, appVer), Fnv.OFFSET_BASIS, game.signedChar);
  }

  // ----- A file on which the carried flag does harm -----

  const EBOOT: string := "EBOOT.BIN"
  const ENTRY: seq<string> := ["byte", "0x10000", "1"]

  function OneVersion(title: string, appVer: string): Patch {
    NO_PATCH.(title := Some(title), appBin := Some(EBOOT), appVers := [appVer])
  }

  /** A patch without entries for version 1, then one with an entry for version 2. */
  function TwoBlocks(): seq<Line> {
    [Block, Field(Title, Some("A")), Field(AppBin, Some(EBOOT)), Version(Some("1")), Patches,
     Block, Field(Title, Some("B")), Field(AppBin, Some(EBOOT)), Version(Some("2")), Patches, Item(ENTRY)]
  }

  /** Version 1 of a game, with both patches switched on. */
  function BothOn(titleId: string, signedChar: bool): Game {
    var game := Game(titleId, "1", Some(EBOOT), None, signedChar);
    var a := PatchHash(game, 0, OneVersion("A", "1"), Some("1"));
    var b := PatchHash(game, 100, OneVersion("B", "2"), Some("2"));
    game.(settings := Some(PatchState.EncodeFile([PatchState.State(a, 1), PatchState.State(b, 1)])))
  }

  lemma BothHashesOn(a: Words.Word, b: Words.Word, game: Game)
    requires game.settings == Some(PatchState.EncodeFile([PatchState.State(a, 1), PatchState.State(b, 1)]))
    requires game.exe == Some(EBOOT)
    ensures Enabled(game, a, EBOOT) && Enabled(game, b, EBOOT)
  {
    var states := [PatchState.State(a, 1), PatchState.State(b, 1)];
    PatchState.FileRoundTrip(states);
    assert PatchState.RecordIndex(states, a, 0) == 0;
    assert PatchState.RecordIndex(states, b, 0) == if a == b then 0 else 1;
    assert OccursAt(EBOOT, EBOOT, 0);
  }

  /** One of the blocks, from `s` up to `h`. */
  predicate LaidOut(lines: seq<Line>, s: nat, h: nat, title: string, appVer: string) {
    && s + 4 <= h <= s + 5 && h <= |lines| && (h < |lines| ==> lines[h].Block?)
    && lines[s] == Field(Title, Some(title)) && lines[s + 1] == Field(AppBin, Some(EBOOT))
    && lines[s + 2] == Version(Some(appVer)) && lines[s + 3] == Patches
    && (h == s + 5 ==> lines[s + 4].Item? && |lines[s + 4].params| >= MIN_PATCH_PARAMS)
  }

  lemma LaidOutIsShaped(lines: seq<Line>, s: nat, h: nat, title: string, appVer: string)
    requires LaidOut(lines, s, h, title, appVer)
    ensures NextBlock(lines, s) == h && LowMemory.Shaped(lines, s, h)
  {
    assert NextBlock(lines, s + 2) == h by {
      assert NextBlock(lines, s + 4) == h;
    }
    assert FirstPatches(lines, s + 2, h) == s + 3;
    assert FirstPatches(lines, s, h) == s + 3;
    assert LastField(lines, s, s + 1, Title) == Some(title);
    assert LastField(lines, s, s + 2, AppBin) == Some(EBOOT);
  }

  lemma LaidOutReads(lines: seq<Line>, s: nat, h: nat, title: string, appVer: string)
    requires LaidOut(lines, s, h, title, appVer)
    ensures ReadBlock(lines, s, h) == BlockText(OneVersion(title, appVer), true,
                                              if h == s + 4 then [] else [lines[s + 4].params])
  {
    assert ReadBlock(lines, s, s + 1) == EMPTY_BLOCK.(patch := NO_PATCH.(title := Some(title)));
    assert ReadBlock(lines, s, s + 3) == EMPTY_BLOCK.(patch := OneVersion(title, appVer));
    assert ReadBlock(lines, s, s + 4) == BlockText(OneVersion(title, appVer), true, []);
  }

  lemma TwoBlocksLaidOut(lines: seq<Line>)
    requires lines == TwoBlocks()
    ensures |lines| == 11 && lines[0] == Block && lines[10] == Item(ENTRY)
    ensures LaidOut(lines, 1, 5, "A", "1") && LaidOut(lines, 6, 11, "B", "2")
  {
  }

  lemma TwoBlocksRead(lines: seq<Line>)
    requires |lines| == 11 && lines[0] == Block && lines[10] == Item(ENTRY)
    requires LaidOut(lines, 1, 5, "A", "1") && LaidOut(lines, 6, 11, "B", "2")
    ensures LowMemory.ShapedFile(lines, 0) && NextBlock(lines, 1) == 5 && NextBlock(lines, 6) == 11
    ensures ReadBlock(lines, 1, 5) == BlockText(OneVersion("A", "1"), true, [])
    ensures ReadBlock(lines, 6, 11) == BlockText(OneVersion("B", "2"), true, [ENTRY])
  {
    LaidOutIsShaped(lines, 1, 5, "A", "1");
    LaidOutIsShaped(lines, 6, 11, "B", "2");
    LaidOutReads(lines, 1, 5, "A", "1");
    LaidOutReads(lines, 6, 11, "B", "2");
  }

  lemma BothEnabled(titleId: string, signedChar: bool, env: Env)
    requires env == EnvOf(LowMem, BothOn(titleId, signedChar))
    ensures env.metaOf(OneVersion("A", "1"), 0, 0).enabled && env.metaOf(OneVersion("B", "2"), 1, 0).enabled
  {
    var game := BothOn(titleId, signedChar);
    BothHashesOn(PatchHash(game, 0, OneVersion("A", "1"), Some("1")),
                 PatchHash(game, 100, OneVersion("B", "2"), Some("2")), game);
  }

  lemma LeakingBlocks(env: Env)
    requires env.gameVer == "1"
    requires env.metaOf(OneVersion("A", "1"), 0, 0).enabled && env.metaOf(OneVersion("B", "2"), 1, 0).enabled
    ensures LowMemory.Settled(env, OneVersion("A", "1"), 0) && LowMemory.EnabledFor(env, OneVersion("A", "1"), 0)
    ensures LowMemory.Foreign(env, OneVersion("B", "2"), 1)
  {
    assert VersionAt(OneVersion("A", "1"), 0) == Some("1") && VersionAt(OneVersion("B", "2"), 0) == Some("2");
  }

  lemma OneChange(a: Meta, b: Meta, entry: seq<string>)
    ensures LowMemory.ChangesOf(a, []) == []
    ensures LowMemory.ChangesOf(a, []) + LowMemory.ChangesOf(b, [entry]) == [LowMemory.Change(b.number, entry)]
  {
  }

  lemma Leaks(env: Env, lines: seq<Line>)
    requires env.mode.LowMem? && env.gameVer == "1" && lines == TwoBlocks() && Faithful(env)
    requires env.metaOf(OneVersion("A", "1"), 0, 0).enabled && env.metaOf(OneVersion("B", "2"), 1, 0).enabled
    ensures LowMemory.Applied(Run(env, lines).calls) == [LowMemory.Change(100, ENTRY)] &&
            LowMemory.BatchEntries(env, lines, 1, 0) == []
  {
    TwoBlocksLaidOut(lines);
    TwoBlocksRead(lines);
    LeakingBlocks(env);
    LowMemory.RunStreams(env, lines, 0);
    LowMemory.CarriedFlagLeaks(env, lines, 1, 5, 0, false);
    OneChange(env.metaOf(OneVersion("A", "1"), 0, 0), env.metaOf(OneVersion("B", "2"), 1, 0), ENTRY);
  }

  /** Version 1 of the game gets the entry of the patch for version 2; reading the blocks as a
      whole, it would get none. */
  lemma FlagLeaks(titleId: string, signedChar: bool)
    ensures var env := EnvOf(LowMem, BothOn(titleId, signedChar));
            LowMemory.Applied(Run(env, TwoBlocks()).calls) == [LowMemory.Change(100, ENTRY)] &&
              LowMemory.BatchEntries(env, TwoBlocks(), 1, 0) == []
  {
    var env := EnvOf(LowMem, BothOn(titleId, signedChar));
    BothEnabled(titleId, signedChar, env);
    EnvIsFaithful(LowMem, BothOn(titleId, signedChar));
    Leaks(env, TwoBlocks());
  }
}
