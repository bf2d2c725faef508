/** Exactly which patches the collecting modes crash on: those that lack what is copied or compared
    (game_patch/patch.c:170-210, 231-328).
  */
module Crashes {
  import opened CText
  import opened PatchLines
  import opened PatchFile

  /** Some text that is copied for every version was never set, or has no value. */
  predicate Lacking(lines: seq<Line>, s: nat, h: nat)
    requires s <= h <= |lines|
  {
    || LastField(lines, s, h, PatchName).None? || LastField(lines, s, h, Author).None?
    || LastField(lines, s, h, PatchVersion).None? || LastField(lines, s, h, AppBin).None?
  }

  lemma Fields(lines: seq<Line>, s: nat, h: nat, p: Patch)
    requires s <= h <= |lines| && p == ReadBlock(lines, s, h).patch
    ensures p.title == LastField(lines, s, h, Title) && p.appVers == LastVersions(lines, s, h)
    ensures Lacking(lines, s, h) <==> p.name.None? || p.author.None? || p.version.None? || p.appBin.None?
  {
    BlockFields(lines, s, h, Title);
    BlockFields(lines, s, h, PatchName);
    BlockFields(lines, s, h, Author);
    BlockFields(lines, s, h, PatchVersion);
    BlockFields(lines, s, h, AppBin);
  }

  lemma ListingFaults(env: Env, p: Patch)
    requires env.mode.Metadata? && p.title.Some?
    ensures BlockFaults(env, p) <==>
            p.appVers == [] || p.name.None? || p.author.None? || p.version.None? || p.appBin.None?
  {
    assert VersionFaults(env, p, 0) <==> MetaFaults(env.mode, p, 0);
    if BlockFaults(env, p) {
      var k :| 0 <= k < VersionCount(p) && VersionFaults(env, p, k);
      assert MetaFaults(env.mode, p, k);
    }
  }

  /** Listing crashes on a block if and only if it has a title, but names no version, or lacks its
      name, author, version or executable. */
  lemma ListingCrashesExactly(env: Env, lines: seq<Line>, s: nat, h: nat, number: nat)
    requires env.mode.Metadata? && s <= h <= |lines|
    ensures BlockOutcome(env, ReadBlock(lines, s, h), number) == Crash <==>
            && LastField(lines, s, h, Title).Some?
            && (LastVersions(lines, s, h) == [] || Lacking(lines, s, h))
  {
    var p := ReadBlock(lines, s, h).patch;
    Fields(lines, s, h, p);
    if p.title.Some? {
      ListingFaults(env, p);
    }
  }

  lemma KeepingFaults(env: Env, p: Patch)
    requires env.mode.All? && p.title.Some?
    ensures BlockFaults(env, p) <==>
            p.appVers == [] ||
            (env.gameVer in p.appVers && (p.name.None? || p.author.None? || p.version.None? || p.appBin.None?))
  {
    if p.appVers == [] {
      assert VersionFaults(env, p, 0);
    } else if env.gameVer in p.appVers {
      var k :| 0 <= k < |p.appVers| && p.appVers[k] == env.gameVer;
      assert VersionFaults(env, p, k) <==> MetaFaults(env.mode, p, k);
    }
  }

  /** Keeping compares every version, and copies the block only for the game's: it crashes if and only
      if the block has a title and no version, or lists the game's version and lacks such a text. */
  lemma KeepingCrashesExactly(env: Env, lines: seq<Line>, s: nat, h: nat, number: nat)
    requires env.mode.All? && s <= h <= |lines|
    ensures BlockOutcome(env, ReadBlock(lines, s, h), number) == Crash <==>
            && LastField(lines, s, h, Title).Some?
            && var versions := LastVersions(lines, s, h);
               versions == [] || (env.gameVer in versions && Lacking(lines, s, h))
  {
    var p := ReadBlock(lines, s, h).patch;
    Fields(lines, s, h, p);
    if p.title.Some? {
      KeepingFaults(env, p);
    }
  }

  /** Some block of the file crashes. */
  predicate SomeCrash(env: Env, lines: seq<Line>, s: nat, number: nat)
    requires s <= |lines|
    decreases |lines| - s
  {
    var h := BlockEnd(lines, s, s);
    || BlockOutcome(env, ReadBlock(lines, s, h), number) == Crash
    || (h < |lines| && SomeCrash(env, lines, h + 1, number + 1))
  }

  lemma {:induction false} BlocksCrashExactly(env: Env, lines: seq<Line>, s: nat, number: nat)
    requires s <= |lines|
    ensures BlocksFrom(env, lines, s, s, number) == Crash <==> SomeCrash(env, lines, s, number)
    decreases |lines| - s
  {
    var h := BlockEnd(lines, s, s);
    if h < |lines| {
      BlocksCrashExactly(env, lines, h + 1, number + 1);
    }
  }

  /** A run of the collecting modes crashes if and only if one of its blocks does. */
  lemma RunCrashesExactly(env: Env, lines: seq<Line>)
    requires !env.mode.LowMem?
    ensures Run(env, lines).faulted <==> SomeCrash(env, lines, 0, 0)
  {
    RunIsBlocks(env, lines);
    BlocksCrashExactly(env, lines, 0, 0);
  }
}
