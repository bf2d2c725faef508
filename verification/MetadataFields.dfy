/** What the metadata of a patch holds, field by field: the number and texts, the hash over its fields
    in order, and when it is for the game, switched on or a plugin (game_patch/patch.c:133-210).
  */
module MetadataFields {
  import opened CText
  import opened PatchFile
  import opened PatchMetadata
  import Fnv
  import Numbers
  import PatchState
  import Words

  // ----- The texts -----

  /** The number counts a hundred for each block and one for each version; the texts are those of the
      block, and the version is the one at the index, if there is one. */
  lemma TextsAndNumber(game: Game, p: Patch, number: nat, k: nat)
    ensures var m := MetaAt(game, p, number, k);
            && m.number == 100 * number + k && m.title == p.title && m.name == p.name && m.author == p.author
            && m.version == p.version && m.appBin == p.appBin
            && m.appVer == (if k < |p.appVers| then Some(p.appVers[k]) else None)
  {
  }

  /** It is for the game exactly when it names a version, and that is the game's and not empty. */
  lemma ForTheGame(game: Game, p: Patch, number: nat, k: nat)
    ensures MetaAt(game, p, number, k).matchesGame <==>
            k < |p.appVers| && p.appVers[k] == game.appVer && game.appVer != ""
  {
  }

  /** It is for a plugin exactly when one of four suffixes occurs in its executable. */
  lemma ForAPlugin(game: Game, p: Patch, number: nat, k: nat, bin: string)
    requires p.appBin == Some(bin)
    ensures MetaAt(game, p, number, k).isPrx <==>
            Occurs(bin, ".prx") || Occurs(bin, ".PRX") || Occurs(bin, ".sprx") || Occurs(bin, ".SPRX")
  {
    ContainsExactly(bin, ".prx");
    ContainsExactly(bin, ".PRX");
    ContainsExactly(bin, ".sprx");
    ContainsExactly(bin, ".SPRX");
  }

  // ----- Switched on -----

  /** For a state file that any run of writes and toggles made: the patch is enabled exactly when
      its hash was last switched on and its executable occurs in the path of the program; an empty
      name is found in every path but the empty one. */
  lemma EnabledExactly(game: Game, p: Patch, number: nat, k: nat, bin: string, exe: string, ops: seq<PatchState.Op>,
                       flags: PatchState.Flags)
    requires p.appBin == Some(bin) && game.exe == Some(exe)
    requires game.settings == PatchState.PerformAll(None, ops) && flags == PatchState.MeaningAll(map[], ops)
    requires |flags| < Words.WORD_SPAN
    ensures var m := MetaAt(game, p, number, k);
            m.enabled <==> m.hash in flags && flags[m.hash] && if bin == "" then exe != "" else Occurs(exe, bin)
  {
    var hash := MetaAt(game, p, number, k).hash;
    assert PatchState.Refines(None, map[]);
    PatchState.RunRefines(None, map[], ops);
    PatchState.LookupIsMap(PatchState.DecodeFile(game.settings), flags, hash);
    EmptyOccurs(exe, bin);
  }

  lemma EmptyOccurs(exe: string, bin: string)
    ensures Contains(exe, bin) <==> if bin == "" then exe != "" else Occurs(exe, bin)
  {
    if bin == "" {
      assert exe != "" ==> OccursAt(exe, bin, 0);
    } else {
      ContainsExactly(exe, bin);
    }
  }

  /** In particular: switched on last, and the program is started by a path that ends in the name of
      the executable, or has it anywhere. */
  lemma SwitchedOn(game: Game, p: Patch, number: nat, k: nat, before: string, bin: string, after: string,
                   ops: seq<PatchState.Op>, hash: Words.Word)
    requires p.appBin == Some(bin) && bin != "" && game.exe == Some(before + bin + after)
    requires hash == MetaAt(game, p, number, k).hash
    requires game.settings == PatchState.PerformAll(None, ops + [PatchState.Write(hash, true)])
    requires |PatchState.MeaningAll(map[], ops + [PatchState.Write(hash, true)])| < Words.WORD_SPAN
    ensures MetaAt(game, p, number, k).enabled
  {
    var all := ops + [PatchState.Write(hash, true)];
    LastWriteCounts(map[], ops, hash, true);
    var exe := before + bin + after;
    assert exe[|before|..|before| + |bin|] == bin;
    assert OccursAt(exe, bin, |before|);
    EnabledExactly(game, p, number, k, bin, exe, all, PatchState.MeaningAll(map[], all));
  }

  lemma {:induction false} LastWriteCounts(m: PatchState.Flags, ops: seq<PatchState.Op>, hash: Words.Word, on: bool)
    ensures var m' := PatchState.MeaningAll(m, ops + [PatchState.Write(hash, on)]); hash in m' && m'[hash] == on
    decreases |ops|
  {
    var all := ops + [PatchState.Write(hash, on)];
    if ops == [] {
      assert all[1..] == [];
      assert PatchState.MeaningAll(PatchState.Meaning(m, all[0]), all[1..]) == m[hash := on];
    } else {
      assert all[0] == ops[0] && all[1..] == ops[1..] + [PatchState.Write(hash, on)];
      LastWriteCounts(PatchState.Meaning(m, ops[0]), ops[1..], hash, on);
    }
  }

  /** Without a state file or without a program nothing is enabled. */
  lemma NothingOn(game: Game, p: Patch, number: nat, k: nat)
    requires game.exe == None || game.settings == None
    ensures !MetaAt(game, p, number, k).enabled
  {
  }

  // ----- The hash -----

  /** The bytes of a text are the codes of its characters. */
  lemma BytesOfText(s: string, k: nat)
    requires NulFree(s) && k < |s| && s[k] as int < 0x100
    ensures |AsBytes(s)| == |s| && AsBytes(s)[k] == s[k] as int
  {
    CutFacts(s);
  }

  lemma ChainCons(field: Words.Bytes, rest: seq<Words.Bytes>, base: Words.Word, signedChar: bool)
    ensures Fnv.Chain([field] + rest, base, signedChar)
         == Fnv.Chain(rest, Fnv.Hash(field, base, signedChar), signedChar)
  {
    assert ([field] + rest)[1..] == rest;
  }

  lemma ChainOfFour(a: Words.Bytes, b: Words.Bytes, c: Words.Bytes, d: Words.Bytes, base: Words.Word, signedChar: bool)
    returns (h: Words.Word)
    ensures var ab := Fnv.Hash(b, Fnv.Hash(a, base, signedChar), signedChar);
            h == Fnv.Hash(d, Fnv.Hash(c, ab, signedChar), signedChar)
    ensures Fnv.Chain([a, b, c, d], base, signedChar) == h
  {
    var h1 := Fnv.Hash(a, base, signedChar);
    var h2 := Fnv.Hash(b, h1, signedChar);
    var h3 := Fnv.Hash(c, h2, signedChar);
    h := Fnv.Hash(d, h3, signedChar);
    ChainCons(a, [b, c, d], base, signedChar);
    ChainCons(b, [c, d], h1, signedChar);
    ChainCons(c, [d], h2, signedChar);
    ChainCons(d, [], h3, signedChar);
    assert [a] + [b, c, d] == [a, b, c, d] && [b] + [c, d] == [b, c, d] && [c] + [d] == [c, d] && [d] + [] == [d];
  }

  lemma {:induction false} ChainAppend(a: seq<Words.Bytes>, b: seq<Words.Bytes>, base: Words.Word, signedChar: bool)
    ensures Fnv.Chain(a + b, base, signedChar) == Fnv.Chain(b, Fnv.Chain(a, base, signedChar), signedChar)
    decreases |a|
  {
    if a == [] {
      assert a + b == b;
    } else {
      assert (a + b)[1..] == a[1..] + b;
      ChainAppend(a[1..], b, Fnv.Hash(a[0], base, signedChar), signedChar);
    }
  }

  lemma ChainOfEight(f: seq<Words.Bytes>, base: Words.Word, sc: bool)
    requires |f| == 8
    ensures var h2 := Fnv.Hash(f[1], Fnv.Hash(f[0], base, sc), sc);
            var h4 := Fnv.Hash(f[3], Fnv.Hash(f[2], h2, sc), sc);
            var h6 := Fnv.Hash(f[5], Fnv.Hash(f[4], h4, sc), sc);
            Fnv.Chain(f, base, sc) == Fnv.Hash(f[7], Fnv.Hash(f[6], h6, sc), sc)
  {
    var front, back := [f[0], f[1], f[2], f[3]], [f[4], f[5], f[6], f[7]];
    assert f == front + back;
    ChainAppend(front, back, base, sc);
    var h4 := ChainOfFour(f[0], f[1], f[2], f[3], base, sc);
    var h8 := ChainOfFour(f[4], f[5], f[6], f[7], h4, sc);
  }

  function TextOr(t: Option<string>): string {
    if t.Some? then t.value else ""
  }

  lemma FieldList(game: Game, p: Patch, number: nat, k: nat, f: seq<Words.Bytes>)
    requires f == HashedFields(number * 100 + k, game.titleId, p, VersionAt(p, k))
    ensures |f| == 8 && f[0] == AsBytes(Numbers.Print(100 * number + k, 10)) && f[1] == AsBytes(game.titleId)
    ensures f[2] == AsBytes(TextOr(p.title)) && f[3] == AsBytes(TextOr(p.name)) && f[4] == AsBytes(TextOr(p.author))
    ensures f[5] == AsBytes(TextOr(p.version)) && f[6] == AsBytes(TextOr(p.appBin))
    ensures f[7] == AsBytes(if k < |p.appVers| then p.appVers[k] else "")
  {
  }

  lemma HashOfList(game: Game, p: Patch, number: nat, k: nat) returns (f: seq<Words.Bytes>)
    ensures f == HashedFields(number * 100 + k, game.titleId, p, VersionAt(p, k))
    ensures MetaAt(game, p, number, k).hash == Fnv.Chain(f, 0x811C_9DC5, game.signedChar)
  {
    f := HashedFields(number * 100 + k, game.titleId, p, VersionAt(p, k));
  }

  /** What is hashed, in order: the number in decimal on top of the offset basis, then the identifier of
      the game, title, name, author, version, executable and game version, empty for what is missing. */
  lemma HashedInOrder(game: Game, p: Patch, number: nat, k: nat)
    ensures var m := MetaAt(game, p, number, k);
            var sc := game.signedChar;
            var h1 := Fnv.Hash(AsBytes(Numbers.Print(100 * number + k, 10)), 0x811C_9DC5, sc);
            var h2 := Fnv.Hash(AsBytes(game.titleId), h1, sc);
            var h3 := Fnv.Hash(AsBytes(TextOr(p.title)), h2, sc);
            var h4 := Fnv.Hash(AsBytes(TextOr(p.name)), h3, sc);
            var h5 := Fnv.Hash(AsBytes(TextOr(p.author)), h4, sc);
            var h6 := Fnv.Hash(AsBytes(TextOr(p.version)), h5, sc);
            var h7 := Fnv.Hash(AsBytes(TextOr(p.appBin)), h6, sc);
            m.hash == Fnv.Hash(AsBytes(if k < |p.appVers| then p.appVers[k] else ""), h7, sc)
  {
    var f := HashOfList(game, p, number, k);
    FieldList(game, p, number, k, f);
    ChainOfEight(f, 0x811C_9DC5, game.signedChar);
  }
}
