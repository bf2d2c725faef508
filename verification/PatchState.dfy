/** The file of enabled patches: header, records, both readers, the writer and the toggle
    (game_patch/patch.c:849-1069), as a finite map from patch hashes to flags.
  */
module PatchState {
  import opened CText
  import opened Words

  const MAGIC: Word := 0x494C_4E59
  const VERSION: Word := 1
  const HEADER_BYTES: nat := 12
  const STATE_BYTES: nat := 5

  datatype State = State(hash: Word, enabled: Byte)

  // ----- Encoding -----

  function WordBytes(w: Word): (b: Bytes)
    ensures |b| == 4
  {
    var v: int := w;
    [v / 0x100_0000, v / 0x1_0000 % 0x100, v / 0x100 % 0x100, v % 0x100]
  }

  function Assemble(b0: int, b1: int, b2: int, b3: int): (w: Word)
    requires 0 <= b0 < 0x100 && 0 <= b1 < 0x100 && 0 <= b2 < 0x100 && 0 <= b3 < 0x100
  {
    b0 * 0x100_0000 + b1 * 0x1_0000 + b2 * 0x100 + b3
  }

  function WordAt(b: Bytes, i: nat): Word
    requires i + 4 <= |b|
  {
    Assemble(b[i], b[i + 1], b[i + 2], b[i + 3])
  }

  lemma WordRoundTrip(w: Word)
    ensures WordAt(WordBytes(w), 0) == w
  {
    var v: int := w;
    var hi, lo := v / 0x1_0000, v % 0x1_0000;
    assert v / 0x100_0000 == hi / 0x100;
    assert v / 0x100 % 0x100 == lo / 0x100;
    assert v % 0x100 == lo % 0x100;
  }

  /** Four bytes of a word, found anywhere. */
  lemma WordFound(b: Bytes, i: nat, w: Word)
    requires i + 4 <= |b| && forall k :: 0 <= k < 4 ==> WordBytes(w)[k] == b[i + k]
    ensures WordAt(b, i) == w
  {
    WordRoundTrip(w);
    assert WordBytes(w)[0] == b[i + 0] && WordBytes(w)[1] == b[i + 1];
    assert WordBytes(w)[2] == b[i + 2] && WordBytes(w)[3] == b[i + 3];
  }

  /** Three words in front, whatever follows. */
  lemma WordsInFront(x: Word, y: Word, z: Word, rest: Bytes)
    ensures var b := WordBytes(x) + WordBytes(y) + WordBytes(z) + rest;
            WordAt(b, 0) == x && WordAt(b, 4) == y && WordAt(b, 8) == z
  {
    var b := WordBytes(x) + WordBytes(y) + WordBytes(z) + rest;
    WordFound(b, 0, x);
    WordFound(b, 4, y);
    WordFound(b, 8, z);
  }

  /** Byte `j` of the records. */
  function StateByte(states: seq<State>, j: nat): Byte
    requires j < STATE_BYTES * |states|
  {
    var s := states[j / STATE_BYTES];
    if j % STATE_BYTES == 4 then s.enabled else WordBytes(s.hash)[j % STATE_BYTES]
  }

  function EncodeStates(states: seq<State>): (b: Bytes)
    ensures |b| == STATE_BYTES * |states|
  {
    seq(STATE_BYTES * |states|, j requires 0 <= j < STATE_BYTES * |states| => StateByte(states, j))
  }

  function EncodeFile(states: seq<State>): (b: Bytes)
    ensures |b| == HEADER_BYTES + STATE_BYTES * |states|
  {
    WordBytes(MAGIC) + WordBytes(VERSION) + WordBytes(|states| % WORD_SPAN) + EncodeStates(states)
  }

  // ----- The readers -----

  function StateAt(b: Bytes, i: nat): State
    requires HEADER_BYTES + STATE_BYTES * (i + 1) <= |b|
  {
    State(WordAt(b, HEADER_BYTES + STATE_BYTES * i), b[HEADER_BYTES + STATE_BYTES * i + 4])
  }

  function StatesOf(b: Bytes, count: nat): (states: seq<State>)
    requires HEADER_BYTES + STATE_BYTES * count <= |b|
    ensures |states| == count
  {
    seq(count, i requires 0 <= i < count => StateAt(b, i))
  }

  /** The reader of the writing program: any defect means no states. */
  function DecodeFile(file: Option<Bytes>): seq<State> {
    if file.None? || |file.value| < HEADER_BYTES then []
    else
      var b := file.value;
      if WordAt(b, 0) != MAGIC || WordAt(b, 4) != VERSION then []
      else if HEADER_BYTES + STATE_BYTES * WordAt(b, 8) > |b| then []
      else StatesOf(b, WordAt(b, 8))
  }

  /** What the reader on the console hands over: the count it claims and the bytes of its array. */
  datatype Loaded = Loaded(count: Word, records: Bytes)

  const NOTHING: Loaded := Loaded(0, [])

  /** The array is as long as the count says, so that no walk over it leaves it. */
  predicate Sound(l: Loaded) {
    |l.records| == STATE_BYTES * l.count
  }

  function Records(l: Loaded): (states: seq<State>)
    requires Sound(l)
    ensures |states| == l.count
  {
    seq(l.count, i requires 0 <= i < l.count =>
      State(WordAt(l.records, STATE_BYTES * i), l.records[STATE_BYTES * i + 4]))
  }

  /** The bytes asked for, in the 32 bits of a size on the console. */
  function ArrayBytes(count: Word): (n: Word)
    ensures count > 0 ==> n > 0
    ensures n == STATE_BYTES * count <==> STATE_BYTES * count < WORD_SPAN
  {
    STATE_BYTES * count % WORD_SPAN
  }

  /** The reader on the console. A header that is read only in part keeps the bytes of `junk`
      that were on the stack. */
  function DecodeOnConsole(file: Option<Bytes>, junk: Bytes): Loaded
    requires |junk| == HEADER_BYTES
  {
    if file.None? || |file.value| == 0 then NOTHING
    else
      var b := file.value;
      var header := if |b| >= HEADER_BYTES then b[..HEADER_BYTES] else b + junk[|b|..];
      var read := if |b| >= HEADER_BYTES then HEADER_BYTES else |b|;
      if WordAt(header, 0) != MAGIC || WordAt(header, 4) != VERSION then NOTHING
      else
        var count := WordAt(header, 8);
        var n: int := ArrayBytes(count);
        if count == 0 || |b| - read < n then NOTHING else Loaded(count, b[read..read + n])
  }

  predicate GoodHeader(file: Option<Bytes>) {
    file.Some? && |file.value| >= HEADER_BYTES && WordAt(file.value, 0) == MAGIC && WordAt(file.value, 4) == VERSION
  }

  /** The reader on the console hands over exactly the records that the other reader sees. */
  predicate Agree(file: Option<Bytes>, junk: Bytes)
    requires |junk| == HEADER_BYTES
  {
    Sound(DecodeOnConsole(file, junk)) && Records(DecodeOnConsole(file, junk)) == DecodeFile(file)
  }

  /** What the console does with a good header. */
  lemma ConsoleReads(file: Option<Bytes>, junk: Bytes)
    requires |junk| == HEADER_BYTES && GoodHeader(file)
    ensures var b, count := file.value, WordAt(file.value, 8);
            var n: int := ArrayBytes(count);
            DecodeOnConsole(file, junk) == if count == 0 || |b| - HEADER_BYTES < n then NOTHING
                                           else Loaded(count, b[HEADER_BYTES..HEADER_BYTES + n])
  {
  }

  lemma BadHeader(file: Option<Bytes>, junk: Bytes)
    requires |junk| == HEADER_BYTES && !GoodHeader(file)
    ensures DecodeOnConsole(file, junk) == NOTHING && DecodeFile(file) == []
  {
  }

  lemma SameRecords(b: Bytes, count: Word)
    requires HEADER_BYTES + STATE_BYTES * count <= |b|
    ensures Records(Loaded(count, b[HEADER_BYTES..HEADER_BYTES + STATE_BYTES * count])) == StatesOf(b, count)
  {
    var l := Loaded(count, b[HEADER_BYTES..HEADER_BYTES + STATE_BYTES * count]);
    forall i | 0 <= i < count
      ensures Records(l)[i] == StatesOf(b, count)[i]
    {
    }
  }

  /** For any file and whatever was on the stack: the two readers agree, and nothing can be read
      past the end of the array, if and only if the size of the records does not wrap or not even
      the wrapped size is there to be read. */
  lemma ReadersAgreeExactly(file: Option<Bytes>, junk: Bytes)
    requires |junk| == HEADER_BYTES
    ensures Agree(file, junk) <==>
            (GoodHeader(file) ==>
              var count: int := WordAt(file.value, 8);
              STATE_BYTES * count < WORD_SPAN || |file.value| - HEADER_BYTES < STATE_BYTES * count % WORD_SPAN)
    ensures Agree(file, junk) <==> Sound(DecodeOnConsole(file, junk))
  {
    if GoodHeader(file) {
      ConsoleReads(file, junk);
      var count := WordAt(file.value, 8);
      if HEADER_BYTES + STATE_BYTES * count <= |file.value| {
        SameRecords(file.value, count);
      }
    } else {
      BadHeader(file, junk);
    }
  }

  /** A header that claims 858993460 records, and four more bytes: the size wraps to four. */
  function WrappingFile(tail: Word): Bytes {
    WordBytes(MAGIC) + WordBytes(VERSION) + WordBytes(0x3333_3334) + WordBytes(tail)
  }

  lemma ClaimWraps(file: Bytes, claim: Word, tail: Bytes)
    requires |tail| == 4 && |file| == 16 && file[12..] == tail && claim == 0x3333_3334
    requires WordAt(file, 0) == MAGIC && WordAt(file, 4) == VERSION && WordAt(file, 8) == claim
    ensures DecodeFile(Some(file)) == [] && ArrayBytes(claim) == 4 && !Sound(Loaded(claim, tail))
    ensures forall junk: Bytes :: |junk| == HEADER_BYTES ==> DecodeOnConsole(Some(file), junk) == Loaded(claim, tail)
  {
    assert file[12..16] == file[12..];
  }

  /** One reader finds nothing; the console claims all the records and has four bytes of them. */
  lemma WrappedSizeMisreads(tail: Word, junk: Bytes)
    requires |junk| == HEADER_BYTES
    ensures var file := Some(WrappingFile(tail));
            && DecodeFile(file) == [] && DecodeOnConsole(file, junk) == Loaded(0x3333_3334, WordBytes(tail))
            && !Agree(file, junk)
  {
    var b := WrappingFile(tail);
    WordsInFront(MAGIC, VERSION, 0x3333_3334, WordBytes(tail));
    assert b[12..] == WordBytes(tail);
    ClaimWraps(b, 0x3333_3334, WordBytes(tail));
  }

  // ----- Lookup and update -----

  /** The first record of `hash` from `i` on, or the length. */
  function RecordIndex(states: seq<State>, hash: Word, i: nat): (r: nat)
    requires i <= |states|
    ensures i <= r <= |states| && (r < |states| ==> states[r].hash == hash)
    ensures forall j :: i <= j < r ==> states[j].hash != hash
    decreases |states| - i
  {
    if i == |states| || states[i].hash == hash then i else RecordIndex(states, hash, i + 1)
  }

  function Flag(enabled: bool): Byte {
    if enabled then 1 else 0
  }

  function Updated(states: seq<State>, hash: Word, enabled: bool): seq<State> {
    var k := RecordIndex(states, hash, 0);
    if k < |states| then states[k := State(hash, Flag(enabled))] else states + [State(hash, Flag(enabled))]
  }

  function Lookup(states: seq<State>, hash: Word): (r: int)
    ensures r in {-1, 0, 1}
  {
    var k := RecordIndex(states, hash, 0);
    if k == |states| then -1 else if states[k].enabled != 0 then 1 else 0
  }

  /** The first record of a hash decides, and any flag but zero is on. */
  lemma FirstRecordDecides(states: seq<State>, k: nat, hash: Word)
    requires k <= |states| && (k < |states| ==> states[k].hash == hash)
    requires forall j :: 0 <= j < k ==> states[j].hash != hash
    ensures Lookup(states, hash) == if k == |states| then -1 else if states[k].enabled == 0 then 0 else 1
  {
  }

  /** A write replaces the first record of its hash where it stands, or adds one at the end; the flag
      is 1 or 0. */
  lemma WriteReplaces(states: seq<State>, k: nat, hash: Word, enabled: bool)
    requires k <= |states| && (k < |states| ==> states[k].hash == hash)
    requires forall j :: 0 <= j < k ==> states[j].hash != hash
    ensures var record := State(hash, if enabled then 1 else 0);
            Updated(states, hash, enabled)
            == if k < |states| then states[..k] + [record] + states[k + 1..] else states + [record]
  {
  }

  function WriteEffect(file: Option<Bytes>, hash: Word, enabled: bool): Bytes {
    EncodeFile(Updated(DecodeFile(file), hash, enabled))
  }

  function ReadEffect(file: Option<Bytes>, hash: Word): int {
    Lookup(DecodeFile(file), hash)
  }

  /** What a toggle writes: an unknown hash becomes enabled. */
  function ToggledValue(file: Option<Bytes>, hash: Word): bool {
    ReadEffect(file, hash) != 1
  }

  /** The loop of read_patch_state over what the console loaded; nothing when it leaves the array. */
  function LookupLoaded(l: Loaded, hash: Word): Option<int>
    requires |l.records| <= STATE_BYTES * l.count
  {
    var whole := |l.records| / STATE_BYTES;
    var held := Loaded(whole, l.records[..STATE_BYTES * whole]);
    if RecordIndex(Records(held), hash, 0) < whole || whole == l.count then Some(Lookup(Records(held), hash)) else None
  }

  /** The console gives the same answer as the other reader about any hash when they agree, and
      leaves its array on a file whose size wraps to less than one record. */
  lemma ConsoleAnswers(file: Option<Bytes>, junk: Bytes, hash: Word)
    requires |junk| == HEADER_BYTES
    ensures |DecodeOnConsole(file, junk).records| <= STATE_BYTES * DecodeOnConsole(file, junk).count
    ensures Agree(file, junk) ==> LookupLoaded(DecodeOnConsole(file, junk), hash) == Some(ReadEffect(file, hash))
    ensures forall tail :: file == Some(WrappingFile(tail)) ==> LookupLoaded(DecodeOnConsole(file, junk), hash) == None
  {
    var l := DecodeOnConsole(file, junk);
    if GoodHeader(file) {
      ConsoleReads(file, junk);
    } else {
      BadHeader(file, junk);
    }
    if Agree(file, junk) {
      assert l.records[..STATE_BYTES * l.count] == l.records;
    }
    forall tail | file == Some(WrappingFile(tail))
      ensures LookupLoaded(l, hash) == None
    {
      WrappedSizeMisreads(tail, junk);
    }
  }

  // ----- The methods -----

  class StateFile {
    var bytes: Option<Bytes>

    constructor ()
      ensures bytes == None
    {
      bytes := None;
    }

    method ReadStates() returns (states: array<State>)
      ensures fresh(states) && states[..] == DecodeFile(bytes)
    {
      var decoded := DecodeFile(bytes);
      states := new State[|decoded|](i requires 0 <= i < |decoded| => decoded[i]);
    }

    method WritePatchState(hash: Word, enabled: bool)
      modifies this
      ensures bytes == Some(WriteEffect(old(bytes), hash, enabled))
    {
      var states := ReadStates();
      ghost var before := states[..];
      var found := false;
      var i := 0;
      while i < states.Length && !found
        invariant i <= states.Length && bytes == old(bytes)
        invariant if found then states[..] == Updated(before, hash, enabled) && RecordIndex(before, hash, 0) < |before|
                  else states[..] == before && RecordIndex(before, hash, 0) == RecordIndex(before, hash, i)
        decreases states.Length - i, !found
      {
        if states[i].hash == hash {
          states[i] := states[i].(enabled := Flag(enabled));
          found := true;
        } else {
          i := i + 1;
        }
      }
      if !found {
        var count := states.Length;
        var grown := new State[count + 1](_ => State(hash, Flag(enabled)));
        forall k | 0 <= k < count {
          grown[k] := states[k];
        }
        assert grown[..] == before + [State(hash, Flag(enabled))];
        states := grown;
      }
      bytes := Some(EncodeFile(states[..]));
    }

    method ReadPatchState(hash: Word) returns (result: int)
      ensures result == ReadEffect(bytes, hash)
    {
      var states := ReadStates();
      ghost var decoded := states[..];
      result := -1;
      var i := 0;
      while i < states.Length
        invariant i <= states.Length && states[..] == decoded &&
                  RecordIndex(decoded, hash, 0) == RecordIndex(decoded, hash, i)
      {
        if states[i].hash == hash {
          return if states[i].enabled != 0 then 1 else 0;
        }
        i := i + 1;
      }
    }

    /** Returns the new state. */
    method TogglePatchState(hash: Word) returns (state: int)
      modifies this
      ensures bytes == Some(WriteEffect(old(bytes), hash, ToggledValue(old(bytes), hash)))
      ensures state == if ToggledValue(old(bytes), hash) then 1 else 0
    {
      var current := ReadPatchState(hash);
      if current == -1 {
        WritePatchState(hash, true);
        return 1;
      }
      var newState := current == 0;
      WritePatchState(hash, newState);
      return if newState then 1 else 0;
    }
  }

  // ----- What the writer wrote is what both readers read -----

  lemma RecordByte(states: seq<State>, b: Bytes, i: nat, k: nat)
    requires b == EncodeFile(states) && i < |states| && k < STATE_BYTES
    ensures b[HEADER_BYTES + STATE_BYTES * i + k] == if k == 4 then states[i].enabled else WordBytes(states[i].hash)[k]
  {
    var j := STATE_BYTES * i + k;
    assert j / STATE_BYTES == i && j % STATE_BYTES == k;
    assert b[HEADER_BYTES + j] == EncodeStates(states)[j];
  }

  lemma StateDecodes(states: seq<State>, b: Bytes, i: nat)
    requires b == EncodeFile(states) && i < |states|
    ensures StateAt(b, i) == states[i]
  {
    var at := HEADER_BYTES + STATE_BYTES * i;
    forall k | 0 <= k < 4
      ensures WordBytes(states[i].hash)[k] == b[at + k]
    {
      RecordByte(states, b, i, k);
    }
    WordFound(b, at, states[i].hash);
    RecordByte(states, b, i, 4);
  }

  lemma HeaderDecodes(states: seq<State>, b: Bytes)
    requires b == EncodeFile(states) && |states| < WORD_SPAN
    ensures WordAt(b, 0) == MAGIC && WordAt(b, 4) == VERSION && WordAt(b, 8) == |states|
  {
    var n: Word := |states| % WORD_SPAN;
    assert n == |states|;
    WordsInFront(MAGIC, VERSION, n, EncodeStates(states));
  }

  /** The bytes of a word, the highest first. */
  lemma BigEndian(w: Word, b0: Byte, b1: Byte, b2: Byte, b3: Byte)
    requires w == b0 * 0x100_0000 + b1 * 0x1_0000 + b2 * 0x100 + b3
    ensures WordBytes(w) == [b0, b1, b2, b3]
  {
    var v: int := w;
    assert v / 0x100 == b0 * 0x1_0000 + b1 * 0x100 + b2;
    assert v / 0x1_0000 == b0 * 0x100 + b1;
    assert v / 0x100_0000 == b0;
  }

  lemma Front(x: Bytes, y: Bytes, z: Bytes, rest: Bytes)
    requires |x| == |y| == |z| == 4
    ensures (x + y + z + rest)[..12] == x + y + z
  {
  }

  /** The header: "ILNY", version 1 and the number of records, as words. */
  lemma HeaderBytes(states: seq<State>, c0: Byte, c1: Byte, c2: Byte, c3: Byte)
    requires |states| == c0 * 0x100_0000 + c1 * 0x1_0000 + c2 * 0x100 + c3
    ensures EncodeFile(states)[..12] == [0x49, 0x4C, 0x4E, 0x59] + [0, 0, 0, 1] + [c0, c1, c2, c3]
  {
    var n: Word := |states| % WORD_SPAN;
    assert n == |states|;
    BigEndian(MAGIC, 0x49, 0x4C, 0x4E, 0x59);
    BigEndian(VERSION, 0, 0, 0, 1);
    BigEndian(n, c0, c1, c2, c3);
    Front(WordBytes(MAGIC), WordBytes(VERSION), WordBytes(n), EncodeStates(states));
  }

  /** Each record: four bytes of hash, the highest first, and the flag. */
  lemma RecordBytes(states: seq<State>, b: Bytes, i: nat, b0: Byte, b1: Byte, b2: Byte, b3: Byte)
    requires b == EncodeFile(states) && i < |states|
    requires states[i].hash == b0 * 0x100_0000 + b1 * 0x1_0000 + b2 * 0x100 + b3
    ensures |b| == 12 + 5 * |states| && b[12 + 5 * i] == b0 && b[12 + 5 * i + 1] == b1 && b[12 + 5 * i + 2] == b2
    ensures b[12 + 5 * i + 3] == b3 && b[12 + 5 * i + 4] == states[i].enabled
  {
    BigEndian(states[i].hash, b0, b1, b2, b3);
    RecordByte(states, b, i, 0);
    RecordByte(states, b, i, 1);
    RecordByte(states, b, i, 2);
    RecordByte(states, b, i, 3);
    RecordByte(states, b, i, 4);
  }

  // ----- Which files are read -----

  /** A file of three words and whatever follows them. */
  function FileOf(x: Word, y: Word, n: Word, rest: Bytes): Bytes {
    WordBytes(x) + WordBytes(y) + WordBytes(n) + rest
  }

  lemma BytesOfWordAt(b: Bytes, j: nat)
    requires j + 4 <= |b|
    ensures WordBytes(WordAt(b, j)) == b[j..j + 4]
  {
    BigEndian(WordAt(b, j), b[j], b[j + 1], b[j + 2], b[j + 3]);
  }

  lemma RecordOfFile(x: Word, y: Word, n: Word, rest: Bytes, b: Bytes, i: nat)
    requires b == FileOf(x, y, n, rest) && 5 * i + 5 <= |rest|
    ensures StateAt(b, i).enabled == rest[5 * i + 4] && WordBytes(StateAt(b, i).hash) == rest[5 * i..5 * i + 4]
  {
    BytesOfWordAt(b, 12 + 5 * i);
    assert b[12 + 5 * i..12 + 5 * i + 4] == rest[5 * i..5 * i + 4];
  }

  /** A file is read as records only when it starts with "ILNY" and version 1 and all the records that
      it claims are there; what follows them does not matter. A shorter file than a header is none. */
  lemma ReadsExactly(x: Word, y: Word, n: Word, rest: Bytes)
    ensures var states := DecodeFile(Some(FileOf(x, y, n, rest)));
            if x == 0x494C_4E59 && y == 1 && 5 * n <= |rest| then
              && |states| == n
              && forall i :: 0 <= i < |states| ==>
                   states[i].enabled == rest[5 * i + 4] && WordBytes(states[i].hash) == rest[5 * i..5 * i + 4]
            else states == []
  {
    var b := FileOf(x, y, n, rest);
    WordsInFront(x, y, n, rest);
    if 5 * n <= |rest| {
      forall i: nat | i < n
        ensures StateAt(b, i).enabled == rest[5 * i + 4] && WordBytes(StateAt(b, i).hash) == rest[5 * i..5 * i + 4]
      {
        RecordOfFile(x, y, n, rest, b, i);
      }
    }
  }

  lemma ShortFile(file: Option<Bytes>, hash: Word)
    requires file.None? || |file.value| < 12
    ensures DecodeFile(file) == [] && ReadEffect(file, hash) == -1
  {
  }

  /** The reader on the console asks for the size of the records modulo 2^32, and for one at least. */
  lemma ConsoleReadsExactly(x: Word, y: Word, n: Word, rest: Bytes, junk: Bytes)
    requires |junk| == 12
    ensures DecodeOnConsole(Some(FileOf(x, y, n, rest)), junk)
         == if x == 0x494C_4E59 && y == 1 && n != 0 && 5 * n % 0x1_0000_0000 <= |rest| then
              Loaded(n, rest[..5 * n % 0x1_0000_0000])
            else NOTHING
  {
    var b := FileOf(x, y, n, rest);
    WordsInFront(x, y, n, rest);
    if x == MAGIC && y == VERSION {
      ConsoleReads(Some(b), junk);
      assert forall k: nat :: k <= |rest| ==> b[12..12 + k] == rest[..k];
    } else {
      BadHeader(Some(b), junk);
    }
  }

  lemma FileRoundTrip(states: seq<State>)
    requires |states| < WORD_SPAN
    ensures DecodeFile(Some(EncodeFile(states))) == states
  {
    var b := EncodeFile(states);
    HeaderDecodes(states, b);
    forall i | 0 <= i < |states|
      ensures StatesOf(b, |states|)[i] == states[i]
    {
      StateDecodes(states, b, i);
    }
  }

  /** The seventeen bytes of the first write. */
  lemma FirstWriteBytes(hash: Word, enabled: bool, b0: Byte, b1: Byte, b2: Byte, b3: Byte)
    requires hash == b0 * 0x100_0000 + b1 * 0x1_0000 + b2 * 0x100 + b3
    ensures WriteEffect(None, hash, enabled)
         == [0x49, 0x4C, 0x4E, 0x59] + [0, 0, 0, 1] + [0, 0, 0, 1] + [b0, b1, b2, b3, if enabled then 1 else 0]
  {
    var flag: Byte := if enabled then 1 else 0;
    var states := [State(hash, flag)];
    var b := EncodeFile(states);
    assert WriteEffect(None, hash, enabled) == b by {
      WriteReplaces([], 0, hash, enabled);
    }
    HeaderBytes(states, 0, 0, 0, 1);
    RecordBytes(states, b, 0, b0, b1, b2, b3);
    assert b == b[..12] + [b[12], b[13], b[14], b[15], b[16]];
  }

  // ----- The file as a map -----

  datatype Op = Write(hash: Word, enabled: bool) | Toggle(hash: Word)

  type Flags = map<Word, bool>

  /** What each operation means. */
  function Meaning(m: Flags, op: Op): Flags {
    match op
    case Write(hash, enabled) => m[hash := enabled]
    case Toggle(hash) => m[hash := if hash in m then !m[hash] else true]
  }

  function Perform(file: Option<Bytes>, op: Op): Option<Bytes> {
    match op
    case Write(hash, enabled) => Some(WriteEffect(file, hash, enabled))
    case Toggle(hash) => Some(WriteEffect(file, hash, ToggledValue(file, hash)))
  }

  /** Every record has a key of the map, and its flag. */
  ghost predicate Labelled(states: seq<State>, m: Flags) {
    forall i :: 0 <= i < |states| ==> states[i].hash in m && states[i].enabled == Flag(m[states[i].hash])
  }

  ghost predicate Unique(states: seq<State>) {
    forall i, j :: 0 <= i < j < |states| ==> states[i].hash != states[j].hash
  }

  /** Every key of the map has a record. */
  ghost predicate Complete(states: seq<State>, m: Flags) {
    forall h :: h in m ==> RecordIndex(states, h, 0) < |states|
  }

  /** One record for each key, with the flag of that key. */
  ghost predicate Represents(states: seq<State>, m: Flags) {
    |states| == |m| && Labelled(states, m) && Unique(states) && Complete(states, m)
  }

  ghost predicate Refines(file: Option<Bytes>, m: Flags) {
    && Represents(DecodeFile(file), m)
    && (file.None? ==> m == map[])
    && (file.Some? ==> file.value == EncodeFile(DecodeFile(file)))
  }

  lemma LookupIsMap(states: seq<State>, m: Flags, hash: Word)
    requires Represents(states, m)
    ensures Lookup(states, hash) == if hash in m then (if m[hash] then 1 else 0) else -1
  {
  }

  lemma {:induction false} IndexAfterAppend(states: seq<State>, s: State, hash: Word, i: nat)
    requires i <= |states|
    ensures RecordIndex(states + [s], hash, i) ==
            if RecordIndex(states, hash, i) < |states| then RecordIndex(states, hash, i)
            else if s.hash == hash then |states| else |states| + 1
    decreases |states| - i
  {
    if i < |states| {
      IndexAfterAppend(states, s, hash, i + 1);
    }
  }

  lemma {:induction false} IndexAfterUpdate(states: seq<State>, k: nat, s: State, hash: Word, i: nat)
    requires i <= |states| && k < |states| && s.hash == states[k].hash
    ensures RecordIndex(states[k := s], hash, i) == RecordIndex(states, hash, i)
    decreases |states| - i
  {
    if i < |states| {
      IndexAfterUpdate(states, k, s, hash, i + 1);
    }
  }

  lemma AppendComplete(states: seq<State>, m: Flags, s: State, m': Flags)
    requires Complete(states, m) && m' == m[s.hash := s.enabled == 1]
    ensures Complete(states + [s], m')
  {
    forall h | h in m'
      ensures RecordIndex(states + [s], h, 0) < |states + [s]|
    {
      IndexAfterAppend(states, s, h, 0);
    }
  }

  lemma AppendLabelled(states: seq<State>, m: Flags, s: State, enabled: bool)
    requires Labelled(states, m) && Unique(states) && s.hash !in m && s.enabled == Flag(enabled)
    ensures Labelled(states + [s], m[s.hash := enabled]) && Unique(states + [s])
  {
  }

  /** A new record for a new key. */
  lemma AppendRepresents(states: seq<State>, m: Flags, hash: Word, enabled: bool)
    requires Represents(states, m) && hash !in m
    ensures Represents(states + [State(hash, Flag(enabled))], m[hash := enabled])
  {
    var s := State(hash, Flag(enabled));
    assert m[hash := enabled].Keys == m.Keys + {hash};
    AppendLabelled(states, m, s, enabled);
    AppendComplete(states, m, s, m[hash := enabled]);
  }

  lemma ReplaceComplete(states: seq<State>, m: Flags, k: nat, s: State, m': Flags)
    requires Complete(states, m) && k < |states| && s.hash == states[k].hash && m'.Keys == m.Keys
    ensures Complete(states[k := s], m')
  {
    forall h | h in m'
      ensures RecordIndex(states[k := s], h, 0) < |states|
    {
      IndexAfterUpdate(states, k, s, h, 0);
    }
  }

  lemma ReplaceLabelled(states: seq<State>, m: Flags, k: nat, s: State, enabled: bool)
    requires Labelled(states, m) && Unique(states) && k < |states|
    requires s == State(states[k].hash, Flag(enabled))
    ensures Labelled(states[k := s], m[s.hash := enabled]) && Unique(states[k := s])
  {
  }

  /** A new flag in an old record. */
  lemma ReplaceRepresents(states: seq<State>, m: Flags, k: nat, enabled: bool)
    requires Represents(states, m) && k < |states|
    ensures Represents(states[k := State(states[k].hash, Flag(enabled))], m[states[k].hash := enabled])
  {
    var s := State(states[k].hash, Flag(enabled));
    assert m[states[k].hash := enabled].Keys == m.Keys;
    ReplaceLabelled(states, m, k, s, enabled);
    ReplaceComplete(states, m, k, s, m[s.hash := enabled]);
  }

  /** Updating the records updates the map, and keeps one record a key. */
  lemma UpdateRepresents(states: seq<State>, m: Flags, hash: Word, enabled: bool)
    requires Represents(states, m)
    ensures Represents(Updated(states, hash, enabled), m[hash := enabled])
  {
    var k := RecordIndex(states, hash, 0);
    if k < |states| {
      ReplaceRepresents(states, m, k, enabled);
    } else {
      AppendRepresents(states, m, hash, enabled);
    }
  }

  lemma StepRefines(file: Option<Bytes>, m: Flags, op: Op)
    requires Refines(file, m) && |Meaning(m, op)| < WORD_SPAN
    ensures Refines(Perform(file, op), Meaning(m, op))
  {
    var states := DecodeFile(file);
    var hash := op.hash;
    LookupIsMap(states, m, hash);
    var enabled := if op.Write? then op.enabled else ToggledValue(file, hash);
    assert Meaning(m, op) == m[hash := enabled];
    UpdateRepresents(states, m, hash, enabled);
    FileRoundTrip(Updated(states, hash, enabled));
  }

  function PerformAll(file: Option<Bytes>, ops: seq<Op>): Option<Bytes>
    decreases |ops|
  {
    if ops == [] then file else PerformAll(Perform(file, ops[0]), ops[1..])
  }

  function MeaningAll(m: Flags, ops: seq<Op>): Flags
    decreases |ops|
  {
    if ops == [] then m else MeaningAll(Meaning(m, ops[0]), ops[1..])
  }

  lemma {:induction false} MeaningGrows(m: Flags, ops: seq<Op>)
    ensures |m| <= |MeaningAll(m, ops)|
    decreases |ops|
  {
    if ops != [] {
      var m' := Meaning(m, ops[0]);
      assert m'.Keys == m.Keys + {ops[0].hash};
      MeaningGrows(m', ops[1..]);
    }
  }

  lemma {:induction false} RunRefines(file: Option<Bytes>, m: Flags, ops: seq<Op>)
    requires Refines(file, m) && |MeaningAll(m, ops)| < WORD_SPAN
    ensures Refines(PerformAll(file, ops), MeaningAll(m, ops))
    decreases |ops|
  {
    if ops != [] {
      MeaningGrows(Meaning(m, ops[0]), ops[1..]);
      StepRefines(file, m, ops[0]);
      RunRefines(Perform(file, ops[0]), Meaning(m, ops[0]), ops[1..]);
    }
  }

  /** From an absent file, after any run of writes and toggles: a read gives the last value of
      each hash or -1, no hash has two records, the file is twelve bytes and five for each hash,
      and the reader on the console agrees if and only if their size does not wrap. */
  lemma FileIsMap(ops: seq<Op>, hash: Word, junk: Bytes)
    requires ops != [] && |MeaningAll(map[], ops)| < WORD_SPAN && |junk| == HEADER_BYTES
    ensures var file := PerformAll(None, ops);
            var m := MeaningAll(map[], ops);
            && ReadEffect(file, hash) == (if hash in m then (if m[hash] then 1 else 0) else -1)
            && Represents(DecodeFile(file), m) && file.Some? && |file.value| == 12 + 5 * |m|
            && (Agree(file, junk) <==> 5 * |m| < WORD_SPAN)
  {
    var file, m := PerformAll(None, ops), MeaningAll(map[], ops);
    assert Refines(None, map[]);
    RunRefines(None, map[], ops);
    LookupIsMap(DecodeFile(file), m, hash);
    RunLeavesFile(None, ops);
    HeaderDecodes(DecodeFile(file), file.value);
    ReadersAgreeExactly(file, junk);
  }

  lemma {:induction false} RunLeavesFile(file: Option<Bytes>, ops: seq<Op>)
    requires file.Some? || ops != []
    ensures PerformAll(file, ops).Some?
    decreases |ops|
  {
    if ops != [] {
      RunLeavesFile(Perform(file, ops[0]), ops[1..]);
    }
  }

  lemma ToggleWrites(file: Option<Bytes>, states: seq<State>, m: Flags, hash: Word)
    requires states == DecodeFile(file) && Represents(states, m) && hash in m
    ensures Perform(file, Toggle(hash)) == Some(EncodeFile(Updated(states, hash, !m[hash])))
  {
    LookupIsMap(states, m, hash);
  }

  /** Toggling a known hash twice gives the same file, byte for byte. */
  lemma DoubleToggle(file: Option<Bytes>, m: Flags, hash: Word)
    requires Refines(file, m) && hash in m && |m| < WORD_SPAN
    ensures Perform(Perform(file, Toggle(hash)), Toggle(hash)) == file
  {
    var states := DecodeFile(file);
    ToggleWrites(file, states, m, hash);
    var once, m' := ToggledOnce(states, m, hash);
    ToggleWrites(Some(EncodeFile(once)), once, m', hash);
    UpdateBack(states, m, hash);
  }

  lemma ToggledOnce(states: seq<State>, m: Flags, hash: Word) returns (once: seq<State>, m': Flags)
    requires Represents(states, m) && hash in m && |m| < WORD_SPAN
    ensures once == Updated(states, hash, !m[hash]) && m' == m[hash := !m[hash]]
    ensures Represents(once, m') && DecodeFile(Some(EncodeFile(once))) == once
  {
    once, m' := Updated(states, hash, !m[hash]), m[hash := !m[hash]];
    assert m'.Keys == m.Keys;
    UpdateRepresents(states, m, hash, !m[hash]);
    FileRoundTrip(once);
  }

  lemma UpdateBack(states: seq<State>, m: Flags, hash: Word)
    requires Represents(states, m) && hash in m
    ensures Updated(Updated(states, hash, !m[hash]), hash, m[hash]) == states
  {
    var k := RecordIndex(states, hash, 0);
    IndexAfterUpdate(states, k, State(hash, Flag(!m[hash])), hash, 0);
  }
}
