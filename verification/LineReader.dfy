/** Reading a file line by line: `fileReadLine` and the loops around it
    (game_patch/lib/file.c:219-259, game_patch/plugins.c:228-243, game_patch/patch.c:672-688).
  */
module LineReader {
  import opened CText

  const CR: char := '\r'
  const LF: char := '\n'

  // ----- The specification: splitting at newlines -----

  /** The next newline from `pos` on, or the length. */
  function LineEnd(content: string, pos: nat): (e: nat)
    requires pos <= |content|
    ensures pos <= e <= |content| && (e < |content| ==> content[e] == LF)
    decreases |content| - pos
  {
    if pos == |content| || content[pos] == LF then pos else LineEnd(content, pos + 1)
  }

  /** The characters from `i` up to `j`, without carriage returns. */
  function WithoutCr(content: string, i: nat, j: nat): (t: string)
    requires i <= j <= |content|
    ensures |t| <= j - i
    decreases j - i
  {
    if i == j then []
    else
      var t := WithoutCr(content, i, j - 1);
      if content[j - 1] == CR then t else t + [content[j - 1]]
  }

  function LineAt(content: string, pos: nat): string
    requires pos <= |content|
  {
    WithoutCr(content, pos, LineEnd(content, pos))
  }

  /** Past the line and its newline, if it has one. */
  function NextLine(content: string, pos: nat): (n: nat)
    requires pos <= |content|
    ensures pos <= n <= |content| && (pos < |content| ==> pos < n)
  {
    var e := LineEnd(content, pos);
    if e < |content| then e + 1 else e
  }

  function SplitLines(content: string, pos: nat): seq<string>
    requires pos <= |content|
    decreases |content| - pos
  {
    if pos == |content| then []
    else [LineAt(content, pos)] + SplitLines(content, NextLine(content, pos))
  }

  /** What each line of a file, ending at its first NUL, stands for. */
  function LinesAs<T>(content: string, pos: nat, classify: string -> T): seq<T>
    requires pos <= |content|
    decreases |content| - pos
  {
    if pos == |content| then []
    else [classify(Cut(LineAt(content, pos)))] + LinesAs(content, NextLine(content, pos), classify)
  }

  lemma {:induction false} LinesAreSplit<T>(content: string, pos: nat, classify: string -> T)
    requires pos <= |content|
    ensures var lines, texts := LinesAs(content, pos, classify), SplitLines(content, pos);
            |lines| == |texts| && forall k :: 0 <= k < |texts| ==> lines[k] == classify(Cut(texts[k]))
    decreases |content| - pos
  {
    if pos < |content| {
      LinesAreSplit(content, NextLine(content, pos), classify);
    }
  }

  lemma LineTaken<T>(content: string, pos: nat, classify: string -> T, lines: seq<T>, k: nat)
    requires pos < |content| && k <= |lines| && lines[k..] == LinesAs(content, pos, classify)
    ensures k < |lines| && lines[k] == classify(Cut(LineAt(content, pos)))
    ensures lines[k + 1..] == LinesAs(content, NextLine(content, pos), classify)
  {
    assert lines[k] == lines[k..][0] && lines[k + 1..] == lines[k..][1..];
  }

  // ----- The loop as a transition -----

  /** The loop of fileReadLine between two reads: the file position, the text stored so far and
      the byte left under the cursor by a skipped carriage return. */
  datatype Reading = More(pos: nat, text: string, under: char) | Done(pos: nat, text: string)

  /** One turn of the loop. At the end of the file nothing is read, and the byte under the
      cursor decides. */
  function ReadStep(content: string, r: Reading): Reading {
    if r.Done? then r
    else if r.pos < |content| then
      var c := content[r.pos];
      if c == CR then More(r.pos + 1, r.text, CR)
      else if c == LF then Done(r.pos + 1, r.text)
      else More(r.pos + 1, r.text + [c], NUL)
    else if r.under == CR then r
    else Done(r.pos, r.text)
  }

  function ReadSteps(content: string, r: Reading, n: nat): Reading
    decreases n
  {
    if n == 0 then r else ReadSteps(content, ReadStep(content, r), n - 1)
  }

  /** The rest of the file is one unterminated line that ends in a carriage return. */
  predicate EndsInBareCr(content: string, pos: nat)
    requires pos <= |content|
  {
    LineEnd(content, pos) == |content| && pos < |content| && content[|content| - 1] == CR
  }

  lemma {:induction false} NoProgress(content: string, r: Reading, n: nat)
    requires r.More? && r.pos == |content| && r.under == CR
    ensures ReadSteps(content, r, n) == r
    decreases n
  {
    if n > 0 {
      NoProgress(content, r, n - 1);
    }
  }

  lemma {:induction false} NeverDone(content: string, r: Reading, n: nat)
    requires r.More? && r.pos < |content| && EndsInBareCr(content, r.pos)
    ensures ReadSteps(content, r, n).More?
    decreases n
  {
    if n > 0 {
      var next := ReadStep(content, r);
      if next.pos < |content| {
        NeverDone(content, next, n - 1);
      } else {
        NoProgress(content, next, n - 1);
      }
    }
  }

  lemma {:induction false} ReachesDone(content: string, r: Reading, n: nat)
    requires r.More? && r.pos <= |content| && !EndsInBareCr(content, r.pos)
    requires r.pos == |content| ==> r.under != CR
    requires n == LineEnd(content, r.pos) - r.pos
    ensures ReadSteps(content, r, n + 1).Done?
    decreases n
  {
    if n > 0 {
      ReachesDone(content, ReadStep(content, r), n - 1);
    } else {
      assert ReadSteps(content, ReadStep(content, r), 0).Done?;
    }
  }

  /** The loop ends exactly when the rest of the file is not an unterminated line ending in a
      carriage return; for such a file it turns forever without reading anything. */
  lemma ReadLineEndsExactly(content: string, pos: nat)
    requires pos <= |content|
    ensures (exists n: nat :: ReadSteps(content, More(pos, [], NUL), n).Done?) <==> !EndsInBareCr(content, pos)
  {
    if EndsInBareCr(content, pos) {
      forall n: nat
        ensures ReadSteps(content, More(pos, [], NUL), n).More?
      {
        NeverDone(content, More(pos, [], NUL), n);
      }
    } else {
      ReachesDone(content, More(pos, [], NUL), LineEnd(content, pos) - pos);
    }
  }

  // ----- The buffer -----

  /** One past the last byte of the buffer that a turn of the loop writes. */
  function Written(content: string, r: Reading): nat {
    if r.Done? then 0
    else if r.pos < |content| then |r.text| + 1
    else if r.under == CR then 0
    else |r.text| + 2
  }

  /** The buffer that a line needs: a newline or carriage return is stored where the terminator
      goes, the end of the file makes the loop write one byte further. */
  function RoomFor(content: string, pos: nat): (n: nat)
    requires pos <= |content|
  {
    |LineAt(content, pos)| + if LineEnd(content, pos) < |content| || EndsInBareCr(content, pos) then 1 else 2
  }

  lemma {:induction false} StepsSnoc(content: string, r: Reading, n: nat)
    ensures ReadSteps(content, r, n + 1) == ReadStep(content, ReadSteps(content, r, n))
    decreases n
  {
    if n > 0 {
      StepsSnoc(content, ReadStep(content, r), n - 1);
    } else {
      assert ReadSteps(content, ReadStep(content, r), 0) == ReadStep(content, r);
    }
  }

  lemma {:induction false} NoNewlineBefore(content: string, pos: nat, k: nat)
    requires pos <= |content| && pos <= k < LineEnd(content, pos)
    ensures content[k] != LF
    decreases k - pos
  {
    if pos < k {
      NoNewlineBefore(content, pos + 1, k);
    }
  }

  /** Inside the line, the text so far is stored. */
  lemma {:induction false} ReadUpTo(content: string, pos: nat, n: nat)
    requires pos <= |content| && pos + n <= LineEnd(content, pos)
    ensures ReadSteps(content, More(pos, [], NUL), n) ==
            More(pos + n, WithoutCr(content, pos, pos + n), if n > 0 && content[pos + n - 1] == CR then CR else NUL)
    decreases n
  {
    if n > 0 {
      ReadUpTo(content, pos, n - 1);
      StepsSnoc(content, More(pos, [], NUL), n - 1);
      NoNewlineBefore(content, pos, pos + n - 1);
    }
  }

  lemma {:induction false} WithoutCrGrows(content: string, i: nat, j: nat, k: nat)
    requires i <= j <= k <= |content|
    ensures |WithoutCr(content, i, j)| <= |WithoutCr(content, i, k)|
    decreases k - j
  {
    if j < k {
      WithoutCrGrows(content, i, j, k - 1);
    }
  }

  /** Past the line nothing more is written. */
  lemma {:induction false} NothingAfter(content: string, pos: nat, n: nat)
    requires pos <= |content| && pos + n > LineEnd(content, pos)
    ensures var r := ReadSteps(content, More(pos, [], NUL), n); r.Done? || (r.pos == |content| && r.under == CR)
    decreases n
  {
    StepsSnoc(content, More(pos, [], NUL), n - 1);
    if pos + (n - 1) > LineEnd(content, pos) {
      NothingAfter(content, pos, n - 1);
    } else {
      ReadUpTo(content, pos, n - 1);
    }
  }

  lemma WrittenAt(content: string, pos: nat, n: nat)
    requires pos <= |content|
    ensures Written(content, ReadSteps(content, More(pos, [], NUL), n)) <= RoomFor(content, pos)
  {
    var end := LineEnd(content, pos);
    if pos + n <= end {
      ReadUpTo(content, pos, n);
      WithoutCrGrows(content, pos, pos + n, end);
    } else {
      NothingAfter(content, pos, n);
    }
  }

  /** The size of the buffer is passed but not looked at: the loop stays inside it if and only if
      it has room for the line. */
  lemma ReadLineFitsExactly(content: string, pos: nat, size: nat)
    requires pos <= |content|
    ensures (forall n: nat :: Written(content, ReadSteps(content, More(pos, [], NUL), n)) <= size) <==>
            RoomFor(content, pos) <= size
  {
    if RoomFor(content, pos) <= size {
      forall n: nat
        ensures Written(content, ReadSteps(content, More(pos, [], NUL), n)) <= size
      {
        WrittenAt(content, pos, n);
      }
    } else {
      var n := LineEnd(content, pos) - pos - if EndsInBareCr(content, pos) then 1 else 0;
      ReadUpTo(content, pos, n);
      assert Written(content, ReadSteps(content, More(pos, [], NUL), n)) == RoomFor(content, pos);
    }
  }

  // ----- The methods -----

  /** A file open for reading. */
  class ByteFile {
    const content: string
    var pos: nat

    ghost predicate Valid()
      reads this
    {
      pos <= |content|
    }

    constructor (content: string)
      ensures Valid() && this.content == content && pos == 0
    {
      this.content := content;
      this.pos := 0;
    }

    /** fileRead of one byte: at the end of the file nothing is stored. */
    method ReadByte(buffer: array<char>, cursor: nat) returns (readCount: nat)
      requires Valid() && cursor < buffer.Length
      modifies this`pos, buffer
      ensures Valid() && readCount == (if old(pos) < |content| then 1 else 0) && pos == old(pos) + readCount
      ensures buffer[..] == if readCount == 1 then old(buffer[..])[cursor := content[old(pos)]] else old(buffer[..])
    {
      if pos < |content| {
        buffer[cursor] := content[pos];
        pos := pos + 1;
        return 1;
      }
      return 0;
    }
  }

  ghost predicate ZeroFrom(b: seq<char>, i: int) {
    forall k :: i <= k < |b| && 0 <= k ==> b[k] == NUL
  }

  /** `b` holds the line read from `start` up to `pos`, and under the cursor what the last byte
      left there. */
  ghost predicate ReadSoFar(content: string, start: nat, pos: nat, b: seq<char>, cursor: nat) {
    && start <= pos <= |content| && cursor < |b| && cursor == |WithoutCr(content, start, pos)|
    && b[..cursor] == WithoutCr(content, start, pos) && ZeroFrom(b, cursor + 1)
    && b[cursor] == if start < pos && content[pos - 1] == CR then CR else NUL
  }

  lemma SkipCr(content: string, start: nat, pos: nat, b: seq<char>, cursor: nat)
    requires ReadSoFar(content, start, pos, b, cursor) && pos < |content| && content[pos] == CR
    ensures ReadSoFar(content, start, pos + 1, b[cursor := CR], cursor)
  {
    assert b[cursor := CR][..cursor] == b[..cursor];
  }

  lemma TakeChar(content: string, start: nat, pos: nat, end: nat, b: seq<char>, cursor: nat)
    requires ReadSoFar(content, start, pos, b, cursor) && pos < end <= |content| && content[pos] != CR
    requires |WithoutCr(content, start, end)| < |b|
    ensures ReadSoFar(content, start, pos + 1, b[cursor := content[pos]], cursor + 1)
  {
    WithoutCrGrows(content, start, pos + 1, end);
    var c := content[pos];
    assert b[cursor := c][..cursor + 1] == b[..cursor] + [c];
  }

  /** Reads one line into a zeroed buffer that is large enough for it. The count of bytes read is
      set; the length of the line is added to the count of bytes written. */
  method FileReadLine(file: ByteFile, buffer: array<char>, writtenBefore: nat)
    returns (bytesRead: nat, bytesWritten: nat)
    requires file.Valid() && !EndsInBareCr(file.content, file.pos)
    requires ZeroFrom(buffer[..], 0) && RoomFor(file.content, file.pos) <= buffer.Length
    modifies file`pos, buffer
    ensures file.Valid() && file.pos == NextLine(file.content, old(file.pos)) == old(file.pos) + bytesRead
    ensures bytesWritten == writtenBefore + |LineAt(file.content, old(file.pos))|
    ensures var length := bytesWritten - writtenBefore;
            buffer[..length] == LineAt(file.content, old(file.pos)) && buffer[length] == NUL
  {
    var cursor: nat := 0;
    bytesRead, bytesWritten := 0, writtenBefore;
    ghost var start := file.pos;
    ghost var end := LineEnd(file.content, start);
    while true
      invariant start <= file.pos <= end && LineEnd(file.content, file.pos) == end
      invariant bytesRead == file.pos - start && bytesWritten == writtenBefore + cursor
      invariant ReadSoFar(file.content, start, file.pos, buffer[..], cursor)
      decreases |file.content| - file.pos
    {
      ghost var pos, before := file.pos, buffer[..];
      var curReadSize := file.ReadByte(buffer, cursor);
      bytesRead := bytesRead + curReadSize;
      if buffer[cursor] == CR {
        SkipCr(file.content, start, pos, before, cursor);
        continue;
      } else if buffer[cursor] == LF {
        buffer[cursor] := NUL;
        break;
      } else if curReadSize == 0 {
        cursor := cursor + 1;
        buffer[cursor] := NUL;
        break;
      }
      TakeChar(file.content, start, pos, end, before, cursor);
      bytesWritten := bytesWritten + curReadSize;
      cursor := cursor + curReadSize;
    }
  }

  /** The line buffer has room for every line. */
  ghost predicate LinesFit(content: string, pos: nat)
    requires pos <= |content|
    decreases |content| - pos
  {
    pos < |content| ==> RoomFor(content, pos) <= MAX_LINE_LENGTH + 1 && LinesFit(content, NextLine(content, pos))
  }

  /** The loop of the parsers: one line at a time, until the bytes read add up to the file. */
  method ReadLines(content: string) returns (lines: seq<string>, bytesReadAll: nat)
    requires LinesFit(content, 0) && (content != [] ==> content[|content| - 1] != CR)
    ensures lines == SplitLines(content, 0) && bytesReadAll == |content|
  {
    var file := new ByteFile(content);
    lines, bytesReadAll := [], 0;
    var writtenAll: nat := 0;
    while bytesReadAll < |content|
      invariant file.Valid() && file.content == content && bytesReadAll == file.pos
      invariant LinesFit(content, file.pos)
      invariant lines + SplitLines(content, file.pos) == SplitLines(content, 0)
      decreases |content| - file.pos
    {
      var line := new char[MAX_LINE_LENGTH + 1](_ => NUL);
      ghost var before, pos := lines, file.pos;
      var bytesRead, bytesWritten := FileReadLine(file, line, writtenAll);
      if bytesRead == 0 {
        break;
      }
      bytesReadAll := bytesReadAll + bytesRead;
      lines := lines + [line[..bytesWritten - writtenAll]];
      writtenAll := bytesWritten;
      LineDelivered(content, pos, before, lines);
    }
  }

  lemma LineDelivered(content: string, pos: nat, before: seq<string>, lines: seq<string>)
    requires pos < |content| && lines == before + [LineAt(content, pos)]
    ensures before + SplitLines(content, pos) == lines + SplitLines(content, NextLine(content, pos))
  {
    var rest := SplitLines(content, NextLine(content, pos));
    assert before + ([LineAt(content, pos)] + rest) == (before + [LineAt(content, pos)]) + rest;
  }

  // ----- Printing and splitting -----

  /** A line and whether it ends in CR LF rather than LF. */
  datatype TextLine = TextLine(text: string, crlf: bool)

  predicate Plain(s: string) {
    forall i :: 0 <= i < |s| ==> s[i] != CR && s[i] != LF
  }

  function Ending(l: TextLine): string {
    if l.crlf then [CR, LF] else [LF]
  }

  function PrintLines(lines: seq<TextLine>, k: nat, tail: string): string
    decreases |lines| - k
  {
    if k >= |lines| then tail else lines[k].text + (Ending(lines[k]) + PrintLines(lines, k + 1, tail))
  }

  lemma {:induction false} PlainText(content: string, pos: nat, t: string, n: nat)
    requires Plain(t) && Stands(content, pos, t) && n <= |t|
    ensures WithoutCr(content, pos, pos + n) == t[..n]
    decreases n
  {
    if n > 0 {
      PlainText(content, pos, t, n - 1);
      assert t[n - 1] == content[pos + (n - 1)];
      assert t[..n] == t[..n - 1] + [t[n - 1]];
    }
  }

  lemma {:induction false} LineEndIs(content: string, pos: nat, e: nat)
    requires pos <= e <= |content| && (e < |content| ==> content[e] == LF)
    requires forall k :: pos <= k < e ==> content[k] != LF
    ensures LineEnd(content, pos) == e
    decreases e - pos
  {
    if pos < e {
      LineEndIs(content, pos + 1, e);
    }
  }

  /** One printed line is read as its text, with either ending. */
  lemma LineOfPrinted(content: string, pos: nat, l: TextLine)
    requires Plain(l.text) && Stands(content, pos, l.text) && Stands(content, pos + |l.text|, Ending(l))
    ensures LineAt(content, pos) == l.text && NextLine(content, pos) == pos + |l.text| + |Ending(l)|
    ensures pos + |l.text| + |Ending(l)| <= |content|
  {
    var p := pos + |l.text|;
    var e := p + |Ending(l)| - 1;
    assert Ending(l)[0] == content[p + 0];
    assert l.crlf ==> Ending(l)[1] == content[p + 1];
    forall k | pos <= k < e
      ensures content[k] != LF
    {
      if k < p {
        assert l.text[k - pos] == content[pos + (k - pos)];
      }
    }
    LineEndIs(content, pos, e);
    PlainText(content, pos, l.text, |l.text|);
    assert l.text[..|l.text|] == l.text;
  }

  lemma TailOfPrinted(content: string, pos: nat, tail: string)
    requires Plain(tail) && Stands(content, pos, tail) && pos + |tail| == |content|
    ensures SplitLines(content, pos) == if tail == [] then [] else [tail]
  {
    if tail != [] {
      forall k | pos <= k < |content|
        ensures content[k] != LF
      {
        assert tail[k - pos] == content[pos + (k - pos)];
      }
      LineEndIs(content, pos, |content|);
      PlainText(content, pos, tail, |tail|);
      assert tail[..|tail|] == tail;
    }
  }

  // ----- Carriage returns inside a line -----

  /** The pieces from `k` on, with `sep` between them. */
  function Glued(pieces: seq<string>, k: nat, sep: string): string
    decreases |pieces| - k
  {
    if k >= |pieces| then []
    else if k + 1 == |pieces| then pieces[k]
    else pieces[k] + (sep + Glued(pieces, k + 1, sep))
  }

  ghost predicate AllPlain(pieces: seq<string>) {
    forall k :: 0 <= k < |pieces| ==> Plain(pieces[k])
  }

  lemma {:induction false} WithoutCrSplit(content: string, i: nat, j: nat, k: nat)
    requires i <= j <= k <= |content|
    ensures WithoutCr(content, i, k) == WithoutCr(content, i, j) + WithoutCr(content, j, k)
    decreases k - j
  {
    if j < k {
      WithoutCrSplit(content, i, j, k - 1);
    }
  }

  lemma GluedParts(content: string, pos: nat, pieces: seq<string>, k: nat, text: string, kept: string)
    returns (rest: string, keptRest: string)
    requires k + 1 < |pieces| && text == Glued(pieces, k, [CR]) && kept == Glued(pieces, k, [])
    requires Stands(content, pos, text)
    ensures rest == Glued(pieces, k + 1, [CR]) && keptRest == Glued(pieces, k + 1, [])
    ensures kept == pieces[k] + keptRest && |text| == |pieces[k]| + 1 + |rest|
    ensures var p := pos + |pieces[k]|;
            Stands(content, pos, pieces[k]) && p < |content| && content[p] == CR && Stands(content, p + 1, rest)
  {
    rest, keptRest := Glued(pieces, k + 1, [CR]), Glued(pieces, k + 1, []);
    assert pieces[k] + ([] + keptRest) == pieces[k] + keptRest;
    StandsSplit(content, pos, pieces[k], [CR] + rest);
    StandsSplit(content, pos + |pieces[k]|, [CR], rest);
    assert [CR][0] == content[pos + |pieces[k]| + 0];
  }

  lemma AllOfPlain(content: string, pos: nat, t: string)
    requires Plain(t) && Stands(content, pos, t)
    ensures WithoutCr(content, pos, pos + |t|) == t
  {
    PlainText(content, pos, t, |t|);
    assert t[..|t|] == t;
  }

  ghost predicate NoNewline(content: string, i: nat, j: nat) {
    i <= j <= |content| && forall m :: i <= m < j ==> content[m] != LF
  }

  lemma PlainHasNone(content: string, pos: nat, t: string)
    requires Plain(t) && Stands(content, pos, t)
    ensures NoNewline(content, pos, pos + |t|)
  {
    forall m | pos <= m < pos + |t|
      ensures content[m] != LF
    {
      assert t[m - pos] == content[pos + (m - pos)];
    }
  }

  lemma NoneInBoth(content: string, i: nat, p: nat, j: nat)
    requires NoNewline(content, i, p) && p < |content| && content[p] == CR && NoNewline(content, p + 1, j)
    ensures NoNewline(content, i, j)
  {
  }

  lemma WithoutThisCr(content: string, i: nat, p: nat, k: nat)
    requires i <= p < k <= |content| && content[p] == CR
    ensures WithoutCr(content, i, k) == WithoutCr(content, i, p) + WithoutCr(content, p + 1, k)
  {
    WithoutCrSplit(content, i, p + 1, k);
  }

  lemma {:induction false} ReturnsDropped(content: string, pos: nat, pieces: seq<string>, k: nat, text: string,
                                          kept: string)
    requires k < |pieces| && AllPlain(pieces) && text == Glued(pieces, k, [CR]) && kept == Glued(pieces, k, [])
    requires Stands(content, pos, text)
    ensures WithoutCr(content, pos, pos + |text|) == kept && NoNewline(content, pos, pos + |text|)
    decreases |pieces| - k
  {
    if k + 1 == |pieces| {
      AllOfPlain(content, pos, pieces[k]);
      PlainHasNone(content, pos, pieces[k]);
    } else {
      var rest, keptRest := GluedParts(content, pos, pieces, k, text, kept);
      var p := pos + |pieces[k]|;
      ReturnsDropped(content, p + 1, pieces, k + 1, rest, keptRest);
      AllOfPlain(content, pos, pieces[k]);
      PlainHasNone(content, pos, pieces[k]);
      WithoutThisCr(content, pos, p, p + 1 + |rest|);
      NoneInBoth(content, pos, p, p + 1 + |rest|);
    }
  }

  /** A line reads as its text without the carriage returns, wherever they stand in it. */
  lemma LineWithReturns(front: string, pieces: seq<string>, back: string)
    requires pieces != [] && AllPlain(pieces) && (back != [] ==> back[0] == LF)
    ensures var text := Glued(pieces, 0, [CR]);
            LineAt(front + text + back, |front|) == Glued(pieces, 0, [])
  {
    var text := Glued(pieces, 0, [CR]);
    var content := front + text + back;
    assert Stands(content, |front|, text);
    ReturnsDropped(content, |front|, pieces, 0, text, Glued(pieces, 0, []));
    LineEndIs(content, |front|, |front| + |text|);
  }

  /** `read` is the texts of the lines from `k` on, then the unterminated tail, if any. */
  ghost predicate ReadBack(read: seq<string>, lines: seq<TextLine>, k: nat, tail: string)
    requires k <= |lines|
  {
    && |read| == |lines| - k + (if tail == [] then 0 else 1)
    && (forall m :: 0 <= m < |lines| - k ==> read[m] == lines[k + m].text)
    && (tail != [] ==> read[|lines| - k] == tail)
  }

  lemma ReadBackCons(rest: seq<string>, lines: seq<TextLine>, k: nat, tail: string)
    requires k < |lines| && ReadBack(rest, lines, k + 1, tail)
    ensures ReadBack([lines[k].text] + rest, lines, k, tail)
  {
  }

  /** The first printed line, and the rest behind its ending. */
  lemma PrintedHead(content: string, pos: nat, lines: seq<TextLine>, k: nat, tail: string, text: string)
    returns (next: nat, rest: string)
    requires k < |lines| && text == PrintLines(lines, k, tail) && Stands(content, pos, text)
    requires Plain(lines[k].text) && pos + |text| == |content|
    ensures next <= |content| && SplitLines(content, pos) == [lines[k].text] + SplitLines(content, next)
    ensures rest == PrintLines(lines, k + 1, tail) && Stands(content, next, rest) && next + |rest| == |content|
  {
    var l := lines[k];
    rest := PrintLines(lines, k + 1, tail);
    StandsSplit(content, pos, l.text, Ending(l) + rest);
    StandsSplit(content, pos + |l.text|, Ending(l), rest);
    LineOfPrinted(content, pos, l);
    next := pos + |l.text| + |Ending(l)|;
  }

  lemma {:induction false} SplitPrinted(content: string, pos: nat, lines: seq<TextLine>, k: nat, tail: string,
                                        text: string)
    requires k <= |lines| && Plain(tail) && forall m :: 0 <= m < |lines| ==> Plain(lines[m].text)
    requires text == PrintLines(lines, k, tail) && Stands(content, pos, text) && pos + |text| == |content|
    ensures ReadBack(SplitLines(content, pos), lines, k, tail)
    decreases |lines| - k
  {
    if k == |lines| {
      TailOfPrinted(content, pos, tail);
    } else {
      var next, rest := PrintedHead(content, pos, lines, k, tail, text);
      SplitPrinted(content, next, lines, k + 1, tail, rest);
      ReadBackCons(SplitLines(content, next), lines, k, tail);
    }
  }

  /** Splitting a file of lines, each ended by LF or CR LF, and a last unterminated one, gives
      back the lines. */
  lemma SplitRoundTrip(lines: seq<TextLine>, tail: string)
    requires Plain(tail) && forall m :: 0 <= m < |lines| ==> Plain(lines[m].text)
    ensures ReadBack(SplitLines(PrintLines(lines, 0, tail), 0), lines, 0, tail)
  {
    var text := PrintLines(lines, 0, tail);
    SplitPrinted(text, 0, lines, 0, tail, text);
  }
}
