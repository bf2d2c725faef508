/** Lists as they are written by hand: any white space before an item, anything between its closing
    quote and the comma, and pieces that are no items at all
    (game_patch/my_string.h:283-379, game_patch/patch.c:35-131).
  */
module ListText {
  import opened CText
  import opened QuotedText
  import opened StringList

  /** What stands between two commas. */
  datatype Piece = Item(before: string, value: string, after: string) | Junk(text: string)

  function PieceText(p: Piece): string {
    match p
    case Item(before, value, after) => before + Quoted(value) + after
    case Junk(text) => text
  }

  predicate IsLoose(c: char) {
    c != COMMA && c != QUOTE && c != BACKSLASH && c != CLOSE
  }

  /** From `k` on the text neither separates, quotes nor closes: a backslash takes the character behind
      it, be it a quote or a bracket. */
  predicate LooseFrom(t: string, k: nat)
    decreases |t| - k
  {
    || k >= |t|
    || (IsLoose(t[k]) && LooseFrom(t, k + 1))
    || (t[k] == BACKSLASH && k + 1 < |t| && t[k + 1] != COMMA && LooseFrom(t, k + 2))
  }

  predicate Loose(t: string) {
    LooseFrom(t, 0)
  }

  ghost predicate GoodPiece(p: Piece) {
    match p
    case Item(before, value, after) => AllSpace(before) && NulFree(value) && NoTrailingBackslash(value) && Loose(after)
    case Junk(text) => Loose(text)
  }

  ghost predicate GoodPieces(ps: seq<Piece>) {
    forall k :: 0 <= k < |ps| ==> GoodPiece(ps[k])
  }

  /** The pieces from `k` on, separated by bare commas. */
  function JoinPieces(ps: seq<Piece>, k: nat): string
    decreases |ps| - k
  {
    if k >= |ps| then []
    else if k + 1 == |ps| then PieceText(ps[k])
    else PieceText(ps[k]) + ([COMMA] + JoinPieces(ps, k + 1))
  }

  function ListOf(ps: seq<Piece>): string {
    [OPEN] + JoinPieces(ps, 0) + [CLOSE]
  }

  function ValueOf(p: Piece): (v: seq<string>) {
    if p.Item? then [p.value] else []
  }

  /** The values of the items from `k` on. */
  function Values(ps: seq<Piece>, k: nat): seq<string>
    decreases |ps| - k
  {
    if k >= |ps| then [] else ValueOf(ps[k]) + Values(ps, k + 1)
  }

  // ----- Where they stand -----

  /** The pieces from `k` on stand in `s` from `i` up to `end`. */
  ghost predicate PiecesAt(s: string, i: nat, ps: seq<Piece>, k: nat, end: nat)
    decreases |ps| - k
  {
    if k >= |ps| then i == end
    else
      && Stands(s, i, PieceText(ps[k]))
      && var p := i + |PieceText(ps[k])|;
         if k + 1 == |ps| then p == end
         else p < |s| && s[p] == COMMA && PiecesAt(s, p + 1, ps, k + 1, end)
  }

  lemma SplitAtComma(s: string, i: nat, a: string, rest: string)
    requires Stands(s, i, a + ([COMMA] + rest))
    ensures Stands(s, i, a) && |a + ([COMMA] + rest)| == |a| + 1 + |rest|
    ensures i + |a| < |s| && s[i + |a|] == COMMA && Stands(s, i + |a| + 1, rest)
  {
    StandsSplit(s, i, a, [COMMA] + rest);
    StandsSplit(s, i + |a|, [COMMA], rest);
    assert [COMMA][0] == s[i + |a| + 0];
  }

  lemma PiecesCons(s: string, i: nat, ps: seq<Piece>, k: nat, a: string, end: nat)
    requires k + 1 < |ps| && a == PieceText(ps[k]) && Stands(s, i, a)
    requires i + |a| < |s| && s[i + |a|] == COMMA && PiecesAt(s, i + |a| + 1, ps, k + 1, end)
    ensures PiecesAt(s, i, ps, k, end)
  {
  }

  lemma JoinParts(ps: seq<Piece>, k: nat, text: string) returns (a: string, rest: string)
    requires k + 1 < |ps| && text == JoinPieces(ps, k)
    ensures a == PieceText(ps[k]) && rest == JoinPieces(ps, k + 1) && text == a + ([COMMA] + rest)
  {
    a, rest := PieceText(ps[k]), JoinPieces(ps, k + 1);
  }

  lemma JoinHead(s: string, i: nat, ps: seq<Piece>, k: nat, text: string) returns (a: string, rest: string)
    requires k + 1 < |ps| && text == JoinPieces(ps, k) && Stands(s, i, text)
    ensures a == PieceText(ps[k]) && rest == JoinPieces(ps, k + 1) && Stands(s, i, a)
    ensures i + |a| < |s| && s[i + |a|] == COMMA && Stands(s, i + |a| + 1, rest) && |text| == |a| + 1 + |rest|
  {
    a, rest := JoinParts(ps, k, text);
    SplitAtComma(s, i, a, rest);
  }

  lemma {:induction false} JoinStands(s: string, i: nat, ps: seq<Piece>, k: nat, text: string)
    requires k <= |ps| && text == JoinPieces(ps, k) && Stands(s, i, text)
    ensures PiecesAt(s, i, ps, k, i + |text|)
    decreases |ps| - k
  {
    if k + 1 < |ps| {
      var a, rest := JoinHead(s, i, ps, k, text);
      JoinStands(s, i + |a| + 1, ps, k + 1, rest);
      PiecesCons(s, i, ps, k, a, i + |text|);
    }
  }

  /** The three parts of an item. */
  lemma ItemParts(s: string, i: nat, p: Piece)
    requires p.Item? && Stands(s, i, PieceText(p))
    ensures Stands(s, i, p.before) && Stands(s, i + |p.before|, Quoted(p.value))
    ensures Stands(s, i + |p.before| + |Quoted(p.value)|, p.after)
    ensures |PieceText(p)| == |p.before| + |Quoted(p.value)| + |p.after|
  {
    StandsSplit(s, i, p.before + Quoted(p.value), p.after);
    StandsSplit(s, i, p.before, Quoted(p.value));
  }

  // ----- The end of the list -----

  lemma PastOne(s: string, i: nat, t: string, k: nat)
    requires k < |t| && Stands(s, i, t)
    ensures i + k < |s| && s[i + k] == t[k]
    ensures IsLoose(t[k]) ==> ListEnd(s, i + k, false) == ListEnd(s, i + (k + 1), false)
    ensures t[k] == BACKSLASH && k + 1 < |t| ==> ListEnd(s, i + k, false) == ListEnd(s, i + (k + 2), false)
  {
    assert t[k] == s[i + k];
  }

  lemma {:induction false} ListEndPastLoose(s: string, i: nat, t: string, k: nat)
    requires k <= |t| && Stands(s, i, t) && LooseFrom(t, k)
    ensures ListEnd(s, i + k, false) == ListEnd(s, i + |t|, false)
    decreases |t| - k
  {
    if k < |t| {
      PastOne(s, i, t, k);
      ListEndPastLoose(s, i, t, if IsLoose(t[k]) then k + 1 else k + 2);
    }
  }

  lemma {:induction false} SpaceIsLoose(t: string, k: nat)
    requires AllSpace(t) && k <= |t|
    ensures LooseFrom(t, k)
    decreases |t| - k
  {
    if k < |t| {
      assert IsSpace(t[k]);
      SpaceIsLoose(t, k + 1);
    }
  }

  lemma {:induction false} NoCommaInLoose(t: string, k: nat)
    requires k <= |t| && LooseFrom(t, k)
    ensures forall m :: k <= m < |t| ==> t[m] != COMMA
    decreases |t| - k
  {
    if k < |t| {
      NoCommaInLoose(t, if IsLoose(t[k]) then k + 1 else k + 2);
    }
  }

  lemma {:induction false} NoQuoteFirst(t: string, k: nat)
    requires k <= |t| && LooseFrom(t, k)
    ensures At(t, SkipSpace(t, k)) != QUOTE
    decreases |t| - k
  {
    if k < |t| && IsSpace(t[k]) {
      NoQuoteFirst(t, k + 1);
    }
  }

  lemma ListEndPastParts(s: string, i: nat, before: string, value: string, after: string)
    requires AllSpace(before) && Loose(after)
    requires Stands(s, i, before) && Stands(s, i + |before|, Quoted(value))
    requires Stands(s, i + |before| + |Quoted(value)|, after)
    ensures ListEnd(s, i, false) == ListEnd(s, i + |before| + |Quoted(value)| + |after|, false)
  {
    SpaceIsLoose(before, 0);
    ListEndPastLoose(s, i, before, 0);
    ListEndPastItem(s, i + |before|, value);
    ListEndPastLoose(s, i + |before| + |Quoted(value)|, after, 0);
  }

  lemma ListEndPastPiece(s: string, i: nat, p: Piece)
    requires Stands(s, i, PieceText(p)) && GoodPiece(p)
    ensures ListEnd(s, i, false) == ListEnd(s, i + |PieceText(p)|, false)
  {
    if p.Item? {
      ItemParts(s, i, p);
      ListEndPastParts(s, i, p.before, p.value, p.after);
    } else {
      ListEndPastLoose(s, i, p.text, 0);
    }
  }

  lemma ListEndPastComma(s: string, i: nat)
    requires i < |s| && s[i] == COMMA
    ensures ListEnd(s, i, false) == ListEnd(s, i + 1, false)
  {
  }

  lemma {:induction false} EndPastPieces(s: string, i: nat, ps: seq<Piece>, k: nat, end: nat)
    requires k <= |ps| && GoodPieces(ps) && PiecesAt(s, i, ps, k, end) && i <= |s|
    ensures i <= end <= |s| && ListEnd(s, i, false) == ListEnd(s, end, false)
    decreases |ps| - k
  {
    if k < |ps| {
      ListEndPastPiece(s, i, ps[k]);
      var p := i + |PieceText(ps[k])|;
      if k + 1 < |ps| {
        ListEndPastComma(s, p);
        EndPastPieces(s, p + 1, ps, k + 1, end);
      }
    }
  }

  lemma ListEndOfPieces(s: string, i: nat, ps: seq<Piece>, end: nat)
    requires GoodPieces(ps) && PiecesAt(s, i, ps, 0, end) && i <= |s| && end < |s| && s[end] == CLOSE
    ensures i <= end && ListEnd(s, i, false) == end
  {
    EndPastPieces(s, i, ps, 0, end);
  }

  // ----- Reading the pieces -----

  /** One past the first comma, be it in quotes, or the end. */
  lemma CommaAfter(c: string, j: nat, t: string)
    requires Stands(c, j, t) && COMMA !in t && (j + |t| < |c| ==> c[j + |t|] == COMMA)
    ensures AfterComma(c, j) == if j + |t| < |c| then j + |t| + 1 else |c|
  {
    var p := j + |t|;
    forall k | j <= k < p
      ensures c[k] != COMMA
    {
      assert t[k - j] == c[j + (k - j)];
    }
    IndexOfIs(c, COMMA, j, p);
  }

  function NextPiece(c: string, p: nat): nat {
    if p < |c| then p + 1 else |c|
  }

  /** What a piece must be to be read as it is between two commas: the text behind an item may hold
      quotes, other text must not start with one. */
  ghost predicate Separate(p: Piece) {
    match p
    case Item(before, value, after) =>
      AllSpace(before) && NulFree(value) && NoTrailingBackslash(value) && COMMA !in after
    case Junk(text) => COMMA !in text && At(text, SkipSpace(text, 0)) != QUOTE
  }

  lemma GoodIsSeparate(p: Piece)
    requires GoodPiece(p)
    ensures Separate(p)
  {
    var text := if p.Item? then p.after else p.text;
    NoCommaInLoose(text, 0);
    NoQuoteFirst(text, 0);
  }

  lemma ItemBehind(c: string, j: nat, value: string, after: string)
    requires NulFree(value) && NoTrailingBackslash(value) && COMMA !in after
    requires Stands(c, j, Quoted(value)) && Stands(c, j + |Quoted(value)|, after)
    requires var e := j + |Quoted(value)| + |after|; e < |c| ==> c[e] == COMMA
    ensures j < |c| && c[j] == QUOTE
    ensures ItemFrom(c, j) == (Some(value), NextPiece(c, j + |Quoted(value)| + |after|))
  {
    QuotedParts(c, j, value);
    ItemFromPrinted(c, j, value);
    CommaAfter(c, j + |Quoted(value)|, after);
  }

  lemma SpaceBefore(c: string, i: nat, before: string)
    requires AllSpace(before) && Stands(c, i, before)
    requires i + |before| < |c| && !IsSpace(c[i + |before|])
    ensures SkipSpace(c, i) == i + |before|
  {
    forall k | i <= k < i + |before|
      ensures IsSpace(c[k])
    {
      assert before[k - i] == c[i + (k - i)];
    }
    SkipsAll(c, i, i + |before|);
  }

  lemma ItemWhere(c: string, i: nat, before: string, value: string, after: string, end: nat)
    requires AllSpace(before) && NulFree(value) && NoTrailingBackslash(value) && COMMA !in after
    requires Stands(c, i, before) && Stands(c, i + |before|, Quoted(value))
    requires Stands(c, i + |before| + |Quoted(value)|, after) && end == i + |before| + |Quoted(value)| + |after|
    requires end < |c| ==> c[end] == COMMA
    ensures i < |c| && ItemAt(c, i) == (Some(value), NextPiece(c, end))
  {
    ItemBehind(c, i + |before|, value, after);
    SpaceBefore(c, i, before);
  }

  /** An item is read whatever white space stands before it and whatever text behind, up to the comma. */
  lemma ItemPiece(c: string, i: nat, p: Piece)
    requires p.Item? && Separate(p) && Stands(c, i, PieceText(p))
    requires var e := i + |PieceText(p)|; e < |c| ==> c[e] == COMMA
    ensures i < |c| && ItemAt(c, i) == (Some(p.value), NextPiece(c, i + |PieceText(p)|))
  {
    ItemParts(c, i, p);
    ItemWhere(c, i, p.before, p.value, p.after, i + |PieceText(p)|);
  }

  lemma {:induction false} SkipsAlike(c: string, i: nat, t: string, k: nat)
    requires k <= |t| && Stands(c, i, t) && (i + |t| < |c| ==> c[i + |t|] == COMMA)
    ensures SkipSpace(c, i + k) == i + SkipSpace(t, k)
    decreases |t| - k
  {
    if k < |t| {
      assert t[k] == c[i + k];
      SkipsAlike(c, i, t, k + 1);
    }
  }

  /** Any other piece yields no item, and its neighbour is read all the same. */
  lemma JunkPiece(c: string, i: nat, p: Piece)
    requires p.Junk? && Separate(p) && Stands(c, i, p.text) && i < |c|
    requires i + |p.text| < |c| ==> c[i + |p.text|] == COMMA
    ensures ItemAt(c, i) == (None, NextPiece(c, i + |p.text|))
  {
    var t := p.text;
    SkipsAlike(c, i, t, 0);
    var k := SkipSpace(t, 0);
    if i + k < |c| {
      assert k < |t| ==> t[k] == c[i + k];
      RestOfText(c, i, t, k);
      JunkFrom(c, i + k, t[k..]);
    }
  }

  lemma JunkFrom(c: string, j: nat, rest: string)
    requires j < |c| && c[j] != QUOTE && COMMA !in rest && Stands(c, j, rest)
    requires j + |rest| < |c| ==> c[j + |rest|] == COMMA
    ensures ItemFrom(c, j) == (None, NextPiece(c, j + |rest|))
  {
    CommaAfter(c, j, rest);
  }

  lemma RestOfText(c: string, i: nat, t: string, k: nat)
    requires k <= |t| && Stands(c, i, t)
    ensures Stands(c, i + k, t[k..])
  {
    forall m | 0 <= m < |t[k..]|
      ensures t[k..][m] == c[i + k + m]
    {
      assert t[k + m] == c[i + (k + m)];
    }
  }

  /** An item whose quote is never closed ends the list, commas or not. */
  lemma UnclosedPiece(c: string, i: nat, before: string, text: string)
    requires AllSpace(before) && QUOTE !in text && i <= |c| && c[i..] == before + [QUOTE] + text
    ensures i < |c| && ItemAt(c, i) == (None, |c|)
  {
    var rest, j := before + [QUOTE] + text, i + |before|;
    forall k | 0 <= k < |rest|
      ensures c[i + k] == rest[k]
    {
      assert c[i..][k] == rest[k];
    }
    assert c[i + |before|] == rest[|before|] == QUOTE;
    forall k | i <= k < j
      ensures IsSpace(c[k])
    {
      assert c[i + (k - i)] == before[k - i];
    }
    SkipsAll(c, i, j);
    forall k | j < k < |c|
      ensures c[k] != QUOTE
    {
      assert c[i + (k - i)] == text[k - j - 1];
    }
    assert CloseQuote(c, j + 1) == |c|;
  }

  /** One turn at `i` reads the piece and goes on at `next`. */
  predicate PieceTurn(c: string, i: nat, p: Piece, next: nat) {
    i < |c| && ItemAt(c, i) == (if p.Item? then Some(p.value) else None, next)
  }

  lemma PieceIsRead(c: string, i: nat, ps: seq<Piece>, k: nat) returns (next: nat)
    requires k < |ps| && GoodPieces(ps) && PiecesAt(c, i, ps, k, |c|) && i < |c|
    ensures PieceTurn(c, i, ps[k], next) && next <= |c| && PiecesAt(c, next, ps, k + 1, |c|)
  {
    next := NextPiece(c, i + |PieceText(ps[k])|);
    GoodIsSeparate(ps[k]);
    if ps[k].Item? {
      ItemPiece(c, i, ps[k]);
    } else {
      JunkPiece(c, i, ps[k]);
    }
  }

  /** Every turn from `i` on reads one piece, from `k` on; what is left at the end of the text has no
      values. */
  ghost predicate TurnsOver(c: string, i: nat, ps: seq<Piece>, k: nat)
    decreases |ps| - k
  {
    if i >= |c| then i == |c| && Values(ps, k) == []
    else k < |ps| && exists next :: PieceTurn(c, i, ps[k], next) && TurnsOver(c, next, ps, k + 1)
  }

  lemma ItemIsLong(p: Piece)
    requires p.Item?
    ensures |PieceText(p)| >= 2
  {
    assert |Quoted(p.value)| >= 2;
  }

  lemma EmptyPiece(c: string, ps: seq<Piece>, k: nat)
    requires k < |ps| && PiecesAt(c, |c|, ps, k, |c|)
    ensures Values(ps, k) == []
  {
    if ps[k].Item? {
      ItemIsLong(ps[k]);
    }
  }

  lemma {:induction false} PiecesTurn(c: string, i: nat, ps: seq<Piece>, k: nat)
    requires k <= |ps| && i <= |c| && GoodPieces(ps) && PiecesAt(c, i, ps, k, |c|)
    ensures TurnsOver(c, i, ps, k)
    decreases |ps| - k
  {
    if i < |c| {
      var next := PieceIsRead(c, i, ps, k);
      PiecesTurn(c, next, ps, k + 1);
    } else if k < |ps| {
      EmptyPiece(c, ps, k);
    }
  }

  /** One turn, seen from what is read. */
  lemma PieceReads(c: string, i: nat, p: Piece, next: nat, cap: nat, less: nat, read: seq<string>)
    returns (rest: seq<string>)
    requires cap > 0 && PieceTurn(c, i, p, next) && less == cap - |ValueOf(p)| && read == Items(c, i, cap)
    ensures next <= |c| && rest == Items(c, next, less) && read == ValueOf(p) + rest
  {
    rest := ItemsUnfold(c, i, cap, if p.Item? then Some(p.value) else None, next, read);
  }

  lemma ValuesCons(ps: seq<Piece>, k: nat, cap: nat, less: nat, rest: seq<string>)
    requires k < |ps| && cap > 0 && less == cap - |ValueOf(ps[k])| && rest == FirstOf(Values(ps, k + 1), less)
    ensures ValueOf(ps[k]) + rest == FirstOf(Values(ps, k), cap)
  {
    FirstOfJoined(ValueOf(ps[k]), Values(ps, k + 1), cap);
  }

  /** What is read from `i` on is the first values from `k` on. */
  ghost predicate ReadsFirst(c: string, i: nat, ps: seq<Piece>, k: nat, cap: nat) {
    i <= |c| && Items(c, i, cap) == FirstOf(Values(ps, k), cap)
  }

  lemma NothingLeft(c: string, i: nat, ps: seq<Piece>, k: nat, cap: nat)
    requires i <= |c| && TurnsOver(c, i, ps, k) && (i == |c| || cap == 0)
    ensures ReadsFirst(c, i, ps, k, cap)
  {
  }

  lemma NextTurn(c: string, i: nat, ps: seq<Piece>, k: nat) returns (next: nat)
    requires i < |c| && TurnsOver(c, i, ps, k)
    ensures k < |ps| && PieceTurn(c, i, ps[k], next) && TurnsOver(c, next, ps, k + 1)
  {
    next :| PieceTurn(c, i, ps[k], next) && TurnsOver(c, next, ps, k + 1);
  }

  lemma ReadsFirstCons(c: string, i: nat, ps: seq<Piece>, k: nat, cap: nat, next: nat, less: nat)
    requires k < |ps| && cap > 0 && PieceTurn(c, i, ps[k], next) && less == cap - |ValueOf(ps[k])|
    requires ReadsFirst(c, next, ps, k + 1, less)
    ensures ReadsFirst(c, i, ps, k, cap)
  {
    var rest := PieceReads(c, i, ps[k], next, cap, less, Items(c, i, cap));
    ValuesCons(ps, k, cap, less, rest);
  }

  lemma TurnInside(c: string, i: nat, p: Piece, next: nat)
    requires PieceTurn(c, i, p, next)
    ensures i < next <= |c| && |ValueOf(p)| <= 1
  {
  }

  lemma {:induction false} ItemsOfPieces(c: string, i: nat, ps: seq<Piece>, k: nat, cap: nat)
    requires i <= |c| && TurnsOver(c, i, ps, k)
    ensures ReadsFirst(c, i, ps, k, cap)
    decreases |ps| - k
  {
    if i == |c| || cap == 0 {
      NothingLeft(c, i, ps, k, cap);
    } else {
      var next := NextTurn(c, i, ps, k);
      TurnInside(c, i, ps[k], next);
      var less := cap - |ValueOf(ps[k])|;
      ItemsOfPieces(c, next, ps, k + 1, less);
      ReadsFirstCons(c, i, ps, k, cap, next, less);
    }
  }

  lemma WrittenContent(prefix: string, ps: seq<Piece>, suffix: string, joined: string)
    requires OPEN !in prefix && |prefix + ListOf(ps)| <= 1024 && GoodPieces(ps) && joined == JoinPieces(ps, 0)
    ensures ListContent(prefix + ListOf(ps) + suffix) == Some(joined)
  {
    var b := BufferedList(prefix, joined, suffix);
    var i := |prefix| + 1;
    JoinStands(b, i, ps, 0, joined);
    ListEndOfPieces(b, i, ps, i + |joined|);
    ContentIs(prefix + ListOf(ps) + suffix, b, |prefix|, i + |joined|);
  }

  lemma JoinedPiecesTurn(ps: seq<Piece>, joined: string)
    requires GoodPieces(ps) && joined == JoinPieces(ps, 0)
    ensures TurnsOver(joined, 0, ps, 0)
  {
    JoinStands(joined, 0, ps, 0, joined);
    PiecesTurn(joined, 0, ps, 0);
  }

  lemma JoinedPiecesRead(ps: seq<Piece>, joined: string, cap: nat, read: seq<string>)
    requires GoodPieces(ps) && joined == JoinPieces(ps, 0) && read == Items(joined, 0, cap)
    ensures read == FirstOf(Values(ps, 0), cap)
  {
    JoinedPiecesTurn(ps, joined);
    ItemsOfPieces(joined, 0, ps, 0, cap);
  }

  /** A list written in any of these ways gives the values of its items, up to the cap, wherever it
      stands in a line that fits. */
  lemma WrittenList(prefix: string, ps: seq<Piece>, suffix: string, cap: nat)
    requires OPEN !in prefix && |prefix + ListOf(ps)| <= 1024 && GoodPieces(ps)
    ensures ParseList(prefix + ListOf(ps) + suffix, cap) == FirstOf(Values(ps, 0), cap)
  {
    var joined := JoinPieces(ps, 0);
    WrittenContent(prefix, ps, suffix, joined);
    JoinedPiecesRead(ps, joined, cap, Items(joined, 0, cap));
  }

  /** There is no list without an opening bracket, nor without a closing one among the characters
      that the buffer keeps. */
  lemma NoList(s: string, cap: nat)
    requires OPEN !in s || CLOSE !in s[..if |s| < 1024 then |s| else 1024]
    ensures ParseList(s, cap) == []
  {
    var b := Buffered(s);
    if OPEN !in s {
      assert forall k :: 0 <= k < |b| ==> b[k] == s[k];
      IndexOfIs(b, OPEN, 0, |b|);
    } else {
      assert b == s[..if |s| < 1024 then |s| else 1024];
    }
  }

  lemma {:induction false} QuoteStaysOpen(s: string, i: nat)
    requires i <= |s| && forall k :: i <= k < |s| ==> s[k] != QUOTE && s[k] != BACKSLASH
    ensures ListEnd(s, i, true) == |s|
    decreases |s| - i
  {
    if i < |s| {
      QuoteStaysOpen(s, i + 1);
    }
  }

  lemma UnclosedContent(s: string, open: nat, end: nat)
    requires |s| <= 1024 && IndexOf(s, OPEN, 0) == open < end < |s| && s[end] == QUOTE
    requires ListEnd(s, open + 1, false) == ListEnd(s, end, false)
    requires forall k :: end < k < |s| ==> s[k] != QUOTE && s[k] != BACKSLASH
    ensures ListContent(s) == None
  {
    QuoteStaysOpen(s, end + 1);
  }

  lemma UnclosedAt(s: string, open: nat, ps: seq<Piece>, joined: string, end: nat)
    requires |s| <= 1024 && IndexOf(s, OPEN, 0) == open < |s| && GoodPieces(ps) && joined == JoinPieces(ps, 0)
    requires Stands(s, open + 1, joined) && end == open + 1 + |joined| && end < |s| && s[end] == QUOTE
    requires forall k :: end < k < |s| ==> s[k] != QUOTE && s[k] != BACKSLASH
    ensures ListContent(s) == None
  {
    JoinStands(s, open + 1, ps, 0, joined);
    EndPastPieces(s, open + 1, ps, 0, end);
    UnclosedContent(s, open, end);
  }

  lemma UnclosedParts(prefix: string, joined: string, text: string) returns (s: string)
    requires OPEN !in prefix && QUOTE !in text && BACKSLASH !in text
    ensures s == prefix + [OPEN] + joined + [QUOTE] + text && IndexOf(s, OPEN, 0) == |prefix|
    ensures var end := |prefix| + 1 + |joined|;
            && end < |s| && s[end] == QUOTE && Stands(s, |prefix| + 1, joined)
            && forall k :: end < k < |s| ==> s[k] != QUOTE && s[k] != BACKSLASH
  {
    s := prefix + [OPEN] + joined + [QUOTE] + text;
    var end := |prefix| + 1 + |joined|;
    assert s[|prefix|] == OPEN;
    IndexOfIs(s, OPEN, 0, |prefix|);
    forall k | end < k < |s|
      ensures s[k] != QUOTE && s[k] != BACKSLASH
    {
      assert s[k] == text[k - end - 1];
    }
  }

  lemma UnclosedJoined(prefix: string, ps: seq<Piece>, joined: string, text: string)
    requires OPEN !in prefix && GoodPieces(ps) && QUOTE !in text && BACKSLASH !in text
    requires joined == JoinPieces(ps, 0) && |prefix + [OPEN] + joined + [QUOTE] + text| <= 1024
    ensures ListContent(prefix + [OPEN] + joined + [QUOTE] + text) == None
  {
    var s := UnclosedParts(prefix, joined, text);
    UnclosedAt(s, |prefix|, ps, joined, |prefix| + 1 + |joined|);
  }

  /** A bracket in a quote that is never closed does not end the list: there is none. */
  lemma UnclosedList(prefix: string, ps: seq<Piece>, text: string, cap: nat)
    requires OPEN !in prefix && GoodPieces(ps) && QUOTE !in text && BACKSLASH !in text
    requires |prefix + [OPEN] + JoinPieces(ps, 0) + [QUOTE] + text| <= 1024
    ensures ParseList(prefix + [OPEN] + JoinPieces(ps, 0) + [QUOTE] + text, cap) == []
  {
    UnclosedJoined(prefix, ps, JoinPieces(ps, 0), text);
  }
}
