/** The bracketed list of quoted strings: `parse_string_list` and its copy `parse_patch_entry`
    (game_patch/my_string.h:268-379, game_patch/patch.c:35-131).
  */
module StringList {
  import opened CText
  import opened QuotedText

  const MAX_PATCH_PARAMS: nat := 8
  const OPEN: char := '['
  const CLOSE: char := ']'
  const COMMA: char := ','

  // ----- What the scanners compute -----

  /** The line buffer holds at most MAX_LINE_LENGTH characters. */
  function Buffered(s: string): (b: string)
    ensures b <= s && |b| <= MAX_LINE_LENGTH
  {
    if |s| <= MAX_LINE_LENGTH then s else s[..MAX_LINE_LENGTH]
  }

  /** The closing bracket outside quotes, from `i` on, or the length. */
  function ListEnd(s: string, i: nat, inQuote: bool): (r: nat)
    requires i <= |s|
    ensures i <= r <= |s| && (r < |s| ==> s[r] == CLOSE)
    decreases |s| - i
  {
    if i == |s| then i
    else if s[i] == BACKSLASH && i + 1 < |s| then ListEnd(s, i + 2, inQuote)
    else
      var q := if s[i] == QUOTE then !inQuote else inQuote;
      if !q && s[i] == CLOSE then i else ListEnd(s, i + 1, q)
  }

  /** The quote that closes the item opened just before `p`: the first one that is not right
      after a backslash, skipping escaped pairs. */
  function CloseQuote(c: string, p: nat): (r: nat)
    requires 0 < p <= |c|
    ensures p <= r <= |c| && (r < |c| ==> c[r] == QUOTE && c[r - 1] != BACKSLASH)
    decreases |c| - p
  {
    if p == |c| || (c[p] == QUOTE && c[p - 1] != BACKSLASH) then p
    else if c[p] == BACKSLASH && p + 1 < |c| then CloseQuote(c, p + 2)
    else CloseQuote(c, p + 1)
  }

  /** Just past the next comma, or the length. */
  function AfterComma(c: string, p: nat): (r: nat)
    requires p <= |c|
    ensures p <= r <= |c| && (p < |c| ==> p < r)
    ensures r < |c| ==> r > 0 && c[r - 1] == COMMA
  {
    var k := IndexOf(c, COMMA, p);
    if k < |c| then k + 1 else k
  }

  /** The item, if any, in the text at `j`, and where the text after it starts. */
  function ItemFrom(c: string, j: nat): (r: (Option<string>, nat))
    requires j < |c|
    ensures j < r.1 <= |c|
  {
    if c[j] != QUOTE then (None, AfterComma(c, j))
    else
      var k := CloseQuote(c, j + 1);
      if k == |c| then (None, k) else (ParseQuoted(c[j..k + 1]), AfterComma(c, k + 1))
  }

  /** One turn of the item loop at `i`: the item, if any, and where the next turn starts. */
  function ItemAt(c: string, i: nat): (r: (Option<string>, nat))
    requires i < |c|
    ensures i < r.1 <= |c|
  {
    var j := SkipSpace(c, i);
    if j == |c| then (None, j) else ItemFrom(c, j)
  }

  function Items(c: string, i: nat, cap: nat): (items: seq<string>)
    requires i <= |c|
    ensures |items| <= cap
    decreases |c| - i
  {
    if i == |c| || cap == 0 then []
    else
      var (item, next) := ItemAt(c, i);
      match item
      case None => Items(c, next, cap)
      case Some(s) => [s] + Items(c, next, cap - 1)
  }

  /** The text between the brackets, if there is any. */
  function ListContent(s: string): Option<string> {
    var b := Buffered(s);
    var open := IndexOf(b, OPEN, 0);
    if open == |b| then None
    else
      var end := ListEnd(b, open + 1, false);
      if end == |b| then None else Some(b[open + 1..end])
  }

  function ParseList(s: string, cap: nat): seq<string> {
    match ListContent(s)
    case None => []
    case Some(c) => Items(c, 0, cap)
  }

  // ----- The methods -----

  /** The common first half: cut the buffer at the closing bracket. */
  method FindContent(s: string) returns (content: Option<string>)
    requires NulFree(s)
    ensures content == ListContent(s)
    ensures content.Some? ==> NulFree(content.value)
  {
    var buffer := Buffered(s);
    var start := IndexOf(buffer, OPEN, 0);
    if start == |buffer| {
      return None;
    }
    start := start + 1;
    var end := start;
    var inQuote := false;
    while At(buffer, end) != NUL
      invariant start <= end <= |buffer| && ListEnd(buffer, start, false) == ListEnd(buffer, end, inQuote)
      decreases |buffer| - end
    {
      if buffer[end] == BACKSLASH && At(buffer, end + 1) != NUL {
        end := end + 2;
        continue;
      }
      if buffer[end] == QUOTE {
        inQuote := !inQuote;
      }
      if !inQuote && buffer[end] == CLOSE {
        break;
      }
      end := end + 1;
    }
    if At(buffer, end) != CLOSE {
      return None;
    }
    return Some(buffer[start..end]);
  }

  /** The scan for the quote that closes an item. */
  method FindCloseQuote(c: string, start: nat) returns (pos: nat)
    requires NulFree(c) && 0 < start <= |c|
    ensures pos == CloseQuote(c, start)
  {
    pos := start;
    while At(c, pos) != NUL && !(c[pos] == QUOTE && c[pos - 1] != BACKSLASH)
      invariant start <= pos <= |c| && CloseQuote(c, start) == CloseQuote(c, pos)
      decreases |c| - pos
    {
      if c[pos] == BACKSLASH && At(c, pos + 1) != NUL {
        pos := pos + 2;
      } else {
        pos := pos + 1;
      }
    }
  }

  /** The item that opens at `quoteStart`, if it closes, and the position after it. */
  method ReadItem(c: string, quoteStart: nat) returns (item: Option<string>, pos: nat)
    requires NulFree(c) && quoteStart < |c| && c[quoteStart] == QUOTE
    ensures var k := CloseQuote(c, quoteStart + 1);
            && item == (if k < |c| then ParseQuoted(c[quoteStart..k + 1]) else None)
            && pos == (if k < |c| then k + 1 else k)
  {
    item := None;
    pos := FindCloseQuote(c, quoteStart + 1);
    if At(c, pos) == QUOTE {
      pos := pos + 1;
      item := ParseQuotedString(c[quoteStart..pos]);
    }
  }

  method SkipPastComma(c: string, start: nat) returns (pos: nat)
    requires NulFree(c) && start <= |c|
    ensures pos == AfterComma(c, start)
  {
    pos := start;
    while At(c, pos) != NUL && c[pos] != COMMA
      invariant start <= pos <= |c| && IndexOf(c, COMMA, start) == IndexOf(c, COMMA, pos)
      decreases |c| - pos
    {
      pos := pos + 1;
    }
    if At(c, pos) == COMMA {
      pos := pos + 1;
    }
  }

  method ParseItemFrom(c: string, start: nat) returns (item: Option<string>, pos: nat)
    requires NulFree(c) && start < |c|
    ensures (item, pos) == ItemFrom(c, start)
  {
    item, pos := None, start;
    if c[pos] == QUOTE {
      item, pos := ReadItem(c, pos);
    }
    pos := SkipPastComma(c, pos);
  }

  /** One turn of the item loop, advancing `pos`. */
  method ParseItem(c: string, start: nat) returns (item: Option<string>, pos: nat)
    requires NulFree(c) && start < |c|
    ensures (item, pos) == ItemAt(c, start)
  {
    pos := start;
    item := None;
    while At(c, pos) != NUL && IsSpace(At(c, pos))
      invariant pos <= |c| && SkipSpace(c, start) == SkipSpace(c, pos)
      decreases |c| - pos
    {
      pos := pos + 1;
    }
    if At(c, pos) == NUL {
      return;
    }
    item, pos := ParseItemFrom(c, pos);
  }

  function AsSeq(item: Option<string>): (r: seq<string>) {
    if item.Some? then [item.value] else []
  }

  /** One turn of the item loop: parse and store. */
  method TakeItem(c: string, pos: nat, output: array<string>, count: nat)
    returns (count': nat, pos': nat, ghost item: Option<string>)
    requires NulFree(c) && pos < |c| && count < output.Length
    modifies output
    ensures (item, pos') == ItemAt(c, pos)
    ensures count' == count + |AsSeq(item)| && output[..count'] == old(output[..count]) + AsSeq(item)
  {
    var parsed, next := ParseItem(c, pos);
    item := parsed;
    count', pos' := count, next;
    if parsed.Some? {
      output[count] := parsed.value;
      count' := count + 1;
    }
  }

  lemma ItemsUnfold(c: string, i: nat, cap: nat, item: Option<string>, next: nat, all: seq<string>)
    returns (rest: seq<string>)
    requires i < |c| && cap > 0 && (item, next) == ItemAt(c, i) && all == Items(c, i, cap)
    ensures i < next <= |c| && rest == Items(c, next, cap - |AsSeq(item)|) && all == AsSeq(item) + rest
  {
    rest := Items(c, next, cap - |AsSeq(item)|);
  }

  lemma TurnLeavesRest(c: string, i: nat, cap: nat, item: Option<string>, next: nat, less: int, before: seq<string>,
                       all: seq<string>)
    returns (rest: seq<string>)
    requires i < |c| && cap > 0 && (item, next) == ItemAt(c, i) && all == Items(c, i, cap)
    requires less == cap - |AsSeq(item)|
    ensures i < next <= |c| && less >= 0 && rest == Items(c, next, less) &&
            (before + AsSeq(item)) + rest == before + all
  {
    rest := ItemsUnfold(c, i, cap, item, next, all);
    Associative(before, AsSeq(item), rest);
  }

  lemma Associative(a: seq<string>, b: seq<string>, c: seq<string>)
    ensures a + (b + c) == (a + b) + c
  {
  }

  /** One turn against what was left to parse, `rest`, with room for `left` items. */
  method TakeTurn(c: string, pos: nat, output: array<string>, count: nat, ghost left: nat, ghost rest: seq<string>)
    returns (count': nat, pos': nat, ghost left': nat, ghost rest': seq<string>)
    requires NulFree(c) && pos < |c| && left > 0 && count + left <= output.Length && rest == Items(c, pos, left)
    modifies output
    ensures pos < pos' <= |c| && count' + left' == count + left && rest' == Items(c, pos', left')
    ensures output[..count'] + rest' == old(output[..count]) + rest
  {
    ghost var before, item := output[..count], None;
    count', pos', item := TakeItem(c, pos, output, count);
    left' := left - |AsSeq(item)|;
    rest' := TurnLeavesRest(c, pos, left, item, pos', left', before, rest);
  }

  function FirstOf(items: seq<string>, n: nat): (r: seq<string>) {
    if n <= |items| then items[..n] else items
  }

  lemma FirstOfJoined(read: seq<string>, rest: seq<string>, n: nat)
    requires |read| <= n
    ensures FirstOf(read + rest, n) == read + FirstOf(rest, n - |read|)
  {
  }

  /** The item loop. */
  method ParseItems(c: string, output: array<string>, maxItems: nat) returns (count: nat)
    requires NulFree(c) && maxItems <= output.Length
    modifies output
    ensures count <= maxItems && output[..count] == Items(c, 0, maxItems)
  {
    count := 0;
    var pos: nat := 0;
    ghost var all := Items(c, 0, maxItems);
    ghost var left, rest := maxItems, all;
    while At(c, pos) != NUL && count < maxItems
      invariant pos <= |c| && count + left == maxItems
      invariant rest == Items(c, pos, left) && output[..count] + rest == all
      decreases |c| - pos
    {
      count, pos, left, rest := TakeTurn(c, pos, output, count, left, rest);
    }
  }

  /** Fills `output` with at most `maxItems` strings. */
  method ParseStringList(s: string, output: array<string>, maxItems: nat) returns (count: nat)
    requires NulFree(s) && maxItems <= output.Length
    modifies output
    ensures count <= maxItems && output[..count] == ParseList(s, maxItems)
  {
    var content := FindContent(s);
    if content.None? {
      return 0;
    }
    count := ParseItems(content.value, output, maxItems);
  }

  /** The parameters of one patch line; the entry is left alone when there is no list. */
  class PatchEntryBuffer {
    const params: array<string>
    var paramCount: nat

    constructor ()
      ensures fresh(params) && params.Length == MAX_PATCH_PARAMS && paramCount == 0
    {
      params := new string[MAX_PATCH_PARAMS](_ => "");
      paramCount := 0;
    }

    method ParsePatchEntry(s: string) returns (count: nat)
      requires NulFree(s) && params.Length == MAX_PATCH_PARAMS
      modifies this, params
      ensures count <= MAX_PATCH_PARAMS && params[..count] == ParseList(s, MAX_PATCH_PARAMS)
      ensures paramCount == if ListContent(s).None? then old(paramCount) else count
    {
      var content := FindContent(s);
      if content.None? {
        return 0;
      }
      paramCount := 0;
      count := ParseItems(content.value, params, MAX_PATCH_PARAMS);
      paramCount := count;
    }
  }

  // ----- Caps -----

  /** What each turn offers, whether or not there is room for it. */
  function Offered(c: string, i: nat): seq<Option<string>>
    requires i <= |c|
    decreases |c| - i
  {
    if i == |c| then [] else [ItemAt(c, i).0] + Offered(c, ItemAt(c, i).1)
  }

  /** The first `cap` of the items offered. */
  function Taken(offered: seq<Option<string>>, cap: nat): (items: seq<string>)
    ensures |items| <= cap
    decreases |offered|
  {
    if offered == [] || cap == 0 then []
    else AsSeq(offered[0]) + Taken(offered[1..], cap - |AsSeq(offered[0])|)
  }

  lemma TakenCons(item: Option<string>, rest: seq<Option<string>>, cap: nat)
    requires cap > 0
    ensures Taken([item] + rest, cap) == AsSeq(item) + Taken(rest, cap - |AsSeq(item)|)
  {
    assert ([item] + rest)[1..] == rest;
  }

  lemma OfferedTurn(c: string, i: nat, item: Option<string>, next: nat, offered: seq<Option<string>>)
    returns (rest: seq<Option<string>>)
    requires i < |c| && (item, next) == ItemAt(c, i) && offered == Offered(c, i)
    ensures i < next <= |c| && rest == Offered(c, next) && offered == [item] + rest
  {
    rest := Offered(c, next);
  }

  /** One turn, seen from both sides. */
  lemma OneTurn(c: string, i: nat, cap: nat, all: seq<string>, offered: seq<Option<string>>)
    returns (item: Option<string>, next: nat, less: nat, all': seq<string>, offered': seq<Option<string>>)
    requires i < |c| && cap > 0 && all == Items(c, i, cap) && offered == Offered(c, i)
    ensures i < next <= |c| && less == cap - |AsSeq(item)| && all' == Items(c, next, less) &&
            offered' == Offered(c, next)
    ensures all == AsSeq(item) + all' && offered == [item] + offered'
  {
    item, next := ItemAt(c, i).0, ItemAt(c, i).1;
    less := cap - |AsSeq(item)|;
    all' := ItemsUnfold(c, i, cap, item, next, all);
    offered' := OfferedTurn(c, i, item, next, offered);
  }

  /** From `i` on the first `cap` of the items offered are read. */
  predicate TakesFirst(c: string, i: nat, cap: nat)
    requires i <= |c|
  {
    Items(c, i, cap) == Taken(Offered(c, i), cap)
  }

  lemma NoneTaken(c: string, i: nat, cap: nat)
    requires i <= |c| && (i == |c| || cap == 0)
    ensures TakesFirst(c, i, cap)
  {
  }

  lemma TakenBoth(item: Option<string>, all: seq<string>, all': seq<string>, offered: seq<Option<string>>,
                  offered': seq<Option<string>>, cap: nat, less: nat)
    requires cap > 0 && less == cap - |AsSeq(item)| && all == AsSeq(item) + all' && offered == [item] + offered'
    ensures all' == Taken(offered', less) ==> all == Taken(offered, cap)
  {
    TakenCons(item, offered', cap);
  }

  /** One turn, seen from what is taken. */
  lemma OneTaken(c: string, i: nat, cap: nat, all: seq<string>, offered: seq<Option<string>>)
    returns (next: nat, less: nat, all': seq<string>, offered': seq<Option<string>>)
    requires i < |c| && cap > 0 && all == Items(c, i, cap) && offered == Offered(c, i)
    ensures i < next <= |c| && less <= cap && all' == Items(c, next, less) && offered' == Offered(c, next)
    ensures all' == Taken(offered', less) ==> all == Taken(offered, cap)
  {
    var item;
    item, next, less, all', offered' := OneTurn(c, i, cap, all, offered);
    TakenBoth(item, all, all', offered, offered', cap, less);
  }

  lemma TakesFirstCons(c: string, i: nat, cap: nat) returns (next: nat, less: nat)
    requires i < |c| && cap > 0
    ensures i < next <= |c| && less <= cap && (TakesFirst(c, next, less) ==> TakesFirst(c, i, cap))
  {
    var all', offered';
    next, less, all', offered' := OneTaken(c, i, cap, Items(c, i, cap), Offered(c, i));
  }

  lemma {:induction false} ItemsAreTaken(c: string, i: nat, cap: nat)
    requires i <= |c|
    ensures TakesFirst(c, i, cap)
    decreases |c| - i
  {
    if i == |c| || cap == 0 {
      NoneTaken(c, i, cap);
    } else {
      var next, less := TakesFirstCons(c, i, cap);
      ItemsAreTaken(c, next, less);
    }
  }

  lemma {:induction false} FewerTaken(offered: seq<Option<string>>, small: nat, large: nat)
    requires small <= large
    ensures Taken(offered, small) == FirstOf(Taken(offered, large), small)
    decreases |offered|
  {
    if offered != [] && small > 0 {
      var read := AsSeq(offered[0]);
      FewerTaken(offered[1..], small - |read|, large - |read|);
      FirstOfJoined(read, Taken(offered[1..], large - |read|), small);
    }
  }

  /** A smaller cap gives a prefix of what a larger cap gives. */
  lemma SmallerCapIsPrefix(c: string, i: nat, small: nat, large: nat)
    requires i <= |c| && small <= large
    ensures Items(c, i, small) == FirstOf(Items(c, i, large), small)
  {
    ItemsAreTaken(c, i, small);
    ItemsAreTaken(c, i, large);
    FewerTaken(Offered(c, i), small, large);
  }

  /** A smaller cap gives a prefix of what a larger one gives, and the whole of it when it fits;
      with a cap of eight the list parser is the patch-entry parser. */
  lemma CappedList(s: string, small: nat, large: nat)
    requires small <= large
    ensures ParseList(s, small) <= ParseList(s, large)
    ensures |ParseList(s, large)| <= small ==> ParseList(s, small) == ParseList(s, large)
  {
    if ListContent(s).Some? {
      SmallerCapIsPrefix(ListContent(s).value, 0, small, large);
    }
  }

  // ----- The printer -----

  /** The items from index `k` on, quoted and separated by comma and space. */
  function JoinFrom(items: seq<string>, k: nat): string
    decreases |items| - k
  {
    if k >= |items| then []
    else if k + 1 == |items| then Quoted(items[k])
    else Quoted(items[k]) + ([COMMA, ' '] + JoinFrom(items, k + 1))
  }

  function PrintList(items: seq<string>): string {
    [OPEN] + JoinFrom(items, 0) + [CLOSE]
  }

  predicate NoTrailingBackslash(t: string) {
    t == [] || t[|t| - 1] != BACKSLASH
  }

  // The end of the list.

  lemma ListEndPastUnit(s: string, i: nat, c: char)
    requires Stands(s, i, EscapeChar(c))
    ensures ListEnd(s, i, true) == ListEnd(s, i + |EscapeChar(c)|, true)
  {
    assert EscapeChar(c)[0] == s[i + 0];
  }

  lemma {:induction false} ListEndInQuote(s: string, i: nat, t: string, k: nat)
    requires k <= |t| && Stands(s, i, EscapeFrom(t, k))
    requires i + |EscapeFrom(t, k)| < |s| && s[i + |EscapeFrom(t, k)|] == QUOTE
    ensures ListEnd(s, i, true) == ListEnd(s, i + |EscapeFrom(t, k)| + 1, false)
    decreases |t| - k
  {
    if k < |t| {
      EscapedHead(s, i, t, k);
      ListEndPastUnit(s, i, t[k]);
      ListEndInQuote(s, i + |EscapeChar(t[k])|, t, k + 1);
    }
  }

  /** A quoted string standing at `i`: its quotes, and its escaped content. */
  lemma QuotedParts(s: string, i: nat, t: string)
    requires Stands(s, i, Quoted(t))
    ensures i < |s| && s[i] == QUOTE && Stands(s, i + 1, Escape(t))
    ensures |Quoted(t)| == |Escape(t)| + 2 && s[i + 1 + |Escape(t)|] == QUOTE
  {
    StandsSplit(s, i, [QUOTE] + Escape(t), [QUOTE]);
    StandsSplit(s, i, [QUOTE], Escape(t));
    assert [QUOTE][0] == s[i + 0];
    assert [QUOTE][0] == s[i + 1 + |Escape(t)| + 0];
  }

  lemma ListEndPastItem(s: string, i: nat, t: string)
    requires Stands(s, i, Quoted(t))
    ensures ListEnd(s, i, false) == ListEnd(s, i + |Quoted(t)|, false)
  {
    QuotedParts(s, i, t);
    ListEndInQuote(s, i + 1, t, 0);
  }

  lemma ListEndPastSeparator(s: string, i: nat)
    requires i + 1 < |s| && s[i] == COMMA && s[i + 1] == ' '
    ensures ListEnd(s, i, false) == ListEnd(s, i + 2, false)
  {
  }

  lemma SeparatedStands(s: string, i: nat, q: string, rest: string)
    requires Stands(s, i, q + ([COMMA, ' '] + rest))
    ensures Stands(s, i, q) && |q + ([COMMA, ' '] + rest)| == |q| + 2 + |rest|
    ensures var p := i + |q|; p + 1 < |s| && s[p] == COMMA && s[p + 1] == ' ' && Stands(s, p + 2, rest)
  {
    StandsSplit(s, i, q, [COMMA, ' '] + rest);
    StandsSplit(s, i + |q|, [COMMA, ' '], rest);
    assert [COMMA, ' '][0] == s[i + |q| + 0] && [COMMA, ' '][1] == s[i + |q| + 1];
  }

  /** The items from `k` on stand printed in `s` from `i` up to `end`. */
  ghost predicate PrintedAt(s: string, i: nat, items: seq<string>, k: nat, end: nat)
    decreases |items| - k
  {
    if k >= |items| then i == end
    else
      && Stands(s, i, Quoted(items[k]))
      && var p := i + |Quoted(items[k])|;
         if k + 1 == |items| then p == end
         else p + 1 < |s| && s[p] == COMMA && s[p + 1] == ' ' && PrintedAt(s, p + 2, items, k + 1, end)
  }

  lemma PrintedCons(s: string, i: nat, items: seq<string>, k: nat, q: string, end: nat)
    requires k + 1 < |items| && q == Quoted(items[k]) && Stands(s, i, q)
    requires var p := i + |q|; p + 1 < |s| && s[p] == COMMA && s[p + 1] == ' ' && PrintedAt(s, p + 2, items, k + 1, end)
    ensures PrintedAt(s, i, items, k, end)
  {
  }

  /** The text of the items from `k` on: the first one, and the rest behind its separator. */
  lemma JoinedParts(items: seq<string>, k: nat, text: string) returns (q: string, rest: string)
    requires k < |items| && text == JoinFrom(items, k)
    ensures q == Quoted(items[k]) && rest == JoinFrom(items, k + 1)
    ensures text == if k + 1 == |items| then q else q + ([COMMA, ' '] + rest)
  {
    q, rest := Quoted(items[k]), JoinFrom(items, k + 1);
  }

  lemma JoinedHead(s: string, i: nat, items: seq<string>, k: nat, text: string) returns (q: string, rest: string)
    requires k + 1 < |items| && text == JoinFrom(items, k) && Stands(s, i, text)
    ensures q == Quoted(items[k]) && rest == JoinFrom(items, k + 1) && Stands(s, i, q)
    ensures var p := i + |q|; p + 1 < |s| && s[p] == COMMA && s[p + 1] == ' ' && Stands(s, p + 2, rest)
    ensures |text| == |q| + 2 + |rest|
  {
    q, rest := JoinedParts(items, k, text);
    SeparatedStands(s, i, q, rest);
  }

  lemma JoinEnds(s: string, i: nat, items: seq<string>, k: nat, text: string, end: nat)
    requires k <= |items| <= k + 1 && text == JoinFrom(items, k) && Stands(s, i, text) && end == i + |text|
    ensures PrintedAt(s, i, items, k, end)
  {
  }

  lemma {:induction false} JoinStandsPrinted(s: string, i: nat, items: seq<string>, k: nat, text: string, end: nat)
    requires k <= |items| && text == JoinFrom(items, k) && Stands(s, i, text) && end == i + |text|
    ensures PrintedAt(s, i, items, k, end)
    decreases |items| - k
  {
    if k + 1 < |items| {
      var q, rest := JoinedHead(s, i, items, k, text);
      JoinStandsPrinted(s, i + |q| + 2, items, k + 1, rest, end);
      PrintedCons(s, i, items, k, q, end);
    } else {
      JoinEnds(s, i, items, k, text, end);
    }
  }

  lemma ListEndPastBoth(s: string, i: nat, t: string)
    requires Stands(s, i, Quoted(t)) && i + |Quoted(t)| + 1 < |s|
    requires s[i + |Quoted(t)|] == COMMA && s[i + |Quoted(t)| + 1] == ' '
    ensures ListEnd(s, i, false) == ListEnd(s, i + |Quoted(t)| + 2, false)
  {
    ListEndPastItem(s, i, t);
    ListEndPastSeparator(s, i + |Quoted(t)|);
  }

  /** Brackets and commas inside items do not end the list; the printed bracket does. */
  lemma {:induction false} ListEndOfPrinted(s: string, i: nat, items: seq<string>, k: nat, end: nat)
    requires k <= |items| && PrintedAt(s, i, items, k, end) && end < |s| && s[end] == CLOSE
    ensures i <= end && ListEnd(s, i, false) == end
    decreases |items| - k
  {
    if k < |items| {
      if k + 1 < |items| {
        ListEndPastBoth(s, i, items[k]);
        ListEndOfPrinted(s, i + |Quoted(items[k])| + 2, items, k + 1, end);
      } else {
        ListEndPastItem(s, i, items[k]);
      }
    }
  }

  // One printed item.

  lemma CloseQuotePastUnit(c: string, p: nat, x: char)
    requires 0 < p && Stands(c, p, EscapeChar(x))
    ensures CloseQuote(c, p) == CloseQuote(c, p + |EscapeChar(x)|)
    ensures c[p + |EscapeChar(x)| - 1] == BACKSLASH <==> x == BACKSLASH
  {
    var e := EscapeChar(x);
    assert e[0] == c[p + 0] && e[|e| - 1] == c[p + (|e| - 1)];
  }

  lemma {:induction false} CloseQuoteOfPrinted(c: string, p: nat, t: string, k: nat)
    requires 0 < p && k <= |t| && Stands(c, p, EscapeFrom(t, k))
    requires p + |EscapeFrom(t, k)| < |c| && c[p + |EscapeFrom(t, k)|] == QUOTE
    requires NoTrailingBackslash(t) && (k == |t| ==> c[p - 1] != BACKSLASH)
    ensures CloseQuote(c, p) == p + |EscapeFrom(t, k)|
    decreases |t| - k
  {
    if k < |t| {
      EscapedHead(c, p, t, k);
      CloseQuotePastUnit(c, p, t[k]);
      CloseQuoteOfPrinted(c, p + |EscapeChar(t[k])|, t, k + 1);
    }
  }

  /** A printed item that does not end in a backslash is read back, up to the next comma. */
  lemma ItemFromPrinted(c: string, j: nat, t: string)
    requires Stands(c, j, Quoted(t)) && NulFree(t) && NoTrailingBackslash(t)
    ensures j < |c| && ItemFrom(c, j) == (Some(t), AfterComma(c, j + |Quoted(t)|))
  {
    QuotedParts(c, j, t);
    CloseQuoteOfPrinted(c, j + 1, t, 0);
    ParseSlice(c, j, t);
  }

  lemma ParseSlice(c: string, j: nat, t: string)
    requires Stands(c, j, Quoted(t)) && NulFree(t)
    ensures ParseQuoted(c[j..j + |Quoted(t)|]) == Some(t)
  {
    assert c[j..j + |Quoted(t)|] == Quoted(t) == [] + Quoted(t) + [];
    QuotedRoundTrip([], t, []);
  }

  /** Past the one space the printer may have left. */
  function PastSpace(c: string, i: nat): (j: nat) {
    if i < |c| && c[i] == ' ' then i + 1 else i
  }

  lemma ItemAtPrinted(c: string, i: nat, t: string)
    requires Stands(c, PastSpace(c, i), Quoted(t)) && NulFree(t) && NoTrailingBackslash(t)
    ensures i < |c| && ItemAt(c, i) == (Some(t), AfterComma(c, PastSpace(c, i) + |Quoted(t)|))
  {
    var j := PastSpace(c, i);
    ItemFromPrinted(c, j, t);
    QuotedParts(c, j, t);
    assert SkipSpace(c, j) == j;
    assert SkipSpace(c, i) == j;
  }

  /** The items from `k` on and nothing else stand printed from `i` on, possibly after one space. */
  ghost predicate PrintedFrom(c: string, i: nat, items: seq<string>, k: nat) {
    i <= |c| && PrintedAt(c, PastSpace(c, i), items, k, |c|)
  }

  lemma AfterSeparator(c: string, p: nat)
    requires p + 1 < |c| && c[p] == COMMA && c[p + 1] == ' '
    ensures AfterComma(c, p) == p + 1 && PastSpace(c, p + 1) == p + 2
  {
  }

  lemma PrintedTail(c: string, i: nat, items: seq<string>, k: nat) returns (next: nat)
    requires k < |items| && PrintedFrom(c, i, items, k)
    ensures Stands(c, PastSpace(c, i), Quoted(items[k])) && next == AfterComma(c, PastSpace(c, i) + |Quoted(items[k])|)
    ensures PrintedFrom(c, next, items, k + 1) && (k + 1 == |items| ==> next == |c|)
  {
    var p := PastSpace(c, i) + |Quoted(items[k])|;
    if k + 1 < |items| {
      AfterSeparator(c, p);
    }
    next := AfterComma(c, p);
  }

  /** `read` is the items from `k` on, as many as the cap allows. */
  ghost predicate ReadsFrom(read: seq<string>, items: seq<string>, k: nat, cap: nat)
    requires k <= |items|
  {
    && |read| == (if cap <= |items| - k then cap else |items| - k)
    && forall m :: 0 <= m < |read| ==> read[m] == items[k + m]
  }

  /** One turn at `i` reads `t` and goes on at `next`. */
  predicate Turn(c: string, i: nat, t: string, next: nat) {
    i < |c| && ItemAt(c, i) == (Some(t), next)
  }

  /** The turns over the items from `k` on start at the positions `ps`, and the text ends at the
      last of them. */
  ghost predicate Turns(c: string, ps: seq<nat>, items: seq<string>, k: nat)
    requires k <= |items|
  {
    && |ps| == |items| - k + 1
    && (forall j :: 0 <= j < |items| - k ==> Turn(c, ps[j], items[k + j], ps[j + 1]))
    && ps[|items| - k] == |c|
  }

  lemma TurnsCons(c: string, i: nat, ps: seq<nat>, items: seq<string>, k: nat)
    requires k < |items| && Turns(c, ps, items, k + 1) && Turn(c, i, items[k], ps[0])
    ensures Turns(c, [i] + ps, items, k)
  {
    forall j | 0 <= j < |items| - k
      ensures Turn(c, ([i] + ps)[j], items[k + j], ([i] + ps)[j + 1])
    {
      if j > 0 {
        assert Turn(c, ps[j - 1], items[k + 1 + (j - 1)], ps[j]);
      }
    }
  }

  /** A printed item is read by one turn, and the rest stands printed behind it. */
  lemma PrintedTurn(c: string, i: nat, items: seq<string>, k: nat) returns (next: nat)
    requires k < |items| && PrintedFrom(c, i, items, k)
    requires NulFree(items[k]) && NoTrailingBackslash(items[k])
    ensures Turn(c, i, items[k], next)
    ensures PrintedFrom(c, next, items, k + 1) && (k + 1 == |items| ==> next == |c|)
  {
    next := PrintedTail(c, i, items, k);
    ItemAtPrinted(c, i, items[k]);
  }

  lemma {:induction false} PrintedTurns(c: string, i: nat, items: seq<string>, k: nat) returns (ps: seq<nat>)
    requires k <= |items| && PrintedFrom(c, i, items, k) && (k == |items| ==> i == |c|)
    requires forall m :: 0 <= m < |items| ==> NulFree(items[m]) && NoTrailingBackslash(items[m])
    ensures Turns(c, ps, items, k) && ps[0] == i
    decreases |items| - k
  {
    if k == |items| {
      ps := [i];
    } else {
      var next := PrintedTurn(c, i, items, k);
      ps := PrintedTurns(c, next, items, k + 1);
      TurnsCons(c, i, ps, items, k);
      ps := [i] + ps;
    }
  }

  lemma TurnReads(c: string, i: nat, t: string, next: nat, cap: nat, read: seq<string>) returns (rest: seq<string>)
    requires cap > 0 && Turn(c, i, t, next) && read == Items(c, i, cap)
    ensures next <= |c| && rest == Items(c, next, cap - 1) && read == [t] + rest
  {
    rest := ItemsUnfold(c, i, cap, Some(t), next, read);
  }

  lemma TurnAt(c: string, ps: seq<nat>, items: seq<string>, k: nat)
    requires k < |items| && Turns(c, ps, items, 0)
    ensures |ps| == |items| + 1 && Turn(c, ps[k], items[k], ps[k + 1])
  {
    assert Turn(c, ps[k], items[0 + k], ps[k + 1]);
  }

  lemma ReadsCons(items: seq<string>, k: nat, cap: nat, rest: seq<string>)
    requires k < |items| && cap > 0 && ReadsFrom(rest, items, k + 1, cap - 1)
    ensures ReadsFrom([items[k]] + rest, items, k, cap)
  {
  }

  lemma {:induction false} ItemsOfTurns(c: string, ps: seq<nat>, items: seq<string>, k: nat, cap: nat,
                                        read: seq<string>)
    requires k <= |items| && Turns(c, ps, items, 0) && ps[k] <= |c| && read == Items(c, ps[k], cap)
    ensures ReadsFrom(read, items, k, cap)
    decreases |items| - k
  {
    if k < |items| && cap > 0 {
      TurnAt(c, ps, items, k);
      var rest := TurnReads(c, ps[k], items[k], ps[k + 1], cap, read);
      ItemsOfTurns(c, ps, items, k + 1, cap - 1, rest);
      ReadsCons(items, k, cap, rest);
    }
  }

  // ----- The round trip, and exactly when it holds -----

  /** What the line buffer holds of a line with a printed list in it. */
  lemma BufferedList(prefix: string, joined: string, suffix: string) returns (b: string)
    requires OPEN !in prefix && |prefix + ([OPEN] + joined + [CLOSE])| <= MAX_LINE_LENGTH
    ensures b == Buffered(prefix + ([OPEN] + joined + [CLOSE]) + suffix) && IndexOf(b, OPEN, 0) == |prefix|
    ensures var i := |prefix| + 1;
            Stands(b, i, joined) && i + |joined| < |b| && b[i + |joined|] == CLOSE && b[i..i + |joined|] == joined
  {
    b := Buffered(prefix + ([OPEN] + joined + [CLOSE]) + suffix);
    var i := |prefix| + 1;
    assert b[|prefix|] == OPEN;
    IndexOfIs(b, OPEN, 0, |prefix|);
    assert Stands(b, i, joined);
    assert b[i + |joined|] == CLOSE;
    assert b[i..i + |joined|] == joined;
  }

  lemma ContentIs(s: string, b: string, open: nat, end: nat)
    requires b == Buffered(s) && IndexOf(b, OPEN, 0) == open < end < |b| && ListEnd(b, open + 1, false) == end
    ensures ListContent(s) == Some(b[open + 1..end])
  {
  }

  /** The content of a printed list is the joined items, wherever the list stands in the line. */
  lemma ContentOfPrinted(prefix: string, items: seq<string>, suffix: string)
    requires OPEN !in prefix && |prefix + PrintList(items)| <= MAX_LINE_LENGTH
    ensures ListContent(prefix + PrintList(items) + suffix) == Some(JoinFrom(items, 0))
  {
    var joined := JoinFrom(items, 0);
    var b := BufferedList(prefix, joined, suffix);
    var i := |prefix| + 1;
    JoinStandsPrinted(b, i, items, 0, joined, i + |joined|);
    ListEndOfPrinted(b, i, items, 0, i + |joined|);
    ContentIs(prefix + PrintList(items) + suffix, b, |prefix|, i + |joined|);
  }

  lemma PrintedStart(c: string, items: seq<string>)
    requires PrintedAt(c, 0, items, 0, |c|)
    ensures PrintedFrom(c, 0, items, 0) && (items == [] ==> c == [])
  {
    if items != [] {
      QuotedParts(c, 0, items[0]);
    }
  }

  lemma ReadsAll(items: seq<string>, cap: nat, read: seq<string>)
    requires ReadsFrom(read, items, 0, cap)
    ensures read == FirstOf(items, cap)
  {
  }

  lemma JoinedTurns(c: string, items: seq<string>) returns (ps: seq<nat>)
    requires c == JoinFrom(items, 0)
    requires forall k :: 0 <= k < |items| ==> NulFree(items[k]) && NoTrailingBackslash(items[k])
    ensures Turns(c, ps, items, 0) && ps[0] == 0
  {
    JoinStandsPrinted(c, 0, items, 0, c, |c|);
    PrintedStart(c, items);
    ps := PrintedTurns(c, 0, items, 0);
  }

  lemma JoinedReads(c: string, items: seq<string>, cap: nat, read: seq<string>)
    requires c == JoinFrom(items, 0) && read == Items(c, 0, cap)
    requires forall k :: 0 <= k < |items| ==> NulFree(items[k]) && NoTrailingBackslash(items[k])
    ensures read == FirstOf(items, cap)
  {
    var ps := JoinedTurns(c, items);
    ItemsOfTurns(c, ps, items, 0, cap, read);
    ReadsAll(items, cap, read);
  }

  /** Parsing a printed list gives the items back, up to the cap, wherever it stands in the
      line, when no item ends in a backslash. */
  lemma ListRoundTrip(prefix: string, items: seq<string>, suffix: string, cap: nat)
    requires OPEN !in prefix && |prefix + PrintList(items)| <= MAX_LINE_LENGTH
    requires forall k :: 0 <= k < |items| ==> NulFree(items[k]) && NoTrailingBackslash(items[k])
    ensures ParseList(prefix + PrintList(items) + suffix, cap) == FirstOf(items, cap)
  {
    ContentOfPrinted(prefix, items, suffix);
    var c := JoinFrom(items, 0);
    JoinedReads(c, items, cap, Items(c, 0, cap));
  }

  /** A quote right after a backslash neither opens nor closes an item. */
  predicate BareQuoteAt(c: string, j: nat)
    requires j < |c|
  {
    c[j] == QUOTE && (j == 0 || c[j - 1] != BACKSLASH)
  }

  function BareQuotes(c: string, i: nat): (n: nat)
    decreases |c| - i
  {
    if i >= |c| then 0 else (if BareQuoteAt(c, i) then 1 else 0) + BareQuotes(c, i + 1)
  }

  lemma {:induction false} BareQuotesAfter(c: string, i: nat, j: nat)
    requires i <= j <= |c|
    ensures BareQuotes(c, i) >= BareQuotes(c, j)
    decreases j - i
  {
    if i < j {
      BareQuotesAfter(c, i + 1, j);
    }
  }

  lemma {:induction false} SkippedSpace(c: string, i: nat)
    requires i <= |c|
    ensures SkipSpace(c, i) > i ==> IsSpace(c[SkipSpace(c, i) - 1])
    decreases |c| - i
  {
    if i < |c| && IsSpace(c[i]) {
      SkippedSpace(c, i + 1);
    }
  }

  /** The two quotes of an item. */
  lemma ItemQuotes(c: string, i: nat, item: Option<string>, next: nat) returns (j: nat, k: nat)
    requires i < |c| && (item, next) == ItemAt(c, i) && item.Some?
    ensures j == SkipSpace(c, i) && i <= j < k < next <= |c|
    ensures c[j] == QUOTE && c[k] == QUOTE && c[k - 1] != BACKSLASH
  {
    j := SkipSpace(c, i);
    k := CloseQuote(c, j + 1);
  }

  /** One turn uses up two bare quotes for an item. */
  lemma TurnUsesBareQuotes(c: string, i: nat, item: Option<string>, next: nat)
    requires i < |c| && (i == 0 || c[i - 1] == COMMA) && (item, next) == ItemAt(c, i)
    ensures BareQuotes(c, i) >= 2 * |AsSeq(item)| + BareQuotes(c, next)
  {
    if item.Some? {
      var j, k := ItemQuotes(c, i, item, next);
      QuotesBetween(c, i, j, k, next);
    } else {
      BareQuotesAfter(c, i, next);
    }
  }

  lemma QuotesBetween(c: string, i: nat, j: nat, k: nat, next: nat)
    requires i <= |c| && j == SkipSpace(c, i) && i <= j < k < next <= |c| && (i == 0 || c[i - 1] == COMMA)
    requires c[j] == QUOTE && c[k] == QUOTE && c[k - 1] != BACKSLASH
    ensures BareQuotes(c, i) >= 2 + BareQuotes(c, next)
  {
    SkippedSpace(c, i);
    BareQuotesAfter(c, i, j);
    assert BareQuoteAt(c, j);
    BareQuotesAfter(c, j + 1, k);
    assert BareQuoteAt(c, k);
    BareQuotesAfter(c, k + 1, next);
  }

  lemma TurnEndsAtComma(c: string, i: nat)
    requires i < |c|
    ensures var next := ItemAt(c, i).1; next < |c| ==> c[next - 1] == COMMA
  {
  }

  /** One turn, and the quotes it leaves. */
  lemma TurnLeavesQuotes(c: string, i: nat, cap: nat, all: seq<string>)
    returns (read: seq<string>, next: nat, less: nat, rest: seq<string>)
    requires i < |c| && (i == 0 || c[i - 1] == COMMA) && cap > 0 && all == Items(c, i, cap)
    ensures |read| <= 1 && i < next <= |c| && less == cap - |read| && all == read + rest &&
            rest == Items(c, next, less)
    ensures (next == |c| || c[next - 1] == COMMA) && BareQuotes(c, i) >= 2 * |read| + BareQuotes(c, next)
  {
    var (item, end) := ItemAt(c, i);
    read, next := AsSeq(item), end;
    less := cap - |read|;
    TurnEndsAtComma(c, i);
    TurnUsesBareQuotes(c, i, item, next);
    rest := ItemsUnfold(c, i, cap, item, next, all);
  }

  predicate QuotesSuffice(c: string, i: nat, cap: nat)
    requires i <= |c|
  {
    2 * |Items(c, i, cap)| <= BareQuotes(c, i)
  }

  lemma NoneNeeded(c: string, i: nat, cap: nat)
    requires i <= |c| && (i == |c| || cap == 0)
    ensures QuotesSuffice(c, i, cap)
  {
  }

  lemma TurnNeedsPair(c: string, i: nat, cap: nat, all: seq<string>) returns (next: nat, less: nat)
    requires i < |c| && (i == 0 || c[i - 1] == COMMA) && cap > 0 && all == Items(c, i, cap)
    ensures i < next <= |c| && less <= cap && (next == |c| || c[next - 1] == COMMA)
    ensures QuotesSuffice(c, next, less) ==> 2 * |all| <= BareQuotes(c, i)
  {
    var read, rest;
    read, next, less, rest := TurnLeavesQuotes(c, i, cap, all);
  }

  lemma TurnNeedsQuotes(c: string, i: nat, cap: nat) returns (next: nat, less: nat)
    requires i < |c| && (i == 0 || c[i - 1] == COMMA) && cap > 0
    ensures i < next <= |c| && less <= cap && (next == |c| || c[next - 1] == COMMA)
    ensures QuotesSuffice(c, next, less) ==> QuotesSuffice(c, i, cap)
  {
    next, less := TurnNeedsPair(c, i, cap, Items(c, i, cap));
  }

  lemma {:induction false} TurnsLeaveQuotes(c: string, i: nat, cap: nat)
    requires i <= |c| && (i == 0 || i == |c| || c[i - 1] == COMMA)
    ensures QuotesSuffice(c, i, cap)
    decreases |c| - i
  {
    if i == |c| || cap == 0 {
      NoneNeeded(c, i, cap);
    } else {
      var next, less := TurnNeedsQuotes(c, i, cap);
      TurnsLeaveQuotes(c, next, less);
    }
  }

  /** Whatever the content, no more items are read than there are pairs of bare quotes. */
  lemma ItemsNeedBareQuotes(c: string, i: nat, cap: nat)
    requires i <= |c| && (i == 0 || i == |c| || c[i - 1] == COMMA)
    ensures 2 * |Items(c, i, cap)| <= BareQuotes(c, i)
  {
    TurnsLeaveQuotes(c, i, cap);
  }

  lemma {:induction false} NoBareQuoteInContent(c: string, p: nat, t: string, k: nat)
    requires 0 < p && k <= |t| && Stands(c, p, EscapeFrom(t, k))
    ensures BareQuotes(c, p) == BareQuotes(c, p + |EscapeFrom(t, k)|)
    decreases |t| - k
  {
    if k < |t| {
      EscapedHead(c, p, t, k);
      NoBareQuoteInUnit(c, p, t[k]);
      NoBareQuoteInContent(c, p + |EscapeChar(t[k])|, t, k + 1);
    }
  }

  lemma NoBareQuoteInUnit(c: string, p: nat, x: char)
    requires 0 < p && Stands(c, p, EscapeChar(x))
    ensures BareQuotes(c, p) == BareQuotes(c, p + |EscapeChar(x)|)
  {
    var e := EscapeChar(x);
    assert e[0] == c[p + 0] && e[|e| - 1] == c[p + (|e| - 1)];
    if |e| == 2 {
      assert BareQuotes(c, p + 1) == BareQuotes(c, p + 2);
    }
  }

  lemma {:induction false} LastOfEscaped(c: string, p: nat, t: string, k: nat)
    requires 0 < p && k < |t| && Stands(c, p, EscapeFrom(t, k))
    ensures p + |EscapeFrom(t, k)| - 1 < |c|
    ensures c[p + |EscapeFrom(t, k)| - 1] == BACKSLASH <==> t[|t| - 1] == BACKSLASH
    decreases |t| - k
  {
    EscapedHead(c, p, t, k);
    CloseQuotePastUnit(c, p, t[k]);
    if k + 1 < |t| {
      LastOfEscaped(c, p + |EscapeChar(t[k])|, t, k + 1);
    }
  }

  function BareQuotesOf(t: string): nat {
    if NoTrailingBackslash(t) then 2 else 1
  }

  lemma BareQuotesOfItem(c: string, i: nat, t: string)
    requires Stands(c, i, Quoted(t)) && (i == 0 || c[i - 1] != BACKSLASH)
    ensures i + |Quoted(t)| <= |c|
    ensures BareQuotes(c, i) == BareQuotesOf(t) + BareQuotes(c, i + |Quoted(t)|)
  {
    QuotedParts(c, i, t);
    var q := i + 1 + |Escape(t)|;
    NoBareQuoteInContent(c, i + 1, t, 0);
    if t != [] {
      LastOfEscaped(c, i + 1, t, 0);
    }
    assert BareQuotes(c, i) == 1 + BareQuotes(c, i + 1);
    assert BareQuotes(c, q) == (if NoTrailingBackslash(t) then 1 else 0) + BareQuotes(c, q + 1);
  }

  function SumOfBareQuotes(items: seq<string>, k: nat): (n: nat)
    decreases |items| - k
  {
    if k >= |items| then 0 else BareQuotesOf(items[k]) + SumOfBareQuotes(items, k + 1)
  }

  lemma BareQuotesPastSeparator(c: string, p: nat)
    requires p + 1 < |c| && c[p] == COMMA && c[p + 1] == ' '
    ensures BareQuotes(c, p) == BareQuotes(c, p + 2)
  {
    assert BareQuotes(c, p) == BareQuotes(c, p + 1) == BareQuotes(c, p + 2);
  }

  lemma {:induction false} BareQuotesOfPrinted(c: string, i: nat, items: seq<string>, k: nat)
    requires k <= |items| && PrintedAt(c, i, items, k, |c|) && (i == 0 || c[i - 1] != BACKSLASH)
    ensures BareQuotes(c, i) == SumOfBareQuotes(items, k)
    decreases |items| - k
  {
    if k < |items| {
      var p := i + |Quoted(items[k])|;
      BareQuotesOfItem(c, i, items[k]);
      if k + 1 < |items| {
        BareQuotesPastSeparator(c, p);
        BareQuotesOfPrinted(c, p + 2, items, k + 1);
      }
    }
  }

  /** An item that ends in a backslash leaves fewer bare quotes than its list needs. */
  lemma {:induction false} TrailingBackslashIsShort(items: seq<string>, k: nat)
    requires k <= |items|
    ensures SumOfBareQuotes(items, k) <= 2 * (|items| - k)
    ensures (exists m :: k <= m < |items| && !NoTrailingBackslash(items[m])) ==>
              SumOfBareQuotes(items, k) < 2 * (|items| - k)
    decreases |items| - k
  {
    if k < |items| {
      TrailingBackslashIsShort(items, k + 1);
    }
  }

  lemma TrailingBackslashLoses(c: string, items: seq<string>, cap: nat)
    requires c == JoinFrom(items, 0) && exists m :: 0 <= m < |items| && !NoTrailingBackslash(items[m])
    ensures |Items(c, 0, cap)| < |items|
  {
    JoinStandsPrinted(c, 0, items, 0, c, |c|);
    BareQuotesOfPrinted(c, 0, items, 0);
    TrailingBackslashIsShort(items, 0);
    ItemsNeedBareQuotes(c, 0, cap);
  }

  /** The list round trip holds exactly when no item ends in a backslash: the list scanner takes
      the closing quote of such an item for an escaped one. */
  lemma ListRoundTripExactly(prefix: string, items: seq<string>, suffix: string, cap: nat)
    requires OPEN !in prefix && |prefix + PrintList(items)| <= MAX_LINE_LENGTH && |items| <= cap
    requires forall k :: 0 <= k < |items| ==> NulFree(items[k])
    ensures ParseList(prefix + PrintList(items) + suffix, cap) == items <==>
            forall k :: 0 <= k < |items| ==> NoTrailingBackslash(items[k])
  {
    if forall k :: 0 <= k < |items| ==> NoTrailingBackslash(items[k]) {
      ListRoundTrip(prefix, items, suffix, cap);
    } else {
      ContentOfPrinted(prefix, items, suffix);
      TrailingBackslashLoses(JoinFrom(items, 0), items, cap);
    }
  }
}
