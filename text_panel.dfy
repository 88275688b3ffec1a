/**
  The conversation panel of cli/gptbrowser.js (`presentMessages`): the messages are laid
  out as one list of text lines (a `[author]` header, the wrapped text, a blank
  separator per message) with the index of every header, and a cursor (the first line
  shown) moves over it by line, page, message and search.
 */
module TextPanel {
  import opened Wrappers
  import opened Strings
  import opened Viewport
  import opened Screen
  import opened LineWrap
  import opened Scan
  import opened Transcript

  // ---------------------------------------------------------------- lines and message offsets

  /** The header line of a message: its author in brackets. */
  function Header(m: Message): string
  {
    "[" + Who(m) + "]"
  }

  /** The lines one message contributes: its header, its wrapped text and a blank separator. */
  function MessageLines(m: Message, width: int, wrap: (string, nat) -> seq<string>): (r: seq<string>)
    ensures |r| >= 3 && r[0] == Header(m) && r[|r| - 1] == ""
  {
    var body := Rows(SplitLines(m.text), WrapWidth(width), wrap);
    RowsAtLeastLines(SplitLines(m.text), WrapWidth(width), wrap);
    [Header(m)] + body + [""]
  }

  /** The lines of every message, in order. */
  function Blocks(ms: seq<Message>, width: int, wrap: (string, nat) -> seq<string>): (r: seq<seq<string>>)
    ensures |r| == |ms| && forall i :: 0 <= i < |ms| ==> r[i] == MessageLines(ms[i], width, wrap)
  {
    seq(|ms|, i requires 0 <= i < |ms| => MessageLines(ms[i], width, wrap))
  }

  /** Blocks of lines one after the other. */
  function Flatten(blocks: seq<seq<string>>): seq<string>
  {
    if |blocks| == 0 then [] else Flatten(blocks[..|blocks| - 1]) + blocks[|blocks| - 1]
  }

  /** The lines of the whole panel, message after message. */
  function PanelLines(ms: seq<Message>, width: int, wrap: (string, nat) -> seq<string>): seq<string>
  {
    Flatten(Blocks(ms, width, wrap))
  }

  /** The loop of `presentMessages` that builds `lines` and `msgOffsets`: every offset
      counts the lines of the messages before it. */
  method BuildLines(ms: seq<Message>, width: int, wrap: (string, nat) -> seq<string>)
    returns (lines: seq<string>, offsets: seq<nat>)
    ensures lines == PanelLines(ms, width, wrap)
    ensures |offsets| == |ms|
    ensures forall i :: 0 <= i < |ms| ==> offsets[i] == |Flatten(Blocks(ms, width, wrap)[..i])|
  {
    ghost var blocks := Blocks(ms, width, wrap);
    lines := [];
    offsets := [];
    for i := 0 to |ms|
      invariant lines == Flatten(blocks[..i])
      invariant |offsets| == i
      invariant StartsOf(offsets, blocks)
    {
      var m := ms[i];
      StartsOfStep(offsets, blocks, |lines|);
      offsets := offsets + [|lines|];
      var wrapped := WrapLines(m.text, width, wrap);
      var block := [Header(m)] + wrapped + [""];
      FlattenStep(blocks, i);
      lines := lines + block;
    }
    assert blocks[..|ms|] == blocks;
  }

  /** Each of the `offsets` is the number of lines of the blocks before its own. */
  predicate StartsOf(offsets: seq<nat>, blocks: seq<seq<string>>)
  {
    |offsets| <= |blocks| && forall k :: 0 <= k < |offsets| ==> offsets[k] == |Flatten(blocks[..k])|
  }

  lemma StartsOfStep(offsets: seq<nat>, blocks: seq<seq<string>>, o: nat)
    requires StartsOf(offsets, blocks) && |offsets| < |blocks| && o == |Flatten(blocks[..|offsets|])|
    ensures StartsOf(offsets + [o], blocks)
  {
  }

  /** One more block adds its lines at the end. */
  lemma FlattenStep(blocks: seq<seq<string>>, i: nat)
    requires i < |blocks|
    ensures Flatten(blocks[..i + 1]) == Flatten(blocks[..i]) + blocks[i]
  {
    assert blocks[..i + 1][..i] == blocks[..i];
  }

  predicate Increasing(offsets: seq<nat>)
  {
    forall i, j :: 0 <= i < j < |offsets| ==> offsets[i] < offsets[j]
  }

  /** Block `i` sits in the flattened lines right after the blocks before it. */
  lemma {:induction false} FlattenAt(blocks: seq<seq<string>>, i: nat)
    requires i < |blocks|
    ensures var o := |Flatten(blocks[..i])|;
      o + |blocks[i]| <= |Flatten(blocks)| && Flatten(blocks)[o..o + |blocks[i]|] == blocks[i]
    decreases |blocks|
  {
    var n := |blocks|;
    var init := blocks[..n - 1];
    var whole := Flatten(blocks);
    var front := Flatten(init);
    assert whole == front + blocks[n - 1];
    if i < n - 1 {
      FlattenAt(init, i);
      assert init[..i] == blocks[..i] && init[i] == blocks[i];
      var o := |Flatten(blocks[..i])|;
      assert whole[o..o + |blocks[i]|] == front[o..o + |blocks[i]|];
    } else {
      assert init == blocks[..i];
    }
  }

  /** Blocks of three lines or more push every later block at least three lines further. */
  lemma {:induction false} FlattenGrows(blocks: seq<seq<string>>, i: nat, j: nat)
    requires i <= j <= |blocks|
    requires forall k :: 0 <= k < |blocks| ==> |blocks[k]| >= 3
    ensures |Flatten(blocks[..i])| + 3 * (j - i) <= |Flatten(blocks[..j])|
    decreases j - i
  {
    if i < j {
      FlattenGrows(blocks, i, j - 1);
      assert blocks[..j][..j - 1] == blocks[..j - 1];
    }
  }

  /** Over blocks of three lines or more, the offsets where the blocks start increase,
      and each block's first and last lines sit at its offset and just before the next. */
  lemma OffsetsMarkBlocks(blocks: seq<seq<string>>, offsets: seq<nat>)
    requires |offsets| == |blocks| && forall k :: 0 <= k < |blocks| ==> |blocks[k]| >= 3
    requires forall i :: 0 <= i < |blocks| ==> offsets[i] == |Flatten(blocks[..i])|
    ensures Increasing(offsets)
    ensures forall i :: 0 <= i < |blocks| ==>
      var lines := Flatten(blocks);
      var end := offsets[i] + |blocks[i]|;
      end <= |lines| && lines[offsets[i]] == blocks[i][0] && lines[end - 1] == blocks[i][|blocks[i]| - 1]
  {
    forall i, j | 0 <= i < j < |blocks|
      ensures offsets[i] < offsets[j]
    {
      FlattenGrows(blocks, i, j);
    }
    forall i | 0 <= i < |blocks|
      ensures var lines := Flatten(blocks);
        var end := offsets[i] + |blocks[i]|;
        end <= |lines| && lines[offsets[i]] == blocks[i][0] && lines[end - 1] == blocks[i][|blocks[i]| - 1]
    {
      BlockEnds(blocks, i);
    }
  }

  /** The first and the last line of block `i` in the flattened lines. */
  lemma BlockEnds(blocks: seq<seq<string>>, i: nat)
    requires i < |blocks| && |blocks[i]| >= 1
    ensures var o := |Flatten(blocks[..i])|; var b := blocks[i];
      o + |b| <= |Flatten(blocks)| && Flatten(blocks)[o] == b[0] && Flatten(blocks)[o + |b| - 1] == b[|b| - 1]
  {
    FlattenAt(blocks, i);
    var o := |Flatten(blocks[..i])|;
    SliceAt(Flatten(blocks), o, blocks[i], 0);
    SliceAt(Flatten(blocks), o, blocks[i], |blocks[i]| - 1);
  }

  /** Every message's block opens with its header and closes with the blank separator. */
  lemma MessageBlocksFramed(ms: seq<Message>, width: int, wrap: (string, nat) -> seq<string>)
    ensures forall i :: 0 <= i < |ms| ==>
      var b := Blocks(ms, width, wrap)[i];
      |b| >= 3 && b[0] == Header(ms[i]) && b[|b| - 1] == ""
  {
  }

  /** The message offsets `BuildLines` computes increase. */
  lemma OffsetsIncrease(ms: seq<Message>, width: int, wrap: (string, nat) -> seq<string>, offsets: seq<nat>)
    requires |offsets| == |ms|
    requires forall i :: 0 <= i < |ms| ==> offsets[i] == |Flatten(Blocks(ms, width, wrap)[..i])|
    ensures Increasing(offsets)
  {
    OffsetsMarkBlocks(Blocks(ms, width, wrap), offsets);
  }

  lemma SliceAt<T>(xs: seq<T>, o: nat, block: seq<T>, j: nat)
    requires o + |block| <= |xs| && xs[o..o + |block|] == block && j < |block|
    ensures xs[o + j] == block[j]
  {
    assert xs[o..o + |block|][j] == xs[o + j];
  }

  // ---------------------------------------------------------------- the cursor

  /** The largest cursor `clamp` allows: it counts `term.height - 2` rows, not the drawing
      height `max(5, term.height - 2)`. */
  function MaxCursor(len: nat, termHeight: int): int
  {
    Max(0, len - (termHeight - 2))
  }

  /** `clamp`. */
  function ClampCursor(c: int, len: nat, termHeight: int): int
  {
    var c1 := if c < 0 then 0 else c;
    if c1 > MaxCursor(len, termHeight) then MaxCursor(len, termHeight) else c1
  }

  /** The cursor lands in `[0, MaxCursor]`, on the nearest allowed line; a cursor already
      there stays. */
  lemma ClampCursorNearest(c: int, len: nat, termHeight: int)
    ensures 0 <= ClampCursor(c, len, termHeight) <= MaxCursor(len, termHeight)
    ensures 0 <= c <= MaxCursor(len, termHeight) ==> ClampCursor(c, len, termHeight) == c
    ensures c < 0 ==> ClampCursor(c, len, termHeight) == 0
    ensures c > MaxCursor(len, termHeight) ==> ClampCursor(c, len, termHeight) == MaxCursor(len, termHeight)
  {
  }

  /** END sets the cursor to 10^9 before clamping: the bottom, for any panel of at most
      10^9 lines. */
  const Far: int := 1000000000

  lemma EndReachesBottom(len: nat, termHeight: int)
    requires len <= Far && termHeight >= 2
    ensures ClampCursor(Far, len, termHeight) == MaxCursor(len, termHeight)
  {
  }

  /** The first offset above `c`, in list order. */
  function FirstAbove(offsets: seq<nat>, c: int): Option<nat>
  {
    if |offsets| == 0 then None
    else if offsets[0] > c then Some(offsets[0])
    else FirstAbove(offsets[1..], c)
  }

  /** The last offset below `c`, in list order. */
  function LastBelow(offsets: seq<nat>, c: int): Option<nat>
  {
    if |offsets| == 0 then None
    else if offsets[|offsets| - 1] < c then Some(offsets[|offsets| - 1])
    else LastBelow(offsets[..|offsets| - 1], c)
  }

  /** Over increasing offsets, `FirstAbove` is the nearest message start after `c`. */
  lemma {:induction false} FirstAboveNearest(offsets: seq<nat>, c: int)
    requires Increasing(offsets)
    ensures FirstAbove(offsets, c).None? <==> forall i :: 0 <= i < |offsets| ==> offsets[i] <= c
    ensures FirstAbove(offsets, c).Some? ==>
      var o := FirstAbove(offsets, c).value;
      o in offsets && c < o && forall i :: 0 <= i < |offsets| && offsets[i] > c ==> o <= offsets[i]
    decreases |offsets|
  {
    if |offsets| > 0 {
      var tail := offsets[1..];
      assert Increasing(tail) by {
        forall i, j | 0 <= i < j < |tail| ensures tail[i] < tail[j] {
          assert tail[i] == offsets[i + 1] && tail[j] == offsets[j + 1];
        }
      }
      FirstAboveNearest(tail, c);
      forall i | 1 <= i < |offsets| ensures offsets[i] == tail[i - 1] { }
    }
  }

  /** Over increasing offsets, `LastBelow` is the nearest message start before `c`. */
  lemma {:induction false} LastBelowNearest(offsets: seq<nat>, c: int)
    requires Increasing(offsets)
    ensures LastBelow(offsets, c).None? <==> forall i :: 0 <= i < |offsets| ==> offsets[i] >= c
    ensures LastBelow(offsets, c).Some? ==>
      var o := LastBelow(offsets, c).value;
      o in offsets && o < c && forall i :: 0 <= i < |offsets| && offsets[i] < c ==> offsets[i] <= o
    decreases |offsets|
  {
    if |offsets| > 0 {
      var init := offsets[..|offsets| - 1];
      assert Increasing(init) by {
        forall i, j | 0 <= i < j < |init| ensures init[i] < init[j] {
          assert init[i] == offsets[i] && init[j] == offsets[j];
        }
      }
      LastBelowNearest(init, c);
      forall i | 0 <= i < |init| ensures offsets[i] == init[i] { }
    }
  }

  /** Where `]` sends the cursor before the caller clamps it: the next message start, or
      past the end (clamped at once) when there is none. */
  function NextTarget(offsets: seq<nat>, c: int, len: nat, termHeight: int): int
  {
    match FirstAbove(offsets, c)
    case Some(o) => o
    case None => ClampCursor(len, len, termHeight)
  }

  /** Where `[` sends the cursor: the previous message start, or the top. */
  function PrevTarget(offsets: seq<nat>, c: int): int
  {
    match LastBelow(offsets, c)
    case Some(o) => o
    case None => 0
  }

  /** `jumpNextMsg`. */
  method JumpNext(offsets: seq<nat>, cursor: int, len: nat, termHeight: int) returns (c: int)
    ensures c == NextTarget(offsets, cursor, len, termHeight)
  {
    var i := 0;
    while i < |offsets|
      invariant 0 <= i <= |offsets|
      invariant FirstAbove(offsets, cursor) == FirstAbove(offsets[i..], cursor)
    {
      assert offsets[i..][1..] == offsets[i + 1..];
      if offsets[i] > cursor {
        return offsets[i];
      }
      i := i + 1;
    }
    c := len;
    c := ClampCursor(c, len, termHeight);
  }

  /** `jumpPrevMsg`. */
  method JumpPrev(offsets: seq<nat>, cursor: int) returns (c: int)
    ensures c == PrevTarget(offsets, cursor)
  {
    var i := |offsets|;
    assert offsets[..i] == offsets;
    while i > 0
      invariant 0 <= i <= |offsets|
      invariant LastBelow(offsets, cursor) == LastBelow(offsets[..i], cursor)
    {
      i := i - 1;
      assert offsets[..i + 1][..i] == offsets[..i];
      if offsets[i] < cursor {
        return offsets[i];
      }
    }
    return 0;
  }

  /** `]` then clamp: onto the next message's header when one follows and the view can
      scroll that far, else as far down as the view goes; `[` onto the previous header,
      or the top. */
  lemma JumpsFindHeaders(offsets: seq<nat>, c: int, len: nat, termHeight: int)
    requires Increasing(offsets)
    ensures var t := ClampCursor(NextTarget(offsets, c, len, termHeight), len, termHeight);
      (FirstAbove(offsets, c).Some? && FirstAbove(offsets, c).value <= MaxCursor(len, termHeight) ==>
         t in offsets && t > c && forall i :: 0 <= i < |offsets| && offsets[i] > c ==> t <= offsets[i])
      && (FirstAbove(offsets, c).None? ==> t == Min(len, MaxCursor(len, termHeight)))
    ensures var t := PrevTarget(offsets, c);
      (t == 0 && forall i :: 0 <= i < |offsets| ==> offsets[i] >= c)
      || (t in offsets && t < c && forall i :: 0 <= i < |offsets| && offsets[i] < c ==> offsets[i] <= t)
  {
    FirstAboveNearest(offsets, c);
    LastBelowNearest(offsets, c);
  }

  // ---------------------------------------------------------------- live search

  /** Whether line `i` is non-empty and its lower-cased text contains the lower-cased query `q`. */
  function LineHit(lines: seq<string>, q: string): int -> bool
  {
    i => 0 <= i < |lines| && |lines[i]| > 0 && Matches(lines[i], q)
  }

  /** How the live search as written ends: with a line, with none, or with a TypeError
      from reading `.text` of a line past the end. */
  datatype Outcome = Found(index: int) | NoMatch | Throws

  /** One of the live search's loops as written: `for (i = lo; i < bound; i++)` over a
      panel of `n` lines. */
  function ScanAsWritten(n: nat, hit: int -> bool, lo: int, bound: int): Outcome
    decreases bound - lo
  {
    if lo >= bound then NoMatch
    else if lo < 0 || lo >= n then Throws
    else if hit(lo) then Found(lo)
    else ScanAsWritten(n, hit, lo + 1, bound)
  }

  /** The live search as written: lines `cursor + 1 .. n - 1`, then `0 .. cursor`, even
      when `cursor + 1` lies past the last line. */
  function LiveSearchAsWritten(n: nat, hit: int -> bool, cursor: int): Outcome
  {
    var first := ScanAsWritten(n, hit, cursor + 1, n);
    if !first.NoMatch? then first else ScanAsWritten(n, hit, 0, cursor + 1)
  }

  /** A loop that stays within the lines never throws. */
  lemma {:induction false} ScanAsWrittenInside(n: nat, hit: int -> bool, lo: int, bound: int)
    requires 0 <= lo && bound <= n
    ensures ScanAsWritten(n, hit, lo, bound) != Throws
    decreases bound - lo
  {
    if lo < bound && !hit(lo) {
      ScanAsWrittenInside(n, hit, lo + 1, bound);
    }
  }

  /** A loop that runs past the last line without a hit throws. */
  lemma {:induction false} ScanAsWrittenPastEnd(n: nat, hit: int -> bool, lo: int, bound: int)
    requires 0 <= lo <= n < bound
    requires forall i :: lo <= i < n ==> !hit(i)
    ensures ScanAsWritten(n, hit, lo, bound) == Throws
    decreases n - lo
  {
    if lo < n {
      ScanAsWrittenPastEnd(n, hit, lo + 1, bound);
    }
  }

  /** The live search as written is safe while the cursor is on a line, but throws when
      the cursor is at or past the end and no line matches: an empty panel (a
      conversation without messages) throws on the first typed character. */
  lemma LiveSearchAsWrittenThrows(n: nat, hit: int -> bool, cursor: int)
    requires 0 <= cursor
    ensures cursor < n ==> LiveSearchAsWritten(n, hit, cursor) != Throws
    ensures cursor >= n && (forall i :: 0 <= i < n ==> !hit(i)) ==> LiveSearchAsWritten(n, hit, cursor) == Throws
    ensures n == 0 ==> LiveSearchAsWritten(n, hit, 0) == Throws
  {
    if cursor < n {
      ScanAsWrittenInside(n, hit, cursor + 1, n);
      ScanAsWrittenInside(n, hit, 0, cursor + 1);
    } else if forall i :: 0 <= i < n ==> !hit(i) {
      ScanAsWrittenPastEnd(n, hit, 0, cursor + 1);
    }
  }

  /** The live search with the second loop kept inside the lines: lines `cursor + 1 ..`
      to the end, then from the top up to the cursor's line. It is the ring search from
      the cursor's line (the last line when the cursor lies below it), and it answers
      what the search as written answers whenever that one does not throw. */
  method LiveSearch(n: nat, hit: int -> bool, cursor: int) returns (found: int)
    requires cursor >= 0
    ensures found == -1 || (0 <= found < n && hit(found))
    ensures n > 0 ==> found == CircularSearch(n, hit, Min(cursor, n - 1), 1)
    ensures n == 0 ==> found == -1
    ensures LiveSearchAsWritten(n, hit, cursor) != Throws ==>
      LiveSearchAsWritten(n, hit, cursor) == if found >= 0 then Found(found) else NoMatch
  {
    if n == 0 {
      return -1;
    }
    found := ScanAhead(n, hit, Min(cursor, n - 1), cursor + 1);
    if found < 0 {
      found := ScanFromTop(n, hit, Min(cursor, n - 1), cursor + 1);
    }
  }

  /** The live search's first loop: the lines after the cursor, `from` being the line
      after the cursor's (past the end when the cursor is at or below the last line). */
  method ScanAhead(n: nat, hit: int -> bool, s: int, from: int) returns (found: int)
    requires 0 <= s < n && (from == s + 1 || (s == n - 1 && from > n))
    ensures found == -1 ==> (FirstHit(n, hit, s, 1, 1) == FirstHit(n, hit, s, 1, n - s)
      && ScanAsWritten(n, hit, from, n) == NoMatch)
    ensures found != -1 ==> (0 <= found < n && hit(found) && CircularSearch(n, hit, s, 1) == found
      && ScanAsWritten(n, hit, from, n) == Found(found))
  {
    var i := from;
    ghost var k := i - s;
    while i < n
      invariant from <= i && (from <= n ==> i <= n) && k == i - s
      invariant i <= n ==> FirstHit(n, hit, s, 1, 1) == FirstHit(n, hit, s, 1, k)
      invariant ScanAsWritten(n, hit, from, n) == ScanAsWritten(n, hit, i, n)
      decreases n - i
    {
      LiveStep(n, hit, s, k, i, n);
      if hit(i) {
        SearchEnds(n, hit, s, 1, k);
        return i;
      }
      i := i + 1;
      k := k + 1;
    }
    return -1;
  }

  /** The live search's second loop, kept inside the lines: from the top up to the
      cursor's line, after the first loop has found nothing. */
  method ScanFromTop(n: nat, hit: int -> bool, s: int, from: int) returns (found: int)
    requires 0 <= s < n && (from == s + 1 || (s == n - 1 && from > n))
    requires FirstHit(n, hit, s, 1, 1) == FirstHit(n, hit, s, 1, n - s)
    ensures found == -1 ==> (CircularSearch(n, hit, s, 1) == -1
      && ScanAsWritten(n, hit, 0, from) == if from <= n then NoMatch else Throws)
    ensures found != -1 ==> (0 <= found < n && hit(found) && CircularSearch(n, hit, s, 1) == found
      && ScanAsWritten(n, hit, 0, from) == Found(found))
  {
    var bound := Min(from, n);
    var i := 0;
    ghost var k := n - s;
    while i < bound
      invariant 0 <= i <= bound && k == n - s + i
      invariant FirstHit(n, hit, s, 1, 1) == FirstHit(n, hit, s, 1, k)
      invariant ScanAsWritten(n, hit, 0, from) == ScanAsWritten(n, hit, i, from)
      decreases bound - i
    {
      LiveStep(n, hit, s, k, i, from);
      if hit(i) {
        SearchEnds(n, hit, s, 1, k);
        return i;
      }
      i := i + 1;
      k := k + 1;
    }
    SearchEnds(n, hit, s, 1, k);
    return -1;
  }

  /** One iteration of either loop of the live search: the line it looks at is the next
      step of the ring search, and the loop as written reads the same line. */
  lemma LiveStep(n: nat, hit: int -> bool, s: int, k: nat, i: int, bound: int)
    requires 0 <= s < n && 1 <= k <= n && i == (if s + k < n then s + k else s + k - n) && i < bound
    ensures hit(i) ==> FirstHit(n, hit, s, 1, k) == k && ScanAsWritten(n, hit, i, bound) == Found(i)
    ensures !hit(i) ==> (FirstHit(n, hit, s, 1, k) == FirstHit(n, hit, s, 1, k + 1)
      && ScanAsWritten(n, hit, i, bound) == ScanAsWritten(n, hit, i + 1, bound))
    ensures i == Visit(s, 1, k, n)
  {
    ForwardStep(n, hit, s, k, i);
  }

  /** The corrected live search finds a line exactly when one matches, and agrees with
      the search as written wherever that one does not throw. */
  lemma LiveSearchFinds(n: nat, hit: int -> bool, cursor: int)
    requires 0 <= cursor
    ensures n > 0 ==> (CircularSearch(n, hit, Min(cursor, n - 1), 1) == -1 <==> forall i :: 0 <= i < n ==> !hit(i))
  {
    if n > 0 {
      CircularSearchSound(n, hit, Min(cursor, n - 1), 1);
    }
  }

  // ---------------------------------------------------------------- keys

  /** What a key asks of the caller: nothing, going back to the list, or writing the transcript. */
  datatype Action = Stay | Back | Export

  /** Where a browsing key sends the cursor before it is clamped. */
  function BrowseTarget(key: string, c: int, height: int, offsets: seq<nat>, len: nat, termHeight: int): Option<int>
  {
    if IsUpKey(key) then Some(c - 1)
    else if IsDownKey(key) then Some(c + 1)
    else if IsPageUpKey(key) then Some(c - height)
    else if IsPageDownKey(key) then Some(c + height)
    else if IsHomeKey(key) then Some(0)
    else if IsEndKey(key) then Some(Far)
    else if key == "]" then Some(NextTarget(offsets, c, len, termHeight))
    else if key == "[" then Some(PrevTarget(offsets, c))
    else None
  }

  class Panel {
    const lines: seq<string>
    const msgOffsets: seq<nat>
    const termHeight: int
    const height: int
    var cursor: int
    var lastQuery: string
    var inSearch: bool
    var searchBuffer: string

    ghost predicate Valid()
      reads this
    {
      Increasing(msgOffsets) && height == Max(5, termHeight - 2)
      && 0 <= cursor <= MaxCursor(|lines|, termHeight)
    }

    /** The panel of `ms` on a terminal of size `term`, wrapped to `term.width - 2` columns. */
    constructor (ms: seq<Message>, term: Size, wrap: (string, nat) -> seq<string>)
      ensures lines == PanelLines(ms, term.width - 2, wrap)
      ensures |msgOffsets| == |ms|
      ensures forall i :: 0 <= i < |ms| ==> msgOffsets[i] == |Flatten(Blocks(ms, term.width - 2, wrap)[..i])|
      ensures termHeight == term.height && cursor == 0
      ensures lastQuery == "" && !inSearch && searchBuffer == ""
      ensures Valid()
    {
      var ls, offs := BuildLines(ms, term.width - 2, wrap);
      OffsetsIncrease(ms, term.width - 2, wrap, offs);
      lines := ls;
      msgOffsets := offs;
      termHeight := term.height;
      height := Max(5, term.height - 2);
      cursor := ClampCursor(0, |ls|, term.height);
      lastQuery := "";
      inSearch := false;
      searchBuffer := "";
    }

    /** `clamp`. */
    method Clamp()
      modifies this
      ensures cursor == ClampCursor(old(cursor), |lines|, termHeight)
      ensures lastQuery == old(lastQuery) && inSearch == old(inSearch) && searchBuffer == old(searchBuffer)
    {
      var maxScroll := Max(0, |lines| - (termHeight - 2));
      if cursor < 0 {
        cursor := 0;
      }
      if cursor > maxScroll {
        cursor := maxScroll;
      }
    }

    /** What a key does while the query line is open, from cursor `c0`, last query `q0`
        and query line `b0`. */
    ghost predicate AfterSearchKey(key: string, c0: int, q0: string, b0: string)
      reads this
    {
      if key == "ESCAPE" then !inSearch && cursor == c0 && lastQuery == q0 && searchBuffer == b0
      else if key == "BACKSPACE" then inSearch && cursor == c0 && lastQuery == q0 && searchBuffer == DropLast(b0)
      else if IsSubmitKey(key) then !inSearch && cursor == c0 && lastQuery == b0 && searchBuffer == b0
      else
        inSearch && lastQuery == q0
        && searchBuffer == b0 + (if IsPrintableKey(key) then key else "")
        && AfterLive(c0)
    }

    /** Where the live search for the query line leaves the cursor that was at `c0`: on
        the first matching line after it, wrapping around to the top, or where it was. */
    ghost predicate AfterLive(c0: int)
      reads this
    {
      var q := Lower(searchBuffer);
      if |q| == 0 || |lines| == 0 then cursor == c0
      else var r := CircularSearch(|lines|, LineHit(lines, q), Min(c0, |lines| - 1), 1);
           cursor == (if r >= 0 then ClampCursor(r, |lines|, termHeight) else c0)
    }

    /** The live search run after a key edits the query line. */
    method Live()
      requires Valid()
      modifies this
      ensures Valid() && AfterLive(old(cursor))
      ensures lastQuery == old(lastQuery) && inSearch == old(inSearch) && searchBuffer == old(searchBuffer)
    {
      var q := Lower(searchBuffer);
      if |q| == 0 {
        return;
      }
      var found := LiveSearch(|lines|, LineHit(lines, q), cursor);
      if found >= 0 {
        cursor := found;
        Clamp();
      }
    }

    /** A key while the query line is open: ESCAPE closes it, BACKSPACE shortens it
        without searching again, ENTER keeps it as the last query; any other key adds
        itself when printable and then searches live from the line after the cursor. */
    method SearchKey(key: string)
      requires Valid() && inSearch
      modifies this
      ensures Valid()
      ensures AfterSearchKey(key, old(cursor), old(lastQuery), old(searchBuffer))
    {
      if key == "ESCAPE" {
        inSearch := false;
        return;
      }
      if key == "BACKSPACE" {
        searchBuffer := DropLast(searchBuffer);
        return;
      }
      if IsSubmitKey(key) {
        lastQuery := searchBuffer;
        inSearch := false;
        return;
      }
      if IsPrintableKey(key) {
        searchBuffer := searchBuffer + key;
      }
      Live();
    }

    /** What a key does while browsing, from cursor `c0`. */
    /** Where a movement key leaves the cursor that was at `c0`. */
    ghost predicate AfterMove(key: string, c0: int)
      reads this
    {
      var t := BrowseTarget(key, c0, height, msgOffsets, |lines|, termHeight);
      cursor == if t.Some? then ClampCursor(t.value, |lines|, termHeight) else c0
    }

    /** Where n (`dir` 1) or N (`dir` -1) leaves the cursor that was at `c0`, the last
        query being `q0`: on the next matching line in that direction, wrapping around,
        or where it was when nothing matches or there is no last query. */
    ghost predicate AfterRepeat(dir: int, c0: int, q0: string)
      reads this
    {
      if |q0| > 0 && |lines| > 0 then
        var r := CircularSearch(|lines|, LineHit(lines, Lower(q0)), Entry(c0, dir, |lines|) - dir, dir);
        cursor == (if r >= 0 then ClampCursor(r, |lines|, termHeight) else c0)
      else cursor == c0
    }

    /** The movement keys: line, page, top, bottom and message jumps, then `clamp`. */
    method Move(key: string)
      requires Valid()
      modifies this
      ensures Valid() && AfterMove(key, old(cursor))
      ensures lastQuery == old(lastQuery) && inSearch == old(inSearch) && searchBuffer == old(searchBuffer)
    {
      var c := cursor;
      if IsUpKey(key) {
        c := cursor - 1;
      } else if IsDownKey(key) {
        c := cursor + 1;
      } else if IsPageUpKey(key) {
        c := cursor - height;
      } else if IsPageDownKey(key) {
        c := cursor + height;
      } else if IsHomeKey(key) {
        c := 0;
      } else if IsEndKey(key) {
        c := Far;
      } else if key == "]" {
        c := JumpNext(msgOffsets, cursor, |lines|, termHeight);
      } else if key == "[" {
        c := JumpPrev(msgOffsets, cursor);
      } else {
        return;
      }
      cursor := c;
      Clamp();
    }

    /** n/N: repeat the last query from the line after (or before) the cursor. */
    method Repeat(dir: int)
      requires Valid() && (dir == 1 || dir == -1)
      modifies this
      ensures Valid() && AfterRepeat(dir, old(cursor), old(lastQuery))
      ensures lastQuery == old(lastQuery) && inSearch == old(inSearch) && searchBuffer == old(searchBuffer)
    {
      if |lastQuery| == 0 {
        return;
      }
      var q := Lower(lastQuery);
      var i := StepSearch(|lines|, LineHit(lines, q), cursor, dir);
      if i >= 0 {
        cursor := i;
        Clamp();
      }
    }

    /** What a key does while browsing, from cursor `c0`, last query `q0` and query line `b0`. */
    ghost predicate AfterBrowseKey(key: string, c0: int, q0: string, b0: string, action: Action)
      reads this
    {
      (action == if IsQuitKey(key) then Back else if key == "e" || key == "E" then Export else Stay)
      && lastQuery == q0
      && (inSearch <==> key == "/") && searchBuffer == (if key == "/" then "" else b0)
      && if IsQuitKey(key) || key == "e" || key == "E" || key == "/" then cursor == c0
         else if key == "n" || key == "N" then AfterRepeat(if key == "n" then 1 else -1, c0, q0)
         else AfterMove(key, c0)
    }

    /** A key while browsing: q/Q go back, e/E export, '/' opens the query line, n/N
        repeat the last query, and the movement keys move the cursor and clamp it. */
    method BrowseKey(key: string) returns (action: Action)
      requires Valid() && !inSearch
      modifies this
      ensures Valid()
      ensures AfterBrowseKey(key, old(cursor), old(lastQuery), old(searchBuffer), action)
    {
      action := Stay;
      if IsQuitKey(key) {
        return Back;
      }
      if key == "e" || key == "E" {
        return Export;
      }
      if key == "/" {
        inSearch := true;
        searchBuffer := "";
      } else if key == "n" || key == "N" {
        Repeat(if key == "n" then 1 else -1);
      } else {
        Move(key);
      }
    }

    /** `onKey`: the query line, when open, takes every key. */
    method OnKey(key: string) returns (action: Action)
      requires Valid()
      modifies this
      ensures Valid()
      ensures old(inSearch) ==> action == Stay && AfterSearchKey(key, old(cursor), old(lastQuery), old(searchBuffer))
      ensures !old(inSearch) ==> AfterBrowseKey(key, old(cursor), old(lastQuery), old(searchBuffer), action)
    {
      if inSearch {
        SearchKey(key);
        return Stay;
      }
      action := BrowseKey(key);
    }
  }
}
