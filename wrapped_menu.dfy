/**
  The wrapped mode of `listMenu` in lib/terminal.js: every label is word-wrapped to the
  menu's width and takes as many rows as it has wrapped lines. The menu keeps the
  selected item and the first row shown (`scrollRow`); the rows of the items are laid
  end to end, item `i` starting at `offsets[i]`, the sum of the heights before it.
 */
module WrappedMenu {
  import opened Wrappers
  import opened Viewport
  import opened Screen
  import opened LineWrap
  import ListMenu

  /** The sum of the heights. */
  function Sum(hs: seq<nat>): nat
  {
    if |hs| == 0 then 0 else Sum(hs[..|hs| - 1]) + hs[|hs| - 1]
  }

  /** The items' row ranges lie end to end from row 0 and fill exactly `total` rows. */
  predicate Tiles(heights: seq<nat>, offsets: seq<nat>, total: nat)
  {
    |offsets| == |heights|
    && (|heights| == 0 ==> total == 0)
    && (|heights| > 0 ==> offsets[0] == 0 && offsets[|heights| - 1] + heights[|heights| - 1] == total)
    && forall i :: 0 <= i < |heights| - 1 ==> offsets[i + 1] == offsets[i] + heights[i]
  }

  /** The accumulating loop that builds `offsets` and `totalRows`. */
  method PrefixOffsets(heights: seq<nat>) returns (offsets: seq<nat>, total: nat)
    ensures |offsets| == |heights|
    ensures forall i :: 0 <= i < |heights| ==> offsets[i] == Sum(heights[..i])
    ensures total == Sum(heights)
  {
    offsets := [];
    var acc := 0;
    for i := 0 to |heights|
      invariant |offsets| == i
      invariant acc == Sum(heights[..i])
      invariant forall k :: 0 <= k < i ==> offsets[k] == Sum(heights[..k])
    {
      offsets := offsets + [acc];
      assert heights[..i + 1][..i] == heights[..i];
      acc := acc + heights[i];
    }
    assert heights[..|heights|] == heights;
    total := acc;
  }

  /** Prefix sums tile the rows: each item starts where the one before it ends. */
  lemma PrefixSumsTile(heights: seq<nat>, offsets: seq<nat>, total: nat)
    requires |offsets| == |heights| && total == Sum(heights)
    requires forall i :: 0 <= i < |heights| ==> offsets[i] == Sum(heights[..i])
    ensures Tiles(heights, offsets, total)
  {
    forall i | 0 <= i < |heights| - 1
      ensures offsets[i + 1] == offsets[i] + heights[i]
    {
      assert heights[..i + 1][..i] == heights[..i];
    }
    if |heights| > 0 {
      var n := |heights|;
      assert heights[..n - 1] == heights[..n][..n - 1];
      assert heights[..n] == heights;
    }
  }

  /** An item ends no later than any item after it starts, and no later than the last row. */
  lemma {:induction false} TilesFrom(heights: seq<nat>, offsets: seq<nat>, total: nat, i: nat)
    requires Tiles(heights, offsets, total) && i < |heights|
    ensures offsets[i] + heights[i] <= total
    ensures forall j :: i < j < |heights| ==> offsets[i] + heights[i] <= offsets[j]
    decreases |heights| - i
  {
    if i < |heights| - 1 {
      TilesFrom(heights, offsets, total, i + 1);
    }
  }

  predicate Sorted(offsets: seq<nat>)
  {
    forall i, j :: 0 <= i < j < |offsets| ==> offsets[i] <= offsets[j]
  }

  lemma TilesSorted(heights: seq<nat>, offsets: seq<nat>, total: nat)
    requires Tiles(heights, offsets, total)
    ensures Sorted(offsets)
  {
    forall i | 0 <= i < |heights|
      ensures forall j :: i < j < |heights| ==> offsets[i] <= offsets[j]
    {
      TilesFrom(heights, offsets, total, i);
    }
  }

  /** `ans` is the last index whose offset is at most `row`, or 0 when there is none. */
  predicate LastAtMost(offsets: seq<nat>, row: int, ans: int)
  {
    if |offsets| == 0 || row < offsets[0] then ans == 0
    else 0 <= ans < |offsets| && offsets[ans] <= row
         && forall j :: ans < j < |offsets| ==> row < offsets[j]
  }

  /** `indexAtRow`: binary search for the item a row belongs to. (`(lo + hi) >> 1` is
      halving here, both bounds being non-negative inside the loop.) */
  method IndexAtRow(offsets: seq<nat>, row: int) returns (ans: nat)
    requires Sorted(offsets)
    ensures LastAtMost(offsets, row, ans)
  {
    var lo := 0;
    var hi := |offsets| - 1;
    ans := 0;
    while lo <= hi
      invariant 0 <= lo <= hi + 1 <= |offsets|
      invariant ans == if lo > 0 then lo - 1 else 0
      invariant forall j :: 0 <= j < lo ==> offsets[j] <= row
      invariant forall j :: hi < j < |offsets| ==> row < offsets[j]
      decreases hi - lo
    {
      var mid := (lo + hi) / 2;
      if offsets[mid] <= row {
        ans := mid;
        lo := mid + 1;
      } else {
        hi := mid - 1;
      }
    }
  }

  /** Row `g` is line `l` of item `i`. */
  predicate ItemRow(heights: seq<nat>, offsets: seq<nat>, i: int, l: int, g: int)
  {
    |offsets| == |heights| && 0 <= i < |heights| && 0 <= l < heights[i] && g == offsets[i] + l
  }

  /** The search finds the item that holds any row of the list. */
  lemma LastAtMostHolds(heights: seq<nat>, offsets: seq<nat>, total: nat, row: int, ans: int)
    requires Tiles(heights, offsets, total) && 0 <= row < total && LastAtMost(offsets, row, ans)
    ensures ItemRow(heights, offsets, ans, row - offsets[ans], row)
  {
    if ans < |heights| - 1 {
      assert row < offsets[ans + 1];
    }
  }

  /** No row belongs to two items, or to two lines of one item. */
  lemma ItemRowUnique(heights: seq<nat>, offsets: seq<nat>, total: nat, i: int, l: int, i': int, l': int, g: int)
    requires Tiles(heights, offsets, total)
    requires ItemRow(heights, offsets, i, l, g) && ItemRow(heights, offsets, i', l', g)
    ensures i == i' && l == l'
  {
    if i < i' {
      TilesFrom(heights, offsets, total, i);
    } else if i' < i {
      TilesFrom(heights, offsets, total, i');
    }
  }

  /** The row after line `l` of item `i` is the item's next line, or the first line of
      the next item, or past the last row. */
  lemma NextRow(heights: seq<nat>, offsets: seq<nat>, total: nat, i: int, l: int, g: int)
    requires Tiles(heights, offsets, total) && ItemRow(heights, offsets, i, l, g)
    requires forall k :: 0 <= k < |heights| ==> heights[k] >= 1
    ensures l + 1 < heights[i] ==> ItemRow(heights, offsets, i, l + 1, g + 1)
    ensures l + 1 >= heights[i] && g + 1 < total ==> ItemRow(heights, offsets, i + 1, 0, g + 1)
    ensures g + 1 <= total
  {
    TilesFrom(heights, offsets, total, i);
    if i < |heights| - 1 {
      assert offsets[i + 1] == offsets[i] + heights[i];
    }
  }

  // ---------------------------------------------------------------- keeping the selection in view

  /** `ensureVisible` for an item spanning rows `top..bottom`: bring the top into view,
      then the bottom, then pull the window back inside `[0, maxScroll]`. */
  function ScrollFor(scroll: int, top: int, bottom: int, h: nat, maxScroll: int): int
  {
    var s1 := if top < scroll then top else scroll;
    var s2 := if bottom >= s1 + h then bottom - h + 1 else s1;
    var s3 := if s2 < 0 then 0 else s2;
    if s3 > maxScroll then maxScroll else s3
  }

  /** The window of `h` rows from `scroll` shows the item's last row, and all of the
      item when it fits. */
  predicate Shows(scroll: int, top: int, height: nat, h: nat)
  {
    scroll <= top + height - 1 < scroll + h && (height <= h ==> scroll <= top)
  }

  /** What `ensureVisible` promises for an item of the list. */
  lemma ScrollForShows(scroll: int, top: nat, height: nat, h: nat, total: nat)
    requires h >= 1 && height >= 1 && top + height <= total
    ensures var s := ScrollFor(scroll, top, top + height - 1, h, Max(0, total - h));
      0 <= s <= Max(0, total - h) && Shows(s, top, height, h)
  {
  }

  /** An item already wholly in view leaves a valid window where it is. */
  lemma ScrollForKeeps(scroll: int, top: nat, height: nat, h: nat, total: nat)
    requires h >= 1 && height >= 1 && top + height <= total
    requires 0 <= scroll <= Max(0, total - h) && scroll <= top && top + height - 1 < scroll + h
    ensures ScrollFor(scroll, top, top + height - 1, h, Max(0, total - h)) == scroll
  {
  }

  // ---------------------------------------------------------------- keys

  /** The item UP, DOWN, HOME and END select in a list of `n` items (the page keys and
      all others select nothing). */
  function SelectTarget(key: string, sel: int, n: nat): Option<int>
  {
    if IsUpKey(key) then Some(Max(0, sel - 1))
    else if IsDownKey(key) then Some(Min(n - 1, sel + 1))
    else if IsPageUpKey(key) || IsPageDownKey(key) then None
    else if IsHomeKey(key) then Some(0)
    else if IsEndKey(key) then Some(n - 1)
    else None
  }

  /** The first row PAGE_UP and PAGE_DOWN scroll to. */
  function PageTarget(key: string, scroll: int, h: nat, maxScroll: nat): Option<int>
  {
    if IsUpKey(key) || IsDownKey(key) then None
    else if IsPageUpKey(key) then Some(Max(0, scroll - h))
    else if IsPageDownKey(key) then Some(Min(maxScroll, scroll + h))
    else None
  }

  /** The selection keys keep an item selected and move it by one or to an end; the page
      keys keep the window inside `[0, maxScroll]`; no key is both. */
  lemma KeysStayInRange(key: string, sel: int, n: nat, scroll: int, h: nat, maxScroll: nat)
    requires 0 <= sel < n && 0 <= scroll <= maxScroll
    ensures SelectTarget(key, sel, n).Some? ==>
      var t := SelectTarget(key, sel, n).value;
      0 <= t < n && (IsUpKey(key) ==> t == sel - 1 || t == sel == 0)
      && (IsDownKey(key) ==> t == sel + 1 || t == sel == n - 1)
    ensures PageTarget(key, scroll, h, maxScroll).Some? ==>
      0 <= PageTarget(key, scroll, h, maxScroll).value <= maxScroll
    ensures !(SelectTarget(key, sel, n).Some? && PageTarget(key, scroll, h, maxScroll).Some?)
  {
  }

  /** A wrapped line fitted to `w` columns: cut to `w` characters, or padded with spaces. */
  function Cut(text: string, w: nat): (r: string)
    ensures |r| == w
    ensures |text| > w ==> r == text[..w]
    ensures |text| <= w ==> r[..|text|] == text && forall i :: |text| <= i < w ==> r[i] == ' '
  {
    if |text| > w then text[..w] else text + seq(w - |text|, _ => ' ')
  }

  /** Each item has as many rows as wrapped lines, at least one, and the items' rows tile
      the list's `total` rows. */
  predicate LaidOut(lines: seq<seq<string>>, heights: seq<nat>, offsets: seq<nat>, total: nat)
  {
    |heights| == |lines|
    && (forall i :: 0 <= i < |lines| ==> heights[i] == |lines[i]| && heights[i] >= 1)
    && Tiles(heights, offsets, total)
  }

  /** The layout `listMenu` computes before the wrapped menu opens: `linesByItem`,
      `heights`, `offsets` and `totalRows`. */
  method Lay(labels: seq<string>, w: nat, wrap: (string, nat) -> seq<string>)
    returns (lines: seq<seq<string>>, heights: seq<nat>, offsets: seq<nat>, total: nat)
    ensures |lines| == |labels| && forall i :: 0 <= i < |labels| ==> lines[i] == Block(labels[i], w, wrap)
    ensures LaidOut(lines, heights, offsets, total)
    ensures forall i :: 0 <= i < |offsets| ==> offsets[i] == Sum(heights[..i])
    ensures total == Sum(heights)
  {
    lines := seq(|labels|, i requires 0 <= i < |labels| => Block(labels[i], w, wrap));
    heights := seq(|lines|, i requires 0 <= i < |lines| => |lines[i]|);
    offsets, total := PrefixOffsets(heights);
    PrefixSumsTile(heights, offsets, total);
  }

  /** One row of the wrapped menu: blank past the last item's rows, or one wrapped line. */
  datatype Row = Blank | Line(item: nat, line: nat, selected: bool, text: string)

  /** What row `g` of the list shows: nothing past the last item's rows, else the line
      of the item that lies on it, cut to the width and marked when the item is selected. */
  predicate RowShows(lines: seq<seq<string>>, heights: seq<nat>, offsets: seq<nat>, total: nat, w: nat,
                     selectedIndex: int, row: Row, g: int)
  {
    (row.Blank? <==> g >= total)
    && (row.Line? ==>
          ItemRow(heights, offsets, row.item, row.line, g)
          && row.item < |lines| && row.line < |lines[row.item]|
          && row.text == Cut(lines[row.item][row.line], w)
          && (row.selected <==> row.item == selectedIndex))
  }

  /** The loop of `render`: `h` rows from row `scrollRow` of the list, each the wrapped
      line that lies on it, or blank past the end. */
  method RenderRows(lines: seq<seq<string>>, heights: seq<nat>, offsets: seq<nat>, total: nat,
                    w: nat, h: nat, selectedIndex: int, scrollRow: nat)
    returns (rows: seq<Row>)
    requires LaidOut(lines, heights, offsets, total)
    ensures |rows| == h
    ensures forall r :: 0 <= r < h ==> RowShows(lines, heights, offsets, total, w, selectedIndex, rows[r], scrollRow + r)
  {
    TilesSorted(heights, offsets, total);
    var globalRow := scrollRow;
    var itemIndex := IndexAtRow(offsets, globalRow);
    // with no items `offsets[itemIndex]` is undefined, and no row is ever looked up
    var lineIndex := if |offsets| > 0 then globalRow - offsets[itemIndex] else 0;
    if globalRow < total {
      LastAtMostHolds(heights, offsets, total, globalRow, itemIndex);
    }
    rows := [];
    var row := 0;
    while row < h
      invariant 0 <= row <= h && |rows| == row && globalRow == scrollRow + row
      invariant globalRow < total ==> ItemRow(heights, offsets, itemIndex, lineIndex, globalRow)
      invariant forall r :: 0 <= r < row ==> RowShows(lines, heights, offsets, total, w, selectedIndex, rows[r], scrollRow + r)
      decreases h - row
    {
      var drawn: Row;
      if globalRow >= total {
        drawn := Blank;
      } else {
        var text := lines[itemIndex][lineIndex];
        drawn := Line(itemIndex, lineIndex, itemIndex == selectedIndex, Cut(text, w));
        NextRow(heights, offsets, total, itemIndex, lineIndex, globalRow);
        lineIndex := lineIndex + 1;
        if lineIndex >= heights[itemIndex] {
          itemIndex := itemIndex + 1;
          lineIndex := 0;
        }
      }
      assert RowShows(lines, heights, offsets, total, w, selectedIndex, drawn, scrollRow + row);
      rows := rows + [drawn];
      row := row + 1;
      globalRow := globalRow + 1;
    }
  }

  class Menu {
    const lines: seq<seq<string>>
    const heights: seq<nat>
    const offsets: seq<nat>
    const totalRows: nat
    const w: nat
    const h: nat
    const maxScroll: nat
    var selectedIndex: int
    var scrollRow: int

    /** The layout fixed when the menu opens. */
    ghost predicate Layout()
      reads this
    {
      w >= 1 && h >= 1 && LaidOut(lines, heights, offsets, totalRows)
      && maxScroll == Max(0, totalRows - h)
    }

    /** The window stays inside the rows; the selection is an item, except that an empty
        list lets it reach -1 (DOWN and END compute `min(-1, ..)` and `-1`). */
    ghost predicate Valid()
      reads this
    {
      Layout() && 0 <= scrollRow <= maxScroll
      && (if |lines| == 0 then -1 <= selectedIndex <= 0 else 0 <= selectedIndex < |lines|)
    }

    /** Where `ensureVisible` leaves the window for selection `sel`; it does nothing when
        `sel` is not an item (the row lookups give `undefined` and every test fails). */
    function VisibleScroll(sel: int, scroll: int): int
      reads this
      requires Layout()
    {
      if 0 <= sel < |offsets| then ScrollFor(scroll, offsets[sel], offsets[sel] + heights[sel] - 1, h, maxScroll)
      else scroll
    }

    /** The window shows the selected item as `ensureVisible` promises. */
    ghost predicate SelectionShown()
      reads this
    {
      |offsets| == |heights| && 0 <= selectedIndex < |heights|
      && Shows(scrollRow, offsets[selectedIndex], heights[selectedIndex], h)
    }

    /** The menu over `labels`, each wrapped by `wrap` to the menu's width (a label the
        wrapper turns into nothing keeps one blank line). */
    constructor (labels: seq<string>, x: int, y: int, width: int, height: int, term: Size,
                 wrap: (string, nat) -> seq<string>)
      ensures w == Dimension(width, term.width - x) && h == Dimension(height, term.height - y)
      ensures |lines| == |labels| && forall i :: 0 <= i < |labels| ==> lines[i] == Block(labels[i], w, wrap)
      ensures selectedIndex == 0
      ensures |labels| > 0 ==> SelectionShown()
      ensures Valid()
    {
      var cols := Dimension(width, term.width - x);
      var rows := Dimension(height, term.height - y);
      var wrapped, hs, offs, acc := Lay(labels, cols, wrap);
      w := cols;
      h := rows;
      lines := wrapped;
      heights := hs;
      offsets := offs;
      totalRows := acc;
      maxScroll := if acc > rows then acc - rows else 0;
      selectedIndex := 0;
      scrollRow := 0;
      new;
      EnsureVisible();
    }

    /** `ensureVisible`. */
    method EnsureVisible()
      requires Layout()
      modifies this
      ensures selectedIndex == old(selectedIndex)
      ensures scrollRow == VisibleScroll(selectedIndex, old(scrollRow))
      ensures 0 <= selectedIndex < |lines| ==> 0 <= scrollRow <= maxScroll && SelectionShown()
    {
      if 0 <= selectedIndex < |offsets| {
        var topRow := offsets[selectedIndex];
        var bottomRow := topRow + heights[selectedIndex] - 1;
        if topRow < scrollRow {
          scrollRow := topRow;
        }
        if bottomRow >= scrollRow + h {
          scrollRow := bottomRow - h + 1;
        }
        if scrollRow < 0 {
          scrollRow := 0;
        }
        if scrollRow > maxScroll {
          scrollRow := maxScroll;
        }
        TilesFrom(heights, offsets, totalRows, selectedIndex);
        ScrollForShows(old(scrollRow), topRow, heights[selectedIndex], h, totalRows);
      }
    }

    /** `onKeyHandler` of the wrapped mode: only a hook answer of `true` swallows the key
        (a `selectIndex` answer is ignored here); q/Q cancel, ENTER submits, UP/DOWN/HOME/END
        move the selection and bring it into view, PAGE_UP/PAGE_DOWN scroll the window by
        a page and leave the selection alone. */
    method OnKeyHandler(key: string, answer: ListMenu.HookAnswer) returns (exit: Option<ListMenu.Exit>)
      requires Valid()
      modifies this
      ensures Valid()
      ensures answer.Handled? ==>
        exit.None? && selectedIndex == old(selectedIndex) && scrollRow == old(scrollRow)
      ensures !answer.Handled? ==> exit == ListMenu.ExitFor(key, old(selectedIndex))
      ensures !answer.Handled? && SelectTarget(key, old(selectedIndex), |lines|).Some? ==>
        selectedIndex == SelectTarget(key, old(selectedIndex), |lines|).value
        && scrollRow == VisibleScroll(selectedIndex, old(scrollRow))
        && (|lines| > 0 ==> SelectionShown())
      ensures !answer.Handled? && PageTarget(key, old(scrollRow), h, maxScroll).Some? ==>
        selectedIndex == old(selectedIndex) && scrollRow == PageTarget(key, old(scrollRow), h, maxScroll).value
      ensures (!answer.Handled? && SelectTarget(key, old(selectedIndex), |lines|).None?
               && PageTarget(key, old(scrollRow), h, maxScroll).None?) ==>
        selectedIndex == old(selectedIndex) && scrollRow == old(scrollRow)
    {
      exit := None;
      if answer.Handled? {
        return;
      }
      if IsQuitKey(key) {
        exit := Some(ListMenu.Cancel(selectedIndex));
      } else if IsSubmitKey(key) {
        exit := Some(ListMenu.Submit(selectedIndex));
      } else if IsUpKey(key) {
        selectedIndex := Max(0, selectedIndex - 1);
        EnsureVisible();
      } else if IsDownKey(key) {
        selectedIndex := Min(|lines| - 1, selectedIndex + 1);
        EnsureVisible();
      } else if IsPageUpKey(key) {
        scrollRow := Max(0, scrollRow - h);
      } else if IsPageDownKey(key) {
        scrollRow := Min(maxScroll, scrollRow + h);
      } else if IsHomeKey(key) {
        selectedIndex := 0;
        EnsureVisible();
      } else if IsEndKey(key) {
        selectedIndex := |lines| - 1;
        EnsureVisible();
      }
    }

    /** `render` of the wrapped mode: the `h` rows from `scrollRow`. */
    method Render() returns (rows: seq<Row>)
      requires Valid()
      ensures |rows| == h
      ensures forall r :: 0 <= r < h ==>
        RowShows(lines, heights, offsets, totalRows, w, selectedIndex, rows[r], scrollRow + r)
    {
      rows := RenderRows(lines, heights, offsets, totalRows, w, h, selectedIndex, scrollRow);
    }
  }
}
