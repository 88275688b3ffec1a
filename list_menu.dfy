/**
  The fixed-row list menu of lib/terminal.js (`listMenu` without `wrap`) and the rows
  `drawListSlice` draws for it. The menu keeps a selected index and a scroll offset,
  lets the screen's `onKey` hook answer a key first, and re-establishes the viewport
  rule after every move.
 */
module ListMenu {
  import opened Wrappers
  import opened Numerals
  import opened Highlight
  import opened Viewport
  import opened Screen

  /** What a screen's `onKey` hook answers: `true`, an object with a numeric
      `selectIndex`, or anything else (also when the screen has no hook). */
  datatype HookAnswer = Handled | SelectIndex(index: int) | Unhandled

  /** How the menu's promise settles: `{type: 'cancel' | 'submit', index}`. */
  datatype Exit = Cancel(index: int) | Submit(index: int)

  /** Where a navigation key sends the selection before the rule is applied. */
  function NavTarget(key: string, sel: int, total: nat, h: nat): Option<int>
  {
    if IsUpKey(key) then Some(sel - 1)
    else if IsDownKey(key) then Some(sel + 1)
    else if IsPageUpKey(key) then Some(sel - h)
    else if IsPageDownKey(key) then Some(sel + h)
    else if IsHomeKey(key) then Some(0)
    else if IsEndKey(key) then Some(total - 1)
    else None
  }

  /** The keys that settle the menu, with the selection at that moment. */
  function ExitFor(key: string, sel: int): Option<Exit>
  {
    if IsQuitKey(key) then Some(Cancel(sel))
    else if IsSubmitKey(key) then Some(Submit(sel))
    else None
  }

  /** Navigation never wraps and never leaves the list: one step moves by one item (or
      stays at the end it has reached), a page by `h` items or to the nearer end. */
  lemma NavigationStaysInList(key: string, sel: int, total: nat, h: nat)
    requires total > 0 && 0 <= sel < total && NavTarget(key, sel, total, h).Some?
    ensures var t := ClampIndex(NavTarget(key, sel, total, h).value, total);
      0 <= t < total
      && (IsUpKey(key) ==> t == Max(0, sel - 1))
      && (IsDownKey(key) ==> t == Min(total - 1, sel + 1))
      && (IsPageUpKey(key) ==> t == Max(0, sel - h))
      && (IsPageDownKey(key) ==> t == Min(total - 1, sel + h))
      && (IsHomeKey(key) ==> t == 0)
      && (IsEndKey(key) ==> t == total - 1)
  {
  }

  /** Moving down and back up returns to the same item, unless the first move was stopped
      by the end of the list. */
  lemma DownThenUp(sel: int, total: nat)
    requires 0 <= sel < total - 1
    ensures ClampIndex(ClampIndex(sel + 1, total) - 1, total) == sel
  {
  }

  class Menu {
    const total: nat
    const h: nat
    var selectedIndex: int
    var scrollOffset: int

    ghost predicate Valid()
      reads this
    {
      h >= 1 && InView(selectedIndex, scrollOffset, total, h)
    }

    /** The selection was sent to `target` and the rule applied, from the scroll offset `scroll`. */
    ghost predicate MovedTo(target: int, scroll: int)
      reads this
    {
      selectedIndex == ClampIndex(target, total)
      && scrollOffset == ClampScroll(selectedIndex, scroll, total, h)
    }

    /** A menu over `count` labels, `height` rows high (or the rows below `y`). */
    constructor (count: nat, height: int, y: int, term: Size)
      ensures total == count && h == Dimension(height, term.height - y)
      ensures selectedIndex == 0 && scrollOffset == 0
      ensures Valid()
    {
      total := count;
      h := Dimension(height, term.height - y);
      selectedIndex := 0;
      scrollOffset := 0;
    }

    /** `clamp`. */
    method Clamp()
      requires h >= 1
      modifies this
      ensures MovedTo(old(selectedIndex), old(scrollOffset))
      ensures Valid()
    {
      ghost var sel0, scroll0 := selectedIndex, scrollOffset;
      if selectedIndex < 0 {
        selectedIndex := 0;
      }
      if selectedIndex >= total {
        selectedIndex := Max(0, total - 1);
      }
      if selectedIndex < scrollOffset {
        scrollOffset := selectedIndex;
      }
      if selectedIndex >= scrollOffset + h {
        scrollOffset := selectedIndex - h + 1;
      }
      if scrollOffset < 0 {
        scrollOffset := 0;
      }
      var maxScroll := Max(0, total - h);
      if scrollOffset > maxScroll {
        scrollOffset := maxScroll;
      }
      ClampInView(sel0, scroll0, total, h);
    }

    /** `onKeyHandler`: the hook answers first; `true` swallows the key, a `selectIndex`
        moves there; otherwise q/Q cancel, ENTER submits, and the navigation keys move. */
    method OnKeyHandler(key: string, answer: HookAnswer) returns (exit: Option<Exit>)
      requires Valid()
      modifies this
      ensures Valid()
      ensures answer.Handled? ==>
        exit.None? && selectedIndex == old(selectedIndex) && scrollOffset == old(scrollOffset)
      ensures answer.SelectIndex? ==> exit.None? && MovedTo(answer.index, old(scrollOffset))
      ensures answer.Unhandled? ==> exit == ExitFor(key, old(selectedIndex))
      ensures answer.Unhandled? && NavTarget(key, old(selectedIndex), total, h).Some? ==>
        MovedTo(NavTarget(key, old(selectedIndex), total, h).value, old(scrollOffset))
      ensures answer.Unhandled? && NavTarget(key, old(selectedIndex), total, h).None? ==>
        selectedIndex == old(selectedIndex) && scrollOffset == old(scrollOffset)
    {
      exit := None;
      match answer {
        case Handled =>
          return;
        case SelectIndex(i) =>
          selectedIndex := Max(0, Min(total - 1, i));
          Clamp();
          return;
        case Unhandled =>
      }
      if IsQuitKey(key) {
        exit := Some(Cancel(selectedIndex));
      } else if IsSubmitKey(key) {
        exit := Some(Submit(selectedIndex));
      } else if IsUpKey(key) {
        selectedIndex := selectedIndex - 1;
        Clamp();
      } else if IsDownKey(key) {
        selectedIndex := selectedIndex + 1;
        Clamp();
      } else if IsPageUpKey(key) {
        selectedIndex := selectedIndex - h;
        Clamp();
      } else if IsPageDownKey(key) {
        selectedIndex := selectedIndex + h;
        Clamp();
      } else if IsHomeKey(key) {
        selectedIndex := 0;
        Clamp();
      } else if IsEndKey(key) {
        selectedIndex := total - 1;
        Clamp();
      }
    }
  }

  // ---------------------------------------------------------------- drawing rows

  /** One row of the menu: erased and left blank past the last label, or the label
      printed with the query highlighted. */
  datatype Row = Blank | Drawn(index: int, selected: bool, chunks: seq<Chunk>)

  /** `String(labels[idx] ?? '')`. */
  function LabelAt(labels: seq<string>, idx: int): string
  {
    if 0 <= idx < |labels| then labels[idx] else ""
  }

  /** A label fitted to exactly `w` columns: cut to `w - 1` characters and an ellipsis
      when too long, else padded with spaces. */
  function FitRow(raw: string, w: nat): (r: string)
    requires w >= 1
    ensures |r| == w
    ensures |raw| > w ==> r[..w - 1] == raw[..w - 1] && r[w - 1] == '…'
    ensures |raw| <= w ==> r[..|raw|] == raw && forall i :: |raw| <= i < w ==> r[i] == ' '
  {
    if |raw| > w then raw[..w - 1] + "…" else raw + Repeat(' ', w - |raw|)
  }

  /** The row drawn for list index `idx`. */
  function SliceRow(labels: seq<string>, w: nat, selectedIndex: int, idx: int, query: string): Row
    requires w >= 1
  {
    if idx >= |labels| then Blank
    else Drawn(idx, idx == selectedIndex, Highlighted(FitRow(LabelAt(labels, idx), w), query))
  }

  /** `drawListSlice`: one row per line of the menu's height, for the indices from
      `scrollOffset` on. */
  method DrawListSlice(labels: seq<string>, x: int, y: int, width: int, height: int, term: Size,
                       selectedIndex: int, scrollOffset: int, query: string)
    returns (rows: seq<Row>)
    ensures |rows| == Dimension(height, term.height - y)
    ensures forall row :: 0 <= row < |rows| ==>
      rows[row] == SliceRow(labels, Dimension(width, term.width - x), selectedIndex, scrollOffset + row, query)
  {
    var w := Dimension(width, term.width - x);
    var h := Dimension(height, term.height - y);
    rows := [];
    for row := 0 to h
      invariant |rows| == row
      invariant forall r :: 0 <= r < row ==> rows[r] == SliceRow(labels, w, selectedIndex, scrollOffset + r, query)
    {
      var idx := scrollOffset + row;
      var drawn: Row;
      if idx >= |labels| {
        drawn := Blank;
      } else {
        var text := FitRow(LabelAt(labels, idx), w);
        var chunks := PrintHighlighted(text, query);
        drawn := Drawn(idx, idx == selectedIndex, chunks);
      }
      assert drawn == SliceRow(labels, w, selectedIndex, idx, query);
      rows := rows + [drawn];
    }
  }

  /** A row is drawn exactly when its index has a label; a drawn row spells out the fitted
      label, `w` columns wide, and is marked selected exactly at the selection. */
  lemma SliceRowShape(labels: seq<string>, w: nat, selectedIndex: int, idx: int, query: string)
    requires w >= 1
    ensures SliceRow(labels, w, selectedIndex, idx, query).Drawn? <==> idx < |labels|
    ensures var row := SliceRow(labels, w, selectedIndex, idx, query);
      row.Drawn? ==>
        row.index == idx && (row.selected <==> idx == selectedIndex)
        && Concat(row.chunks) == FitRow(LabelAt(labels, idx), w) && |Concat(row.chunks)| == w
  {
    if idx < |labels| {
      HighlightedConcat(FitRow(LabelAt(labels, idx), w), query);
    }
  }
}
