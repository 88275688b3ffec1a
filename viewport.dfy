/**
  The cursor and scroll rule that both the list menu (`clamp` in lib/terminal.js) and
  the JSON tree browser (`clampState` in cli/jsontree.js) apply after every key: the
  selection is pulled into the list, the window of `h` rows is moved just enough to
  show it, and the window is then pulled back inside the list.
 */
module Viewport {

  function Max(a: int, b: int): int
  {
    if a >= b then a else b
  }

  function Min(a: int, b: int): int
  {
    if a <= b then a else b
  }

  /** The first two steps of the rule: below 0 becomes 0, past the end becomes the last
      index (0 for an empty list). */
  function ClampIndex(sel: int, total: nat): int
  {
    var s := if sel < 0 then 0 else sel;
    if s >= total then Max(0, total - 1) else s
  }

  /** The remaining steps: the scroll offset that shows the already clamped selection `sel`. */
  function ClampScroll(sel: int, scroll: int, total: nat, h: nat): int
  {
    var s1 := if sel < scroll then sel else scroll;
    var s2 := if sel >= s1 + h then sel - h + 1 else s1;
    var s3 := if s2 < 0 then 0 else s2;
    var maxScroll := Max(0, total - h);
    if s3 > maxScroll then maxScroll else s3
  }

  /** What the rule promises: the selection is an index of the list and lies in the window,
      and the window starts inside `[0, max(0, total - h)]`; an empty list has both at 0. */
  predicate InView(sel: int, scroll: int, total: nat, h: nat)
  {
    if total == 0 then sel == 0 && scroll == 0
    else 0 <= sel < total && 0 <= scroll <= Max(0, total - h) && scroll <= sel < scroll + h
  }

  /** Whatever the state before, the rule establishes its promise. */
  lemma ClampInView(sel: int, scroll: int, total: nat, h: nat)
    requires h >= 1
    ensures InView(ClampIndex(sel, total), ClampScroll(ClampIndex(sel, total), scroll, total, h), total, h)
  {
  }

  /** A state that already keeps the promise is left as it is. */
  lemma ClampKeepsInView(sel: int, scroll: int, total: nat, h: nat)
    requires h >= 1 && InView(sel, scroll, total, h)
    ensures ClampIndex(sel, total) == sel && ClampScroll(sel, scroll, total, h) == scroll
  {
  }

  /** The selection never wraps: it moves to the nearest index of the list. */
  lemma ClampIndexNearest(sel: int, total: nat)
    requires total > 0
    ensures 0 <= ClampIndex(sel, total) < total
    ensures 0 <= sel < total ==> ClampIndex(sel, total) == sel
    ensures sel < 0 ==> ClampIndex(sel, total) == 0
    ensures sel >= total ==> ClampIndex(sel, total) == total - 1
  {
  }
}
