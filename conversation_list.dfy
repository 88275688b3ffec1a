/**
  The conversation list of cli/gptbrowser.js (`main`): one label per conversation of
  conversations.json, shown in the list menu, with a search hook of its own. '/' opens
  a query line (even while one is open, starting it afresh); while it is open every
  key edits it and the selection follows the first label after the current one that
  contains the query; ENTER keeps the query, ESCAPE drops the line; n and N step to the
  next or previous label containing the last query; e exports the current conversation.
 */
module ConversationList {
  import opened Wrappers
  import opened Strings
  import opened Numerals
  import opened JsonValues
  import opened Viewport
  import opened Scan
  import opened Screen
  import ListMenu

  // ---------------------------------------------------------------- labels

  /** The fallback label of the conversation at index `i`, numbered from 1. */
  function Untitled(i: nat): string
  {
    "Conversation #" + Decimal(i + 1)
  }

  /** The label of conversation `c` at index `i`: its title when it has a truthy one, else
      the numbered fallback; None when the title is truthy but not a string (a number, an
      object), which the screen cannot lower-case. */
  function Label(c: Json, i: nat): Option<string>
  {
    var t := Prop(c, "title");
    if Truthy(c) && Present(t) then (if t.value.Str? then Some(t.value.s) else None)
    else Some(Untitled(i))
  }

  /** The labels of all conversations, when every one of them is a string. */
  function Labels(convs: seq<Json>): Option<seq<string>>
  {
    if forall i :: 0 <= i < |convs| ==> Label(convs[i], i).Some? then
      Some(seq(|convs|, i requires 0 <= i < |convs| => Label(convs[i], i).value))
    else None
  }

  /** Every conversation gets a label: its non-empty string title, or the numbered
      fallback when it has no title, an empty one, or is not an object at all. */
  lemma LabelsNameEveryConversation(convs: seq<Json>)
    ensures Labels(convs).Some? <==>
      forall i :: 0 <= i < |convs| ==> !Present(Prop(convs[i], "title")) || Prop(convs[i], "title").value.Str?
    ensures Labels(convs).Some? ==>
      var ls := Labels(convs).value;
      |ls| == |convs|
      && forall i :: 0 <= i < |convs| ==>
           ls[i] == if Present(Prop(convs[i], "title")) then Prop(convs[i], "title").value.s else Untitled(i)
  {
    forall i | 0 <= i < |convs| && Present(Prop(convs[i], "title"))
      ensures Truthy(convs[i])
    {
      assert convs[i].Obj?;
    }
  }

  /** Two conversations that fall back to numbered labels never share one. */
  lemma UntitledDistinct(i: nat, j: nat)
    requires Untitled(i) == Untitled(j)
    ensures i == j
  {
    var prefix := "Conversation #";
    assert Decimal(i + 1) == Untitled(i)[|prefix|..];
    assert Decimal(j + 1) == Untitled(j)[|prefix|..];
    DecimalInjective(i + 1, j + 1);
  }

  // ---------------------------------------------------------------- findFrom

  /** Whether label `i` contains the lower-cased query `q`, ignoring case. */
  function TitleHit(labels: seq<string>, q: string): int -> bool
  {
    i => 0 <= i < |labels| && Matches(labels[i], q)
  }

  /** `findFrom`: step from `start` by `dir` with `(idx + dir + L) % L`, at most `L` times,
      and stop at the first hit. `start` is the current index, which lies in the list
      (or is 0 for an empty list); the remainder is then of a non-negative number, where
      JavaScript's `%` and Dafny's agree. */
  method FindFrom(n: nat, hit: int -> bool, start: int, dir: int) returns (r: int)
    requires dir == 1 || dir == -1
    requires n == 0 || 0 <= start < n
    ensures r == -1 || (0 <= r < n && hit(r))
    ensures r == CircularSearch(n, hit, start, dir)
  {
    if n == 0 {
      return -1;
    }
    var idx := start;
    VisitZero(start, dir, n);
    var i := 0;
    while i < n
      invariant 0 <= i <= n && 0 <= idx < n && idx == Visit(start, dir, i, n)
      invariant FirstHit(n, hit, start, dir, 1) == FirstHit(n, hit, start, dir, i + 1)
    {
      var next := (idx + dir + n) % n;
      WrapStep(idx, dir, n);
      SearchStep(n, hit, start, dir, i, idx, next);
      idx := next;
      if hit(idx) {
        SearchEnds(n, hit, start, dir, i + 1);
        return idx;
      }
      i := i + 1;
    }
    SearchEnds(n, hit, start, dir, n + 1);
    return -1;
  }

  /** `(i + dir + L) % L` is one step along the ring, wrapping at either end. */
  lemma WrapStep(i: int, dir: int, n: nat)
    requires 0 <= i < n && (dir == 1 || dir == -1)
    ensures (i + dir + n) % n == Entry(i, dir, n)
  {
    if i + dir < 0 {
      ModUnique(i + dir + n, n, 0, n - 1);
    } else if i + dir >= n {
      ModUnique(i + dir + n, n, 2, 0);
    } else {
      ModUnique(i + dir + n, n, 1, i + dir);
    }
  }

  // ---------------------------------------------------------------- the hook

  /** What the hook answers for the live search of `buffer` from index `cur`: the first
      label after it containing the lower-cased query (wrapping around), or nothing to
      do when there is none or the query is empty. */
  function LiveAnswer(labels: seq<string>, buffer: string, cur: int): ListMenu.HookAnswer
  {
    var q := Lower(buffer);
    if |q| == 0 then ListMenu.Handled
    else
      var r := CircularSearch(|labels|, TitleHit(labels, q), cur, 1);
      if r >= 0 then ListMenu.SelectIndex(r) else ListMenu.Handled
  }

  /** What the hook answers for n (`dir` 1) or N (`dir` -1) with last query `query`. */
  function RepeatAnswer(labels: seq<string>, query: string, cur: int, dir: int): ListMenu.HookAnswer
  {
    var q := Lower(query);
    if |q| == 0 then ListMenu.Handled
    else
      var r := CircularSearch(|labels|, TitleHit(labels, q), cur, dir);
      if r >= 0 then ListMenu.SelectIndex(r) else ListMenu.Handled
  }

  /** The state `main` keeps beside the list menu. */
  class Hook {
    const labels: seq<string>
    var currentIndex: int
    var inSearch: bool
    var searchBuffer: string
    var lastQuery: string

    /** The current index is the menu's selection: an index of the list, or 0 when it is empty. */
    ghost predicate Valid()
      reads this
    {
      0 <= currentIndex && (currentIndex < |labels| || currentIndex == 0)
    }

    constructor (items: seq<string>)
      ensures labels == items && currentIndex == 0
      ensures !inSearch && searchBuffer == "" && lastQuery == ""
      ensures Valid()
    {
      labels := items;
      currentIndex := 0;
      inSearch := false;
      searchBuffer := "";
      lastQuery := "";
    }

    /** `getHighlightQuery`: the query line while it is open, else the last query. */
    function HighlightQuery(): string
      reads this
    {
      if inSearch then searchBuffer else lastQuery
    }

    /** `onHighlight`: the menu reports its selection. */
    method OnHighlight(index: int)
      requires 0 <= index && (index < |labels| || index == 0)
      modifies this
      ensures currentIndex == index && Valid()
      ensures inSearch == old(inSearch) && searchBuffer == old(searchBuffer) && lastQuery == old(lastQuery)
    {
      currentIndex := index;
    }

    /** The query line after key `key` edits the line `b0`. */
    static function Edited(key: string, b0: string): string
    {
      if key == "BACKSPACE" then DropLast(b0)
      else if IsPrintableKey(key) then b0 + key
      else b0
    }

    /** What `key` does to the hook's state and what it answers, from query line `b0`,
        last query `q0`, open line `s0` and current index `cur`. */
    ghost predicate AfterKey(key: string, s0: bool, b0: string, q0: string, cur: int,
                             answer: ListMenu.HookAnswer, toExport: Option<nat>)
      reads this
    {
      currentIndex == cur
      && if key == "/" then
           inSearch && searchBuffer == "" && lastQuery == q0 && answer.Handled? && toExport.None?
         else if s0 then
           toExport.None?
           && if key == "ESCAPE" then
                !inSearch && searchBuffer == b0 && lastQuery == q0 && answer.Handled?
              else if IsSubmitKey(key) then
                !inSearch && searchBuffer == b0 && lastQuery == b0 && answer.Handled?
              else
                inSearch && lastQuery == q0 && searchBuffer == Edited(key, b0)
                && answer == LiveAnswer(labels, searchBuffer, cur)
         else
           inSearch == s0 && searchBuffer == b0 && lastQuery == q0
           && if key == "e" || key == "E" then
                answer.Handled? && toExport == (if 0 <= cur < |labels| then Some(cur as nat) else None)
              else if key == "n" || key == "N" then
                toExport.None? && answer == RepeatAnswer(labels, q0, cur, if key == "n" then 1 else -1)
              else
                toExport.None? && answer.Unhandled?
    }

    /** The `onKey` hook `main` hands to the list menu: it answers whether it took the
        key, or the index to select; `toExport` names the conversation to write out. */
    method OnKey(key: string) returns (answer: ListMenu.HookAnswer, toExport: Option<nat>)
      requires Valid()
      modifies this
      ensures Valid()
      ensures AfterKey(key, old(inSearch), old(searchBuffer), old(lastQuery), old(currentIndex), answer, toExport)
    {
      toExport := None;
      if key == "/" {
        inSearch := true;
        searchBuffer := "";
        return ListMenu.Handled, None;
      }
      if inSearch {
        if key == "ESCAPE" {
          inSearch := false;
          return ListMenu.Handled, None;
        }
        if key == "BACKSPACE" {
          searchBuffer := DropLast(searchBuffer);
        } else if IsSubmitKey(key) {
          lastQuery := searchBuffer;
          inSearch := false;
          return ListMenu.Handled, None;
        } else if IsPrintableKey(key) {
          searchBuffer := searchBuffer + key;
        }
        answer := Live();
        return;
      }
      if key == "e" || key == "E" {
        if currentIndex < |labels| {
          toExport := Some(currentIndex);
        }
        return ListMenu.Handled, toExport;
      }
      if key == "n" || key == "N" {
        answer := Repeat(if key == "n" then 1 else -1);
        return;
      }
      return ListMenu.Unhandled, None;
    }

    /** The live search of the query line from the current index. */
    method Live() returns (answer: ListMenu.HookAnswer)
      requires Valid()
      ensures answer == LiveAnswer(labels, searchBuffer, currentIndex)
    {
      var q := Lower(searchBuffer);
      if |q| == 0 {
        return ListMenu.Handled;
      }
      var idx := FindFrom(|labels|, TitleHit(labels, q), currentIndex, 1);
      if idx >= 0 {
        return ListMenu.SelectIndex(idx);
      }
      return ListMenu.Handled;
    }

    /** n/N: the last query from the current index in direction `dir`. */
    method Repeat(dir: int) returns (answer: ListMenu.HookAnswer)
      requires Valid() && (dir == 1 || dir == -1)
      ensures answer == RepeatAnswer(labels, lastQuery, currentIndex, dir)
    {
      var q := Lower(lastQuery);
      if |q| == 0 {
        return ListMenu.Handled;
      }
      var idx := FindFrom(|labels|, TitleHit(labels, q), currentIndex, dir);
      if idx >= 0 {
        return ListMenu.SelectIndex(idx);
      }
      return ListMenu.Handled;
    }
  }

  /** One key on the conversation list: the hook answers first, the menu acts on the
      answer, and a redraw reports the menu's selection back to the hook. The hook's
      current index stays the menu's selection, and a search lands the selection on the
      label it found. */
  method ListKey(menu: ListMenu.Menu, screen: Hook, key: string)
    returns (exit: Option<ListMenu.Exit>, toExport: Option<nat>)
    requires menu.Valid() && screen.Valid() && menu.total == |screen.labels|
    requires screen.currentIndex == menu.selectedIndex
    modifies menu, screen
    ensures menu.Valid() && screen.Valid() && screen.currentIndex == menu.selectedIndex
    ensures old(screen.inSearch) ==> exit.None?
    ensures old(screen.inSearch) && key != "/" && key != "ESCAPE" && !IsSubmitKey(key) ==>
      var q := Lower(screen.searchBuffer);
      var r := CircularSearch(menu.total, TitleHit(screen.labels, q), old(menu.selectedIndex), 1);
      menu.selectedIndex == if |q| > 0 && r >= 0 then r else old(menu.selectedIndex)
    ensures !old(screen.inSearch) && (key == "n" || key == "N") ==>
      var q := Lower(screen.lastQuery);
      var r := CircularSearch(menu.total, TitleHit(screen.labels, q), old(menu.selectedIndex), if key == "n" then 1 else -1);
      exit.None? && menu.selectedIndex == if |q| > 0 && r >= 0 then r else old(menu.selectedIndex)
  {
    ghost var sel0 := menu.selectedIndex;
    var answer;
    answer, toExport := screen.OnKey(key);
    var moves := answer.SelectIndex? || (answer.Unhandled? && ListMenu.NavTarget(key, menu.selectedIndex, menu.total, menu.h).Some?);
    exit := menu.OnKeyHandler(key, answer);
    if moves {
      screen.OnHighlight(menu.selectedIndex);
    }
  }
}
