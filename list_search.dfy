/**
  `makeListSearch` of lib/terminal.js: the search hook a list screen hands to the list
  menu. '/' opens a query line, typed characters only extend it (there is no search
  while typing, just highlighting), ENTER keeps it as the last query and ESCAPE drops
  it; n and N then step to the next or previous label that contains the last query.
 */
module ListSearch {
  import opened Wrappers
  import opened Strings
  import opened Scan
  import opened Screen
  import opened ListMenu

  /** Whether the label at index `i` (an empty one past the end) contains the lower-cased
      query `q`, ignoring case. */
  function LabelHit(labels: seq<string>, q: string): int -> bool
  {
    i => Matches(LabelAt(labels, i), q)
  }

  class Search {
    const labels: seq<string>
    var inSearch: bool
    var searchBuffer: string
    var lastQuery: string

    constructor (items: seq<string>)
      ensures labels == items && !inSearch && searchBuffer == "" && lastQuery == ""
    {
      labels := items;
      inSearch := false;
      searchBuffer := "";
      lastQuery := "";
    }

    /** `getHighlightQuery`: the query line while it is open, else the last query. */
    function HighlightQuery(): (r: string)
      reads this
      ensures inSearch ==> r == searchBuffer
      ensures !inSearch ==> r == lastQuery
    {
      if inSearch then searchBuffer else lastQuery
    }

    /** `onKey` of the search hook. */
    method OnKey(key: string, selectedIndex: int, total: nat) returns (answer: HookAnswer)
      modifies this
      // while the query line is open every key is consumed
      ensures old(inSearch) ==> answer == Handled
      ensures old(inSearch) && key == "ESCAPE" ==>
        !inSearch && searchBuffer == old(searchBuffer) && lastQuery == old(lastQuery)
      ensures old(inSearch) && key == "BACKSPACE" ==>
        inSearch && searchBuffer == DropLast(old(searchBuffer)) && lastQuery == old(lastQuery)
      ensures old(inSearch) && IsSubmitKey(key) ==>
        !inSearch && lastQuery == old(searchBuffer) && searchBuffer == old(searchBuffer)
      ensures old(inSearch) && key != "ESCAPE" && key != "BACKSPACE" && !IsSubmitKey(key) ==>
        inSearch && lastQuery == old(lastQuery)
        && searchBuffer == old(searchBuffer) + (if IsPrintableKey(key) then key else "")
      // otherwise only '/' changes the state, opening an empty query line
      ensures !old(inSearch) && key == "/" ==>
        answer == Handled && inSearch && searchBuffer == "" && lastQuery == old(lastQuery)
      ensures !old(inSearch) && key != "/" ==>
        inSearch == old(inSearch) && searchBuffer == old(searchBuffer) && lastQuery == old(lastQuery)
      // n/N move to the next/previous matching label, or answer `true` when none matches
      ensures !old(inSearch) && (key == "n" || key == "N") && |lastQuery| > 0 ==>
        var r := CircularSearch(total, LabelHit(labels, Lower(lastQuery)), selectedIndex, if key == "n" then 1 else -1);
        0 <= selectedIndex < total ==> answer == (if r >= 0 then SelectIndex(r) else Handled)
      ensures !old(inSearch) && (key == "n" || key == "N") && |lastQuery| > 0 ==>
        answer.Handled? || (answer.SelectIndex? && 0 <= answer.index < total
                            && LabelHit(labels, Lower(lastQuery))(answer.index))
      ensures !old(inSearch) && key != "/" && !((key == "n" || key == "N") && |lastQuery| > 0) ==>
        answer == Unhandled
    {
      if inSearch {
        if key == "ESCAPE" {
          inSearch := false;
          return Handled;
        }
        if key == "BACKSPACE" {
          searchBuffer := DropLast(searchBuffer);
          return Handled;
        }
        if IsSubmitKey(key) {
          lastQuery := searchBuffer;
          inSearch := false;
          return Handled;
        }
        if IsPrintableKey(key) {
          searchBuffer := searchBuffer + key;
          return Handled;
        }
        return Handled;
      }
      if key == "/" {
        inSearch := true;
        searchBuffer := "";
        return Handled;
      }
      if (key == "n" || key == "N") && |lastQuery| > 0 {
        var q := Lower(lastQuery);
        var dir := if key == "n" then 1 else -1;
        var i := StepSearch(total, LabelHit(labels, q), selectedIndex, dir);
        if 0 <= selectedIndex < total {
          EntryInRing(total, LabelHit(labels, q), selectedIndex, dir);
        }
        if i >= 0 {
          return SelectIndex(i);
        }
        return Handled;
      }
      return Unhandled;
    }
  }

  /** A list screen with the search hook: the hook answers the key, the menu acts on
      the answer. After n or N the selection is on the next (previous) label that holds
      the last query, or stays where it was when no label does. */
  method SearchableMenuKey(menu: Menu, search: Search, key: string) returns (exit: Option<Exit>)
    requires menu.Valid() && menu.total == |search.labels| && menu != search as object
    modifies menu, search
    ensures menu.Valid()
    ensures !old(search.inSearch) && (key == "n" || key == "N") && |search.lastQuery| > 0 ==>
      var r := CircularSearch(menu.total, LabelHit(search.labels, Lower(search.lastQuery)),
                              old(menu.selectedIndex), if key == "n" then 1 else -1);
      exit.None? && menu.selectedIndex == (if r >= 0 then r else old(menu.selectedIndex))
    ensures old(search.inSearch) ==>
      exit.None? && menu.selectedIndex == old(menu.selectedIndex) && menu.scrollOffset == old(menu.scrollOffset)
  {
    var answer := search.OnKey(key, menu.selectedIndex, menu.total);
    exit := menu.OnKeyHandler(key, answer);
  }
}
