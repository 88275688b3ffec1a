# chatgpt-export-viewer: navigation, search and transcript core in Dafny

This project models the logic behind the terminal screens of chatgpt-export-viewer, a set of
command-line tools that browse a ChatGPT export archive. It covers:

- **The list menu of `lib/terminal.js`** (`ListMenu`, `WrappedMenu`, `Viewport`, `Screen`):
  - a selected index and a scroll offset, re-clamped after every key;
  - a wrapped mode in which each item spans several rows (prefix-sum offsets, a binary search
    from row to item, `ensureVisible`);
  - the fixed-width rows of `drawListSlice`.
- **Highlighting and wrapping** (`Highlight`, `LineWrap`): the query highlighting of
  `printHighlighted` and the line splitting of `wrapLines`.
- **The reusable list search of `makeListSearch`** (`ListSearch`, `Scan`): a query line and
  wrap-around n/N repeats.
- **The lazy JSON tree browser of `cli/jsontree.js`** (`JsonTree`):
  - value previews and row text;
  - the pre-order list of visible nodes;
  - the nodes whose children have been built;
  - LEFT and toggle, which put the cursor back on a node by looking up its path.
- **The conversation viewer of `cli/gptbrowser.js`** (`TextPanel`, `ConversationList`):
  - the message text panel: its lines and message offsets, the `]`/`[` jumps, the live
    search and n/N;
  - the conversation list: its labels, its `findFrom` scan and its search hook.
- **The transcript reducer of `lib/gpt.js`** (`Transcript`):
  - text and author extraction;
  - the walk from a leaf to the root, protected against cycles;
  - leaf auto-detection and role filtering;
  - the plain-text transcript and its export.
- **The helpers of `lib/io.js` and `lib/zip.js`** (`IoHelpers`, `ZipHelpers`):
  - `safeFilename` and the free-name search of `writeFileUnique`;
  - the argument-or-stdin decision of `resolvePathFromArgOrStdin`;
  - compression-method labels, CRC hex formatting, directory names and exact-name entry
    lookup.

Modelling choices:

- Key events are synchronous steps on a `class` whose fields are the closure variables the
  source reassigns. The rendering calls and the `term.on('key')` and Promise plumbing are
  left out.
- JSON values are a datatype (`JsonValues.Json`), in which objects are ordered lists of
  members.
- The external word-wrapper and `JSON.parse` are function parameters.
- The export folder is a map from file names to contents.
- Every state-changing method is proved against a specification function, and the
  properties are proved about those functions. The shared modules `Wrappers`, `Numerals`,
  `Strings` and `Scan` supply results, number formatting, string operations and the
  wrap-around scan reference.

## Model

| member | source | states |
|---|---|---|
| Viewport.ClampInView | lib/terminal.js:271-279 | From any selection and scroll, the clamp rule yields a pair in view: 0 <= sel < total, 0 <= scroll <= max(0, total-h) and scroll <= sel < scroll+h. Both are 0 for an empty list. |
| Viewport.ClampKeepsInView | lib/terminal.js:271-279 | The clamp is idempotent: a pair already in view is left unchanged. |
| Viewport.ClampIndexNearest | lib/terminal.js:272-273 | The clamped selection is the nearest index of the list: an index in range is kept, anything below goes to 0 and anything above goes to total-1. |
| Screen.Dimension | lib/terminal.js:265-266 | A menu dimension is the given one when positive, and 1 when the given one is negative (a negative size is truthy). Only a given size of 0 falls back to the space left on the terminal, and the result is never less than 1. |
| ListMenu.Menu.constructor | lib/terminal.js:264-270 | A new menu starts with selection and scroll at 0, has the given or the remaining height, and is in view. |
| ListMenu.Menu.Clamp | lib/terminal.js:271-279 | After `clamp` the selection is the clamped index and the scroll is the clamped scroll, so the pair is in view. |
| ListMenu.NavigationStaysInList | lib/terminal.js:327-360 | Navigation never wraps and stays in [0, total-1]. UP/DOWN move by one, PAGE_UP/PAGE_DOWN by h (or to the nearer end), HOME goes to 0 and END to total-1. |
| ListMenu.DownThenUp | lib/terminal.js:327-338 | Moving down and then up returns to the same item unless the list end stopped the first move. |
| ListMenu.Menu.OnKeyHandler | lib/terminal.js:307-362 | Hook answer `true`: nothing changes and nothing settles. `selectIndex`: that index, clamped, becomes the selection. Otherwise q/Q cancel and ENTER/KP_ENTER submit with the current index, navigation keys move to their clamped target, and other keys change nothing. The menu stays in view. |
| ListMenu.FitRow | lib/terminal.js:240 | A drawn label is exactly w characters: a longer label becomes its first w-1 characters and '…', a shorter one is padded with spaces. |
| ListMenu.DrawListSlice | lib/terminal.js:232-243 | One row per line of the menu height. Row r shows list index scrollOffset+r: blank past the last label, otherwise the fitted label highlighted for the query. |
| ListMenu.SliceRowShape | lib/terminal.js:238-242 | A row is drawn exactly when its index has a label. A drawn row spells the fitted label, is w wide, and is marked selected exactly at the selection. |
| Highlight.PrintHighlighted | lib/terminal.js:39-59 | The printing loop emits exactly the left-to-right segmentation `Highlighted(text, query)`. |
| Highlight.HighlightedConcat | lib/terminal.js:47-57 | The printed chunks concatenate back to the input text. |
| Highlight.HighlightedChunks | lib/terminal.js:42-57 | An empty query prints the text once, unmarked. Otherwise every marked chunk lower-cases to the query, and every unmarked chunk is non-empty and does not contain the query. |
| Highlight.HighlightedLeftmost | lib/terminal.js:47-58 | With a non-empty query, the printed chunks take the occurrences left to right: each highlighted chunk starts at an occurrence of the query in the lower-cased text, no occurrence starts at any index covered by a plain chunk, and no two plain chunks are adjacent. A highlighted chunk is therefore the first occurrence at or after the end of the previous one, and matches do not overlap. |
| Highlight.LeftmostUnique | lib/terminal.js:47-58 | Any run of chunks that spells out the text and follows that leftmost rule is exactly what `printHighlighted` prints. |
| LineWrap.SplitLines | lib/terminal.js:64 | Splitting at '\n' yields one line per separator plus one, none containing '\n', each with a '\r' before the '\n' removed. |
| LineWrap.SplitLinesRoundTrip | lib/terminal.js:64 | For text without '\r', joining the split lines with '\n' gives the text back. |
| LineWrap.Block | lib/terminal.js:67-69 | Every source line yields at least one row: the wrapper's rows, or one empty row when the wrapper returns none. |
| LineWrap.WrapWidth | lib/terminal.js:63 | The wrap width is at least 1 and at least the requested width. |
| LineWrap.WrapLines | lib/terminal.js:62-72 | The loop yields the wrapped rows of each line in order, at the clamped width. |
| LineWrap.RowsAtLeastLines | lib/terminal.js:66-70 | Wrapping never yields fewer rows than there are lines, so blank lines are preserved. |
| LineWrap.WrapKeepsFittingText | lib/terminal.js:62-72 | When the wrapper leaves each of the text's own lines as the single row it is (and the text has no '\r'), the rows are the text's lines and join back to the text. |
| WrappedMenu.PrefixOffsets | lib/terminal.js:373-380 | `offsets[i]` is the sum of the heights of the items before i, and the total is the sum of all heights. |
| WrappedMenu.PrefixSumsTile | lib/terminal.js:373-380 | Prefix-sum offsets lay the items' row ranges end to end from row 0 and fill exactly `totalRows` rows. |
| WrappedMenu.TilesSorted | lib/terminal.js:373-380 | Tiled offsets are sorted, which `indexAtRow`'s binary search needs. |
| WrappedMenu.IndexAtRow | lib/terminal.js:392-404 | The binary search returns the greatest index whose offset is at most the row, or 0 when there is none. |
| WrappedMenu.LastAtMostHolds | lib/terminal.js:405-409 | For a row inside the list, that index is the item lying on the row, at line row - offsets[index]. |
| WrappedMenu.ItemRowUnique | lib/terminal.js:405-430 | Each global row belongs to exactly one item and line. |
| WrappedMenu.NextRow | lib/terminal.js:423-429 | Advancing one row moves to the item's next line, or to line 0 of the next item when the current one is exhausted. |
| WrappedMenu.ScrollForShows | lib/terminal.js:384-391 | After `ensureVisible` the scroll row is in [0, maxScroll] and the selected item's last row is in the window. When the item fits in h rows, its first row is in the window too. |
| WrappedMenu.ScrollForKeeps | lib/terminal.js:384-391 | A window that already shows the whole item is not moved. |
| WrappedMenu.KeysStayInRange | lib/terminal.js:448-479 | Select keys keep the selection in [0, len-1]. Page keys keep the scroll row in [0, maxScroll]. No key does both. |
| WrappedMenu.Cut | lib/terminal.js:420 | A wrapped line is drawn exactly w wide: cut to w characters or padded with spaces. |
| WrappedMenu.Lay | lib/terminal.js:369-380 | Each label is wrapped to the menu width, keeping one blank line when the wrapper gives none. Heights, offsets and total rows tile the list. |
| WrappedMenu.RenderRows | lib/terminal.js:405-430 | Each of the h rows shows the line of the item lying on that global row (cut to width, marked when selected), or is blank past the total. |
| WrappedMenu.Menu.constructor | lib/terminal.js:369-383 | A new wrapped menu lays out every label. Selection 0 is shown in the window when the list is non-empty. |
| WrappedMenu.Menu.EnsureVisible | lib/terminal.js:384-391 | The selection is unchanged and the scroll row follows the scroll rule of `ensureVisible`: up to the item's first row when that is above the window, down so its last row is the window's bottom row when that is below, then clamped to [0, maxScroll]. The selected item is then shown. |
| WrappedMenu.Menu.OnKeyHandler | lib/terminal.js:439-481 | A hook `true` changes nothing. q/Q and ENTER settle. UP/DOWN/HOME/END move the selection, clamped without wrapping, and bring it into view. PAGE_UP/PAGE_DOWN move the scroll row by h within [0, maxScroll] and keep the selection. |
| WrappedMenu.Menu.Render | lib/terminal.js:405-430 | The rendered rows are exactly the h rows of the window from the current scroll row. |
| ListSearch.Search.constructor | lib/terminal.js:500-503 | The search starts closed with an empty query line and no last query. |
| ListSearch.Search.HighlightQuery | lib/terminal.js:553 | The highlight query is the query line while it is open, and the last query otherwise. |
| ListSearch.Search.OnKey | lib/terminal.js:507-552 | While searching, every key is consumed. ESCAPE closes and keeps `lastQuery`. ENTER copies the line into `lastQuery`. BACKSPACE drops one character. Only ' '..'~' are appended. Otherwise '/' opens an empty line. n/N with a last query select the first wrap-around match from the selection, or answer `true` when none matches. Other keys are not handled. |
| ListSearch.SearchableMenuKey | lib/terminal.js:308-319 | The menu driven by the search hook stays in view. n/N land the selection on the wrap-around match. Keys typed into the query line move nothing. |
| Scan.StepSearch | lib/terminal.js:541-549 | The stepping n/N loop returns the wrap-around scan reference from the entry point: -1 or a matching index in range. |
| Scan.CircularSearchSound | lib/terminal.js:538-550 | The wrap-around scan returns a matching index in range, and returns -1 exactly when no index matches. |
| Scan.CircularSearchStartLast | lib/terminal.js:541-547 | The start index is examined last: the scan returns it exactly when it is the only match. |
| JsonTree.TypeOf | cli/jsontree.js:57-62 | `typeOf` names the six JSON kinds. `JsonTree.TypeOfKinds` proves that two values get the same name exactly when they are of the same kind. |
| JsonTree.PreviewValue | cli/jsontree.js:64-84 | `previewValue`: a quoted string preview cut to the 60-character budget, the number in decimal, 'true'/'false', 'null', `[n]` for an array and `{n}` for an object. It is never empty; `JsonTree.PreviewString` and `JsonTree.PreviewSingleLine` prove its shape and that it holds no line break. |
| JsonTree.KeyLabel | cli/jsontree.js:144-149 | The key label is '(root)' without a key, `[i]` for an array index and the member name otherwise. `JsonTree.IndexLabelsDistinct` proves that different indices get different labels. |
| JsonTree.LabelFor | cli/jsontree.js:142-155 | `labelFor` pairs the key label with the value preview; the type test does not change the preview, as in the source. |
| JsonTree.TypeOfKinds | cli/jsontree.js:57-62 | Two values have the same type name exactly when they are the same kind of JSON value. |
| JsonTree.ShowBreaks | cli/jsontree.js:69 | Every newline is shown as '⏎' and every other character is kept, one for one. |
| JsonTree.PreviewString | cli/jsontree.js:67-70 | A string preview is quoted, has length min(len, 60)+2 and shows line breaks as '⏎'. A string longer than 60 keeps its first 59 characters and ends in '…'. |
| JsonTree.PreviewSingleLine | cli/jsontree.js:64-84 | No preview contains a line break. |
| JsonTree.IndexLabelsDistinct | cli/jsontree.js:144-149 | Different array indices get different key labels. |
| JsonTree.ChildSteps | cli/jsontree.js:104-127 | Array children are keyed by their indices in order, object children by their member names in order, and scalars have none. |
| JsonTree.HasChildren | cli/jsontree.js:88-90 | A node has children exactly when it is a non-empty array or an object with at least one key. |
| JsonTree.Children | cli/jsontree.js:101-128 | Each child has the parent's depth+1, path equal to the parent path plus its key, and the matching element or member value. |
| JsonTree.StepsDistinct | cli/jsontree.js:105 | The children of a parsed value have different keys. |
| JsonTree.Visible | cli/jsontree.js:134-140 | `collectVisible` as a value: the node, then, when it is expanded and has children, each child's visible list in order. `JsonTree.VisibleShape` and `JsonTree.ChildrenShown` prove that this is a pre-order walk with distinct paths. |
| JsonTree.VisibleShape | cli/jsontree.js:134-140 | The walk emits the node first, then only nodes below it at greater depth. In a parsed document no path appears twice. |
| JsonTree.ChildrenShown | cli/jsontree.js:136-139 | Something follows a node exactly when it has children and is expanded. Its first child then comes right after it. |
| JsonTree.CollapsedChildren | cli/jsontree.js:139 | When no child is expanded, the walk below a node is exactly its children in order. |
| JsonTree.InitialVisible | cli/jsontree.js:98 | With only the root expanded, the visible list is the root followed by its children, in order. |
| JsonTree.InitialMarks | cli/jsontree.js:99 | After the first walk, only the root has built children, and only when it has any. |
| JsonTree.StaysVisible | cli/jsontree.js:134-140 | Whether a node is visible depends only on the expansion of its strict ancestors. |
| JsonTree.ParentVisible | cli/jsontree.js:296-300 | The parent of every visible node below the root is itself visible. |
| JsonTree.RowPrefix | cli/jsontree.js:158-164 | The row prefix is 2*depth spaces, the caret, a space, the key label and ': '. |
| JsonTree.RowText | cli/jsontree.js:157-169 | `drawLine`'s text: the row prefix, then the preview cut so that the row fits the width with a closing '…'. `JsonTree.RowFits` proves the three width cases. |
| JsonTree.RowFits | cli/jsontree.js:157-170 | The prefix is always kept. A row that fits is prefix plus preview. An overflowing row with a prefix shorter than the width is exactly width long and ends in '…'. A longer prefix gets a lone '…'. |
| JsonTree.PathEquals | cli/jsontree.js:185-189 | The element-wise comparison answers true exactly when the paths are equal, so the name "0" differs from the index 0. |
| JsonTree.FindIndexByPath | cli/jsontree.js:191-194 | The lookup returns the first index with an equal path, or 0 when none has it. |
| JsonTree.FoundIsUnique | cli/jsontree.js:191-194 | In a list without repeated paths, the lookup finds the one node carrying the path. |
| JsonTree.FlipAgreesAbove | cli/jsontree.js:313 | Flipping a node's expansion leaves its ancestors' expansion alone, so the node stays visible. |
| JsonTree.ToggleTwice | cli/jsontree.js:304-318 | Toggling a node twice restores the visible list, and the cursor lookup finds the node again at the same index. |
| JsonTree.KeySetsDisjoint | cli/jsontree.js:264-347 | The quit, left, toggle and move key groups do not overlap, and each key is dispatched to its own group. |
| JsonTree.Browser.constructor | cli/jsontree.js:210-218 | The browser starts with the root expanded, showing the root and its children, cursor and scroll at 0, height max(5, rows-2) and width cols-1. |
| JsonTree.Browser.CollectVisible | cli/jsontree.js:134-140 | The recursive walk appends the pre-order visible list of the node, building the children of the expanded nodes it meets. |
| JsonTree.Browser.CollectChildren | cli/jsontree.js:139 | The loop over the children appends the visible list of each child in order. |
| JsonTree.Browser.ClampState | cli/jsontree.js:220-228 | `clampState` applies the same cursor and scroll rule as the list menu, leaving cursor and scroll in view. |
| JsonTree.Browser.Rebuild | cli/jsontree.js:254-260 | The visible list is rebuilt from the root, the cursor goes to the first node with the given path (or 0), and the state is clamped. |
| JsonTree.Browser.ToggleKey | cli/jsontree.js:304-318 | On a node with children: its children are built, its expansion flips and the cursor stays on it. On a leaf: nothing changes. |
| JsonTree.Browser.KeepsNode | cli/jsontree.js:191-194 | Looking up the path of a visible node finds that very node. |
| JsonTree.Browser.LeftKey | cli/jsontree.js:287-303 | An expanded node with children collapses and keeps the cursor. Any other node below the root sends the cursor to its parent. At the root nothing happens. |
| JsonTree.Browser.MoveKey | cli/jsontree.js:319-344 | A movement key sends the cursor to its clamped target and scrolls minimally. Nothing else changes. |
| JsonTree.Browser.OnKey | cli/jsontree.js:264-348 | Every key keeps the browser consistent. The quit answer is true exactly for q/Q. LEFT, toggle and movement keys have the effects above, and any other key changes nothing. |
| TextPanel.MessageLines | cli/gptbrowser.js:39-44 | Each message contributes its `[author]` header, its wrapped body and one empty separator line. |
| TextPanel.BuildLines | cli/gptbrowser.js:33-45 | The push loops build the panel lines, and each message offset is the number of lines before that message. |
| TextPanel.OffsetsMarkBlocks | cli/gptbrowser.js:36-45 | Offsets are strictly increasing. Each offset is the index of its message's header, and the next message starts after its separator. |
| TextPanel.MessageBlocksFramed | cli/gptbrowser.js:38-44 | Every message block starts with its header and ends with the empty separator. |
| TextPanel.OffsetsIncrease | cli/gptbrowser.js:38 | The recorded message offsets increase strictly. |
| TextPanel.ClampCursorNearest | cli/gptbrowser.js:51-55 | After `clamp`, 0 <= cursor <= max(0, lines - (rows-2)). The cursor is kept when already in range, and otherwise moves to the nearer bound. |
| TextPanel.EndReachesBottom | cli/gptbrowser.js:200-204 | END's far target clamps to the last scroll position (for at most 10^9 lines and at least 2 terminal rows). |
| TextPanel.FirstAboveNearest | cli/gptbrowser.js:57-62 | The next-message scan finds the first offset strictly after the cursor, and finds none exactly when no offset lies beyond it. |
| TextPanel.LastBelowNearest | cli/gptbrowser.js:67-72 | The previous-message scan finds the last offset strictly before the cursor, and finds none exactly when no offset lies before it. |
| TextPanel.JumpNext | cli/gptbrowser.js:56-65 | `]` goes to the next header, or to the end of the lines (clamped) when there is none. |
| TextPanel.JumpPrev | cli/gptbrowser.js:66-74 | `[` goes to the previous header, or to 0. |
| TextPanel.JumpsFindHeaders | cli/gptbrowser.js:205-212 | After `]` or `[` and the clamp, the cursor is on the nearest header in that direction, or at the clamped end. |
| TextPanel.LiveSearchAsWrittenThrows | cli/gptbrowser.js:136-153 | As written, the scan never throws when the cursor is on a line. It throws when the cursor is past the last line and nothing matches, for example in an empty conversation. |
| TextPanel.ScanAsWrittenPastEnd | cli/gptbrowser.js:146-152 | The second loop, bounded by cursor+1 instead of the line count, reads past the end when it does not stop at an earlier match. |
| TextPanel.LiveSearch | cli/gptbrowser.js:136-153 | The corrected search returns the first line after the cursor whose lower-cased text contains the query, wrapping to the top and checking the cursor line last, or -1. It agrees with the source wherever the source does not throw. |
| TextPanel.ScanAhead | cli/gptbrowser.js:137-144 | The forward loop finds the first matching line after the cursor, or reports that none lies before the end. |
| TextPanel.ScanFromTop | cli/gptbrowser.js:145-153 | The wrap loop completes the wrap-around search from the top. |
| TextPanel.LiveSearchFinds | cli/gptbrowser.js:131-156 | The live search finds nothing exactly when no line matches. |
| TextPanel.Panel.constructor | cli/gptbrowser.js:27-50 | A new panel holds the built lines and offsets, with the cursor at 0, no query and search closed. |
| TextPanel.Panel.Clamp | cli/gptbrowser.js:51-55 | `clamp` sets the cursor to its clamped value and changes nothing else. |
| TextPanel.Panel.Live | cli/gptbrowser.js:131-163 | An empty query leaves the cursor. A match sets the cursor to that line and clamps. No match leaves the cursor where it was. |
| TextPanel.Panel.SearchKey | cli/gptbrowser.js:111-164 | ESCAPE closes, keeping the cursor and `lastQuery`. BACKSPACE drops one character and does not re-search. ENTER copies the line into `lastQuery`. Any other key appends a printable character and re-runs the live search. |
| TextPanel.Panel.Move | cli/gptbrowser.js:171-212 | Line, page, top and bottom keys and message jumps move the cursor, which is then clamped. |
| TextPanel.Panel.Repeat | cli/gptbrowser.js:224-243 | n/N with a last query move to the first wrap-around match from cursor+dir, then clamp. Empty lines never match, and no match or no query leaves the cursor. |
| TextPanel.Panel.BrowseKey | cli/gptbrowser.js:166-244 | q/Q go back and e/E request the export, both leaving the cursor. '/' opens an empty query line. n/N repeat the last query, and the movement keys move. |
| TextPanel.Panel.OnKey | cli/gptbrowser.js:109-245 | A key goes to the query line while it is open and to the browse keys otherwise, keeping the panel consistent. |
| ConversationList.Labels | cli/gptbrowser.js:280-283 | The list labels: a conversation's title when it is a non-empty string, else `Conversation #i+1`. There are no labels (None) when some title is truthy but not a string. `ConversationList.LabelsNameEveryConversation` proves each label, and `ConversationList.UntitledDistinct` that the fallbacks differ. |
| ConversationList.LabelsNameEveryConversation | cli/gptbrowser.js:280-283 | Each conversation is labelled by its string title, or `Conversation #i+1` when the title is missing or empty or the entry is not an object. |
| ConversationList.UntitledDistinct | cli/gptbrowser.js:282 | Different positions get different fallback labels. |
| ConversationList.FindFrom | cli/gptbrowser.js:308-316 | Stepping with (idx+dir+L) % L at most L times returns the first matching label, checking the start last, or -1 when none matches or the list is empty. |
| ConversationList.WrapStep | cli/gptbrowser.js:312 | The modular step is the wrap-around step of the shared scan. |
| ConversationList.Hook.constructor | cli/gptbrowser.js:287-290 | The list screen starts at index 0 with search closed and no query. |
| ConversationList.Hook.OnHighlight | cli/gptbrowser.js:300-304 | The highlighted index becomes the current index, and nothing else changes. |
| ConversationList.Hook.OnKey | cli/gptbrowser.js:306-380 | '/' restarts the search with an empty line, even mid-search. In search mode, ESCAPE closes and ENTER saves the query. Other keys edit the line and re-run `findFrom(current, +1)`, selecting the match. Otherwise e/E request the export of the current conversation, n/N repeat the last query, and other keys are not handled. |
| ConversationList.Hook.Live | cli/gptbrowser.js:340-353 | The live search answers `selectIndex` of the match when the lower-cased line is non-empty and matches, and `true` otherwise. |
| ConversationList.Hook.Repeat | cli/gptbrowser.js:370-378 | n/N answer `selectIndex` of the wrap-around match in their direction, and `true` with no query or no match. |
| ConversationList.ListKey | cli/gptbrowser.js:291-382 | The list menu driven by this hook stays in view and keeps the current index equal to its selection. Search keys never settle the menu, and searches land the selection on the match. |
| Transcript.PartToString | lib/gpt.js:11-22 | `partToString`: null and arrays give '', a string is itself, numbers and booleans their `String` form. For an object, a string `text` wins, then a string `content`, then a `content` or `parts` array flattened to its non-empty parts joined by '\n'. `Transcript.PartTextWins`, `Transcript.PartContentBeforeParts` and `Transcript.NestedPartsFlatten` prove this order. |
| Transcript.PartTextWins | lib/gpt.js:16 | A part whose `text` member is a string yields that string, whatever other members follow. |
| Transcript.PartContentBeforeParts | lib/gpt.js:17-19 | Without a string `text`, a string `content` member is taken before a `parts` array, even when `parts` comes first. |
| Transcript.NonEmptyParts | lib/gpt.js:23-27 | Only the non-empty part strings are kept. |
| Transcript.ExtractText | lib/gpt.js:6-34 | Missing or falsy content gives ''. The result is trimmed. |
| Transcript.ExtractTextOfStringParts | lib/gpt.js:23-33 | Content whose parts are strings yields the non-empty ones joined by '\n' and trimmed. |
| Transcript.ExtractTextOfSinglePart | lib/gpt.js:23-33 | A single non-empty string part yields that string, trimmed. |
| Transcript.PiecesOfStringParts | lib/gpt.js:23-27 | The pieces of string parts are those parts without the empty ones. |
| Transcript.ExtractTextOfTextField | lib/gpt.js:28-29 | Without a `parts` array, a string `text` field is the text, trimmed. |
| Transcript.PartsBeforeTextField | lib/gpt.js:23-29 | A `parts` array takes precedence over a `text` field. |
| Transcript.ExtractTextOfString | lib/gpt.js:30-31 | Content that is itself a string is its own text, trimmed. The empty string is falsy and gives ''. |
| Transcript.NestedPartsFlatten | lib/gpt.js:19 | A part holding its own `parts` array is flattened recursively: its non-empty string parts, one per line. |
| Transcript.ExtractAuthor | lib/gpt.js:36-42 | The author is a non-empty `role` if present, else a non-empty `name`, else 'unknown'. The result is never empty. |
| Transcript.WalkKnown | lib/gpt.js:49-53 | The walk visits only ids present in the mapping and not seen before. |
| Transcript.WalkDistinct | lib/gpt.js:49-53 | No id is visited twice, so a cycle of parent pointers stops the walk. |
| Transcript.WalkChain | lib/gpt.js:49-53 | Each visited node's parent is the next id visited. |
| Transcript.WalkStops | lib/gpt.js:49 | The walk ends only where the loop condition fails: no parent, an unknown parent, or one already seen. |
| Transcript.MainPath | lib/gpt.js:45-55 | `buildMainPathIds` as a value: the parent walk from the end id, reversed. `Transcript.MainPathFacts` proves that it is a duplicate-free chain of known ids from the root side to the end id. |
| Transcript.MainPathFacts | lib/gpt.js:45-55 | The main path is non-empty exactly when the start id is non-empty and known, and then ends with it. Its ids are known and distinct, and each is the parent of the next. |
| Transcript.BuildMainPathIds | lib/gpt.js:45-55 | The while loop with its seen set, followed by the reversal, computes the main path. |
| Transcript.PickAfterChoice | lib/gpt.js:58-76 | Only childless nodes with a message count as leaves. The chosen one has the greatest timestamp, and is the first such. Without timestamps it is the first leaf. With no leaf there is no choice. |
| Transcript.AutoDetectLeafId | lib/gpt.js:58-76 | The scan over the entries returns that choice. |
| Transcript.EntryFor | lib/gpt.js:89-101 | A node contributes at most one message. |
| Transcript.EntryForFacts | lib/gpt.js:89-101 | A contributed message comes from a known node with a message. Its text is non-empty, its author is in the roles when the roles are non-empty, and it is the extracted author and text. |
| Transcript.CollectFacts | lib/gpt.js:88-103 | Collecting along the path gives at most one message per id, each with non-empty text and an allowed author. |
| Transcript.Reduce | lib/gpt.js:79-104 | `reduceMappingToMessages` as a value: [] without a mapping or an end id, else the messages of the main path to the given or detected end id. `Transcript.ReduceFacts` proves that every message has non-empty text and an allowed author, and `Transcript.ReduceKeepsGivenId` that a given id is not replaced by detection. |
| Transcript.ReduceMappingToMessages | lib/gpt.js:79-104 | The reduction returns [] for a missing mapping or end id. Otherwise it collects the messages along the root-to-leaf path to the given or detected leaf. |
| Transcript.CollectMessages | lib/gpt.js:87-103 | The push loop collects exactly the path's messages in order. |
| Transcript.ReduceFacts | lib/gpt.js:88-103 | Every reduced message has non-empty text and, with non-empty roles, an allowed author. |
| Transcript.ReduceKeepsGivenId | lib/gpt.js:84-86 | A given end id is used as is: an unknown one yields no messages rather than falling back to detection. |
| Transcript.ReduceExample | lib/gpt.js:79-104 | On a two-node mapping, the detected leaf's user message is the only one kept. |
| Transcript.PlainTranscript | lib/gpt.js:110-119 | `buildPlainTextTranscript`: for each message, `[author]` ('unknown' when empty), its text and an empty line, joined by '\n'. `Transcript.TranscriptRoundTrip` proves it reads back to the messages when no author or text holds a newline. |
| Transcript.TranscriptLines | lib/gpt.js:110-119 | Each message contributes three lines. |
| Transcript.TranscriptRoundTrip | lib/gpt.js:110-119 | Reading the plain transcript back three lines at a time recovers the messages, when authors are non-empty and nothing contains '\n'. |
| Transcript.ExportConversationPlain | lib/gpt.js:123-129 | The transcript is written under the first free name built from the sanitised title and '.txt', and nothing else in the folder changes. |
| IoHelpers.CollapseSpaces | lib/io.js:51 | Every run of white space becomes one space: no white space other than ' ', no two spaces in a row, and nothing is added. |
| IoHelpers.CollapseSpacesKeepsSingleSpaces | lib/io.js:51 | Text that already has only single spaces is unchanged. |
| IoHelpers.Take | lib/io.js:52 | The slice is the prefix of length min(len, max). |
| IoHelpers.ReplaceForbidden | lib/io.js:54 | Each of `\ / : * ? " < > \|` becomes '_' and every other character is kept, one for one. |
| IoHelpers.ReplaceControl | lib/io.js:55 | Each character U+0000..U+001F becomes '_' and every other character is kept, one for one. |
| IoHelpers.Sanitize | lib/io.js:53-55 | The two replacement passes are one for one. |
| IoHelpers.SanitizeIsSafe | lib/io.js:53-55 | No forbidden or control character survives the replacements. |
| IoHelpers.SanitizeKeepsSafe | lib/io.js:53-55 | A name with no forbidden or control character is unchanged. |
| IoHelpers.DefaultNameIsSafe | lib/io.js:56-57 | The fallback 'conversation' is itself a safe, non-empty, non-dots name. |
| IoHelpers.SafeFilename | lib/io.js:48-58 | The name is never empty and has no forbidden or control character. It is at most max long unless it is 'conversation'. It is the trimmed, collapsed, sliced, replaced title, with an empty or all-dots result giving 'conversation'. |
| IoHelpers.SafeFilenameKeepsCleanTitles | lib/io.js:48-58 | A title that is already a clean file name comes back unchanged. |
| IoHelpers.CandidateInjective | lib/io.js:69-74 | Every attempt `base ext`, `base (1)ext`, `base (2)ext`, ... is a different name. |
| IoHelpers.TakenBound | lib/io.js:71-78 | When the first n attempts are all taken, at least n names exist, so the search ends. |
| IoHelpers.ExportFolder.constructor | lib/io.js:61-63 | The folder starts with the given files. |
| IoHelpers.ExportFolder.WriteFileUnique | lib/io.js:67-81 | The name chosen is the first attempt not yet taken. The contents are written there, and nothing else changes. |
| IoHelpers.ResolvePath | lib/io.js:24-37 | A non-empty argument wins. Otherwise empty stdin reads as '{}', unparsable input fails with 'ERR_INPUT_INVALID', and a missing, empty or non-string key fails with 'missing path'. A success is never empty. |
| IoHelpers.ResolvePathEmptyInput | lib/io.js:27-35 | With no argument and empty stdin, the path is missing. |
| ZipHelpers.MethodLabel | lib/zip.js:11-14 | `methodLabel`: 'store' for 0, 'deflate' for 8, the code in decimal otherwise. `ZipHelpers.MethodLabelInjective` proves that different codes get different labels. |
| ZipHelpers.MethodLabelInjective | lib/zip.js:11-14 | 0 is 'store', 8 is 'deflate', any other code is its decimal string, and different codes never share a label. |
| ZipHelpers.ToHex8 | lib/zip.js:15-19 | A numeric CRC gives exactly eight hex digits whose value is the CRC modulo 2^32. A missing one gives nothing. |
| ZipHelpers.ToHex8Injective | lib/zip.js:15-19 | Two CRCs print the same exactly when they agree modulo 2^32. |
| ZipHelpers.ReadMetadata | lib/zip.js:47-54 | One record per entry, in order: the name, both sizes, the method label, `toHex8` of the CRC (eight hex digits when present), and a directory flag that is true exactly for names ending in '/'. |
| ZipHelpers.ListNames | lib/zip.js:24-38 | The names listing is the entries' names in order. |
| ZipHelpers.FindEntry | lib/zip.js:82-95 | Lookup is by exact name: the first entry with that name, or 'entry not found' when none has it. |
| ZipHelpers.ReadEntryText | lib/zip.js:71-99 | The text is read exactly when an entry has that name, and is the contents of the first entry with that name in archive order. Otherwise the result is 'entry not found'. |
| ZipHelpers.ExtractEntry | lib/zip.js:101-168 | A matched name ending in '/' creates a directory. Any other match writes the entry's text. No match is 'entry not found'. |

## Left out

- Terminal output is not modelled:
  - colours, `status`/`statusKeys`/`statusSearch` lines, and cursor hiding and restoration;
  - the header and `render` of the text panel;
  - the status line of the JSON tree;
  - `drawMetaPanel` and the alternate-screen handling.

  The model keeps the rows and row text that the screens compute.
- Event plumbing is not modelled: `term.on('key')`, the Promises that settle a menu, and the awaiting of an async hook. Each key is one synchronous step.
- The string-kit word-wrapper is a function parameter (`wrap`); only the '' fallback is assumed.
- `JSON.parse` is a parameter of `IoHelpers.ResolvePath`. Elsewhere parsed values are given, and parse errors, stdin reading and `process.exit` paths are left out.
- The main loop of cli/gptbrowser.js is left out: reading conversations.json, the error exits, and reopening the list after a conversation closes. The pieces it calls are modelled separately.
- The e/E export keys of both gptbrowser screens only report the export request (`Action.Export`, `toExport`). The asynchronous export itself is `Transcript.ExportConversationPlain`.
- `emitError`, `readStdin`, `jsonParseSafe` and `ensureDir` (lib/io.js) are I/O or a try/catch wrapper over the parser.
- `IoHelpers.ExportFolder.WriteFileUnique` keeps the folder as a map from names to contents: directories, `path.join` and file-system errors are not modelled. The code writes the file, as modelled, although its comment says it does not.
- The yauzl archive reading is not modelled: streams, `mkdir`, write streams, `extractToTemp`, `cleanupTemp`, and the `last_modified` date conversion. An archive is the sequence of its entries with their decoded text.
- Floating point is not modelled:
  - numbers are integers, so `JsonTree.PreviewValue` prints integers only;
  - `create_time` is an integer;
  - `ZipHelpers.ToHex8` receives an integer or nothing, in place of `Number.isFinite`.
- Strings are ASCII for case folding: `Strings.Lower` maps only 'A'..'Z'. White space (`trim`, `\s`) is the full ECMAScript WhiteSpace and LineTerminator set, as `Strings.IsJsSpace` lists it.
- JSON objects keep their members in the order given, standing in for `Object.keys` order. JavaScript's moving of integer-like keys to the front is not modelled.
- JsonTree.Browser.constructor requires distinct member names (`Parsed`), because node identity is modelled by path. `JSON.parse` keeps one value per key, so parsed documents satisfy this.
- JsonTree.Browser: the `_childrenBuilt` flag and cached `children` arrays are modelled as the set `built` of paths whose children were built. A node's children are a function of the node, so building is idempotent by construction.
- JsonTree.Browser.LeftKey and ToggleKey: the `if (!n) break` guards cannot fire, because the cursor is always on a visible node. `rebuildVisibleAndKeepCursor`'s default path is never used, because every caller passes one.
- Transcript.Mapping: every mapping value is a node object, and its `parent` is a string or absent. A `null` mapping value is not modelled; in the source it makes `autoDetectLeafId` throw a TypeError when reading `node.children`, and it is also where `buildMainPathIds` stops. A non-string `parent` is not modelled either; the source looks it up by its string form but compares it with the seen ids by identity.
- ConversationList.Labels gives no labels when a title is truthy but not a string. The source would show it and then fail when lower-casing labels in its key hook.
- TextPanel.Panel: the text panel's `clamp` uses rows-2 while its drawing height is max(5, rows-2). The model keeps both, as written.
- TextPanel.Panel.Clamp: the source reads `term.height` on every clamp, so it follows a terminal resize. The model fixes the row count when the panel is built; resizing is not modelled.
- JsonTree.PreviewValue, JsonTree.RowText, ListMenu.FitRow, WrappedMenu.Cut, IoHelpers.SafeFilename, IoHelpers.Take: lengths and slices count code points (Dafny characters), not the UTF-16 code units of JavaScript's `length` and `slice`. Text outside the Basic Multilingual Plane is therefore measured differently, and `slice(0, 120)` in `safeFilename` can split a surrogate pair in JavaScript, which the model cannot represent.
- The text panel's BACKSPACE does not re-search; `makeListSearch` does no live search while typing. Both are modelled as written.

## Findings

| source | as written | input that shows it | evidently intended | confidence | as-written member | corrected member |
|---|---|---|---|---|---|---|
| cli/gptbrowser.js:145-153 | When the forward scan finds nothing, the second loop runs `i` from 0 to `cursor` inclusive (`i < cursor + 1`) and reads `lines[i].text` without checking that `i < lines.length`. | An empty conversation (no user or assistant message with text): open it, press '/' and type any character. Then `lines` is empty, the cursor is 0, and `lines[0]` is undefined, so reading `.text` throws a TypeError. | The wrap-around part scans only existing lines, and a search with no match reports "no matches". | not executed | TextPanel.LiveSearchAsWrittenThrows | TextPanel.LiveSearch |
