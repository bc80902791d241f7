# nav: the Miller-column navigation core, in Dafny

`nav` is a terminal directory browser. It shows the directories from the
filesystem root down to the current one as a row of columns. Typing narrows
the last column to the entries whose names start with the typed text. The
arrow keys move the cursor, descend into the selected entry and ascend
again. Tab completes the typed text. When the program exits, the path under
the cursors is written out for a shell to `cd` into.

This project models the navigation state machine of `main.go` and proves
properties of it:

- **A column** (Go's `component`) is the class `Columns.Column`. Its fields
  are the entries, the indices of the matched entries, the cursor among
  them, a display width and a read error. Its methods are `Next`, `Prev`,
  `List`, `Filter` and `CommonPrefix`. `isValid` and `getSelected` are
  functions on a column value (`Columns.ColumnView`).
- **The navigation state** (Go's `state`) is the class
  `Navigation.State`. Its fields are the stack of columns, root first, and
  the filter buffer typed into the last column. Its methods are `GetPath`,
  `SetPath`, `Push`, `Pop`, `InsertChar`, `DeleteChar` and the event
  dispatcher `Input`.
- **The stack is a sequence of values.** Go keeps the columns by value in
  a slice (`[]component`) and reaches the last one through the pointer
  `getCurrent` returns. In the model the stack is a
  `seq<ColumnView>`. An operation on the last column loads that value into
  a fresh `Column`, runs the method there and stores the result back.
- **The directory read is an oracle** (`Columns.Oracle`). It maps a path to
  the child names or to an error message. Names and the buffer are
  `seq<char>`, matching Go's `[]rune`.

Each state operation is specified against a relation on the old and new
stack and buffer. These relations are `RefilteredTop`, `Descended`,
`Pushed`, `Popped`, `Moved` and `Completed`. Lemmas state what the
relations mean: the stack invariant is kept, pop undoes push, erasing
undoes typing, tab completion changes no column, and so on.

The stack invariant is `Navigation.Stacked`:

- there is at least one column;
- every column but the last is filtered by the empty pattern and has its
  cursor on a match;
- the last column is filtered by the buffer.

"Filtered by p" means:

- `matches` is the strictly increasing list of exactly the indices whose
  name starts with p;
- every `isMatched` flag agrees with it;
- the cursor is -1 exactly when nothing matches.

Four behaviours of the code a reader might not expect, which the model
keeps:

- On a failed read, `list` clears only the entries. It leaves `matches`
  and the selection as they were (main.go:84-89).
- The width ignores names longer than 25 runes; it does not clamp them to
  25 (main.go:103-108).
- `next` and `prev` on a column with no matches are not no-ops. `next`
  sets the cursor to 0 and `prev` sets it to -1 (main.go:57-69).
- `commonPrefix` bounds its scan by the longest matched name, not the
  shortest (main.go:143-149). See "Findings".

## Model

| member | source | states |
|---|---|---|
| `Prefix.LongestAtStop` | main.go:150-159 | when the scan stops at a position where some matched name ends or differs from the first, the prefix scanned so far is the longest common prefix |
| `Prefix.LongestOfSingle` | main.go:140-162 | a single matched name is its own longest common prefix |
| `Prefix.LongestUnique` | main.go:140-162 | the longest common prefix is unique, so completion has a single right answer |
| `Matching.MatchesBelowExact` | main.go:122-133 | after the filter loop has seen i entries, `matches` lists exactly the matching indices below i, strictly increasing |
| `Matching.MatchingIndicesExact` | main.go:112-137 | after `filter(p)`, `matches` is the sorted list of exactly the indices whose name starts with p |
| `Matching.EmptyPatternMatchesAll` | main.go:126 | the empty pattern matches every entry, so `matches` becomes 0, 1, ..., n-1 |
| `Matching.ExtendingPatternNarrows` | main.go:126 | a longer pattern keeps a subset of the entries kept by a shorter one, and never more of them |
| `Matching.CompletionKeepsMatches` | main.go:264-270 | when something matches, replacing the pattern by the longest common prefix of the matched names extends the pattern and keeps exactly the same matches |
| `Selection.AnchoredIsLeastAtOrAfter` | main.go:113-121 | after a filter, the selected entry is the least match at or after the previously selected entry index; when every match lies before it, the selection is the last match |
| `Selection.AnchoredUnique` | main.go:128-136 | the anchoring rule determines the selection |
| `Selection.AnchoredAtMatch` | main.go:128-133 | anchoring at an entry that is still matched selects that same entry |
| `Selection.EmptyFilterKeepsSelectedEntry` | main.go:112-137 | filtering with the empty pattern keeps the cursor on the entry it was on |
| `Selection.Successor` | main.go:57-62 | `next` wraps from the last match to 0, otherwise steps by one, and keeps a valid cursor valid |
| `Selection.Predecessor` | main.go:64-69 | `prev` wraps from 0 to the last match, otherwise steps back by one, and keeps a valid cursor valid |
| `Selection.MovesAreInverse` | main.go:57-69 | on a valid cursor, `prev` undoes `next` and `next` undoes `prev` |
| `Columns.DisplayWidth` | main.go:100-109 | the width of a listed column lies between 8 and 25 |
| `Columns.DisplayWidthFits` | main.go:100-109 | the width is at least the length of every name of at most 25 runes, and is either 8 or the length of one of the names |
| `Columns.IsValid` | main.go:71-73 | `isValid` implies that something matches and, on a column whose matches point into its entries, that `getSelected` yields an entry |
| `Columns.FilteredValidity` | main.go:71-73 | on a filtered column `isValid` fails exactly when nothing matches; otherwise `getSelected` yields an entry the pattern keeps |
| `Columns.AnchorIndex` | main.go:113-121 | the entry index the filter anchors to: -1 when nothing matches, otherwise one of the matches: the selected one, or the first when the cursor is negative |
| `Columns.GetSelected` | main.go:75-80 | there is no entry exactly when the selection is negative; otherwise the result is the entry under the cursor; the caller must keep the selection below the length of `matches` |
| `Columns.LoadedViewIsLoaded` | main.go:82-137 | the column that `list` and then `filter(nil)` make of the zero column is exactly the one that shows the listing, keeps every entry and has its cursor on the first entry (or -1 when there is none) |
| `Columns.Column.Next` | main.go:57-62 | the new selection is the wraparound successor of the old one |
| `Columns.Column.Prev` | main.go:64-69 | the new selection is the wraparound predecessor of the old one |
| `Columns.Column.List` | main.go:82-110 | on failure: no entries, the error text, and the width of that text; on success: the listed names, unmatched, with the display width; the selection comes from the old, stale `matches`, which stay as they were |
| `Columns.Column.Filter` | main.go:112-138 | the names, width and error stay the same; `matches` and `isMatched` agree exactly with the pattern; the cursor is -1 exactly when nothing matches, and is anchored at the previously selected entry |
| `Columns.Scan` | main.go:122-133 | the loop marks every entry by the pattern, collects exactly the matching indices, and notes the first match at or after the anchor |
| `Columns.FilterLeaves` | main.go:134-137 | taking the last match when no match lies at or after the anchor completes the anchoring rule |
| `Columns.Column.Load` | main.go:213-215 | `list` then `filter(nil)` on a fresh column gives `LoadedView` of the directory's listing |
| `Columns.Column.CommonPrefix` | main.go:140-162 | empty when nothing matches; otherwise the longest common prefix of the matched names; the whole name when there is one match (corrected scan bound, see Findings) |
| `Columns.Column.CommonPrefixAsWritten` | main.go:140-162 | the code as written: empty when nothing matches; the whole name for a single match; any result it returns is the longest common prefix; it fails (index out of range) whenever the first matched name is a common prefix and some matched name is longer; when the first matched name is a shortest one, it fails exactly then |
| `Columns.RefilterSettledIsIdentity` | main.go:219-224 | refiltering a column above the last with the empty pattern changes nothing |
| `Columns.EmptyRefilterKeepsSelection` | main.go:209-212 | `push`'s refilter of the column it leaves settles it, with the cursor on the same entry |
| `Navigation.PopRestores` | main.go:219-225 | on a stacked state `pop` just removes the last column, and the stack invariant holds with an empty buffer |
| `Navigation.PushDescends` | main.go:209-217 | after `push` the invariant holds with an empty buffer; the new column lists the old directory extended by "/" and the selected name |
| `Navigation.PushDirectory` | main.go:209-214 | after the refilter, every column has its cursor on an entry, as `getPath` needs |
| `Navigation.PushThenPop` | main.go:209-225 | `pop` after `push` restores the height, every column but the last, and the selected entry of the last; with an empty buffer it restores the whole stack |
| `Navigation.MoveKeepsStack` | main.go:248-255 | the arrow keys keep the stack invariant |
| `Navigation.MovesUndo` | main.go:248-255 | up after down (or down after up) restores the stack |
| `Navigation.TypingNarrows` | main.go:227-230 | typing a rune keeps a subset of the matches, and never more of them |
| `Navigation.EraseUndoesType` | main.go:227-235 | erasing the rune just typed restores the entries and matches; when the typed rune kept the selected entry, it restores the whole stack |
| `Navigation.CompletionKeepsColumn` | main.go:264-270 | tab completion with several matches extends the buffer and changes no column |
| `Navigation.FirstIndex` | main.go:188-193 | -1 exactly when the name is absent; otherwise the position of its first occurrence |
| `Navigation.FindName` | main.go:188-193 | the search loop finds the first entry with the given name, or -1 |
| `Navigation.PlaceSegment` | main.go:187-201 | one round of `setPath`'s loop extends the columns and the cursor as `Placed` and `Cursor` do for one more segment |
| `Navigation.Locate` | main.go:188-194 | the cursor `setPath` gives a column: the first entry index whose name is the segment, and no change when no entry has that name; the entries, matches, width and error stay as they were |
| `Navigation.Placed` | main.go:182-203 | `setPath` builds one column per segment |
| `Navigation.PlacedIsStacked` | main.go:182-203 | when every segment is a child of the directory before it, `setPath` leaves a state satisfying the invariant, and its cursors spell the segments after the first |
| `Navigation.LocateSettles` | main.go:187-199 | when the segment is listed, storing its entry index as the selection gives a settled column whose selected name is that segment: after `filter(nil)`, entry indices and match positions coincide |
| `Navigation.CursorSpellsPath` | main.go:183-197 | for an absolute path other than "/", split at '/', the directory listed last is the path spelled by the segments |
| `Navigation.State.constructor` | main.go:26 | the zero `state` that `main` declares: no columns and an empty buffer |
| `Navigation.State.Current` | main.go:205-207 | `getCurrent` gives the last column, which is filtered by the buffer while the invariant holds |
| `Navigation.State.GetPath` | main.go:164-180 | "/" for an empty stack; otherwise "/" and the selected name of each column but the last, then "/" and the buffer when asked; every column but the last must have its cursor on an entry |
| `Navigation.State.SetPath` | main.go:182-203 | the columns are those `Placed` describes; the buffer is untouched |
| `Navigation.State.FilterCurrent` | main.go:205-207 | filtering through `getCurrent` refilters the last column and leaves the others |
| `Navigation.State.Push` | main.go:209-217 | no change unless the last column's cursor is on a match; otherwise the buffer is cleared and a loaded column is appended; the invariant is kept |
| `Navigation.State.Descend` | main.go:213-215 | appends the column loaded from the path through all the cursors |
| `Navigation.State.Pop` | main.go:219-225 | no change with one column; otherwise exactly the last column is removed and the buffer is cleared; the invariant is kept |
| `Navigation.State.InsertChar` | main.go:227-230 | the buffer gains the rune and the last column is refiltered by it; the invariant is kept |
| `Navigation.State.DeleteChar` | main.go:232-235 | the buffer loses its last rune and the last column is refiltered; the buffer must not be empty |
| `Navigation.State.Move` | main.go:248-255 | up and down move the cursor with wraparound only when it is on a match; the invariant is kept |
| `Navigation.State.Complete` | main.go:264-270 | tab pushes with exactly one match; otherwise the buffer becomes the common prefix (empty when nothing matches) and the last column is refiltered |
| `Navigation.State.Input` | main.go:237-280 | false exactly for Esc; each event has the effect of its operation, and Esc and other events change nothing; the invariant is kept |
| `Scenarios.FilterKeepsSelectedEntry` | main.go:112-137 | with a, ab, abc and b listed and abc selected, filtering by "a" keeps a, ab and abc, and abc stays selected |
| `Scenarios.NarrowingToOne` | main.go:112-137 | refining that filter to "abc" leaves abc alone, still selected |
| `Scenarios.SetPathThenGetPath` | main.go:164-203 | after `setPath` on /usr/local/bin, `getPath(false)` is "/usr/local/bin" |
| `Scenarios.CompletionOverrun` | main.go:140-162 | on the matched names a and ab, the code as written fails, and the corrected scan yields "a" |
| `Scenarios.CompletionOfThree` | main.go:140-162 | apple, application and apply complete to "appl", by the corrected scan and by the scan as written |
| `Scenarios.RootListedTwice` | main.go:182-203 | `setPath` on "/" splits it into two empty segments, lists the root twice and leaves the first column's cursor on its first entry, so `getPath(false)` is "/" and that entry |
| `Scenarios.UnreadableAncestor` | main.go:182-203 | `setPath` through a directory that is listed but cannot be read leaves that column, above the last, with cursor -1, so `getPath` meets a column without a selected entry |

## Left out

- `main`, `render`, `check` and termbox are not modelled. They are terminal set-up, painting, and writing the final path to a file.
- `term.PollEvent` is replaced by the `Event` datatype. Resize, mouse and error events, and keys without a binding, are `Other`.
- `ioutil.ReadDir` is the `Oracle` parameter. The order and meaning of the names it returns are not modelled.
- `filepath.Abs`, `strings.Split` and `filepath.Join` in `setPath` are not modelled. `SetPath` takes the segments of an absolute path. `JoinName` models `Join` for clean segments only, without "." or "..".
- The UTF-8 conversions of `string(...)` and `[]rune(...)` are not modelled. Names and the buffer are sequences of runes.
- The error value is not modelled beyond its message text.
- Go panics on a nil or out-of-range index are preconditions of `GetSelected`, `GetPath`, `DeleteChar`, `Column.Filter` (the cursor must lie below the length of a non-empty `matches`, main.go:120), and `Column.CommonPrefix` and `Column.CommonPrefixAsWritten` (`Valid`: every match indexes an entry). Every call site in the model meets them. The exception is `commonPrefix`'s own overrun, which `CommonPrefixAsWritten` returns as `None`.
- Navigation.State.Complete: uses the corrected `CommonPrefix`. The code as written fails on the inputs listed under "Findings".
- Navigation.State.SetPath: its contract only says that the result equals `Placed`. That the result satisfies the invariant, when every segment is found, is stated separately by `PlacedIsStacked`. Two inputs fall outside that case, and the model reproduces what the code does with them. On "/" the root is listed twice and `getPath(false)` names the root's first entry (`Scenarios.RootListedTwice`). With an ancestor that can be entered but not read, a column above the last has no selected entry, and Go's first `getPath(true)` dereferences nil (`Scenarios.UnreadableAncestor`).
- The pointer `getCurrent` returns into the slice is not modelled as aliasing. Each operation loads the last column into a fresh object and stores it back, which is equivalent because nothing else holds the pointer.

## Findings

| source | as written | input that shows it | evidently intended | confidence | as-written member | corrected member |
|---|---|---|---|---|---|---|
| main.go:143-154 | the scan length is the length of the longest matched name, and every matched name is then indexed at each position up to it | matched names "a" and "ab": at position 1, "a"[1] is out of range and tab panics | the scan stops at the shortest matched name; here it yields "a" | not executed | `Columns.Column.CommonPrefixAsWritten`, `Scenarios.CompletionOverrun` | `Columns.Column.CommonPrefix` |
