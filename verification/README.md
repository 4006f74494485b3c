# To-do list state machine

A Dafny model of the state logic of the `TodoList` component of the
todolistmind widget. The user types a task, presses Enter to add it, clicks
rows to mark them completed, picks one of the `all` / `active` / `completed`
filters and clears the completed items.

Without the rendering framework the component is a four-field state
(`todos`, `checked`, `text`, `filter`). Its handlers are pure functions from
the old state to the new one. The model has four modules:

- `JsTrim` (`jstrim.dfy`): `String.prototype.trim` of ECMA-262 (section
  22.1.3.32). It works over the WhiteSpace and LineTerminator code points,
  and its contract and converse lemma characterise the result completely.
- `CheckedList` (`checked.dfy`): the completed-positions array,
  `indexOf`, and the push/splice toggle.
- `FilterView` (`view.dfy`): the `todos.filter((_, index) => ...)` views.
  `Kept` lists the shown positions, and `KeptSpec` describes that list
  independently of how it is computed: strictly increasing, holding exactly
  the positions the filter shows.
- `TodoList` (`todolist.dfy`): the state, every handler, the invariant
  "`checked` is a duplicate-free set of positions of existing items",
  event sequences from the mounted state, and the component test as a lemma.

Three behaviours of the code matter here:

- A toggle of a position that names no item is not ignored. The code
  appends it, and so does `HandleToggle`. Only clicks on rendered rows occur
  (`Enabled`), so such positions never arise.
- Clearing does not remap positions. It keeps the active items in order
  and empties `checked`.
- "Items left equals items minus completed" holds only when `checked` has
  no duplicates and names only existing items. `ActiveTodosCount` states
  the general form: items minus distinct in-range completed positions.
  `ReachableFromInit` proves the simple form for every reachable state.

## Model

| member | source | states |
|---|---|---|
| JsTrim.IsWhitespace | src/components/TodoList/index.tsx:30-31 | the characters `text.trim()` removes, WhiteSpace and LineTerminator of ECMA-262 (section 12.2 and 12.3); each is a single UTF-16 code unit, and among ASCII they are exactly space, TAB, LF, VT, FF and CR |
| JsTrim.SkipLeading | src/components/TodoList/index.tsx:30-31 | the scan for the start of the trimmed text stops at the first character that is not whitespace, and everything it skipped is whitespace |
| JsTrim.SkipTrailing | src/components/TodoList/index.tsx:30-31 | the scan for the end of the trimmed text stops after the last character that is not whitespace, and everything it skipped is whitespace |
| JsTrim.Trim | src/components/TodoList/index.tsx:30-31 | `text.trim()` is a slice of the draft with only whitespace cut off on both sides; it neither starts nor ends with whitespace; it is empty exactly when the draft is blank |
| JsTrim.TrimOfPadded | src/components/TodoList/index.tsx:30-31 | the converse: trimming a tight string padded with whitespace on both sides gives back that string |
| JsTrim.TrimOfTight | src/components/TodoList/index.tsx:30-31 | a string that neither starts nor ends with whitespace is its own trim |
| JsTrim.TrimIdempotent | src/components/TodoList/index.tsx:31 | the stored trimmed item trims to itself |
| JsTrim.TrimPaddedExample | src/components/TodoList/index.tsx:30-31 | "  New Task  " trims to "New Task" |
| JsTrim.TrimBlankExample | src/components/TodoList/index.tsx:30 | a draft of spaces trims to "", so it is not added |
| CheckedList.IndexOf | src/components/TodoList/index.tsx:17 | `checked.indexOf(value)` is -1 exactly when the value is absent, and otherwise is the position of its first occurrence |
| CheckedList.Toggle | src/components/TodoList/index.tsx:17-24 | an absent position is pushed at the end; a present one has its first occurrence spliced out with the rest kept in order; the multiset gains or loses one copy; a duplicate-free array stays duplicate-free and only the membership of the toggled position flips |
| CheckedList.ToggleTwice | src/components/TodoList/index.tsx:16-27 | toggling a position twice restores an array that lacked it exactly, and restores a duplicate-free array as a set and as a multiset |
| FilterView.View | src/components/TodoList/index.tsx:44-49 | `todos.filter((_, index) => ...)`, used by the view, the footer count and the clear button, is never longer than the list; which items it keeps, and in what order, is stated by `ViewIsKept` and `KeptSpec` |
| FilterView.KeptSpec | src/components/TodoList/index.tsx:44-49 | the positions a filter keeps are strictly increasing, and a position is kept exactly when the filter shows its completion state (`active`: not in `checked`; `completed`: in `checked`; `all`: always) |
| FilterView.ViewIsKept | src/components/TodoList/index.tsx:43-50 | the filtered list is the items at exactly the kept positions, in their original order |
| FilterView.ViewAll | src/components/TodoList/index.tsx:48 | the `all` filter shows the whole list |
| FilterView.ViewPartition | src/components/TodoList/index.tsx:45-47 | the active and the completed views together hold each item once (as multisets they add up to the list) |
| FilterView.ViewLengths | src/components/TodoList/index.tsx:45-47 | the lengths of the active and the completed views add up to the list's length |
| FilterView.ViewNothingChecked | src/components/TodoList/index.tsx:45-47 | with no completed position every item is active and none completed |
| FilterView.ViewActiveUntouched | src/components/TodoList/index.tsx:67 | when no completed position names an item, the active view is the whole list |
| FilterView.CompletedCount | src/components/TodoList/index.tsx:45-47 | the completed view has one item per distinct completed position that names an item |
| FilterView.ActiveCount | src/components/TodoList/index.tsx:61-64 | the active view has as many items as the list minus the distinct in-range completed positions |
| TodoList.Init | src/components/TodoList/index.tsx:11-14 | the mounted state has no items, nothing completed, an empty draft and the `all` filter, and already satisfies the invariant |
| TodoList.SetText | src/components/TodoList/index.tsx:117 | the input's change handler replaces the draft and nothing else |
| TodoList.HandleToggle | src/components/TodoList/index.tsx:16-27 | a row click flips the position in `checked` and leaves items, draft and filter alone |
| TodoList.HandleAddTodo | src/components/TodoList/index.tsx:29-34 | a blank draft changes nothing; otherwise the trimmed, non-empty, tight draft is appended after the unchanged items and the draft is cleared; `checked` and the filter stay |
| TodoList.HandleKeyEnter | src/components/TodoList/index.tsx:36-41 | Enter runs the add handler and every other key leaves the state unchanged |
| TodoList.KeyEnterChangesState | src/components/TodoList/index.tsx:36-41 | a key press changes the state exactly when it is Enter over a non-blank draft |
| TodoList.HandleFilterChange | src/components/TodoList/index.tsx:52-59 | a null selection keeps the filter and any other selection becomes the filter; nothing else changes |
| TodoList.FilteredTodos | src/components/TodoList/index.tsx:43-50 | the list on screen is the items at the positions the filter keeps, in order, and the whole list under `all` |
| TodoList.ActiveTodosCount | src/components/TodoList/index.tsx:61-64 | "items left" is the number of items minus the distinct in-range completed positions |
| TodoList.HandleClearCompleted | src/components/TodoList/index.tsx:66-70 | clearing keeps exactly the active items in order, drops the completed ones (as a multiset, kept plus completed is the old list) and empties `checked` |
| TodoList.ToggleTwiceRestores | src/components/TodoList/index.tsx:16-27 | clicking the same row twice restores the completed set, and the whole state when the row was not completed |
| TodoList.ClearCompletedIdempotent | src/components/TodoList/index.tsx:66-70 | clearing twice is clearing once |
| TodoList.ClearCompletedNothingChecked | src/components/TodoList/index.tsx:66-70 | clearing when no item is completed leaves the items unchanged |
| TodoList.ActiveCountAfterClear | src/components/TodoList/index.tsx:61-70 | after clearing, "items left" is the number of items |
| TodoList.ActiveCountUnderInv | src/components/TodoList/index.tsx:61-64 | when `checked` is a duplicate-free set of existing positions, "items left" is the number of items minus the number completed |
| TodoList.AddedTodoIsActive | src/components/TodoList/index.tsx:29-34 | in a reachable state a newly added item appears at the end of the active view |
| TodoList.AddPreservesInv | src/components/TodoList/index.tsx:29-34 | adding keeps `checked` a duplicate-free set of existing positions |
| TodoList.TogglePreservesInv | src/components/TodoList/index.tsx:73-79 | toggling the position of an existing item, as a row click does, keeps the invariant |
| TodoList.ClearPreservesInv | src/components/TodoList/index.tsx:66-70 | clearing establishes the invariant |
| TodoList.Step | src/components/TodoList/index.tsx:117-146 | each wired event reaches its handler: only Enter and clear change the items (adding at most one), only a click and clear change `checked` (clear empties it), only typing and Enter the draft, only a filter pick the filter (a null pick keeps it) |
| TodoList.StepPreservesInv | src/components/TodoList/index.tsx:117-146 | every event the widget wires to a handler keeps the invariant |
| TodoList.ReachableInv | src/components/TodoList/index.tsx:16-70 | every state reached by feasible events from an invariant state keeps the invariant, and in each of them "items left" is items minus completed |
| TodoList.ReachableFromInit | src/components/TodoList/index.tsx:11-14 | from the mounted state (no items, nothing completed, empty draft, `all`) every reachable state has the invariant and shows items minus completed as "items left" |
| TodoList.EnterOnTightDraft | src/components/TodoList/index.tsx:29-41 | typing a tight non-empty text and pressing Enter appends exactly that text and clears the draft |
| TodoList.AddsNewTodoWhenEnterPressed | src/components/TodoList/TodoList.test.jsx:6-15 | after typing "New Task" and pressing Enter the item is on screen and the input is empty |
| TodoList.ShoppingSession | src/components/TodoList/index.tsx:16-64 | after adding "Buy milk" and "Walk dog" and completing the first, the active view is ["Walk dog"], one item is left, and the completed view is ["Buy milk"] |

## Left out

- Rendering: the component's markup, styling, the stylesheet import and the
  memoisation wrappers (`memo`, `useCallback`, `useMemo`). They compute
  nothing beyond the handlers above.
- Event objects: `e.stopPropagation()` and reading `e.target.value` are
  calls into the DOM. Typing is modelled as `SetText` with the typed string,
  and a key press as the key's name.
- The "no … todos" placeholder at index.tsx:128. It is presentation, and
  what it shows depends on how the renderer prints `false`.
- Row lookup by description (`todos.indexOf(item)` at index.tsx:73). The
  model takes the clicked position directly (`RowClicked`). As written, when
  two items have the same description, a click on either toggles the first
  one. This remark is not modelled or proved.
- Number width: positions are unbounded `nat`s. JavaScript numbers are
  exact far beyond any list the widget can hold.
- Text encoding: strings are sequences of Unicode scalar values, not UTF-16
  code units. Every whitespace code point that `trim` removes is a single
  code unit, so trimming agrees.
- Build and test-runner configuration (vite.config.ts) has no logic.
- CheckedList.ToggleTwice: restoration is stated only for an array that lacks
  the position or has no duplicates. With a duplicated position the second
  toggle splices out another copy. Such an array is unreachable
  (`ReachableFromInit`).
- TodoList.HandleToggle: positions are `nat`s, so a negative number cannot be
  passed. The component only passes `todos.indexOf(item)` for a rendered
  item, and that is never -1.
