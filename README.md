# solid-todos list logic in Dafny

This project models the list logic of the solid-todos single-page application (`src/App.tsx`).
The application is a todo list. Each item has a numeric id, a title and a completed flag. The
application keeps the items in insertion order in a store, hands out ids from a counter, and
shows the list in one of three display modes chosen by the location hash: all, active or
completed. Its event handlers do the following:

- append an item when Enter is pressed over non-blank text;
- flip one item's flag;
- delete one item;
- set every flag at once;
- delete the completed items;
- select the mode from the hash.

Two views are derived from the list: the remaining count and the filtered list.

The project has four modules:

- `Strings` (`strings.dfy`): JavaScript's `String.prototype.trim` over the full ECMAScript
  white-space and line-terminator set. It scans for the first and the last character that is
  not white space and returns the slice between them. It is proved to remove white space at
  the two ends and nothing else, to return the empty text exactly for blank input, and to be
  idempotent.
- `Sequences` (`sequences.dfy`): `Array.prototype.filter` as a function on sequences.
  "Order-preserving subsequence" is defined as the existence of a strictly increasing index
  embedding. The lemmas about filtering are proved once, generically: it is a subsequence,
  it is idempotent, it keeps everything or nothing, and a filter and its complement split
  the length.
- `TodoList` (`todo_list.dfy`): the `Todo` and `Mode` types and each update the handlers
  apply to the list, as pure functions: `Toggled`, `RemoveById`, `SetAllCompleted`,
  `ClearCompleted`. It also holds the derived views `RemainingCount` and `FilterTodos`, the
  hash-to-mode mapping `HashToMode`, and the lemmas about all of them. The list invariant
  `WellFormed` says three things: ids strictly increase along the list, every id is below
  the counter (so ids are never reused), and every title is non-empty and trimmed. Every
  update is proved to preserve it.
- `TodoStore` (`todo_store.dfy`): the class `Store` with fields `todos`, `counter` and
  `showMode`. It has one method per handler. Each method keeps `Valid()` and states the new
  state in terms of the old one. `ToggleTodo` works as the store's path setter does: it
  visits the items in order and updates each match in place, and a loop invariant proves the
  result equals `Toggled`. Four client methods (`SessionAdd`, `SessionBlank`,
  `SessionToggle`, `SessionFilterAndClear`) show what a caller can conclude from the
  contracts of the handlers, views and lemmas alone, without unfolding the definitions of
  the updates and views.

In these places the code is looser than the `Mode` type (src/App.tsx:17) and the toggle-all
checkbox binding `checked={!remainingCount()}` (src/App.tsx:108) suggest, and the model follows
the code:

- The mode is not limited to all/active/completed. `locationHandler` casts
  `location.hash.slice(2)` to a mode without checking it, so any non-empty text can become
  the mode. Such a mode is kept as `Unrecognised(text)`, and `filterTodos` treats it like
  "all".
- `slice(2)` drops the first two characters whatever they are, not only a literal `#/`.
- toggle-all sets every flag to the state of the toggle-all checkbox (`event.target.checked`).
  That state is a parameter of `ToggleAll`; the model does not compute it from whether all
  items are complete.
- `toggleTodo` flips every item whose id matches, not just the first one. Under the
  invariant, exactly one item matches (`ToggleFlipsOne`).

## Model

| member | source | states |
|---|---|---|
| `Strings.IsWhiteSpace` | src/App.tsx:33 | the white space `trim` removes includes TAB to CR and the space, and no other ASCII character |
| `Strings.SkipLeading` | src/App.tsx:33 | the returned position is the first one at or after the start that is not white space (or the end), with only white space skipped |
| `Strings.SkipTrailing` | src/App.tsx:33 | the returned position ends the last non-white-space character at or before the end and not before the start, with only white space skipped |
| `Strings.Trim` | src/App.tsx:33 | the trimmed title is no longer than the input and has no white space at either end |
| `Strings.TrimIsInfix` | src/App.tsx:33 | trimming returns a contiguous slice of the input, starting at the returned offset, with only white space before and after it |
| `Strings.TrimEmptyIffBlank` | src/App.tsx:33-35 | the trimmed title is empty (falsy) exactly when the input consists of white space only |
| `Strings.TrimFixesTrimmed` | src/App.tsx:33 | trimming leaves a text unchanged if and only if it has no white space at either end |
| `Strings.TrimIdempotent` | src/App.tsx:33 | trimming twice gives the same as trimming once |
| `Sequences.Filter` | src/App.tsx:53 | every kept element is in the input and passes the test, every element that passes the test is kept, and the result is no longer than the input |
| `Sequences.FilterIsSubsequence` | src/App.tsx:53 | filtering only deletes elements: the result embeds into the input at strictly increasing positions |
| `TodoList.IdsIncreasingUnique` | src/App.tsx:38 | ids that increase along the list are pairwise distinct |
| `TodoList.SubsequenceWellFormed` | src/App.tsx:77 | any order-preserving subsequence of a well-formed list is well formed under the same counter |
| `TodoList.SameExceptCompletedWellFormed` | src/App.tsx:45-49 | changing only completed flags keeps a list well formed |
| `TodoList.RemainingCount` | src/App.tsx:23-25 | length minus the number of completed items equals the number of active items, and lies in 0..length |
| `TodoList.RemainingCountExtremes` | src/App.tsx:108 | the remaining count is 0 (the toggle-all checkbox is ticked) exactly when every item is completed, and equals the length exactly when none is |
| `TodoList.AppendWellFormed` | src/App.tsx:36-39 | appending an item with id = counter and a trimmed non-empty title, then incrementing the counter, keeps the list well formed |
| `TodoList.RemainingAfterAppend` | src/App.tsx:36-39 | appending an active item raises the remaining count by one |
| `TodoList.Toggled` | src/App.tsx:44-50 | length, order, ids and titles are kept, and an item's flag changes exactly when its id matches |
| `TodoList.ToggleTwice` | src/App.tsx:44-50 | toggling the same id twice restores the original list |
| `TodoList.ToggleAbsent` | src/App.tsx:44-50 | toggling an id not in the list leaves it unchanged |
| `TodoList.ToggleFlipsOne` | src/App.tsx:44-50 | with increasing ids, toggling a present id flips the flag of exactly one item and changes nothing else |
| `TodoList.RemoveById` | src/App.tsx:52-54 | no remaining item has the id, every remaining item comes from the list, and every item with another id is kept |
| `TodoList.RemoveIsSubsequence` | src/App.tsx:53 | removal returns an order-preserving subsequence |
| `TodoList.RemoveAbsent` | src/App.tsx:53 | removing an absent id leaves the list identical |
| `TodoList.RemoveLength` | src/App.tsx:52-54 | with increasing ids, removal shortens the list by one when the id is present and by nothing otherwise |
| `TodoList.SetAllCompleted` | src/App.tsx:62-63 | length, order, ids and titles are kept and every flag equals the given value |
| `TodoList.RemainingAfterSetAll` | src/App.tsx:56-64 | after toggle-all, the remaining count is 0 when the value is true and the list length when it is false |
| `TodoList.SetAllTwice` | src/App.tsx:63 | a second toggle-all overrides the first |
| `TodoList.ClearCompleted` | src/App.tsx:76-78 | no remaining item is completed, every remaining item comes from the list, and every active item is kept |
| `TodoList.ClearCompletedProperties` | src/App.tsx:76-78 | clearing returns an order-preserving subsequence as long as the prior remaining count, keeps the remaining count, and is idempotent |
| `TodoList.FilterTodos` | src/App.tsx:66-74 | the view is never longer than the list |
| `TodoList.FilterTodosSpec` | src/App.tsx:66-74 | every view is an order-preserving subsequence; "active" holds exactly the active items, "completed" exactly the completed ones; "all" and unrecognised modes return the list itself |
| `TodoList.ViewCounts` | src/App.tsx:66-74 | the "active" and "completed" views add up to the list length, and "active" is as long as the remaining count |
| `TodoList.ModeName` | src/App.tsx:17 | a well-formed mode's text is non-empty, and is "all", "active" or "completed" exactly when the mode is one of the three named modes |
| `TodoList.ModeOf` | src/App.tsx:81 | the mode of a non-empty text is well formed and its text is that text |
| `TodoList.ModeOfName` | src/App.tsx:17 | a well-formed mode is recovered from its text |
| `TodoList.HashToMode` | src/App.tsx:80-83 | the selected mode's text is the hash after its first two characters, or "all" when that is empty |
| `TodoList.FilterLinksSelectModes` | src/App.tsx:141-157 | the hashes "#/", "#/active" and "#/completed" of the three filter links select all, active and completed |
| `TodoList.OtherHashShowsAll` | src/App.tsx:67-73 | any hash other than those of the active and completed links shows the whole list |
| `TodoStore.Store.constructor` | src/App.tsx:18-22 | the store starts with an empty list, counter 0 and mode "all", and is valid |
| `TodoStore.Store.Remaining` | src/App.tsx:23-25 | the remaining count is the number of active items and lies in 0..length |
| `TodoStore.Store.Visible` | src/App.tsx:113 | the displayed items are an order-preserving subsequence of the list; in "active" they are what clearCompleted would keep, as many as remain; in "completed" exactly the completed items, as many as the length minus the remaining count; in any other mode the whole list |
| `TodoStore.Store.AddTodo` | src/App.tsx:27-42 | an item is added exactly on Enter with non-blank trimmed text. It goes at the end with id = old counter, the trimmed title and completed = false; the counter goes up by one and the remaining count by one. Otherwise the list and counter are unchanged. The invariant is kept |
| `TodoStore.Store.ToggleTodo` | src/App.tsx:44-50 | the loop that updates matches in place yields exactly `Toggled` of the old list; counter and mode are unchanged and the invariant is kept |
| `TodoStore.Store.Remove` | src/App.tsx:52-54 | the list becomes `RemoveById` of the old list; counter and mode are unchanged and the invariant is kept |
| `TodoStore.Store.ToggleAll` | src/App.tsx:56-64 | the list becomes `SetAllCompleted` of the old list with the checkbox state, and the remaining count becomes 0 or the length |
| `TodoStore.Store.ClearCompleted` | src/App.tsx:76-78 | the list becomes `ClearCompleted` of the old list, and its length is the old remaining count |
| `TodoStore.Store.LocationHandler` | src/App.tsx:80-83 | the mode becomes `HashToMode` of the hash; list and counter are unchanged |

## Left out

- JSX rendering: `Show`/`For`, `classList`, and the "item"/"items" text (src/App.tsx:91-170). These are presentation. The filter links' hashes appear only in `FilterLinksSelectModes`, and the meaning of the toggle-all checkbox's `checked` binding only in `RemainingCountExtremes`.
- The `console.log` calls and the clearing of the input box after an add. These are console and DOM side effects.
- Registering the `hashchange` listener and removing it in `onCleanup`. This is browser event plumbing. `LocationHandler` is the handler itself.
- Reading `location.hash`: the hash is a parameter of `LocationHandler`. The key code and input value of the keyboard event are parameters of `AddTodo`. The input value is an `Option` to follow `value?.trim()`.
- Solid's reactivity (signals, memo, store proxies and change tracking). The remaining count and the visible list are plain functions of the current state (`Store.Remaining`, `Store.Visible`).
- The id counter is a module-level variable. In the source it is shared by every mounted instance of the component and is not reset on remount. The model keeps it as a field of a single `Store` that starts at 0.
- Ids are JavaScript numbers: above 2^53 the counter would stop producing distinct values. The model uses unbounded naturals.
- Strings are sequences of Unicode scalar values, not of UTF-16 code units. `trim` and `slice(2)` differ from the model only on text with characters outside the Basic Multilingual Plane. The white-space set is ECMAScript's WhiteSpace and LineTerminator as of the Unicode space-separator category; later Unicode versions could add to it.
