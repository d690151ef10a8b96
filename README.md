# Team task list: the dashboard state

This project models the client-side state machine of the team task-list dashboard
(`src/pages/Dashboard.jsx`) and proves what it does to its list of tasks.

The page keeps these pieces of state:

- `tasks`: a list of records with an id, an author, a text, a completion flag and two timestamps
- `newTask`: the text of the creation form
- `searchTerm`: the search box
- `editingTask`: the id in edit mode, or none
- `editText`: the scratch text of the edit box
- `loading`: whether the list is still loading

Its handlers change this state: create, toggle, delete, start edit, cancel edit and save edit.
Each handler that talks to the server updates `tasks` only after the remote call succeeds.
The page also computes pure projections: the case-insensitive search filter, the statistics
counters, and the guard that decides whether a task shows its action buttons.

Files and modules:

- `wrappers.dfy` (`Wrappers`): `Option`, the model of `null` and `undefined`.
- `text.dfy` (`Text`): JavaScript `trim`, `toLowerCase` restricted to ASCII, and `includes`.
- `tasks.dfy` (`Tasks`): the `Task` record and the list values the handlers and the view build.
  These are `filter` (`Select`), the `map` that replaces one id (`ReplaceById`), `find`,
  the records built by toggle and edit, the search filter, the counters and the display predicates.
  The lemmas about them are here too.
- `dashboard.dfy` (`Page`): the class `Dashboard`. It has one field per hook, and one method per
  handler or `onChange` setter.

Inputs from outside the page are method parameters:

- The outcome of each `taskAPI` call is `ok: bool`.
- `window.confirm` is `confirmed: bool`.
- `Date.now()` and the ISO stamps are `now` and `stamp`, and are opaque.
- `user.username` is the constructor argument `username`.

Each handler returns `called`: whether the remote call was issued at all. Blank input,
a cancelled confirmation and a toggle of a missing id never reach the network.

Behaviour of the code worth pointing out:

- Toggle does not flip "the" task with the id. It sends the toggled copy of the FIRST entry with
  that id, and on success `map` puts that copy at EVERY position with the id. `Tasks.ReplaceById`
  and `Tasks.AfterToggle` state exactly this. The per-entry "own flag negated" reading is proved
  only under `UniqueIds`, because ids come from `Date.now()` and nothing makes them unique.
- Toggling an id that no entry has throws (`task.completed` of `undefined`) before the remote
  call, so nothing changes.
- Saving with an id that no entry has still sends a request, with a partial record, because
  spreading `undefined` is allowed. On success the `map` replaces nothing and edit mode ends.
- A new task's two stamps come from two separate `new Date()` calls and are separate
  inputs here. `createdAt == updatedAt` is not promised on creation.

## Model

| member | source | states |
|---|---|---|
| Text.TrimStart | src/pages/Dashboard.jsx:36 | returns the suffix left after dropping the leading whitespace; everything dropped is whitespace and the result does not start with whitespace |
| Text.IsWhitespace | src/pages/Dashboard.jsx:36 | the characters `trim` removes: ECMAScript WhiteSpace (tab, vertical tab, form feed, space, no-break space, byte order mark, Space_Separator) and LineTerminator (line feed, carriage return, U+2028, U+2029); a definition with no contract |
| Text.TrimEnd | src/pages/Dashboard.jsx:36 | returns the prefix left after dropping the trailing whitespace; everything dropped is whitespace and the result does not end with whitespace |
| Text.Trim | src/pages/Dashboard.jsx:41 | `trim()` is no longer than its input and leaves no whitespace at either end |
| Text.TrimIsSlice | src/pages/Dashboard.jsx:41 | the trimmed text is the contiguous slice of the input that starts after the leading whitespace, and every character before and after that slice is whitespace |
| Text.TrimEmptyIffAllWhitespace | src/pages/Dashboard.jsx:36 | `!s.trim()` holds exactly when every character of `s` is whitespace (both directions) |
| Text.IsBlank | src/pages/Dashboard.jsx:107 | the test `!s.trim()` holds exactly when every character of `s` is whitespace |
| Text.TrimOfTrimmed | src/pages/Dashboard.jsx:115 | text with no whitespace at either end is left as it is by `trim` |
| Text.TrimIdempotent | src/pages/Dashboard.jsx:115 | trimming already-trimmed stored text changes nothing |
| Text.LowerChar | src/pages/Dashboard.jsx:135 | an upper-case ASCII letter goes to the lower-case letter at the same place in the alphabet, and every other character is left unchanged; the result is never an upper-case ASCII letter |
| Text.Lower | src/pages/Dashboard.jsx:135-136 | `toLowerCase` keeps the length, maps each character by `LowerChar`, and leaves no upper-case ASCII letter |
| Text.LowerIdempotent | src/pages/Dashboard.jsx:135-136 | lower-casing twice equals lower-casing once |
| Text.Contains | src/pages/Dashboard.jsx:135-136 | `includes` holds for every string when the term is empty, and only for terms no longer than the string |
| Text.ContainsIffOccurs | src/pages/Dashboard.jsx:135-136 | `includes` holds exactly when the term occurs at some position of the string (both directions) |
| Tasks.SubsequenceLength | src/pages/Dashboard.jsx:85 | a subsequence of a list is never longer than the list |
| Tasks.Select | src/pages/Dashboard.jsx:134-137 | `filter` returns a subsequence of its input, in order, whose entries all satisfy the predicate, and it keeps every entry that satisfies it |
| Tasks.SelectMultiplicity | src/pages/Dashboard.jsx:134-137 | `filter` keeps every occurrence of a satisfying entry and no occurrence of any other one: the multiset of the result is the input's multiset restricted to the predicate |
| Tasks.SelectAll | src/pages/Dashboard.jsx:134-137 | filtering with a predicate true of every entry returns the list unchanged |
| Tasks.SelectEmptyIffNone | src/pages/Dashboard.jsx:213 | the filter is empty exactly when no entry satisfies the predicate (both directions) |
| Tasks.SelectIdempotent | src/pages/Dashboard.jsx:85 | filtering twice with one predicate equals filtering once |
| Tasks.SelectComplement | src/pages/Dashboard.jsx:338-344 | the entries kept by a predicate and by its negation add up to the length of the list |
| Tasks.SelectMonotone | src/pages/Dashboard.jsx:295 | a weaker predicate keeps at least as many entries |
| Tasks.Find | src/pages/Dashboard.jsx:60 | `find` returns none exactly when no entry has the id; otherwise it returns an entry with the id that appears before every other entry with that id |
| Tasks.FindUnique | src/pages/Dashboard.jsx:112 | with unique ids, `find` returns the one entry that has the id |
| Tasks.ReplaceById | src/pages/Dashboard.jsx:69-71 | the `map` keeps the length, puts the new record at every position whose id matches, and leaves every other position unchanged |
| Tasks.ReplaceAbsent | src/pages/Dashboard.jsx:121-123 | replacing an id no entry has leaves the list unchanged |
| Tasks.ReplaceKeepsUnique | src/pages/Dashboard.jsx:121-123 | replacing by a record with the same id keeps the ids unique |
| Tasks.PrependKeepsUnique | src/pages/Dashboard.jsx:39-49 | prepending a new task keeps the ids unique exactly when its `Date.now()` id is not already in the list |
| Tasks.RemoveById | src/pages/Dashboard.jsx:85 | the delete `filter` leaves no entry with the id. It keeps every other entry in its old order, with all its occurrences, and removes exactly as many entries as had the id |
| Tasks.OtherId | src/pages/Dashboard.jsx:85 | the callback `task => task.id !== id` of the delete filter; a definition with no contract |
| Tasks.RemoveIdempotent | src/pages/Dashboard.jsx:85 | deleting the same id twice gives the same list as deleting it once |
| Tasks.RemoveAbsent | src/pages/Dashboard.jsx:85 | deleting an id no entry has leaves the list unchanged |
| Tasks.SelectKeepsUnique | src/pages/Dashboard.jsx:85 | filtering, and so deleting, keeps unique ids unique |
| Tasks.NewTask | src/pages/Dashboard.jsx:38-45 | the record `handleAddTask` builds: written by the user, not completed, its text the trimmed input, which is empty exactly when the input is blank and otherwise has no whitespace at either end |
| Tasks.Toggled | src/pages/Dashboard.jsx:61-65 | the toggled record has the flag negated and the new stamp, and every other field unchanged |
| Tasks.Edited | src/pages/Dashboard.jsx:113-117 | the edited record has the trimmed text and the new stamp, and every other field unchanged |
| Tasks.Matches | src/pages/Dashboard.jsx:135-136 | the search test on one task is true for an empty term, and only for terms no longer than the author or the text |
| Tasks.MatchesTerm | src/pages/Dashboard.jsx:134-137 | the callback given to the search filter; a definition with no contract |
| Tasks.ToggleTwice | src/pages/Dashboard.jsx:61-65 | toggling a record twice restores its flag, and only the stamp differs from the original |
| Tasks.AfterToggle | src/pages/Dashboard.jsx:60-71 | the list a toggle installs keeps the length and order and leaves entries with other ids alone. Every entry with the id gets the negated flag of the first such entry and the new stamp |
| Tasks.ToggleList | src/pages/Dashboard.jsx:59-71 | with unique ids, the entry with the id is replaced by its own toggled copy, so its own flag is negated |
| Tasks.ToggleListTwice | src/pages/Dashboard.jsx:59-71 | with unique ids, two toggles in a row give back the original list, except that the toggled entry's stamp is the second one |
| Tasks.ReplaceUniqueCount | src/pages/Dashboard.jsx:338-350 | with unique ids, replacing one entry changes a filter's count only by what the predicate says of the old record and of the new one |
| Tasks.ToggleCounts | src/pages/Dashboard.jsx:333-350 | with unique ids, a toggle moves exactly one task between the completed and pending counters; the total and "mine" stay the same |
| Tasks.FilteredTasks | src/pages/Dashboard.jsx:134-137 | the search result is a subsequence of the list, in order and no longer than it. It holds exactly the entries whose lower-cased author or text includes the lower-cased term, each with all its occurrences |
| Tasks.FilterEmptyTerm | src/pages/Dashboard.jsx:134-137 | an empty search term returns the whole list unchanged |
| Tasks.FilterCaseInsensitive | src/pages/Dashboard.jsx:134-137 | two search terms that lower-case to the same string find the same tasks |
| Tasks.FilterLowerTerm | src/pages/Dashboard.jsx:134-137 | searching for the lower-cased term finds what the term itself finds |
| Tasks.CompletedCount | src/pages/Dashboard.jsx:338 | the completed counter is at most the total, and zero exactly when no task is completed |
| Tasks.PendingCount | src/pages/Dashboard.jsx:344 | the pending counter is at most the total, and zero exactly when every task is completed |
| Tasks.MineCount | src/pages/Dashboard.jsx:350 | the "mine" counter is at most the total, and zero exactly when the user wrote no task |
| Tasks.CountsAddUp | src/pages/Dashboard.jsx:333-350 | completed plus pending equals the total, and no counter exceeds the total |
| Tasks.InEditMode | src/pages/Dashboard.jsx:234 | the test `editingTask === task.id` for the row in edit mode; a definition with no contract |
| Tasks.ShowsActions | src/pages/Dashboard.jsx:295 | the button guard: the user wrote the task and it is not in edit mode; a definition with no contract |
| Tasks.ActionsOnlyOnOwnTasks | src/pages/Dashboard.jsx:295 | the action buttons appear only on tasks the user wrote that are not in edit mode, and on no more rows than the "mine" counter |
| Tasks.AtMostOneInEditMode | src/pages/Dashboard.jsx:234 | with unique ids, at most one row of the list is in edit mode |
| Page.Dashboard.constructor | src/pages/Dashboard.jsx:8-14 | the initial hook values: an empty list, empty texts, no edited id, loading |
| Page.Dashboard.FetchTasks | src/pages/Dashboard.jsx:21-31 | on success the list becomes the server's; loading ends on success and on failure; nothing else changes |
| Page.Dashboard.SetNewTask | src/pages/Dashboard.jsx:179 | the creation input holds the typed text |
| Page.Dashboard.SetSearchTerm | src/pages/Dashboard.jsx:198 | the search term holds the typed text |
| Page.Dashboard.SetEditText | src/pages/Dashboard.jsx:239 | in edit mode the scratch text holds the typed text |
| Page.Dashboard.HandleAddTask | src/pages/Dashboard.jsx:34-56 | blank input makes no remote call and changes nothing. On success the list is one longer: its head has the `Date.now()` id, the user as author, the trimmed non-empty text, `completed` false and the two stamps, its tail is the old list, and the input is cleared. On failure the list and the input are unchanged |
| Page.Dashboard.ToggleTask | src/pages/Dashboard.jsx:59-77 | a missing id makes no call and changes nothing. On success every entry with the id is replaced by the toggled copy of the found record, and the length and all other entries are kept. On failure the list is unchanged |
| Page.Dashboard.DeleteTask | src/pages/Dashboard.jsx:80-91 | the call is made only if confirmed. On success the list is the old one without the entries that had the id, and no entry has it. Otherwise the list is unchanged |
| Page.Dashboard.StartEdit | src/pages/Dashboard.jsx:94-97 | the task's id becomes the edited id and its text the scratch text; the list is untouched |
| Page.Dashboard.CancelEdit | src/pages/Dashboard.jsx:100-103 | leaves edit mode and clears the scratch text, with no call; the list is untouched |
| Page.Dashboard.SaveEdit | src/pages/Dashboard.jsx:106-131 | blank scratch text makes no call and keeps edit mode. On success each entry with the id gets the trimmed text and the new stamp, the length and all other entries are kept, and edit mode ends with cleared text. On failure the list, the edited id and the scratch text are unchanged |

## Left out

- `backend/server.js`: it only sets up the third-party `json-server` router, the CORS headers and the listener. The router and its `db.json` persistence are not part of this model, so neither are the backend's update-404 and user-lookup behaviour.
- JSX rendering, class names and layout: only the edit-mode test (line 234), the action-button guard (line 295) and the counters are modelled.
- The "(editada)" marker (line 284) and `toLocaleDateString` (lines 278-282): display only.
- `toast` notifications, `console.error` and `e.preventDefault()`: output and event side effects only.
- `taskAPI` and the `async`/`await` round trips: each call is one boolean outcome. They run one at a time. The model does not cover overlapping requests, or a handler whose `find` reads the list from an older render than the `prev` its setter receives.
- `Date.now()` and the ISO stamps are opaque inputs. The "strictly increasing `updatedAt`" of repeated toggles depends on the clock and is not modelled.
- `toLowerCase` is modelled for ASCII letters only; other characters are left unchanged, with no Unicode case folding.
- JavaScript strings are UTF-16 code units, but the model's strings are Unicode scalar values.
- `useAuth`, `logout`, login lookup and routing: only `user.username` is used, as the constructor argument.
