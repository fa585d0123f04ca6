# Dashboard Tasks & Notes — a Dafny model

The plugin adds a WordPress dashboard widget holding a notes textarea and a
checklist of tasks, both stored per user in the options table. Two pieces of
it carry logic worth proving:

- **The client reconciler** (`assets/js/dashboard.js`). The DOM is the only
  copy of the list. Before every save, `getCurrentTasksData` rebuilds the list
  of `{text, completed}` entries by scanning the rendered rows. Add, toggle,
  a non-blank finish edit and a confirmed delete scan the rows and send the
  whole list: add scans before it appends the new row, the others after
  changing the rows. Beginning an edit and cancelling one send nothing;
  cancel scans only to find the text it puts back. The handlers identify a task by the
  `data-index` its row was rendered with, and that attribute is never updated.
  The notes textarea is saved by a button and by a one-second debounce on blur.
  The debounce sends only when the text differs from the last value recorded
  as saved.
- **The save gateway** (`dashboard-tasks-notes.php`). `dtn_save_notes_ajax`
  and `dtn_save_tasks_ajax` check the nonce first, then the administrator
  capability, then that the posted user id is the caller's. The tasks handler
  filters the decoded list: it keeps elements that are arrays with `text` set
  and casts `completed` with `(bool)`. The result overwrites the caller's own
  option. The widget draws each stored element that has `text` and `completed`
  set, an empty-state block, and a completed/total summary.

Module layout:

- `wrappers.dfy`: `Option`.
- `tasks.dfy`: the `Task` entry.
- `strings.dfy`: ECMAScript `trim`.
- `escape.dfy`: `escapeHtml` as written and as intended, plus the browser's
  decoding of the references it emits.
- `view.dfy`: rows, the scan, `splice`, the client summary.
- `reconciler.dfy`: the task handlers as written (row text is displayed
  through the corrected escape; see "## Left out").
- `intended.dfy`: the corrected handlers.
- `autosave.dfy`: the notes debounce as a state machine.
- `php.dfy`: decoded JSON values, `isset`, `??`, `(bool)`, integer
  interpolation.
- `gateway.dfy`: the two save handlers and the option store.
- `widget.dfy`: the server render and summary.

A handler is a pure function from the rows to the rows it leaves and the list
it hands to `saveTasks`, if any. The row the event fired on is given by its
position `p` in the list. The option store is a map from option names to
values. Every WordPress call is an input: a boolean, an integer or a function
parameter.

In two places the handlers do something other than their own comments say,
and the model follows the code:

- **Delete.** The comment "Remove from data" (`assets/js/dashboard.js:240`)
  describes one removal. The code removes the row, scans, and then splices
  again at the old index. Deleting a row that is not the last, while the row
  still carries its own index, therefore sends two entries fewer. With an index
  left stale by an earlier delete, the second splice removes the entry of
  some other row, or nothing when the index is at or past the end of the
  scan, in which case the list sent is correct.
- **Cancel.** The comment "Get original text" (`assets/js/dashboard.js:217`)
  describes the text shown before editing. The code reads the scan, which for
  the edited row is the input's current value. A blank committed edit is
  handed to cancel, so a row whose `data-index` still equals its position
  shows nothing; with a stale index it shows the text of the row at that
  index.

Both appear under "## Findings" together with their corrections.

## Model

| member | source | states |
|---|---|---|
| Strings.Trim | assets/js/dashboard.js:289 | the result is trimmed at both ends, is no longer than the input, and is empty exactly when the input is all whitespace |
| Strings.TrimKeepsMiddle | assets/js/dashboard.js:289 | the trimmed text is a slice of the input with only whitespace before and after it |
| Strings.TrimIdempotent | assets/js/dashboard.js:189 | trimming an already trimmed value changes nothing, so a value read trimmed is stored as read |
| Strings.TrimStartRemovesSpacePrefix | assets/js/dashboard.js:289 | trimStart drops exactly a leading run of whitespace and stops at a non-space character |
| Strings.TrimEndRemovesSpaceSuffix | assets/js/dashboard.js:289 | trimEnd drops exactly a trailing run of whitespace and stops at a non-space character |
| Escape.AsWrittenReplacement | assets/js/dashboard.js:389-395 | the table as written: `&`, `<`, `>` and `"` map to themselves and `'` to `&#039;` |
| Escape.EscapeHtml | assets/js/dashboard.js:388-397 | with the table as written, the output grows by five characters per apostrophe and nothing else |
| Escape.EscapeHtmlAppend | assets/js/dashboard.js:396 | the replacement works character by character: escaping a concatenation is the concatenation of the escapes |
| Escape.EscapeHtmlSingle | assets/js/dashboard.js:389-396 | on one character the escape changes only an apostrophe, into `&#039;`; `&`, `<`, `>`, `"` and all others stay |
| Escape.EscapeHtmlChangesOnlyApostrophes | assets/js/dashboard.js:388-397 | the as-written escape returns its input unchanged exactly when the input holds no apostrophe |
| Escape.AsWrittenDoesNotEscape | assets/js/dashboard.js:388-397 | as written, `<b>` passes through as markup and the text `&lt;` is shown as `<` |
| Escape.EscapeHtmlIntended | assets/js/dashboard.js:386-397 | the corrected escape leaves no `<`, `>`, `"` or `'` in its output, so no markup survives |
| Escape.DecodeEscapeRoundTrip | assets/js/dashboard.js:386-397 | decoding the corrected escape's output gives back exactly the escaped text |
| Escape.Shown | assets/js/dashboard.js:311 | text written into a span or input through the corrected escape is displayed as itself |
| View.RowText | assets/js/dashboard.js:285 | the text of a row is its span's text, or else its edit input's value; ScanRow states what the scan makes of it |
| View.ScanRow | assets/js/dashboard.js:286-291 | the text a row contributes is trimmed, and is empty exactly when the row's span or input holds only whitespace |
| View.Scan | assets/js/dashboard.js:280-295 | getCurrentTasksData gives one entry per row in document order |
| View.ScanIgnoresDataIndex | assets/js/dashboard.js:280-295 | rows that differ only in their `data-index` scan to the same list |
| View.InBounds | assets/js/dashboard.js:141 | `tasks[taskIndex]` is truthy exactly for an integer index inside the list, and such an index is where `splice` acts |
| View.SpliceStart | assets/js/dashboard.js:242 | the splice start is clamped into 0..length (NaN as 0, negatives from the end) |
| View.Splice | assets/js/dashboard.js:242 | `splice(idx, 1)` removes exactly the element at the clamped start and shifts the rest left, or leaves the list alone when the start is the length |
| View.CountCompletedClass | assets/js/dashboard.js:332 | the number of rows with the `completed` class is at most the number of rows; ClassCountMatches ties it to the tasks' `completed` flags |
| View.ClientSummary | assets/js/dashboard.js:330-343 | the total is the number of rows and the completed count is at most it; the summary is visible exactly when the server drew the summary block and there is a row |
| View.ClassCountMatches | assets/js/dashboard.js:331-332 | rows whose classes follow a task list's `completed` flags one for one carry as many `completed` classes as the list has completed tasks |
| View.SummaryMatchesScan | assets/js/dashboard.js:330-343 | when every row's class agrees with its checkbox, the summary's completed count equals the completed entries of the scan |
| Reconciler.AddNewTask | assets/js/dashboard.js:97-125 | a blank input sends nothing and changes nothing; otherwise the scan plus the trimmed, unchecked entry is sent, the input is cleared, and one row indexed by the old row count is appended |
| Reconciler.AddSendsView | assets/js/dashboard.js:97-121 | the list an add sends is exactly what the rows it leaves scan to |
| Reconciler.ToggleTaskCompletion | assets/js/dashboard.js:130-150 | the row's class takes the checkbox state before the scan; a save is always sent; it differs from the previous scan only at the toggled row and at the row's `data-index` when in bounds |
| Reconciler.ToggleSendsViewIff | assets/js/dashboard.js:137-146 | a toggle sends what is shown if and only if its `data-index` is out of bounds, is its own position, or names a row already in the new state |
| Reconciler.EditTask | assets/js/dashboard.js:155-169 | the span becomes an input holding its text, other rows are untouched, and the scan is unchanged |
| Reconciler.CancelEditTask | assets/js/dashboard.js:213-222 | nothing is sent; the row gets a span with the scanned text at its `data-index`, or `''` when out of bounds; other rows are untouched |
| Reconciler.CancelRestoresInputValue | assets/js/dashboard.js:218-219 | for a row indexed by its own position, cancel restores the input's trimmed current value, not the pre-edit text |
| Reconciler.FinishEditTask | assets/js/dashboard.js:187-208 | a blank value is handed to cancel and sends nothing; otherwise the row shows the trimmed value and the list sent differs from the previous scan only in the text at `data-index` when in bounds |
| Reconciler.FinishBlankEmptiesRow | assets/js/dashboard.js:192-195 | committing a blank value on a row indexed by its own position leaves the row empty and sends nothing |
| Reconciler.FinishSendsViewIff | assets/js/dashboard.js:198-207 | a committed edit sends what is shown if and only if its `data-index` is out of bounds, is its own position, or names a row that already has the new text |
| Reconciler.DeleteTask | assets/js/dashboard.js:227-249 | declined: nothing changes or is sent; confirmed: exactly row `p` is removed and the remaining rows' scan, spliced at the row's `data-index`, is sent |
| Reconciler.DeleteDropsNeighbour | assets/js/dashboard.js:238-242 | deleting a non-last row with its own index sends n−2 entries, missing the row's and its successor's, while n−1 rows are shown |
| Reconciler.DeleteIndexPastEnd | assets/js/dashboard.js:242 | an index at or past the end of the remaining rows sends the remaining rows' scan unchanged |
| Reconciler.DeleteMakesStale | assets/js/dashboard.js:238 | after deleting a non-last row, the next row keeps an index one past its position |
| Reconciler.StaleToggleCorruptsNeighbour | assets/js/dashboard.js:132-143 | after a delete, checking a row marks the following entry completed in the list sent while it is shown unchecked |
| Reconciler.AsWrittenSaveDrifts | assets/js/dashboard.js:238-245 | deleting the first of two rows sends an empty list while one row remains shown |
| Reconciler.AddKeepsInvariants | assets/js/dashboard.js:120-121 | adding keeps class and checkbox in agreement and every index equal to its position |
| Reconciler.ToggleKeepsInvariants | assets/js/dashboard.js:137 | a toggle brings its own row's class in line with the checkbox and keeps every index |
| Reconciler.EditKeepsInvariants | assets/js/dashboard.js:163 | beginning an edit keeps class, checkbox and index of every row |
| Reconciler.FinishKeepsInvariants | assets/js/dashboard.js:198 | committing an edit keeps class, checkbox and index of every row |
| Reconciler.CancelKeepsInvariants | assets/js/dashboard.js:221 | cancelling an edit keeps class, checkbox and index of every row |
| Reconciler.DeleteKeepsInvariants | assets/js/dashboard.js:238 | a delete keeps class and checkbox agreeing; indices stay equal to positions exactly when the last row is deleted or the deletion is declined |
| Intended.ToggleTaskCompletion | assets/js/dashboard.js:130-150 | the corrected toggle sends the scan of the rows it leaves, which differs from the previous scan only in the toggled entry's `completed` |
| Intended.CancelEditTask | assets/js/dashboard.js:213-222 | the corrected cancel sends nothing and restores the text shown before editing |
| Intended.EditThenCancelRestoresRow | assets/js/dashboard.js:155-222 | beginning an edit and cancelling it gives back the row exactly as it was |
| Intended.FinishEditTask | assets/js/dashboard.js:187-208 | a blank value restores the pre-edit text without saving; otherwise the list sent is the scan after the edit, which equals the scan before it |
| Intended.DeleteTask | assets/js/dashboard.js:227-249 | the corrected delete removes exactly the row's entry from the scan and sends the scan of the rows that remain |
| Intended.DeleteSendsOneFewer | assets/js/dashboard.js:240-242 | a corrected delete always sends one entry fewer than there were rows |
| NotesAutoSave.Step | assets/js/dashboard.js:80-92 | validity (only the timer held in `autoSaveTimeout` is live) is preserved; from a valid state a blur replaces the pending timer with a fresh one; a live timer that fires sends the text exactly when it differs from the recorded value; the button always sends; only a success changes the recorded value |
| NotesAutoSave.Init | assets/js/dashboard.js:85 | the page starts with the stored notes, no recorded value and no timer; this state is well-formed |
| NotesAutoSave.AtMostOnePending | assets/js/dashboard.js:82-83 | in a well-formed state (only the timer held in `autoSaveTimeout` is live) at most one auto-save timer is pending |
| NotesAutoSave.RunKeepsValid | assets/js/dashboard.js:80-92 | every run of events from a well-formed state ends in a well-formed state |
| NotesAutoSave.NeverTwoPending | assets/js/dashboard.js:80-92 | over any session from the page as rendered, at most one auto-save timer is pending at any time |
| NotesAutoSave.TwoBlursCoalesce | assets/js/dashboard.js:81-91 | after two blurs only the second timer is live, and it sends exactly when the text changed |
| NotesAutoSave.SavesBoundedByBlursAndClicks | assets/js/dashboard.js:80-92 | over any run of events, saves never outnumber blurs plus button presses plus a timer already pending |
| NotesAutoSave.FirstBlurResendsLoadedNotes | assets/js/dashboard.js:85 | the recorded value starts as `''`, so the first blur re-sends non-empty notes loaded from the server |
| NotesAutoSave.AsWrittenRecordsUnsentText | assets/js/dashboard.js:359 | a success records the textarea's value at arrival time, which may be a value no request carried |
| NotesAutoSave.EditDuringSaveIsLost | assets/js/dashboard.js:84-89 | text typed while a save is in flight is not sent by the next blur as written, and is sent with the correction |
| NotesAutoSave.IntendedStep | assets/js/dashboard.js:357-359 | the corrected success records the value the acknowledged request carried; every other event is handled as written |
| NotesAutoSave.IntendedStepRecordsSent | assets/js/dashboard.js:357-359 | one corrected step keeps the recorded value among the values issued so far, when a success acknowledges an issued value |
| NotesAutoSave.IntendedRunRecordsIssued | assets/js/dashboard.js:357-359 | over any run in which every success acknowledges an issued or earlier-sent value, the recorded value stays `''`, issued, or sent in the run |
| NotesAutoSave.IntendedRecordsOnlySentValues | assets/js/dashboard.js:357-359 | with the correction, over any session from the rendered page in which every success answers one of its requests, the recorded value is always `''` or a value the session sent |
| NotesAutoSave.AsWrittenSessionRecordsUnsent | assets/js/dashboard.js:359 | as written, a session whose only success answers its only request, for "a", ends with "ab" recorded, a value it never sent |
| Php.Coalesce | dashboard-tasks-notes.php:209 | `$a[name] ?? $default` is the stored value when it is set and non-null, and the default otherwise |
| Php.ToBool | dashboard-tasks-notes.php:209 | `(bool)` is false exactly for null, false, 0, 0.0, `""`, `"0"` and the empty array |
| Php.Lookup | dashboard-tasks-notes.php:206 | array access by key; LookupFindsFirst states that it finds the first entry with the key, or nothing |
| Php.Isset | dashboard-tasks-notes.php:113 | `isset($a[name])`: an array with an entry for the name whose value is not null; Coalesce states the reading it guards |
| Php.LookupFindsFirst | dashboard-tasks-notes.php:206 | looking up a key finds the first entry with that key, and nothing when no entry has it |
| Php.IntToString | dashboard-tasks-notes.php:216 | an interpolated integer is non-empty and starts with `-` exactly when negative |
| Php.NatToString | dashboard-tasks-notes.php:216 | a natural number is written as one or more decimal digits, at least two from 10 up |
| Php.IntToStringInjective | dashboard-tasks-notes.php:216 | distinct integers are written as distinct strings |
| Gateway.TasksKey | dashboard-tasks-notes.php:59 | the tasks option of a user is `dtn_tasks_` followed by the decimal user id, and no other user's tasks option has that name |
| Gateway.NotesKey | dashboard-tasks-notes.php:177 | the notes option of a user is `dtn_notes_` followed by the user id, and no user's tasks option has that name |
| Gateway.KeysDistinct | dashboard-tasks-notes.php:216 | the tasks and notes options are distinct keys, and each belongs to exactly one user id |
| Gateway.Guard | dashboard-tasks-notes.php:190-197 | a bad nonce dies with "Security check failed" before anything else; a non-administrator dies with "Insufficient permissions"; both passing lets the handler go on |
| Gateway.SaveNotes | dashboard-tasks-notes.php:162-182 | after the guards, the sanitized notes (`''` when not posted) overwrite the caller's notes option iff the posted id is the non-zero caller id; otherwise an error and no write |
| Gateway.OwnUser | dashboard-tasks-notes.php:176 | the handlers write only when the posted id is non-zero and equals the caller's id |
| Gateway.Kept | dashboard-tasks-notes.php:206 | an element is kept exactly when it is an array with `text` set |
| Gateway.Clean | dashboard-tasks-notes.php:207-210 | a kept element's `completed` is the `(bool)` of its value, false when missing |
| Gateway.FilterEntries | dashboard-tasks-notes.php:203-213 | the filtered list is never longer than the decoded one |
| Gateway.FilterTasks | dashboard-tasks-notes.php:200-204 | a payload that did not decode to an array gives the empty list |
| Gateway.KeptPositions | dashboard-tasks-notes.php:206 | the increasing positions of exactly the elements that are arrays with `text` set |
| Gateway.FilterKeepsExactlyTextEntries | dashboard-tasks-notes.php:204-213 | the filter keeps exactly the elements that are arrays with `text` set, in their original order, each cleaned |
| Gateway.Encode | assets/js/dashboard.js:262 | the list the client posts, decoded: element `i` at integer key `i` with its `text` and `completed`; see FilterEncodeRoundTrip |
| Gateway.FilterEncodeRoundTrip | dashboard-tasks-notes.php:200-213 | a list the client serialised comes out of the filter unchanged when sanitizing leaves its texts alone |
| Gateway.FilterExample | dashboard-tasks-notes.php:204-213 | an element without `text` is dropped and `completed: "yes"` becomes true |
| Gateway.SaveTasks | dashboard-tasks-notes.php:188-221 | after the guards, the filtered list overwrites the caller's tasks option iff the posted id is the non-zero caller id; otherwise an error and no write |
| Gateway.GuardsPrecedePayload | dashboard-tasks-notes.php:190-200 | when a guard fails, both handlers die with the same result whatever was posted, and write nothing |
| Gateway.WritesOnlyForOwnUser | dashboard-tasks-notes.php:215-220 | a handler succeeds exactly when both guards pass and the posted id is the caller's non-zero id; otherwise the store is unchanged |
| Gateway.SaveTouchesOnlyOwnKey | dashboard-tasks-notes.php:216 | a save changes only the caller's option of its kind; the caller's other option and every other user's options keep their values |
| Gateway.UnusablePayloadClearsList | dashboard-tasks-notes.php:200-216 | a missing or non-array `tasks` still overwrites the caller's list, with the empty list |
| Gateway.LoadSeesOwnSaveOnly | dashboard-tasks-notes.php:59 | a user with no stored option loads the empty array; after a write of a user's tasks option that user loads what was written and every other user loads what they did before |
| Gateway.LoadTasks | dashboard-tasks-notes.php:59 | `get_option` of the user's tasks option with default `array()`; LoadSeesOwnSaveOnly states its behaviour |
| Widget.Renders | dashboard-tasks-notes.php:113 | the template draws an element exactly when it is an array with `text` and `completed` set |
| Widget.CheckedAttr | dashboard-tasks-notes.php:118 | the checkbox is checked only for values that are also truthy, and exactly for `true` among booleans |
| Widget.KeyIndex | dashboard-tasks-notes.php:114 | the `data-index` written with `esc_attr($index)` as parseInt reads it back; RowOfEncoded states that a stored task at position n draws index n |
| Widget.RenderRow | dashboard-tasks-notes.php:114-118 | a drawn row whose checkbox is checked also carries the `completed` class |
| Widget.RenderEntries | dashboard-tasks-notes.php:112-131 | at most one row is drawn per stored element |
| Widget.RenderList | dashboard-tasks-notes.php:112 | a stored value that is not an array draws no rows |
| Widget.ShowsEmptyState | dashboard-tasks-notes.php:133-137 | the empty-state block is drawn exactly when the stored value is falsy, which for an array means empty |
| Widget.CountsAsDone | dashboard-tasks-notes.php:142 | an element counts as done exactly when `completed` is set and truthy |
| Widget.CompletedCount | dashboard-tasks-notes.php:142 | the completed count is at most the number of stored elements |
| Widget.ServerSummary | dashboard-tasks-notes.php:140-144 | for an array the total is every stored element and the completed count is at most it; the summary is visible exactly when the empty state is not |
| Widget.StoredEntriesRender | dashboard-tasks-notes.php:207-210 | every element the save handler stores passes the template's `text`/`completed` test |
| Widget.CompletedCountOfEncoded | dashboard-tasks-notes.php:142 | on a stored list, the completed count is the number of completed tasks |
| Widget.RowOfEncoded | dashboard-tasks-notes.php:114-123 | the row drawn for a stored task carries its position, agrees in class and checkbox, and scans back to the task |
| Widget.RenderAll | dashboard-tasks-notes.php:112-131 | when every element passes the test, row `i` is the row drawn from element `i` |
| Widget.RenderEncoded | dashboard-tasks-notes.php:112-131 | drawing a stored list gives one row per task, indexed by position, class agreeing with checkbox, scanning back to the list |
| Widget.SummaryOfEncoded | dashboard-tasks-notes.php:133-143 | on a stored list, the empty state shows iff the list is empty and the summary counts the completed tasks against all tasks |
| Widget.SummaryDrawn | dashboard-tasks-notes.php:140 | the summary block is drawn exactly for a truthy stored value, which for an array means a non-empty one |
| Widget.ServerAndClientSummariesAgree | dashboard-tasks-notes.php:140-143 | for every stored list, whatever its texts, the summary the server draws equals the one updateTasksSummary computes from the drawn rows, and the corrected one |
| Widget.SummaryMissingAfterEmptyLoad | dashboard-tasks-notes.php:140-144 | on a page drawn with an empty list, adding a task leaves one row but no visible summary; the corrected summary is visible |
| Intended.UpdateTasksSummary | assets/js/dashboard.js:322-343 | with the summary block always present, the summary is visible exactly when there is a row, and on synced rows counts the scan's completed entries |
| Widget.SaveThenReload | dashboard-tasks-notes.php:215-216 | saving the scanned list stores exactly that list, and reloading draws fresh, consistent rows that scan to the same list |

## Left out

- Transport: the AJAX request, its response handling and the order in which responses arrive (`saveTasks`, `saveNotes`) are not modelled. A save is the emitted list or notes value, and a notes response is a `Succeeded` or `Failed` event.
- DOM and markup: jQuery queries, the HTML template strings, CSS, and the button's loading and feedback text and its timers are not modelled. The exception is the recorded-value update in `showSaveSuccess`. `addTaskToUI` is modelled only as the row it appends.
- Event dispatch: `bindEvents` binds each DOM event to exactly one modelled handler (the Save Notes click and textarea blur to the notes save and debounce; the Add click and an Enter keypress in the new-task input to add; a checkbox change to toggle; the edit and delete clicks; an edit input's blur to finish), and `handleEditKeydown` routes Enter to finish and Escape to cancel. The handlers are modelled as separate functions and this routing is not. A blur reaching an edit input that a keydown has already replaced is not modelled either.
- Disabled button: the Save Notes button is disabled while a save it started is outstanding, and that does not filter `Click` events in the model.
- WordPress internals are inputs:
  - `sanitize_text_field` and `sanitize_textarea_field` are function parameters.
  - `esc_html` together with the browser's decoding is the parameter `shown`.
  - `wp_verify_nonce`, `current_user_can` and `get_current_user_id` are the fields of `Context`.
  - `wp_die` and `wp_send_json_*` are the `Response` values.
  - `get_option` and `update_option` are map reads and writes.
- `intval` is taken as already applied: `user_id` arrives as an integer, or absent for 0. Its clamping to the 64-bit range is not modelled.
- `stripslashes` and `json_decode` are taken as already applied: `tasks` arrives as a decoded value, with invalid JSON as null. Duplicate keys cannot occur in a PHP array, and the model's lookup takes the first.
- Floats are reals: NaN and negative zero are not represented, and the string cast of a float is taken to equal `"1"` exactly for 1.0.
- String array keys: a string key is read back by the script as NaN. `parseInt` of a key that starts with digits, such as `"3a"`, is not modelled.
- Widget.ServerSummary: for a non-empty stored value that is not an array, `count()` fails and the model returns no summary.
- Loading the notes into the textarea (`get_option`, `sanitize_textarea_field`, `esc_textarea`) is not modelled.
- Display of row text: the as-written handlers write row text through the corrected escape (`Escape.Shown`), which keeps the escaping finding apart from the list logic. With the escape as written, a text holding markup or a character reference would be displayed differently from the text sent. The worst case is a text holding `"`: beginning an edit writes it into the edit input's `value` attribute unescaped (`assets/js/dashboard.js:163`), which cuts the value off at the quote. Cancelling that edit then shows the truncated text, and finishing it, or any later save while it is shown, stores it.
- `confirm()` is the boolean `confirmed`.
- The one-second delay is not modelled: a timer firing is a `Fire` event.
- Registration and configuration plumbing is not modelled: widget registration, the empty control callback, script localisation and the activation hook that creates directories.
- The handler preconditions (`p < |rows|`, and an edit input for finish and cancel) say only that the event fired on an existing row or input.

## Findings

| source | as written | input that shows it | evidently intended | confidence | as-written member | corrected member |
|---|---|---|---|---|---|---|
| assets/js/dashboard.js:388-397 | the escape table maps `&`, `<`, `>` and `"` to themselves; only `'` is replaced | the task text `<b>` reaches the page as a tag; the text `&lt;` is shown as `<` | map them to `&amp;`, `&lt;`, `&gt;`, `&quot;` as the comment "Escape HTML entities for safe display" says | not executed | Escape.AsWrittenDoesNotEscape | Escape.DecodeEscapeRoundTrip |
| assets/js/dashboard.js:238-242 | the row is removed before the scan, then the scan is spliced again at the old index | rows "a", "b" (indices 0, 1): deleting "a" sends `[]` while "b" is still shown | remove exactly the deleted row's entry | not executed | Reconciler.AsWrittenSaveDrifts | Intended.DeleteTask |
| assets/js/dashboard.js:218-219 | cancel takes the text from the scan, which for the edited row is the input's current value | edit "a", type "ab", press Escape: the row shows "ab", and nothing was saved unless removing the focused input fires a blur that commits it | restore the text shown before editing | not executed | Reconciler.CancelRestoresInputValue | Intended.EditThenCancelRestoresRow |
| assets/js/dashboard.js:192-194 | a blank committed edit is handed to cancel, which restores the trimmed blank value | edit "a" to spaces and press Enter: the row shows nothing, while the stored list still has "a" | restore the pre-edit text without saving | not executed | Reconciler.FinishBlankEmptiesRow | Intended.FinishEditTask |
| assets/js/dashboard.js:141-143 | toggle also writes the new state through the row's `data-index`, which is stale after a delete | after deleting the first of "a", "b", "c", checking "b" sends "c" as completed while it is shown unchecked | send the scan, whose own row already carries the new state | not executed | Reconciler.StaleToggleCorruptsNeighbour | Intended.ToggleTaskCompletion |
| dashboard-tasks-notes.php:140-144 | the summary block is drawn only for a non-empty list, and updateTasksSummary only shows an existing block | load the widget with no tasks and add one: the row appears, the summary does not until a reload | show the summary once tasks exist, as the comment "Show summary if tasks now exist" says | not executed | Widget.SummaryMissingAfterEmptyLoad | Intended.UpdateTasksSummary |
| assets/js/dashboard.js:359 | a successful notes save records the textarea's value when the answer arrives | save "a", type "ab" before the answer, blur: nothing is sent and the server keeps "a" | record the value the request carried | not executed | NotesAutoSave.EditDuringSaveIsLost | NotesAutoSave.IntendedRecordsOnlySentValues |
