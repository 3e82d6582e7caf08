# Task store of the DOM Builder page, in Dafny

The DOM Builder page (`Lesson_1_HTML_CSS_JS_DOM_Examples/app.js`) keeps a to-do
list in a module-level array `tasks` of records `{id, text, done}`. Four event
handlers change the array: the form submit adds a record, a click on a row
toggles it, its delete button deletes it, and the "clear completed" button
removes the done records. After each change `renderTasks` rebuilds the list
from the array and `updateCounts` shows the total and the number done. Every
handler writes one message to the status line, except a toggle of an unknown
id.

This project models that store:

- `JsString.dfy`: `String.prototype.trim`, the one string built-in the add
  handler depends on, over ECMAScript's WhiteSpace and LineTerminator code points
  (ECMAScript 2024, sections 12.2, 12.3 and 22.1.3.32).
- `TaskModel.dfy`: the task, row and status values. It also holds the pure
  functions that specify the handlers: `Filter` (`Array.prototype.filter`),
  `WithoutId`, `Active`, `FirstIndex` (the position `Array.prototype.find`
  returns), `Toggled` and `DoneCount`, with the lemmas about them.
- `TaskStore.dfy`: class `TaskStore`. It holds the records and the page's view
  of them: the rendered rows and the two counters. `Render` and `UpdateCounts`
  are the loops of `renderTasks` and `updateCounts`. `Add`, `Delete`, `Toggle`
  and `ClearCompleted` are the handlers. Each handler returns the status it
  writes, and each keeps the invariant `Valid()`: ids are distinct, every text
  is non-empty and trimmed, and the view matches the records. Three client
  methods (`AddToggleDeleteScenario`, `EmptyInputScenario` and
  `ClearScenario`) state the records and counters after the add/toggle/delete,
  blank-input and add/add/toggle/clear sequences, and the verifier proves
  those assertions.

Three details of the code are kept as written:

- Delete removes every record with the id, because it is a filter. With
  distinct ids that is at most one record.
- Clear-completed reports only whether something was removed, not how many.
- A toggle of an unknown id writes no status and does not re-render.

## Model

| member | source | states |
|---|---|---|
| `JsString.WhitespaceTables` | Lesson_1_HTML_CSS_JS_DOM_Examples/app.js:121 | The code points trim removes are exactly those of the WhiteSpace table (TAB, VT, FF, ZWNBSP and category Zs) and the LineTerminator table (LF, CR, LS, PS). |
| `JsString.LeadingWhitespace` | Lesson_1_HTML_CSS_JS_DOM_Examples/app.js:121 | The length of the longest white-space prefix: everything before it is white space, and the next code point is not. |
| `JsString.TrailingWhitespace` | Lesson_1_HTML_CSS_JS_DOM_Examples/app.js:121 | The length of the longest white-space suffix: everything after it is white space, and the code point before it is not. |
| `JsString.Trim` | Lesson_1_HTML_CSS_JS_DOM_Examples/app.js:121 | `input.value.trim()` is no longer than its input, is empty exactly when the input is all white space, and neither starts nor ends with white space. |
| `JsString.TrimIsSlice` | Lesson_1_HTML_CSS_JS_DOM_Examples/app.js:121 | The trim is a contiguous piece of the input, with only white space before and after it. |
| `JsString.TrimOfPadded` | Lesson_1_HTML_CSS_JS_DOM_Examples/app.js:121 | A trimmed non-empty string padded with white space on both sides trims back to itself, so trim removes exactly the surrounding white space. |
| `JsString.TrimOfTrimmed` | Lesson_1_HTML_CSS_JS_DOM_Examples/app.js:121 | Trim leaves a string unchanged exactly when it has no leading or trailing white space. |
| `JsString.TrimIdempotent` | Lesson_1_HTML_CSS_JS_DOM_Examples/app.js:121 | Trimming a trimmed string changes nothing. |
| `TaskModel.Message` | Lesson_1_HTML_CSS_JS_DOM_Examples/app.js:123-178 | Each status the handlers write is a non-empty sentence ending in a full stop. |
| `TaskModel.MessagesDistinct` | Lesson_1_HTML_CSS_JS_DOM_Examples/app.js:123-178 | Different statuses write different texts, so the status line tells the outcomes apart. |
| `TaskModel.AppendFresh` | Lesson_1_HTML_CSS_JS_DOM_Examples/app.js:128-133 | Pushing a record with an id not yet present and a trimmed non-empty text keeps ids distinct and texts trimmed. |
| `TaskModel.Filter` | Lesson_1_HTML_CSS_JS_DOM_Examples/app.js:154 | `filter` returns no more elements than it is given, and each of them is from the input and passes the test. |
| `TaskModel.FilterAppend` | Lesson_1_HTML_CSS_JS_DOM_Examples/app.js:154 | Filtering a concatenation is concatenating the filtered parts, so the kept elements stay in their original relative order. |
| `TaskModel.FilterKeeps` | Lesson_1_HTML_CSS_JS_DOM_Examples/app.js:154 | Every element that passes the test is in the result. |
| `TaskModel.FilterAllAccepted` | Lesson_1_HTML_CSS_JS_DOM_Examples/app.js:172-175 | When every element passes the test, the filter returns its input. |
| `TaskModel.FilterSameLength` | Lesson_1_HTML_CSS_JS_DOM_Examples/app.js:172-175 | When the filter keeps the length, every element passed the test. |
| `TaskModel.FilterKeepsAll` | Lesson_1_HTML_CSS_JS_DOM_Examples/app.js:172-175 | The result has the input's length exactly when every element passes, and then it is the input itself. |
| `TaskModel.FilterIdempotent` | Lesson_1_HTML_CSS_JS_DOM_Examples/app.js:172 | Filtering twice with the same test is filtering once. |
| `TaskModel.FilterDistinct` | Lesson_1_HTML_CSS_JS_DOM_Examples/app.js:154 | Filtering records with distinct ids gives records with distinct ids. |
| `TaskModel.FilterTexts` | Lesson_1_HTML_CSS_JS_DOM_Examples/app.js:154 | Filtering keeps every text non-empty and trimmed. |
| `TaskModel.WithoutId` | Lesson_1_HTML_CSS_JS_DOM_Examples/app.js:154 | A delete returns no more records than it is given, and each is one of them with an id other than the deleted one. |
| `TaskModel.WithoutIdMembers` | Lesson_1_HTML_CSS_JS_DOM_Examples/app.js:154 | After a delete no record has the id, and a record is kept exactly when it was there and has another id. |
| `TaskModel.WithoutAbsentId` | Lesson_1_HTML_CSS_JS_DOM_Examples/app.js:154 | Deleting an id no record has leaves the records unchanged. |
| `TaskModel.WithoutIdLength` | Lesson_1_HTML_CSS_JS_DOM_Examples/app.js:154 | With distinct ids, a delete shortens the list by one when the id is present and by zero when it is absent. |
| `TaskModel.DoneCount` | Lesson_1_HTML_CSS_JS_DOM_Examples/app.js:33-36 | The number of done records is at most the number of records, and it is zero exactly when no record is done. |
| `TaskModel.Active` | Lesson_1_HTML_CSS_JS_DOM_Examples/app.js:172 | Clear-completed returns no more records than it is given, and each is one of them and not done. |
| `TaskModel.ActiveNoneDone` | Lesson_1_HTML_CSS_JS_DOM_Examples/app.js:172 | After clear-completed no record at any position is done. |
| `TaskModel.ActiveMembers` | Lesson_1_HTML_CSS_JS_DOM_Examples/app.js:172 | A record is kept by clear-completed exactly when it was there and is not done. |
| `TaskModel.ActiveLength` | Lesson_1_HTML_CSS_JS_DOM_Examples/app.js:171-173 | Clear-completed removes exactly the done records: the length after plus the done count before is the length before. |
| `TaskModel.ActiveUnchanged` | Lesson_1_HTML_CSS_JS_DOM_Examples/app.js:171-179 | The length is unchanged exactly when no record was done, and then the records are unchanged. |
| `TaskModel.ActiveIdempotent` | Lesson_1_HTML_CSS_JS_DOM_Examples/app.js:172 | A second clear-completed changes nothing. |
| `TaskModel.FirstIndex` | Lesson_1_HTML_CSS_JS_DOM_Examples/app.js:161-162 | `find` yields the position of the first record with the id, and yields nothing exactly when no record has it. |
| `TaskModel.FirstIndexSameIds` | Lesson_1_HTML_CSS_JS_DOM_Examples/app.js:161 | `find` by id finds the same position in two lists with the same ids, whatever their done flags. |
| `TaskModel.Toggled` | Lesson_1_HTML_CSS_JS_DOM_Examples/app.js:161-164 | A toggle keeps the length and every id and text, and it changes a record's done flag exactly when that record is the first with the id. |
| `TaskModel.ToggleAbsentId` | Lesson_1_HTML_CSS_JS_DOM_Examples/app.js:162 | Toggling an unknown id leaves the records unchanged. |
| `TaskModel.ToggleTwice` | Lesson_1_HTML_CSS_JS_DOM_Examples/app.js:161-164 | Two toggles of the same id restore the original records. |
| `TaskModel.ToggleDistinct` | Lesson_1_HTML_CSS_JS_DOM_Examples/app.js:161-164 | With distinct ids, a toggle flips the record with the id and no other, and keeps ids distinct and texts trimmed. |
| `TaskModel.DoneCountUpdate` | Lesson_1_HTML_CSS_JS_DOM_Examples/app.js:33-36 | Replacing one record changes the done count by the change in that record's done flag. |
| `TaskModel.ToggleDoneCount` | Lesson_1_HTML_CSS_JS_DOM_Examples/app.js:164 | A successful toggle raises the done count by one when the record becomes done and lowers it by one when the record becomes active. |
| `TaskStoreApp.TaskStore.constructor` | Lesson_1_HTML_CSS_JS_DOM_Examples/app.js:23 | The page starts with no records, rendered. The invariant holds. |
| `TaskStoreApp.TaskStore.UpdateCounts` | Lesson_1_HTML_CSS_JS_DOM_Examples/app.js:30-38 | The total shown is the number of records. The done count shown is the counting loop's result, proved equal to `DoneCount`. |
| `TaskStoreApp.TaskStore.Render` | Lesson_1_HTML_CSS_JS_DOM_Examples/app.js:40-67 | The rebuilt list has one row per record, in order. Each row carries its record's id and text, and it carries the `done` class exactly when its record is done. The counters are updated. |
| `TaskStoreApp.TaskStore.Add` | Lesson_1_HTML_CSS_JS_DOM_Examples/app.js:118-140 | Input that trims to nothing yields "Type a task first." and changes nothing. Otherwise the records are the old records plus `{id, trim(raw), false}` at the end, and the status is "Task added.". The invariant is kept. |
| `TaskStoreApp.TaskStore.Delete` | Lesson_1_HTML_CSS_JS_DOM_Examples/app.js:153-157 | The records become the old records without those with the id, in order. The length drops by one when the id was present and is unchanged otherwise. The status is "Task deleted.". The invariant is kept. |
| `TaskStoreApp.TaskStore.Toggle` | Lesson_1_HTML_CSS_JS_DOM_Examples/app.js:160-166 | The records become `Toggled` of the old records. An unknown id returns no status and changes nothing. Otherwise the status is "Marked complete." or "Marked active.", matching the new flag. The invariant is kept. |
| `TaskStoreApp.TaskStore.ClearCompleted` | Lesson_1_HTML_CSS_JS_DOM_Examples/app.js:170-182 | Only the not-done records remain, in order, and none is done. The status is "No completed tasks to clear." exactly when the length is unchanged, which is exactly when no record was done. Otherwise it is "Cleared completed tasks.". The invariant is kept. |

## Left out

- DOM work is not modelled: `querySelector`, `createElement` and `appendChild`, `innerHTML`, `classList`, `dataset`, and the delete button each row carries. These are browser calls. A rendered row is modelled as its id, its text and whether it has the `done` class.
- Clearing and focusing the input (app.js:135-136) is not modelled. The input field is not part of the model.
- Writing the status line (`setStatus`, app.js:26-28) is modelled as the handler's return value. `TaskModel.Message` gives the exact strings. The start-up status "Ready" (app.js:187) and `console.log` are not modelled.
- `buildProfileCard` (app.js:70-105) is not modelled. It builds fixed content and has no logic.
- The theme toggle (app.js:108-115) and the start-up badge (app.js:188) are not modelled. They only change presentation.
- The id generator (`crypto.randomUUID`, or `Date.now` plus `Math.random`, app.js:128-131) is not modelled, because it is random and foreign. Its id is a parameter of `Add`.
- TaskStoreApp.TaskStore.Add: requires the id to be new to the list whenever the input is non-empty. The source relies on the generator for this and never checks it.
- Event delegation (`closest(".task")`, the `data-id` lookup and the choice of clicked control, app.js:143-152) is not modelled. The handlers are called directly with the id.
- A record's `done` is assigned in place through the reference `find` returns (app.js:164). The model updates that position of the sequence instead. No other reference to a record exists, so nothing else can observe the difference.
- Strings are modelled as sequences of Unicode scalar values, while JavaScript strings are sequences of UTF-16 code units. A lone surrogate therefore cannot be represented. On well-formed strings trim, the emptiness test (app.js:122) and id equality agree with the model, because every code point trim removes is a single code unit.
