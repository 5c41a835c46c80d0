# Social Media Scheduler — a Dafny model of its core

The scheduler is a single React component file, `src/App.jsx`. Almost all of
it is markup; the logic it holds is modelled here:

- **Draft validation** in `PostForm.handleSubmit`: the required-field check,
  the conversion of the date and time inputs into an instant
  (`date.split("-")`, `time.split(":")`, `new Date(year, month - 1, day,
  hours, minutes)`), the "not in the past" check, and the post it builds.
- **Platform selection**: `togglePlatform` and the form state it updates.
- **The App controller**: the list of scheduled posts, `addPost`,
  `deletePost`, `viewPostDetails`, `goHome`, the `selectedPost` lookup, the
  toast, and the snapshot the save effect writes to the key-value store.
- **The listing**: the stable sort by scheduled instant in `PostList`, which
  sorts the state array in place, and the `getPlatformIcon` /
  `getPlatformName` lookups.

Modules, one per part of the program:

| file | module | what it holds |
|---|---|---|
| wrappers.dfy | `Wrappers` | `Option` (null/undefined against a value) and `Result` |
| seqs.dfy | `Seqs` | `Array.prototype.filter` and a stable sort by an integer key, with their laws |
| jsdate.dfy | `JsDate` | `split`, ToNumber on digit strings, and the Date algorithms of ECMA-262 10th edition, sections 20.3.1 and 20.3.2.1 |
| platforms.dfy | `Platforms` | `togglePlatform`, `getPlatformIcon`, `getPlatformName` |
| posts.dfy | `Posts` | posts, drafts, validation, `deletePost`'s filter, `find`, the listing order |
| form.dfy | `Form` | class `PostForm`: the form's state and its handlers |
| scheduler.dfy | `Scheduler` | class `App`: the controller state and its handlers |

Instants are integer milliseconds since the epoch. The clock (`new Date()`),
the local time zone offset, the default date and time of a fresh form and
the random post id are inputs of the operations that use them.

The code does the following, which a reader may not expect:

- An instant equal to now is accepted. The comparison is `scheduledFor < new
  Date()` (src/App.jsx:96), not "strictly later than now".
- `addPost` appends without checking for an existing id (src/App.jsx:419).
  With two posts of one id, `selectedPost` finds the one the listing order
  puts first, and the other can never be shown (`Posts.FindShadows`). After
  the render's sort this need not be the older post: adding A and then B
  with A's id, a day earlier, shows B for that id
  (`Scheduler.DuplicateIdExample`).
- `viewPostDetails` goes to the details view for any id (src/App.jsx:434-437).
  For an unknown id the screen is "Post not found" (src/App.jsx:316-325).
- A date that does not form a valid Date is not refused by the past check:
  NaN is never `<` now. `toISOString()` then throws a RangeError, so
  `onSubmit` is never called and no alert is shown. The model calls this
  rejection `InvalidDate`.
- `PostList` sorts the state array in place while rendering
  (src/App.jsx:256-261), and the save effect runs after that render
  (src/App.jsx:405-416). So every save made on the home screen writes the
  list in schedule order, not in the order the posts were added: adding A
  and then B, scheduled a day before A, stores B before A
  (`Scheduler.StoredOrderExample`). An in-place sort alone triggers no save.
  The list is therefore always either the stored list itself or the stored
  list in schedule order (`Scheduler.App.Valid`). Adding, deleting and
  closing the toast happen only on the home screen, where the form, the
  list and the toast are shown (src/App.jsx:448-471).
- The details screen replaces the whole home screen (src/App.jsx:473-475),
  so the form is unmounted and its draft is lost; `goHome` mounts a new
  form whose default date and time are read again (src/App.jsx:58-63).
  `Scheduler.App.GoHome` returns that new form.

## Model

| member | source | states |
|---|---|---|
| Seqs.Filter | src/App.jsx:80 | the result keeps only elements that pass the test, every element of the input that passes is in it, and nothing else is added |
| Seqs.FilterIsSubsequence | src/App.jsx:427 | filtering only deletes elements, so the rest keep their relative order |
| Seqs.FilterCount | src/App.jsx:427 | a kept value occurs as often as in the input; a dropped value does not occur |
| Seqs.FilterAllKept | src/App.jsx:427 | a filter that every element passes returns the input unchanged |
| Seqs.FilterIdempotent | src/App.jsx:427 | filtering twice with one test is filtering once |
| Seqs.FilterAppend | src/App.jsx:80 | filtering distributes over concatenation |
| Seqs.Insert | src/App.jsx:256-261 | inserting adds exactly the one element and keeps every other element as often as it occurred |
| Seqs.SortBy | src/App.jsx:256-261 | the sorted list has the input's length |
| Seqs.InsertSorted | src/App.jsx:256-261 | inserting into an ascending list keeps it ascending |
| Seqs.InsertStable | src/App.jsx:256-261 | the inserted element lands after every element with the same key |
| Seqs.SortByCorrect | src/App.jsx:256-261 | the sort is ascending by key, a permutation of the input, and stable: for every key value, the elements with that key keep their input order |
| Seqs.InsertAtEnd | src/App.jsx:256-261 | an element with the largest key is inserted at the end |
| Seqs.SortBySorted | src/App.jsx:256-261 | sorting a list that is already ascending leaves it unchanged |
| Seqs.FilterSorted | src/App.jsx:427 | filtering an ascending list leaves it ascending |
| Seqs.SortByAppend | src/App.jsx:256-261 | sorting an ascending list with one element appended inserts that element |
| JsDate.Split | src/App.jsx:92-93 | split gives at least one piece, and no piece contains the separator |
| JsDate.JoinSplit | src/App.jsx:92-93 | joining the pieces of a split with the separator restores the input |
| JsDate.SplitJoin | src/App.jsx:92-93 | splitting joined pieces that contain no separator gives the pieces back |
| JsDate.StringToNumber | src/App.jsx:92-94 | a piece is a finite number exactly when it is a decimal digit string, and then the number is the piece's decimal value |
| JsDate.LeadingZero | src/App.jsx:92-94 | a leading zero does not change the value of a digit string ("09" is 9) |
| JsDate.DigitsValueBound | src/App.jsx:92-94 | a value of k digits is below 10^k |
| JsDate.DayFromYear | src/App.jsx:94 | January 1 1970 is day 0, 1971 starts on day 365 and 2000 on day 10957 |
| JsDate.MonthStartIsRunningTotal | src/App.jsx:94 | the month-start table is the running total of the month lengths and ends at the length of the year |
| JsDate.DayFromYearStep | src/App.jsx:94 | the closed formula for January 1 moves by 365 or 366 days from one year to the next, by the Gregorian leap rule |
| JsDate.DayFromYearCounts | src/App.jsx:94 | the closed formula equals counting whole years from 1970, in both directions |
| JsDate.DayFromYearIncreasing | src/App.jsx:94 | every later year starts after the whole of an earlier year |
| JsDate.MakeTime | src/App.jsx:94 | the time is a number exactly when hours, minutes, seconds and milliseconds are; a valid hour and minute give a time within one day |
| JsDate.MakeDay | src/App.jsx:94 | the day is a number exactly when year, month and date are |
| JsDate.MakeDayCarries | src/App.jsx:94 | month m + 12 of year y is month m of year y + 1 |
| JsDate.MakeDate | src/App.jsx:94 | the time value is a number exactly when day and time are, and a time within one day stays within that day |
| JsDate.Utc | src/App.jsx:94 | the UTC value is a number exactly when the local one is, and adding the zone offset gives the local value back |
| JsDate.TimeClip | src/App.jsx:94 | the Date keeps a value within 8.64e15 ms of the epoch and is invalid (NaN) outside it |
| JsDate.NewDate | src/App.jsx:94 | any argument that is NaN makes an Invalid Date; a valid Date lies within 8.64e15 ms of the epoch |
| JsDate.TwoDigitYears | src/App.jsx:94 | a year from 0 to 99 gives the same Date as 1900 to 1999 |
| JsDate.LocalInstant | src/App.jsx:92-94 | a date without two dashes or a time without a colon gives an Invalid Date; a valid one lies within the time value range |
| JsDate.LocalMsIncreasing | src/App.jsx:94 | for valid calendar fields, a lexicographically earlier (year, month, day, hour, minute) gives a smaller time value |
| JsDate.NewDateOfFields | src/App.jsx:94 | for valid calendar fields with a year from 100 on, the Date is the local calendar time minus the zone offset, clipped to the time value range |
| JsDate.LocalInstantOfFields | src/App.jsx:92-94 | for well-formed "YYYY-MM-DD" and "HH:MM" inputs, the instant is the local calendar time minus the zone offset, clipped to the time value range |
| JsDate.LocalInstantIncreasing | src/App.jsx:92-94 | with one zone offset, a later date and time in the inputs gives a later instant |
| JsDate.MissingPieceIsInvalid | src/App.jsx:92-94 | a date without two dashes or a time without a colon leaves a piece undefined and gives an Invalid Date |
| Platforms.Toggle | src/App.jsx:77-83 | the platform is in the result exactly when it was not selected; every other platform is in the result exactly when it was selected |
| Platforms.ToggleAbsent | src/App.jsx:77-83 | an unselected platform is appended at the end and the earlier entries are unchanged |
| Platforms.TogglePresent | src/App.jsx:79-80 | a selected platform loses every occurrence, every other platform keeps its count, and the rest keep their order |
| Platforms.ToggleKeepsNoDuplicates | src/App.jsx:77-83 | a selection without duplicates stays without duplicates |
| Platforms.ToggleTwiceRestores | src/App.jsx:77-83 | toggling an unselected platform twice restores the selection |
| Platforms.PlatformIcon | src/App.jsx:222-230 | the four known platforms get their icon classes; any other id gets "fas fa-globe" |
| Platforms.PlatformName | src/App.jsx:232-240 | the four known platforms get their display names; any other id is shown as itself |
| Posts.AlertMessage | src/App.jsx:86-98 | missing fields alert "Please fill all fields", a past instant alerts "Cannot schedule posts in the past", and an Invalid Date alerts nothing |
| Posts.Validate | src/App.jsx:85-99 | refused as missing fields exactly when title, content, date or time is empty or no platform is selected; with every field filled in, accepted exactly when the instant built from the inputs is valid and not earlier than now (and then with that instant), and refused as invalid exactly when that instant is NaN |
| Posts.ValidatePastIff | src/App.jsx:92-98 | with all fields filled in, refused as past exactly when the instant is a valid time earlier than now |
| Posts.ValidateAcceptsNow | src/App.jsx:96 | an instant equal to now is accepted |
| Posts.ValidateWellFormed | src/App.jsx:92-98 | for well-formed inputs in range, refused as past exactly when the local calendar time minus the offset is earlier than now, and otherwise accepted with that instant |
| Posts.ValidateMalformedDate | src/App.jsx:92-105 | a filled-in date without two dashes ends in the RangeError of `toISOString` |
| Posts.Submit | src/App.jsx:85-111 | a post is produced exactly when validation accepts; it carries the given id and creation time, the draft's title, content, platforms and image, and the accepted instant, which is not before now |
| Posts.WithoutId | src/App.jsx:427 | no post in the result has the id, every post in it comes from the list, and every post with another id is kept |
| Posts.DeleteKeepsOthers | src/App.jsx:426-427 | after deleting, no post has the id, every post with another id keeps its count, and their order is unchanged |
| Posts.DeleteAbsent | src/App.jsx:426-427 | deleting an id no post has leaves the list unchanged |
| Posts.DeleteIdempotent | src/App.jsx:426-427 | deleting an id twice equals deleting it once |
| Posts.FindById | src/App.jsx:444 | nothing is found exactly when no post has the id; otherwise the result is the first post with that id |
| Posts.FindAfterDelete | src/App.jsx:426-444 | after deleting an id, looking it up finds nothing |
| Posts.FindAfterAdd | src/App.jsx:418-444 | after appending, the new post is found by its id unless an earlier post has that id, which is then found instead |
| Posts.FindShadows | src/App.jsx:444 | of two posts with one id, the one listed first is found, so the other never is |
| Posts.SortBySchedule | src/App.jsx:256-261 | the listing is ascending by scheduled instant, holds the same posts, and keeps posts with equal instants in their prior order |
| Posts.SortByScheduleFixes | src/App.jsx:256-261 | a list already in schedule order is left as it is |
| Posts.SortByScheduleIdempotent | src/App.jsx:256-261 | sorting the sorted list again changes nothing, so a second render keeps the order |
| Posts.AddToListing | src/App.jsx:418-419 | sorting a listed list with a new post appended inserts the post after every post scheduled no later |
| Posts.DeleteFromListing | src/App.jsx:426-427 | deleting from a listed list leaves the remaining posts in schedule order, so the next sort keeps them as they are |
| Posts.ListingExample | src/App.jsx:256-261 | a post scheduled a day after another is listed after it |
| Form.PostForm.constructor | src/App.jsx:57-63 | a fresh form is empty, has no platform and no image, and shows the default date and time |
| Form.PostForm.TogglePlatform | src/App.jsx:77-83 | the selection becomes the toggled selection, nothing else changes, and it stays free of duplicates and within the offered platforms |
| Form.PostForm.Submit | src/App.jsx:85-118 | returns the submission's outcome for the current fields and the alert shown for a rejection; on acceptance every field is reset, on rejection nothing changes |
| Scheduler.App.constructor | src/App.jsx:383-387 | the App starts with no posts, the home view, no selection, no toast, and the empty list written to the store |
| Scheduler.App.LoadPosts | src/App.jsx:390-416 | a stored list replaces the posts, is sorted by the render when the home screen is shown, and is written back as rendered; without one nothing changes |
| Scheduler.App.AddPost | src/App.jsx:418-424 | called on the home screen only; the list becomes the old list plus the post as the render sorts it, which is the post inserted after every post scheduled no later; the store receives that list, and the success toast is shown |
| Scheduler.App.DeletePost | src/App.jsx:426-432 | called on the home screen only; the list becomes the old list without the posts with that id, with the rest in their order, as the render leaves it; the store receives that list, and the deletion toast is shown, whether or not a post had the id |
| Scheduler.App.ViewPostDetails | src/App.jsx:434-437 | called from the home screen's list; the view becomes details with the given id selected, for any id; posts, store and toast are unchanged |
| Scheduler.App.GoHome | src/App.jsx:439-442 | called from the details screen; the view becomes home with nothing selected; the render sorts the list in place, store and toast are unchanged, and a new empty form with the given default date and time is returned |
| Scheduler.App.CloseToast | src/App.jsx:465-471 | called while the home screen shows a toast; the toast is cleared, the render's sort leaves the already ordered list as it was, and nothing else changes |
| Scheduler.App.SelectedPost | src/App.jsx:444 | a selected post has the selected id and is in the list; none is found exactly when nothing is selected or no post has the id |
| Scheduler.App.CurrentScreen | src/App.jsx:448-474 | the home view shows the home screen listing the posts in state order; the details view shows the selected post, or "Post not found" when there is none |
| Scheduler.App.Render | src/App.jsx:254-261 | the home screen's render replaces the state list by its sorted order; the details screen's leaves it; store, toast and view are unchanged |
| Scheduler.SubmitDraft | src/App.jsx:85-118 | on the home screen, an accepted draft adds exactly its post to the list as the render orders it (inserted after every post scheduled no later), stores that list, shows the success toast, keeps the view and selection, and resets the form to empty fields and the new default date and time; a refused one changes neither the form nor the App and returns the rejection's alert |
| Scheduler.AfterRender | src/App.jsx:254-261 | a render keeps the same posts; on the home screen they end in schedule order, on the details screen in the order they had |
| Scheduler.AddStep | src/App.jsx:256-261 | on the home screen, the render after adding inserts the new post into the ordered list |
| Scheduler.DeleteStep | src/App.jsx:256-261 | on the home screen, the render after deleting leaves the remaining posts as they are |
| Scheduler.InsertExample | src/App.jsx:256-261 | a post scheduled a day before the only listed post is inserted in front of it |
| Scheduler.StoredOrderExample | src/App.jsx:405-424 | adding A and then B, scheduled a day before A, stores B before A |
| Scheduler.DuplicateIdExample | src/App.jsx:418-444 | adding A and then B with the same id and a day earlier, the details view for that id shows B |

## Left out

- JSX rendering, CSS classes and the empty-list message: presentation only.
- Image upload through `FileReader` (src/App.jsx:7-22): browser I/O. The image is an opaque optional string.
- The `onChange` setters of the form inputs: each replaces one field, and the fields of `Form.PostForm` are assigned directly.
- `getDefaultDate` and `getDefaultTime` (src/App.jsx:65-75): they read the clock and time zone, so their results are inputs.
- The post id `Math.random().toString(36).slice(2, 9)` (src/App.jsx:102): random, so it is an input.
- `toISOString()` text and `toLocaleString()` display: a post stores the time value itself. Parsing the ISO text back gives the same value.
- Persistence (src/App.jsx:390-416): `window.storage`, `JSON.stringify`/`JSON.parse` and their failures are foreign calls. The store is the snapshot `savedPosts`; a failed read is `LoadPosts(None)`.
- The asynchronous order of the first load against later edits: `LoadPosts` replaces whatever the list holds when it runs, as the code does.
- The toast's three-second timer (src/App.jsx:370-380): timer-driven. Its effect is `CloseToast`.
- React's hooks and batching: each handler is one method, covering the state update, the render that follows and the save effect after it.
- JsDate.Utc: the local time zone adjustment is a fixed offset, so daylight-saving changes are not modelled.
- JsDate.StringToNumber: only decimal digit strings (and "") are numbers; JavaScript also accepts whitespace, signs, fractions, exponents and hex. The date and time inputs only produce digit pieces.
- JsDate.MakeDay: integers are exact, unlike Numbers above 2^53. Such values are already outside the time value range, so `TimeClip` makes them NaN in both. The standard's "not possible" case of MakeDay is not modelled separately; those values are out of range too.
- Platforms.PlatformIcon: a lookup in a JavaScript object literal also finds inherited names such as "toString". The model treats those ids as unknown, like every id other than the four platforms.
- Platforms.PlatformName: the same inherited-name lookup is treated as an unknown id.
- Posts.SortBySchedule: posts loaded from the store are assumed to hold valid instants; a stored text that parses to an Invalid Date would make the comparator return NaN, which is not modelled.
- Form.PostForm: showing the details screen does not retire the form object, so the model keeps its draft, where the source discards it by unmounting the form; the form to use afterwards is the new one `Scheduler.App.GoHome` returns, but nothing stops a caller from using the old one.
