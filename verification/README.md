# Ticket model of trudesk

This project models trudesk's ticket aggregate, `src/models/ticket.js`, in Dafny. The aggregate is a mongoose schema with three parts:

- a pre-save hook that draws a display number (`uid`) from a counter;
- instance mutators that change a loaded ticket document and append an audit entry to its `history`;
- statics that list, look up, count and soft-delete tickets in the `tickets` collection.

The model has these layers:

- `TicketData` holds the stored document (`TicketRecord`), its comments and audit entries, and the error values the callbacks receive.
- `Mutators` gives each mutator and the uid allocation as a pure function on a document (`Apply`, `AllocateUid`). It also has lemmas about call sequences (`Replay`, `Log`).
- `TicketAggregate.Ticket` is the loaded document as an object with mutable fields. Each mutator is a method that assigns fields and appends to `history`. Each method is proved against `Mutators.Apply` through the predicate `Committed`.
- `Queries`, `Sorting` and `Reports` model the statics as functions over the collection, which is a sequence of records in store order:
  - `find` is a filter;
  - `sort({status: 1})` is a stable insertion sort;
  - `limit(100)` takes the first page;
  - `count` is the length of a filter.
- `Lifecycle.TicketStore` is the collection as an object. Its `SoftDelete` method updates the records in place, as `findOneAndUpdate` does.
- `Calendar` and `JsValues` give the JavaScript `Date` arithmetic and the `Number(...)` coercion that the count statics depend on.

Some of the code's behaviour is easy to misread. The model follows the code on these points:

- `getTickets([])` is accepted and returns an empty list. Only an undefined or non-array argument is refused.
- `getTicketsByStatus` does not check that its group argument is an array. A single id is taken as a one-element `$in` list.
- The month and year windows, like the day windows, include both bounds (`$lte`/`$gte`). A ticket created exactly at the first instant of a month is therefore counted in that month and in the month before.
- `getYearCount` counts the single instant January 1 of the next year, not the whole year; see Findings.
- `setStatus` with the string "3" stores status 3 but leaves `closedDate` empty; see Findings.
- A count whose window ends at a time a JavaScript `Date` cannot hold (beyond 8.64e15 ms from the epoch, the TimeClip bound in section 21.4.1.31 of the 2024 edition of ECMA-262) queries with an invalid `Date`, which the store refuses (`CastFailure`).
- `softDelete` of an id that matches no record is not an error: it hands back no document.
- `getTicketByUid`, `getTicketById` and `getComments` return an empty result, not an error, when nothing matches.

## Model

| member | source | states |
|---|---|---|
| Mutators.AllocateUid | src/models/ticket.js:49-58 | A document without a uid gets the counter's value and nothing else changes. A document with a uid is returned unchanged. The flag is true exactly when the counter was drawn on. |
| Mutators.SavingTwiceKeepsUid | src/models/ticket.js:49-58 | After one save every document has a uid, and a second save neither changes it nor draws on the counter. |
| TicketAggregate.Ticket.PreSave | src/models/ticket.js:49-58 | The hook's effect on the loaded document equals `AllocateUid`: the uid is set to the counter value only when it was absent. |
| Mutators.Apply | src/models/ticket.js:60-147 | Two calls fail with their own error: an undefined status and an undefined user id. Every other call appends exactly one entry, carrying the mutator's action tag, after an unchanged history. No field outside the mutator's own changes. Each mutator sets its field. setStatus makes `closedDate` present iff the status is 3 and stamps the call's instant. removeComment keeps exactly the comments with another id, in their order. The closedDate rule is preserved. |
| TicketAggregate.Ticket.SetStatus | src/models/ticket.js:60-77 | An undefined status is rejected and leaves the document as it was. Otherwise the status is set and `closedDate` is the current instant when the status is 3 and absent otherwise. One status entry is appended, and the result equals `Apply`. |
| TicketAggregate.Ticket.SetAssignee | src/models/ticket.js:79-90 | An undefined user id is rejected and leaves the document as it was. Otherwise the assignee is set, one assignee entry is appended, and the result equals `Apply`. |
| TicketAggregate.Ticket.ClearAssignee | src/models/ticket.js:92-100 | The assignee becomes absent, one assignee entry is appended, and the result equals `Apply`. |
| TicketAggregate.Ticket.SetTicketType | src/models/ticket.js:102-112 | The type reference becomes the given type's id. The entry names the type. The result equals `Apply`. |
| TicketAggregate.Ticket.SetTicketPriority | src/models/ticket.js:114-123 | The priority is set and one priority entry is appended. The result equals `Apply`. |
| TicketAggregate.Ticket.SetTicketGroup | src/models/ticket.js:125-135 | The group is set and one group entry is appended. The result equals `Apply`. |
| TicketAggregate.Ticket.RemoveComment | src/models/ticket.js:137-147 | A comment remains iff it was there and its id differs from the argument. One delete-comment entry is appended. The result equals `Apply`. |
| Mutators.RemoveCommentEffect | src/models/ticket.js:137-147 | removeComment never fails. It drops exactly as many comments as match the id, and it changes no comment when none matches. |
| Mutators.ReplayAppendsLog | src/models/ticket.js:60-147 | After any series of mutator calls, the history is the old history followed by one entry per accepted call, in call order. Rejected calls add nothing. |
| Mutators.LogLength | src/models/ticket.js:60-147 | A series of calls adds at most one audit entry per call. |
| Mutators.LogTags | src/models/ticket.js:60-147 | When no call is rejected, there is exactly one entry per call, and entry i carries the action tag of call i. |
| Mutators.ReplayKeepsClosedDateConsistent | src/models/ticket.js:60-77 | No series of mutator calls breaks the rule that `closedDate` is present iff the status is 3. |
| Mutators.SetStatusAsWritten | src/models/ticket.js:60-77 | An undefined status and a string the schema cannot cast are errors. A number acts as `Apply`. Otherwise the stored status is the argument's numeric value, `closedDate` is present exactly when the argument is the number 3, one status entry is appended, and no other field changes. |
| Mutators.SetStatusStringLeavesClosedDateEmpty | src/models/ticket.js:63-69 | The string "3" stores status 3 without a closing date, breaking the closedDate rule. |
| Mutators.SetStatusCorrected | src/models/ticket.js:60-77 | The same errors; otherwise the stored status is the argument's numeric value and `closedDate` is the call's instant exactly when that value is 3, so the closedDate rule holds. |
| Mutators.SetStatusCorrectedAgrees | src/models/ticket.js:60-77 | The corrected call equals the one as written on numbers, and an integer's decimal string acts as the integer. |
| Mutators.ReclosingRefreshesClosedDate | src/models/ticket.js:63-67 | Closing, reopening and closing again leaves `closedDate` at the last closing instant, with three entries added. |
| Seqs.Filter | src/models/ticket.js:138 | Every element of the result passes the test and comes from the input. Every input element that passes is kept. The result is a sub-multiset of the input and no longer than it. |
| Seqs.FilterAppend | src/models/ticket.js:138 | Filtering a concatenation is the concatenation of the filtered parts, so the filter keeps the input order. |
| Sorting.SortByStatus | src/models/ticket.js:155 | The result is sorted by ascending status and is a permutation of the input. |
| Sorting.SortKeepsTies | src/models/ticket.js:155 | The sort is stable: for every status, the records with that status appear in their original order. |
| Sorting.SortOfOneStatus | src/models/ticket.js:190 | Sorting records that all share one status changes nothing. |
| Sorting.FirstPage | src/models/ticket.js:174-175 | The page is sorted and holds min(n, 100) of the matches. It is a sub-multiset of them, and all of them when there are at most 100. No match left off has a lower status than a record on the page. |
| Queries.GetAll | src/models/ticket.js:149-158 | Lists only live (not deleted) records and every live record, sorted by status, as a sub-multiset of the collection. |
| Queries.Page | src/models/ticket.js:169-175 | The page holds at most 100 stored records that pass the filter, sorted by status. It is a sub-multiset of the matches, so no record appears more often than it is stored. It holds all of them when there are at most 100, and exactly 100 otherwise. No match left off has a lower status than a record on the page. |
| Queries.GetTickets | src/models/ticket.js:160-178 | An undefined argument and a non-array argument each give their own error. A list gives at most 100 live tickets of those groups, sorted by status, as a sub-multiset of the collection. The empty list gives no tickets. |
| Queries.GetTicketsCompleteUpToLimit | src/models/ticket.js:169-175 | Every live ticket of the listed groups is on the page unless the page is full at 100. |
| Queries.GetTicketsByStatus | src/models/ticket.js:180-194 | Only an undefined group argument is an error. Otherwise the result is the first 100 matching live tickets in store order, because sorting one status moves nothing. A single id acts as a one-element list. |
| Queries.GetTicketByUid | src/models/ticket.js:196-206 | An undefined uid is an error. A found ticket is stored, live and has that uid. No ticket is found only when no live record has that uid. |
| Queries.GetTicketById | src/models/ticket.js:208-218 | An undefined id is an error. A found ticket is stored, live and has that id. Nothing is found only when no live record has the id. |
| Queries.GetTicketByIdFindsStored | src/models/ticket.js:208-218 | With unique ids, looking up a stored record's id returns that record when it is live and nothing when it is deleted. |
| Queries.GetComments | src/models/ticket.js:232-239 | Same lookup as getTicketById, with its own error for an undefined id. |
| Queries.GetAssigned | src/models/ticket.js:220-230 | An undefined user is an error. Otherwise returns exactly the live records assigned to the user whose status is not 3, as a sub-multiset of the collection. |
| Reports.GetTotalCount | src/models/ticket.js:241-245 | The count equals the length of getAll's listing and is at most the collection size. |
| Reports.CountAtMostTotal | src/models/ticket.js:241-245 | Any count whose filter excludes deleted tickets is at most the total count. |
| Reports.GetStatusCount | src/models/ticket.js:247-253 | An undefined status is an error. Otherwise the count is at most the total count. |
| Reports.StatusCountAddsTicket | src/models/ticket.js:247-253 | Adding a ticket raises the status count by one exactly when the ticket is live and has that status. |
| Reports.DayWindow | src/models/ticket.js:259-261 | The window ends at the given instant and starts exactly one day earlier. |
| Reports.GetStatusCountByDate | src/models/ticket.js:255-269 | Undefined status and undefined date are errors, checked in that order. A day window that a `Date` cannot hold is a cast failure, and only then. The count is at most the status count. |
| Reports.StatusCountByDateAddsTicket | src/models/ticket.js:259-266 | A ticket is counted exactly when it is live, has the status, and its creation date lies in [date - 1 day, date] with both ends included. For status 3 the closing date is used instead. |
| Reports.GetDateCount | src/models/ticket.js:271-281 | An undefined date is an error. A day window that a `Date` cannot hold is a cast failure, and only then. Otherwise the count is at most the total count. |
| Reports.DateCountAddsTicket | src/models/ticket.js:274-278 | A ticket is counted exactly when it is live and created in [date - 1 day, date], both ends included. |
| Reports.ConsecutiveDayCountsOverlap | src/models/ticket.js:274-278 | The counts of two consecutive days add up to the two-day count plus the tickets created exactly at the shared boundary. |
| Calendar.YearLength | src/models/ticket.js:313-315 | A year is 366 days when leap and 365 otherwise. |
| Calendar.MonthLength | src/models/ticket.js:289-290 | A month, after normalisation, lasts 28 to 31 days. |
| Calendar.NextMonthOfNormalised | src/models/ticket.js:289-290 | Moving the normalised first-of-month on by one month gives the first of the month after the requested one, for any month number. |
| Calendar.MonthStartsIncrease | src/models/ticket.js:289-290 | Month starts strictly increase with the month number. |
| JsValues.NumberOfStringRoundTrip | src/models/ticket.js:286 | `Number` of an integer's decimal string gives the integer back. |
| JsValues.StringToNumber | src/models/ticket.js:286 | The empty string converts to 0. A string is a number exactly when it is decimal digits, optionally after one sign `-` or `+`; every other string is NaN. That includes a non-digit after the first character or a first character that is neither a digit nor a sign. This is narrower than `Number`; see Left out. A negative result comes from a string that starts with `-`. |
| JsValues.DecimalStringsConvert | src/models/ticket.js:286 | Every integer's decimal string converts back to that integer. |
| JsValues.ToNumber | src/models/ticket.js:286 | A number converts to itself; a string of an integer's decimal digits converts to that integer; the empty string converts to 0. |
| Calendar.FullYear | src/models/ticket.js:289 | The full year is never in 0..99, keeps the last two digits of the given year, and is never smaller than it. |
| Calendar.FullYearIdempotent | src/models/ticket.js:315 | Applying the two-digit rule again changes nothing, so `setYear` of a full year keeps it. |
| Calendar.NewDate | src/models/ticket.js:289 | `new Date(y, m, 1)` is a whole number of days from the epoch and is the first instant of month `m mod 12` of the full year plus `m div 12`. |
| Reports.MonthWindow | src/models/ticket.js:288-290 | The window runs from the first instant of the month in the current year to the first instant of the next month, which is 28 to 31 days later. |
| Reports.MonthFilter | src/models/ticket.js:294-303 | A ticket passes exactly when it is live and, for status 3, closed with a closing date in the window; otherwise it was created in the window and has the status, unless the status is 0 or absent. |
| Reports.GetMonthCount | src/models/ticket.js:283-306 | An undefined month is an error. A month or status that converts to NaN, or a month window that a `Date` cannot hold, is a cast failure, and nothing else is. Otherwise the count is at most the total count. |
| Reports.MonthCountAddsTicket | src/models/ticket.js:292-303 | A ticket is counted exactly when it is live and one of these holds: for status 3, it has status 3 and a closing date in the month window; otherwise, it was created in the window and has the status, unless the status is 0 or undefined. |
| Reports.MonthFilterAddsTicket | src/models/ticket.js:294-303 | The same characterisation for any window [lo, hi]. |
| Reports.MonthCountStatusZeroMeansAny | src/models/ticket.js:295-297 | Status 0, "" and "0" count exactly as an undefined status does. |
| Reports.MonthCountOfStrings | src/models/ticket.js:286-295 | Passing month and status as decimal strings counts the same as passing the numbers. |
| Reports.ConsecutiveMonthCountsOverlap | src/models/ticket.js:289-292 | Two consecutive month counts add up to the two-month count plus the tickets created exactly at the shared month boundary. |
| Reports.AliasedYearInstant | src/models/ticket.js:313-315 | The instant is January 1 of the year after the full year; for year -1 it is January 1, 1900, because `setYear(0)` reads 0 as 1900. |
| Reports.YearStatus | src/models/ticket.js:319 | Only a number status filters, and by its own numeric value; a string or an undefined status does not filter. |
| Reports.GetYearCount | src/models/ticket.js:308-324 | An undefined year is an error. A year that converts to NaN, or whose `Date` cannot hold the start or the moved date, is a cast failure, and nothing else is. Otherwise the count is at most the total count. |
| Reports.YearCountAddsTicket | src/models/ticket.js:313-321 | As written, a ticket is counted exactly when it is live and created at the single instant January 1 of the following year. The status must also match, but only when the status is a number. |
| Reports.YearWindow | src/models/ticket.js:313-315 | The intended window starts on January 1 of the year and lasts 365 or 366 days. |
| Reports.GetYearCountCorrected | src/models/ticket.js:308-324 | The same errors as getYearCount, with the cast failure for a window a `Date` cannot hold. The count is at most the total count. |
| Reports.YearCountCorrectedAddsTicket | src/models/ticket.js:313-321 | A ticket is counted exactly when it is live and created during the year, both ends included, with the numeric status when one is given. |
| Reports.AliasedInstantIsYearEnd | src/models/ticket.js:313-317 | For every year but -1, the one instant getYearCount checks is the end of the intended window. Both counts fail or succeed together, and the as-written count never exceeds the corrected one. |
| Reports.YearCountOfOneTicket | src/models/ticket.js:313-317 | A lone ticket created inside the year but before its last instant gives a count of 0 as written and 1 when corrected. |
| Reports.YearCountMissesItsOwnYear | src/models/ticket.js:313-317 | A ticket created on June 1 of the requested year is not counted by getYearCount, while the corrected count includes it. |
| Lifecycle.SoftDeleted | src/models/ticket.js:329 | Every record keeps its id and position. The first record with the given id becomes that record with `deleted` set, and the collection is unchanged when no record has the id. |
| Lifecycle.SoftDeleteFlagsOnlyThatId | src/models/ticket.js:329 | With unique ids, exactly the record with that id is flagged and every other record is untouched. |
| Lifecycle.SoftDeleteIdempotent | src/models/ticket.js:329 | Deleting the same id twice leaves the collection as one deletion does. |
| Lifecycle.SoftDeleteKeepsUniqueIds | src/models/ticket.js:329 | Soft deletion keeps ids unique. |
| Lifecycle.SoftDeleteHidesTicket | src/models/ticket.js:326-330 | After deleting an id, getTicketById finds nothing for it and getAll lists no ticket with it. |
| Lifecycle.SoftDeleteTotalCount | src/models/ticket.js:326-330 | Deleting an id lowers getTotalCount by one exactly when a live record had that id, and otherwise leaves it unchanged. |
| Lifecycle.TicketStore.SoftDelete | src/models/ticket.js:326-330 | An undefined id is an error and changes nothing. Otherwise the collection becomes `SoftDeleted` of the old one, the returned document is the matching record as it was before the update (or none), and ids stay unique. |

## Left out

- Reference expansion (`populate`, `deepPopulate`) is not modelled. References stay ids, so a listing returns stored records rather than expanded ones.
- Query execution is not modelled: `exec`, callbacks and their asynchrony, store transport errors, and concurrent writers. Each static is a function of the collection at one moment.
- The counter collection behind the pre-save hook is not part of this model. Its next value is a parameter of `PreSave`/`AllocateUid`, and the hook's ignored counter error is not modelled.
- The clock is a parameter: `now` in `SetStatus` and the current year in `GetMonthCount`.
- Dates have no time zone: local time is taken as UTC, a day is exactly 24 hours, and there is no daylight-saving shift.
- `GetStatusCountByDate`, `GetDateCount`: the `date` argument is taken as an instant already. Parsing of strings by `new Date(date)` is not modelled. An instant outside the range a `Date` holds is the only invalid date modelled.
- Audit descriptions are kept as data (`Description`), not as the concatenated English strings. The history entry's timestamp and owner come from the history schema, which is not part of this model.
- JsValues.ToNumber: `Number(...)` is modelled for integers, the empty string and optionally signed decimal digit strings. `null` and booleans are not modelled. Fractional months and years are not representable.
- JsValues.StringToNumber: strings that `Number` reads as numbers but that are not optionally signed digit strings are read as NaN. Examples are surrounding whitespace (" 3", "12 "), fractions ("1.5"), exponents ("1e3") and hexadecimal ("0x10"). For such arguments `GetMonthCount`, `GetYearCount`, `GetYearCountCorrected` and `Mutators.SetStatusAsWritten` report `CastFailure`, where the source goes on to count or to store the status.
- Arguments other than `undefined` or a value of the modelled type are not modelled: the type, priority and group mutators receive a number or id, and query filters receive their field's type. A `null` uid or status is not modelled either.
- Mutators.SetStatusAsWritten: a string the schema cannot cast is reported as `CastFailure` at the call. In mongoose the call succeeds and the save then fails. The empty string casts to `null`, which the required status field refuses.
- Queries.GetTicketsByStatus: the status is a number. An undefined status is not modelled: the source passes it unchecked into the `find` filter at src/models/ticket.js:185, and what the store then matches depends on how the driver serialises `undefined`.
- The document's schema validation at save time and the `updated` field are not modelled. No operation of this file writes `updated`.
- `removeComment`'s loose `==` between a comment's ObjectId and the argument is modelled as id equality.
- Mongoose behaviour is assumed, not modelled:
  - `$in` with a single id matches that id;
  - a `NaN` filter value or an invalid `Date` in a filter is a cast failure (`CastFailure`);
  - `findOneAndUpdate` updates the first matching record and hands back its state before the update.
- Sorting.FirstPage: equal-status order comes from the insertion sort's stability. MongoDB does not promise a stable order for equal sort keys.

## Findings

| source | as written | input that shows it | evidently intended | confidence | as-written member | corrected member |
|---|---|---|---|---|---|---|
| src/models/ticket.js:313-317 | `endDate` is the same `Date` object as `date`, so `setYear(getFullYear() + 1)` moves both bounds to January 1 of the next year and the window is one instant | `getYearCount(2015)` with one live ticket created 2015-06-01: count 0 | count the tickets created from January 1 of the year to January 1 of the next year | high, not executed | Reports.YearCountMissesItsOwnYear | Reports.GetYearCountCorrected |
| src/models/ticket.js:63-69 | `closedDate` is set by the strict test `status === 3`, while `this.status = status` stores the schema's numeric cast of the argument | `setStatus("3")` on an open ticket: status 3, no `closedDate` | set `closedDate` exactly when the stored status is 3 | medium, not executed | Mutators.SetStatusStringLeavesClosedDateEmpty | Mutators.SetStatusCorrected |
