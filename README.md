# Booking engine model

A Dafny model of `BookingService` in src/lib/booking-logic.ts. This is the booking engine behind a chat
assistant for appointment-based businesses. The model runs `BookingService` against an in-memory store
instead of the Supabase database, and it also covers `formatBusinessHours` from src/lib/chat-handler.ts,
which renders a business's weekly hours for the assistant's prompt.

The store is the class `Booking.BookingService`. It holds the `appointments` and `clients` tables as
sequences of rows, plus two counters that stand in for the ids the database generates. Its methods are
the engine's operations:

- `GetAvailableSlots` and the loop `CollectSlots`: look up the weekday's hours, give nothing on a
  `"closed"` day, then step hour by hour from the opening time while the start is before closing time.
  Each start is formatted `"HH:MM"`, tested against the time-of-day preference, then against
  availability.
- `BookAppointment`: refuse a taken slot. Otherwise call `GetOrCreateClient`, insert a scheduled
  60-minute row (`InsertAppointment`), and refresh the client's statistics (`UpdateClientStats`).
- `CancelAppointment`: pick a row by id, or the client's soonest upcoming row. Mark it cancelled with the
  fixed reason, then refresh the statistics of that row's client.

Each method's postcondition gives its result and the new tables as a function of the old ones. The
lemmas beside those functions state what the source promises:

- no slot is ever double-booked;
- cancelled rows never block a slot;
- a closed day has no slots;
- slots ascend, are formatted zero-padded, pass both tests, and every start that passes both tests is
  offered;
- statistics count the client's non-cancelled rows and record their latest date;
- cancellation changes exactly one row and frees its slot.

`FindClientAppointments` is a query and is modelled as a function.

Modules:

- `Wrappers`: `Option`, `Result`.
- `Strings`: the JavaScript string built-ins the engine uses, on decimal digits. These are `toString`,
  `padStart(2, '0')`, `parseInt`, `Number`, `split` on one character, and `join`.
- `Hours`: the weekday key, the `"H:MM-H:MM"` hours string, the candidate starts, the slot format and the
  preference windows.
- `Rows`: the appointment and client rows. A Supabase filter chain becomes a `Query`, and `Select` returns
  the rows that meet it in table order. Also here: date ordering, the latest date, the client lookup
  `.single()`, and the table invariants.
- `Booking`: the specification functions, the lemmas, and the class `BookingService`.
- `ChatHandler`: `formatBusinessHours`.

Inputs that come from the environment become parameters:

- the weekday of the requested date;
- `today` (the ISO date of `new Date()`);
- `now` (the cancellation time stamp).

Dates are day numbers and times are the `"HH:MM"` text that rows store.

Where the code and its description differ, the model follows the code:

- A start is offered when it is before closing time (`currentHour < closeHour || ...`, line 81). A
  60-minute slot may therefore run past closing time.
- Cancellation by email orders by date only.
- Cancellation with an id ignores the email and today's date.
- `updateClientStats` writes nothing when the client has no non-cancelled rows left, so stale statistics
  stay.
- An empty phone string counts as "no phone" (JavaScript truthiness).
- `findClientAppointments` does not filter the client's rows by business.

## Model

| member | source | states |
|---|---|---|
| Strings.DecimalRoundTrip | src/lib/booking-logic.ts:82 | the digits `toString` writes for an hour or minute read back as that number |
| Strings.Pad2RoundTrip | src/lib/booking-logic.ts:82 | `padStart(2, '0')` of a number's digits still denotes that number |
| Hours.ParseHoursNeedsDash | src/lib/booking-logic.ts:72-74 | hours text without a `-` has no closing time and is refused |
| Hours.ParseTimeNeedsColon | src/lib/booking-logic.ts:73-74 | a time without a `:` has no minute and is refused |
| Hours.ParseHoursOfDigits | src/lib/booking-logic.ts:72-74 | an hours entry `"a:b-c:d"`, with four digit groups, parses to opening time a:b and closing time c:d |
| Hours.ParseFormatHours | src/lib/booking-logic.ts:72-74 | parsing the hours text of any opening and closing time gives back those two times |
| Hours.NineToFiveHours | src/lib/booking-logic.ts:72-74 | `"9:00-17:00"` opens at 9:00 and closes at 17:00 |
| Hours.HourOfFormatTime | src/lib/booking-logic.ts:107 | `parseInt(slot.split(':')[0])` on a generated slot gives back the hour it was made from |
| Hours.FormatTimeShape | src/lib/booking-logic.ts:82 | a start below hour 100 is rendered as two digits, a colon and two digits, zero-padded, denoting its hour and minute |
| Hours.MatchesTimePreference | src/lib/booking-logic.ts:101-119 | no preference or `any` accepts every slot; a slot whose hour does not parse is accepted by nothing else; a slot accepted by a part of the day has an hour in 6..20 |
| Hours.PreferenceWindows | src/lib/booking-logic.ts:101-119 | no preference or `any` accepts every slot; `morning` accepts exactly the hours 6..11, `afternoon` 12..16, `evening` 17..20 |
| Hours.CandidateHours | src/lib/booking-logic.ts:78-81 | the starts the loop visits are the opening hour plus 0, 1, 2, ...; an hour from the opening hour on is among them exactly when its start is before closing time |
| Hours.CandidatesBeforeClose | src/lib/booking-logic.ts:78-94 | every candidate start is before closing time; the candidates ascend strictly, one hour apart |
| Hours.NineToFiveSlots | src/lib/booking-logic.ts:72-95 | for `"9:00-17:00"` the candidates are the eight slots `09:00` to `16:00` |
| Rows.SelectMembers | src/lib/booking-logic.ts:17-23 | a filter chain returns exactly the rows that meet every filter, none more often than the table holds it |
| Rows.SelectEmpty | src/lib/booking-logic.ts:17-30 | a query returns nothing exactly when no row meets it |
| Rows.IsTimeSlotAvailable | src/lib/booking-logic.ts:17-30 | a slot is free iff no row of that business, date and time has a status other than cancelled |
| Rows.CancelledRowsDoNotBlock | src/lib/booking-logic.ts:23 | adding cancelled rows never changes whether a slot is free |
| Rows.AtMostOneOccupant | src/lib/booking-logic.ts:17-30 | when no slot is double-booked, the availability query returns at most one row |
| Rows.InsertKeepsNoDoubleBooking | src/lib/booking-logic.ts:136-175 | inserting a row into a free slot keeps "no two non-cancelled rows share (business, date, time)" |
| Rows.InsertTakesSlot | src/lib/booking-logic.ts:164-175 | once a non-cancelled row is inserted, its slot is no longer free |
| Rows.InsertByDatePerm | src/lib/booking-logic.ts:327 | inserting into the date order adds exactly that row |
| Rows.InsertByDateSorted | src/lib/booking-logic.ts:327 | inserting into a date-ordered sequence keeps it ordered |
| Rows.SortByDate | src/lib/booking-logic.ts:327 | `.order('date', { ascending: true })` returns as many rows as it is given, ascending by date |
| Rows.SortByDateCorrect | src/lib/booking-logic.ts:327 | the date order is a permutation of its input |
| Rows.FirstOfSortedIsEarliest | src/lib/booking-logic.ts:327-340 | the first row of the date order is one of the rows, with the smallest date |
| Rows.MaxDate | src/lib/booking-logic.ts:272-279 | the date of the first row of the descending order is one of the dates and no date is larger |
| Rows.ClientMatchesSpec | src/lib/booking-logic.ts:213-218 | the client filter finds exactly the rows with that business and email, each once, in table order |
| Rows.UniqueKeysMatchOnce | src/lib/booking-logic.ts:213-218 | when (business, email) identifies a client, the filter matches at most one row |
| Rows.FindClient | src/lib/booking-logic.ts:213-220 | a client found is a row of the table with the requested business and email |
| Rows.FindClientSpec | src/lib/booking-logic.ts:213-220 | under that invariant `.single()` finds nothing iff no client has (business, email), and otherwise finds that client |
| Rows.SameKeysMatchAlike | src/lib/booking-logic.ts:223-231 | updates that keep every row's id, business and email do not change which row the lookup finds |
| Booking.Kept | src/lib/booking-logic.ts:81-95 | the loop keeps no more hours than its range holds, and none of an empty range |
| Booking.KeptMembers | src/lib/booking-logic.ts:81-95 | the loop keeps exactly the hours of its range that pass the test |
| Booking.KeptAscending | src/lib/booking-logic.ts:81-95 | the kept hours ascend strictly |
| Booking.BeforeCloseIsBelowEnd | src/lib/booking-logic.ts:81 | the loop condition holds for the start at hour h exactly when h is below the loop's end hour |
| Booking.KeptCandidatesSpec | src/lib/booking-logic.ts:81-95 | the kept hours ascend and are no more than the candidates; each is from the opening hour on, before closing time and passes both tests; every such hour that passes both is kept |
| Booking.ClosedDayHasNoSlots | src/lib/booking-logic.ts:65-69 | a day whose hours entry is `"closed"` has no slots, whatever the preference and the rows |
| Booking.AvailableSlots | src/lib/booking-logic.ts:65-95 | refuses with "malformed hours" exactly when the weekday has no entry or an entry other than `"closed"` that does not parse |
| Booking.AvailableSlotsSpec | src/lib/booking-logic.ts:72-95 | on an open day every slot is a start before closing time, formatted with the opening minute, matching the preference and free; the slots ascend by hour and are no more than the candidates; every start passing both tests is offered |
| Booking.BookingService.GetAvailableSlots | src/lib/booking-logic.ts:65-97 | returns the slots of the specification function for the current table; a closed day gives the empty list |
| Booking.BookingService.CollectSlots | src/lib/booking-logic.ts:77-97 | the hour-by-hour loop returns the formatted candidate starts that pass the preference and are free, in loop order |
| Booking.SetStats | src/lib/booking-logic.ts:275-281 | writing statistics keeps every client's id, business and email |
| Booking.WithStatsNoActiveRows | src/lib/booking-logic.ts:274 | with no non-cancelled row of the client, the statistics update writes nothing |
| Booking.WithStats | src/lib/booking-logic.ts:267-282 | the statistics update keeps every client's id, business and email, and changes no row of another client |
| Booking.WithStatsCurrent | src/lib/booking-logic.ts:267-281 | with a non-cancelled row, the client's count becomes the number of its non-cancelled rows and its last visit their latest date; no other field changes |
| Booking.BookingService.UpdateClientStats | src/lib/booking-logic.ts:261-283 | the clients table becomes the statistics update of the old one; the appointments and the invariants are kept |
| Booking.CancellationTarget | src/lib/booking-logic.ts:300-340 | a picked row is a non-cancelled row of the business; the only errors are "client not found", which arises exactly without an id and without a client, and "no upcoming appointments" |
| Booking.CancelByIdSpec | src/lib/booking-logic.ts:300-307 | with an id, a row is picked iff a non-cancelled row of the business has that id, whatever the email and date; otherwise "no upcoming appointments" |
| Booking.CancelByEmailSpec | src/lib/booking-logic.ts:309-340 | without an id: no client gives "client not found"; no non-cancelled row of the client and the business dated today or later gives "no upcoming appointments"; otherwise the picked row has the smallest date among them |
| Booking.MarkCancelled | src/lib/booking-logic.ts:343-352 | the update keeps the number of rows and every row's id and business, sets the rows with the id to cancelled and leaves every other row unchanged |
| Booking.MarkCancelledChangesOneRow | src/lib/booking-logic.ts:343-352 | with unique ids, the update cancels the picked row with the fixed reason and leaves every other row unchanged |
| Booking.MarkCancelledKeepsInvariant | src/lib/booking-logic.ts:343-352 | cancelling keeps "no double booking" and unique ids |
| Booking.CancelFreesSlot | src/lib/booking-logic.ts:343-352 | after the cancel the row's slot is free again, since under the invariant it was the only occupant |
| Booking.CancelShrinksSelect | src/lib/booking-logic.ts:343-352 | a query over non-cancelled rows returns one row fewer after a matching row is cancelled, and as many otherwise |
| Booking.CancellationSpec | src/lib/booking-logic.ts:343-364 | a cancel keeps the invariants, frees the slot, leaves the cancelled row in the table, and lowers the client's count of non-cancelled rows by one |
| Booking.BookingService.CancelAppointment | src/lib/booking-logic.ts:300-364 | returns the error of the target choice, changing nothing; or cancels the chosen row, returns it cancelled, and refreshes its client's statistics when it has a client |
| Booking.FindClientAppointments | src/lib/booking-logic.ts:395-427 | "client not found" exactly when no client has (business, email); otherwise the client's non-cancelled rows from today on, ascending by date, each as often as stored |
| Booking.SetContact | src/lib/booking-logic.ts:223-231 | overwriting phone and name keeps every client's id, business and email |
| Booking.FindAfterSetContact | src/lib/booking-logic.ts:222-233 | after overwriting a stored client's contact the invariants hold and the lookup returns the updated client |
| Booking.FindAfterInsert | src/lib/booking-logic.ts:239-257 | appending a client with a new (business, email) keeps the key invariant, and the lookup then finds it |
| Booking.ResolvedClient | src/lib/booking-logic.ts:212-257 | the client returned has the requested business and email, and keeps the id of the stored client when there is one |
| Booking.ResolvedTable | src/lib/booking-logic.ts:212-257 | the table keeps every row's id and gains one row, with the next id, exactly when no client was found |
| Booking.ResolveStoredSpec | src/lib/booking-logic.ts:212-236 | an existing client is reused with its id and position, and no row is added; a non-empty phone different from the stored one replaces phone and name together, and an equal, absent or empty phone leaves the client unchanged |
| Booking.ResolveNewSpec | src/lib/booking-logic.ts:238-257 | without a client, one row is appended with the next id, the given contact, no appointments and first visit today |
| Booking.BookingService.GetOrCreateClient | src/lib/booking-logic.ts:212-257 | returns the resolved client and leaves the resolved table; the counter moves only when a client is created |
| Booking.BookingSpec | src/lib/booking-logic.ts:135-186 | booking a free slot takes it and keeps "no double booking"; the lookup then finds the booked client, whose statistics count the new row |
| Booking.BookingService.InsertAppointment | src/lib/booking-logic.ts:164-175 | appends the row with the next id and keeps the store's invariants |
| Booking.BookingService.BookAppointment | src/lib/booking-logic.ts:135-191 | a taken slot gives "slot unavailable" and changes nothing; otherwise appends one scheduled 60-minute row for the resolved client and leaves the clients table with the row's statistics refreshed |
| ChatHandler.FormatBusinessHours | src/lib/chat-handler.ts:170-182 | the line starts with Monday's entry, whatever the map holds |
| ChatHandler.SplitJoin | src/lib/chat-handler.ts:181 | splitting a ", "-join of comma-free entries at the commas gives back the entries, each after the first preceded by a space |
| ChatHandler.FormatBusinessHoursSpec | src/lib/chat-handler.ts:170-182 | with comma-free values the line has seven entries, Monday to Sunday, `"<Day>: Closed"` for `"closed"` and `"<Day>: <value>"` otherwise |
| ChatHandler.OnlyWeekdayKeysMatter | src/lib/chat-handler.ts:172-176 | maps that agree on the seven weekday keys render the same line |

## Left out

- Supabase I/O becomes the in-memory class. This covers every `.from(...)` chain, the "client not
  configured" branches, and the fetch of the business row (lines 45-54). The business's weekly hours map
  is a parameter of `GetAvailableSlots`.
- Failed reads and writes and the `try`/`catch` branches are not modelled, because the in-memory store
  cannot fail. This includes "Failed to create client record", "Failed to create appointment", "Failed to
  cancel appointment" and "An unexpected error occurred".
- Concurrency is not modelled; the store is sequential. That includes the check-then-insert race between
  two bookings. "No double booking" is an invariant of sequential calls only.
- Dates, the clock and the locale are not modelled, because their results depend on the time zone.
  `new Date(...)`, `toLocaleDateString` and `toISOString` are replaced by parameters (weekday, `today`,
  `now`), and dates are day numbers instead of `YYYY-MM-DD` text.
- The weekday string chain (lines 58-63) is replaced by a weekday datatype. Its fallback to `sat` for an
  unmatched name cannot arise.
- Ids are numbers taken from counters, not database uuids. An empty `appointmentId` string, which is
  falsy in the source, corresponds to `None`.
- Booking.AvailableSlots: a weekday key missing from the hours map gives `MalformedHours`. So does hours
  text whose split on `-`, or either half's split on `:`, gives fewer than two parts, or in which one of
  the two parts read is not a non-empty digit string. Later parts are ignored, as in the source's
  destructuring (`"9:00-17:00-20:00"` opens at 9:00 and closes at 17:00). The source does not reject these cases
  uniformly. A missing key, or text without a `-`, throws when `split` reaches `undefined`. A closing
  time without a `:` leaves the closing minute `undefined`, which compares false at line 81 as `NaN`
  does, so `"9:00-17"` gives the free `09:00` to `16:00`. An opening time without a `:` leaves the
  opening minute `undefined`: line 82 throws once the loop body runs (`"9-17:00"`), and the loop does
  not run when the opening hour is past closing (`"17-9:00"` gives no slots). A
  `NaN` opening hour fails the loop condition at once and gives no slots. A `NaN` closing minute still
  runs the hours before the closing hour (`"9:00-17:xx"` gives the free `09:00` to `16:00`). A `NaN`
  opening minute renders every slot as `"HH:NaN"` and checks those strings against the store (lines
  81-87). The model refuses all of these instead. `Number`'s leniency is not modelled either (white
  space, signs, `""` as 0, hexadecimal, decimals such as `"9.5"`, exponents such as `"1e1"`), because every other string is refused.
- Strings.ParseInt: models `parseInt` only on strings that start with a digit. Generated slots always do.
- Hours.MatchesTimePreference: the preference datatype has exactly the four values, so the model has no
  `default` branch. The source reaches it when the availability route (src/app/api/availability/route.ts:10)
  passes an unchecked query string such as `night`; that branch accepts every slot. This is the same
  outcome as the model's `None`.
- Minutes and hours are not range-checked, as in the source.
- Strings.Decimal: hours and minutes are unbounded naturals, while the source's are JavaScript doubles.
  The two agree below 2^53. Beyond that, `Number` rounds long digit strings and `currentHour += 1` stops
  advancing, and from 10^21 on `toString` writes exponent notation (`"09:1e+21"`). No realistic hours
  text reaches these values.
- Rows.SortByDate: ties between rows with the same date are ordered by table position (a stable sort).
  The database leaves their order unspecified.
- Rows.FindClient: `.single()` with two or more matches is modelled as "no client", as in the source. The
  store's invariant, that (business, email) identifies one client, rules that case out.
- `handleChatMessage`, the OpenAI call and the prompt text (src/lib/chat-handler.ts:42-168) are a foreign
  API. The HTTP routes, the zod validation, the React UI and the setup scripts are request plumbing; none
  of them is part of this model.
- ChatHandler.FormatBusinessHoursSpec: states the entries through `split(',')`, so it assumes no weekday
  value holds a comma. The rendering itself (`FormatBusinessHours`) is defined for every map; a missing
  key renders as `undefined`.
- Logging and the exact error texts are not modelled, because an enum of outcomes carries the same
  information.
