# Seat booking — a verified Dafny model

This project models the core of `SeatBooking`, a React component for booking seats on a cinema-style
grid. The grid has 8 rows of 10 seats. Each seat is Available, Selected or Booked, and rows are
priced in three tiers: Premium for rows 0-2 at 1000, Standard for rows 3-5 at 750, and Economy for
rows 6-7 at 500. A visitor selects at most 8 seats. A selection may never leave an Available seat
isolated between two taken seats of its row. The visitor then requests a booking, confirms it in a
dialog, and the booked seat ids are saved in the browser's `localStorage` and replayed when the
component mounts again.

Modules, one per concern of `src/SeatBooking.js`:

- `SeatGrid` (`seat_grid.dfy`): the seat record, the layout, the `"row-seat"` identifiers,
  `initializeSeats` (nested loops), `cloneSeats`, the per-status counts and their arithmetic.
- `Pricing` (`pricing.dfy`): `getSeatPrice`, `getTierInfo` and `calculateTotalPrice`.
- `Continuity` (`continuity.dfy`): `validateContinuity` as a loop, proved equal to the predicate
  `Continuous`.
- `Selection` (`selection.dfy`): `ToggleSeat`, the function that states what `handleSeatClick` does
  to the committed seats. It also holds the value effects of `removeSeat` and `clearSelection`.
- `Persistence` (`persistence.dfy`): the list `persistBookedSeats` saves (computed by a loop and
  specified by `BookedIds`), the replay `loadPersistedBookings` performs, and their round trip.
- `Booking` (`booking.dfy`): the component's state as the class `SeatBooking`. Its fields are the
  React state cells plus the stored record, and every handler is a method that reassigns them.

The layout is a value (`seq<seq<Seat>>`). The source writes to a seat record in place only on a
fresh clone: `handleSeatClick` (:213, :223) and `removeSeat` (:266) change a seat of the layout
`cloneSeats` has just built. `clearSelection` and the replay of `loadPersistedBookings` share
unchanged seat records with the old layout; `finalizeBooking` copies every record. Nothing ever
writes to a committed layout, so that sharing cannot be observed. A change to the
clone is therefore a sequence update (`WithStatus`).

The stored record is what the loader finds under the key `bookedSeats`. It is modelled as one of
four outcomes:

- the empty text, which the loader catches before parsing, since an empty string is falsy (:177);
- text that `JSON.parse` turns into an array of ids;
- text that parses to a value that is not an array;
- text that does not parse.

When seats change, continuity is checked only as a seat becomes Selected (src/SeatBooking.js:223-228);
`handleBooking` checks it again before opening the dialog (:245-248). Deselection (:212-215) and
`removeSeat` (:265-267) never check it, so a deselection can isolate a seat.
`Selection.DeselectCanIsolate` proves this for every row, and `Selection.RemoveSeatEffect` shows
that `removeSeat` has the same effect as that deselection. For this reason `Continuous` is not
part of `SeatBooking.Valid()`.

The selection cap, unlike continuity, is preserved by every handler: `HandleSeatClick`,
`RemoveSeat`, `LoadPersistedBookings`, `FinalizeBooking`, `ClearSelection` and `ResetSystem` all
ensure `WithinCap()` when it held before, the constructor establishes it, and `HandleBooking` and
`CloseModal` do not touch the seats. So the `> 8` branch of
`handleBooking` (:240-243) is dead code in the source too. The cap is kept out of `Valid()` as the
separate predicate `WithinCap()` only so that `HandleBooking`'s contract can still describe that
branch.

## Model

| member | source | states |
|---|---|---|
| SeatGrid.NatToString | src/SeatBooking.js:26 | the numeral written into an id is non-empty and made of decimal digits |
| SeatGrid.DigitsValueOfNatToString | src/SeatBooking.js:26 | reading the numeral back gives the number: the numeral encodes the row or seat index faithfully |
| SeatGrid.SeatIdInjective | src/SeatBooking.js:26 | two seats have the same id `"row-seat"` exactly when they have the same row and seat, so ids identify seats |
| SeatGrid.FreshGrid | src/SeatBooking.js:20-35 | the initial grid is a well-formed 8 x 10 layout: seat (r, c) has id "r-c", row r, seat c, and every seat is Available |
| SeatGrid.InitializeSeats | src/SeatBooking.js:20-35 | the nested push loops build exactly the fresh grid |
| SeatGrid.CloneSeats | src/SeatBooking.js:141-142 | the deep copy equals the original layout |
| SeatGrid.WithStatus | src/SeatBooking.js:209-213 | setting one seat's status on the copy changes that seat's status and nothing else |
| SeatGrid.SameSeatsKeepLayout | src/SeatBooking.js:141-142 | changing statuses alone keeps ids, rows and seats well formed |
| SeatGrid.CountInRow | src/SeatBooking.js:115-116 | a row's count of a status never exceeds the row's length |
| SeatGrid.CountAppend | src/SeatBooking.js:115-116 | the count over two joined layouts is the sum of their counts |
| SeatGrid.StatusPartition | src/SeatBooking.js:115-120 | the Available, Selected and Booked counts add up to the 80 seats |
| SeatGrid.CountZero | src/SeatBooking.js:115-116 | a count is zero exactly when no seat has that status |
| SeatGrid.CountUpdate | src/SeatBooking.js:115-116 | changing one seat's status moves that seat from the old status's count to the new one's |
| SeatGrid.CountMonotone | src/SeatBooking.js:115-116 | when no seat gains a status, that status's count cannot grow |
| Pricing.GetSeatPrice | src/SeatBooking.js:109-113 | a seat's price is one of the three tier prices |
| Pricing.PriceBands | src/SeatBooking.js:109-113 | rows 0-2 cost 1000, rows 3-5 cost 750, rows 6-7 cost 500 |
| Pricing.PriceNonIncreasing | src/SeatBooking.js:109-113 | a row further back never costs more |
| Pricing.GetTierInfo | src/SeatBooking.js:122-126 | the tier's price is the seat price of the row; it is named and typed Premium/premium for rows 0-2, Standard/standard for rows 3-5 and Economy/economy for rows past 5 |
| Pricing.RowTotal | src/SeatBooking.js:132-136 | a row's subtotal is its price times the row's number of Selected seats |
| Pricing.TotalPriceBounds | src/SeatBooking.js:128-139 | the total lies between 500 and 1000 times the number of Selected seats |
| Pricing.TotalAfterStatusChange | src/SeatBooking.js:128-139 | changing one seat's status moves the total by that row's price exactly when the seat enters or leaves Selected |
| Continuity.ValidateContinuity | src/SeatBooking.js:144-159 | the scan returns true exactly when no interior seat is isolated, for every layout of the right shape |
| Continuity.EdgeColumnsNeverFail | src/SeatBooking.js:146 | an edge seat is never itself checked: with every interior seat Available the grid passes whatever the first and last seats hold |
| Continuity.EdgeSeatNeverChecked | src/SeatBooking.js:146-153 | the status of a row's first seat cannot change the verdict when the seat next to it is taken: only interior seats are ever judged |
| Continuity.IsolatedSeatFailsCheck | src/SeatBooking.js:150-155 | an Available seat with both neighbours taken makes the check fail |
| Continuity.FreshGridContinuous | src/SeatBooking.js:144-159 | the initial grid passes the check |
| Selection.ToggleChangesOnlyTarget | src/SeatBooking.js:200-231 | a click is all or nothing: on an error the seats are unchanged, a Booked seat is never changed, and no seat but the clicked one changes |
| Selection.ToggleOutcome | src/SeatBooking.js:212-230 | a Selected seat becomes Available; an Available seat is refused for the cap exactly when 8 are selected, refused for isolation exactly when the candidate fails the check, and otherwise selected, leaving a continuous grid |
| Selection.ToggleCounts | src/SeatBooking.js:200-231 | a click leaves the Booked count alone, moves the Selected count by at most one and the total by the clicked row's price |
| Selection.ToggleKeepsCap | src/SeatBooking.js:218-221 | clicks never take the selection above 8 seats |
| Selection.SelectAlongRow | src/SeatBooking.js:223-230 | with the first k < 8 seats of a row selected, clicking seat k selects it |
| Selection.CapRefusesRestOfRow | src/SeatBooking.js:218-221 | with 8 seats of a row selected, clicking any later seat of the row is refused and changes nothing |
| Selection.ClickAlongRow | src/SeatBooking.js:200-231 | a run of clicks keeps every seat in place and changes statuses only |
| Selection.ClickAlongRowStep | src/SeatBooking.js:218-230 | one more click along a row selects the next seat below the cap and is refused at it |
| Selection.ClickAlongFreshRow | src/SeatBooking.js:218-230 | clicking the seats of a row from left to right on the fresh grid selects the first 8 of them and no more |
| Selection.ClickAlongFreshRowTotals | src/SeatBooking.js:128-139 | after k such clicks the Selected count is min(k, 8) and the total is that many times the row price |
| Selection.PrefixSelectedCount | src/SeatBooking.js:115-118 | with the first k seats of one row selected, the Selected count is k |
| Selection.PrefixSelectedTotal | src/SeatBooking.js:128-139 | with the first k seats of one row selected, the total is k times the row price |
| Selection.SkippingASeatIsRefused | src/SeatBooking.js:223-228 | with seats 0..k-1 of a row selected, clicking seat k + 1 would isolate seat k, so it is refused and changes nothing |
| Selection.DeselectCanIsolate | src/SeatBooking.js:212-215 | deselecting is never re-checked: deselecting seat k - 2 of k >= 3 selected seats turns a continuous grid into one with an isolated seat |
| Selection.RemoveSeatEffect | src/SeatBooking.js:258-269 | removal changes only a Selected seat, making it Available just as a click on it would; the Selected count drops by one exactly then; Booked seats are untouched |
| Selection.ClearSelectionEffect | src/SeatBooking.js:279-285 | clearing turns every Selected seat Available and keeps every other seat's status; no seat is left Selected, the Booked count is kept, the former selection is added to the Available count, and a second clear changes nothing |
| Persistence.RowBookedIds | src/SeatBooking.js:165-169 | one row contributes as many ids as it has Booked seats |
| Persistence.BookedIds | src/SeatBooking.js:163-170 | the saved list holds as many ids as there are Booked seats |
| Persistence.CollectBookedIds | src/SeatBooking.js:163-170 | the nested forEach loops collect exactly the ids of the Booked seats in row-major order |
| Persistence.BookedIdsMembership | src/SeatBooking.js:163-170 | an id is saved exactly when some Booked seat carries it |
| Persistence.SavedIdsIdentifyBookedSeats | src/SeatBooking.js:161-172 | in a well-formed layout, the id "r-c" is saved exactly when seat (r, c) is Booked |
| Persistence.BookedIdsDependOnBookedSeats | src/SeatBooking.js:163-170 | the saved list depends only on which seats are Booked |
| Persistence.ReplayEffect | src/SeatBooking.js:183-190 | replay keeps every seat in place, never adds a Selected seat, and replaying nothing changes nothing |
| Persistence.ReplayRoundTrip | src/SeatBooking.js:161-194 | replaying the saved list onto a fresh grid books exactly the seats that were Booked and leaves all others Available |
| Persistence.SaveAfterReplay | src/SeatBooking.js:161-194 | saving after that replay writes back the same list |
| Booking.BookSelectedEffect | src/SeatBooking.js:305-311 | committing books exactly the Selected seats, keeps Available seats, leaves nothing Selected and adds the selection to the Booked count |
| Booking.SeatBooking.constructor | src/SeatBooking.js:94-98 | the state starts with the fresh grid, no messages, no dialog and no pending summary |
| Booking.SeatBooking.LoadPersistedBookings | src/SeatBooking.js:174-194 | a missing, empty or non-array record and an empty array are ignored; an unparsable record is erased; a non-empty id array is replayed onto the seats; the cap still holds |
| Booking.SeatBooking.HandleSeatClick | src/SeatBooking.js:200-231 | clears the status message and commits seats and error exactly as ToggleSeat states; the cap is preserved |
| Booking.SeatBooking.HandleBooking | src/SeatBooking.js:233-256 | both messages are always cleared; with no selection nothing else changes; above 8: the booking-limit error; not continuous: the isolation error; otherwise the dialog opens with the selected count and total |
| Booking.SeatBooking.RemoveSeat | src/SeatBooking.js:258-269 | the seats become RemoveSelected of the old seats, both messages are cleared, the cap is preserved |
| Booking.SeatBooking.ClearSelection | src/SeatBooking.js:271-288 | with nothing selected the state is unchanged; otherwise the seats are cleared, both messages and the dialog are reset |
| Booking.SeatBooking.ResetSystem | src/SeatBooking.js:290-300 | the fresh grid, no messages, no dialog, and the stored record erased |
| Booking.SeatBooking.PersistBookedSeats | src/SeatBooking.js:161-172 | the store holds the array of the Booked ids in row-major order |
| Booking.SeatBooking.FinalizeBooking | src/SeatBooking.js:302-318 | without a pending summary nothing changes; otherwise Selected seats become Booked, the Booked ids are saved, the status reports the summary, the dialog closes and the error message is kept |
| Booking.SeatBooking.CloseModal | src/SeatBooking.js:320-323 | the dialog closes and the summary is dropped; nothing else changes |
| Booking.Mount | src/SeatBooking.js:196-198 | mounting over any stored record starts from the fresh grid with the stored ids replayed, or with the record erased when it does not parse |
| Booking.RemountAfterFinalize | src/SeatBooking.js:161-198 | after a confirmed booking, a new component over the same store starts with exactly the same seats Booked and all others Available |
| Booking.CommitPrefixBooked | src/SeatBooking.js:305-311 | committing the first k selected seats of a row books exactly those k seats |
| Booking.CommitPrefixSaved | src/SeatBooking.js:161-172 | committing the first k selected seats of a row saves exactly k ids, and a seat's id is saved exactly when it is one of them |

## Left out

- Rendering is not modelled: the JSX, `CategoryLegend`, `BookingModal`, the CSS and the row letters shown on screen. They compute no state.
- The theme cell and `toggleTheme` are not modelled. They touch only the document's `data-theme` attribute.
- `getSelectedCount`, `getBookedCount` and `getAvailableCount` are `CountSeatsByStatus` applied to the current seats. They are not separate members; `SelectedCount` is the first.
- The `typeof window === 'undefined'` guards of the persistence functions and `resetSystem` are not modelled: the model always has a store.
- `JSON.stringify` and `JSON.parse` are not modelled as text. The stored record is the parse outcome, and a saved id array is stored as that outcome directly.
- Non-string elements of a parsed array are not modelled. The model's array holds seat id strings, and a `Set` lookup is membership in that list.
- Exceptions thrown by `localStorage` itself are not modelled. Only the parse failure, which the source catches, is.
- The message texts, the rupee sign and the `toLocaleString` formatting are not modelled. Messages are constructors that carry the count and total they report.
- React's asynchronous state updates and re-rendering are not modelled. Each handler is one atomic method that reads the current state, as the closures of a single render do.
- The functional `setSeats` updater of `loadPersistedBookings` is modelled as a direct replay onto the current seats. At mount time these are the same.
- Clicks and removals outside the grid are not modelled: the handlers require a row below 8 and a seat below 10. The source would throw on such coordinates, and the rendered grid never sends them.
- The aliasing that `cloneSeats` prevents is not modelled. The layout is a value, so the copy is equal to the original and shares nothing with it.
