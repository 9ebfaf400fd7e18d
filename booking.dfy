/** The booking component's state and its handlers. Each handler is an atomic method on the state;
    the React state cells `seats`, `errorMessage`, `statusMessage`, `showConfirmation` and
    `pendingSummary` are fields, and the browser's localStorage entry 'bookedSeats' is the field
    `store`. */
module Booking {
  import opened Options
  import opened SeatGrid
  import opened Pricing
  import opened Continuity
  import opened Selection
  import opened Persistence

  /** The pending booking summary shown in the confirmation dialog. */
  datatype Summary = Summary(count: nat, total: nat)

  /** The status message; BookingConfirmed is the success message reporting the number of seats booked
      and their total price. */
  datatype StatusMessage = NoStatus | BookingConfirmed(count: nat, total: nat)

  /** finalizeBooking's map: every Selected seat becomes Booked, every other seat is copied. */
  function BookSelected(g: Grid): Grid {
    seq(|g|, r requires 0 <= r < |g| =>
      seq(|g[r]|, c requires 0 <= c < |g[r]| =>
        if g[r][c].status == Selected then g[r][c].(status := Booked) else g[r][c].(status := g[r][c].status)))
  }

  /** Committing books exactly the seats that were Selected or already Booked, leaves the Available
      seats alone, and moves the whole selection into the Booked count. */
  lemma BookSelectedEffect(g: Grid)
    requires IsShaped(g)
    ensures var g' := BookSelected(g);
      SameSeats(g, g') &&
      (forall r, c :: 0 <= r < ROWS && 0 <= c < SEATS_PER_ROW ==>
         (g'[r][c].status == Booked <==> g[r][c].status in {Selected, Booked}) &&
         (g'[r][c].status == Available <==> g[r][c].status == Available)) &&
      SelectedCount(g') == 0 &&
      CountSeatsByStatus(g', Available) == CountSeatsByStatus(g, Available) &&
      CountSeatsByStatus(g', Booked) == CountSeatsByStatus(g, Booked) + SelectedCount(g)
  {
    var g' := BookSelected(g);
    CountZero(g', Selected);
    CountMonotone(g, g', Available);
    CountMonotone(g', g, Available);
    StatusPartition(g);
    StatusPartition(g');
  }

  class SeatBooking {
    var seats: Grid
    var errorMessage: ErrorMessage
    var statusMessage: StatusMessage
    var showConfirmation: bool
    var pendingSummary: Option<Summary>
    var store: Option<StoredRecord>

    /** The seats form a well-formed 8 x 10 layout, and the dialog is shown exactly while a
        summary is pending. */
    ghost predicate Valid()
      reads this
    {
      IsLayout(seats) && (showConfirmation <==> pendingSummary.Some?)
    }

    /** No more than MAX_SEATS_PER_BOOKING seats are selected. */
    ghost predicate WithinCap()
      reads this
    {
      SelectedCount(seats) <= MAX_SEATS_PER_BOOKING
    }

    /** The initial values of the state cells; `stored` is whatever the store holds at start. */
    constructor (stored: Option<StoredRecord>)
      ensures Valid() && WithinCap()
      ensures seats == FreshGrid() && errorMessage == NoError && statusMessage == NoStatus
      ensures !showConfirmation && pendingSummary == None && store == stored
    {
      var initial := InitializeSeats();
      seats := initial;
      errorMessage := NoError;
      statusMessage := NoStatus;
      showConfirmation := false;
      pendingSummary := None;
      store := stored;
      CountZero(initial, Selected);
    }

    /** loadPersistedBookings: a missing or empty record, a value that is not an array and an
        empty array are ignored and left in the store; a record that does not parse is erased;
        a non-empty array of ids is replayed onto the seats. */
    method LoadPersistedBookings()
      requires Valid()
      modifies this`seats, this`store
      ensures Valid() && (old(WithinCap()) ==> WithinCap())
      ensures match old(store)
        case Some(IdArray(ids)) =>
          store == old(store) && seats == (if ids == [] then old(seats) else Replay(old(seats), ids))
        case Some(Unparsable) => store == None && seats == old(seats)
        case _ => store == old(store) && seats == old(seats)
    {
      if store.None? {
        return;
      }
      match store.value
      case EmptyText =>
        return;
      case Unparsable =>
        store := None;
      case NonArray =>
        return;
      case IdArray(parsed) =>
        if |parsed| == 0 {
          return;
        }
        ReplayEffect(seats, parsed);
        SameSeatsKeepLayout(seats, Replay(seats, parsed));
        seats := Replay(seats, parsed);
    }

    /** handleSeatClick: clears both messages, then toggles the seat on a clone of the seats and
        commits the clone only if the guards pass, as ToggleSeat states. */
    method HandleSeatClick(row: nat, seat: nat)
      requires Valid() && row < ROWS && seat < SEATS_PER_ROW
      modifies this`seats, this`errorMessage, this`statusMessage
      ensures Valid() && (old(WithinCap()) ==> WithinCap())
      ensures Toggle(seats, errorMessage) == ToggleSeat(old(seats), row, seat)
      ensures statusMessage == NoStatus
    {
      statusMessage := NoStatus;
      errorMessage := NoError;

      var targetSeat := seats[row][seat];
      if targetSeat.status == Booked {
        return;
      }

      var updatedSeats: Grid := CloneSeats(seats);
      if WithinCap() {
        ToggleKeepsCap(seats, row, seat);
      }

      if updatedSeats[row][seat].status == Selected {
        updatedSeats := WithStatus(updatedSeats, row, seat, Available);
        SameSeatsKeepLayout(seats, updatedSeats);
        seats := updatedSeats;
        return;
      }

      if CountSeatsByStatus(seats, Selected) >= MAX_SEATS_PER_BOOKING {
        errorMessage := SelectionLimit;
        return;
      }

      updatedSeats := WithStatus(updatedSeats, row, seat, Selected);

      var continuous := ValidateContinuity(updatedSeats);
      if !continuous {
        errorMessage := IsolatesSeat;
        return;
      }

      SameSeatsKeepLayout(seats, updatedSeats);
      seats := updatedSeats;
    }

    /** handleBooking: clears both messages; with no seat selected it stops there; it re-checks the
        cap and the continuity rule, and only then opens the dialog with the summary (number of
        Selected seats, their total price). */
    method HandleBooking()
      requires Valid()
      modifies this`errorMessage, this`statusMessage, this`showConfirmation, this`pendingSummary
      ensures Valid()
      ensures statusMessage == NoStatus
      ensures var n := SelectedCount(seats);
        if n == 0 then
          errorMessage == NoError && showConfirmation == old(showConfirmation) && pendingSummary == old(pendingSummary)
        else if n > MAX_SEATS_PER_BOOKING then
          errorMessage == BookingLimit && showConfirmation == old(showConfirmation) && pendingSummary == old(pendingSummary)
        else if !Continuous(seats) then
          errorMessage == IsolatesSeat && showConfirmation == old(showConfirmation) && pendingSummary == old(pendingSummary)
        else
          errorMessage == NoError && showConfirmation && pendingSummary == Some(Summary(n, CalculateTotalPrice(seats)))
    {
      statusMessage := NoStatus;
      errorMessage := NoError;

      var selectedCount := CountSeatsByStatus(seats, Selected);
      if selectedCount == 0 {
        return;
      }
      if selectedCount > MAX_SEATS_PER_BOOKING {
        errorMessage := BookingLimit;
        return;
      }
      var continuous := ValidateContinuity(seats);
      if !continuous {
        errorMessage := IsolatesSeat;
        return;
      }
      var totalPrice := CalculateTotalPrice(seats);
      pendingSummary := Some(Summary(selectedCount, totalPrice));
      showConfirmation := true;
    }

    /** removeSeat: clears both messages; a Selected seat becomes Available, any other is left
        alone; nothing is re-validated. */
    method RemoveSeat(row: nat, seat: nat)
      requires Valid() && row < ROWS && seat < SEATS_PER_ROW
      modifies this`seats, this`errorMessage, this`statusMessage
      ensures Valid() && (old(WithinCap()) ==> WithinCap())
      ensures seats == RemoveSelected(old(seats), row, seat)
      ensures errorMessage == NoError && statusMessage == NoStatus
    {
      statusMessage := NoStatus;
      errorMessage := NoError;

      var updatedSeats: Grid := CloneSeats(seats);
      RemoveSeatEffect(seats, row, seat);
      if updatedSeats[row][seat].status == Selected {
        updatedSeats := WithStatus(updatedSeats, row, seat, Available);
        SameSeatsKeepLayout(seats, updatedSeats);
        seats := updatedSeats;
      }
    }

    /** clearSelection: with no seat selected it does nothing at all; otherwise it clears both
        messages, closes the dialog and returns every Selected seat to Available. */
    method ClearSelection()
      requires Valid()
      modifies this
      ensures Valid() && WithinCap() && SelectedCount(seats) == 0
      ensures SelectedCount(old(seats)) == 0 ==> unchanged(this)
      ensures SelectedCount(old(seats)) != 0 ==>
        seats == ClearedSeats(old(seats)) && errorMessage == NoError && statusMessage == NoStatus &&
        !showConfirmation && pendingSummary == None && store == old(store)
    {
      if CountSeatsByStatus(seats, Selected) == 0 {
        return;
      }
      statusMessage := NoStatus;
      errorMessage := NoError;
      showConfirmation := false;
      pendingSummary := None;

      ClearSelectionEffect(seats);
      SameSeatsKeepLayout(seats, ClearedSeats(seats));
      seats := ClearedSeats(seats);
    }

    /** resetSystem: clears the messages and the dialog, starts from a fresh grid and erases the
        stored record. */
    method ResetSystem()
      requires Valid()
      modifies this
      ensures Valid() && WithinCap()
      ensures seats == FreshGrid() && errorMessage == NoError && statusMessage == NoStatus
      ensures !showConfirmation && pendingSummary == None && store == None
    {
      statusMessage := NoStatus;
      errorMessage := NoError;
      showConfirmation := false;
      pendingSummary := None;
      var initial := InitializeSeats();
      seats := initial;
      CountZero(initial, Selected);
      store := None;
    }

    /** persistBookedSeats: writes the ids of the Booked seats of `layout`, in row-major order. */
    method PersistBookedSeats(layout: Grid)
      modifies this`store
      ensures store == Some(IdArray(BookedIds(layout)))
    {
      var bookedSeatIds := CollectBookedIds(layout);
      store := Some(IdArray(bookedSeatIds));
    }

    /** finalizeBooking: without a pending summary it does nothing; otherwise every Selected seat
        becomes Booked, the Booked ids are saved, the status message reports the summary's count
        and total, and the dialog closes. The error message is left as it was. */
    method FinalizeBooking()
      requires Valid()
      modifies this
      ensures Valid()
      ensures old(pendingSummary).None? ==> unchanged(this)
      ensures old(pendingSummary).Some? ==>
        seats == BookSelected(old(seats)) && WithinCap() &&
        store == Some(IdArray(BookedIds(seats))) &&
        statusMessage == BookingConfirmed(old(pendingSummary).value.count, old(pendingSummary).value.total) &&
        errorMessage == old(errorMessage) && !showConfirmation && pendingSummary == None
    {
      if pendingSummary.None? {
        return;
      }
      var updatedSeats := BookSelected(seats);
      BookSelectedEffect(seats);
      SameSeatsKeepLayout(seats, updatedSeats);

      seats := updatedSeats;
      PersistBookedSeats(updatedSeats);
      statusMessage := BookingConfirmed(pendingSummary.value.count, pendingSummary.value.total);
      pendingSummary := None;
      showConfirmation := false;
    }

    /** closeModal: cancels the pending booking without touching the seats. */
    method CloseModal()
      requires Valid()
      modifies this`showConfirmation, this`pendingSummary
      ensures Valid()
      ensures !showConfirmation && pendingSummary == None
    {
      showConfirmation := false;
      pendingSummary := None;
    }
  }

  /** Mounting the component: the state cells get their initial values, then the mount effect
      loads the persisted bookings from the store. */
  method Mount(stored: Option<StoredRecord>) returns (b: SeatBooking)
    ensures fresh(b) && b.Valid() && b.WithinCap()
    ensures b.errorMessage == NoError && b.statusMessage == NoStatus
    ensures !b.showConfirmation && b.pendingSummary == None
    ensures match stored
      case Some(IdArray(ids)) => b.store == stored && b.seats == Replay(FreshGrid(), ids)
      case Some(Unparsable) => b.store == None && b.seats == FreshGrid()
      case _ => b.store == stored && b.seats == FreshGrid()
  {
    b := new SeatBooking(stored);
    b.LoadPersistedBookings();
    ReplayEffect(FreshGrid(), []);
  }

  /** The booked seats survive a restart: after finalizeBooking has saved the seats, mounting a new
      component over the same store starts with exactly the same seats Booked and all others
      Available. */
  method RemountAfterFinalize(b: SeatBooking) returns (next: SeatBooking)
    requires b.Valid() && b.pendingSummary.Some?
    modifies b
    ensures fresh(next) && next.Valid()
    ensures next.store == b.store
    ensures SameSeats(b.seats, next.seats)
    ensures forall r, c :: 0 <= r < ROWS && 0 <= c < SEATS_PER_ROW ==>
      (next.seats[r][c].status == Booked <==> b.seats[r][c].status == Booked) &&
      (next.seats[r][c].status != Booked ==> next.seats[r][c].status == Available)
  {
    b.FinalizeBooking();
    next := Mount(b.store);
    ReplayRoundTrip(b.seats);
  }

  /** Committing the first k seats of a row books exactly those k seats. */
  lemma CommitPrefixBooked(row: nat, k: nat)
    requires row < ROWS && k <= SEATS_PER_ROW
    ensures var booked := BookSelected(PrefixSelected(row, k));
      IsLayout(booked) && CountSeatsByStatus(booked, Booked) == k &&
      forall r, c :: 0 <= r < ROWS && 0 <= c < SEATS_PER_ROW ==>
        (booked[r][c].status == Booked <==> r == row && c < k)
  {
    var g: Grid := PrefixSelected(row, k);
    PrefixSelectedCount(row, k);
    CountZero(g, Booked);
    PrefixSelectedShape(row, k);
    BookSelectedEffect(g);
    SameSeatsKeepLayout(g, BookSelected(g));
  }

  /** Committing the first k seats of a row saves exactly their ids: k of them, and the id of a
      seat of the layout is saved exactly when it is one of those k seats. */
  lemma CommitPrefixSaved(row: nat, k: nat)
    requires row < ROWS && k <= SEATS_PER_ROW
    ensures var saved := BookedIds(BookSelected(PrefixSelected(row, k)));
      |saved| == k &&
      forall r, c :: 0 <= r < ROWS && 0 <= c < SEATS_PER_ROW ==>
        (SeatId(r, c) in saved <==> r == row && c < k)
  {
    var booked := BookSelected(PrefixSelected(row, k));
    CommitPrefixBooked(row, k);
    forall r, c | 0 <= r < ROWS && 0 <= c < SEATS_PER_ROW
      ensures SeatId(r, c) in BookedIds(booked) <==> r == row && c < k
    {
      SavedIdsIdentifyBookedSeats(booked, r, c);
    }
  }
}
