/** The selection engine: toggling a seat under the capacity and continuity guards, removing one
    selected seat, and clearing the whole selection. */
module Selection {
  import opened SeatGrid
  import opened Continuity
  import opened Pricing

  /** The error message a handler leaves behind; NoError is the empty message. */
  datatype ErrorMessage =
    | NoError
    | SelectionLimit   // a click is refused because the cap is reached
    | BookingLimit     // a booking request is refused because more seats than the cap are selected
    | IsolatesSeat     // a click or request is refused because it would leave an isolated seat

  /** The seats a click leaves committed, and the error message it leaves. */
  datatype Toggle = Toggle(seats: Grid, error: ErrorMessage)

  /** What handleSeatClick does to the committed seats: a Booked seat is ignored; a Selected seat
      becomes Available without any check; an Available seat becomes Selected only if fewer than
      MAX_SEATS_PER_BOOKING seats are selected and the grid with it selected passes the continuity
      check, and otherwise the seats stay as they were and an error is reported. */
  function ToggleSeat(g: Grid, row: nat, seat: nat): Toggle
    requires IsShaped(g) && row < ROWS && seat < SEATS_PER_ROW
  {
    match g[row][seat].status
    case Booked => Toggle(g, NoError)
    case Selected => Toggle(WithStatus(g, row, seat, Available), NoError)
    case Available =>
      if SelectedCount(g) >= MAX_SEATS_PER_BOOKING then Toggle(g, SelectionLimit)
      else
        var candidate := WithStatus(g, row, seat, Selected);
        if Continuous(candidate) then Toggle(candidate, NoError) else Toggle(g, IsolatesSeat)
  }

  /** A click is all or nothing: either it fails and the seats are untouched, or at most the
      clicked seat changes; a Booked seat never changes. */
  lemma ToggleChangesOnlyTarget(g: Grid, row: nat, seat: nat)
    requires IsShaped(g) && row < ROWS && seat < SEATS_PER_ROW
    ensures var t := ToggleSeat(g, row, seat);
      SameSeats(g, t.seats) &&
      (t.error != NoError ==> t.seats == g) &&
      (g[row][seat].status == Booked ==> t == Toggle(g, NoError)) &&
      forall r, c :: 0 <= r < ROWS && 0 <= c < SEATS_PER_ROW && (r != row || c != seat) ==>
        t.seats[r][c] == g[r][c]
  {
  }

  /** A click on a Selected seat makes exactly that seat Available; a click on an Available seat
      either selects exactly that seat, which leaves the grid continuous, or fails with the error
      of the first guard that refused it. */
  lemma ToggleOutcome(g: Grid, row: nat, seat: nat)
    requires IsShaped(g) && row < ROWS && seat < SEATS_PER_ROW
    ensures var t := ToggleSeat(g, row, seat);
      (g[row][seat].status == Selected ==>
         t.error == NoError && t.seats == WithStatus(g, row, seat, Available)) &&
      (g[row][seat].status == Available ==>
         (t.error == SelectionLimit <==> SelectedCount(g) >= MAX_SEATS_PER_BOOKING) &&
         (t.error == IsolatesSeat <==>
            SelectedCount(g) < MAX_SEATS_PER_BOOKING && !Continuous(WithStatus(g, row, seat, Selected))) &&
         (t.error == NoError <==> t.seats == WithStatus(g, row, seat, Selected)) &&
         (t.error == NoError ==> Continuous(t.seats)))
  {
    if g[row][seat].status == Available {
      assert WithStatus(g, row, seat, Selected) != g by {
        assert WithStatus(g, row, seat, Selected)[row][seat].status != g[row][seat].status;
      }
    }
  }

  /** A click moves the Selected count by one at most, never touches the Booked count, and moves
      the total price by the clicked seat's row price. */
  lemma {:induction false} ToggleCounts(g: Grid, row: nat, seat: nat)
    requires IsShaped(g) && row < ROWS && seat < SEATS_PER_ROW
    ensures var t := ToggleSeat(g, row, seat);
      CountSeatsByStatus(t.seats, Booked) == CountSeatsByStatus(g, Booked) &&
      SelectedCount(t.seats) == SelectedCount(g)
        + (if t.seats[row][seat].status == Selected && g[row][seat].status == Available then 1 else 0)
        - (if g[row][seat].status == Selected then 1 else 0) &&
      CalculateTotalPrice(t.seats) == CalculateTotalPrice(g)
        + (if t.seats[row][seat].status == Selected && g[row][seat].status == Available then GetSeatPrice(row) else 0)
        - (if g[row][seat].status == Selected then GetSeatPrice(row) else 0)
  {
    var t := ToggleSeat(g, row, seat);
    match g[row][seat].status
    case Booked =>
    case Selected =>
      CountUpdate(g, row, seat, Available, Booked);
      CountUpdate(g, row, seat, Available, Selected);
      TotalAfterStatusChange(g, row, seat, Available);
    case Available =>
      if t.seats != g {
        CountUpdate(g, row, seat, Selected, Booked);
        CountUpdate(g, row, seat, Selected, Selected);
        TotalAfterStatusChange(g, row, seat, Selected);
      }
  }

  /** The selection cap: a click never takes the Selected count above MAX_SEATS_PER_BOOKING. */
  lemma ToggleKeepsCap(g: Grid, row: nat, seat: nat)
    requires IsShaped(g) && row < ROWS && seat < SEATS_PER_ROW
    requires SelectedCount(g) <= MAX_SEATS_PER_BOOKING
    ensures SelectedCount(ToggleSeat(g, row, seat).seats) <= MAX_SEATS_PER_BOOKING
  {
    ToggleCounts(g, row, seat);
  }

  /** The fresh grid with the first k seats of one row Selected. */
  function PrefixSelected(row: nat, k: nat): Grid {
    seq(ROWS, r requires 0 <= r => seq(SEATS_PER_ROW, c requires 0 <= c =>
      Seat(SeatId(r, c), r, c, if r == row && c < k then Selected else Available)))
  }

  lemma PrefixSelectedShape(row: nat, k: nat)
    ensures IsLayout(PrefixSelected(row, k)) && Continuous(PrefixSelected(row, k))
  {
  }

  /** With no seat selected, the prefix grid is the fresh grid. */
  lemma PrefixSelectedNone(row: nat)
    ensures PrefixSelected(row, 0) == FreshGrid()
  {
    assert forall r :: 0 <= r < ROWS ==> PrefixSelected(row, 0)[r] == FreshGrid()[r];
  }

  lemma PrefixSelectedStep(row: nat, k: nat)
    requires row < ROWS && k < SEATS_PER_ROW
    ensures WithStatus(PrefixSelected(row, k), row, k, Selected) == PrefixSelected(row, k + 1)
  {
    var g := WithStatus(PrefixSelected(row, k), row, k, Selected);
    assert forall r :: 0 <= r < ROWS ==> g[r] == PrefixSelected(row, k + 1)[r];
  }

  /** With the first k seats of a row selected, exactly k seats are Selected. */
  lemma {:induction false} PrefixSelectedCount(row: nat, k: nat)
    requires row < ROWS && k <= SEATS_PER_ROW
    ensures SelectedCount(PrefixSelected(row, k)) == k
  {
    if k == 0 {
      CountZero(PrefixSelected(row, k), Selected);
    } else {
      var g0: Grid := PrefixSelected(row, k - 1);
      PrefixSelectedCount(row, k - 1);
      PrefixSelectedStep(row, k - 1);
      assert g0[row][k - 1].status == Available;
      CountUpdate(g0, row, k - 1, Selected, Selected);
    }
  }

  /** ... and the total is k times the row price. */
  lemma {:induction false} PrefixSelectedTotal(row: nat, k: nat)
    requires row < ROWS && k <= SEATS_PER_ROW
    ensures CalculateTotalPrice(PrefixSelected(row, k)) == k * GetSeatPrice(row)
  {
    if k == 0 {
      PrefixSelectedCount(row, 0);
      TotalPriceBounds(PrefixSelected(row, 0));
    } else {
      var g0: Grid := PrefixSelected(row, k - 1);
      PrefixSelectedTotal(row, k - 1);
      PrefixSelectedStep(row, k - 1);
      assert g0[row][k - 1].status == Available;
      TotalAfterSelecting(g0, row, k - 1, k - 1);
    }
  }

  /** Selecting one more Available seat of a row adds that row's price to the total. */
  lemma TotalAfterSelecting(g: Grid, row: nat, seat: nat, n: nat)
    requires row < |g| && seat < |g[row]| && g[row][seat].status == Available
    requires CalculateTotalPrice(g) == n * GetSeatPrice(row)
    ensures CalculateTotalPrice(WithStatus(g, row, seat, Selected)) == (n + 1) * GetSeatPrice(row)
  {
    TotalAfterStatusChange(g, row, seat, Selected);
    OneMore(n, GetSeatPrice(row));
  }

  /** Clicking seat k of a row whose first k seats are selected selects it too, while fewer than
      MAX_SEATS_PER_BOOKING seats are selected. */
  lemma SelectAlongRow(row: nat, k: nat)
    requires row < ROWS && k < MAX_SEATS_PER_BOOKING
    ensures ToggleSeat(PrefixSelected(row, k), row, k) == Toggle(PrefixSelected(row, k + 1), NoError)
  {
    PrefixSelectedCount(row, k);
    assert PrefixSelected(row, k)[row][k].status == Available;
    PrefixSelectedStep(row, k);
    PrefixSelectedShape(row, k + 1);
  }

  /** Once MAX_SEATS_PER_BOOKING seats of a row are selected, a click on any later seat of the row
      is refused by the cap and changes nothing. */
  lemma CapRefusesRestOfRow(row: nat, seat: nat)
    requires row < ROWS && MAX_SEATS_PER_BOOKING <= seat < SEATS_PER_ROW
    ensures ToggleSeat(PrefixSelected(row, MAX_SEATS_PER_BOOKING), row, seat)
            == Toggle(PrefixSelected(row, MAX_SEATS_PER_BOOKING), SelectionLimit)
  {
    PrefixSelectedCount(row, MAX_SEATS_PER_BOOKING);
    assert PrefixSelected(row, MAX_SEATS_PER_BOOKING)[row][seat].status == Available;
  }

  /** The committed seats after clicking seats 0, 1, ..., k - 1 of one row, in that order. */
  function ClickAlongRow(g: Grid, row: nat, k: nat): (g': Grid)
    requires IsShaped(g) && row < ROWS && k <= SEATS_PER_ROW
    ensures SameSeats(g, g')
  {
    if k == 0 then g
    else
      var prev := ClickAlongRow(g, row, k - 1);
      ToggleChangesOnlyTarget(prev, row, k - 1);
      ToggleSeat(prev, row, k - 1).seats
  }

  /** The number of seats a run of k clicks along a row ends up selecting. */
  function CappedClicks(k: nat): nat {
    if k <= MAX_SEATS_PER_BOOKING then k else MAX_SEATS_PER_BOOKING
  }

  /** One more click along the row: it selects the next seat below the cap and is refused at it. */
  lemma ClickAlongRowStep(g: Grid, row: nat, k: nat)
    requires IsShaped(g) && row < ROWS && 0 < k <= SEATS_PER_ROW
    requires ClickAlongRow(g, row, k - 1) == PrefixSelected(row, CappedClicks(k - 1))
    ensures ClickAlongRow(g, row, k) == PrefixSelected(row, CappedClicks(k))
  {
    if k - 1 < MAX_SEATS_PER_BOOKING {
      SelectAlongRow(row, k - 1);
    } else {
      CapRefusesRestOfRow(row, k - 1);
    }
  }

  /** Clicking the seats of a row from left to right on the fresh grid selects the first
      MAX_SEATS_PER_BOOKING of them and no more: the cap refuses every later click. */
  lemma {:induction false} ClickAlongFreshRow(row: nat, k: nat)
    requires row < ROWS && k <= SEATS_PER_ROW
    ensures ClickAlongRow(FreshGrid(), row, k) == PrefixSelected(row, CappedClicks(k))
  {
    if k == 0 {
      PrefixSelectedNone(row);
    } else {
      ClickAlongFreshRow(row, k - 1);
      ClickAlongRowStep(FreshGrid(), row, k);
    }
  }

  /** After k clicks along a row of the fresh grid, the count stops at the cap and the total at
      that many times the row price. */
  lemma ClickAlongFreshRowTotals(row: nat, k: nat)
    requires row < ROWS && k <= SEATS_PER_ROW
    ensures var g := ClickAlongRow(FreshGrid(), row, k);
      SelectedCount(g) == CappedClicks(k) && CalculateTotalPrice(g) == CappedClicks(k) * GetSeatPrice(row)
  {
    ClickAlongFreshRow(row, k);
    PrefixSelectedCount(row, CappedClicks(k));
    PrefixSelectedTotal(row, CappedClicks(k));
  }

  /** Skipping a seat is refused: with the first k seats of a row selected, a click on seat k + 1
      would isolate seat k, so it fails and changes nothing. */
  lemma SkippingASeatIsRefused(row: nat, k: nat)
    requires row < ROWS && 1 <= k < MAX_SEATS_PER_BOOKING
    ensures ToggleSeat(PrefixSelected(row, k), row, k + 1) == Toggle(PrefixSelected(row, k), IsolatesSeat)
  {
    var g: Grid := PrefixSelected(row, k);
    PrefixSelectedCount(row, k);
    assert g[row][k + 1].status == Available;
    assert Isolated(WithStatus(g, row, k + 1, Selected), row, k);
  }

  /** Continuity is checked only when a seat is selected: with the first k >= 3 seats of a row
      selected, deselecting seat k - 2 leaves it isolated between two selected seats. */
  lemma DeselectCanIsolate(row: nat, k: nat)
    requires row < ROWS && 3 <= k <= SEATS_PER_ROW
    ensures Continuous(PrefixSelected(row, k))
    ensures !Continuous(ToggleSeat(PrefixSelected(row, k), row, k - 2).seats)
  {
    var g: Grid := PrefixSelected(row, k);
    PrefixSelectedShape(row, k);
    var g' := ToggleSeat(g, row, k - 2).seats;
    assert g' == WithStatus(g, row, k - 2, Available);
    assert Isolated(g', row, k - 2);
  }

  /** removeSeat: a Selected seat becomes Available; any other seat is left alone. */
  function RemoveSelected(g: Grid, row: nat, seat: nat): Grid
    requires IsShaped(g) && row < ROWS && seat < SEATS_PER_ROW
  {
    if g[row][seat].status == Selected then WithStatus(g, row, seat, Available) else g
  }

  /** Removing changes only a Selected target, which becomes Available, as a click on it would;
      the Selected count drops by one exactly then, and the Booked seats are untouched. */
  lemma {:induction false} RemoveSeatEffect(g: Grid, row: nat, seat: nat)
    requires IsShaped(g) && row < ROWS && seat < SEATS_PER_ROW
    ensures var g' := RemoveSelected(g, row, seat);
      SameSeats(g, g') &&
      (g[row][seat].status != Selected ==> g' == g) &&
      (g[row][seat].status == Selected ==> g' == ToggleSeat(g, row, seat).seats && g'[row][seat].status == Available) &&
      SelectedCount(g') == SelectedCount(g) - (if g[row][seat].status == Selected then 1 else 0) &&
      CountSeatsByStatus(g', Booked) == CountSeatsByStatus(g, Booked)
  {
    if g[row][seat].status == Selected {
      CountUpdate(g, row, seat, Available, Selected);
      CountUpdate(g, row, seat, Available, Booked);
    }
  }

  /** clearSelection's map: every Selected seat becomes Available, every other seat is kept. */
  function ClearedSeats(g: Grid): Grid {
    seq(|g|, r requires 0 <= r < |g| =>
      seq(|g[r]|, c requires 0 <= c < |g[r]| =>
        if g[r][c].status == Selected then g[r][c].(status := Available) else g[r][c]))
  }

  /** Clearing leaves no Selected seat, returns each one to Available, keeps the Booked seats, and a
      second clear changes nothing. */
  lemma ClearSelectionEffect(g: Grid)
    requires IsShaped(g)
    ensures var g' := ClearedSeats(g);
      SameSeats(g, g') &&
      (forall r, c :: 0 <= r < ROWS && 0 <= c < SEATS_PER_ROW ==>
         g'[r][c].status == (if g[r][c].status == Selected then Available else g[r][c].status)) &&
      SelectedCount(g') == 0 &&
      CountSeatsByStatus(g', Booked) == CountSeatsByStatus(g, Booked) &&
      CountSeatsByStatus(g', Available) == CountSeatsByStatus(g, Available) + SelectedCount(g) &&
      ClearedSeats(g') == g'
  {
    var g' := ClearedSeats(g);
    CountZero(g', Selected);
    CountMonotone(g, g', Booked);
    CountMonotone(g', g, Booked);
    StatusPartition(g);
    StatusPartition(g');
    assert forall r :: 0 <= r < |g'| ==> ClearedSeats(g')[r] == g'[r];
  }
}
