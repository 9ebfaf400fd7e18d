/** The seat grid: an 8 x 10 arrangement of seat records, each with a stable identifier
    "row-seat" and one of three statuses. */
module SeatGrid {

  const ROWS: nat := 8
  const SEATS_PER_ROW: nat := 10
  const MAX_SEATS_PER_BOOKING: nat := 8

  datatype Status = Available | Selected | Booked

  /** One seat record: its identifier, row index, seat index and status. */
  datatype Seat = Seat(id: string, row: nat, seat: nat, status: Status)

  /** A seat layout: a sequence of rows, each a sequence of seats. */
  type Grid = seq<seq<Seat>>

  // ---------------------------------------------------------------------------
  // Seat identifiers: the row numeral, a dash, and the seat numeral
  // ---------------------------------------------------------------------------

  predicate IsDigit(ch: char) {
    '0' <= ch <= '9'
  }

  predicate AllDigits(s: string) {
    forall i :: 0 <= i < |s| ==> IsDigit(s[i])
  }

  function DigitChar(d: nat): (ch: char)
    requires d < 10
    ensures IsDigit(ch) && ch as int - '0' as int == d
  {
    ('0' as int + d) as char
  }

  /** The decimal numeral of `n`, as JavaScript writes a non-negative integer into a string. */
  function NatToString(n: nat): (s: string)
    ensures |s| > 0 && AllDigits(s)
  {
    if n < 10 then [DigitChar(n)] else NatToString(n / 10) + [DigitChar(n % 10)]
  }

  /** The value of a decimal numeral; the inverse of NatToString. */
  function DigitsValue(s: string): nat
    requires AllDigits(s)
  {
    if s == [] then 0 else DigitsValue(s[..|s| - 1]) * 10 + (s[|s| - 1] as int - '0' as int)
  }

  lemma {:induction false} DigitsValueOfNatToString(n: nat)
    ensures DigitsValue(NatToString(n)) == n
  {
    var s := NatToString(n);
    if n >= 10 {
      assert s[..|s| - 1] == NatToString(n / 10);
      DigitsValueOfNatToString(n / 10);
    }
  }

  lemma NatToStringInjective(m: nat, n: nat)
    requires NatToString(m) == NatToString(n)
    ensures m == n
  {
    DigitsValueOfNatToString(m);
    DigitsValueOfNatToString(n);
  }

  function SeatId(row: nat, seat: nat): string {
    NatToString(row) + "-" + NatToString(seat)
  }

  /** In a numeral followed by a dash, the first dash sits right after the numeral. */
  lemma DashPosition(a: string, b: string)
    requires AllDigits(a)
    ensures (a + "-" + b)[|a|] == '-'
    ensures forall i :: 0 <= i < |a| ==> (a + "-" + b)[i] != '-'
  {
    assert forall i :: 0 <= i < |a| ==> (a + "-" + b)[i] == a[i];
  }

  /** Two numerals joined by a dash can be split back uniquely, since a numeral holds no dash. */
  lemma SplitAtDash(a: string, b: string, c: string, d: string)
    requires AllDigits(a) && AllDigits(c)
    requires a + "-" + b == c + "-" + d
    ensures a == c && b == d
  {
    var s := a + "-" + b;
    DashPosition(a, b);
    DashPosition(c, d);
    assert |a| == |c|;
    assert a == s[..|a|] && c == s[..|c|];
    assert b == s[|a| + 1..] && d == s[|c| + 1..];
  }

  /** Distinct seats have distinct identifiers. */
  lemma SeatIdInjective(r1: nat, c1: nat, r2: nat, c2: nat)
    ensures SeatId(r1, c1) == SeatId(r2, c2) <==> r1 == r2 && c1 == c2
  {
    if SeatId(r1, c1) == SeatId(r2, c2) {
      SplitAtDash(NatToString(r1), NatToString(c1), NatToString(r2), NatToString(c2));
      NatToStringInjective(r1, r2);
      NatToStringInjective(c1, c2);
    }
  }

  // ---------------------------------------------------------------------------
  // Shape of a layout
  // ---------------------------------------------------------------------------

  /** ROWS rows of SEATS_PER_ROW seats each. */
  predicate IsShaped(g: Grid) {
    |g| == ROWS && forall r :: 0 <= r < ROWS ==> |g[r]| == SEATS_PER_ROW
  }

  /** A well-formed layout: shaped, and the seat at (r, c) carries id "r-c", row r and seat c. */
  predicate IsLayout(g: Grid) {
    IsShaped(g) &&
    forall r, c :: 0 <= r < ROWS && 0 <= c < SEATS_PER_ROW ==>
      g[r][c].id == SeatId(r, c) && g[r][c].row == r && g[r][c].seat == c
  }

  function FreshRow(r: nat): seq<Seat> {
    seq(SEATS_PER_ROW, c requires 0 <= c => Seat(SeatId(r, c), r, c, Available))
  }

  /** The grid that initializeSeats builds. */
  function FreshGrid(): (g: Grid)
    ensures IsLayout(g)
    ensures forall r, c :: 0 <= r < ROWS && 0 <= c < SEATS_PER_ROW ==> g[r][c].status == Available
  {
    seq(ROWS, r requires 0 <= r => FreshRow(r))
  }

  /** Builds the grid row by row with nested loops, pushing one seat record at a time. */
  method InitializeSeats() returns (seats: Grid)
    ensures seats == FreshGrid()
  {
    seats := [];
    var row := 0;
    while row < ROWS
      invariant 0 <= row <= ROWS
      invariant seats == FreshGrid()[..row]
    {
      var rowSeats: seq<Seat> := [];
      var seat := 0;
      while seat < SEATS_PER_ROW
        invariant 0 <= seat <= SEATS_PER_ROW
        invariant rowSeats == FreshRow(row)[..seat]
      {
        rowSeats := rowSeats + [Seat(SeatId(row, seat), row, seat, Available)];
        seat := seat + 1;
      }
      assert rowSeats == FreshRow(row) == FreshGrid()[row];
      seats := seats + [rowSeats];
      row := row + 1;
    }
  }

  /** A deep copy: every row and every seat record copied. As values, the copy equals the original. */
  function CloneSeats(layout: Grid): (copy: Grid)
    ensures copy == layout
  {
    var copy := seq(|layout|, r requires 0 <= r < |layout| =>
      seq(|layout[r]|, c requires 0 <= c < |layout[r]| => layout[r][c].(status := layout[r][c].status)));
    assert forall r :: 0 <= r < |layout| ==> copy[r] == layout[r];
    copy
  }

  /** g' holds the same seats as g, in the same places; only their statuses may differ. */
  predicate SameSeats(g: Grid, g': Grid) {
    |g'| == |g| && (forall r :: 0 <= r < |g| ==> |g'[r]| == |g[r]|) &&
    forall r, c :: 0 <= r < |g| && 0 <= c < |g[r]| ==> g'[r][c] == g[r][c].(status := g'[r][c].status)
  }

  /** A change of statuses alone keeps a layout well formed. */
  lemma SameSeatsKeepLayout(g: Grid, g': Grid)
    requires IsLayout(g) && SameSeats(g, g')
    ensures IsLayout(g')
  {
  }

  /** The layout with the status of seat (r, c) replaced, as the handlers do to one seat of a fresh clone. */
  function WithStatus(g: Grid, r: nat, c: nat, s: Status): (g': Grid)
    requires r < |g| && c < |g[r]|
    ensures |g'| == |g| && forall i :: 0 <= i < |g| ==> |g'[i]| == |g[i]|
    ensures g'[r][c] == g[r][c].(status := s)
    ensures forall i, j :: 0 <= i < |g| && 0 <= j < |g[i]| && (i != r || j != c) ==> g'[i][j] == g[i][j]
    ensures SameSeats(g, g')
  {
    g[r := g[r][c := g[r][c].(status := s)]]
  }

  // ---------------------------------------------------------------------------
  // Counting seats by status
  // ---------------------------------------------------------------------------

  /** The number of seats in the row with the given status. */
  function CountInRow(row: seq<Seat>, status: Status): (n: nat)
    ensures n <= |row|
  {
    if row == [] then 0
    else (if row[0].status == status then 1 else 0) + CountInRow(row[1..], status)
  }

  /** countSeatsByStatus: the per-row counts summed over the layout. */
  function CountSeatsByStatus(layout: Grid, status: Status): nat {
    if layout == [] then 0
    else CountInRow(layout[0], status) + CountSeatsByStatus(layout[1..], status)
  }

  function SelectedCount(g: Grid): nat {
    CountSeatsByStatus(g, Selected)
  }

  lemma {:induction false} RowPartition(row: seq<Seat>)
    ensures CountInRow(row, Available) + CountInRow(row, Selected) + CountInRow(row, Booked) == |row|
  {
    if row != [] {
      RowPartition(row[1..]);
    }
  }

  lemma {:induction false} GridPartition(g: Grid, width: nat)
    requires forall r :: 0 <= r < |g| ==> |g[r]| == width
    ensures CountSeatsByStatus(g, Available) + CountSeatsByStatus(g, Selected)
            + CountSeatsByStatus(g, Booked) == |g| * width
  {
    if g != [] {
      RowPartition(g[0]);
      GridPartition(g[1..], width);
      OneMore(|g| - 1, width);
    }
  }

  lemma OneMore(n: nat, m: nat)
    ensures n * m + m == (n + 1) * m
  {
  }

  /** Every seat has exactly one status, so the three counts add up to the 80 seats of the grid. */
  lemma StatusPartition(g: Grid)
    requires IsShaped(g)
    ensures CountSeatsByStatus(g, Available) + CountSeatsByStatus(g, Selected)
            + CountSeatsByStatus(g, Booked) == ROWS * SEATS_PER_ROW
  {
    GridPartition(g, SEATS_PER_ROW);
  }

  lemma {:induction false} CountInRowAppend(a: seq<Seat>, b: seq<Seat>, status: Status)
    ensures CountInRow(a + b, status) == CountInRow(a, status) + CountInRow(b, status)
  {
    if a != [] {
      assert (a + b)[0] == a[0] && (a + b)[1..] == a[1..] + b;
      CountInRowAppend(a[1..], b, status);
      assert CountInRow(a + b, status) == (if a[0].status == status then 1 else 0) + CountInRow(a[1..] + b, status);
    } else {
      assert a + b == b;
    }
  }

  lemma {:induction false} CountAppend(a: Grid, b: Grid, status: Status)
    ensures CountSeatsByStatus(a + b, status) == CountSeatsByStatus(a, status) + CountSeatsByStatus(b, status)
  {
    if a != [] {
      assert (a + b)[0] == a[0] && (a + b)[1..] == a[1..] + b;
      CountAppend(a[1..], b, status);
      assert CountSeatsByStatus(a + b, status) == CountInRow(a[0], status) + CountSeatsByStatus(a[1..] + b, status);
    } else {
      assert a + b == b;
    }
  }

  /** A row count is zero exactly when no seat of the row has the status. */
  lemma {:induction false} CountInRowZero(row: seq<Seat>, status: Status)
    ensures CountInRow(row, status) == 0 <==> forall c :: 0 <= c < |row| ==> row[c].status != status
  {
    if row != [] {
      CountInRowZero(row[1..], status);
      assert forall c :: 1 <= c < |row| ==> row[c] == row[1..][c - 1];
    }
  }

  /** A count is zero exactly when no seat of the layout has the status. */
  lemma {:induction false} CountZero(g: Grid, status: Status)
    ensures CountSeatsByStatus(g, status) == 0 <==>
            forall r, c :: 0 <= r < |g| && 0 <= c < |g[r]| ==> g[r][c].status != status
  {
    if g != [] {
      CountInRowZero(g[0], status);
      CountZero(g[1..], status);
      assert forall r :: 1 <= r < |g| ==> g[r] == g[1..][r - 1];
    }
  }

  /** Replacing one seat's status moves that seat from the old status's count to the new one's. */
  lemma {:induction false} CountInRowUpdate(row: seq<Seat>, c: nat, s: Status, status: Status)
    requires c < |row|
    ensures CountInRow(row[c := row[c].(status := s)], status) + (if row[c].status == status then 1 else 0)
            == CountInRow(row, status) + (if s == status then 1 else 0)
  {
    var row' := row[c := row[c].(status := s)];
    if c > 0 {
      assert row'[1..] == row[1..][c - 1 := row[c].(status := s)];
      CountInRowUpdate(row[1..], c - 1, s, status);
    } else {
      assert row'[1..] == row[1..];
    }
  }

  lemma {:induction false} CountUpdate(g: Grid, r: nat, c: nat, s: Status, status: Status)
    requires r < |g| && c < |g[r]|
    ensures CountSeatsByStatus(WithStatus(g, r, c, s), status) + (if g[r][c].status == status then 1 else 0)
            == CountSeatsByStatus(g, status) + (if s == status then 1 else 0)
  {
    var g' := WithStatus(g, r, c, s);
    if r > 0 {
      assert g'[1..] == WithStatus(g[1..], r - 1, c, s);
      CountUpdate(g[1..], r - 1, c, s, status);
    } else {
      assert g'[1..] == g[1..];
      CountInRowUpdate(g[0], c, s, status);
    }
  }

  /** When every seat that has the status afterwards already had it before, the count cannot grow. */
  lemma {:induction false} CountInRowMonotone(row: seq<Seat>, row': seq<Seat>, status: Status)
    requires |row'| == |row|
    requires forall c :: 0 <= c < |row| && row'[c].status == status ==> row[c].status == status
    ensures CountInRow(row', status) <= CountInRow(row, status)
  {
    if row != [] {
      CountInRowMonotone(row[1..], row'[1..], status);
    }
  }

  lemma {:induction false} CountMonotone(g: Grid, g': Grid, status: Status)
    requires |g'| == |g| && forall r :: 0 <= r < |g| ==> |g'[r]| == |g[r]|
    requires forall r, c :: 0 <= r < |g| && 0 <= c < |g[r]| && g'[r][c].status == status ==> g[r][c].status == status
    ensures CountSeatsByStatus(g', status) <= CountSeatsByStatus(g, status)
  {
    if g != [] {
      CountInRowMonotone(g[0], g'[0], status);
      CountMonotone(g[1..], g'[1..], status);
    }
  }
}
