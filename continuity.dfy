/** The continuity validator: no Available seat may sit between two taken seats of its row.
    Only interior columns are checked; a seat in the first or last column is never isolated. */
module Continuity {
  import opened SeatGrid

  /** Seat (r, c) is Available while both its row neighbours are Selected or Booked. */
  predicate Isolated(g: Grid, r: nat, c: nat)
    requires IsShaped(g) && r < ROWS && 1 <= c < SEATS_PER_ROW - 1
  {
    g[r][c].status == Available &&
    g[r][c - 1].status != Available &&
    g[r][c + 1].status != Available
  }

  /** The rule validateContinuity enforces: no interior seat of any row is isolated. */
  predicate Continuous(g: Grid)
    requires IsShaped(g)
  {
    forall r, c :: 0 <= r < ROWS && 1 <= c < SEATS_PER_ROW - 1 ==> !Isolated(g, r, c)
  }

  /** validateContinuity: scans the interior columns row by row and stops at the first isolated seat. */
  method ValidateContinuity(layout: Grid) returns (ok: bool)
    requires IsShaped(layout)
    ensures ok <==> Continuous(layout)
  {
    var row := 0;
    while row < ROWS
      invariant 0 <= row <= ROWS
      invariant forall r, c :: 0 <= r < row && 1 <= c < SEATS_PER_ROW - 1 ==> !Isolated(layout, r, c)
    {
      var col := 1;
      while col < SEATS_PER_ROW - 1
        invariant 1 <= col <= SEATS_PER_ROW - 1
        invariant forall r, c :: 0 <= r < row && 1 <= c < SEATS_PER_ROW - 1 ==> !Isolated(layout, r, c)
        invariant forall c :: 1 <= c < col ==> !Isolated(layout, row, c)
      {
        var current := layout[row][col];
        if current.status != Available {
          col := col + 1;
          continue;
        }
        var leftTaken := layout[row][col - 1].status != Available;
        var rightTaken := layout[row][col + 1].status != Available;
        if leftTaken && rightTaken {
          assert Isolated(layout, row, col);
          return false;
        }
        col := col + 1;
      }
      row := row + 1;
    }
    return true;
  }

  /** An edge seat never makes the check fail: a grid whose interior seats are all Available
      passes, whatever its first and last columns hold. */
  lemma EdgeColumnsNeverFail(g: Grid)
    requires IsShaped(g)
    requires forall r, c :: 0 <= r < ROWS && 1 <= c < SEATS_PER_ROW - 1 ==> g[r][c].status == Available
    ensures Continuous(g)
  {
  }

  /** The first seat of a row is never itself judged: while the seat next to it is taken, changing
      its status cannot change the verdict. */
  lemma EdgeSeatNeverChecked(g: Grid, r: nat, s: Status)
    requires IsShaped(g) && r < ROWS && g[r][1].status != Available
    ensures Continuous(g) <==> Continuous(WithStatus(g, r, 0, s))
  {
    var g' := WithStatus(g, r, 0, s);
    if Continuous(g) {
      forall r', c | 0 <= r' < ROWS && 1 <= c < SEATS_PER_ROW - 1
        ensures !Isolated(g', r', c)
      {
        assert !Isolated(g, r', c);
      }
    }
    if Continuous(g') {
      forall r', c | 0 <= r' < ROWS && 1 <= c < SEATS_PER_ROW - 1
        ensures !Isolated(g, r', c)
      {
        assert !Isolated(g', r', c);
      }
    }
  }

  /** A grid with an isolated interior seat fails the check. */
  lemma IsolatedSeatFailsCheck(g: Grid, r: nat, c: nat)
    requires IsShaped(g) && r < ROWS && 1 <= c < SEATS_PER_ROW - 1
    requires g[r][c].status == Available
    requires g[r][c - 1].status != Available && g[r][c + 1].status != Available
    ensures !Continuous(g)
  {
    assert Isolated(g, r, c);
  }

  /** The fresh grid passes the check. */
  lemma FreshGridContinuous()
    ensures Continuous(FreshGrid())
  {
  }
}
