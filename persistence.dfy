/** The persistence contract: the ids of the Booked seats are saved in row-major order, and a saved
    list is replayed onto a grid by marking Booked every seat whose id it holds. The store itself
    (localStorage) is a field of the booking state; this module holds what is computed. */
module Persistence {
  import opened SeatGrid

  /** What JSON.parse makes of the text stored under the 'bookedSeats' key: the empty text (which
      the loader treats as missing before parsing), an array of seat ids, a value that parses but
      is not an array, or text that does not parse. */
  datatype StoredRecord = EmptyText | IdArray(ids: seq<string>) | NonArray | Unparsable

  /** The ids of the Booked seats of one row, left to right. */
  function RowBookedIds(row: seq<Seat>): (ids: seq<string>)
    ensures |ids| == CountInRow(row, Booked)
  {
    if row == [] then []
    else (if row[0].status == Booked then [row[0].id] else []) + RowBookedIds(row[1..])
  }

  /** The list persistBookedSeats saves: the ids of the Booked seats in row-major order. */
  function BookedIds(layout: Grid): (ids: seq<string>)
    ensures |ids| == CountSeatsByStatus(layout, Booked)
  {
    if layout == [] then [] else RowBookedIds(layout[0]) + BookedIds(layout[1..])
  }

  lemma {:induction false} RowBookedIdsAppend(a: seq<Seat>, b: seq<Seat>)
    ensures RowBookedIds(a + b) == RowBookedIds(a) + RowBookedIds(b)
  {
    if a == [] {
      assert a + b == b;
    } else {
      assert (a + b)[0] == a[0] && (a + b)[1..] == a[1..] + b;
      RowBookedIdsAppend(a[1..], b);
    }
  }

  lemma {:induction false} BookedIdsAppend(a: Grid, b: Grid)
    ensures BookedIds(a + b) == BookedIds(a) + BookedIds(b)
  {
    if a == [] {
      assert a + b == b;
    } else {
      assert (a + b)[0] == a[0] && (a + b)[1..] == a[1..] + b;
      BookedIdsAppend(a[1..], b);
    }
  }

  lemma RowBookedIdsStep(row: seq<Seat>, c: nat)
    requires c < |row|
    ensures RowBookedIds(row[..c + 1]) == RowBookedIds(row[..c]) + (if row[c].status == Booked then [row[c].id] else [])
  {
    assert row[..c + 1] == row[..c] + [row[c]];
    RowBookedIdsAppend(row[..c], [row[c]]);
  }

  lemma BookedIdsStep(layout: Grid, r: nat)
    requires r < |layout|
    ensures BookedIds(layout[..r + 1]) == BookedIds(layout[..r]) + RowBookedIds(layout[r])
  {
    assert layout[..r + 1] == layout[..r] + [layout[r]];
    BookedIdsAppend(layout[..r], [layout[r]]);
    assert BookedIds([layout[r]]) == RowBookedIds(layout[r]) + BookedIds([]);
  }

  /** The collecting loop of persistBookedSeats: visits every seat row by row and pushes the id of
      each Booked one. */
  method CollectBookedIds(layout: Grid) returns (bookedSeatIds: seq<string>)
    ensures bookedSeatIds == BookedIds(layout)
  {
    bookedSeatIds := [];
    var r := 0;
    while r < |layout|
      invariant 0 <= r <= |layout|
      invariant bookedSeatIds == BookedIds(layout[..r])
    {
      var row := layout[r];
      var c := 0;
      while c < |row|
        invariant 0 <= c <= |row|
        invariant bookedSeatIds == BookedIds(layout[..r]) + RowBookedIds(row[..c])
      {
        if row[c].status == Booked {
          bookedSeatIds := bookedSeatIds + [row[c].id];
        }
        RowBookedIdsStep(row, c);
        c := c + 1;
      }
      assert row[..c] == row;
      BookedIdsStep(layout, r);
      r := r + 1;
    }
    assert layout[..r] == layout;
  }

  lemma {:induction false} RowBookedIdsMembership(row: seq<Seat>, x: string)
    ensures x in RowBookedIds(row) <==>
            exists c :: 0 <= c < |row| && row[c].status == Booked && row[c].id == x
  {
    if row != [] {
      RowBookedIdsMembership(row[1..], x);
      assert forall c :: 1 <= c < |row| ==> row[c] == row[1..][c - 1];
      if x in RowBookedIds(row[1..]) {
        var c :| 0 <= c < |row[1..]| && row[1..][c].status == Booked && row[1..][c].id == x;
        assert row[c + 1] == row[1..][c];
      }
    }
  }

  /** An id is in the saved list exactly when some Booked seat carries it. */
  lemma {:induction false} BookedIdsMembership(g: Grid, x: string)
    ensures x in BookedIds(g) <==>
            exists r, c :: 0 <= r < |g| && 0 <= c < |g[r]| && g[r][c].status == Booked && g[r][c].id == x
  {
    if g != [] {
      RowBookedIdsMembership(g[0], x);
      BookedIdsMembership(g[1..], x);
      assert forall r :: 1 <= r < |g| ==> g[r] == g[1..][r - 1];
      if x in RowBookedIds(g[0]) {
        var c :| 0 <= c < |g[0]| && g[0][c].status == Booked && g[0][c].id == x;
        assert g[0][c].status == Booked && g[0][c].id == x;
      } else if x in BookedIds(g[1..]) {
        var r, c :| 0 <= r < |g[1..]| && 0 <= c < |g[1..][r]| && g[1..][r][c].status == Booked && g[1..][r][c].id == x;
        assert g[r + 1][c] == g[1..][r][c];
      }
      if exists r, c :: 0 <= r < |g| && 0 <= c < |g[r]| && g[r][c].status == Booked && g[r][c].id == x {
        var r, c :| 0 <= r < |g| && 0 <= c < |g[r]| && g[r][c].status == Booked && g[r][c].id == x;
        if r == 0 {
          assert x in RowBookedIds(g[0]);
        } else {
          assert g[1..][r - 1][c] == g[r][c];
          assert x in BookedIds(g[1..]);
        }
      }
    }
  }

  /** In a well-formed layout the id "r-c" is in the saved list exactly when seat (r, c) is Booked. */
  lemma SavedIdsIdentifyBookedSeats(g: Grid, r: nat, c: nat)
    requires IsLayout(g) && r < ROWS && c < SEATS_PER_ROW
    ensures SeatId(r, c) in BookedIds(g) <==> g[r][c].status == Booked
  {
    BookedIdsMembership(g, SeatId(r, c));
    if SeatId(r, c) in BookedIds(g) {
      var r', c' :| 0 <= r' < |g| && 0 <= c' < |g[r']| && g[r'][c'].status == Booked && g[r'][c'].id == SeatId(r, c);
      SeatIdInjective(r, c, r', c');
    }
  }

  /** The replay of loadPersistedBookings: every seat whose id is in the list becomes Booked. */
  function Replay(layout: Grid, ids: seq<string>): Grid {
    seq(|layout|, r requires 0 <= r < |layout| =>
      seq(|layout[r]|, c requires 0 <= c < |layout[r]| =>
        if layout[r][c].id in ids then layout[r][c].(status := Booked) else layout[r][c]))
  }

  /** A replay only ever books seats: it keeps the seats in place and never adds a Selected seat. */
  lemma ReplayEffect(g: Grid, ids: seq<string>)
    ensures SameSeats(g, Replay(g, ids))
    ensures CountSeatsByStatus(Replay(g, ids), Selected) <= CountSeatsByStatus(g, Selected)
    ensures Replay(g, []) == g
  {
    CountMonotone(g, Replay(g, ids), Selected);
    assert forall r :: 0 <= r < |g| ==> Replay(g, [])[r] == g[r];
  }

  /** The save/replay round trip: replaying the saved list onto a fresh grid books exactly the
      seats that were Booked, and leaves every other seat Available. */
  lemma ReplayRoundTrip(g: Grid)
    requires IsLayout(g)
    ensures var g' := Replay(FreshGrid(), BookedIds(g));
      SameSeats(g, g') &&
      forall r, c :: 0 <= r < ROWS && 0 <= c < SEATS_PER_ROW ==>
        (g'[r][c].status == Booked <==> g[r][c].status == Booked) &&
        (g'[r][c].status != Booked ==> g'[r][c].status == Available)
  {
    var g': Grid := Replay(FreshGrid(), BookedIds(g));
    forall r: int, c: int | 0 <= r < ROWS && 0 <= c < SEATS_PER_ROW
      ensures g'[r][c] == g[r][c].(status := g'[r][c].status)
      ensures g'[r][c].status == Booked <==> g[r][c].status == Booked
      ensures g'[r][c].status != Booked ==> g'[r][c].status == Available
    {
      SavedIdsIdentifyBookedSeats(g, r, c);
    }
  }

  /** Saving depends only on where the Booked seats are: two layouts with the same seats and the
      same Booked seats save the same list. */
  lemma {:induction false} BookedIdsDependOnBookedSeats(g: Grid, g': Grid)
    requires SameSeats(g, g')
    requires forall r, c :: 0 <= r < |g| && 0 <= c < |g[r]| ==> (g'[r][c].status == Booked <==> g[r][c].status == Booked)
    ensures BookedIds(g') == BookedIds(g)
  {
    if g != [] {
      RowBookedIdsDependOnBookedSeats(g[0], g'[0]);
      BookedIdsDependOnBookedSeats(g[1..], g'[1..]);
    }
  }

  lemma {:induction false} RowBookedIdsDependOnBookedSeats(row: seq<Seat>, row': seq<Seat>)
    requires |row'| == |row|
    requires forall c :: 0 <= c < |row| ==> row'[c] == row[c].(status := row'[c].status)
    requires forall c :: 0 <= c < |row| ==> (row'[c].status == Booked <==> row[c].status == Booked)
    ensures RowBookedIds(row') == RowBookedIds(row)
  {
    if row != [] {
      RowBookedIdsDependOnBookedSeats(row[1..], row'[1..]);
    }
  }

  /** Saving again after a replay of the saved list writes back the same list. */
  lemma SaveAfterReplay(g: Grid)
    requires IsLayout(g)
    ensures BookedIds(Replay(FreshGrid(), BookedIds(g))) == BookedIds(g)
  {
    ReplayRoundTrip(g);
    BookedIdsDependOnBookedSeats(g, Replay(FreshGrid(), BookedIds(g)));
  }
}
