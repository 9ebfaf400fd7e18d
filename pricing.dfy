/** The pricing policy: a seat's price depends only on its row, in three contiguous bands. */
module Pricing {
  import opened SeatGrid

  const PREMIUM_PRICE: nat := 1000
  const STANDARD_PRICE: nat := 750
  const ECONOMY_PRICE: nat := 500

  /** getSeatPrice: rows 0-2 are Premium, rows 3-5 Standard, the rest Economy. */
  function GetSeatPrice(row: nat): (price: nat)
    ensures price in {PREMIUM_PRICE, STANDARD_PRICE, ECONOMY_PRICE}
  {
    if row <= 2 then PREMIUM_PRICE
    else if row <= 5 then STANDARD_PRICE
    else ECONOMY_PRICE
  }

  /** The tier record that getTierInfo returns: a display name (the source's `label`), a CSS type and the price. */
  datatype TierInfo = TierInfo(name: string, kind: string, price: nat)

  function GetTierInfo(row: nat): (info: TierInfo)
    ensures info.price == GetSeatPrice(row)
    ensures info.name == "Premium" <==> row <= 2
    ensures info.name == "Standard" <==> 3 <= row <= 5
    ensures info.name == "Economy" <==> row > 5
    ensures info.kind == (if row <= 2 then "premium" else if row <= 5 then "standard" else "economy")
  {
    if row <= 2 then TierInfo("Premium", "premium", PREMIUM_PRICE)
    else if row <= 5 then TierInfo("Standard", "standard", STANDARD_PRICE)
    else TierInfo("Economy", "economy", ECONOMY_PRICE)
  }

  /** The three bands: a row's price is 1000, 750 or 500 according to the band that holds it. */
  lemma PriceBands(row: nat)
    ensures 0 <= row <= 2 ==> GetSeatPrice(row) == 1000
    ensures 3 <= row <= 5 ==> GetSeatPrice(row) == 750
    ensures 6 <= row <= 7 ==> GetSeatPrice(row) == 500
  {
  }

  /** Rows further back never cost more. */
  lemma PriceNonIncreasing(front: nat, back: nat)
    requires front <= back
    ensures GetSeatPrice(back) <= GetSeatPrice(front)
  {
  }

  /** The inner reduce of calculateTotalPrice: `price` for each Selected seat of the row. */
  function RowTotal(row: seq<Seat>, price: nat): (total: nat)
    ensures total == price * CountInRow(row, Selected)
  {
    if row == [] then 0
    else (if row[0].status == Selected then price else 0) + RowTotal(row[1..], price)
  }

  /** calculateTotalPrice: the row totals, each priced by the row's index, summed over the layout. */
  function CalculateTotalPrice(layout: Grid): nat {
    if layout == [] then 0
    else CalculateTotalPrice(layout[..|layout| - 1])
         + RowTotal(layout[|layout| - 1], GetSeatPrice(|layout| - 1))
  }

  /** The total lies between the Economy and the Premium price of the Selected seats. */
  lemma {:induction false} TotalPriceBounds(layout: Grid)
    ensures ECONOMY_PRICE * SelectedCount(layout) <= CalculateTotalPrice(layout)
            <= PREMIUM_PRICE * SelectedCount(layout)
  {
    if layout != [] {
      var n := |layout| - 1;
      TotalPriceBounds(layout[..n]);
      assert layout == layout[..n] + [layout[n]];
      CountAppend(layout[..n], [layout[n]], Selected);
      assert CountSeatsByStatus([layout[n]], Selected) == CountInRow(layout[n], Selected);
      var k := CountInRow(layout[n], Selected);
      var p := GetSeatPrice(n);
      assert ECONOMY_PRICE * k <= p * k <= PREMIUM_PRICE * k;
    }
  }

  lemma {:induction false} RowTotalUpdate(row: seq<Seat>, c: nat, s: Status, price: nat)
    requires c < |row|
    ensures RowTotal(row[c := row[c].(status := s)], price) + (if row[c].status == Selected then price else 0)
            == RowTotal(row, price) + (if s == Selected then price else 0)
  {
    var row' := row[c := row[c].(status := s)];
    if c > 0 {
      assert row'[1..] == row[1..][c - 1 := row[c].(status := s)];
      RowTotalUpdate(row[1..], c - 1, s, price);
    } else {
      assert row'[1..] == row[1..];
    }
  }

  /** Changing one seat's status moves the total by that seat's row price, whatever the order of
      the changes: selecting adds it, deselecting removes it, other changes leave the total alone. */
  lemma {:induction false} TotalAfterStatusChange(layout: Grid, r: nat, c: nat, s: Status)
    requires r < |layout| && c < |layout[r]|
    ensures CalculateTotalPrice(WithStatus(layout, r, c, s))
            + (if layout[r][c].status == Selected then GetSeatPrice(r) else 0)
            == CalculateTotalPrice(layout) + (if s == Selected then GetSeatPrice(r) else 0)
  {
    var n := |layout| - 1;
    var layout' := layout[r := layout[r][c := layout[r][c].(status := s)]];
    assert WithStatus(layout, r, c, s) == layout';
    if r < n {
      assert layout'[..n] == layout[..n][r := layout[r][c := layout[r][c].(status := s)]];
      assert layout'[..n] == WithStatus(layout[..n], r, c, s);
      TotalAfterStatusChange(layout[..n], r, c, s);
    } else {
      assert layout'[..n] == layout[..n];
      RowTotalUpdate(layout[n], c, s, GetSeatPrice(n));
    }
  }
}
