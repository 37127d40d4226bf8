/** The 0/1 knapsack of 01_knapsack_dp.cpp: a table over item prefixes and
    capacities, filled row by row, whose last cell is the best value of a set of
    items that fits the capacity. */
module Knapsack {

  /** The table cell for the first `i` items and capacity `j`: 0 on row 0 and on
      column 0; an item heavier than `j` is skipped, otherwise the cell is the
      better of taking it (its value plus the cell of the earlier items at the
      capacity left) and skipping it. */
  function Table(v: seq<nat>, w: seq<nat>, i: nat, j: nat): nat
    requires |v| == |w| && i <= |v|
  {
    if i == 0 || j == 0 then 0
    else if w[i - 1] > j then Table(v, w, i - 1, j)
    else if v[i - 1] + Table(v, w, i - 1, j - w[i - 1]) >= Table(v, w, i - 1, j)
    then v[i - 1] + Table(v, w, i - 1, j - w[i - 1])
    else Table(v, w, i - 1, j)
  }

  /** The total weight of the items a choice takes; `choose[k]` decides item `k`. */
  function Weight(w: seq<nat>, choose: seq<bool>): nat
    requires |choose| <= |w|
  {
    if choose == [] then 0
    else Weight(w, choose[..|choose| - 1]) + (if choose[|choose| - 1] then w[|choose| - 1] else 0)
  }

  /** The total value of the items a choice takes. */
  function Value(v: seq<nat>, choose: seq<bool>): nat
    requires |choose| <= |v|
  {
    if choose == [] then 0
    else Value(v, choose[..|choose| - 1]) + (if choose[|choose| - 1] then v[|choose| - 1] else 0)
  }

  /** knapsack: the table is filled row by row, each row left to right from
      capacity 1, and its cell for all items and the full capacity is returned.
      For positive weights that is the largest value of a set of items whose
      weight is at most the capacity, and some such set reaches it. */
  method Knapsack(c: nat, v: seq<nat>, w: seq<nat>) returns (r: nat)
    requires |v| == |w|
    ensures r == Table(v, w, |v|, c)
    ensures exists choose :: |choose| == |v| && Weight(w, choose) <= c && Value(v, choose) == r
    ensures (forall k :: 0 <= k < |w| ==> w[k] > 0) ==>
            forall choose :: |choose| == |v| && Weight(w, choose) <= c ==> Value(v, choose) <= r
  {
    var n := |v|;
    var dp := new nat[n + 1, c + 1]((_, _) => 0);
    for i := 1 to n + 1
      invariant forall r, j {:trigger dp[r, j]} :: 0 <= r < i && 0 <= j <= c ==> dp[r, j] == Table(v, w, r, j)
      invariant forall r {:trigger dp[r, 0]} :: 0 <= r <= n ==> dp[r, 0] == 0
    {
      FillRow(dp, v, w, i, c);
    }
    r := dp[n, c];
    var choose := Achieved(v, w, n, c);
    if forall k :: 0 <= k < |w| ==> w[k] > 0 {
      forall other | |other| == |v| && Weight(w, other) <= c ensures Value(v, other) <= r {
        TableIsBest(v, w, n, c, other);
      }
    }
  }

  /** The inner loop for row `i`: each capacity from 1 up, from the row above. */
  method FillRow(dp: array2<nat>, v: seq<nat>, w: seq<nat>, i: nat, c: nat)
    modifies dp
    requires |v| == |w| && dp.Length0 == |v| + 1 && dp.Length1 == c + 1 && 1 <= i <= |v|
    requires forall r, j {:trigger dp[r, j]} :: 0 <= r < i && 0 <= j <= c ==> dp[r, j] == Table(v, w, r, j)
    requires forall r {:trigger dp[r, 0]} :: 0 <= r <= |v| ==> dp[r, 0] == 0
    ensures forall r, j {:trigger dp[r, j]} :: 0 <= r <= i && 0 <= j <= c ==> dp[r, j] == Table(v, w, r, j)
    ensures forall r {:trigger dp[r, 0]} :: 0 <= r <= |v| ==> dp[r, 0] == 0
  {
    for j := 1 to c + 1
      invariant forall r, j {:trigger dp[r, j]} :: 0 <= r < i && 0 <= j <= c ==> dp[r, j] == Table(v, w, r, j)
      invariant forall r {:trigger dp[r, 0]} :: 0 <= r <= |v| ==> dp[r, 0] == 0
      invariant forall k {:trigger dp[i, k]} :: 0 <= k < j ==> dp[i, k] == Table(v, w, i, k)
    {
      if w[i - 1] > j {
        dp[i, j] := dp[i - 1, j];
      } else if v[i - 1] + dp[i - 1, j - w[i - 1]] >= dp[i - 1, j] {
        dp[i, j] := v[i - 1] + dp[i - 1, j - w[i - 1]];
      } else {
        dp[i, j] := dp[i - 1, j];
      }
    }
  }

  /** A cell never falls below the cell above it: another item can only help. */
  lemma TableGrows(v: seq<nat>, w: seq<nat>, i: nat, j: nat)
    requires |v| == |w| && 1 <= i <= |v|
    ensures Table(v, w, i, j) >= Table(v, w, i - 1, j)
    ensures w[i - 1] > j ==> Table(v, w, i, j) == Table(v, w, i - 1, j)
  {
    if j == 0 {
      TableZero(v, w, i - 1);
    }
  }

  /** Column 0 is 0 on every row. */
  lemma TableZero(v: seq<nat>, w: seq<nat>, i: nat)
    requires |v| == |w| && i <= |v|
    ensures Table(v, w, i, 0) == 0
  {
  }

  /** A choice extended by one decision. */
  lemma Extend(v: seq<nat>, w: seq<nat>, choose: seq<bool>, b: bool)
    requires |v| == |w| && |choose| < |v|
    ensures Weight(w, choose + [b]) == Weight(w, choose) + (if b then w[|choose|] else 0)
    ensures Value(v, choose + [b]) == Value(v, choose) + (if b then v[|choose|] else 0)
  {
    assert (choose + [b])[..|choose|] == choose;
  }

  /** With positive weights, no choice among the first `i` items that fits
      capacity `j` is worth more than the cell. */
  lemma {:induction false} TableIsBest(v: seq<nat>, w: seq<nat>, i: nat, j: nat, choose: seq<bool>)
    requires |v| == |w| && i <= |v| && |choose| == i
    requires forall k :: 0 <= k < |w| ==> w[k] > 0
    requires Weight(w, choose) <= j
    ensures Value(v, choose) <= Table(v, w, i, j)
    decreases i
  {
    if i > 0 {
      var rest := choose[..i - 1];
      Extend(v, w, rest, choose[i - 1]);
      assert rest + [choose[i - 1]] == choose;
      if choose[i - 1] {
        TableIsBest(v, w, i - 1, j - w[i - 1], rest);
      } else {
        TableIsBest(v, w, i - 1, j, rest);
        TableGrows(v, w, i, j);
      }
    }
  }

  /** Some choice among the first `i` items that fits capacity `j` is worth
      exactly the cell: the one the table's comparisons pick. */
  lemma {:induction false} Achieved(v: seq<nat>, w: seq<nat>, i: nat, j: nat) returns (choose: seq<bool>)
    requires |v| == |w| && i <= |v|
    ensures |choose| == i && Weight(w, choose) <= j && Value(v, choose) == Table(v, w, i, j)
    decreases i
  {
    if i == 0 {
      choose := [];
    } else if j == 0 {
      var rest := Achieved(v, w, i - 1, 0);
      choose := rest + [false];
      Extend(v, w, rest, false);
      TableZero(v, w, i - 1);
    } else if w[i - 1] <= j && v[i - 1] + Table(v, w, i - 1, j - w[i - 1]) >= Table(v, w, i - 1, j) {
      var rest := Achieved(v, w, i - 1, j - w[i - 1]);
      choose := rest + [true];
      Extend(v, w, rest, true);
    } else {
      var rest := Achieved(v, w, i - 1, j);
      choose := rest + [false];
      Extend(v, w, rest, false);
    }
  }

  /** With a weightless item, column 0 is never filled: items 5 and 3 of weights
      0 and 1 fit capacity 1 together, worth 8, but the table's last cell is 5. */
  lemma WeightlessItemMissed()
    ensures Table([5, 3], [0, 1], 2, 1) == 5
    ensures Weight([0, 1], [true, true]) <= 1 && Value([5, 3], [true, true]) == 8
  {
    assert [true, true][..1] == [true] && [true][..0] == [];
  }

  /** The table as intended, with column 0 filled like every other column: a
      weightless item is taken even at capacity 0. */
  function FullTable(v: seq<nat>, w: seq<nat>, i: nat, j: nat): nat
    requires |v| == |w| && i <= |v|
  {
    if i == 0 then 0
    else if w[i - 1] > j then FullTable(v, w, i - 1, j)
    else if v[i - 1] + FullTable(v, w, i - 1, j - w[i - 1]) >= FullTable(v, w, i - 1, j)
    then v[i - 1] + FullTable(v, w, i - 1, j - w[i - 1])
    else FullTable(v, w, i - 1, j)
  }

  /** knapsack with each row filled from capacity 0: the largest value of a set of
      items whose weight is at most the capacity, whatever the weights, and some such
      set reaches it. */
  method KnapsackFixed(c: nat, v: seq<nat>, w: seq<nat>) returns (r: nat)
    requires |v| == |w|
    ensures exists choose :: |choose| == |v| && Weight(w, choose) <= c && Value(v, choose) == r
    ensures forall choose :: |choose| == |v| && Weight(w, choose) <= c ==> Value(v, choose) <= r
  {
    var n := |v|;
    var dp := new nat[n + 1, c + 1]((_, _) => 0);
    for i := 1 to n + 1
      invariant forall r, j {:trigger dp[r, j]} :: 0 <= r < i && 0 <= j <= c ==> dp[r, j] == FullTable(v, w, r, j)
    {
      FillFullRow(dp, v, w, i, c);
    }
    r := dp[n, c];
    var choose := FullAchieved(v, w, n, c);
    forall other | |other| == |v| && Weight(w, other) <= c ensures Value(v, other) <= r {
      FullTableIsBest(v, w, n, c, other);
    }
  }

  /** The corrected inner loop for row `i`: each capacity from 0 up. */
  method FillFullRow(dp: array2<nat>, v: seq<nat>, w: seq<nat>, i: nat, c: nat)
    modifies dp
    requires |v| == |w| && dp.Length0 == |v| + 1 && dp.Length1 == c + 1 && 1 <= i <= |v|
    requires forall r, j {:trigger dp[r, j]} :: 0 <= r < i && 0 <= j <= c ==> dp[r, j] == FullTable(v, w, r, j)
    ensures forall r, j {:trigger dp[r, j]} :: 0 <= r <= i && 0 <= j <= c ==> dp[r, j] == FullTable(v, w, r, j)
  {
    for j := 0 to c + 1
      invariant forall r, j {:trigger dp[r, j]} :: 0 <= r < i && 0 <= j <= c ==> dp[r, j] == FullTable(v, w, r, j)
      invariant forall k {:trigger dp[i, k]} :: 0 <= k < j ==> dp[i, k] == FullTable(v, w, i, k)
    {
      if w[i - 1] > j {
        dp[i, j] := dp[i - 1, j];
      } else if v[i - 1] + dp[i - 1, j - w[i - 1]] >= dp[i - 1, j] {
        dp[i, j] := v[i - 1] + dp[i - 1, j - w[i - 1]];
      } else {
        dp[i, j] := dp[i - 1, j];
      }
    }
  }

  /** No choice among the first `i` items that fits capacity `j` is worth more than
      the corrected cell, whatever the weights. */
  lemma {:induction false} FullTableIsBest(v: seq<nat>, w: seq<nat>, i: nat, j: nat, choose: seq<bool>)
    requires |v| == |w| && i <= |v| && |choose| == i
    requires Weight(w, choose) <= j
    ensures Value(v, choose) <= FullTable(v, w, i, j)
    decreases i
  {
    if i > 0 {
      var rest := choose[..i - 1];
      Extend(v, w, rest, choose[i - 1]);
      assert rest + [choose[i - 1]] == choose;
      if choose[i - 1] {
        FullTableIsBest(v, w, i - 1, j - w[i - 1], rest);
      } else {
        FullTableIsBest(v, w, i - 1, j, rest);
      }
    }
  }

  /** Some choice among the first `i` items that fits capacity `j` is worth exactly
      the corrected cell. */
  lemma {:induction false} FullAchieved(v: seq<nat>, w: seq<nat>, i: nat, j: nat) returns (choose: seq<bool>)
    requires |v| == |w| && i <= |v|
    ensures |choose| == i && Weight(w, choose) <= j && Value(v, choose) == FullTable(v, w, i, j)
    decreases i
  {
    if i == 0 {
      choose := [];
    } else if w[i - 1] <= j && v[i - 1] + FullTable(v, w, i - 1, j - w[i - 1]) >= FullTable(v, w, i - 1, j) {
      var rest := FullAchieved(v, w, i - 1, j - w[i - 1]);
      choose := rest + [true];
      Extend(v, w, rest, true);
    } else {
      var rest := FullAchieved(v, w, i - 1, j);
      choose := rest + [false];
      Extend(v, w, rest, false);
    }
  }
}
