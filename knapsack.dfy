/**
 * The 0-1 knapsack table fill of `problems/20190815-knapsack.js`: row `i` of
 * the table holds, for every capacity `j` from 0 to the knapsack's capacity,
 * the best value reachable with the first `i` items.
 *
 * `Entry` is the recurrence the table follows, cell by cell, exactly as the
 * program writes it (including its shortcut "capacity 0 is worth 0").
 * `Optimum` is the same recurrence without that shortcut; it is proved to be
 * the best value over all selections of items, and `Entry` is proved equal to
 * it whenever every weight is positive.
 */
module Knapsack {
  import opened Results

  /** An item; weights are whole units, as the table's column index requires. */
  datatype Item = Item(value: int, weight: nat)

  /** `Math.max` on integers. */
  function Max(a: int, b: int): (m: int)
    ensures m >= a && m >= b && (m == a || m == b)
  {
    if a >= b then a else b
  }

  /** The value the program stores in `results[i][j]`. */
  function Entry(items: seq<Item>, i: nat, j: nat): int
    requires i <= |items|
  {
    if i == 0 || j == 0 then 0
    else if items[i - 1].weight > j then Entry(items, i - 1, j)
    else Max(Entry(items, i - 1, j), items[i - 1].value + Entry(items, i - 1, j - items[i - 1].weight))
  }

  /** The number of columns of a table row: one per capacity 0..capacity, none for a negative capacity. */
  function Width(capacity: int): nat {
    if capacity < 0 then 0 else capacity + 1
  }

  /** `row` is row `i` of the table: one cell per capacity, each holding its `Entry`. */
  ghost predicate IsRow(items: seq<Item>, row: seq<int>, i: nat, capacity: int)
    requires i <= |items|
  {
    && |row| == Width(capacity)
    && forall c :: 0 <= c < |row| ==> row[c] == Entry(items, i, c)
  }

  /**
   * `knapsack(items, capacity)`: fill the table row by row, left to right, and
   * read `results[items.length][capacity]`. For a negative capacity every row
   * is empty and that read finds nothing. The filled table is returned as
   * `table`: one row per number of items considered, each row following the
   * recurrence.
   */
  method Solve(items: seq<Item>, capacity: int) returns (best: Option<int>, ghost table: seq<seq<int>>)
    ensures capacity < 0 ==> best == None
    ensures capacity >= 0 ==> best == Some(Entry(items, |items|, capacity))
    ensures |table| == |items| + 1
    ensures forall i :: 0 <= i <= |items| ==> IsRow(items, table[i], i, capacity)
  {
    var results: seq<seq<int>> := [];
    for i := 0 to |items| + 1
      invariant |results| == i
      invariant forall r :: 0 <= r < i ==> IsRow(items, results[r], r, capacity)
    {
      var itemRow: seq<int> := [];
      var j := 0;
      while j <= capacity
        invariant 0 <= j <= Width(capacity)
        invariant |itemRow| == j
        invariant forall c :: 0 <= c < j ==> itemRow[c] == Entry(items, i, c)
      {
        if i == 0 || j == 0 {
          itemRow := itemRow + [0];
        } else {
          var item := items[i - 1];
          assert IsRow(items, results[i - 1], i - 1, capacity);
          var maxWithoutItem := results[i - 1][j];
          if item.weight > j {
            itemRow := itemRow + [maxWithoutItem];
          } else {
            var maxWithItem := item.value + results[i - 1][j - item.weight];
            itemRow := itemRow + [Max(maxWithoutItem, maxWithItem)];
          }
        }
        j := j + 1;
      }
      results := results + [itemRow];
    }
    table := results;
    var last := results[|items|];
    assert IsRow(items, last, |items|, capacity);
    if 0 <= capacity < |last| {
      best := Some(last[capacity]);
    } else {
      best := None;
    }
  }

  /** Adding an item to the choice never lowers a cell: `results[i][j] >= results[i - 1][j]`. */
  lemma EntryGrowsWithItems(items: seq<Item>, i: nat, j: nat)
    requires 0 < i <= |items|
    ensures Entry(items, i, j) >= Entry(items, i - 1, j)
  {
  }

  /** Every cell is at least 0, whatever the values: the empty choice is always available. */
  lemma {:induction false} EntryNonNegative(items: seq<Item>, i: nat, j: nat)
    requires i <= |items|
    ensures Entry(items, i, j) >= 0
  {
    if i > 0 && j > 0 {
      EntryNonNegative(items, i - 1, j);
    }
  }

  // Selections: `sel[k]` says whether item `k` goes into the knapsack.

  /** The total weight of the selected items among the first `|sel|`. */
  function Weight(items: seq<Item>, sel: seq<bool>): nat
    requires |sel| <= |items|
  {
    if sel == [] then 0
    else Weight(items, sel[..|sel| - 1]) + (if sel[|sel| - 1] then items[|sel| - 1].weight else 0)
  }

  /** The total value of the selected items among the first `|sel|`. */
  function Value(items: seq<Item>, sel: seq<bool>): int
    requires |sel| <= |items|
  {
    if sel == [] then 0
    else Value(items, sel[..|sel| - 1]) + (if sel[|sel| - 1] then items[|sel| - 1].value else 0)
  }

  /** The best value with the first `i` items and room `j`, for items of any weight, zero included. */
  function Optimum(items: seq<Item>, i: nat, j: nat): int
    requires i <= |items|
  {
    if i == 0 then 0
    else if items[i - 1].weight > j then Optimum(items, i - 1, j)
    else Max(Optimum(items, i - 1, j), items[i - 1].value + Optimum(items, i - 1, j - items[i - 1].weight))
  }

  /** No selection that fits in room `j` is worth more than `Optimum`. */
  lemma {:induction false} OptimumIsUpperBound(items: seq<Item>, sel: seq<bool>, j: nat)
    requires |sel| <= |items|
    requires Weight(items, sel) <= j
    ensures Value(items, sel) <= Optimum(items, |sel|, j)
  {
    if sel != [] {
      var i := |sel|;
      var prefix := sel[..i - 1];
      if sel[i - 1] {
        OptimumIsUpperBound(items, prefix, j - items[i - 1].weight);
      } else {
        OptimumIsUpperBound(items, prefix, j);
      }
    }
  }

  /** A selection that fits in room `j` and is worth exactly `Optimum`. */
  function BestChoice(items: seq<Item>, i: nat, j: nat): (sel: seq<bool>)
    requires i <= |items|
    ensures |sel| == i
    ensures Weight(items, sel) <= j
    ensures Value(items, sel) == Optimum(items, i, j)
  {
    if i == 0 then []
    else
      var item := items[i - 1];
      if item.weight > j || Optimum(items, i - 1, j) >= item.value + Optimum(items, i - 1, j - item.weight) then
        var sel := BestChoice(items, i - 1, j) + [false];
        assert sel[..i - 1] == BestChoice(items, i - 1, j);
        sel
      else
        var sel := BestChoice(items, i - 1, j - item.weight) + [true];
        assert sel[..i - 1] == BestChoice(items, i - 1, j - item.weight);
        sel
  }

  /** With positive weights the program's table agrees with `Optimum` everywhere. */
  lemma {:induction false} EntryIsOptimum(items: seq<Item>, i: nat, j: nat)
    requires i <= |items|
    requires forall k :: 0 <= k < |items| ==> items[k].weight > 0
    ensures Entry(items, i, j) == Optimum(items, i, j)
  {
    if i > 0 {
      EntryIsOptimum(items, i - 1, j);
      if items[i - 1].weight <= j {
        EntryIsOptimum(items, i - 1, j - items[i - 1].weight);
      }
    }
  }

  /**
   * With positive weights, the answer is the best total value over all
   * selections whose total weight is at most the capacity, and one selection
   * attains it.
   */
  lemma SolveIsOptimal(items: seq<Item>, capacity: nat)
    requires forall k :: 0 <= k < |items| ==> items[k].weight > 0
    ensures forall sel ::
      |sel| == |items| && Weight(items, sel) <= capacity ==> Value(items, sel) <= Entry(items, |items|, capacity)
    ensures exists sel ::
      |sel| == |items| && Weight(items, sel) <= capacity && Value(items, sel) == Entry(items, |items|, capacity)
  {
    EntryIsOptimum(items, |items|, capacity);
    forall sel | |sel| == |items| && Weight(items, sel) <= capacity
      ensures Value(items, sel) <= Entry(items, |items|, capacity)
    {
      OptimumIsUpperBound(items, sel, capacity);
    }
    var best := BestChoice(items, |items|, capacity);
    assert |best| == |items|;
  }

  /**
   * The shortcut "capacity 0 is worth 0" drops zero-weight items: with a
   * zero-weight item worth 5 and an item of weight 1 worth 1, room 1 holds
   * both (worth 6), but the table says 5.
   */
  lemma ZeroWeightItemMissed()
    ensures var items := [Item(5, 0), Item(1, 1)];
      && Weight(items, [true, true]) == 1
      && Value(items, [true, true]) == 6
      && Entry(items, 2, 1) == 5
      && Optimum(items, 2, 1) == 6
  {
    var items := [Item(5, 0), Item(1, 1)];
    assert [true, true][..1] == [true];
    assert [true][..0] == [];
    assert Entry(items, 1, 1) == 5;
    assert Optimum(items, 1, 0) == 5;
    assert Optimum(items, 1, 1) == 5;
  }
}
