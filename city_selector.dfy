/**
 * `select_dispersed_cities`: validate the table, drop rows without coordinates,
 * lower the target to the rows left, run the greedy loop on the coordinates of
 * those rows, read the picked positions out of the population-sorted table, and
 * hand that selection to the repair loop together with the sorted table.
 */
module CitySelector {
  import opened Wrappers
  import opened Cities
  import Greedy
  import Repair

  /** A row of the input table; a missing (NaN) coordinate is `None`. */
  datatype Row = Row(key: Key, name: string, population: int, lat: Option<real>, lng: Option<real>)

  /** The input table: its column names and its rows in order. */
  datatype Table = Table(columns: set<string>, rows: seq<Row>)

  predicate HasCoordinates(r: Row)
  {
    r.lat.Some? && r.lng.Some?
  }

  predicate HasCoordinateColumns(t: Table)
  {
    "lat" in t.columns && "lng" in t.columns
  }

  function ToEntry(r: Row): Entry
    requires HasCoordinates(r)
  {
    Entry(r.key, City(r.name, r.population, Point(r.lat.value, r.lng.value)))
  }

  /**
   * `dropna(subset=['lat', 'lng'])`: the rows with both coordinates, in their order;
   * every such row is kept and nothing else is.
   */
  function DropMissing(rows: seq<Row>): (valid: seq<Entry>)
    ensures |valid| <= |rows|
    ensures (forall k :: 0 <= k < |rows| ==> HasCoordinates(rows[k])) ==> |valid| == |rows|
    ensures forall k :: 0 <= k < |rows| && HasCoordinates(rows[k]) ==> ToEntry(rows[k]) in valid
    ensures forall e :: e in valid ==> exists k :: 0 <= k < |rows| && HasCoordinates(rows[k]) && e == ToEntry(rows[k])
  {
    if rows == [] then []
    else
      var rest := DropMissing(rows[1..]);
      assert forall k :: 1 <= k < |rows| ==> rows[k] == rows[1..][k - 1];
      if HasCoordinates(rows[0]) then [ToEntry(rows[0])] + rest else rest
  }

  /** One row is kept, as its entry, exactly when it has both coordinates. */
  lemma DropMissingOne(r: Row)
    ensures DropMissing([r]) == if HasCoordinates(r) then [ToEntry(r)] else []
  {
  }

  /**
   * `dropna` keeps the rows in their order: filtering a concatenation filters each
   * part and concatenates the results. With `DropMissingOne` this fixes the result
   * of every table, row by row.
   */
  lemma {:induction false} DropMissingAppend(a: seq<Row>, b: seq<Row>)
    ensures DropMissing(a + b) == DropMissing(a) + DropMissing(b)
  {
    if a == [] {
      assert a + b == b;
    } else {
      assert (a + b)[1..] == a[1..] + b;
      DropMissingAppend(a[1..], b);
    }
  }

  /** `sorted` is the table after `sort_values('population', ascending=False)`. */
  ghost predicate IsPopulationOrder(sorted: seq<Entry>, valid: seq<Entry>)
  {
    && multiset(sorted) == multiset(valid)
    && forall a, b :: 0 <= a < b < |sorted| ==> sorted[a].city.population >= sorted[b].city.population
  }

  /** The number of cities the greedy loop returns for a target of n. */
  function SelectionSize(n: int): nat
  {
    if n <= 1 then 1 else n
  }

  /** `iloc[positions]`: the records at the given positions, in that order. */
  function RowsAt(table: seq<Entry>, positions: seq<nat>): (cities: seq<City>)
    requires forall k :: 0 <= k < |positions| ==> positions[k] < |table|
    ensures |cities| == |positions|
    ensures forall k :: 0 <= k < |positions| ==> cities[k] == table[positions[k]].city
    ensures forall k :: 0 <= k < |positions| ==> Repair.InPool(cities[k], table)
  {
    var cities := seq(|positions|, k requires 0 <= k < |positions| => table[positions[k]].city);
    assert forall k :: 0 <= k < |positions| ==> table[positions[k]] in table;
    cities
  }

  /** The target after lowering it to the number of valid rows (lines 182-184). */
  function Target(valid: seq<Entry>, nCities: int): int
  {
    if |valid| < nCities then |valid| else nCities
  }

  /**
   * Lines 182-216: lower the target to the number of valid rows and run the greedy
   * loop on their coordinates, in the order the rows had before the sort.
   */
  method GreedyPhase(valid: seq<Entry>, nCities: int, dist: Distance) returns (picked: seq<nat>)
    ensures |picked| == SelectionSize(Target(valid, nCities)) && picked[0] == 0
    ensures |valid| > 0 ==> forall k :: 0 <= k < |picked| ==> picked[k] < |valid|
    ensures |valid| > 0 ==> forall r :: 1 <= r < |picked| ==>
              Greedy.IsFarthestPick(Points(EntryCities(valid)), picked[..r], picked[r], dist)
  {
    var n := nCities;
    if |valid| < n {
      n := |valid|;
    }
    picked := Greedy.SelectPositions(Points(EntryCities(valid)), n, dist);
  }

  /**
   * Lines 219-226: read the picked positions out of the sorted table, reset the
   * index so that the labels are the slots 0..k-1, and hand the selection to the
   * repair, whose cities all come from the sorted table.
   */
  method RepairPhase(sorted: seq<Entry>, picked: seq<nat>, minDistanceKm: int, dist: Distance)
    returns (result: Result<seq<City>, SelectError>, ghost initial: seq<City>,
             ghost trace: seq<Repair.Snapshot>, ghost steps: seq<Repair.Step>)
    requires Symmetric(dist)
    requires forall k :: 0 <= k < |picked| ==> picked[k] < |sorted|
    ensures initial == RowsAt(sorted, picked)
    ensures result.Err? ==> result.error.LabelNotInSet?
    ensures Repair.IsRun(trace, steps, sorted, minDistanceKm, dist)
    ensures trace[0] == Repair.Snapshot(initial, Repair.SlotLabels(|initial|))
    ensures result.Ok? ==> |result.value| == |picked| && result.value == trace[|trace| - 1].cities
    ensures result.Ok? ==> forall k :: 0 <= k < |result.value| ==> Repair.InPool(result.value[k], sorted)
    ensures result.Ok? ==> Repair.IsConverged(result.value, minDistanceKm, dist)
                           || Repair.IsStalled(result.value, sorted, trace[|trace| - 1].labels, minDistanceKm, dist)
    ensures result.Err? ==> exists step :: && Repair.IsSwapDecision(trace[|trace| - 1], step, sorted, minDistanceKm, dist)
                                           && step.target !in trace[|trace| - 1].labels
                                           && result.error == LabelNotInSet(step.target)
    ensures result.Ok? && Repair.IsConverged(initial, minDistanceKm, dist) ==> result.value == initial
    ensures result.Ok? && |initial| >= 2 ==> Repair.MinPairDist(result.value, dist) >= Repair.MinPairDist(initial, dist)
  {
    var selected := RowsAt(sorted, picked);
    initial := selected;
    result, trace, steps := Repair.Repair(selected, sorted, minDistanceKm, dist);
    if result.Ok? {
      var cities := result.value;
      forall k | 0 <= k < |cities| ensures Repair.InPool(cities[k], sorted) {
        assert cities[k] == selected[k] || Repair.InPool(cities[k], sorted);
      }
    }
  }

  /**
   * The whole selection (lines 160-226). The population sort is a library call whose
   * order among equal populations is not fixed, so its result is the parameter
   * `sorted`. The greedy positions index the coordinates of the valid rows in their
   * original order, while the cities are read from `sorted` at those positions;
   * `positions` and `initial` are the greedy's picks and the selection handed to the
   * repair.
   */
  method SelectDispersedCities(table: Table, nCities: int, minDistanceKm: int, dist: Distance, sorted: seq<Entry>)
    returns (result: Result<seq<City>, SelectError>, ghost positions: seq<nat>, ghost initial: seq<City>,
             ghost trace: seq<Repair.Snapshot>, ghost steps: seq<Repair.Step>)
    requires Symmetric(dist)
    requires HasCoordinateColumns(table) ==> IsPopulationOrder(sorted, DropMissing(table.rows))
    ensures result == Err(MissingCoordinateColumns) <==> !HasCoordinateColumns(table)
    ensures result == Err(PositionOutOfBounds) <==> HasCoordinateColumns(table) && DropMissing(table.rows) == []
    ensures result.Err? ==> result.error.MissingCoordinateColumns? || result.error.PositionOutOfBounds?
                            || result.error.LabelNotInSet?
    ensures result.Ok? ==> |result.value| == SelectionSize(Target(DropMissing(table.rows), nCities))
    ensures result.Ok? ==> |positions| == |result.value|
    ensures result.Ok? || result.error.LabelNotInSet? ==>
              |positions| == SelectionSize(Target(DropMissing(table.rows), nCities)) && positions[0] == 0
    ensures result.Ok? || result.error.LabelNotInSet? ==>
              (forall k :: 0 <= k < |positions| ==> positions[k] < |DropMissing(table.rows)|)
              && forall r :: 1 <= r < |positions| ==>
                   Greedy.IsFarthestPick(Points(EntryCities(DropMissing(table.rows))), positions[..r], positions[r], dist)
    ensures result.Ok? || result.error.LabelNotInSet? ==>
              |sorted| > 0 && (forall k :: 0 <= k < |positions| ==> positions[k] < |sorted|)
              && initial == RowsAt(sorted, positions)
    ensures result.Ok? ==> forall k :: 0 <= k < |result.value| ==> Repair.InPool(result.value[k], sorted)
    ensures result.Ok? && Repair.IsConverged(initial, minDistanceKm, dist) ==> result.value == initial
    ensures result.Ok? || result.error.LabelNotInSet? ==>
              && Repair.IsRun(trace, steps, sorted, minDistanceKm, dist)
              && trace[0] == Repair.Snapshot(initial, Repair.SlotLabels(|initial|))
    ensures result.Ok? ==> result.value == trace[|trace| - 1].cities
                           && (Repair.IsConverged(result.value, minDistanceKm, dist)
                               || Repair.IsStalled(result.value, sorted, trace[|trace| - 1].labels, minDistanceKm, dist))
    ensures result.Err? && result.error.LabelNotInSet? ==>
              exists step :: && Repair.IsSwapDecision(trace[|trace| - 1], step, sorted, minDistanceKm, dist)
                             && step.target !in trace[|trace| - 1].labels
                             && result.error == LabelNotInSet(step.target)
    ensures result.Ok? && |initial| >= 2 ==> Repair.MinPairDist(result.value, dist) >= Repair.MinPairDist(initial, dist)
  {
    positions, initial, trace, steps := [], [], [], [];
    if !HasCoordinateColumns(table) {
      return Err(MissingCoordinateColumns), positions, initial, trace, steps;
    }
    var valid := DropMissing(table.rows);
    var picked := GreedyPhase(valid, nCities, dist);
    positions := picked;
    if |valid| == 0 {
      return Err(PositionOutOfBounds), positions, initial, trace, steps;
    }
    assert |sorted| == |valid| by {
      assert |multiset(sorted)| == |multiset(valid)|;
    }
    result, initial, trace, steps := RepairPhase(sorted, picked, minDistanceKm, dist);
  }

  /** The city records of a sequence of table rows. */
  function EntryCities(entries: seq<Entry>): (cities: seq<City>)
    ensures |cities| == |entries|
    ensures forall k :: 0 <= k < |entries| ==> cities[k] == entries[k].city
  {
    seq(|entries|, k requires 0 <= k < |entries| => entries[k].city)
  }
}
