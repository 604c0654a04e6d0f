/**
 * `get_bus_indexes` and `filter_routes`: select the row positions whose bus count is above
 * twice the column mean, and the routes whose mean truck count is above 7; each result list
 * is then sorted in place.
 */
module RowFilters {
  import opened Sorting
  import opened Numeric
  import opened Dataset

  const TruckThreshold: real := 7.0

  function Buses(records: seq<Record>): (bs: seq<real>)
    ensures |bs| == |records|
    ensures forall i :: 0 <= i < |records| ==> bs[i] == records[i].bus
  {
    if records == [] then [] else Buses(records[..|records| - 1]) + [records[|records| - 1].bus]
  }

  /** The bus count of record `i` is strictly above twice the mean of the bus column. */
  predicate BusAboveTwiceMean(records: seq<Record>, i: int)
    requires 0 <= i < |records|
  {
    records[i].bus > 2.0 * Mean(Buses(records))
  }

  /** The positions below `n` whose bus count is strictly above `threshold`, in increasing order. */
  function PositionsAbove(records: seq<Record>, threshold: real, n: nat): (ps: seq<int>)
    requires n <= |records|
    ensures StrictlyAscending(ps)
    ensures forall x :: x in ps <==> 0 <= x < n && records[x].bus > threshold
  {
    if n == 0 then []
    else
      var before := PositionsAbove(records, threshold, n - 1);
      assert forall k :: 0 <= k < |before| ==> before[k] in before;
      if records[n - 1].bus > threshold then before + [n - 1] else before
  }

  /**
   * `get_bus_indexes`, with the table's index being the row positions. An empty table has
   * an undefined mean, which no comparison selects, so its result is empty.
   */
  method GetBusIndexes(records: seq<Record>) returns (indexes: seq<int>)
    ensures StrictlyAscending(indexes)
    ensures forall i :: i in indexes <==> 0 <= i < |records| && BusAboveTwiceMean(records, i)
  {
    if |records| == 0 {
      return [];
    }
    var busMean := Mean(Buses(records));
    indexes := PositionsAbove(records, 2.0 * busMean, |records|);
    StrictlyAscendingIsAscending(indexes);
    SortOfAscending(indexes);
    indexes := Sort(indexes);
  }

  /** When every bus count is the same non-negative value, no row is above twice the mean. */
  lemma UniformBusesSelectNothing(records: seq<Record>, c: real)
    requires |records| > 0 && c >= 0.0
    requires forall i :: 0 <= i < |records| ==> records[i].bus == c
    ensures forall i :: 0 <= i < |records| ==> !BusAboveTwiceMean(records, i)
  {
    MeanOfConstant(Buses(records), c);
  }

  function Routes(records: seq<Record>): (rs: seq<int>)
    ensures forall r :: r in rs <==> exists i :: 0 <= i < |records| && records[i].route == r
  {
    if records == [] then [] else Routes(records[..|records| - 1]) + [records[|records| - 1].route]
  }

  /** The positions of the records on `route`, in increasing order. */
  function RoutePositions(records: seq<Record>, route: int): (ps: seq<int>)
    ensures StrictlyAscending(ps)
    ensures forall i :: 0 <= i < |ps| ==> 0 <= ps[i] < |records|
    ensures forall k :: k in ps <==> 0 <= k < |records| && records[k].route == route
  {
    if records == [] then []
    else
      var init := records[..|records| - 1];
      var before := RoutePositions(init, route);
      assert forall k :: 0 <= k < |init| ==> records[k] == init[k];
      if records[|records| - 1].route == route then before + [|records| - 1] else before
  }

  /**
   * The truck counts of the records on `route`, in table order: one value per record of the
   * route, the i-th taken from the i-th of them.
   */
  function TrucksOf(records: seq<Record>, route: int): (ts: seq<real>)
    ensures |ts| > 0 <==> exists i :: 0 <= i < |records| && records[i].route == route
    ensures |ts| == |RoutePositions(records, route)|
    ensures forall i :: 0 <= i < |ts| ==> ts[i] == records[RoutePositions(records, route)[i]].truck
  {
    if records == [] then []
    else
      var last := records[|records| - 1];
      var rest := TrucksOf(records[..|records| - 1], route);
      TrucksOfStep(records, route, rest);
      rest + (if last.route == route then [last.truck] else [])
  }

  /** The step of `TrucksOf` that adds the last record keeps the column aligned with `RoutePositions`. */
  lemma TrucksOfStep(records: seq<Record>, route: int, rest: seq<real>)
    requires |records| > 0
    requires |rest| == |RoutePositions(records[..|records| - 1], route)|
    requires forall i :: 0 <= i < |rest| ==>
               rest[i] == records[..|records| - 1][RoutePositions(records[..|records| - 1], route)[i]].truck
    ensures var last := records[|records| - 1];
            var ts := rest + (if last.route == route then [last.truck] else []);
            |ts| == |RoutePositions(records, route)| &&
            forall i :: 0 <= i < |ts| ==> ts[i] == records[RoutePositions(records, route)[i]].truck
  {
    var init := records[..|records| - 1];
    var before := RoutePositions(init, route);
    var ps := RoutePositions(records, route);
    forall i | 0 <= i < |rest| ensures rest[i] == records[before[i]].truck {
      assert records[before[i]] == init[before[i]];
    }
    if records[|records| - 1].route == route {
      assert ps == before + [|records| - 1];
    } else {
      assert ps == before;
      assert rest + [] == rest;
    }
  }

  /** The route occurs in the table and its mean truck count is strictly above 7. */
  predicate HeavyRoute(records: seq<Record>, route: int) {
    var ts := TrucksOf(records, route);
    |ts| > 0 && Mean(ts) > TruckThreshold
  }

  /** The routes of `keys` that are heavy, keeping their order. */
  function HeavyAmong(records: seq<Record>, keys: seq<int>): (rs: seq<int>)
    requires StrictlyAscending(keys)
    ensures StrictlyAscending(rs)
    ensures forall r :: r in rs <==> r in keys && HeavyRoute(records, r)
  {
    if keys == [] then []
    else
      var init, last := keys[..|keys| - 1], keys[|keys| - 1];
      var before := HeavyAmong(records, init);
      assert forall k :: 0 <= k < |before| ==> before[k] < last by {
        forall k | 0 <= k < |before| ensures before[k] < last {
          assert before[k] in before;
          var m :| 0 <= m < |init| && init[m] == before[k];
          assert keys[m] == before[k];
        }
      }
      assert forall r :: r in keys <==> r in init || r == last by {
        assert keys == init + [last];
      }
      if HeavyRoute(records, last) then before + [last] else before
  }

  /** `filter_routes`: the group keys (sorted and distinct), those with a heavy mean, sorted. */
  method FilterRoutes(records: seq<Record>) returns (selected: seq<int>)
    ensures StrictlyAscending(selected)
    ensures forall r :: r in selected <==> HeavyRoute(records, r)
  {
    var groups := SortedUnique(Routes(records));
    selected := HeavyAmong(records, groups);
    StrictlyAscendingIsAscending(selected);
    SortOfAscending(selected);
    selected := Sort(selected);
  }

  /** A route whose every truck count is `c` is selected exactly when `c` is above 7. */
  lemma UniformRouteSelectedIff(records: seq<Record>, route: int, c: real)
    requires exists i :: 0 <= i < |records| && records[i].route == route
    requires forall i :: 0 <= i < |records| && records[i].route == route ==> records[i].truck == c
    ensures HeavyRoute(records, route) <==> c > TruckThreshold
  {
    TrucksOfUniform(records, route, c);
    MeanOfConstant(TrucksOf(records, route), c);
  }

  /** Every value of a route's truck column is `c` when every record of the route counts `c` trucks. */
  lemma TrucksOfUniform(records: seq<Record>, route: int, c: real)
    requires forall i :: 0 <= i < |records| && records[i].route == route ==> records[i].truck == c
    ensures forall k :: 0 <= k < |TrucksOf(records, route)| ==> TrucksOf(records, route)[k] == c
  {
    var ps := RoutePositions(records, route);
    forall k | 0 <= k < |ps| ensures records[ps[k]].route == route {
      assert ps[k] in ps;
    }
  }
}
