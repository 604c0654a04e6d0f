/**
 * `find_ids_within_ten_percentage_threshold`: the mean of the reference id's outgoing
 * distances gives the inclusive band [0.9 * mean, 1.1 * mean]; the answer is the sorted,
 * duplicate-free list of `id_start` values of ALL edges whose distance lies in the band.
 * A reference without outgoing edges gives the not-found outcome, which is distinct from
 * an empty answer.
 */
module ThresholdFinder {
  import opened Wrappers
  import opened Sorting
  import opened Numeric
  import opened DistanceMatrix
  import opened Unroller

  datatype ThresholdError = ReferenceNotFound(reference: LocationId)

  /** The positions of the edges whose `id_start` is the reference, in increasing order. */
  function StartPositions(edges: seq<Edge>, reference: LocationId): (ps: seq<int>)
    ensures StrictlyAscending(ps)
    ensures forall i :: 0 <= i < |ps| ==> 0 <= ps[i] < |edges|
    ensures forall k :: k in ps <==> 0 <= k < |edges| && edges[k].idStart == reference
  {
    if edges == [] then []
    else
      var init := edges[..|edges| - 1];
      var before := StartPositions(init, reference);
      assert forall k :: 0 <= k < |init| ==> edges[k] == init[k];
      if edges[|edges| - 1].idStart == reference then before + [|edges| - 1] else before
  }

  /**
   * The distance column of the edges whose `id_start` is the reference, in relation order:
   * one value per such edge, the i-th taken from the i-th of them.
   */
  function ReferenceDistances(edges: seq<Edge>, reference: LocationId): (ds: seq<real>)
    ensures |ds| == 0 <==> forall k :: 0 <= k < |edges| ==> edges[k].idStart != reference
    ensures |ds| == |StartPositions(edges, reference)|
    ensures forall i :: 0 <= i < |ds| ==> ds[i] == edges[StartPositions(edges, reference)[i]].distance
  {
    if edges == [] then []
    else
      var init := edges[..|edges| - 1];
      var rest := ReferenceDistances(init, reference);
      var e := edges[|edges| - 1];
      ReferenceDistancesStep(edges, reference, rest);
      if e.idStart == reference then rest + [e.distance] else rest
  }

  /** The step of `ReferenceDistances` that adds the last edge keeps the column aligned with `StartPositions`. */
  lemma ReferenceDistancesStep(edges: seq<Edge>, reference: LocationId, rest: seq<real>)
    requires |edges| > 0
    requires |rest| == |StartPositions(edges[..|edges| - 1], reference)|
    requires forall i :: 0 <= i < |rest| ==>
               rest[i] == edges[..|edges| - 1][StartPositions(edges[..|edges| - 1], reference)[i]].distance
    ensures var ds := if edges[|edges| - 1].idStart == reference then rest + [edges[|edges| - 1].distance] else rest;
            |ds| == |StartPositions(edges, reference)| &&
            forall i :: 0 <= i < |ds| ==> ds[i] == edges[StartPositions(edges, reference)[i]].distance
  {
    var init := edges[..|edges| - 1];
    var before := StartPositions(init, reference);
    var ps := StartPositions(edges, reference);
    forall i | 0 <= i < |rest| ensures rest[i] == edges[before[i]].distance {
      assert edges[before[i]] == init[before[i]];
    }
    if edges[|edges| - 1].idStart == reference {
      assert ps == before + [|edges| - 1];
    } else {
      assert ps == before;
    }
  }

  /** Both bounds are inclusive. */
  predicate WithinBounds(distance: real, average: real) {
    average * 0.9 <= distance <= average * 1.1
  }

  /** The `id_start` column of the edges whose distance is within the band around `average`. */
  function StartsWithin(edges: seq<Edge>, average: real): (ids: seq<LocationId>)
    ensures forall x :: x in ids <==>
              exists k :: 0 <= k < |edges| && edges[k].idStart == x && WithinBounds(edges[k].distance, average)
  {
    if edges == [] then []
    else
      var init := edges[..|edges| - 1];
      var e := edges[|edges| - 1];
      var rest := StartsWithin(init, average);
      assert forall k :: 0 <= k < |init| ==> edges[k] == init[k];
      if WithinBounds(e.distance, average) then rest + [e.idStart] else rest
  }

  function FindIdsWithinTenPercentageThreshold(edges: seq<Edge>, reference: LocationId)
    : (r: Result<seq<LocationId>, ThresholdError>)
    ensures r.Failure? <==> forall k :: 0 <= k < |edges| ==> edges[k].idStart != reference
    ensures r.Failure? ==> r.error == ReferenceNotFound(reference)
    ensures r.Success? ==> StrictlyAscending(r.value)
    ensures r.Success? ==> forall x :: x in r.value <==>
              exists k :: 0 <= k < |edges| && edges[k].idStart == x &&
                WithinBounds(edges[k].distance, Mean(ReferenceDistances(edges, reference)))
  {
    var referenceData := ReferenceDistances(edges, reference);
    if |referenceData| == 0 then
      Failure(ReferenceNotFound(reference))
    else
      var averageDistance := Mean(referenceData);
      Success(SortedUnique(StartsWithin(edges, averageDistance)))
  }

  /** A distance is averaged exactly when it is the distance of some edge starting at the reference. */
  lemma ReferenceDistancesMembership(edges: seq<Edge>, reference: LocationId)
    ensures forall d :: d in ReferenceDistances(edges, reference) <==>
              exists k :: 0 <= k < |edges| && edges[k].idStart == reference && edges[k].distance == d
  {
    var ds, ps := ReferenceDistances(edges, reference), StartPositions(edges, reference);
    forall d | d in ds
      ensures exists k :: 0 <= k < |edges| && edges[k].idStart == reference && edges[k].distance == d
    {
      var i :| 0 <= i < |ds| && ds[i] == d;
      assert ps[i] in ps;
    }
    forall k | 0 <= k < |edges| && edges[k].idStart == reference
      ensures edges[k].distance in ds
    {
      assert k in ps;
      var i :| 0 <= i < |ps| && ps[i] == k;
      assert ds[i] == edges[k].distance;
    }
  }

  /**
   * When every outgoing edge of the reference has the same non-negative distance, the mean
   * is that distance, which lies in its own band, so the reference is part of the answer.
   */
  lemma UniformReferenceIsIncluded(edges: seq<Edge>, reference: LocationId, d: real)
    requires d >= 0.0
    requires exists k :: 0 <= k < |edges| && edges[k].idStart == reference
    requires forall k :: 0 <= k < |edges| && edges[k].idStart == reference ==> edges[k].distance == d
    ensures FindIdsWithinTenPercentageThreshold(edges, reference).Success?
    ensures reference in FindIdsWithinTenPercentageThreshold(edges, reference).value
  {
    var ds := ReferenceDistances(edges, reference);
    ReferenceDistancesMembership(edges, reference);
    forall i | 0 <= i < |ds| ensures ds[i] == d {
      assert ds[i] in ds;
    }
    MeanOfConstant(ds, d);
    var k :| 0 <= k < |edges| && edges[k].idStart == reference;
    assert WithinBounds(edges[k].distance, Mean(ds));
  }

  /**
   * Reference 1 has edges of 10 and 20 (mean 15, band [13.5, 16.5]): an edge of 14 from
   * id 4 is in the band, the edges of 20 are not, and neither edge of id 1 is.
   */
  lemma ScenarioBand()
    ensures FindIdsWithinTenPercentageThreshold(
              [Edge(1, 2, 10.0), Edge(1, 3, 20.0), Edge(4, 5, 14.0), Edge(4, 6, 20.0)], 1)
            == Success([4])
  {
    var edges := [Edge(1, 2, 10.0), Edge(1, 3, 20.0), Edge(4, 5, 14.0), Edge(4, 6, 20.0)];
    ScenarioReferenceDistances(edges);
    assert Mean([10.0, 20.0]) == 15.0 by {
      assert [10.0, 20.0][..1] == [10.0];
      assert [10.0][..0] == [];
      assert Sum([10.0]) == 10.0;
      assert Sum([10.0, 20.0]) == 30.0;
    }
    ScenarioStartsWithin(edges);
    assert SortedUnique([4]) == [4];
  }

  /** The reference edges of the band scenario carry 10 and 20, in that order. */
  lemma ScenarioReferenceDistances(edges: seq<Edge>)
    requires edges == [Edge(1, 2, 10.0), Edge(1, 3, 20.0), Edge(4, 5, 14.0), Edge(4, 6, 20.0)]
    ensures ReferenceDistances(edges, 1) == [10.0, 20.0]
  {
    assert edges[..3][..2] == edges[..2];
    assert edges[..2][..1] == edges[..1];
    assert ReferenceDistances(edges[..1], 1) == [10.0];
    assert ReferenceDistances(edges[..2], 1) == [10.0, 20.0];
    assert ReferenceDistances(edges[..3], 1) == [10.0, 20.0];
  }

  /** Only the edge of 14, from id 4, lies in the band [13.5, 16.5] of the scenario. */
  lemma ScenarioStartsWithin(edges: seq<Edge>)
    requires edges == [Edge(1, 2, 10.0), Edge(1, 3, 20.0), Edge(4, 5, 14.0), Edge(4, 6, 20.0)]
    ensures StartsWithin(edges, 15.0) == [4]
  {
    assert edges[..3][..2] == edges[..2];
    assert edges[..2][..1] == edges[..1];
    assert StartsWithin(edges[..1], 15.0) == [];
    assert StartsWithin(edges[..2], 15.0) == [];
    assert StartsWithin(edges[..3], 15.0) == [4];
  }

  /** A reference id that starts no edge gives the not-found outcome, never an empty list. */
  lemma ScenarioNotFound()
    ensures FindIdsWithinTenPercentageThreshold([Edge(1, 2, 10.0), Edge(2, 1, 10.0)], 3)
            == Failure(ReferenceNotFound(3))
  {
  }
}
