/**
 * `calculate_distance_matrix`: builds the square matrix of toll locations from the
 * directional measurements. The measurements table has one row per location and one
 * column per ordered pair "A-B"; here it is a map keyed by the ordered pair itself, and a
 * pair without a column is a key the map does not have. The matrix starts with every cell
 * empty, and a cell the builder never writes stays empty: it is a key the result lacks,
 * never a 0.
 */
module DistanceMatrix {
  import opened Wrappers

  type LocationId = int

  /** Directional measurements: the distance from the first id of the pair to the second. */
  type Measurements = map<(LocationId, LocationId), real>

  /** The distance matrix: the written cells. */
  type Matrix = map<(LocationId, LocationId), real>

  predicate Distinct(ids: seq<LocationId>) {
    forall i, j :: 0 <= i < j < |ids| ==> ids[i] != ids[j]
  }

  /** The value the builder leaves in cell (a, b), None for a cell it never writes. */
  ghost function CellValue(d: Measurements, a: LocationId, b: LocationId): Option<real> {
    if a == b then Some(0.0)
    else if (a, b) in d && (b, a) in d then Some(d[(a, b)] + d[(b, a)])
    else None
  }

  /**
   * The nested loop over the location index: a diagonal cell is set to 0; for a != b with
   * both directions measured, cells (a, b) and (b, a) both receive the sum of the two
   * directions; every other cell is left unwritten.
   */
  method CalculateDistanceMatrix(ids: seq<LocationId>, d: Measurements) returns (m: Matrix)
    ensures forall a, b :: (a, b) in m ==> a in ids && b in ids
    ensures forall a :: a in ids ==> (a, a) in m && m[(a, a)] == 0.0
    ensures forall a, b :: a in ids && b in ids && a != b ==>
              ((a, b) in m <==> (a, b) in d && (b, a) in d)
    ensures forall a, b :: (a, b) in m && a != b ==> m[(a, b)] == d[(a, b)] + d[(b, a)]
    ensures forall a, b :: (a, b) in m ==> (b, a) in m && m[(b, a)] == m[(a, b)]
  {
    m := map[];
    var i := 0;
    while i < |ids|
      invariant 0 <= i <= |ids|
      invariant forall a, b :: (a, b) in m ==>
                  a in ids && b in ids && CellValue(d, a, b) == Some(m[(a, b)])
      invariant forall p, q :: 0 <= p < i && 0 <= q < |ids| && CellValue(d, ids[p], ids[q]).Some? ==>
                  (ids[p], ids[q]) in m
    {
      var j := 0;
      while j < |ids|
        invariant 0 <= j <= |ids|
        invariant forall a, b :: (a, b) in m ==>
                    a in ids && b in ids && CellValue(d, a, b) == Some(m[(a, b)])
        invariant forall p, q :: 0 <= p < i && 0 <= q < |ids| && CellValue(d, ids[p], ids[q]).Some? ==>
                    (ids[p], ids[q]) in m
        invariant forall q :: 0 <= q < j && CellValue(d, ids[i], ids[q]).Some? ==> (ids[i], ids[q]) in m
      {
        var a, b := ids[i], ids[j];
        if a == b {
          m := m[(a, b) := 0.0];
        } else if (a, b) in d && (b, a) in d {
          var cumulative := d[(a, b)] + d[(b, a)];
          m := m[(a, b) := cumulative];
          m := m[(b, a) := cumulative];
        }
        j := j + 1;
      }
      i := i + 1;
    }
    forall a | a in ids ensures (a, a) in m {
      var p :| 0 <= p < |ids| && ids[p] == a;
      assert CellValue(d, ids[p], ids[p]).Some?;
    }
    forall a, b | a in ids && b in ids && a != b && (a, b) in d && (b, a) in d ensures (a, b) in m {
      var p :| 0 <= p < |ids| && ids[p] == a;
      var q :| 0 <= q < |ids| && ids[q] == b;
      assert CellValue(d, ids[p], ids[q]).Some?;
    }
  }
}
