/**
 * `unroll_distance_matrix`: flattens the distance matrix into the edge relation
 * (id_start, id_end, distance), row by row over the index and, inside a row, column by
 * column, skipping the diagonal.
 */
module Unroller {
  import opened DistanceMatrix

  /** One row of the unrolled relation. */
  datatype Edge = Edge(idStart: LocationId, idEnd: LocationId, distance: real)

  /** Every off-diagonal cell of rows x cols is written. */
  predicate ResolvedOn(rows: seq<LocationId>, cols: seq<LocationId>, m: Matrix) {
    forall a, b :: a in rows && b in cols && a != b ==> (a, b) in m
  }

  /** The edges of row `a`, one per column other than `a`, in column order. */
  function RowEdges(a: LocationId, cols: seq<LocationId>, m: Matrix): seq<Edge>
    requires ResolvedOn([a], cols, m)
  {
    if cols == [] then []
    else
      var b := cols[|cols| - 1];
      RowEdges(a, cols[..|cols| - 1], m) + (if a != b then [Edge(a, b, m[(a, b)])] else [])
  }

  /** The edges of all rows, in row-major order. */
  function Unrolled(rows: seq<LocationId>, cols: seq<LocationId>, m: Matrix): seq<Edge>
    requires ResolvedOn(rows, cols, m)
  {
    if rows == [] then []
    else Unrolled(rows[..|rows| - 1], cols, m) + RowEdges(rows[|rows| - 1], cols, m)
  }

  /** The loop form of the source: one appended edge per ordered pair of distinct ids. */
  method UnrollDistanceMatrix(ids: seq<LocationId>, m: Matrix) returns (edges: seq<Edge>)
    requires ResolvedOn(ids, ids, m)
    ensures edges == Unrolled(ids, ids, m)
    ensures Distinct(ids) ==> |edges| == |ids| * (|ids| - 1)
    ensures forall k :: 0 <= k < |edges| ==>
              edges[k].idStart != edges[k].idEnd &&
              edges[k].idStart in ids && edges[k].idEnd in ids &&
              edges[k].distance == m[(edges[k].idStart, edges[k].idEnd)]
  {
    edges := [];
    var i := 0;
    while i < |ids|
      invariant 0 <= i <= |ids|
      invariant edges == Unrolled(ids[..i], ids, m)
    {
      var j := 0;
      while j < |ids|
        invariant 0 <= j <= |ids|
        invariant edges == Unrolled(ids[..i], ids, m) + RowEdges(ids[i], ids[..j], m)
      {
        assert ids[..j + 1][..j] == ids[..j];
        if ids[i] != ids[j] {
          edges := edges + [Edge(ids[i], ids[j], m[(ids[i], ids[j])])];
        }
        j := j + 1;
      }
      assert ids[..|ids|] == ids;
      assert ids[..i + 1][..i] == ids[..i];
      i := i + 1;
    }
    assert ids[..|ids|] == ids;
    if Distinct(ids) {
      UnrolledLength(ids, ids, m);
    }
    forall k | 0 <= k < |edges|
      ensures edges[k].idStart != edges[k].idEnd && edges[k].idStart in ids && edges[k].idEnd in ids
      ensures edges[k].distance == m[(edges[k].idStart, edges[k].idEnd)]
    {
      UnrolledMembership(ids, ids, m, edges[k]);
    }
  }

  /** Row `a` has one edge per column other than `a`. */
  lemma {:induction false} RowEdgesLength(a: LocationId, cols: seq<LocationId>, m: Matrix)
    requires ResolvedOn([a], cols, m)
    requires Distinct(cols)
    ensures |RowEdges(a, cols, m)| == if a in cols then |cols| - 1 else |cols|
  {
    if cols != [] {
      var init := cols[..|cols| - 1];
      assert forall x :: x in cols <==> x in init || x == cols[|cols| - 1];
      RowEdgesLength(a, init, m);
    }
  }

  /** Each row in `rows` drawn from the distinct `cols` contributes |cols| - 1 edges. */
  lemma {:induction false} UnrolledLength(rows: seq<LocationId>, cols: seq<LocationId>, m: Matrix)
    requires ResolvedOn(rows, cols, m)
    requires Distinct(cols)
    requires forall a :: a in rows ==> a in cols
    ensures |Unrolled(rows, cols, m)| == |rows| * (|cols| - 1)
  {
    if rows != [] {
      var init, last := rows[..|rows| - 1], rows[|rows| - 1];
      assert forall x :: x in init ==> x in rows;
      UnrolledLength(init, cols, m);
      RowEdgesLength(last, cols, m);
      assert last in cols;
      MulSucc(|init|, |cols| - 1);
    }
  }

  /** An edge is in row `a` exactly when it starts at `a`, ends at another column and carries that cell. */
  lemma {:induction false} RowEdgesMembership(a: LocationId, cols: seq<LocationId>, m: Matrix, e: Edge)
    requires ResolvedOn([a], cols, m)
    ensures e in RowEdges(a, cols, m) <==>
              e.idStart == a && e.idEnd in cols && e.idStart != e.idEnd && e.distance == m[(a, e.idEnd)]
  {
    if cols != [] {
      var init := cols[..|cols| - 1];
      assert forall x :: x in cols <==> x in init || x == cols[|cols| - 1];
      RowEdgesMembership(a, init, m, e);
    }
  }

  /** The unrolled relation holds exactly one edge per ordered pair of distinct ids, with that cell's distance. */
  lemma {:induction false} UnrolledMembership(rows: seq<LocationId>, cols: seq<LocationId>, m: Matrix, e: Edge)
    requires ResolvedOn(rows, cols, m)
    ensures e in Unrolled(rows, cols, m) <==>
              e.idStart in rows && e.idEnd in cols && e.idStart != e.idEnd &&
              e.distance == m[(e.idStart, e.idEnd)]
  {
    if rows != [] {
      var init := rows[..|rows| - 1];
      assert forall x :: x in rows <==> x in init || x == rows[|rows| - 1];
      UnrolledMembership(init, cols, m, e);
      RowEdgesMembership(rows[|rows| - 1], cols, m, e);
    }
  }

  /** Where the block of row `i` starts when every row holds `w` edges, by repeated addition; `OffsetIsProduct` shows it is i * w. */
  function Offset(i: nat, w: nat): nat {
    if i == 0 then 0 else Offset(i - 1, w) + w
  }

  lemma {:induction false} OffsetIsProduct(i: nat, w: nat)
    ensures Offset(i, w) == i * w
  {
    if i > 0 {
      OffsetIsProduct(i - 1, w);
      MulSucc(i - 1, w);
    }
  }

  /**
   * Row-major order: the i-th block of |cols| - 1 consecutive edges is the row of the i-th id.
   * The block starts at Offset(i, |cols| - 1), which is i * (|cols| - 1) (`OffsetIsProduct`).
   */
  lemma {:induction false} UnrolledRowMajor(rows: seq<LocationId>, cols: seq<LocationId>, m: Matrix, i: nat)
    requires ResolvedOn(rows, cols, m)
    requires Distinct(cols) && |cols| > 0
    requires forall a :: a in rows ==> a in cols
    requires i < |rows|
    ensures |Unrolled(rows, cols, m)| == Offset(|rows|, |cols| - 1)
    ensures Offset(i + 1, |cols| - 1) <= |Unrolled(rows, cols, m)|
    ensures Unrolled(rows, cols, m)[Offset(i, |cols| - 1) .. Offset(i + 1, |cols| - 1)] == RowEdges(rows[i], cols, m)
  {
    var init, last := rows[..|rows| - 1], rows[|rows| - 1];
    var w := |cols| - 1;
    assert last in cols;
    assert forall x :: x in init ==> x in rows;
    RowEdgesLength(last, cols, m);
    var prefix, row := Unrolled(init, cols, m), RowEdges(last, cols, m);
    if i < |init| {
      UnrolledRowMajor(init, cols, m, i);
      OffsetMonotone(i + 1, |init|, w);
      SliceOfConcat(prefix, row, Offset(i, w), Offset(i + 1, w));
    } else {
      if init == [] {
        assert prefix == [];
      } else {
        UnrolledRowMajor(init, cols, m, 0);
      }
      SliceOfConcat(prefix, row, Offset(i, w), Offset(i + 1, w));
    }
  }

  lemma {:induction false} OffsetMonotone(i: nat, j: nat, w: nat)
    requires i <= j
    ensures Offset(i, w) <= Offset(j, w)
  {
    if i < j {
      OffsetMonotone(i, j - 1, w);
    }
  }

  lemma SliceOfConcat<T>(a: seq<T>, b: seq<T>, lo: nat, hi: nat)
    requires lo <= hi <= |a| + |b|
    ensures hi <= |a| ==> (a + b)[lo..hi] == a[lo..hi]
    ensures lo == |a| && hi == |a| + |b| ==> (a + b)[lo..hi] == b
  {
  }


  lemma MulSucc(a: nat, w: int)
    ensures (a + 1) * w == a * w + w
  {
  }
}
