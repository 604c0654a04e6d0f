/**
 * `generate_car_matrix`: pivot the table on id_1 (rows) and id_2 (columns) with the car
 * count as value, fill the pairs that have no record with 0, and then set the diagonal cell
 * of every column id to 0, one column at a time.
 */
module CarMatrix {
  import opened Sorting
  import opened Dataset

  /** The pivoted table: sorted row ids, sorted column ids and a cell per (row, column). */
  datatype Matrix = Matrix(index: seq<int>, columns: seq<int>, cells: map<(int, int), real>)

  /** `pivot` raises when two records share an (id_1, id_2) pair. */
  predicate UniquePairs(records: seq<Record>) {
    forall i, j :: 0 <= i < j < |records| ==> (records[i].id1, records[i].id2) != (records[j].id1, records[j].id2)
  }

  function Ids1(records: seq<Record>): (ids: seq<int>)
    ensures forall a :: a in ids <==> exists k :: 0 <= k < |records| && records[k].id1 == a
  {
    if records == [] then [] else [records[0].id1] + Ids1(records[1..])
  }

  function Ids2(records: seq<Record>): (ids: seq<int>)
    ensures forall b :: b in ids <==> exists k :: 0 <= k < |records| && records[k].id2 == b
  {
    if records == [] then [] else [records[0].id2] + Ids2(records[1..])
  }

  /** Some record carries the pair (a, b). */
  predicate Present(records: seq<Record>, a: int, b: int) {
    exists k :: 0 <= k < |records| && records[k].id1 == a && records[k].id2 == b
  }

  /** The car count recorded for (a, b), or the 0 that `fillna(0)` puts in a missing cell. */
  function CarAt(records: seq<Record>, a: int, b: int): real {
    if records == [] then 0.0
    else if records[0].id1 == a && records[0].id2 == b then records[0].car
    else CarAt(records[1..], a, b)
  }

  lemma {:induction false} CarAtPresent(records: seq<Record>, k: nat)
    requires UniquePairs(records)
    requires k < |records|
    ensures CarAt(records, records[k].id1, records[k].id2) == records[k].car
  {
    if k > 0 {
      assert (records[0].id1, records[0].id2) != (records[k].id1, records[k].id2);
      assert records[1..][k - 1] == records[k];
      CarAtPresent(records[1..], k - 1);
    }
  }

  lemma {:induction false} CarAtAbsent(records: seq<Record>, a: int, b: int)
    requires !Present(records, a, b)
    ensures CarAt(records, a, b) == 0.0
  {
    if records != [] {
      CarAtAbsent(records[1..], a, b);
    }
  }

  /** `pivot(...).fillna(0)`: every (row id, column id) cell, 0 where no record has the pair. */
  function Pivot(records: seq<Record>): (m: Matrix)
    ensures StrictlyAscending(m.index) && StrictlyAscending(m.columns)
    ensures forall a :: a in m.index <==> a in Ids1(records)
    ensures forall b :: b in m.columns <==> b in Ids2(records)
    ensures forall a, b :: (a, b) in m.cells <==> a in m.index && b in m.columns
  {
    var index, columns := SortedUnique(Ids1(records)), SortedUnique(Ids2(records));
    Matrix(index, columns, map a, b | a in index && b in columns :: (a, b) := CarAt(records, a, b))
  }

  /** The loop over the column ids that sets each diagonal cell to 0 and leaves every other cell alone. */
  method ZeroDiagonal(pivot: Matrix) returns (m: Matrix)
    requires forall b :: b in pivot.columns ==> (b, b) in pivot.cells
    ensures m.index == pivot.index && m.columns == pivot.columns
    ensures m.cells.Keys == pivot.cells.Keys
    ensures forall a, b :: (a, b) in m.cells ==>
              m.cells[(a, b)] == if a == b && b in pivot.columns then 0.0 else pivot.cells[(a, b)]
  {
    var cells := pivot.cells;
    for j := 0 to |pivot.columns|
      invariant cells.Keys == pivot.cells.Keys
      invariant forall a, b :: (a, b) in cells ==>
                  cells[(a, b)] == if a == b && b in pivot.columns[..j] then 0.0 else pivot.cells[(a, b)]
    {
      var column := pivot.columns[j];
      assert pivot.columns[..j + 1] == pivot.columns[..j] + [column];
      cells := cells[(column, column) := 0.0];
    }
    assert pivot.columns[..|pivot.columns|] == pivot.columns;
    m := Matrix(pivot.index, pivot.columns, cells);
  }

  /**
   * `generate_car_matrix`. Every column id must also be a row id: otherwise `.at` would add
   * a row to the table.
   */
  method GenerateCarMatrix(records: seq<Record>) returns (m: Matrix)
    requires UniquePairs(records)
    requires forall b :: b in Ids2(records) ==> b in Ids1(records)
    ensures StrictlyAscending(m.index) && StrictlyAscending(m.columns)
    ensures forall a :: a in m.index <==> exists k :: 0 <= k < |records| && records[k].id1 == a
    ensures forall b :: b in m.columns <==> exists k :: 0 <= k < |records| && records[k].id2 == b
    ensures forall a, b :: (a, b) in m.cells <==> a in m.index && b in m.columns
    ensures forall b :: b in m.columns ==> (b, b) in m.cells && m.cells[(b, b)] == 0.0
    ensures forall k :: 0 <= k < |records| && records[k].id1 != records[k].id2 ==>
              m.cells[(records[k].id1, records[k].id2)] == records[k].car
    ensures forall a, b :: (a, b) in m.cells && a != b && !Present(records, a, b) ==> m.cells[(a, b)] == 0.0
  {
    var pivot := Pivot(records);
    m := ZeroDiagonal(pivot);
    forall b | b in m.columns ensures (b, b) in m.cells && m.cells[(b, b)] == 0.0 {
      assert b in pivot.columns && b in Ids1(records);
      assert (b, b) in pivot.cells;
    }
    forall k | 0 <= k < |records| && records[k].id1 != records[k].id2
      ensures m.cells[(records[k].id1, records[k].id2)] == records[k].car
    {
      assert records[k].id1 in Ids1(records) && records[k].id2 in Ids2(records);
      CarAtPresent(records, k);
    }
    forall a, b | (a, b) in m.cells && a != b && !Present(records, a, b)
      ensures m.cells[(a, b)] == 0.0
    {
      CarAtAbsent(records, a, b);
    }
  }
}
