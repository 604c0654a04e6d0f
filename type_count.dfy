/**
 * `get_type_count`: `pd.cut` with bin edges -inf, 15, 25, +inf and `right=False` puts each
 * car count in a left-closed, right-open bin labelled low, medium or high; the label is added
 * to the caller's table as a new column, the labels are counted, and the counts are returned
 * keyed by label in alphabetical order.
 */
module TypeCount {
  import opened Wrappers
  import opened Dataset

  /** The finite bin edges; the outer edges are -inf and +inf. */
  const CarBinEdges: seq<real> := [15.0, 25.0]

  /** The labels of the bins, from the lowest bin up. */
  const CarTypeLabels: seq<CarType> := [Low, Medium, High]

  predicate IncreasingEdges(edges: seq<real>) {
    forall i, j :: 0 <= i < j < |edges| ==> edges[i] < edges[j]
  }

  /** The 0-based bin of `x` when every bin includes its left edge and excludes its right one. */
  function BinIndex(x: real, edges: seq<real>): (k: nat)
    requires IncreasingEdges(edges)
    ensures k <= |edges|
    ensures k == 0 || edges[k - 1] <= x
    ensures k == |edges| || x < edges[k]
  {
    if |edges| == 0 || x < edges[0] then 0 else 1 + BinIndex(x, edges[1..])
  }

  /** The label `pd.cut` gives a car count; the three bins are car < 15, 15 <= car < 25 and car >= 25. */
  function CarTypeOf(car: real): (t: CarType)
    ensures t == Low <==> car < 15.0
    ensures t == Medium <==> 15.0 <= car < 25.0
    ensures t == High <==> 25.0 <= car
  {
    CarTypeLabels[BinIndex(car, CarBinEdges)]
  }

  /** The text of a label, as the result dictionary's keys spell it. */
  function Label(t: CarType): string {
    match t
    case Low => "low"
    case Medium => "medium"
    case High => "high"
  }

  /** How many of the records fall in bin `t`. */
  function Count(records: seq<Record>, t: CarType): (c: nat)
    ensures c <= |records|
    ensures c == 0 <==> forall k :: 0 <= k < |records| ==> CarTypeOf(records[k].car) != t
  {
    if records == [] then 0
    else Count(records[..|records| - 1], t) + (if CarTypeOf(records[|records| - 1].car) == t then 1 else 0)
  }

  /** Every record is in exactly one bin, so the three counts add up to the number of records. */
  lemma {:induction false} CountsSum(records: seq<Record>)
    ensures Count(records, Low) + Count(records, Medium) + Count(records, High) == |records|
  {
    if records != [] {
      CountsSum(records[..|records| - 1]);
    }
  }

  /** Strict lexicographic order on strings, as Python compares dictionary keys. */
  predicate LexLess(a: string, b: string) {
    if a == [] then b != []
    else if b == [] then false
    else a[0] < b[0] || (a[0] == b[0] && LexLess(a[1..], b[1..]))
  }

  /** The keys of the result in the order `sorted` leaves them. */
  const SortedTypes: seq<CarType> := [High, Low, Medium]

  /** The result keys are strictly increasing and name every bin once. */
  lemma SortedTypesAreSorted()
    ensures forall i :: 0 <= i < |SortedTypes| - 1 ==> LexLess(Label(SortedTypes[i]), Label(SortedTypes[i + 1]))
    ensures forall t: CarType :: t in SortedTypes
  {
    assert LexLess(Label(High), Label(Low)) && LexLess(Label(Low), Label(Medium)) by {
      assert "high"[0] < "low"[0] && "low"[0] < "medium"[0];
    }
    forall t: CarType ensures t in SortedTypes {
      assert t.Low? || t.Medium? || t.High?;
    }
  }

  /**
   * Adds the `carType` column to the caller's records and returns the count of each label,
   * in the sorted key order (high, low, medium). A categorical column counts every label,
   * so a label no record has appears with count 0.
   */
  method GetTypeCount(records: array<Record>) returns (counts: seq<(string, nat)>)
    modifies records
    ensures forall i :: 0 <= i < records.Length ==>
              records[i] == old(records[i]).(carType := Some(CarTypeOf(old(records[i]).car)))
    ensures |counts| == |SortedTypes|
    ensures forall i :: 0 <= i < |counts| ==>
              counts[i] == (Label(SortedTypes[i]), Count(old(records[..]), SortedTypes[i]))
  {
    ghost var original := records[..];
    for i := 0 to records.Length
      invariant forall j :: 0 <= j < records.Length ==>
                  records[j] == if j < i then original[j].(carType := Some(CarTypeOf(original[j].car))) else original[j]
    {
      records[i] := records[i].(carType := Some(CarTypeOf(records[i].car)));
    }
    var low, medium, high := 0, 0, 0;
    for i := 0 to records.Length
      invariant low == Count(original[..i], Low)
      invariant medium == Count(original[..i], Medium)
      invariant high == Count(original[..i], High)
    {
      assert original[..i + 1][..i] == original[..i];
      match records[i].carType
      case Some(Low) => low := low + 1;
      case Some(Medium) => medium := medium + 1;
      case Some(High) => high := high + 1;
      case None =>
    }
    assert original[..records.Length] == original;
    counts := [("high", high), ("low", low), ("medium", medium)];
  }
}
