/**
 * `calculate_toll_rate`: adds one column per vehicle type to the caller's frame, each the
 * distance column times that type's fixed coefficient. The frame is an array of rows; the
 * vehicle columns of a row are a map from vehicle type to amount.
 */
module TollRates {
  import opened Unroller

  datatype Vehicle = Moto | Car | Rv | Bus | Truck

  /** The two lists the source zips together: vehicle_types and rate_coefficients. */
  const VehicleTypes: seq<Vehicle> := [Moto, Car, Rv, Bus, Truck]
  const RateCoefficients: seq<real> := [0.8, 1.2, 1.5, 2.2, 3.6]

  /**
   * A row of the toll frame: the unrolled edge, the trip's start and end timestamps
   * (seconds since datetime.min, supplied with the frame) and the vehicle columns present.
   */
  datatype TollRow = TollRow(edge: Edge, startTime: int, endTime: int, amounts: map<Vehicle, real>)

  /** The position of a vehicle type in the two zipped lists. */
  function Position(v: Vehicle): (k: nat)
    ensures k < |VehicleTypes| && VehicleTypes[k] == v
  {
    match v
    case Moto => 0
    case Car => 1
    case Rv => 2
    case Bus => 3
    case Truck => 4
  }

  /** The rate coefficient zipped with a vehicle type. */
  function Coefficient(v: Vehicle): real {
    RateCoefficients[Position(v)]
  }

  /** The toll of one vehicle column: the distance times the coefficient. */
  function Toll(distance: real, coefficient: real): real {
    distance * coefficient
  }

  /** The row once the first `k` vehicle columns have been assigned, in the order of the lists. */
  function RatedUpTo(r: TollRow, k: nat): TollRow
    requires k <= |VehicleTypes|
  {
    r.(amounts := map v | v in r.amounts || v in VehicleTypes[..k] ::
                    if v in VehicleTypes[..k] then Toll(r.edge.distance, Coefficient(v)) else r.amounts[v])
  }

  /** Assigning column `k` of a row whose first `k` columns are assigned leaves the first `k + 1` assigned. */
  lemma RatedNextColumn(r: TollRow, k: nat)
    requires k < |VehicleTypes|
    ensures RatedUpTo(r, k).(amounts := RatedUpTo(r, k).amounts[VehicleTypes[k] :=
              Toll(r.edge.distance, RateCoefficients[k])]) == RatedUpTo(r, k + 1)
  {
    var p, v := RatedUpTo(r, k), VehicleTypes[k];
    var a, b := p.amounts[v := Toll(r.edge.distance, RateCoefficients[k])], RatedUpTo(r, k + 1).amounts;
    assert VehicleTypes[..k + 1] == VehicleTypes[..k] + [v];
    assert forall u :: u in VehicleTypes[..k + 1] <==> u in VehicleTypes[..k] || u == v;
    assert Position(v) == k;
    assert a.Keys == b.Keys;
    forall u | u in a ensures a[u] == b[u] {
      if u != v {
        assert (u in VehicleTypes[..k + 1]) == (u in VehicleTypes[..k]);
      }
    }
    assert a == b;
  }

  /**
   * After `k` assignments the first `k` vehicle columns hold distance times coefficient,
   * the other vehicle columns are as they were, and the edge and timestamps are untouched.
   */
  lemma RatedUpToColumns(r: TollRow, k: nat)
    requires k <= |VehicleTypes|
    ensures RatedUpTo(r, k).edge == r.edge
    ensures RatedUpTo(r, k).startTime == r.startTime && RatedUpTo(r, k).endTime == r.endTime
    ensures forall j :: 0 <= j < k ==>
              VehicleTypes[j] in RatedUpTo(r, k).amounts &&
              RatedUpTo(r, k).amounts[VehicleTypes[j]] == r.edge.distance * RateCoefficients[j]
    ensures forall v :: v !in VehicleTypes[..k] ==>
              (v in RatedUpTo(r, k).amounts <==> v in r.amounts) &&
              (v in r.amounts ==> RatedUpTo(r, k).amounts[v] == r.amounts[v])
  {
    forall j | 0 <= j < k
      ensures VehicleTypes[j] in RatedUpTo(r, k).amounts &&
              RatedUpTo(r, k).amounts[VehicleTypes[j]] == r.edge.distance * RateCoefficients[j]
    {
      assert VehicleTypes[j] == VehicleTypes[..k][j];
      assert Position(VehicleTypes[j]) == j;
    }
  }

  /** The row with all five vehicle columns assigned. */
  function Rated(r: TollRow): TollRow {
    RatedUpTo(r, |VehicleTypes|)
  }

  /** Every vehicle column is present. */
  predicate HasAllAmounts(r: TollRow) {
    forall v: Vehicle :: v in r.amounts
  }

  /** Each vehicle column of a rated row is the distance times that vehicle's coefficient. */
  lemma RatedAmounts(r: TollRow)
    ensures HasAllAmounts(Rated(r))
    ensures Rated(r).edge == r.edge && Rated(r).startTime == r.startTime && Rated(r).endTime == r.endTime
    ensures Rated(r).amounts[Moto] == 0.8 * r.edge.distance
    ensures Rated(r).amounts[Car] == 1.2 * r.edge.distance
    ensures Rated(r).amounts[Rv] == 1.5 * r.edge.distance
    ensures Rated(r).amounts[Bus] == 2.2 * r.edge.distance
    ensures Rated(r).amounts[Truck] == 3.6 * r.edge.distance
  {
    RatedUpToColumns(r, |VehicleTypes|);
    var a := Rated(r).amounts;
    assert VehicleTypes[0] == Moto && VehicleTypes[1] == Car && VehicleTypes[2] == Rv;
    assert VehicleTypes[3] == Bus && VehicleTypes[4] == Truck;
    forall v: Vehicle ensures v in a {
      assert v == VehicleTypes[0] || v == VehicleTypes[1] || v == VehicleTypes[2] ||
             v == VehicleTypes[3] || v == VehicleTypes[4];
    }
  }

  /** A distance of 10 gives moto 8, car 12, rv 15, bus 22 and truck 36. */
  lemma ScenarioDistanceTen(r: TollRow)
    requires r.edge.distance == 10.0
    ensures Rated(r).amounts == map[Moto := 8.0, Car := 12.0, Rv := 15.0, Bus := 22.0, Truck := 36.0]
  {
    RatedAmounts(r);
    var expected := map[Moto := 8.0, Car := 12.0, Rv := 15.0, Bus := 22.0, Truck := 36.0];
    forall v: Vehicle ensures v in expected {
      assert v.Moto? || v.Car? || v.Rv? || v.Bus? || v.Truck?;
    }
    assert Rated(r).amounts.Keys == expected.Keys;
  }

  /** One vehicle column assigned, on its own: the row with column `v` set to distance times `coefficient`. */
  function WithColumn(r: TollRow, v: Vehicle, coefficient: real): TollRow {
    r.(amounts := r.amounts[v := Toll(r.edge.distance, coefficient)])
  }

  /** `frame[vehicle_type] = frame['distance'] * rate_coefficient`, row by row. */
  method AssignColumn(rows: array<TollRow>, vehicleType: Vehicle, rateCoefficient: real)
    modifies rows
    ensures forall i :: 0 <= i < rows.Length ==> rows[i] == WithColumn(old(rows[i]), vehicleType, rateCoefficient)
  {
    for i := 0 to rows.Length
      invariant forall j :: 0 <= j < rows.Length ==>
                  rows[j] == if j < i then WithColumn(old(rows[j]), vehicleType, rateCoefficient) else old(rows[j])
    {
      rows[i] := WithColumn(rows[i], vehicleType, rateCoefficient);
    }
  }

  /**
   * The loop over the zipped lists: for each vehicle type, the whole column is assigned.
   * Row count, row order and the other columns stay as they were.
   */
  method CalculateTollRate(rows: array<TollRow>)
    modifies rows
    ensures forall i :: 0 <= i < rows.Length ==> rows[i] == Rated(old(rows[i]))
    ensures forall i :: 0 <= i < rows.Length ==>
              rows[i].edge == old(rows[i].edge) &&
              rows[i].startTime == old(rows[i].startTime) && rows[i].endTime == old(rows[i].endTime)
    ensures forall i, k :: 0 <= i < rows.Length && 0 <= k < |VehicleTypes| ==>
              VehicleTypes[k] in rows[i].amounts &&
              rows[i].amounts[VehicleTypes[k]] == old(rows[i]).edge.distance * RateCoefficients[k]
  {
    for k := 0 to |VehicleTypes|
      invariant forall j :: 0 <= j < rows.Length ==> rows[j] == RatedUpTo(old(rows[j]), k)
    {
      AssignColumn(rows, VehicleTypes[k], RateCoefficients[k]);
      forall j | 0 <= j < rows.Length ensures rows[j] == RatedUpTo(old(rows[j]), k + 1) {
        RatedNextColumn(old(rows[j]), k);
      }
    }
    forall i | 0 <= i < rows.Length
      ensures rows[i].edge == old(rows[i].edge)
      ensures rows[i].startTime == old(rows[i].startTime) && rows[i].endTime == old(rows[i].endTime)
      ensures forall k :: 0 <= k < |VehicleTypes| ==>
                VehicleTypes[k] in rows[i].amounts &&
                rows[i].amounts[VehicleTypes[k]] == old(rows[i]).edge.distance * RateCoefficients[k]
    {
      RatedUpToColumns(old(rows[i]), |VehicleTypes|);
    }
  }
}
