/**
 * `multiply_matrix`: on a copy of the matrix, the cells above 20 are multiplied by 0.75 and
 * then the cells at or below 20 are multiplied by 1.25. The second mask is computed on the
 * matrix the first statement has already changed, so a cell just above 20 is scaled twice.
 */
module MatrixScaling {
  const Cutoff: real := 20.0
  const HighFactor: real := 0.75
  const LowFactor: real := 1.25

  /** The first masked statement on one cell. */
  function FirstPass(v: real): real {
    if v > Cutoff then v * HighFactor else v
  }

  /** The second masked statement on one cell, reading what the first one left. */
  function SecondPass(v: real): real {
    if v <= Cutoff then v * LowFactor else v
  }

  /** A cell after both statements, as written. */
  function TwoPassValue(v: real): real {
    SecondPass(FirstPass(v))
  }

  /** A cell scaled once by the factor its own value selects: the evident intent. */
  function IntendedValue(v: real): real {
    if v > Cutoff then v * HighFactor else v * LowFactor
  }

  /** The cells in (20, 80/3] are scaled by 0.75 and then by 1.25, that is by 0.9375. */
  lemma TwoPassPiecewise(v: real)
    ensures v > 80.0 / 3.0 ==> TwoPassValue(v) == 0.75 * v
    ensures 20.0 < v <= 80.0 / 3.0 ==> TwoPassValue(v) == 0.9375 * v
    ensures v <= 20.0 ==> TwoPassValue(v) == 1.25 * v
  {
    if 20.0 < v <= 80.0 / 3.0 {
      assert FirstPass(v) == 0.75 * v <= 20.0;
    }
  }

  /** The two statements agree with the single intended scaling exactly outside (20, 80/3]. */
  lemma TwoPassAgreesWithIntendedIff(v: real)
    ensures TwoPassValue(v) == IntendedValue(v) <==> !(20.0 < v <= 80.0 / 3.0)
  {
    TwoPassPiecewise(v);
  }

  /** The cell 24 becomes 22.5 where the intended scaling gives 18. */
  lemma TwoPassCounterexample()
    ensures TwoPassValue(24.0) == 22.5
    ensures IntendedValue(24.0) == 18.0
  {
    TwoPassPiecewise(24.0);
  }

  /**
   * Each cell gets exactly one of the two statements, chosen by its own value: the first
   * when it is above 20, the second otherwise.
   */
  lemma IntendedAppliesOneStatement(v: real)
    ensures v > Cutoff ==> IntendedValue(v) == FirstPass(v) && FirstPass(v) != v
    ensures v <= Cutoff ==> IntendedValue(v) == SecondPass(v) && FirstPass(v) == v
  {
  }

  /** `input_matrix.copy()`. */
  method Copy(input: array2<real>) returns (output: array2<real>)
    ensures fresh(output)
    ensures output.Length0 == input.Length0 && output.Length1 == input.Length1
    ensures forall i, j :: 0 <= i < output.Length0 && 0 <= j < output.Length1 ==> output[i, j] == input[i, j]
  {
    output := new real[input.Length0, input.Length1];
    for i := 0 to input.Length0
      invariant forall a, b :: 0 <= a < i && 0 <= b < output.Length1 ==> output[a, b] == input[a, b]
    {
      for j := 0 to input.Length1
        invariant forall a, b :: 0 <= a < i && 0 <= b < output.Length1 ==> output[a, b] == input[a, b]
        invariant forall b :: 0 <= b < j ==> output[i, b] == input[i, b]
      {
        output[i, j] := input[i, j];
      }
    }
  }

  /** `m[m > 20] *= 0.75`: the mask is read before any cell changes, cell by cell. */
  method ScaleAbove(m: array2<real>)
    modifies m
    ensures forall i, j :: 0 <= i < m.Length0 && 0 <= j < m.Length1 ==> m[i, j] == FirstPass(old(m[i, j]))
  {
    for i := 0 to m.Length0
      invariant forall a, b :: 0 <= a < m.Length0 && 0 <= b < m.Length1 ==>
                  m[a, b] == if a < i then FirstPass(old(m[a, b])) else old(m[a, b])
    {
      for j := 0 to m.Length1
        invariant forall a, b :: 0 <= a < m.Length0 && 0 <= b < m.Length1 ==>
                    m[a, b] == if a < i || (a == i && b < j) then FirstPass(old(m[a, b])) else old(m[a, b])
      {
        if m[i, j] > Cutoff {
          m[i, j] := m[i, j] * HighFactor;
        }
      }
    }
  }

  /** `m[m <= 20] *= 1.25`, on whatever the matrix holds at that point. */
  method ScaleAtOrBelow(m: array2<real>)
    modifies m
    ensures forall i, j :: 0 <= i < m.Length0 && 0 <= j < m.Length1 ==> m[i, j] == SecondPass(old(m[i, j]))
  {
    for i := 0 to m.Length0
      invariant forall a, b :: 0 <= a < m.Length0 && 0 <= b < m.Length1 ==>
                  m[a, b] == if a < i then SecondPass(old(m[a, b])) else old(m[a, b])
    {
      for j := 0 to m.Length1
        invariant forall a, b :: 0 <= a < m.Length0 && 0 <= b < m.Length1 ==>
                    m[a, b] == if a < i || (a == i && b < j) then SecondPass(old(m[a, b])) else old(m[a, b])
      {
        if m[i, j] <= Cutoff {
          m[i, j] := m[i, j] * LowFactor;
        }
      }
    }
  }

  /** `multiply_matrix` as written: the input is left alone and the copy gets both statements. */
  method MultiplyMatrixAsWritten(input: array2<real>) returns (output: array2<real>)
    ensures fresh(output)
    ensures output.Length0 == input.Length0 && output.Length1 == input.Length1
    ensures forall i, j :: 0 <= i < output.Length0 && 0 <= j < output.Length1 ==> output[i, j] == TwoPassValue(input[i, j])
  {
    output := Copy(input);
    ScaleAbove(output);
    ScaleAtOrBelow(output);
  }

  /** `multiply_matrix` with both masks taken from the copied values, so each cell is scaled once. */
  method MultiplyMatrix(input: array2<real>) returns (output: array2<real>)
    ensures fresh(output)
    ensures output.Length0 == input.Length0 && output.Length1 == input.Length1
    ensures forall i, j :: 0 <= i < output.Length0 && 0 <= j < output.Length1 ==> output[i, j] == IntendedValue(input[i, j])
  {
    output := Copy(input);
    for i := 0 to output.Length0
      invariant forall a, b :: 0 <= a < output.Length0 && 0 <= b < output.Length1 ==>
                  output[a, b] == if a < i then IntendedValue(input[a, b]) else input[a, b]
    {
      for j := 0 to output.Length1
        invariant forall a, b :: 0 <= a < output.Length0 && 0 <= b < output.Length1 ==>
                    output[a, b] == if a < i || (a == i && b < j) then IntendedValue(input[a, b]) else input[a, b]
      {
        if output[i, j] > Cutoff {
          output[i, j] := output[i, j] * HighFactor;
        } else {
          output[i, j] := output[i, j] * LowFactor;
        }
      }
    }
  }
}
