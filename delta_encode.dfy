/** Delta transforms over integers: first differences with the first value
    kept raw (`delta`), and the same applied once more to the tail of the
    differences (`delta_delta`). The source is generic over a subtraction;
    here the values are mathematical integers, so nothing overflows. */
module DeltaEncode {

  // ---------------------------------------------------------------------------
  // Specification
  // ---------------------------------------------------------------------------

  /** The sequence `delta` returns, built the way its loop builds it: the
      first value raw, then one difference per later value. */
  function Differences(data: seq<int>): (r: seq<int>)
    ensures |r| == |data|
  {
    if |data| <= 1 then data
    else Differences(data[..|data| - 1]) + [data[|data| - 1] - data[|data| - 2]]
  }

  /** Sum of a sequence, adding the last element last. */
  function Sum(s: seq<int>): int
  {
    if s == [] then 0 else Sum(s[..|s| - 1]) + s[|s| - 1]
  }

  /** Running prefix sums: position i holds s[0] + ... + s[i]. The source
      has no decoder; this is the inverse the round trip is stated with. */
  function RunningSums(s: seq<int>): (r: seq<int>)
    ensures |r| == |s|
  {
    seq(|s|, i requires 0 <= i < |s| => Sum(s[..i + 1]))
  }

  // ---------------------------------------------------------------------------
  // delta
  // ---------------------------------------------------------------------------

  /** Element by element: the first value is kept, every later one is the
      difference to its predecessor. */
  lemma {:induction false} DifferencesAt(data: seq<int>, i: nat)
    requires i < |data|
    ensures Differences(data)[i] == if i == 0 then data[0] else data[i] - data[i - 1]
    decreases |data|
  {
    if |data| > 1 && i < |data| - 1 {
      var front := data[..|data| - 1];
      DifferencesAt(front, i);
      assert front[i] == data[i];
      if i > 0 { assert front[i - 1] == data[i - 1]; }
    }
  }

  lemma DifferencesAll(data: seq<int>)
    ensures |Differences(data)| == |data|
    ensures |data| > 0 ==> Differences(data)[0] == data[0]
    ensures forall i {:trigger Differences(data)[i]} :: 1 <= i < |data| ==> Differences(data)[i] == data[i] - data[i - 1]
  {
    forall i | 0 <= i < |data|
      ensures Differences(data)[i] == if i == 0 then data[0] else data[i] - data[i - 1]
    {
      DifferencesAt(data, i);
    }
  }

  /** `delta`. */
  method Delta(data: seq<int>) returns (deltaEncoded: seq<int>)
    ensures deltaEncoded == Differences(data)
  {
    if |data| == 0 {
      return [];
    }
    deltaEncoded := [data[0]];
    var prev := 0;
    for idx := 0 to |data|
      invariant idx == 0 ==> deltaEncoded == [data[0]]
      invariant idx > 0 ==> prev == data[idx - 1] && deltaEncoded == Differences(data[..idx])
    {
      if idx == 0 {
        prev := data[idx];
        assert data[..1] == [data[0]];
        continue;
      }
      var curr := data[idx];
      var delta := curr - prev;
      prev := curr;
      assert data[..idx + 1][..idx] == data[..idx];
      deltaEncoded := deltaEncoded + [delta];
    }
    assert data[..|data|] == data;
  }

  /** Summing the first i + 1 differences gives back data[i]. */
  lemma {:induction false} DifferencesPrefixSum(data: seq<int>, i: nat)
    requires i < |data|
    ensures Sum(Differences(data)[..i + 1]) == data[i]
  {
    var d := Differences(data);
    DifferencesAt(data, i);
    if i == 0 {
      assert d[..1][..0] == [];
    } else {
      DifferencesPrefixSum(data, i - 1);
      assert d[..i + 1][..i] == d[..i];
    }
  }

  /** Lossless: running sums undo the differences. */
  lemma DeltaRoundTrip(data: seq<int>)
    ensures RunningSums(Differences(data)) == data
  {
    forall i | 0 <= i < |data|
      ensures RunningSums(Differences(data))[i] == data[i]
    {
      DifferencesPrefixSum(data, i);
    }
  }

  // ---------------------------------------------------------------------------
  // delta_delta
  // ---------------------------------------------------------------------------

  /** `delta_delta`: the first difference value, then the differences of the
      remaining difference values. The source unwraps the first element of
      `delta(data)`, so it panics on empty input. */
  function DeltaDelta(data: seq<int>): (r: seq<int>)
    requires |data| > 0
    ensures |r| == |data|
    ensures r[0] == data[0]
    ensures |data| > 1 ==> r[1] == data[1] - data[0]
    ensures forall i {:trigger r[i]} :: 2 <= i < |data| ==> r[i] == (data[i] - data[i - 1]) - (data[i - 1] - data[i - 2])
  {
    var d := Differences(data);
    DifferencesAll(data);
    DifferencesAll(d[1..]);
    [d[0]] + Differences(d[1..])
  }

  /** Lossless: running sums of the tail recover the first differences, and
      running sums of those recover the input. */
  lemma DeltaDeltaRoundTrip(data: seq<int>)
    requires |data| > 0
    ensures var r := DeltaDelta(data); RunningSums([r[0]] + RunningSums(r[1..])) == data
  {
    var d := Differences(data);
    DeltaRoundTrip(d[1..]);
    assert [d[0]] + d[1..] == d;
    DeltaRoundTrip(data);
  }

  /** For an arithmetic progression the first differences are all the step
      and the second differences vanish from index 2 on. */
  lemma ArithmeticProgression(data: seq<int>, step: int)
    requires |data| > 0
    requires forall i :: 0 <= i < |data| ==> data[i] == data[0] + i * step
    ensures forall i :: 1 <= i < |data| ==> Differences(data)[i] == step
    ensures forall i :: 2 <= i < |data| ==> DeltaDelta(data)[i] == 0
    ensures |data| > 1 ==> DeltaDelta(data)[1] == step
  {
    DifferencesAll(data);
    forall i | 1 <= i < |data|
      ensures data[i] - data[i - 1] == step
    {
      assert data[i] == data[0] + i * step && data[i - 1] == data[0] + (i - 1) * step;
      assert i * step - (i - 1) * step == step;
    }
  }

  // ---------------------------------------------------------------------------
  // Examples
  // ---------------------------------------------------------------------------

  /** `delta` of nothing is nothing; of 1..10 is ten 1s, and `delta_delta`
      of 1..10 is 1, 1 and then zeros. */
  lemma Examples()
    ensures Differences([]) == []
    ensures Differences([1, 2, 3, 4, 5, 6, 7, 8, 9, 10]) == [1, 1, 1, 1, 1, 1, 1, 1, 1, 1]
    ensures DeltaDelta([1, 2, 3, 4, 5, 6, 7, 8, 9, 10]) == [1, 1, 0, 0, 0, 0, 0, 0, 0, 0]
  {
    var ten := [1, 2, 3, 4, 5, 6, 7, 8, 9, 10];
    assert forall i :: 0 <= i < 10 ==> ten[i] == ten[0] + i * 1;
    ArithmeticProgression(ten, 1);
    DifferencesAll(ten);
  }
}
