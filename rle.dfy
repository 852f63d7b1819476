/** Run-length encoding: one left-to-right scan that turns each maximal run
    of equal values into a `RunPair` of the value and the run's length. */
module Rle {

  /** Values go through `to_usize().unwrap()`; `usize` is taken to be 64 bits wide. */
  const USIZE_LIMIT: int := 0x1_0000_0000_0000_0000

  /** Rust's `usize`. */
  type usize = x: int | 0 <= x < USIZE_LIMIT

  datatype RunPair = RunPair(value: usize, run: nat)

  /** What `rle_encode` needs of its input to return at all: a first value
      (the source unwraps it) and every value convertible to `usize`. */
  predicate Encodable(data: seq<int>)
  {
    |data| > 0 && forall i :: 0 <= i < |data| ==> 0 <= data[i] < USIZE_LIMIT
  }

  // ---------------------------------------------------------------------------
  // Specification
  // ---------------------------------------------------------------------------

  /** The pairs `rle_encode` returns, built the way its scan builds them:
      a value equal to the current run lengthens it, any other starts a new run. */
  function Runs(data: seq<usize>): (r: seq<RunPair>)
    requires |data| > 0
    ensures |r| > 0
  {
    if |data| == 1 then [RunPair(data[0], 1)]
    else
      var p := Runs(data[..|data| - 1]);
      var x := data[|data| - 1];
      var last := p[|p| - 1];
      if last.value == x then p[..|p| - 1] + [RunPair(x, last.run + 1)]
      else p + [RunPair(x, 1)]
  }

  /** n copies of v. */
  function Repeat(v: usize, n: nat): (r: seq<usize>)
    ensures |r| == n
  {
    if n == 0 then [] else Repeat(v, n - 1) + [v]
  }

  /** The decoding the source's tests ask for (the source defines none):
      each pair becomes `run` copies of `value`, in order. */
  function Expand(pairs: seq<RunPair>): seq<usize>
  {
    if pairs == [] then []
    else
      var last := pairs[|pairs| - 1];
      Expand(pairs[..|pairs| - 1]) + Repeat(last.value, last.run)
  }

  /** Sum of all `run` fields. */
  function TotalRun(pairs: seq<RunPair>): nat
  {
    if pairs == [] then 0 else TotalRun(pairs[..|pairs| - 1]) + pairs[|pairs| - 1].run
  }

  /** Every run is non-empty and neighbouring pairs carry different values,
      so no two pairs could be merged. */
  ghost predicate Maximal(pairs: seq<RunPair>)
  {
    && (forall i :: 0 <= i < |pairs| ==> pairs[i].run >= 1)
    && (forall i, j :: 0 <= i < j < |pairs| && j == i + 1 ==> pairs[i].value != pairs[j].value)
  }

  // ---------------------------------------------------------------------------
  // rle_encode
  // ---------------------------------------------------------------------------

  /** One step of the scan: the next value lengthens the current run or
      closes it and starts a new one. */
  lemma RunsExtend(values: seq<usize>, i: nat, done: seq<RunPair>, cur: usize, len: nat)
    requires 0 < i < |values|
    requires done + [RunPair(cur, len)] == Runs(values[..i])
    ensures values[i] == cur ==> done + [RunPair(cur, len + 1)] == Runs(values[..i + 1])
    ensures values[i] != cur ==> (done + [RunPair(cur, len)]) + [RunPair(values[i], 1)] == Runs(values[..i + 1])
  {
    var prefix := values[..i + 1];
    assert prefix[..i] == values[..i];
    RunsSnoc(prefix);
    var p := done + [RunPair(cur, len)];
    assert p[..|p| - 1] == done;
  }

  /** `rle_encode`. */
  method RleEncode(data: seq<int>) returns (encodedData: seq<RunPair>)
    requires Encodable(data)
    ensures encodedData == Runs(data)
  {
    ghost var values: seq<usize> := data;
    encodedData := [];
    var currentRunValue: usize := data[0];
    var currentRunLen: nat := 0;
    for i := 0 to |data|
      invariant i == 0 ==> encodedData == [] && currentRunValue == data[0] && currentRunLen == 0
      invariant i > 0 ==> encodedData + [RunPair(currentRunValue, currentRunLen)] == Runs(values[..i])
    {
      var val: usize := data[i];
      if i > 0 {
        RunsExtend(values, i, encodedData, currentRunValue, currentRunLen);
      } else {
        assert values[..1] == [val];
      }
      if val == currentRunValue {
        currentRunLen := currentRunLen + 1;
      } else {
        encodedData := encodedData + [RunPair(currentRunValue, currentRunLen)];
        currentRunValue := val;
        currentRunLen := 1;
      }
    }
    assert values[..|data|] == values;
    encodedData := encodedData + [RunPair(currentRunValue, currentRunLen)];
  }

  // ---------------------------------------------------------------------------
  // Properties of the encoding
  // ---------------------------------------------------------------------------

  /** The runs are maximal: each is at least 1 long and neighbours differ. */
  lemma {:induction false} RunsMaximal(data: seq<usize>)
    requires |data| > 0
    ensures Maximal(Runs(data))
    ensures Runs(data)[|Runs(data)| - 1].value == data[|data| - 1]
    decreases |data|
  {
    if |data| > 1 {
      var front := data[..|data| - 1];
      RunsMaximal(front);
    }
  }

  /** The first pair carries the first value and the last pair the last one. */
  lemma {:induction false} RunsEnds(data: seq<usize>)
    requires |data| > 0
    ensures Runs(data)[0].value == data[0]
    ensures Runs(data)[|Runs(data)| - 1].value == data[|data| - 1]
    decreases |data|
  {
    RunsMaximal(data);
    if |data| > 1 {
      var front := data[..|data| - 1];
      RunsEnds(front);
      assert front[0] == data[0];
    }
  }

  lemma ExpandSnoc(pairs: seq<RunPair>, q: RunPair)
    ensures Expand(pairs + [q]) == Expand(pairs) + Repeat(q.value, q.run)
  {
    assert (pairs + [q])[..|pairs|] == pairs;
  }

  /** One more copy in the last run is one more value at the end. */
  lemma ExpandLonger(init: seq<RunPair>, v: usize, n: nat)
    ensures Expand(init + [RunPair(v, n + 1)]) == Expand(init + [RunPair(v, n)]) + [v]
  {
    ExpandSnoc(init, RunPair(v, n));
    ExpandSnoc(init, RunPair(v, n + 1));
  }

  /** Runs of a longer input, in terms of the runs without its last value. */
  lemma RunsSnoc(data: seq<usize>)
    requires |data| > 1
    ensures var p := Runs(data[..|data| - 1]); var x := data[|data| - 1];
      Runs(data) == if p[|p| - 1].value == x then p[..|p| - 1] + [RunPair(x, p[|p| - 1].run + 1)]
                    else p + [RunPair(x, 1)]
  {
  }

  /** Lengthening the last run appends one copy of its value. */
  lemma ExpandSameRun(p: seq<RunPair>, x: usize)
    requires p != [] && p[|p| - 1].value == x
    ensures Expand(p[..|p| - 1] + [RunPair(x, p[|p| - 1].run + 1)]) == Expand(p) + [x]
  {
    var init := p[..|p| - 1];
    var last := p[|p| - 1];
    assert last == RunPair(x, last.run);
    assert p == init + [last];
    ExpandLonger(init, x, last.run);
  }

  /** A new run of one appends its value. */
  lemma ExpandNewRun(p: seq<RunPair>, x: usize)
    ensures Expand(p + [RunPair(x, 1)]) == Expand(p) + [x]
  {
    ExpandSnoc(p, RunPair(x, 1));
  }

  lemma DropLast(s: seq<usize>)
    requires |s| > 0
    ensures s[..|s| - 1] + [s[|s| - 1]] == s
  {
  }

  /** If the runs without the last value expand correctly, so do the runs with it. */
  lemma RunsExpandStep(data: seq<usize>)
    requires |data| > 1
    requires Expand(Runs(data[..|data| - 1])) == data[..|data| - 1]
    ensures Expand(Runs(data)) == data
  {
    var front := data[..|data| - 1];
    var x := data[|data| - 1];
    var p := Runs(front);
    RunsSnoc(data);
    DropLast(data);
    if p[|p| - 1].value == x {
      assert Runs(data) == p[..|p| - 1] + [RunPair(x, p[|p| - 1].run + 1)];
      ExpandSameRun(p, x);
    } else {
      assert Runs(data) == p + [RunPair(x, 1)];
      ExpandNewRun(p, x);
    }
  }

  /** Lossless: expanding the pairs gives the input back. */
  lemma {:induction false} RunsExpand(data: seq<usize>)
    requires |data| > 0
    ensures Expand(Runs(data)) == data
    decreases |data|
  {
    if |data| == 1 {
      ExpandLonger([], data[0], 0);
      assert [] + [RunPair(data[0], 1)] == [RunPair(data[0], 1)];
      assert [] + [RunPair(data[0], 0)] == [RunPair(data[0], 0)];
    } else {
      RunsExpand(data[..|data| - 1]);
      RunsExpandStep(data);
    }
  }

  /** The expansion of a list of pairs is as long as its runs add up to. */
  lemma {:induction false} ExpandLength(pairs: seq<RunPair>)
    ensures |Expand(pairs)| == TotalRun(pairs)
    decreases |pairs|
  {
    if pairs != [] {
      ExpandLength(pairs[..|pairs| - 1]);
    }
  }

  /** The runs add up to the length of the input. */
  lemma RunsTotal(data: seq<usize>)
    requires |data| > 0
    ensures TotalRun(Runs(data)) == |data|
  {
    RunsExpand(data);
    ExpandLength(Runs(data));
  }

  lemma MaximalPrefix(pairs: seq<RunPair>, n: nat)
    requires Maximal(pairs) && n <= |pairs|
    ensures Maximal(pairs[..n])
  {
    assert forall i :: 0 <= i < n ==> pairs[..n][i] == pairs[i];
  }

  lemma ExpandNonEmpty(pairs: seq<RunPair>)
    requires Maximal(pairs) && pairs != []
    ensures |Expand(pairs)| > 0
    ensures Expand(pairs)[|Expand(pairs)| - 1] == pairs[|pairs| - 1].value
  {
    var last := pairs[|pairs| - 1];
    assert last.run >= 1;
  }

  /** A maximal list without its last pair is maximal, and expands to a
      prefix that the last pair's copies complete. */
  lemma SplitLast(pairs: seq<RunPair>)
    requires Maximal(pairs) && pairs != []
    ensures var init, q := pairs[..|pairs| - 1], pairs[|pairs| - 1];
      Maximal(init) && q.run >= 1 && pairs == init + [q] &&
      Expand(pairs) == Expand(init) + Repeat(q.value, q.run)
  {
    var init, q := pairs[..|pairs| - 1], pairs[|pairs| - 1];
    MaximalPrefix(pairs, |pairs| - 1);
    assert pairs == init + [q];
    ExpandSnoc(init, q);
  }

  /** Taking one copy off a last run of two or more keeps the list maximal. */
  lemma ShrinkLast(pairs: seq<RunPair>)
    requires Maximal(pairs) && pairs != [] && pairs[|pairs| - 1].run > 1
    ensures var q := pairs[|pairs| - 1];
      var shorter := pairs[..|pairs| - 1] + [RunPair(q.value, q.run - 1)];
      Maximal(shorter) && Expand(pairs) == Expand(shorter) + [q.value]
  {
    var n := |pairs|;
    var init, q := pairs[..n - 1], pairs[n - 1];
    var shorter := init + [RunPair(q.value, q.run - 1)];
    assert pairs == init + [RunPair(q.value, (q.run - 1) + 1)];
    ExpandLonger(init, q.value, q.run - 1);
    forall i, j | 0 <= i < j < |shorter| && j == i + 1
      ensures shorter[i].value != shorter[j].value
    {
      assert shorter[i] == pairs[i];
      assert shorter[j].value == pairs[j].value;
    }
  }

  /** A last pair of run 1 stands alone: the pairs before it are a maximal
      list for the input without its last value, ending in a different value. */
  lemma LastRunSingle(data: seq<usize>, pairs: seq<RunPair>)
    requires |data| > 1 && Maximal(pairs) && Expand(pairs) == data
    requires pairs != [] && pairs[|pairs| - 1].run == 1
    ensures var init := pairs[..|pairs| - 1];
      init != [] && Maximal(init) && Expand(init) == data[..|data| - 1] &&
      init[|init| - 1].value != data[|data| - 1]
  {
    var n := |pairs|;
    var init, q := pairs[..n - 1], pairs[n - 1];
    SplitLast(pairs);
    ExpandNonEmpty(pairs);
    assert init != [];
    assert pairs[n - 2] == init[n - 2];
  }

  lemma LastRunSingleClose(data: seq<usize>, pairs: seq<RunPair>)
    requires |data| > 1 && pairs != [] && pairs[|pairs| - 1].run == 1
    requires pairs[|pairs| - 1].value == data[|data| - 1]
    requires var init := pairs[..|pairs| - 1];
      init != [] && init == Runs(data[..|data| - 1]) && init[|init| - 1].value != data[|data| - 1]
    ensures pairs == Runs(data)
  {
    RunsSnoc(data);
    assert pairs == pairs[..|pairs| - 1] + [pairs[|pairs| - 1]];
  }

  /** A last pair of run 2 or more, shortened by one, gives a maximal list
      for the input without its last value. */
  lemma LastRunLonger(data: seq<usize>, pairs: seq<RunPair>)
    requires |data| > 1 && Maximal(pairs) && Expand(pairs) == data
    requires pairs != [] && pairs[|pairs| - 1].run > 1
    ensures var q := pairs[|pairs| - 1];
      var shorter := pairs[..|pairs| - 1] + [RunPair(q.value, q.run - 1)];
      Maximal(shorter) && Expand(shorter) == data[..|data| - 1] && q.value == data[|data| - 1]
  {
    ShrinkLast(pairs);
    assert data == data[..|data| - 1] + [data[|data| - 1]];
  }

  lemma LastRunLongerClose(data: seq<usize>, pairs: seq<RunPair>)
    requires |data| > 1 && pairs != [] && pairs[|pairs| - 1].run > 1
    requires var q := pairs[|pairs| - 1];
      q.value == data[|data| - 1] &&
      pairs[..|pairs| - 1] + [RunPair(q.value, q.run - 1)] == Runs(data[..|data| - 1])
    ensures pairs == Runs(data)
  {
    var n := |pairs|;
    var q := pairs[n - 1];
    var init := pairs[..n - 1];
    var shorter := init + [RunPair(q.value, q.run - 1)];
    var x := data[|data| - 1];
    assert shorter[|shorter| - 1] == RunPair(x, q.run - 1);
    assert shorter[..|shorter| - 1] == init;
    assert Runs(data) == init + [RunPair(x, q.run)] by {
      RunsSnoc(data);
    }
    assert q == RunPair(x, q.run);
    assert pairs == init + [q];
  }

  /** The encoding is the only maximal list of pairs that expands to the input. */
  lemma {:induction false} RunsUnique(data: seq<usize>, pairs: seq<RunPair>)
    requires |data| > 0
    requires Maximal(pairs) && Expand(pairs) == data
    ensures pairs == Runs(data)
    decreases |data|
  {
    assert pairs != [] && pairs[|pairs| - 1].value == data[|data| - 1] by {
      ExpandNonEmpty(pairs);
    }
    var n := |pairs|;
    var q := pairs[n - 1];
    if |data| == 1 {
      SplitLast(pairs);
      var init := pairs[..n - 1];
      if init != [] { ExpandNonEmpty(init); }
      assert pairs == [q];
    } else if q.run == 1 {
      LastRunSingle(data, pairs);
      RunsUnique(data[..|data| - 1], pairs[..n - 1]);
      LastRunSingleClose(data, pairs);
    } else {
      LastRunLonger(data, pairs);
      RunsUnique(data[..|data| - 1], pairs[..n - 1] + [RunPair(q.value, q.run - 1)]);
      LastRunLongerClose(data, pairs);
    }
  }

  // ---------------------------------------------------------------------------
  // Examples
  // ---------------------------------------------------------------------------

  lemma ExampleRuns(data: seq<usize>, pairs: seq<RunPair>)
    requires data == [1, 1, 1, 1, 1, 2, 2, 2, 2, 3, 3, 4, 5]
    requires pairs == [RunPair(1, 5), RunPair(2, 4), RunPair(3, 2), RunPair(4, 1), RunPair(5, 1)]
    ensures Runs(data) == pairs
  {
    assert Maximal(pairs);
    assert Expand(pairs) == data by {
      forall k | 0 <= k < 5
        ensures Expand(pairs[..k + 1]) == Expand(pairs[..k]) + Repeat(pairs[k].value, pairs[k].run)
      {
        assert pairs[..k + 1] == pairs[..k] + [pairs[k]];
        ExpandSnoc(pairs[..k], pairs[k]);
      }
      assert Expand(pairs[..0]) == [];
      assert Expand(pairs[..1]) == [1, 1, 1, 1, 1];
      assert Expand(pairs[..2]) == [1, 1, 1, 1, 1, 2, 2, 2, 2];
      assert Expand(pairs[..3]) == [1, 1, 1, 1, 1, 2, 2, 2, 2, 3, 3];
      assert Expand(pairs[..4]) == [1, 1, 1, 1, 1, 2, 2, 2, 2, 3, 3, 4];
      assert pairs[..5] == pairs;
    }
    RunsUnique(data, pairs);
  }

  /** The expected output of the source's test. */
  lemma Examples()
    ensures Runs([1, 1, 1, 1, 1, 2, 2, 2, 2, 3, 3, 4, 5]) ==
      [RunPair(1, 5), RunPair(2, 4), RunPair(3, 2), RunPair(4, 1), RunPair(5, 1)]
    ensures Runs([5]) == [RunPair(5, 1)]
  {
    ExampleRuns([1, 1, 1, 1, 1, 2, 2, 2, 2, 3, 3, 4, 5],
      [RunPair(1, 5), RunPair(2, 4), RunPair(3, 2), RunPair(4, 1), RunPair(5, 1)]);
  }
}
