/** Dictionary encoding: each distinct value gets a dense code, the next
    unused one, in the order values are first seen. `dict_encode` starts
    from an empty table; `encode_with_dict` extends a caller's table in
    place. The `HashMap` is a Dafny `map`; codes are unbounded naturals. */
module DictEncode {

  /** The codes of an encoding and the table after it. */
  datatype Encoded<T> = Encoded(codes: seq<nat>, dict: map<T, nat>)

  // ---------------------------------------------------------------------------
  // Specification
  // ---------------------------------------------------------------------------

  /** What encoding `data` against `dict` produces, element by element in the
      order the source's loop visits them: a known value gets its code, an
      unseen one gets the table's current size as its code and is inserted. */
  function Assign<T(==)>(data: seq<T>, dict: map<T, nat>): (r: Encoded<T>)
    ensures |r.codes| == |data|
  {
    if data == [] then Encoded([], dict)
    else
      var prev := Assign(data[..|data| - 1], dict);
      var x := data[|data| - 1];
      if x in prev.dict then Encoded(prev.codes + [prev.dict[x]], prev.dict)
      else Encoded(prev.codes + [|prev.dict|], prev.dict[x := |prev.dict|])
  }

  /** The values of `data`, as a set. */
  function Elements<T>(data: seq<T>): set<T>
  {
    set x | x in data
  }

  /** The codes of a table are exactly 0, ..., |dict| - 1, each used by one key. */
  ghost predicate Dense<T>(dict: map<T, nat>)
  {
    && (forall k :: k in dict ==> dict[k] < |dict|)
    && (forall a, b :: a in dict && b in dict && dict[a] == dict[b] ==> a == b)
    && (forall c :: 0 <= c < |dict| ==> c in dict.Values)
  }

  /** Every entry of `before` is in `after`, with the same code. */
  ghost predicate Extends<T>(before: map<T, nat>, after: map<T, nat>)
  {
    forall k :: k in before ==> k in after && after[k] == before[k]
  }

  // ---------------------------------------------------------------------------
  // The loops of the source
  // ---------------------------------------------------------------------------

  lemma InsertSize<T>(m: map<T, nat>, x: T, v: nat)
    requires x !in m
    ensures |m[x := v]| == |m| + 1
  {
    assert m[x := v].Keys == m.Keys + {x};
  }

  /** `dict_encode`: a fresh table, grown while the codes are produced. */
  method DictEncode<T(==)>(data: seq<T>) returns (encodedData: seq<nat>, encodedMap: map<T, nat>)
    ensures Encoded(encodedData, encodedMap) == Assign(data, map[])
  {
    encodedMap := map[];
    encodedData := [];
    var numItems: nat := 0;
    for i := 0 to |data|
      invariant Encoded(encodedData, encodedMap) == Assign(data[..i], map[])
      invariant numItems == |encodedMap|
    {
      var item := data[i];
      assert data[..i + 1][..i] == data[..i];
      if item in encodedMap {
        encodedData := encodedData + [encodedMap[item]];
      } else {
        encodedData := encodedData + [numItems];
        InsertSize(encodedMap, item, numItems);
        encodedMap := encodedMap[item := numItems];
        numItems := numItems + 1;
      }
    }
    assert data[..|data|] == data;
  }

  /** A table the caller owns and `encode_with_dict` extends in place. */
  class Dictionary<T(==)> {
    var codes: map<T, nat>

    constructor (initial: map<T, nat>)
      ensures codes == initial
    {
      codes := initial;
    }

    /** `encode_with_dict`: the codes of `data`, inserting unseen values. */
    method EncodeWithDict(data: seq<T>) returns (encodedData: seq<nat>)
      modifies this
      ensures encodedData == Assign(data, old(codes)).codes
      ensures codes == Assign(data, old(codes)).dict
    {
      encodedData := [];
      var numItems: nat := |codes|;
      ghost var initial := codes;
      for i := 0 to |data|
        invariant Encoded(encodedData, codes) == Assign(data[..i], initial)
        invariant numItems == |codes|
      {
        var item := data[i];
        assert data[..i + 1][..i] == data[..i];
        if item in codes {
          encodedData := encodedData + [codes[item]];
        } else {
          encodedData := encodedData + [numItems];
          InsertSize(codes, item, numItems);
          codes := codes[item := numItems];
          numItems := numItems + 1;
        }
      }
      assert data[..|data|] == data;
    }
  }

  // ---------------------------------------------------------------------------
  // Properties of the assignment
  // ---------------------------------------------------------------------------

  lemma ElementsSnoc<T>(data: seq<T>)
    requires data != []
    ensures Elements(data) == Elements(data[..|data| - 1]) + {data[|data| - 1]}
  {
    assert data == data[..|data| - 1] + [data[|data| - 1]];
  }

  /** Existing entries are never changed or removed. */
  lemma {:induction false} AssignExtends<T>(data: seq<T>, dict: map<T, nat>)
    ensures Extends(dict, Assign(data, dict).dict)
  {
    if data != [] {
      var front := data[..|data| - 1];
      AssignExtends(front, dict);
      var m := Assign(front, dict).dict;
      var x := data[|data| - 1];
      assert Assign(data, dict).dict == if x in m then m else m[x := |m|];
    }
  }

  /** The keys afterwards are the old keys plus the values of `data`. */
  lemma {:induction false} AssignKeys<T>(data: seq<T>, dict: map<T, nat>)
    ensures Assign(data, dict).dict.Keys == dict.Keys + Elements(data)
  {
    if data != [] {
      var front := data[..|data| - 1];
      var x := data[|data| - 1];
      AssignKeys(front, dict);
      ElementsSnoc(data);
      var m := Assign(front, dict).dict;
      AssignLastTable(data, dict);
      KeysAfterStep(m, x);
    }
  }

  /** The table after the last element, in terms of the table before it. */
  lemma AssignLastTable<T>(data: seq<T>, dict: map<T, nat>)
    requires data != []
    ensures var m := Assign(data[..|data| - 1], dict).dict; var x := data[|data| - 1];
      Assign(data, dict).dict == if x in m then m else m[x := |m|]
  {
  }

  lemma KeysAfterStep<T>(m: map<T, nat>, x: T)
    ensures (if x in m then m else m[x := |m|]).Keys == m.Keys + {x}
  {
  }

  /** Code i is the table's entry for data[i]. */
  lemma {:induction false} AssignLookup<T>(data: seq<T>, dict: map<T, nat>)
    ensures forall i :: 0 <= i < |data| ==>
      data[i] in Assign(data, dict).dict && Assign(data, dict).codes[i] == Assign(data, dict).dict[data[i]]
  {
    if data != [] {
      var front := data[..|data| - 1];
      AssignLookup(front, dict);
      var prev := Assign(front, dict);
      var r := Assign(data, dict);
      forall i | 0 <= i < |data|
        ensures data[i] in r.dict && r.codes[i] == r.dict[data[i]]
      {
        if i < |data| - 1 {
          assert data[i] == front[i];
          assert r.codes[i] == prev.codes[i];
        }
      }
    }
  }

  /** A dense table stays dense: new codes continue the range. */
  lemma {:induction false} AssignDense<T>(data: seq<T>, dict: map<T, nat>)
    requires Dense(dict)
    ensures Dense(Assign(data, dict).dict)
  {
    if data != [] {
      var front := data[..|data| - 1];
      AssignDense(front, dict);
      var m := Assign(front, dict).dict;
      var x := data[|data| - 1];
      if x !in m {
        var n := |m|;
        var m' := m[x := n];
        InsertSize(m, x, n);
        forall c | 0 <= c < |m'|
          ensures c in m'.Values
        {
          if c < n {
            assert c in m.Values;
            var k :| k in m && m[k] == c;
            assert k in m' && m'[k] == c;
          } else {
            assert x in m' && m'[x] == c;
          }
        }
      }
    }
  }

  /** Against a dense table, equal values get equal codes and distinct
      values distinct codes. */
  lemma CodesFaithful<T>(data: seq<T>, dict: map<T, nat>)
    requires Dense(dict)
    ensures forall i, j :: 0 <= i < |data| && 0 <= j < |data| ==>
      (Assign(data, dict).codes[i] == Assign(data, dict).codes[j] <==> data[i] == data[j])
  {
    AssignLookup(data, dict);
    AssignDense(data, dict);
  }

  /** `dict_encode`'s table holds exactly the input's values, coded 0, ..., n - 1. */
  lemma FreshTable<T>(data: seq<T>)
    ensures Dense(Assign(data, map[]).dict)
    ensures Assign(data, map[]).dict.Keys == Elements(data)
  {
    AssignDense(data, map[]);
    AssignKeys(data, map[]);
  }

  lemma {:induction false} AssignPrefix<T>(data: seq<T>, dict: map<T, nat>, i: nat)
    requires i < |data|
    ensures Assign(data, dict).codes[i] == Assign(data[..i + 1], dict).codes[i]
    decreases |data|
  {
    if i < |data| - 1 {
      var front := data[..|data| - 1];
      AssignPrefix(front, dict, i);
      assert front[..i + 1] == data[..i + 1];
    } else {
      assert data[..i + 1] == data;
    }
  }

  /** The first occurrence of a value the table did not have is coded with
      the number of distinct values seen so far, the table's and the earlier
      ones of `data`: unseen values get |dict|, |dict| + 1, ... in order. */
  lemma FirstSeenCode<T>(data: seq<T>, dict: map<T, nat>, i: nat)
    requires i < |data| && data[i] !in dict && data[i] !in data[..i]
    ensures Assign(data, dict).codes[i] == |dict.Keys + Elements(data[..i])|
  {
    AssignPrefix(data, dict, i);
    var prefix := data[..i + 1];
    assert prefix[..i] == data[..i];
    AssignKeys(data[..i], dict);
    var m := Assign(data[..i], dict).dict;
    assert data[i] !in m;
    assert |m| == |m.Keys|;
  }

  /** Values the table already has keep their codes, and the table is unchanged. */
  lemma {:induction false} AllKnown<T>(data: seq<T>, dict: map<T, nat>)
    requires forall i :: 0 <= i < |data| ==> data[i] in dict
    ensures Assign(data, dict).dict == dict
    ensures forall i :: 0 <= i < |data| ==> Assign(data, dict).codes[i] == dict[data[i]]
  {
    if data != [] {
      var front := data[..|data| - 1];
      AllKnown(front, dict);
      forall i | 0 <= i < |data| - 1
        ensures Assign(data, dict).codes[i] == dict[data[i]]
      {
        assert front[i] == data[i];
      }
    }
  }

  /** Encoding once and then again against the resulting table repeats the
      codes and leaves the table as it was. */
  lemma ReencodeStable<T>(data: seq<T>, dict: map<T, nat>)
    ensures var r := Assign(data, dict); Assign(data, r.dict) == Encoded(r.codes, r.dict)
  {
    var r := Assign(data, dict);
    AssignLookup(data, dict);
    AllKnown(data, r.dict);
  }

  // ---------------------------------------------------------------------------
  // Examples
  // ---------------------------------------------------------------------------

  /** One step of the assignment, on the last element of a prefix. */
  lemma AssignStep<T>(data: seq<T>, dict: map<T, nat>, k: nat)
    requires k < |data|
    ensures var prev := Assign(data[..k], dict); var x := data[k];
      Assign(data[..k + 1], dict) ==
        if x in prev.dict then Encoded(prev.codes + [prev.dict[x]], prev.dict)
        else Encoded(prev.codes + [|prev.dict|], prev.dict[x := |prev.dict|])
  {
    assert data[..k + 1][..k] == data[..k];
  }

  /** A step on a value the table already has. */
  lemma StepKnown<T>(data: seq<T>, dict: map<T, nat>, k: nat, codes: seq<nat>, m: map<T, nat>)
    requires k < |data| && Assign(data[..k], dict) == Encoded(codes, m) && data[k] in m
    ensures Assign(data[..k + 1], dict) == Encoded(codes + [m[data[k]]], m)
  {
    AssignStep(data, dict, k);
  }

  /** A step on a value the table does not have yet. */
  lemma StepNew<T>(data: seq<T>, dict: map<T, nat>, k: nat, codes: seq<nat>, m: map<T, nat>)
    requires k < |data| && Assign(data[..k], dict) == Encoded(codes, m) && data[k] !in m
    ensures Assign(data[..k + 1], dict) == Encoded(codes + [|m|], m[data[k] := |m|])
  {
    AssignStep(data, dict, k);
  }

  /** The shape of the source's test input, over any two distinct values. */
  lemma FiveValues<T>(data: seq<T>, a: T, b: T)
    requires a != b
    requires |data| == 5 && data[0] == data[1] == data[3] == a && data[2] == data[4] == b
    ensures Assign(data, map[]) == Encoded([0, 0, 1, 0, 1], map[a := 0, b := 1])
  {
    var one := map[a := 0];
    var two := map[a := 0, b := 1];
    assert |one| == 1 by { assert one.Keys == {a}; }
    assert Assign(data[..1], map[]) == Encoded([0], one) by {
      assert data[..0] == [];
      StepNew(data, map[], 0, [], map[]);
    }
    assert Assign(data[..3], map[]) == Encoded([0, 0, 1], two) by {
      StepKnown(data, map[], 1, [0], one);
      StepNew(data, map[], 2, [0, 0], one);
    }
    StepKnown(data, map[], 3, [0, 0, 1], two);
    StepKnown(data, map[], 4, [0, 0, 1, 0], two);
    assert data[..5] == data;
  }

  lemma ExtendWithNew(data: seq<string>, dict: map<string, nat>)
    requires data == ["test", "test", "other", "test", "new"]
    requires dict == map["test" := 0, "other" := 1]
    ensures Assign(data, dict) == Encoded([0, 0, 1, 0, 2], map["test" := 0, "other" := 1, "new" := 2])
  {
    assert "new" != "test" && "new" != "other";
    assert |dict| == 2 by {
      assert dict.Keys == {"test", "other"};
    }
    AllKnown(data[..4], dict);
    assert Assign(data[..4], dict).codes == [0, 0, 1, 0];
    AssignStep(data, dict, 4);
    assert data[..5] == data;
  }

  /** The expected values of the source's tests. */
  lemma Examples()
    ensures Assign(["test", "test", "other", "test", "other"], map[]) ==
      Encoded([0, 0, 1, 0, 1], map["test" := 0, "other" := 1])
    ensures Assign(["test", "test", "other", "test", "other"], map["test" := 0, "other" := 1]).codes ==
      [0, 0, 1, 0, 1]
    ensures Assign(["test", "test", "other", "test", "new"], map["test" := 0, "other" := 1]) ==
      Encoded([0, 0, 1, 0, 2], map["test" := 0, "other" := 1, "new" := 2])
  {
    var five := ["test", "test", "other", "test", "other"];
    assert "test" != "other";
    FiveValues(five, "test", "other");
    ReencodeStable(["test", "test", "other", "test", "other"], map[]);
    ExtendWithNew(["test", "test", "other", "test", "new"], map["test" := 0, "other" := 1]);
  }
}
