/**
 * The confidence normaliser of `ASRService.transcribe` (in
 * `app/asr_service.py`; line numbers below refer to that file): every element of the
 * model's `prob` list, whatever its shape, becomes one real number.
 */
module Normalizer {
  import opened Wrappers
  import opened Averages

  /**
   * A Python object found in `raw_prob`. `Num` is an `int` or `float` (a
   * `bool` too, being an `int`); `Other` is any other object, carrying what
   * `float(el)` gives for it (`None` when the call raises).
   */
  datatype Value =
    | Num(x: real)
    | List(items: seq<Value>)
    | Dict(entries: map<string, Value>)
    | Other(coerced: Option<real>)

  /** The field names probed, in priority order, at both levels of a dict. */
  const ConfidenceKeys: seq<string> := ["prob", "confidence", "score", "p", "probability"]

  /** Position, from `i` on, of the first key of `ConfidenceKeys` present in `d`; `|ConfidenceKeys|` when none is. */
  function FirstKeyFrom(d: map<string, Value>, i: nat): (k: nat)
    requires i <= |ConfidenceKeys|
    ensures i <= k <= |ConfidenceKeys|
    ensures k < |ConfidenceKeys| ==> ConfidenceKeys[k] in d
    ensures forall j :: i <= j < k ==> ConfidenceKeys[j] !in d
    decreases |ConfidenceKeys| - i
  {
    if i == |ConfidenceKeys| || ConfidenceKeys[i] in d then i else FirstKeyFrom(d, i + 1)
  }

  /** Position, from `i` on, of the first key present in `d` whose value is a number; `|ConfidenceKeys|` when none is. */
  function FirstNumericFrom(d: map<string, Value>, i: nat): (k: nat)
    requires i <= |ConfidenceKeys|
    ensures i <= k <= |ConfidenceKeys|
    ensures k < |ConfidenceKeys| ==> ConfidenceKeys[k] in d && d[ConfidenceKeys[k]].Num?
    ensures forall j :: i <= j < k ==> !(ConfidenceKeys[j] in d && d[ConfidenceKeys[j]].Num?)
    decreases |ConfidenceKeys| - i
  {
    if i == |ConfidenceKeys| || (ConfidenceKeys[i] in d && d[ConfidenceKeys[i]].Num?) then i
    else FirstNumericFrom(d, i + 1)
  }

  /** `[float(x) for x in items if isinstance(x, (int, float))]` */
  function NumericItems(items: seq<Value>): (r: seq<real>)
    ensures |r| <= |items|
    ensures forall i :: 0 <= i < |r| ==> Num(r[i]) in items
    ensures r == [] <==> forall i :: 0 <= i < |items| ==> !items[i].Num?
  {
    if items == [] then []
    else
      var rest := NumericItems(items[1..]);
      assert forall i :: 0 <= i < |rest| ==> Num(rest[i]) in items by {
        forall i | 0 <= i < |rest| ensures Num(rest[i]) in items {
          assert Num(rest[i]) in items[1..];
        }
      }
      if items[0].Num? then [items[0].x] + rest else rest
  }

  /**
   * The comprehension keeps every number of the list, in order and with
   * repeats: it distributes over concatenation, keeps a number and drops
   * anything else.
   */
  lemma {:induction false} NumericItemsAppend(a: seq<Value>, b: seq<Value>)
    ensures NumericItems(a + b) == NumericItems(a) + NumericItems(b)
  {
    if a == [] {
      assert a + b == b;
    } else {
      assert (a + b)[0] == a[0] && (a + b)[1..] == a[1..] + b;
      NumericItemsAppend(a[1..], b);
    }
  }

  lemma NumericItemsSingle(v: Value)
    ensures NumericItems([v]) == if v.Num? then [v.x] else []
  {
    assert [v][1..] == [];
  }

  /** What the value `v` found under the first present key contributes. */
  function FieldConfidence(v: Value): real {
    match v
    case Num(x) => x
    case List(items) => AvgConf(NumericItems(items))
    case Dict(sub) =>
      var k := FirstNumericFrom(sub, 0);
      if k < |ConfidenceKeys| then sub[ConfidenceKeys[k]].x else 0.0
    case Other(_) => 0.0
  }

  /** The number one `raw_prob` element normalises to. */
  function UnitConfidence(el: Value): real {
    match el
    case Num(x) => x
    case Dict(d) =>
      var k := FirstKeyFrom(d, 0);
      if k < |ConfidenceKeys| then FieldConfidence(d[ConfidenceKeys[k]]) else 0.0
    case List(_) => 0.0
    case Other(c) => c.GetOr(0.0)
  }

  /** The normalised list, one number per element, in order. */
  function Normalized(rawProb: seq<Value>): seq<real> {
    seq(|rawProb|, i requires 0 <= i < |rawProb| => UnitConfidence(rawProb[i]))
  }

  /** Normalises one element: the key search of lines 109-113, then the case split on the value found. */
  method ConvertUnit(el: Value) returns (c: real)
    ensures c == UnitConfidence(el)
  {
    match el {
      case Num(x) =>
        c := x;
      case Dict(d) =>
        var v: Option<Value> := None;
        var i := 0;
        while i < |ConfidenceKeys|
          invariant 0 <= i <= |ConfidenceKeys|
          invariant forall j :: 0 <= j < i ==> ConfidenceKeys[j] !in d
        {
          if ConfidenceKeys[i] in d {
            v := Some(d[ConfidenceKeys[i]]);
            break;
          }
          i := i + 1;
        }
        assert i == FirstKeyFrom(d, 0);
        assert v.Some? <==> i < |ConfidenceKeys|;
        if v.Some? && v.value.Num? {
          c := v.value.x;
        } else if v.Some? && v.value.List? {
          var nums := NumericItems(v.value.items);
          c := if nums != [] then Sum(nums) / (|nums| as real) else 0.0;
        } else if v.Some? && v.value.Dict? {
          var sub := v.value.entries;
          var found: Option<real> := None;
          var j := 0;
          while j < |ConfidenceKeys|
            invariant 0 <= j <= |ConfidenceKeys|
            invariant forall t :: 0 <= t < j ==> !(ConfidenceKeys[t] in sub && sub[ConfidenceKeys[t]].Num?)
          {
            if ConfidenceKeys[j] in sub && sub[ConfidenceKeys[j]].Num? {
              found := Some(sub[ConfidenceKeys[j]].x);
              break;
            }
            j := j + 1;
          }
          assert j == FirstNumericFrom(sub, 0);
          assert found.Some? <==> j < |ConfidenceKeys|;
          c := if found.Some? then found.value else 0.0;
        } else {
          c := 0.0;
        }
      case List(_) =>
        c := 0.0;
      case Other(coerced) =>
        c := if coerced.Some? then coerced.value else 0.0;
    }
  }

  /** Lines 100-135: one normalised value per element of `raw_prob`, in order. */
  method Normalize(rawProb: seq<Value>) returns (numeric: seq<real>)
    ensures |numeric| == |rawProb|
    ensures forall i :: 0 <= i < |rawProb| ==> numeric[i] == UnitConfidence(rawProb[i])
    ensures numeric == Normalized(rawProb)
  {
    numeric := [];
    if |rawProb| > 0 {
      var converted: seq<real> := [];
      for i := 0 to |rawProb|
        invariant |converted| == i
        invariant forall j :: 0 <= j < i ==> converted[j] == UnitConfidence(rawProb[j])
      {
        var c := ConvertUnit(rawProb[i]);
        converted := converted + [c];
      }
      numeric := converted;
    }
  }

  /**
   * For a dict, the first present key decides: whatever is stored under any
   * key that comes after it (or under a key that is not probed) never
   * changes the result, even when the deciding value is unusable.
   */
  lemma LaterKeysIgnored(d: map<string, Value>, key: string, val: Value)
    requires FirstKeyFrom(d, 0) < |ConfidenceKeys|
    requires forall j :: 0 <= j <= FirstKeyFrom(d, 0) ==> ConfidenceKeys[j] != key
    ensures UnitConfidence(Dict(d[key := val])) == UnitConfidence(Dict(d))
  {
    var k := FirstKeyFrom(d, 0);
    var d' := d[key := val];
    var k' := FirstKeyFrom(d', 0);
    assert ConfidenceKeys[k] in d';
    assert k' == k;
  }

  /** A dict with none of the probed keys normalises to `0.0`. */
  lemma NoKeyIsZero(d: map<string, Value>)
    requires forall j :: 0 <= j < |ConfidenceKeys| ==> ConfidenceKeys[j] !in d
    ensures UnitConfidence(Dict(d)) == 0.0
  {
    assert FirstKeyFrom(d, 0) == |ConfidenceKeys|;
  }

  /** A nested dict: non-numeric sub-entries are skipped, the first numeric one is taken. */
  lemma NestedFirstNumeric(d: map<string, Value>, sub: map<string, Value>, j: nat)
    requires FirstKeyFrom(d, 0) < |ConfidenceKeys| && d[ConfidenceKeys[FirstKeyFrom(d, 0)]] == Dict(sub)
    requires j < |ConfidenceKeys| && ConfidenceKeys[j] in sub && sub[ConfidenceKeys[j]].Num?
    requires forall t :: 0 <= t < j ==> !(ConfidenceKeys[t] in sub && sub[ConfidenceKeys[t]].Num?)
    ensures UnitConfidence(Dict(d)) == sub[ConfidenceKeys[j]].x
  {
    var k := FirstNumericFrom(sub, 0);
    assert k == j;
  }

  /** `{"confidence": 0.55}` gives 0.55; `{"foo": 1}` gives 0.0; `{"prob": None, "score": 0.7}` gives 0.0. */
  lemma DictExamples()
    ensures UnitConfidence(Dict(map["confidence" := Num(0.55)])) == 0.55
    ensures UnitConfidence(Dict(map["foo" := Num(1.0)])) == 0.0
    ensures UnitConfidence(Dict(map["prob" := Other(None), "score" := Num(0.7)])) == 0.0
  {
    var d1 := map["confidence" := Num(0.55)];
    assert ConfidenceKeys[0] !in d1 && ConfidenceKeys[1] in d1;
    assert FirstKeyFrom(d1, 0) == 1;
    var d2 := map["foo" := Num(1.0)];
    NoKeyIsZero(d2);
    var d3 := map["prob" := Other(None), "score" := Num(0.7)];
    assert ConfidenceKeys[0] in d3;
  }
}
