/** app/models/predictor.py: the MoviePredictor. The RandomForest pipeline is a
    library model: its prediction and its feature importances are given values. */
module Predictor {
  import opened Wrappers
  import opened PyList
  import opened Ranking

  /** feature_columns of the loader, in the order the model was trained on. */
  const FeatureColumns: seq<string> := ["budget", "popularity", "runtime", "release_year", "num_genres", "num_cast"]

  // ---------------------------------------------------------------------------
  // predict_rating

  /** max(0, min(10, raw)). */
  function ClampRating(raw: real): (r: real)
    ensures 0.0 <= r <= 10.0
    ensures 0.0 <= raw <= 10.0 ==> r == raw
    ensures raw < 0.0 ==> r == 0.0
    ensures raw > 10.0 ==> r == 10.0
  {
    var low := if raw < 10.0 then raw else 10.0;
    if low > 0.0 then low else 0.0
  }

  /** The input row of predict_rating, in FeatureColumns order. */
  function InputRow(budget: real, popularity: real, runtime: int, year: int, numGenres: int, numCast: int): (row: seq<real>)
    ensures |row| == |FeatureColumns|
  {
    [budget, popularity, runtime as real, year as real, numGenres as real, numCast as real]
  }

  /** predict_rating with the regressor given: its prediction clamped to [0, 10]. */
  function PredictRating(regressor: seq<real> -> real, budget: real, popularity: real, runtime: int, year: int,
                         numGenres: int, numCast: int): (r: real)
    ensures 0.0 <= r <= 10.0
    ensures var raw := regressor(InputRow(budget, popularity, runtime, year, numGenres, numCast));
      0.0 <= raw <= 10.0 ==> r == raw
  {
    ClampRating(regressor(InputRow(budget, popularity, runtime, year, numGenres, numCast)))
  }

  /** Clamping twice changes nothing. */
  lemma ClampIdempotent(raw: real)
    ensures ClampRating(ClampRating(raw)) == ClampRating(raw)
  {
  }

  // ---------------------------------------------------------------------------
  // validate_input_ranges

  const BudgetMessage := "El presupuesto no puede ser negativo"
  const PopularityMessage := "La popularidad debe estar entre 0 y 1000"
  const RuntimeMessage := "La duración debe estar entre 1 y 500 minutos"
  const YearMessage := "El año debe estar entre 1900 y 2030"
  const GenresMessage := "El número de géneros debe estar entre 1 y 10"
  const CastMessage := "El número de actores debe estar entre 1 y 50"

  /** The messages of the six checks, in the order they are made. */
  const Messages: seq<string> := [BudgetMessage, PopularityMessage, RuntimeMessage, YearMessage, GenresMessage, CastMessage]

  /** Which of the six checks fail, in order. */
  function Violations(budget: real, popularity: real, runtime: int, year: int, numGenres: int, numCast: int): (v: seq<bool>)
    ensures |v| == |Messages|
  {
    [ budget < 0.0,
      popularity < 0.0 || popularity > 1000.0,
      runtime < 1 || runtime > 500,
      year < 1900 || year > 2030,
      numGenres < 1 || numGenres > 10,
      numCast < 1 || numCast > 50 ]
  }

  /** The inputs lie in the documented ranges, all bounds inclusive. */
  predicate InRanges(budget: real, popularity: real, runtime: int, year: int, numGenres: int, numCast: int) {
    && 0.0 <= budget
    && 0.0 <= popularity <= 1000.0
    && 1 <= runtime <= 500
    && 1900 <= year <= 2030
    && 1 <= numGenres <= 10
    && 1 <= numCast <= 50
  }

  /** The positions below k of the failed checks, in ascending order. */
  function Chosen(flags: seq<bool>, k: int): (c: seq<int>)
    requires 0 <= k <= |flags|
    ensures |c| <= k
    ensures forall j :: 0 <= j < |c| ==> 0 <= c[j] < k
  {
    if k == 0 then [] else Chosen(flags, k - 1) + (if flags[k - 1] then [k - 1] else [])
  }

  /** Every chosen position is a failed check, and they ascend. */
  lemma {:induction false} ChosenSound(flags: seq<bool>, k: int)
    requires 0 <= k <= |flags|
    ensures forall j :: 0 <= j < |Chosen(flags, k)| ==> flags[Chosen(flags, k)[j]]
    ensures forall j, l :: 0 <= j < l < |Chosen(flags, k)| ==> Chosen(flags, k)[j] < Chosen(flags, k)[l]
  {
    if k > 0 {
      ChosenSound(flags, k - 1);
      var c0 := Chosen(flags, k - 1);
      var c := Chosen(flags, k);
      assert c == c0 + (if flags[k - 1] then [k - 1] else []);
      forall j | 0 <= j < |c| ensures flags[c[j]] {
        if j < |c0| {
          assert c[j] == c0[j];
        } else {
          assert flags[k - 1] && c[j] == k - 1;
        }
      }
      forall j, l | 0 <= j < l < |c| ensures c[j] < c[l] {
        if l < |c0| {
          assert c[j] == c0[j] && c[l] == c0[l];
        } else {
          assert c[j] == c0[j] && c[l] == k - 1;
        }
      }
    }
  }

  /** Every failed check below k is chosen, so none is chosen exactly when none failed. */
  lemma {:induction false} ChosenComplete(flags: seq<bool>, k: int)
    requires 0 <= k <= |flags|
    ensures forall i :: 0 <= i < k && flags[i] ==> i in Chosen(flags, k)
    ensures Chosen(flags, k) == [] <==> forall i :: 0 <= i < k ==> !flags[i]
  {
    if k > 0 {
      ChosenComplete(flags, k - 1);
      var c0 := Chosen(flags, k - 1);
      var c := Chosen(flags, k);
      assert c == c0 + (if flags[k - 1] then [k - 1] else []);
      assert forall i :: 0 <= i < k - 1 && flags[i] ==> i in c;
      assert c == [] ==> c0 == [] && !flags[k - 1];
    }
  }

  /** [msgs[i] for i in range(k) if flags[i]]. */
  function Select(flags: seq<bool>, msgs: seq<string>, k: int): (r: seq<string>)
    requires 0 <= k <= |flags| == |msgs|
    ensures |r| <= k
  {
    if k == 0 then [] else Select(flags, msgs, k - 1) + (if flags[k - 1] then [msgs[k - 1]] else [])
  }

  /** There are as many selected messages as chosen positions. */
  lemma {:induction false} SelectLength(flags: seq<bool>, msgs: seq<string>, k: int)
    requires 0 <= k <= |flags| == |msgs|
    ensures |Select(flags, msgs, k)| == |Chosen(flags, k)|
  {
    if k > 0 {
      SelectLength(flags, msgs, k - 1);
    }
  }

  /** Selecting is taking the messages at the chosen positions. */
  lemma {:induction false} SelectChosen(flags: seq<bool>, msgs: seq<string>, k: int)
    requires 0 <= k <= |flags| == |msgs|
    ensures |Select(flags, msgs, k)| == |Chosen(flags, k)|
    ensures forall j :: 0 <= j < |Chosen(flags, k)| ==> Select(flags, msgs, k)[j] == msgs[Chosen(flags, k)[j]]
  {
    SelectLength(flags, msgs, k);
    if k > 0 {
      SelectChosen(flags, msgs, k - 1);
      var r0, c0 := Select(flags, msgs, k - 1), Chosen(flags, k - 1);
      var r, c := Select(flags, msgs, k), Chosen(flags, k);
      assert |r0| == |c0|;
      forall j | 0 <= j < |c0| ensures r[j] == msgs[c[j]] {
        assert r[j] == r0[j] && c[j] == c0[j];
      }
    }
  }

  /** What validate_input_ranges returns: one message per failed check, in check order. */
  function RangeErrors(budget: real, popularity: real, runtime: int, year: int, numGenres: int, numCast: int): seq<string> {
    Select(Violations(budget, popularity, runtime, year, numGenres, numCast), Messages, |Messages|)
  }

  /** validate_input_ranges: the six checks, each appending its message when it fails. */
  method ValidateInputRanges(budget: real, popularity: real, runtime: int, year: int, numGenres: int, numCast: int)
    returns (errors: seq<string>)
    ensures errors == RangeErrors(budget, popularity, runtime, year, numGenres, numCast)
  {
    ghost var v := Violations(budget, popularity, runtime, year, numGenres, numCast);
    ghost var m := Messages;
    errors := [];
    if budget < 0.0 {
      errors := errors + [BudgetMessage];
    }
    assert errors == Select(v, m, 1);
    if popularity < 0.0 || popularity > 1000.0 {
      errors := errors + [PopularityMessage];
    }
    assert errors == Select(v, m, 2);
    if runtime < 1 || runtime > 500 {
      errors := errors + [RuntimeMessage];
    }
    assert errors == Select(v, m, 3);
    if year < 1900 || year > 2030 {
      errors := errors + [YearMessage];
    }
    assert errors == Select(v, m, 4);
    if numGenres < 1 || numGenres > 10 {
      errors := errors + [GenresMessage];
    }
    assert errors == Select(v, m, 5);
    if numCast < 1 || numCast > 50 {
      errors := errors + [CastMessage];
    }
  }

  /** No message exactly when every input is in range. */
  lemma NoErrorsIffInRanges(budget: real, popularity: real, runtime: int, year: int, numGenres: int, numCast: int)
    ensures RangeErrors(budget, popularity, runtime, year, numGenres, numCast) == []
        <==> InRanges(budget, popularity, runtime, year, numGenres, numCast)
  {
    var v := Violations(budget, popularity, runtime, year, numGenres, numCast);
    SelectLength(v, Messages, 6);
    ChosenComplete(v, 6);
    assert (forall i :: 0 <= i < 6 ==> !v[i]) <==> !v[0] && !v[1] && !v[2] && !v[3] && !v[4] && !v[5];
  }

  /** The six messages are pairwise different. */
  lemma MessagesDistinct()
    ensures Distinct(Messages)
  {
  }

  /** With pairwise different messages, a selected message has its flag set. */
  lemma SelectOnlyFlagged(flags: seq<bool>, msgs: seq<string>, i: int)
    requires |flags| == |msgs| && Distinct(msgs) && 0 <= i < |msgs|
    ensures msgs[i] in Select(flags, msgs, |msgs|) ==> flags[i]
  {
    var c := Chosen(flags, |flags|);
    var r := Select(flags, msgs, |msgs|);
    if msgs[i] in r {
      SelectChosen(flags, msgs, |msgs|);
      ChosenSound(flags, |flags|);
      var k :| 0 <= k < |r| && r[k] == msgs[i];
      assert msgs[c[k]] == msgs[i];
    }
  }

  /** Every flagged message is selected. */
  lemma SelectAllFlagged(flags: seq<bool>, msgs: seq<string>, i: int)
    requires |flags| == |msgs| && 0 <= i < |msgs|
    ensures flags[i] ==> msgs[i] in Select(flags, msgs, |msgs|)
  {
    var c := Chosen(flags, |flags|);
    if flags[i] {
      SelectChosen(flags, msgs, |msgs|);
      ChosenComplete(flags, |flags|);
      var k :| 0 <= k < |c| && c[k] == i;
      assert Select(flags, msgs, |msgs|)[k] == msgs[i];
    }
  }

  /** A check's message is reported exactly when that check fails. */
  lemma ErrorsReportFailures(budget: real, popularity: real, runtime: int, year: int, numGenres: int, numCast: int)
    ensures forall i :: 0 <= i < |Messages| ==>
      (Messages[i] in RangeErrors(budget, popularity, runtime, year, numGenres, numCast)
       <==> Violations(budget, popularity, runtime, year, numGenres, numCast)[i])
  {
    var v := Violations(budget, popularity, runtime, year, numGenres, numCast);
    MessagesDistinct();
    forall i | 0 <= i < |Messages| ensures Messages[i] in Select(v, Messages, |Messages|) <==> v[i] {
      SelectOnlyFlagged(v, Messages, i);
      SelectAllFlagged(v, Messages, i);
    }
  }

  /** The messages follow the order of the checks, so none repeats and there are at
      most six. */
  lemma ErrorsInCheckOrder(budget: real, popularity: real, runtime: int, year: int, numGenres: int, numCast: int)
    ensures var r := RangeErrors(budget, popularity, runtime, year, numGenres, numCast);
      && |r| <= |Messages| && Distinct(r)
      && forall k, l, i, j ::
           (0 <= k < l < |r| && 0 <= i < |Messages| && 0 <= j < |Messages| && r[k] == Messages[i] && r[l] == Messages[j])
           ==> i < j
  {
    var v := Violations(budget, popularity, runtime, year, numGenres, numCast);
    var c := Chosen(v, |v|);
    var r := RangeErrors(budget, popularity, runtime, year, numGenres, numCast);
    SelectChosen(v, Messages, |Messages|);
    ChosenSound(v, |v|);
    MessagesDistinct();
    forall k, l, i, j | 0 <= k < l < |r| && 0 <= i < |Messages| && 0 <= j < |Messages| && r[k] == Messages[i] && r[l] == Messages[j]
      ensures i < j
    {
      assert Messages[c[k]] == Messages[i] && Messages[c[l]] == Messages[j];
      assert c[k] == i && c[l] == j;
    }
    forall k, l | 0 <= k < l < |r| ensures r[k] != r[l] {
      assert Messages[c[k]] == r[k] && Messages[c[l]] == r[l];
      assert c[k] < c[l];
    }
  }

  /** A negative budget with every other input in range gives exactly the budget message. */
  lemma OnlyBudgetNegative(budget: real, popularity: real, runtime: int, year: int, numGenres: int, numCast: int)
    requires budget < 0.0 && InRanges(0.0, popularity, runtime, year, numGenres, numCast)
    ensures RangeErrors(budget, popularity, runtime, year, numGenres, numCast) == [BudgetMessage]
  {
    var v := Violations(budget, popularity, runtime, year, numGenres, numCast);
    var m := Messages;
    assert Select(v, m, 1) == [BudgetMessage];
    assert Select(v, m, 2) == [BudgetMessage];
    assert Select(v, m, 3) == [BudgetMessage];
    assert Select(v, m, 4) == [BudgetMessage];
    assert Select(v, m, 5) == [BudgetMessage];
  }

  /** Budget -1 with the other inputs valid. */
  lemma BudgetMinusOne()
    ensures RangeErrors(-1.0, 10.0, 120, 2000, 3, 10) == ["El presupuesto no puede ser negativo"]
  {
    OnlyBudgetNegative(-1.0, 10.0, 120, 2000, 3, 10);
  }

  // ---------------------------------------------------------------------------
  // get_feature_importance

  /** The items of a Python dict, in insertion order. */
  type Items = seq<(string, real)>

  /** d[key] = value: a present key keeps its place and takes the new value, a new
      key goes last, and every other entry is unchanged. */
  function Assign(items: Items, key: string, value: real): (r: Items)
    ensures Firsts(r) == if key in Firsts(items) then Firsts(items) else Firsts(items) + [key]
    ensures forall i :: 0 <= i < |items| ==> r[i] == if items[i].0 == key then (key, value) else items[i]
    ensures key !in Firsts(items) ==> r[|items|] == (key, value)
  {
    if key in Firsts(items) then
      var r := seq(|items|, i requires 0 <= i < |items| => if items[i].0 == key then (key, value) else items[i]);
      assert Firsts(r) == Firsts(items);
      r
    else
      var r := items + [(key, value)];
      assert Firsts(r) == Firsts(items) + [key];
      r
  }

  /** importance_dict after the loop over the features. */
  function Dict(features: seq<string>, importances: seq<real>): (d: Items)
    requires |features| <= |importances|
    ensures Distinct(Firsts(d))
  {
    if features == [] then []
    else
      var n := |features| - 1;
      var prev := Dict(features[..n], importances);
      var d := Assign(prev, features[n], importances[n]);
      assert Distinct(Firsts(d)) by {
        if features[n] !in Firsts(prev) {
          assert Firsts(d) == Firsts(prev) + [features[n]];
        }
      }
      d
  }

  /** The ranking get_feature_importance returns. */
  function ImportanceRanking(features: seq<string>, importances: seq<real>): Items
    requires |features| <= |importances|
  {
    SortDesc(Dict(features, importances))
  }

  /** The error of get_feature_importance when the model has fewer importances than
      features (the text of the IndexError is not modelled). */
  const ImportanceError := "Error al obtener importancia: "

  /** get_feature_importance: builds the dict in a loop, then sorts its items. */
  method GetFeatureImportance(features: seq<string>, importances: seq<real>) returns (r: Result<Items, string>)
    ensures r.Failure? <==> |importances| < |features|
    ensures r.Failure? ==> r.error == ImportanceError
    ensures r.Success? ==> r.value == ImportanceRanking(features, importances)
  {
    var dict: Items := [];
    var i := 0;
    while i < |features|
      invariant 0 <= i <= |features| && i <= |importances|
      invariant dict == Dict(features[..i], importances)
    {
      if i >= |importances| {
        return Failure(ImportanceError);
      }
      assert features[..i + 1][..i] == features[..i];
      dict := Assign(dict, features[i], importances[i]);
      i := i + 1;
    }
    assert features[..i] == features;
    r := Success(SortDesc(dict));
  }

  /** The dict has an entry for exactly the features. */
  lemma {:induction false} DictKeys(features: seq<string>, importances: seq<real>)
    requires |features| <= |importances|
    ensures forall k :: k in Firsts(Dict(features, importances)) <==> k in features
  {
    if features != [] {
      var n := |features| - 1;
      DictKeys(features[..n], importances);
      assert forall k :: k in features <==> k in features[..n] || k == features[n];
    }
  }

  /** Each feature paired with the importance at its position. */
  function Zip(features: seq<string>, importances: seq<real>): (z: Items)
    requires |features| <= |importances|
    ensures |z| == |features|
    ensures forall i :: 0 <= i < |z| ==> z[i] == (features[i], importances[i])
  {
    seq(|features|, i requires 0 <= i < |features| => (features[i], importances[i]))
  }

  /** With distinct features the dict is the features zipped with their importances. */
  lemma {:induction false} DictZip(features: seq<string>, importances: seq<real>)
    requires |features| <= |importances| && Distinct(features)
    ensures Dict(features, importances) == Zip(features, importances)
  {
    if features != [] {
      var n := |features| - 1;
      var front := features[..n];
      assert Distinct(front);
      DictZip(front, importances);
      var z0 := Zip(front, importances);
      assert Firsts(z0) == front;
      assert features[n] !in front;
      var d := Assign(z0, features[n], importances[n]);
      assert Dict(features, importances) == d;
      assert |d| == |Firsts(d)| == n + 1;
      forall i | 0 <= i < n + 1 ensures d[i] == (features[i], importances[i]) {
        if i < n {
          assert z0[i].0 != features[n];
        }
      }
    }
  }

  /** The ranking lists the dict's entries, each once, by descending importance; equal
      importances keep the feature order. */
  lemma RankingFacts(features: seq<string>, importances: seq<real>, v: real)
    requires |features| <= |importances|
    ensures var d, s := Dict(features, importances), ImportanceRanking(features, importances);
      && multiset(s) == multiset(d) && NonIncreasing(s)
      && WithScore(s, v) == WithScore(d, v)
  {
    SortDescStable(Dict(features, importances), v);
  }

  /** For the six feature columns and at least six importances, the ranking is a
      reordering of one (column, importance) pair per column. */
  lemma ColumnsRanking(importances: seq<real>)
    requires |importances| >= |FeatureColumns|
    ensures var s := ImportanceRanking(FeatureColumns, importances);
      && |s| == |FeatureColumns| && NonIncreasing(s)
      && multiset(s) == multiset(Zip(FeatureColumns, importances))
  {
    assert Distinct(FeatureColumns);
    DictZip(FeatureColumns, importances);
  }
}
