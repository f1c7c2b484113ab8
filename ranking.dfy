/** Python's sorted(pairs, key=lambda p: p[1], reverse=True): a stable sort of
    (item, score) pairs by descending score. Python guarantees that reverse=True
    keeps equal-score items in their original order; the insertion sort below is one
    function with exactly that behaviour. */
module Ranking {

  predicate NonIncreasing<T>(s: seq<(T, real)>) {
    forall i, j :: 0 <= i < j < |s| ==> s[i].1 >= s[j].1
  }

  /** Place x in front of the first item whose score does not exceed x's. */
  function InsertDesc<T(==)>(x: (T, real), s: seq<(T, real)>): (r: seq<(T, real)>)
    ensures |r| == |s| + 1
    ensures multiset(r) == multiset(s) + multiset{x}
  {
    if s == [] || s[0].1 <= x.1 then [x] + s
    else
      assert s == [s[0]] + s[1..];
      [s[0]] + InsertDesc(x, s[1..])
  }

  lemma {:induction false} InsertDescSorted<T>(x: (T, real), s: seq<(T, real)>)
    requires NonIncreasing(s)
    ensures NonIncreasing(InsertDesc(x, s))
  {
    if s != [] && s[0].1 > x.1 {
      var t := InsertDesc(x, s[1..]);
      InsertDescSorted(x, s[1..]);
      forall j | 0 <= j < |t| ensures s[0].1 >= t[j].1 {
        assert t[j] in multiset(t);
        if t[j] != x {
          assert t[j] in multiset(s[1..]);
          var m :| 0 <= m < |s[1..]| && s[1..][m] == t[j];
          assert s[1 + m] == t[j];
        }
      }
      var r := [s[0]] + t;
      forall i, j | 0 <= i < j < |r| ensures r[i].1 >= r[j].1 {
        if i > 0 { assert r[i] == t[i - 1] && r[j] == t[j - 1]; }
        else { assert r[j] == t[j - 1]; }
      }
    }
  }

  function SortDesc<T(==)>(s: seq<(T, real)>): (r: seq<(T, real)>)
    ensures |r| == |s|
    ensures multiset(r) == multiset(s)
    ensures NonIncreasing(r)
  {
    if s == [] then []
    else
      assert s == [s[0]] + s[1..];
      var t := SortDesc(s[1..]);
      InsertDescSorted(s[0], t);
      InsertDesc(s[0], t)
  }

  /** The items of s that carry score v, in the order of s. */
  function WithScore<T>(s: seq<(T, real)>, v: real): seq<(T, real)> {
    if s == [] then []
    else (if s[0].1 == v then [s[0]] else []) + WithScore(s[1..], v)
  }

  lemma {:induction false} InsertDescWithScore<T>(x: (T, real), s: seq<(T, real)>, v: real)
    ensures WithScore(InsertDesc(x, s), v) == (if x.1 == v then [x] else []) + WithScore(s, v)
  {
    var r := InsertDesc(x, s);
    if s == [] || s[0].1 <= x.1 {
      assert r == [x] + s;
      assert r[0] == x && r[1..] == s;
      assert WithScore(r, v) == (if x.1 == v then [x] else []) + WithScore(s, v);
    } else {
      var t := InsertDesc(x, s[1..]);
      InsertDescWithScore(x, s[1..], v);
      assert r == [s[0]] + t;
      assert r[0] == s[0] && r[1..] == t;
      var head := if s[0].1 == v then [s[0]] else [];
      assert WithScore(r, v) == head + WithScore(t, v);
      assert WithScore(s, v) == head + WithScore(s[1..], v);
    }
  }

  /** Stability: for every score, the items with that score keep their input order. */
  lemma {:induction false} SortDescStable<T>(s: seq<(T, real)>, v: real)
    ensures WithScore(SortDesc(s), v) == WithScore(s, v)
  {
    if s != [] {
      SortDescStable(s[1..], v);
      InsertDescWithScore(s[0], SortDesc(s[1..]), v);
    }
  }

  predicate IncreasingKeys(s: seq<(int, real)>) {
    forall i, j :: 0 <= i < j < |s| ==> s[i].0 < s[j].0
  }

  /** Among equal scores, smaller keys come first. */
  predicate TiesByKey(s: seq<(int, real)>) {
    forall i, j :: 0 <= i < j < |s| && s[i].1 == s[j].1 ==> s[i].0 < s[j].0
  }

  lemma {:induction false} InsertDescTies(x: (int, real), s: seq<(int, real)>)
    requires TiesByKey(s)
    requires forall i :: 0 <= i < |s| ==> x.0 < s[i].0
    ensures TiesByKey(InsertDesc(x, s))
  {
    if s == [] || s[0].1 <= x.1 {
      var r := [x] + s;
      forall i, j | 0 <= i < j < |r| && r[i].1 == r[j].1 ensures r[i].0 < r[j].0 {
        if i > 0 { assert r[i] == s[i - 1] && r[j] == s[j - 1]; }
      }
    } else {
      InsertDescTies(x, s[1..]);
      var t := InsertDesc(x, s[1..]);
      var r := [s[0]] + t;
      forall i, j | 0 <= i < j < |r| && r[i].1 == r[j].1 ensures r[i].0 < r[j].0 {
        if i > 0 {
          assert r[i] == t[i - 1] && r[j] == t[j - 1];
        } else {
          assert r[j] == t[j - 1];
          assert r[j] in multiset(t);
          if r[j] == x {
            // x had a smaller score than s[0], so they cannot tie
            assert false;
          } else {
            assert r[j] in multiset(s[1..]);
            var m :| 0 <= m < |s[1..]| && s[1..][m] == r[j];
            assert s[1 + m] == r[j];
          }
        }
      }
    }
  }

  /** When the keys are the input positions (Python's enumerate), the sort orders
      equal scores by position. */
  lemma {:induction false} SortDescTiesByKey(s: seq<(int, real)>)
    requires IncreasingKeys(s)
    ensures TiesByKey(SortDesc(s))
  {
    if s != [] {
      SortDescTiesByKey(s[1..]);
      var t := SortDesc(s[1..]);
      forall i | 0 <= i < |t| ensures s[0].0 < t[i].0 {
        assert t[i] in multiset(s[1..]);
      }
      InsertDescTies(s[0], t);
    }
  }
}
