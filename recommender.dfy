/** app/models/recommender.py: the MovieRecommender class. TF-IDF vectorisation and
    cosine similarity are numeric library code: the model receives the similarity
    matrix of the frame and the query similarity as given values, numpy's argsort as
    a given function that orders positions by ascending score, and the iteration
    order of a Python set as a given listing. */
module Recommender {
  import opened Wrappers
  import opened Text
  import opened PyList
  import opened Ranking
  import opened DataLoader
  import opened Validators
  import opened Corrector

  /** A result row: the frame position of a movie and its similarity score. */
  type Scored = (int, real)

  // ---------------------------------------------------------------------------
  // Title lookup

  /** df['title'].str.lower() == title.lower(), with the lower-casing on ASCII. */
  predicate SameTitle(a: string, b: string) {
    Lower(a) == Lower(b)
  }

  /** The first row whose title equals title case-insensitively (idx[0] of the
      filtered index), or None when there is none. */
  function FirstTitle(movies: seq<Movie>, title: string): (r: Option<nat>)
    ensures r.None? <==> forall i :: 0 <= i < |movies| ==> !SameTitle(movies[i].title, title)
    ensures r.Some? ==> && r.value < |movies| && SameTitle(movies[r.value].title, title)
                        && forall j :: 0 <= j < r.value ==> !SameTitle(movies[j].title, title)
  {
    if movies == [] then None
    else if SameTitle(movies[0].title, title) then Some(0)
    else
      match FirstTitle(movies[1..], title)
      case None => None
      case Some(k) => Some(k + 1)
  }

  // ---------------------------------------------------------------------------
  // get_movie_recommendations: a stable descending sort of one similarity row

  /** list(enumerate(row)). */
  function Enumerate(row: seq<real>): (r: seq<Scored>)
    ensures |r| == |row|
    ensures forall i :: 0 <= i < |row| ==> r[i] == (i, row[i])
  {
    seq(|row|, i requires 0 <= i < |row| => (i, row[i]))
  }

  /** sorted(enumerate(row), key=score, reverse=True). */
  function Ranked(row: seq<real>): seq<Scored> {
    SortDesc(Enumerate(row))
  }

  /** No position occurs twice among the pairs. */
  predicate DistinctKeys(s: seq<Scored>) {
    forall k, l :: 0 <= k < l < |s| ==> s[k].0 != s[l].0
  }

  /** The pairs of s hold scores of positions of row, each position once. */
  ghost predicate ScoresOf(s: seq<Scored>, row: seq<real>) {
    && (forall k :: 0 <= k < |s| ==> 0 <= s[k].0 < |row| && s[k].1 == row[s[k].0])
    && DistinctKeys(s)
  }

  /** t is a maximum of row, and the first one. */
  ghost predicate FirstMax(row: seq<real>, t: int) {
    && 0 <= t < |row|
    && (forall j :: 0 <= j < |row| ==> row[j] <= row[t])
    && (forall j :: 0 <= j < t ==> row[j] < row[t])
  }

  /** The ranking lists every position once, by descending score, ties by position. */
  lemma RankedFacts(row: seq<real>)
    ensures |Ranked(row)| == |row|
    ensures ScoresOf(Ranked(row), row)
    ensures NonIncreasing(Ranked(row)) && TiesByKey(Ranked(row))
  {
    var e, s := Enumerate(row), Ranked(row);
    SortDescTiesByKey(e);
    forall k | 0 <= k < |s| ensures 0 <= s[k].0 < |row| && s[k].1 == row[s[k].0] {
      assert s[k] in multiset(e);
    }
  }

  lemma RankedCovers(row: seq<real>, i: int)
    requires 0 <= i < |row|
    ensures (i, row[i]) in Ranked(row)
    ensures i in Firsts(Ranked(row))
  {
    var e, s := Enumerate(row), Ranked(row);
    assert e[i] in multiset(s);
    var k :| 0 <= k < |s| && s[k] == e[i];
    assert Firsts(s)[k] == i;
  }

  /** In a list sorted by descending score, a position listed after the slice
      s[a..b] and not before it scores at most what every pair of the slice scores. */
  lemma SliceTop(s: seq<Scored>, row: seq<real>, a: nat, b: nat, j: int)
    requires NonIncreasing(s) && a <= b <= |s|
    requires forall k :: 0 <= k < |s| ==> 0 <= s[k].0 < |row| && s[k].1 == row[s[k].0]
    requires j in Firsts(s) && j !in Firsts(s[a..b]) && j !in Firsts(s[..a])
    ensures 0 <= j < |row|
    ensures forall k :: a <= k < b ==> row[j] <= s[k].1
  {
    assert forall k :: 0 <= k < a ==> Firsts(s[..a])[k] == s[k].0;
    assert forall k :: a <= k < b ==> Firsts(s[a..b])[k - a] == s[k].0;
    var p :| 0 <= p < |s| && Firsts(s)[p] == j;
    assert p >= b;
  }

  /** The recommendation list: sim_scores[1:n+1] of the ranking. */
  function RecommendFrom(row: seq<real>, n: int): seq<Scored> {
    Slice(Ranked(row), 1, n + 1)
  }

  /** The smaller of a and b. */
  function Min(a: int, b: int): int {
    if a < b then a else b
  }

  /** A slice of a descending list of row scores is one too. */
  lemma SliceScores(s: seq<Scored>, row: seq<real>, a: nat, b: nat)
    requires a <= b <= |s| && NonIncreasing(s) && ScoresOf(s, row)
    ensures NonIncreasing(s[a..b]) && ScoresOf(s[a..b], row)
    ensures TiesByKey(s) ==> TiesByKey(s[a..b])
  {
    assert forall k :: 0 <= k < b - a ==> s[a..b][k] == s[a + k];
  }

  /** For n >= 0 the list has min(n, N - 1) rows with non-increasing scores, ties by
      position. */
  lemma RecommendRows(row: seq<real>, n: int)
    requires n >= 0 && row != []
    ensures var r := RecommendFrom(row, n);
      && |r| == Min(n, |row| - 1)
      && NonIncreasing(r) && TiesByKey(r) && ScoresOf(r, row)
  {
    RankedFacts(row);
    assert RecommendFrom(row, n) == Ranked(row)[1..1 + Min(n, |row| - 1)];
    SliceScores(Ranked(row), row, 1, 1 + Min(n, |row| - 1));
  }

  /** The dropped top slot is the first maximum of the row, and it is not listed. */
  lemma RankedTop(row: seq<real>)
    requires row != []
    ensures FirstMax(row, Ranked(row)[0].0)
  {
    var s := Ranked(row);
    RankedFacts(row);
    var t := s[0].0;
    forall j | 0 <= j < |row| ensures row[j] <= row[t] && (j < t ==> row[j] < row[t]) {
      RankedCovers(row, j);
      var p :| 0 <= p < |s| && Firsts(s)[p] == j;
      assert s[p].0 == j && s[p].1 == row[j];
      if p > 0 {
        assert s[0].1 >= s[p].1;
        assert s[0].1 == s[p].1 ==> t < j;
      }
    }
  }

  lemma RecommendDropsTop(row: seq<real>, n: int)
    requires n >= 0 && row != []
    ensures FirstMax(row, Ranked(row)[0].0)
    ensures Ranked(row)[0].0 !in Firsts(RecommendFrom(row, n))
  {
    var s, r := Ranked(row), RecommendFrom(row, n);
    RankedFacts(row);
    RankedTop(row);
    assert r == s[1..1 + Min(n, |row| - 1)];
    var t := s[0].0;
    forall k | 0 <= k < |r| ensures Firsts(r)[k] != t {
      assert r[k] == s[k + 1];
    }
  }

  /** Every row other than the top one that is not listed scores at most what every
      listed row scores. */
  lemma RecommendTop(row: seq<real>, n: int)
    requires n >= 0 && row != []
    ensures var r := RecommendFrom(row, n);
      forall j :: 0 <= j < |row| && j != Ranked(row)[0].0 && j !in Firsts(r) ==>
        forall k :: 0 <= k < |r| ==> row[j] <= r[k].1
  {
    var r := RecommendFrom(row, n);
    forall j | 0 <= j < |row| && j != Ranked(row)[0].0 && j !in Firsts(r)
      ensures forall k :: 0 <= k < |r| ==> row[j] <= r[k].1
    {
      RecommendTopAt(row, n, j);
    }
  }

  /** The part of RankedFacts that bounds scores. */
  lemma RankedScores(row: seq<real>)
    ensures |Ranked(row)| == |row| && NonIncreasing(Ranked(row))
    ensures forall k :: 0 <= k < |Ranked(row)| ==> 0 <= Ranked(row)[k].0 < |row| && Ranked(row)[k].1 == row[Ranked(row)[k].0]
  {
    RankedFacts(row);
  }

  /** One unlisted row other than the top one scores at most every listed row. */
  lemma RecommendTopAt(row: seq<real>, n: int, j: int)
    requires n >= 0 && 0 <= j < |row|
    requires j != Ranked(row)[0].0 && j !in Firsts(RecommendFrom(row, n))
    ensures forall k :: 0 <= k < |RecommendFrom(row, n)| ==> row[j] <= RecommendFrom(row, n)[k].1
  {
    var s, r := Ranked(row), RecommendFrom(row, n);
    RankedScores(row);
    var m := 1 + Min(n, |row| - 1);
    SliceFrom(s, 1, n + 1);
    assert r == s[1..m];
    assert Firsts(s[..1]) == [s[0].0];
    RankedCovers(row, j);
    SliceTop(s, row, 1, m, j);
    forall k | 0 <= k < |r| ensures row[j] <= r[k].1 {
      assert r[k] == s[k + 1];
    }
  }

  /** Two equal rows: the top slot goes to row 0, so the recommendations for row 1
      are row 1 itself. */
  lemma SelfRecommended()
    ensures RecommendFrom([1.0, 1.0], 10) == [(1, 1.0)]
  {
    var e := Enumerate([1.0, 1.0]);
    assert e == [(0, 1.0), (1, 1.0)];
    var e1 := [(1, 1.0)];
    assert e[1..] == e1 && e1[1..] == [];
    assert InsertDesc((1, 1.0), []) == e1;
    assert SortDesc(e1) == e1;
    assert InsertDesc((0, 1.0), e1) == e;
    assert Ranked([1.0, 1.0]) == e;
  }

  /** The pairs of s whose position is not x. */
  function DropKey(s: seq<Scored>, x: int): (r: seq<Scored>)
    ensures forall p :: p in r <==> p in s && p.0 != x
    ensures |r| <= |s|
  {
    if s == [] then []
    else (if s[0].0 == x then [] else [s[0]]) + DropKey(s[1..], x)
  }

  lemma {:induction false} DropKeyLength(s: seq<Scored>, x: int)
    requires DistinctKeys(s)
    ensures |DropKey(s, x)| == if x in Firsts(s) then |s| - 1 else |s|
  {
    if s != [] {
      assert Firsts(s[1..]) == Firsts(s)[1..];
      DropKeyLength(s[1..], x);
      assert x in Firsts(s) <==> s[0].0 == x || x in Firsts(s[1..]);
    }
  }

  /** Dropping pairs keeps the survivors in their order. */
  lemma {:induction false} DropKeyOrder(s: seq<Scored>, x: int)
    requires NonIncreasing(s)
    ensures NonIncreasing(DropKey(s, x))
  {
    if s != [] {
      DropKeyOrder(s[1..], x);
      var t := DropKey(s[1..], x);
      if s[0].0 == x {
        assert DropKey(s, x) == t;
      } else {
        forall k | 0 <= k < |t| ensures t[k].1 <= s[0].1 {
          assert t[k] in s[1..];
          var m :| 0 <= m < |s[1..]| && s[1..][m] == t[k];
          assert s[m + 1] == t[k];
        }
        assert DropKey(s, x) == [s[0]] + t;
        ConsNonIncreasing(s[0], t);
      }
    }
  }

  /** A pair scoring at least every pair of a non-increasing list can go in front. */
  lemma ConsNonIncreasing(h: Scored, t: seq<Scored>)
    requires NonIncreasing(t) && forall k :: 0 <= k < |t| ==> t[k].1 <= h.1
    ensures NonIncreasing([h] + t)
  {
    var r := [h] + t;
    forall k, l | 0 <= k < l < |r| ensures r[k].1 >= r[l].1 {
      assert r[l] == t[l - 1];
      if k > 0 { assert r[k] == t[k - 1]; }
    }
  }

  lemma DistinctKeysTail(s: seq<Scored>)
    requires s != [] && DistinctKeys(s)
    ensures DistinctKeys(s[1..])
  {
    forall k, l | 0 <= k < l < |s| - 1 ensures s[1..][k].0 != s[1..][l].0 {
      assert s[1..][k] == s[k + 1] && s[1..][l] == s[l + 1];
    }
  }

  lemma DistinctKeysCons(h: Scored, t: seq<Scored>)
    requires DistinctKeys(t) && forall k :: 0 <= k < |t| ==> t[k].0 != h.0
    ensures DistinctKeys([h] + t)
  {
    var r := [h] + t;
    forall k, l | 0 <= k < l < |r| ensures r[k].0 != r[l].0 {
      assert r[l] == t[l - 1];
      if k > 0 { assert r[k] == t[k - 1]; }
    }
  }

  lemma {:induction false} DropKeyDistinct(s: seq<Scored>, x: int)
    requires DistinctKeys(s)
    ensures DistinctKeys(DropKey(s, x))
  {
    if s != [] {
      var t := DropKey(s[1..], x);
      DistinctKeysTail(s);
      DropKeyDistinct(s[1..], x);
      if s[0].0 != x {
        forall k | 0 <= k < |t| ensures t[k].0 != s[0].0 {
          assert t[k] in s[1..];
          var p :| 0 <= p < |s[1..]| && s[1..][p] == t[k];
          assert s[p + 1] == t[k];
        }
        DistinctKeysCons(s[0], t);
        assert DropKey(s, x) == [s[0]] + t;
      } else {
        assert DropKey(s, x) == t;
      }
    }
  }

  /** The recommendation list with the query row itself left out of the ranking, so
      that it never recommends itself whatever the ties. */
  function RankExcludingSelf(row: seq<real>, self: int, n: int): seq<Scored> {
    Slice(DropKey(Ranked(row), self), 0, n)
  }

  /** The ranking without the query row: every other row once, by descending score. */
  lemma DroppedSelf(row: seq<real>, self: int)
    requires 0 <= self < |row|
    ensures var d := DropKey(Ranked(row), self);
      |d| == |row| - 1 && NonIncreasing(d) && ScoresOf(d, row) && self !in Firsts(d)
  {
    var s := Ranked(row);
    RankedFacts(row);
    RankedCovers(row, self);
    DropKeyLength(s, self);
    DropKeyOrder(s, self);
    DropKeyDistinct(s, self);
    var d := DropKey(s, self);
    forall k | 0 <= k < |d| ensures 0 <= d[k].0 < |row| && d[k].1 == row[d[k].0] && d[k].0 != self {
      assert d[k] in s;
    }
  }

  lemma DroppedSelfCovers(row: seq<real>, self: int, j: int)
    requires 0 <= j < |row| && j != self
    ensures j in Firsts(DropKey(Ranked(row), self))
  {
    var d := DropKey(Ranked(row), self);
    RankedCovers(row, j);
    assert (j, row[j]) in d;
    var q :| 0 <= q < |d| && d[q] == (j, row[j]);
    assert Firsts(d)[q] == j;
  }

  /** Without the query row, the list has min(n, N - 1) rows, never the query row,
      with non-increasing scores. */
  lemma RankExcludingSelfRows(row: seq<real>, self: int, n: int)
    requires 0 <= self < |row| && n >= 0
    ensures var r := RankExcludingSelf(row, self, n);
      && |r| == Min(n, |row| - 1) && self !in Firsts(r) && NonIncreasing(r) && ScoresOf(r, row)
  {
    DroppedSelf(row, self);
    var d := DropKey(Ranked(row), self);
    var m := Min(n, |row| - 1);
    var r := d[0..m];
    assert RankExcludingSelf(row, self, n) == r;
    SliceScores(d, row, 0, m);
    forall k | 0 <= k < |r| ensures Firsts(r)[k] != self {
      assert r[k] == d[k] && Firsts(d)[k] == d[k].0;
    }
  }

  /** Every other row that is not listed scores at most what every listed row scores. */
  lemma RankExcludingSelfTop(row: seq<real>, self: int, n: int)
    requires 0 <= self < |row| && n >= 0
    ensures var r := RankExcludingSelf(row, self, n);
      forall j :: 0 <= j < |row| && j != self && j !in Firsts(r) ==>
        forall k :: 0 <= k < |r| ==> row[j] <= r[k].1
  {
    DroppedSelf(row, self);
    var d := DropKey(Ranked(row), self);
    var m := Min(n, |row| - 1);
    var r := RankExcludingSelf(row, self, n);
    assert r == d[0..m];
    assert d[..0] == [];
    forall j | 0 <= j < |row| && j != self && j !in Firsts(r) ensures forall k :: 0 <= k < |r| ==> row[j] <= r[k].1 {
      DroppedSelfCovers(row, self, j);
      SliceTop(d, row, 0, m, j);
    }
  }

  // ---------------------------------------------------------------------------
  // buscar_peliculas_similares: argsort top-n with the exact title first

  /** Every position of ix is a position of a list of length n. */
  predicate InRange(ix: seq<int>, n: int) {
    forall k :: 0 <= k < |ix| ==> 0 <= ix[k] < n
  }

  /** numpy's argsort of s: a permutation of the positions of s, by ascending score. */
  ghost predicate Ascending(s: seq<real>, order: seq<int>) {
    && |order| == |s| && InRange(order, |s|) && Distinct(order)
    && (forall k, l :: 0 <= k < l < |order| ==> s[order[k]] <= s[order[l]])
    && (forall i :: 0 <= i < |s| ==> i in order)
  }

  /** Positions of s listed by descending score. */
  ghost predicate DescBy(ix: seq<int>, s: seq<real>) {
    && InRange(ix, |s|)
    && forall k, l :: 0 <= k < l < |ix| ==> s[ix[k]] >= s[ix[l]]
  }

  /** Every position of s that is neither listed in ix nor in skip scores at most
      what every listed position scores. */
  ghost predicate Above(ix: seq<int>, s: seq<real>, skip: set<int>) {
    && InRange(ix, |s|)
    && forall j :: 0 <= j < |s| && j !in ix && j !in skip ==> forall k :: 0 <= k < |ix| ==> s[j] <= s[ix[k]]
  }

  /** movie_indices = argsort()[-n:][::-1]. */
  function TopN(order: seq<int>, n: int): (t: seq<int>)
    ensures forall x :: x in t ==> x in order
  {
    var u := Slice(order, -n, |order|);
    var t := Reverse(u);
    assert forall x :: x in t ==> x in u;
    t
  }

  /** For n >= 1, TopN lists the last min(n, |order|) entries of order, last first:
      the highest scores first. */
  lemma TopNAt(order: seq<int>, n: int)
    requires n >= 1
    ensures |TopN(order, n)| == Min(n, |order|)
    ensures forall k :: 0 <= k < |TopN(order, n)| ==> TopN(order, n)[k] == order[|order| - 1 - k]
  {
    SliceLast(order, n);
  }

  /** TopN lists every entry of order from position |order| - |TopN(order, n)| on. */
  lemma TopNListsSuffix(order: seq<int>, n: int)
    requires n >= 1
    ensures forall p :: |order| - |TopN(order, n)| <= p < |order| ==> order[p] in TopN(order, n)
  {
    TopNAt(order, n);
    var t := TopN(order, n);
    forall p | |order| - |t| <= p < |order| ensures order[p] in t {
      assert t[|order| - 1 - p] == order[p];
    }
  }

  /** The listed positions are distinct and by descending score. */
  lemma TopNDesc(s: seq<real>, order: seq<int>, n: int)
    requires Ascending(s, order) && n >= 1
    ensures var t := TopN(order, n); |t| == Min(n, |s|) && Distinct(t) && DescBy(t, s)
  {
    var t := TopN(order, n);
    TopNAt(order, n);
    forall k, l | 0 <= k < l < |t| ensures t[k] != t[l] && s[t[k]] >= s[t[l]] {
      assert t[k] == order[|s| - 1 - k] && t[l] == order[|s| - 1 - l];
    }
  }

  /** Every position left out scores at most every listed one. */
  lemma TopNAbove(s: seq<real>, order: seq<int>, n: int)
    requires Ascending(s, order) && n >= 1
    ensures Above(TopN(order, n), s, {})
  {
    var t := TopN(order, n);
    TopNAt(order, n);
    TopNListsSuffix(order, n);
    forall j | 0 <= j < |s| && j !in t ensures forall k :: 0 <= k < |t| ==> s[j] <= s[t[k]] {
      assert j in order;
      var p :| 0 <= p < |order| && order[p] == j;
      assert p < |s| - |t|;
      forall k | 0 <= k < |t| ensures s[j] <= s[t[k]] {
        assert t[k] == order[|s| - 1 - k];
      }
    }
  }

  lemma TopNFacts(s: seq<real>, order: seq<int>, n: int)
    requires Ascending(s, order) && n >= 1
    ensures var t := TopN(order, n);
      |t| == Min(n, |s|) && Distinct(t) && DescBy(t, s) && Above(t, s, {})
  {
    TopNDesc(s, order, n);
    TopNAbove(s, order, n);
  }

  /** The positions of s outside xs: [i for i in s if i not in xs]. */
  function DropAll(s: seq<int>, xs: seq<int>): (r: seq<int>)
    ensures forall k :: 0 <= k < |r| ==> r[k] in s && r[k] !in xs
    ensures |r| <= |s|
  {
    if s == [] then []
    else (if s[0] in xs then [] else [s[0]]) + DropAll(s[1..], xs)
  }

  /** Dropping positions keeps the survivors distinct and in their order. */
  lemma {:induction false} DropAllDistinct(s: seq<int>, xs: seq<int>)
    requires Distinct(s)
    ensures Distinct(DropAll(s, xs))
  {
    if s != [] {
      DropAllDistinct(s[1..], xs);
      if s[0] in xs {
        assert DropAll(s, xs) == DropAll(s[1..], xs);
      } else {
        var t := DropAll(s[1..], xs);
        assert DropAll(s, xs) == [s[0]] + t;
        assert s[0] !in s[1..];
      }
    }
  }

  /** Every position of s outside xs survives. */
  lemma {:induction false} DropAllKeepsMember(s: seq<int>, xs: seq<int>, y: int)
    requires y in s && y !in xs
    ensures y in DropAll(s, xs)
  {
    if s[0] != y {
      DropAllKeepsMember(s[1..], xs, y);
    }
  }

  lemma DescByTail(s: seq<int>, sc: seq<real>)
    requires s != [] && DescBy(s, sc)
    ensures DescBy(s[1..], sc)
  {
    assert forall k :: 0 <= k < |s| - 1 ==> s[1..][k] == s[k + 1];
  }

  /** A position scoring at least every listed one can go in front. */
  lemma DescByCons(h: int, t: seq<int>, sc: seq<real>)
    requires DescBy(t, sc) && 0 <= h < |sc|
    requires forall k :: 0 <= k < |t| ==> sc[t[k]] <= sc[h]
    ensures DescBy([h] + t, sc)
  {
    var r := [h] + t;
    forall k, l | 0 <= k < l < |r| ensures sc[r[k]] >= sc[r[l]] {
      assert r[l] == t[l - 1];
      if k > 0 { assert r[k] == t[k - 1]; }
    }
  }

  /** Every member of a subsequence-like list t of s[1..] scores at most s[0]. */
  lemma HeadTops(s: seq<int>, t: seq<int>, sc: seq<real>)
    requires s != [] && DescBy(s, sc)
    requires forall k :: 0 <= k < |t| ==> t[k] in s[1..]
    ensures forall k :: 0 <= k < |t| ==> 0 <= t[k] < |sc| && sc[t[k]] <= sc[s[0]]
  {
    forall k | 0 <= k < |t| ensures 0 <= t[k] < |sc| && sc[t[k]] <= sc[s[0]] {
      var p :| 0 <= p < |s[1..]| && s[1..][p] == t[k];
      assert s[p + 1] == t[k];
    }
  }

  lemma {:induction false} DropAllDesc(s: seq<int>, xs: seq<int>, sc: seq<real>)
    requires DescBy(s, sc)
    ensures DescBy(DropAll(s, xs), sc)
  {
    if s != [] {
      DescByTail(s, sc);
      DropAllDesc(s[1..], xs, sc);
      if s[0] in xs {
        assert DropAll(s, xs) == DropAll(s[1..], xs);
      } else {
        var t := DropAll(s[1..], xs);
        assert DropAll(s, xs) == [s[0]] + t;
        HeadTops(s, t, sc);
        DescByCons(s[0], t, sc);
      }
    }
  }

  /** In a descending list of positions, one listed beyond the first m scores at most
      what each of the first m scores. */
  lemma PrefixTop(ix: seq<int>, s: seq<real>, m: nat, j: int)
    requires DescBy(ix, s) && m <= |ix| && j in ix && j !in ix[..m]
    ensures forall k :: 0 <= k < m ==> s[j] <= s[ix[k]]
  {
    assert forall k :: 0 <= k < m ==> ix[..m][k] == ix[k];
    var p :| 0 <= p < |ix| && ix[p] == j;
    assert p >= m;
  }

  /** indices_finales: the exact match first and then the others, or the top n. */
  function Finals(exact: Option<nat>, t: seq<int>, n: int): seq<int> {
    match exact
    case None => Slice(t, 0, n)
    case Some(e) => [e] + Rest(e, t, n)
  }

  lemma FinalsInRange(exact: Option<nat>, t: seq<int>, size: int, n: int)
    requires InRange(t, size) && (exact.Some? ==> exact.value < size)
    ensures InRange(Finals(exact, t, n), size)
  {
    var f := Finals(exact, t, n);
    forall k | 0 <= k < |f| ensures 0 <= f[k] < size {
      assert f[k] in f;
      if exact.Some? && k > 0 {
        assert f[k] in f[1..];
      }
    }
  }

  /** Without an exact match, the list is the top n itself. */
  lemma FinalsWithout(t: seq<int>, s: seq<real>, n: int)
    requires n >= 1 && Distinct(t) && DescBy(t, s) && Above(t, s, {})
    ensures var f := Finals(None, t, n);
      |f| == Min(n, |t|) && Distinct(f) && DescBy(f, s) && Above(f, s, {})
  {
    var f := Finals(None, t, n);
    assert f == t[..Min(n, |t|)];
    forall j | 0 <= j < |s| && j !in f ensures forall k :: 0 <= k < |f| ==> s[j] <= s[f[k]] {
      if j in t {
        PrefixTop(t, s, |f|, j);
      }
    }
  }

  /** The slots after the exact match e: the best positions other than e. */
  function Rest(e: int, t: seq<int>, n: int): seq<int> {
    Slice(DropAll(t, [e]), 0, n - 1)
  }

  lemma RestOrder(e: nat, t: seq<int>, s: seq<real>, n: int)
    requires n >= 1 && Distinct(t) && DescBy(t, s)
    ensures var r := Rest(e, t, n);
      |r| <= n - 1 && e !in r && Distinct(r) && DescBy(r, s)
  {
    var d := DropAll(t, [e]);
    DropAllDistinct(t, [e]);
    DropAllDesc(t, [e], s);
    var r := Rest(e, t, n);
    assert r == d[..Min(n - 1, |d|)];
    assert forall k :: 0 <= k < |r| ==> r[k] == d[k];
  }

  lemma RestTop(e: nat, t: seq<int>, s: seq<real>, n: int)
    requires n >= 1 && Distinct(t) && DescBy(t, s) && Above(t, s, {})
    ensures Above(Rest(e, t, n), s, {e})
  {
    var d := DropAll(t, [e]);
    DropAllDesc(t, [e], s);
    var r := Rest(e, t, n);
    var m := Min(n - 1, |d|);
    assert r == d[..m];
    forall j | 0 <= j < |s| && j !in r && j != e ensures forall k :: 0 <= k < |r| ==> s[j] <= s[r[k]] {
      if j in t {
        DropAllKeepsMember(t, [e], j);
        PrefixTop(d, s, m, j);
      } else {
        forall k | 0 <= k < |r| ensures s[j] <= s[r[k]] {
          assert r[k] in d;
          var p :| 0 <= p < |t| && t[p] == r[k];
        }
      }
    }
  }

  /** Dropping one position from a duplicate-free list removes it once if it is there. */
  lemma {:induction false} DropOneLength(t: seq<int>, e: int)
    requires Distinct(t)
    ensures |DropAll(t, [e])| == if e in t then |t| - 1 else |t|
  {
    if t != [] {
      assert Distinct(t[1..]) by {
        forall i, j | 0 <= i < j < |t[1..]| ensures t[1..][i] != t[1..][j] {
          assert t[1..][i] == t[i + 1] && t[1..][j] == t[j + 1];
        }
      }
      DropOneLength(t[1..], e);
      assert t == [t[0]] + t[1..];
      if t[0] == e {
        assert e !in t[1..] by {
          forall k | 0 <= k < |t[1..]| ensures t[1..][k] != e {
            assert t[1..][k] == t[k + 1];
          }
        }
      }
    }
  }

  /** With an exact match e, e comes first and only there, and the others are the
      best of the remaining positions, best first. The list has min(n, |t|) entries
      when e is among the top positions t, and one more slot's worth, up to n,
      when e is not. */
  lemma FinalsWith(e: nat, t: seq<int>, s: seq<real>, n: int)
    requires n >= 1 && e < |s| && Distinct(t) && DescBy(t, s) && Above(t, s, {})
    ensures var f := Finals(Some(e), t, n);
      && |f| == (if e in t then Min(n, |t|) else Min(n, |t| + 1))
      && f[0] == e && e !in f[1..] && Distinct(f)
      && DescBy(f[1..], s) && Above(f[1..], s, {e})
  {
    RestOrder(e, t, s, n);
    RestTop(e, t, s, n);
    DropOneLength(t, e);
    var f := Finals(Some(e), t, n);
    assert f == [e] + Rest(e, t, n);
    assert f[1..] == Rest(e, t, n);
    SliceTake(DropAll(t, [e]), n - 1);
  }

  /** When a row e is left out of the top n of an argsort, the top n are n rows. */
  lemma TopNMissing(s: seq<real>, order: seq<int>, n: int, e: nat)
    requires Ascending(s, order) && n >= 1 && e < |s| && e !in TopN(order, n)
    ensures |TopN(order, n)| == n
  {
    TopNAt(order, n);
    TopNListsSuffix(order, n);
    assert e in order;
    var p :| 0 <= p < |order| && order[p] == e;
  }

  /** With an exact match e, the search over an argsort lists exactly min(n, N)
      rows, e first and only there, and then the most similar others, best first. */
  lemma FinalsWithCount(s: seq<real>, order: seq<int>, n: int, e: nat)
    requires Ascending(s, order) && n >= 1 && e < |s|
    ensures var f := Finals(Some(e), TopN(order, n), n);
      && |f| == Min(n, |s|) && f[0] == e && e !in f[1..] && Distinct(f)
      && DescBy(f[1..], s) && Above(f[1..], s, {e})
  {
    var t := TopN(order, n);
    TopNFacts(s, order, n);
    FinalsWith(e, t, s, n);
    if e !in t {
      TopNMissing(s, order, n, e);
    }
  }

  /** Each listed position with its score: sim_scores[indices_finales]. */
  function ScoredAt(ix: seq<int>, s: seq<real>): (r: seq<Scored>)
    requires InRange(ix, |s|)
    ensures |r| == |ix| && Firsts(r) == ix
    ensures forall k :: 0 <= k < |ix| ==> r[k] == (ix[k], s[ix[k]])
  {
    seq(|ix|, k requires 0 <= k < |ix| => (ix[k], s[ix[k]]))
  }

  /** A request for no rows: argsort()[-0:] is the whole ordering, so [:0] leaves
      nothing without an exact match, while with an exact match e the slice [:n-1],
      that is [:-1], keeps all the other rows but the last, so N >= 2 rows give a
      list of N - 1. */
  lemma ZeroRowsList(s: seq<real>, order: seq<int>, e: nat)
    requires Ascending(s, order) && e < |s| && |s| >= 2
    ensures |Finals(None, TopN(order, 0), 0)| == 0
    ensures |Finals(Some(e), TopN(order, 0), 0)| == |s| - 1
  {
    var t := TopN(order, 0);
    SliceLast(order, 0);
    assert t == Reverse(order);
    assert Distinct(t) by {
      forall i, j | 0 <= i < j < |t| ensures t[i] != t[j] {
        assert t[i] == order[|order| - 1 - i] && t[j] == order[|order| - 1 - j];
      }
    }
    assert e in order;
    var p :| 0 <= p < |order| && order[p] == e;
    assert t[|order| - 1 - p] == e;
    DropOneLength(t, e);
  }

  // ---------------------------------------------------------------------------
  // buscar_inteligente: filter sets from comma-separated names, then a ranking
  // inside the filtered rows

  /** The positions of the parts that are not blank, in increasing order. */
  function NonBlankAt(parts: seq<string>): (r: seq<nat>)
    ensures forall k :: 0 <= k < |r| ==> r[k] < |parts| && !IsBlank(parts[r[k]])
    ensures forall k, l :: 0 <= k < l < |r| ==> r[k] < r[l]
    ensures forall i :: 0 <= i < |parts| && !IsBlank(parts[i]) ==> i in r
  {
    if parts == [] then []
    else
      var n := |parts| - 1;
      var p := NonBlankAt(parts[..n]);
      assert forall i :: 0 <= i < n ==> parts[..n][i] == parts[i];
      if IsBlank(parts[n]) then p else p + [n]
  }

  /** A part that is not blank stays non-blank once stripped. */
  lemma StripNotBlank(p: string)
    requires !IsBlank(p)
    ensures !IsBlank(Strip(p))
  {
    assert !IsSpace(Strip(p)[0]);
  }

  /** [a.strip() for a in parts if a.strip()]: the non-blank parts, stripped, in
      order. */
  function Pieces(parts: seq<string>): (r: seq<string>)
    ensures |r| == |NonBlankAt(parts)|
    ensures forall k :: 0 <= k < |r| ==> r[k] == Strip(parts[NonBlankAt(parts)[k]])
    ensures forall k :: 0 <= k < |r| ==> !IsBlank(r[k])
    ensures (forall k :: 0 <= k < |parts| ==> IsBlank(parts[k])) ==> r == []
  {
    var at := NonBlankAt(parts);
    forall k | 0 <= k < |at| ensures !IsBlank(Strip(parts[at[k]])) {
      StripNotBlank(parts[at[k]]);
    }
    assert at != [] ==> !IsBlank(parts[at[0]]);
    seq(|at|, k requires 0 <= k < |at| => Strip(parts[at[k]]))
  }

  /** [corregir_nombre_entidad(a.strip(), kind) for a in parts if a.strip()]: each
      non-blank part, stripped and corrected, in order. */
  function CorrectEach(c: TextCorrector, parts: seq<string>, kind: string): (r: seq<string>)
    requires c.Consistent()
    ensures |r| == |NonBlankAt(parts)|
    ensures forall k :: 0 <= k < |r| ==> r[k] == c.CorrectEntityName(Strip(parts[NonBlankAt(parts)[k]]), kind)
    ensures forall k :: 0 <= k < |r| ==> Canonical(r[k])
    ensures (forall k :: 0 <= k < |parts| ==> IsBlank(parts[k])) ==> r == []
  {
    var ps := Pieces(parts);
    seq(|ps|, k requires 0 <= k < |ps| => c.CorrectEntityName(ps[k], kind))
  }

  /** [index[a] for a in names if a in index]. */
  function Lookup(names: seq<string>, index: map<string, set<int>>): (r: seq<set<int>>)
    ensures |r| <= |names|
    ensures r == [] <==> forall k :: 0 <= k < |names| ==> names[k] !in index
  {
    if names == [] then []
    else (if names[0] in index then [index[names[0]]] else []) + Lookup(names[1..], index)
  }

  /** set.intersection(*sets), or a copy of the only set. */
  function IntersectAll(sets: seq<set<int>>): (r: set<int>)
    requires sets != []
    ensures forall x :: x in r <==> forall k :: 0 <= k < |sets| ==> x in sets[k]
  {
    if |sets| == 1 then sets[0]
    else
      var rest := IntersectAll(sets[1..]);
      assert forall k :: 1 <= k < |sets| ==> sets[k] == sets[1..][k - 1];
      sets[0] * rest
  }

  /** x is in the index set of every name of names that the index knows. */
  predicate SharedBy(names: seq<string>, index: map<string, set<int>>, x: int) {
    forall k :: 0 <= k < |names| && names[k] in index ==> x in index[names[k]]
  }

  lemma SharedBySplit(names: seq<string>, index: map<string, set<int>>, x: int)
    requires names != []
    ensures SharedBy(names, index, x) <==>
              (names[0] in index ==> x in index[names[0]]) && SharedBy(names[1..], index, x)
  {
    var tail := names[1..];
    if SharedBy(names, index, x) {
      forall k | 0 <= k < |tail| && tail[k] in index ensures x in index[tail[k]] { assert tail[k] == names[k + 1]; }
    }
    if (names[0] in index ==> x in index[names[0]]) && SharedBy(tail, index, x) {
      forall k | 0 < k < |names| && names[k] in index ensures x in index[names[k]] { assert names[k] == tail[k - 1]; }
    }
  }

  /** The rows all looked-up sets share are those every resolved name's set holds. */
  lemma {:induction false} LookupShared(names: seq<string>, index: map<string, set<int>>, x: int)
    ensures (forall k :: 0 <= k < |Lookup(names, index)| ==> x in Lookup(names, index)[k]) <==> SharedBy(names, index, x)
  {
    if names != [] {
      var tail := names[1..];
      LookupShared(tail, index, x);
      var r, t := Lookup(names, index), Lookup(tail, index);
      SharedBySplit(names, index, x);
      if names[0] in index {
        assert r == [index[names[0]]] + t;
        if forall k :: 0 <= k < |t| ==> x in t[k] {
          forall k | 0 < k < |r| ensures x in r[k] { assert r[k] == t[k - 1]; }
        }
        if forall k :: 0 <= k < |r| ==> x in r[k] {
          forall k | 0 <= k < |t| ensures x in t[k] { assert t[k] == r[k + 1]; }
          assert x in r[0] && r[0] == index[names[0]];
        }
      } else {
        assert r == t;
      }
    }
  }

  /** One filter stage: None for a blank field; otherwise the rows every resolved name
      shares, or no rows when no name resolves. */
  function Stage(c: TextCorrector, names: string, kind: string, index: map<string, set<int>>): Option<set<int>>
    requires c.Consistent()
  {
    if IsBlank(names) then None
    else
      var sets := Lookup(CorrectEach(c, Split(names, ','), kind), index);
      Some(if sets == [] then {} else IntersectAll(sets))
  }

  /** Combining the actor stage with the director stage: a director set is intersected
      with the actor set when there is one. */
  function Combine(actors: Option<set<int>>, directors: Option<set<int>>): Option<set<int>> {
    match directors
    case None => actors
    case Some(d) => if actors.Some? then Some(actors.value * d) else Some(d)
  }

  /** The combined filter is absent only when both stages are, and keeps the rows
      both present stages keep. */
  lemma CombineRows(actors: Option<set<int>>, directors: Option<set<int>>, x: int)
    ensures Combine(actors, directors).None? <==> actors.None? && directors.None?
    ensures Combine(actors, directors).Some? ==>
              (x in Combine(actors, directors).value <==>
                 (actors.None? || x in actors.value) && (directors.None? || x in directors.value))
  {
  }

  /** The candidate names a stage resolves to index keys. */
  function Resolved(c: TextCorrector, names: string, kind: string): seq<string>
    requires c.Consistent()
  {
    CorrectEach(c, Split(names, ','), kind)
  }

  /** A stage keeps exactly the rows that every resolved name of the field lists, and
      none when no name resolves. */
  lemma StageMembers(c: TextCorrector, names: string, kind: string, index: map<string, set<int>>, x: int)
    requires c.Consistent() && !IsBlank(names)
    ensures var t := Stage(c, names, kind, index).value; var rs := Resolved(c, names, kind);
      x in t <==> (exists k :: 0 <= k < |rs| && rs[k] in index)
                  && SharedBy(rs, index, x)
  {
    var rs := Resolved(c, names, kind);
    var sets := Lookup(rs, index);
    assert Stage(c, names, kind, index) == Some(if sets == [] then {} else IntersectAll(sets));
    LookupShared(rs, index, x);
  }

  /** [i for i in ix if i in keep]: the complement of DropAll. */
  function Keep(ix: seq<int>, keep: set<int>): (r: seq<int>)
    ensures |r| <= |ix|
    ensures forall k :: 0 <= k < |r| ==> r[k] in ix && r[k] in keep
  {
    if ix == [] then []
    else (if ix[0] in keep then [ix[0]] else []) + Keep(ix[1..], keep)
  }

  lemma {:induction false} KeepComplete(ix: seq<int>, keep: set<int>, y: int)
    requires y in ix && y in keep
    ensures y in Keep(ix, keep)
  {
    if ix[0] != y {
      KeepComplete(ix[1..], keep, y);
    }
  }

  lemma {:induction false} KeepDistinct(ix: seq<int>, keep: set<int>)
    requires Distinct(ix)
    ensures Distinct(Keep(ix, keep))
  {
    if ix != [] {
      KeepDistinct(ix[1..], keep);
      var t := Keep(ix[1..], keep);
      if ix[0] in keep {
        assert Keep(ix, keep) == [ix[0]] + t;
        assert ix[0] !in ix[1..];
      } else {
        assert Keep(ix, keep) == t;
      }
    }
  }

  lemma {:induction false} KeepDesc(ix: seq<int>, keep: set<int>, sc: seq<real>)
    requires DescBy(ix, sc)
    ensures DescBy(Keep(ix, keep), sc)
  {
    if ix != [] {
      DescByTail(ix, sc);
      KeepDesc(ix[1..], keep, sc);
      var t := Keep(ix[1..], keep);
      if ix[0] in keep {
        assert Keep(ix, keep) == [ix[0]] + t;
        HeadTops(ix, t, sc);
        DescByCons(ix[0], t, sc);
      } else {
        assert Keep(ix, keep) == t;
      }
    }
  }

  /** The kept rows and the dropped rows split ix when xs marks exactly the kept ones. */
  lemma {:induction false} KeepSplit(ix: seq<int>, keep: set<int>, xs: seq<int>)
    requires forall k :: 0 <= k < |ix| ==> (ix[k] in xs <==> ix[k] in keep)
    ensures |Keep(ix, keep)| + |DropAll(ix, xs)| == |ix|
    ensures forall k :: 0 <= k < |DropAll(ix, xs)| ==> DropAll(ix, xs)[k] !in keep
  {
    if ix != [] {
      KeepSplit(ix[1..], keep, xs);
      var d := DropAll(ix, xs);
      forall k | 0 <= k < |d| ensures d[k] !in keep {
        var p :| 0 <= p < |ix| && ix[p] == d[k];
      }
    }
  }

  /** Row i's title equals pelicula and pelicula is not blank. */
  predicate Titled(movies: seq<Movie>, i: int, pelicula: string) {
    0 <= i < |movies| && !IsBlank(pelicula) && SameTitle(movies[i].title, pelicula)
  }

  /** The rows titled pelicula. */
  function TitledRows(movies: seq<Movie>, pelicula: string): (r: set<int>)
    ensures forall i :: i in r <==> Titled(movies, i, pelicula)
  {
    set i | 0 <= i < |movies| && Titled(movies, i, pelicula)
  }

  /** resultados_idx after the exact-title move: rows titled pelicula first, in their
      order, then the others. */
  function ExactFirst(movies: seq<Movie>, results: seq<int>, pelicula: string, topN: int): seq<int> {
    var exact := Keep(results, TitledRows(movies, pelicula));
    if IsBlank(pelicula) || exact == [] then results else Slice(exact + DropAll(results, exact), 0, topN)
  }

  /** The rows in keep come first, then the others, each group by descending score. */
  ghost predicate GroupsFirst(ix: seq<int>, sc: seq<real>, keep: set<int>) {
    && InRange(ix, |sc|)
    && (forall k, l :: 0 <= k < l < |ix| && ix[l] in keep ==> ix[k] in keep)
    && (forall k, l :: 0 <= k < l < |ix| && (ix[k] in keep <==> ix[l] in keep) ==> sc[ix[k]] >= sc[ix[l]])
  }

  /** A row of results is among the kept rows exactly when it is in keep. */
  lemma KeepMarks(results: seq<int>, keep: set<int>)
    ensures forall k :: 0 <= k < |results| ==> (results[k] in Keep(results, keep) <==> results[k] in keep)
  {
    forall k | 0 <= k < |results| && results[k] in keep ensures results[k] in Keep(results, keep) {
      KeepComplete(results, keep, results[k]);
    }
  }

  /** Putting the kept rows in front of the others keeps the rows and their
      distinctness. */
  lemma KeepFront(results: seq<int>, keep: set<int>)
    requires Distinct(results)
    ensures var exact := Keep(results, keep); var f := exact + DropAll(results, exact);
      |f| == |results| && Distinct(f) && forall y :: y in f <==> y in results
  {
    var exact := Keep(results, keep);
    KeepDistinct(results, keep);
    KeepMarks(results, keep);
    KeepSplit(results, keep, exact);
    var others := DropAll(results, exact);
    DropAllDistinct(results, exact);
    DistinctConcat(exact, others);
    var f := exact + others;
    forall y | y in results ensures y in f {
      if y !in exact { DropAllKeepsMember(results, exact, y); }
    }
  }

  /** Moving the titled rows to the front keeps the rows and their distinctness. */
  lemma ExactFirstRows(movies: seq<Movie>, results: seq<int>, pelicula: string, topN: int)
    requires Distinct(results) && topN >= |results|
    ensures var f := ExactFirst(movies, results, pelicula, topN);
      |f| == |results| && Distinct(f) && forall y :: y in f <==> y in results
  {
    var keep := TitledRows(movies, pelicula);
    var exact := Keep(results, keep);
    if !IsBlank(pelicula) && exact != [] {
      KeepFront(results, keep);
      var f := exact + DropAll(results, exact);
      SliceTake(f, topN);
      assert f[..|f|] == f;
    }
  }

  /** A descending list of rows in keep followed by a descending list of rows outside
      keep is grouped. */
  lemma ConcatGroups(a: seq<int>, b: seq<int>, sc: seq<real>, keep: set<int>)
    requires DescBy(a, sc) && DescBy(b, sc)
    requires (forall k :: 0 <= k < |a| ==> a[k] in keep) && (forall k :: 0 <= k < |b| ==> b[k] !in keep)
    ensures GroupsFirst(a + b, sc, keep)
  {
    var f := a + b;
    assert forall k :: 0 <= k < |a| ==> f[k] == a[k];
    assert forall k :: |a| <= k < |f| ==> f[k] == b[k - |a|];
  }

  /** Rows in keep followed by the rest, each part descending, are grouped. */
  lemma KeepThenRest(results: seq<int>, keep: set<int>, sc: seq<real>)
    requires DescBy(results, sc)
    ensures var exact := Keep(results, keep); GroupsFirst(exact + DropAll(results, exact), sc, keep)
  {
    var exact := Keep(results, keep);
    KeepDesc(results, keep, sc);
    KeepMarks(results, keep);
    KeepSplit(results, keep, exact);
    DropAllDesc(results, exact, sc);
    ConcatGroups(exact, DropAll(results, exact), sc, keep);
  }

  /** After the move the titled rows come first and each group keeps descending order. */
  lemma ExactFirstLayout(movies: seq<Movie>, results: seq<int>, pelicula: string, topN: int, sc: seq<real>)
    requires DescBy(results, sc) && topN >= |results|
    ensures GroupsFirst(ExactFirst(movies, results, pelicula, topN), sc, TitledRows(movies, pelicula))
  {
    var keep := TitledRows(movies, pelicula);
    var exact := Keep(results, keep);
    KeepMarks(results, keep);
    if IsBlank(pelicula) {
      assert forall i :: i !in keep;
    } else if exact == [] {
      assert forall k :: 0 <= k < |results| ==> results[k] !in keep;
    } else {
      KeepThenRest(results, keep, sc);
      KeepSplit(results, keep, exact);
      assert ExactFirst(movies, results, pelicula, topN) == exact + DropAll(results, exact);
    }
  }

  /** Every pair of r is the score of a position listed in ix. */
  ghost predicate FromListed(r: seq<Scored>, ix: seq<int>, q: seq<real>) {
    forall k :: 0 <= k < |r| ==> r[k].0 in ix && 0 <= r[k].0 < |q| && r[k].1 == q[r[k].0]
  }

  /** Every pair of the sorted filtered scores is the score of a listed position. */
  lemma SortedFromListed(ix: seq<int>, q: seq<real>)
    requires InRange(ix, |q|)
    ensures FromListed(SortDesc(ScoredAt(ix, q)), ix, q)
  {
    var sc := ScoredAt(ix, q);
    var r := SortDesc(sc);
    forall k | 0 <= k < |r| ensures r[k].0 in ix && 0 <= r[k].0 < |q| && r[k].1 == q[r[k].0] {
      assert r[k] in multiset(sc);
      var p :| 0 <= p < |sc| && sc[p] == r[k];
      assert sc[p] == (ix[p], q[ix[p]]);
    }
  }

  /** With distinct listed positions, the sorted filtered scores hold each position once. */
  lemma SortedDistinctKeys(ix: seq<int>, q: seq<real>)
    requires InRange(ix, |q|) && Distinct(ix)
    ensures DistinctKeys(SortDesc(ScoredAt(ix, q)))
  {
    var sc := ScoredAt(ix, q);
    var r := SortDesc(sc);
    assert Distinct(sc) by {
      forall k, l | 0 <= k < l < |sc| ensures sc[k] != sc[l] { assert sc[k].0 == ix[k]; }
    }
    DistinctPermutation(r, sc);
    SortedFromListed(ix, q);
    forall k, l | 0 <= k < l < |r| ensures r[k].0 != r[l].0 {
      assert r[k] != r[l];
      assert r[k].1 == q[r[k].0] && r[l].1 == q[r[l].0];
    }
  }

  /** Every listed position is in the sorted filtered scores. */
  lemma SortedCoversListed(ix: seq<int>, q: seq<real>, y: int)
    requires InRange(ix, |q|) && y in ix
    ensures y in Firsts(SortDesc(ScoredAt(ix, q)))
  {
    var sc := ScoredAt(ix, q);
    var r := SortDesc(sc);
    var p :| 0 <= p < |ix| && ix[p] == y;
    assert sc[p] in multiset(r);
    var k :| 0 <= k < |r| && r[k] == sc[p];
    assert Firsts(r)[k] == y;
  }

  lemma RankedSubset(ix: seq<int>, q: seq<real>)
    requires InRange(ix, |q|) && Distinct(ix)
    ensures var r := SortDesc(ScoredAt(ix, q));
      ScoresOf(r, q) && NonIncreasing(r) && forall y :: y in Firsts(r) <==> y in ix
  {
    var r := SortDesc(ScoredAt(ix, q));
    SortedFromListed(ix, q);
    SortedDistinctKeys(ix, q);
    forall y | y in ix ensures y in Firsts(r) {
      SortedCoversListed(ix, q, y);
    }
    forall y | y in Firsts(r) ensures y in ix {
      var k :| 0 <= k < |r| && Firsts(r)[k] == y;
    }
  }

  /** resultados_idx before the exact-title move: the first topN positions of the
      ranking inside the filtered rows. */
  function FilteredTop(ix: seq<int>, q: seq<real>, topN: int): seq<int>
    requires InRange(ix, |q|)
  {
    Slice(Firsts(SortDesc(ScoredAt(ix, q))), 0, topN)
  }

  /** The first topN of the filtered ranking are that many distinct listed positions,
      best first. */
  lemma FilteredTopShape(ix: seq<int>, q: seq<real>, topN: int)
    requires InRange(ix, |q|) && Distinct(ix) && topN >= 0
    ensures var t := FilteredTop(ix, q, topN);
      |t| == Min(topN, |ix|) && Distinct(t) && DescBy(t, q)
  {
    var r := SortDesc(ScoredAt(ix, q));
    SortedFromListed(ix, q);
    SortedDistinctKeys(ix, q);
    var m := Min(topN, |ix|);
    var t := FilteredTop(ix, q, topN);
    SliceTake(Firsts(r), topN);
    assert t == Firsts(r)[..m];
    forall k | 0 <= k < m ensures t[k] == r[k].0 && 0 <= t[k] < |q| && q[t[k]] == r[k].1 {
    }
    forall k, l | 0 <= k < l < m ensures t[k] != t[l] && q[t[k]] >= q[t[l]] {
      assert t[k] == r[k].0 && t[l] == r[l].0;
    }
  }

  /** In a list sorted by descending score, a position listed beyond the first m
      scores at most what each of the first m scores. */
  lemma SortedPrefixTop(r: seq<Scored>, q: seq<real>, m: nat, j: int)
    requires NonIncreasing(r) && m <= |r|
    requires forall k :: 0 <= k < |r| ==> 0 <= r[k].0 < |q| && r[k].1 == q[r[k].0]
    requires j in Firsts(r) && j !in Firsts(r)[..m]
    ensures forall k :: 0 <= k < m ==> q[j] <= q[Firsts(r)[k]]
  {
    var p :| 0 <= p < |r| && Firsts(r)[p] == j;
    assert p >= m by {
      assert forall k :: 0 <= k < m ==> Firsts(r)[..m][k] == Firsts(r)[k];
    }
  }

  /** No listed position left out of the first topN scores above a kept one. */
  lemma FilteredTopBest(ix: seq<int>, q: seq<real>, topN: int)
    requires InRange(ix, |q|) && Distinct(ix) && topN >= 0
    ensures var t := FilteredTop(ix, q, topN);
      InRange(t, |q|) && forall j :: j in ix && j !in t ==> forall k :: 0 <= k < |t| ==> q[j] <= q[t[k]]
  {
    FilteredTopWithin(ix, q, topN);
    var r := SortDesc(ScoredAt(ix, q));
    RankedSubset(ix, q);
    var m := Min(topN, |ix|);
    var t := FilteredTop(ix, q, topN);
    assert t == Firsts(r)[..m];
    forall j | j in ix && j !in t ensures forall k :: 0 <= k < |t| ==> q[j] <= q[t[k]] {
      SortedPrefixTop(r, q, m, j);
    }
  }

  /** Python's list(s): some listing of the set, each member once. */
  ghost predicate Lists(st: set<int>, l: seq<int>) {
    Distinct(l) && |l| == |st| && forall x :: x in l <==> x in st
  }

  /** A field passes stage x: it is blank, or some name resolves and every resolved
      name lists row x. */
  ghost predicate Passes(c: TextCorrector, names: string, kind: string, index: map<string, set<int>>, x: int)
    requires c.Consistent()
  {
    var rs := Resolved(c, names, kind);
    IsBlank(names) || ((exists k :: 0 <= k < |rs| && rs[k] in index) && SharedBy(rs, index, x))
  }

  /** The layout of the result of a filtered search over the non-empty set st with
      scores q: distinct members of st with their scores, min(topN, |st|) of them,
      rows titled pelicula first, best first within each group, and no member of st
      left out scoring above a listed one. */
  ghost predicate FilteredResult(r: seq<Scored>, st: set<int>, q: seq<real>, movies: seq<Movie>, pelicula: string, topN: int) {
    var ix := Firsts(r);
    && |r| == Min(topN, |st|)
    && Distinct(ix)
    && (forall k :: 0 <= k < |r| ==> r[k].0 in st && 0 <= r[k].0 < |q| && r[k].1 == q[r[k].0])
    && GroupsFirst(ix, q, TitledRows(movies, pelicula))
    && forall j :: 0 <= j < |q| && j in st && j !in ix ==> forall k :: 0 <= k < |r| ==> q[j] <= r[k].1
  }

  /** Message of get_movie_recommendations for an unknown title. */
  function NotInDataset(title: string): string {
    "Película '" + title + "' no encontrada en el dataset"
  }

  /** Message of get_movie_details for an unknown title. */
  function NotFound(title: string): string {
    "Película '" + title + "' no encontrada"
  }

  const EmptyQuery := "La consulta no puede estar vacía"

  // ---------------------------------------------------------------------------
  // The recommender

  class MovieRecommender {
    const movies: seq<Movie>
    const corrector: TextCorrector
    /** cosine_sim: one similarity row per movie. */
    const cosineSim: seq<seq<real>>
    /** cosine_similarity(tfidf.transform([q]), tfidf_matrix).flatten(). */
    const querySimilarity: string -> seq<real>
    /** numpy's argsort. */
    const argsort: seq<real> -> seq<int>
    /** list(s) for a Python set. */
    const listSet: set<int> -> seq<int>

    ghost predicate Valid() {
      && corrector.Consistent() && corrector.movies == movies
      && |cosineSim| == |movies| && (forall i :: 0 <= i < |cosineSim| ==> |cosineSim[i]| == |movies|)
      && (forall q :: |querySimilarity(q)| == |movies|)
      && (forall s :: Ascending(s, argsort(s)))
      && (forall st :: Lists(st, listSet(st)))
    }

    constructor (movies: seq<Movie>, corrector: TextCorrector, cosineSim: seq<seq<real>>,
                 querySimilarity: string -> seq<real>, argsort: seq<real> -> seq<int>,
                 listSet: set<int> -> seq<int>)
      requires corrector.Consistent() && corrector.movies == movies
      requires |cosineSim| == |movies| && forall i :: 0 <= i < |cosineSim| ==> |cosineSim[i]| == |movies|
      requires forall q :: |querySimilarity(q)| == |movies|
      requires forall s :: Ascending(s, argsort(s))
      requires forall st :: Lists(st, listSet(st))
      ensures Valid()
      ensures this.movies == movies && this.corrector == corrector && this.cosineSim == cosineSim
      ensures this.querySimilarity == querySimilarity && this.argsort == argsort && this.listSet == listSet
    {
      this.movies := movies;
      this.corrector := corrector;
      this.cosineSim := cosineSim;
      this.querySimilarity := querySimilarity;
      this.argsort := argsort;
      this.listSet := listSet;
    }

    /** get_movie_recommendations(title, num_recommendations=n). */
    function GetMovieRecommendations(title: string, n: int := 10): (r: Result<seq<Scored>, string>)
      requires Valid()
      ensures r.Failure? <==> FirstTitle(movies, title).None?
      ensures r.Failure? ==> r.error == NotInDataset(title)
    {
      match FirstTitle(movies, title)
      case None => Failure(NotInDataset(title))
      case Some(i) => Success(RecommendFrom(cosineSim[i], n))
    }

    /** For n >= 0 the recommendations for the first row titled title are
        min(n, N - 1) distinct rows with their similarity to it, best first with ties
        by position; the first maximum of the row is left out, and no other row left
        out is more similar than a listed one. */
    lemma RecommendationsRanked(title: string, n: int)
      requires Valid() && n >= 0 && FirstTitle(movies, title).Some?
      ensures var r, row := GetMovieRecommendations(title, n).value, cosineSim[FirstTitle(movies, title).value];
        && |r| == Min(n, |movies| - 1)
        && NonIncreasing(r) && TiesByKey(r) && ScoresOf(r, row)
        && exists t :: && FirstMax(row, t) && t !in Firsts(r)
                       && forall j :: 0 <= j < |row| && j != t && j !in Firsts(r) ==>
                            forall k :: 0 <= k < |r| ==> row[j] <= r[k].1
    {
      var row := cosineSim[FirstTitle(movies, title).value];
      RecommendRows(row, n);
      RecommendDropsTop(row, n);
      RecommendTop(row, n);
      var t := Ranked(row)[0].0;
      assert FirstMax(row, t);
    }

    /** query_corregido: the corrected title, or the raw query when the correction is
        empty. */
    function CorrectedQuery(query: string): (r: string)
      requires Valid()
      ensures r == query || r in Titles(movies)
      ensures IsBlank(query) ==> r == query
    {
      var c := corrector.CorrectTitle(query);
      if c == "" then query else c
    }

    /** The similarity of every row to the corrected query. */
    function QuerySims(query: string): (s: seq<real>)
      requires Valid()
      ensures |s| == |movies|
    {
      querySimilarity(Lower(CorrectedQuery(query)))
    }

    /** buscar_peliculas_similares(query, num_recommendations=n). */
    function SearchSimilarMovies(query: string, n: int := 10): (r: Result<seq<Scored>, string>)
      requires Valid()
      ensures r.Failure? <==> IsBlank(query)
      ensures r.Failure? ==> r.error == EmptyQuery
      ensures r.Success? ==> forall k :: 0 <= k < |r.value| ==>
                0 <= r.value[k].0 < |movies| && r.value[k].1 == QuerySims(query)[r.value[k].0]
    {
      if IsBlank(query) then Failure(EmptyQuery)
      else
        var cq := CorrectedQuery(query);
        var sims := QuerySims(query);
        var order := argsort(sims);
        var t := TopN(order, n);
        assert Ascending(sims, order);
        assert InRange(t, |sims|) by {
          forall k | 0 <= k < |t| ensures 0 <= t[k] < |sims| {
            assert t[k] in order;
          }
        }
        FinalsInRange(FirstTitle(movies, cq), t, |sims|, n);
        Success(ScoredAt(Finals(FirstTitle(movies, cq), t, n), sims))
    }

    /** For n >= 1: the rows are distinct and there are min(n, N) of them. When the
        corrected query is a title, its first row comes first, once, and the other
        rows are the most similar others, best first; otherwise the rows are the most
        similar, best first. */
    lemma SearchRanked(query: string, n: int)
      requires Valid() && !IsBlank(query) && n >= 1
      ensures var r, sims := SearchSimilarMovies(query, n).value, QuerySims(query);
        var exact := FirstTitle(movies, CorrectedQuery(query));
        && |r| <= n && DistinctKeys(r)
        && (exact.Some? ==> && |r| == Min(n, |movies|) && r[0].0 == exact.value && exact.value !in Firsts(r)[1..]
                            && DescBy(Firsts(r)[1..], sims) && Above(Firsts(r)[1..], sims, {exact.value}))
        && (exact.None? ==> && |r| == Min(n, |movies|) && NonIncreasing(r) && Above(Firsts(r), sims, {}))
    {
      var sims := QuerySims(query);
      var order := argsort(sims);
      assert Ascending(sims, order);
      TopNFacts(sims, order, n);
      var t := TopN(order, n);
      var exact := FirstTitle(movies, CorrectedQuery(query));
      var f := Finals(exact, t, n);
      var r := SearchSimilarMovies(query, n).value;
      assert Firsts(r) == f;
      if exact.Some? {
        FinalsWithCount(sims, order, n, exact.value);
      } else {
        FinalsWithout(t, sims, n);
        assert forall k :: 0 <= k < |r| ==> r[k].1 == sims[f[k]];
      }
    }

    /** get_movie_details(title): the first row titled title. */
    function GetMovieDetails(title: string): (r: Result<Movie, string>)
      requires Valid()
      ensures r.Failure? <==> forall i :: 0 <= i < |movies| ==> !SameTitle(movies[i].title, title)
      ensures r.Failure? ==> r.error == NotFound(title)
      ensures r.Success? ==> && SameTitle(r.value.title, title)
                             && exists i :: && 0 <= i < |movies| && movies[i] == r.value
                                            && forall j :: 0 <= j < i ==> !SameTitle(movies[j].title, title)
    {
      match FirstTitle(movies, title)
      case None => Failure(NotFound(title))
      case Some(i) => Success(movies[i])
    }

    /** The filter set of buscar_inteligente: None when both fields are blank. */
    function Filter(actores: string, directores: string): Option<set<int>>
      requires Valid()
    {
      Combine(Stage(corrector, actores, "actor", corrector.actorIndex),
              Stage(corrector, directores, "director", corrector.directorIndex))
    }

    /** The filter is absent exactly when both fields are blank, and keeps exactly the
        rows that pass both stages. */
    lemma FilterRows(actores: string, directores: string, x: int)
      requires Valid()
      ensures Filter(actores, directores).None? <==> IsBlank(actores) && IsBlank(directores)
      ensures Filter(actores, directores).Some? ==>
                (x in Filter(actores, directores).value <==>
                   && Passes(corrector, actores, "actor", corrector.actorIndex, x)
                   && Passes(corrector, directores, "director", corrector.directorIndex, x))
    {
      CombineRows(Stage(corrector, actores, "actor", corrector.actorIndex),
                  Stage(corrector, directores, "director", corrector.directorIndex), x);
      if !IsBlank(actores) { StageMembers(corrector, actores, "actor", corrector.actorIndex, x); }
      if !IsBlank(directores) { StageMembers(corrector, directores, "director", corrector.directorIndex, x); }
    }

    /** Every filtered row is a row of the frame. */
    lemma FilterInRange(actores: string, directores: string)
      requires Valid() && Filter(actores, directores).Some?
      ensures forall x :: x in Filter(actores, directores).value ==> 0 <= x < |movies|
    {
      forall x | x in Filter(actores, directores).value ensures 0 <= x < |movies| {
        FilterRows(actores, directores, x);
        if !IsBlank(actores) {
          var rs := Resolved(corrector, actores, "actor");
          var k :| 0 <= k < |rs| && rs[k] in corrector.actorIndex;
          assert x in corrector.actorIndex[rs[k]];
        } else {
          var rs := Resolved(corrector, directores, "director");
          var k :| 0 <= k < |rs| && rs[k] in corrector.directorIndex;
          assert x in corrector.directorIndex[rs[k]];
        }
      }
    }

    /** q_vec's scores: the query similarity of pelicula, or of "" when it is blank. */
    function QueryScores(pelicula: string): (s: seq<real>)
      requires Valid()
      ensures |s| == |movies|
    {
      querySimilarity(if IsBlank(pelicula) then "" else Lower(pelicula))
    }

    /** buscar_inteligente(pelicula, actores, directores, top_n). */
    method SmartSearch(pelicula: string := "", actores: string := "", directores: string := "", topN: int := 10)
      returns (r: Result<seq<Scored>, string>)
      requires Valid()
      ensures var f := Filter(actores, directores);
        f.None? || f.value == {} ==> r == SearchSimilarMovies(pelicula, topN)
      ensures var f := Filter(actores, directores);
        f.Some? && f.value != {} ==> r.Success?
      ensures var f := Filter(actores, directores);
        f.Some? && f.value != {} && topN >= 0 ==>
          FilteredResult(r.value, f.value, QueryScores(pelicula), movies, pelicula, topN)
    {
      var idxs := ActorStage(corrector, actores);
      idxs := DirectorStage(corrector, directores, idxs);
      if idxs.None? || idxs.value == {} {
        r := SearchSimilarMovies(pelicula, topN);
        return;
      }
      var q := QueryScores(pelicula);
      var idxList := listSet(idxs.value);
      FilterInRange(actores, directores);
      assert Lists(idxs.value, idxList);
      ListingInRange(idxs.value, idxList, |q|);
      var results := RankFiltered(movies, idxList, q, pelicula, topN);
      r := Success(ScoredAt(results, q));
      if topN >= 0 {
        FilteredFacts(movies, idxList, idxs.value, q, pelicula, topN);
      }
    }
  }

  /** A listing of a set of positions below n holds positions below n. */
  lemma ListingInRange(st: set<int>, l: seq<int>, n: int)
    requires Lists(st, l) && forall x :: x in st ==> 0 <= x < n
    ensures InRange(l, n)
  {
    assert forall k :: 0 <= k < |l| ==> l[k] in l;
  }

  /** The actor stage of buscar_inteligente: idxs after the actor names. */
  method ActorStage(c: TextCorrector, actores: string) returns (idxs: Option<set<int>>)
    requires c.Consistent()
    ensures idxs == Stage(c, actores, "actor", c.actorIndex)
  {
    idxs := None;
    if !IsBlank(actores) {
      var actorsList := CorrectEach(c, Split(actores, ','), "actor");
      var sets := Lookup(actorsList, c.actorIndex);
      assert Stage(c, actores, "actor", c.actorIndex) == Some(if sets == [] then {} else IntersectAll(sets));
      if sets != [] {
        idxs := Some(if |sets| > 1 then IntersectAll(sets) else sets[0]);
      } else {
        idxs := Some({});
      }
    }
  }

  /** The director stage of buscar_inteligente: idxs after the director names, given
      idxs after the actor stage. */
  method DirectorStage(c: TextCorrector, directores: string, idxs: Option<set<int>>) returns (r: Option<set<int>>)
    requires c.Consistent()
    ensures r == Combine(idxs, Stage(c, directores, "director", c.directorIndex))
  {
    r := idxs;
    if !IsBlank(directores) {
      var directorsList := CorrectEach(c, Split(directores, ','), "director");
      var sets := Lookup(directorsList, c.directorIndex);
      assert Stage(c, directores, "director", c.directorIndex) == Some(if sets == [] then {} else IntersectAll(sets));
      if sets != [] {
        var directorIdxs := if |sets| > 1 then IntersectAll(sets) else sets[0];
        r := if r.Some? then Some(r.value * directorIdxs) else Some(directorIdxs);
      } else {
        var none: set<int> := {};
        assert idxs.Some? ==> idxs.value * none == none;
        r := Some(none);
      }
    }
  }

  /** resultados_idx of buscar_inteligente for the listing ix of the filter set: the
      first topN of the ranking inside ix, then the rows titled pelicula moved to the
      front. */
  method RankFiltered(movies: seq<Movie>, ix: seq<int>, q: seq<real>, pelicula: string, topN: int)
    returns (results: seq<int>)
    requires InRange(ix, |q|)
    ensures results == ExactFirst(movies, FilteredTop(ix, q, topN), pelicula, topN)
    ensures InRange(results, |q|)
  {
    results := FilteredTop(ix, q, topN);
    FilteredTopWithin(ix, q, topN);
    ExactFirstWithin(movies, results, pelicula, topN);
    if !IsBlank(pelicula) {
      var exact := Keep(results, TitledRows(movies, pelicula));
      if exact != [] {
        results := Slice(exact + DropAll(results, exact), 0, topN);
      }
    }
    assert forall k :: 0 <= k < |results| ==> results[k] in results;
  }

  /** The first topN of the filtered ranking are positions of the listing. */
  lemma FilteredTopWithin(ix: seq<int>, q: seq<real>, topN: int)
    requires InRange(ix, |q|)
    ensures forall y :: y in FilteredTop(ix, q, topN) ==> y in ix
    ensures InRange(FilteredTop(ix, q, topN), |q|)
  {
    var r := SortDesc(ScoredAt(ix, q));
    var t := FilteredTop(ix, q, topN);
    forall y | y in t ensures y in ix {
      assert y in Firsts(r);
      var k :| 0 <= k < |r| && Firsts(r)[k] == y;
      assert r[k] in multiset(ScoredAt(ix, q));
    }
    forall k | 0 <= k < |t| ensures 0 <= t[k] < |q| {
      assert t[k] in t;
      var p :| 0 <= p < |ix| && ix[p] == t[k];
    }
  }

  /** The exact-title move only reorders and truncates. */
  lemma ExactFirstWithin(movies: seq<Movie>, results: seq<int>, pelicula: string, topN: int)
    ensures forall y :: y in ExactFirst(movies, results, pelicula, topN) ==> y in results
  {
    var exact := Keep(results, TitledRows(movies, pelicula));
    forall y | y in exact + DropAll(results, exact) ensures y in results {
      if y in exact {
        var k :| 0 <= k < |exact| && exact[k] == y;
      } else {
        var d := DropAll(results, exact);
        var k :| 0 <= k < |d| && d[k] == y;
      }
    }
  }

  /** A filtered search over a listing of the non-empty set st has the layout of
      FilteredResult. */
  lemma FilteredFacts(movies: seq<Movie>, ix: seq<int>, st: set<int>, q: seq<real>, pelicula: string, topN: int)
    requires Lists(st, ix) && InRange(ix, |q|) && topN >= 0
    ensures InRange(ExactFirst(movies, FilteredTop(ix, q, topN), pelicula, topN), |q|)
    ensures FilteredResult(ScoredAt(ExactFirst(movies, FilteredTop(ix, q, topN), pelicula, topN), q),
                           st, q, movies, pelicula, topN)
  {
    var t := FilteredTop(ix, q, topN);
    FilteredTopShape(ix, q, topN);
    FilteredTopBest(ix, q, topN);
    FilteredTopWithin(ix, q, topN);
    ExactFirstRows(movies, t, pelicula, topN);
    ExactFirstLayout(movies, t, pelicula, topN, q);
    var f := ExactFirst(movies, t, pelicula, topN);
    forall k | 0 <= k < |f| ensures f[k] in st && 0 <= f[k] < |q| {
      assert f[k] in f;
      assert f[k] in ix;
    }
    var r := ScoredAt(f, q);
    forall j | 0 <= j < |q| && j in st && j !in f ensures forall k :: 0 <= k < |r| ==> q[j] <= r[k].1 {
      forall k | 0 <= k < |r| ensures q[j] <= r[k].1 {
        assert f[k] in f;
        var p :| 0 <= p < |t| && t[p] == f[k];
      }
    }
  }
}
