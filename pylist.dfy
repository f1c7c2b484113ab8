/** Python list operations the core relies on: slicing with negative and
    out-of-range bounds, and keeping the first occurrence of each value. */
module PyList {

  /** Python's treatment of one slice bound on a list of length n: a negative
      bound counts from the end, and the result is clipped to 0..n. */
  function ClipBound(i: int, n: nat): (k: nat)
    ensures k <= n
    ensures 0 <= i <= n ==> k == i
    ensures i > n ==> k == n
    ensures i < 0 && i + n >= 0 ==> k == i + n
    ensures i + n < 0 ==> k == 0
  {
    if i < 0 then (if i + n < 0 then 0 else i + n) else if i > n then n else i
  }

  /** Python's s[start:stop]. */
  function Slice<T>(s: seq<T>, start: int, stop: int): (r: seq<T>)
    ensures |r| <= |s|
    ensures forall x :: x in r ==> x in s
  {
    var a, b := ClipBound(start, |s|), ClipBound(stop, |s|);
    if a < b then s[a..b] else []
  }

  /** s[:n] for n >= 0 is the first min(n, |s|) elements. */
  lemma SliceTake<T>(s: seq<T>, n: int)
    requires n >= 0
    ensures Slice(s, 0, n) == s[..if n < |s| then n else |s|]
  {
  }

  /** s[a:b] for 0 <= a <= b is s[a..min(b, |s|)] when a is within s. */
  lemma SliceFrom<T>(s: seq<T>, a: int, b: int)
    requires 0 <= a <= b && a <= |s|
    ensures Slice(s, a, b) == s[a..if b < |s| then b else |s|]
  {
  }

  /** s[-n:] for n >= 1 is the last min(n, |s|) elements; s[-0:] is all of s. */
  lemma SliceLast<T>(s: seq<T>, n: int)
    requires n >= 0
    ensures n == 0 ==> Slice(s, -n, |s|) == s
    ensures n >= 1 ==> Slice(s, -n, |s|) == s[if n < |s| then |s| - n else 0..]
  {
  }

  function Reverse<T>(s: seq<T>): (r: seq<T>)
    ensures |r| == |s|
    ensures forall i :: 0 <= i < |s| ==> r[i] == s[|s| - 1 - i]
  {
    seq(|s|, i requires 0 <= i < |s| => s[|s| - 1 - i])
  }

  /** The first components of a list of pairs: the keys of a list of (key, value)
      items. */
  function Firsts<K, V>(s: seq<(K, V)>): (r: seq<K>)
    ensures |r| == |s|
    ensures forall i :: 0 <= i < |s| ==> r[i] == s[i].0
  {
    seq(|s|, i requires 0 <= i < |s| => s[i].0)
  }

  predicate Distinct<T(==)>(s: seq<T>) {
    forall i, j :: 0 <= i < j < |s| ==> s[i] != s[j]
  }

  /** Two duplicate-free lists with no common value concatenate to a duplicate-free list. */
  lemma DistinctConcat<T>(a: seq<T>, b: seq<T>)
    requires Distinct(a) && Distinct(b)
    requires forall k :: 0 <= k < |b| ==> b[k] !in a
    ensures Distinct(a + b)
  {
    var f := a + b;
    forall k, l | 0 <= k < l < |f| ensures f[k] != f[l] {
      if k < |a| <= l {
        assert f[k] == a[k] && f[l] == b[l - |a|];
      } else if |a| <= k {
        assert f[k] == b[k - |a|] && f[l] == b[l - |a|];
      }
    }
  }

  /** Position i holds the first occurrence of its value. */
  predicate IsFirst<T(==)>(s: seq<T>, i: nat) {
    i < |s| && s[i] !in s[..i]
  }

  lemma IsFirstPrefix<T>(s: seq<T>, n: nat, i: nat)
    requires i < n <= |s|
    ensures IsFirst(s[..n], i) <==> IsFirst(s, i)
  {
    assert s[..n][..i] == s[..i];
  }

  /** The positions at which a value occurs for the first time, in increasing order:
      the rows pandas' drop_duplicates keeps by default (keep='first'). */
  function FirstPositions<T(==)>(s: seq<T>): (r: seq<nat>)
    ensures forall k :: 0 <= k < |r| ==> IsFirst(s, r[k])
    ensures forall k, l :: 0 <= k < l < |r| ==> r[k] < r[l]
    ensures forall i :: IsFirst(s, i) ==> i in r
  {
    if s == [] then []
    else
      var n := |s| - 1;
      var p := FirstPositions(s[..n]);
      assert forall i :: 0 <= i < n ==> (IsFirst(s[..n], i) <==> IsFirst(s, i)) by {
        forall i | 0 <= i < n { IsFirstPrefix(s, n, i); }
      }
      assert forall k :: 0 <= k < |p| ==> p[k] < n;
      if s[n] in s[..n] then p else p + [n]
  }

  /** Every value of s has a first occurrence among the kept positions. */
  lemma {:induction false} FirstPositionsCover<T>(s: seq<T>, i: nat)
    requires i < |s|
    ensures exists k :: 0 <= k < |FirstPositions(s)| && FirstPositions(s)[k] <= i && s[FirstPositions(s)[k]] == s[i]
    decreases i
  {
    var r := FirstPositions(s);
    if !IsFirst(s, i) {
      var j :| 0 <= j < i && s[j] == s[i];
      FirstPositionsCover(s, j);
    } else {
      var k :| 0 <= k < |r| && r[k] == i;
    }
  }

  /** The values of s with later repetitions removed, first occurrences in order. */
  function Dedup<T(==)>(s: seq<T>): (r: seq<T>)
    ensures |r| == |FirstPositions(s)|
    ensures forall k :: 0 <= k < |r| ==> r[k] == s[FirstPositions(s)[k]]
    ensures Distinct(r)
    ensures forall k :: 0 <= k < |r| ==> r[k] in s
    ensures forall i :: 0 <= i < |s| ==> s[i] in r
  {
    var p := FirstPositions(s);
    var r := seq(|p|, k requires 0 <= k < |p| => s[p[k]]);
    forall k, l | 0 <= k < l < |p| ensures r[k] != r[l] {
      assert s[p[k]] == s[..p[l]][p[k]];
    }
    forall i | 0 <= i < |s| ensures s[i] in r {
      FirstPositionsCover(s, i);
      var k :| 0 <= k < |p| && p[k] <= i && s[p[k]] == s[i];
      assert r[k] == s[i];
    }
    r
  }

  /** A value present at two positions counts at least twice. */
  lemma MultisetTwice<T>(s: seq<T>, k: int, l: int)
    requires 0 <= k < l < |s|
    ensures s[k] == s[l] ==> multiset(s)[s[k]] >= 2
  {
    assert s == s[..l] + s[l..];
    assert s[k] in s[..l];
    assert s[l] in s[l..];
  }

  /** In a list without duplicates every value counts at most once. */
  lemma {:induction false} DistinctOnce<T>(s: seq<T>, x: T)
    requires Distinct(s)
    ensures multiset(s)[x] <= 1
  {
    if s != [] {
      DistinctOnce(s[1..], x);
      assert s == [s[0]] + s[1..];
      assert s[0] !in s[1..];
    }
  }

  /** A reordering of a list without duplicates has none. */
  lemma DistinctPermutation<T>(r: seq<T>, s: seq<T>)
    requires multiset(r) == multiset(s) && Distinct(s)
    ensures Distinct(r)
  {
    forall k, l | 0 <= k < l < |r| ensures r[k] != r[l] {
      DistinctOnce(s, r[k]);
      MultisetTwice(r, k, l);
    }
  }
}
