/** Sequence helpers: Python list comprehensions with a condition (`Filter`) and
    Python's stable `sorted(..., key=...)` (`SortBy`). */
module Seqs {
  import opened Wrappers

  /** `[x for x in s if p(x)]`. */
  function Filter<T>(s: seq<T>, p: T -> bool): (r: seq<T>)
    ensures |r| <= |s|
  {
    if s == [] then [] else Filter(s[..|s| - 1], p) + (if p(s[|s| - 1]) then [s[|s| - 1]] else [])
  }

  lemma {:induction false} FilterAppend<T>(a: seq<T>, b: seq<T>, p: T -> bool)
    ensures Filter(a + b, p) == Filter(a, p) + Filter(b, p)
    decreases |b|
  {
    if b == [] {
      assert a + b == a;
    } else {
      assert (a + b)[..|a + b| - 1] == a + b[..|b| - 1];
      FilterAppend(a, b[..|b| - 1], p);
    }
  }

  /** `[y for x in s for y in f(x)]`. */
  function FlatMap<T, U>(s: seq<T>, f: T -> seq<U>): (r: seq<U>)
    ensures s == [] ==> r == []
  {
    if s == [] then [] else FlatMap(s[..|s| - 1], f) + f(s[|s| - 1])
  }

  lemma {:induction false} FlatMapAppend<T, U>(a: seq<T>, b: seq<T>, f: T -> seq<U>)
    ensures FlatMap(a + b, f) == FlatMap(a, f) + FlatMap(b, f)
    decreases |b|
  {
    if b == [] {
      assert a + b == a;
    } else {
      assert (a + b)[..|a + b| - 1] == a + b[..|b| - 1];
      FlatMapAppend(a, b[..|b| - 1], f);
    }
  }

  /** Every element of `s` that satisfies `p` is kept. */
  lemma {:induction false} FilterKeeps<T>(s: seq<T>, p: T -> bool, x: T)
    requires x in s && p(x)
    ensures x in Filter(s, p)
  {
    if s[|s| - 1] != x {
      assert x in s[..|s| - 1];
      FilterKeeps(s[..|s| - 1], p, x);
    }
  }

  /** When no element satisfies `p` the comprehension is empty. */
  lemma {:induction false} FilterNone<T>(s: seq<T>, p: T -> bool)
    requires forall k :: 0 <= k < |s| ==> !p(s[k])
    ensures Filter(s, p) == []
  {
    if s != [] {
      FilterNone(s[..|s| - 1], p);
    }
  }

  /** When every element satisfies `p` the comprehension is the identity. */
  lemma {:induction false} FilterAll<T>(s: seq<T>, p: T -> bool)
    requires forall k :: 0 <= k < |s| ==> p(s[k])
    ensures Filter(s, p) == s
  {
    if s != [] {
      var s' := s[..|s| - 1];
      FilterAll(s', p);
      assert s == s' + [s[|s| - 1]];
    }
  }

  predicate SortedBy<T>(s: seq<T>, key: T -> nat) {
    forall i, j :: 0 <= i < j < |s| ==> key(s[i]) <= key(s[j])
  }

  /** Places `x` after every element whose key is at most `x`'s. */
  function InsertBy<T>(t: seq<T>, x: T, key: T -> nat): seq<T> {
    if t == [] || key(t[|t| - 1]) <= key(x) then t + [x]
    else InsertBy(t[..|t| - 1], x, key) + [t[|t| - 1]]
  }

  /** Python's stable `sorted(s, key=key)`, as an insertion sort. */
  function SortBy<T>(s: seq<T>, key: T -> nat): seq<T> {
    if s == [] then [] else InsertBy(SortBy(s[..|s| - 1], key), s[|s| - 1], key)
  }

  lemma {:induction false} InsertByPermutes<T>(t: seq<T>, x: T, key: T -> nat)
    ensures |InsertBy(t, x, key)| == |t| + 1
    ensures multiset(InsertBy(t, x, key)) == multiset(t) + multiset{x}
  {
    if !(t == [] || key(t[|t| - 1]) <= key(x)) {
      var last := t[|t| - 1];
      InsertByPermutes(t[..|t| - 1], x, key);
      assert t == t[..|t| - 1] + [last];
    }
  }

  lemma {:induction false} InsertBySorted<T>(t: seq<T>, x: T, key: T -> nat)
    requires SortedBy(t, key)
    ensures SortedBy(InsertBy(t, x, key), key)
  {
    if !(t == [] || key(t[|t| - 1]) <= key(x)) {
      var last := t[|t| - 1];
      var t' := t[..|t| - 1];
      assert SortedBy(t', key);
      InsertBySorted(t', x, key);
      InsertByPermutes(t', x, key);
      var r' := InsertBy(t', x, key);
      forall y | y in r' ensures key(y) <= key(last) {
        assert y in multiset(r');
        if y != x {
          assert y in multiset(t');
          var i :| 0 <= i < |t'| && t'[i] == y;
          assert t[i] == y;
        }
      }
      var r := r' + [last];
      forall i, j | 0 <= i < j < |r| ensures key(r[i]) <= key(r[j]) {
        if j == |r| - 1 {
          assert r[i] in r';
        } else {
          assert r[i] == r'[i] && r[j] == r'[j];
        }
      }
    }
  }

  /** Sorting returns a permutation of its input, ordered by key. */
  lemma {:induction false} SortByCorrect<T>(s: seq<T>, key: T -> nat)
    ensures |SortBy(s, key)| == |s|
    ensures multiset(SortBy(s, key)) == multiset(s)
    ensures SortedBy(SortBy(s, key), key)
  {
    if s != [] {
      var s' := s[..|s| - 1];
      SortByCorrect(s', key);
      InsertByPermutes(SortBy(s', key), s[|s| - 1], key);
      InsertBySorted(SortBy(s', key), s[|s| - 1], key);
      assert s == s' + [s[|s| - 1]];
    }
  }

  /** The elements of `s` whose key is `k`, in their order in `s`. */
  function WithKey<T>(s: seq<T>, key: T -> nat, k: nat): seq<T> {
    if s == [] then [] else WithKey(s[..|s| - 1], key, k) + (if key(s[|s| - 1]) == k then [s[|s| - 1]] else [])
  }

  lemma {:induction false} WithKeySnoc<T>(s: seq<T>, x: T, key: T -> nat, k: nat)
    ensures WithKey(s + [x], key, k) == WithKey(s, key, k) + (if key(x) == k then [x] else [])
  {
    assert (s + [x])[..|s|] == s;
  }

  lemma {:induction false} InsertByWithKey<T>(t: seq<T>, x: T, key: T -> nat, k: nat)
    ensures WithKey(InsertBy(t, x, key), key, k)
            == WithKey(t, key, k) + (if key(x) == k then [x] else [])
  {
    if t == [] || key(t[|t| - 1]) <= key(x) {
      WithKeySnoc(t, x, key, k);
    } else {
      var last := t[|t| - 1];
      var t' := t[..|t| - 1];
      var xs: seq<T> := if key(x) == k then [x] else [];
      var ls: seq<T> := if key(last) == k then [last] else [];
      InsertByWithKey(t', x, key, k);
      assert InsertBy(t, x, key) == InsertBy(t', x, key) + [last];
      WithKeySnoc(InsertBy(t', x, key), last, key, k);
      assert t == t' + [last];
      WithKeySnoc(t', last, key, k);
      // x's key is below last's, so at most one of them has key k
      assert xs == [] || ls == [];
      assert xs + ls == ls + xs;
      assert WithKey(InsertBy(t, x, key), key, k) == WithKey(t', key, k) + xs + ls;
      assert WithKey(t, key, k) == WithKey(t', key, k) + ls;
    }
  }

  /** Stability: sorting keeps the relative order of the elements that share a key. */
  lemma {:induction false} SortByStable<T>(s: seq<T>, key: T -> nat, k: nat)
    ensures WithKey(SortBy(s, key), key, k) == WithKey(s, key, k)
  {
    if s != [] {
      var s' := s[..|s| - 1];
      SortByStable(s', key, k);
      InsertByWithKey(SortBy(s', key), s[|s| - 1], key, k);
      assert s == s' + [s[|s| - 1]];
      WithKeySnoc(s', s[|s| - 1], key, k);
    }
  }

  /** A sequence already sorted by its key is left as it is. */
  lemma {:induction false} SortBySorted<T>(s: seq<T>, key: T -> nat)
    requires SortedBy(s, key)
    ensures SortBy(s, key) == s
  {
    if s != [] {
      var s' := s[..|s| - 1];
      assert SortedBy(s', key);
      SortBySorted(s', key);
      var last := s[|s| - 1];
      assert s == s' + [last];
      assert SortBy(s, key) == InsertBy(SortBy(s', key), last, key);
      if |s'| > 0 {
        assert key(s'[|s'| - 1]) <= key(last);
      }
      assert InsertBy(s', last, key) == s' + [last];
    }
  }

  lemma {:induction false} FilterCons<T>(x: T, s: seq<T>, p: T -> bool)
    ensures Filter([x] + s, p) == (if p(x) then [x] else []) + Filter(s, p)
  {
    FilterAppend([x], s, p);
    assert Filter([x], p) == (if p(x) then [x] else []) by {
      assert [x][..0] == [];
    }
  }

  /** The first element of `s` that satisfies `p`: a `for` loop that `break`s at the
      first hit. */
  function First<T>(s: seq<T>, p: T -> bool): (r: Option<T>)
    ensures r.None? <==> forall k :: 0 <= k < |s| ==> !p(s[k])
    ensures r.Some? ==> exists k :: 0 <= k < |s| && s[k] == r.value && p(s[k]) && forall j :: 0 <= j < k ==> !p(s[j])
  {
    if s == [] then None
    else if p(s[0]) then Some(s[0])
    else
      var r := First(s[1..], p);
      assert forall k :: 1 <= k < |s| ==> s[k] == s[1..][k - 1];
      r
  }

  /** The loop's view: when every element before `i` fails and `s[i]` passes, `s[i]`
      is the first. */
  lemma {:induction false} FirstAt<T>(s: seq<T>, p: T -> bool, i: nat)
    requires i < |s| && p(s[i])
    requires forall j :: 0 <= j < i ==> !p(s[j])
    ensures First(s, p) == Some(s[i])
  {
    if i > 0 {
      FirstAt(s[1..], p, i - 1);
    }
  }

  /** The `for` loop itself: tries each element in turn and `break`s at the first hit. */
  method FindFirst<T>(s: seq<T>, p: T -> bool) returns (r: Option<T>)
    ensures r == First(s, p)
  {
    r := None;
    var i := 0;
    while i < |s|
      invariant 0 <= i <= |s|
      invariant forall j :: 0 <= j < i ==> !p(s[j])
    {
      if p(s[i]) {
        FirstAt(s, p, i);
        return Some(s[i]);
      }
      i := i + 1;
    }
  }

  /** The index of the first element of `s` that satisfies `p`. */
  function FirstIndex<T>(s: seq<T>, p: T -> bool): (r: Option<nat>)
    ensures r.None? <==> forall k :: 0 <= k < |s| ==> !p(s[k])
    ensures r.Some? ==> r.value < |s| && p(s[r.value]) && forall j :: 0 <= j < r.value ==> !p(s[j])
  {
    if s == [] then None
    else if p(s[0]) then Some(0)
    else
      var r := FirstIndex(s[1..], p);
      assert forall k :: 1 <= k < |s| ==> s[k] == s[1..][k - 1];
      if r.None? then None else Some(r.value + 1)
  }

  /** The elements of a comprehension are exactly those of `s` that satisfy `p`. */
  lemma {:induction false} FilterIn<T>(s: seq<T>, p: T -> bool)
    ensures forall x :: x in Filter(s, p) <==> x in s && p(x)
  {
    forall x | x in s && p(x) ensures x in Filter(s, p) {
      FilterKeeps(s, p, x);
    }
    forall x | x in Filter(s, p) ensures x in s && p(x) {
      FilterOnly(s, p, x);
    }
  }

  /** Only elements of `s` that satisfy `p` are kept. */
  lemma {:induction false} FilterOnly<T>(s: seq<T>, p: T -> bool, x: T)
    requires x in Filter(s, p)
    ensures x in s && p(x)
  {
    var s' := s[..|s| - 1];
    if x in Filter(s', p) {
      FilterOnly(s', p, x);
      assert s == s' + [s[|s| - 1]];
    }
  }
}
