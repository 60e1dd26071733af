/** The JavaScript array built-ins the catalog relies on, as functions on
    sequences: `filter`, `slice(0, n)`, and `sort` with a comparator, which
    ECMA-262 (2023 edition, section 23.1.3.30) requires to be stable. */
module ArrayOps {

  // ---------------------------------------------------------------------
  // Array.prototype.filter

  /** The elements of `s` that `keep` accepts, in their order in `s`. */
  function Filter<T>(s: seq<T>, keep: T -> bool): (r: seq<T>)
    ensures |r| <= |s|
  {
    if s == [] then [] else (if keep(s[0]) then [s[0]] else []) + Filter(s[1..], keep)
  }

  /** Filtering keeps every accepted element with its multiplicity and
      drops every other one. */
  lemma {:induction false} FilterMultiset<T>(s: seq<T>, keep: T -> bool)
    ensures forall x {:trigger multiset(Filter(s, keep))[x]} ::
      multiset(Filter(s, keep))[x] == if keep(x) then multiset(s)[x] else 0
  {
    if s != [] {
      FilterMultiset(s[1..], keep);
      assert s == [s[0]] + s[1..];
    }
  }

  /** Filtering distributes over concatenation: the kept elements keep
      their relative order. */
  lemma {:induction false} FilterConcat<T>(a: seq<T>, b: seq<T>, keep: T -> bool)
    ensures Filter(a + b, keep) == Filter(a, keep) + Filter(b, keep)
  {
    if a != [] {
      assert (a + b)[0] == a[0];
      assert (a + b)[1..] == a[1..] + b;
      FilterConcat(a[1..], b, keep);
      assert Filter(a + b, keep) == (if keep(a[0]) then [a[0]] else []) + Filter(a[1..] + b, keep);
      assert Filter(a, keep) == (if keep(a[0]) then [a[0]] else []) + Filter(a[1..], keep);
    } else {
      assert a + b == b;
    }
  }

  /** Every element of a filtered sequence is accepted by the predicate. */
  lemma FilterSound<T>(s: seq<T>, keep: T -> bool)
    ensures forall x :: x in Filter(s, keep) ==> x in s && keep(x)
  {
    FilterMultiset(s, keep);
    forall x | x in Filter(s, keep) ensures x in s && keep(x) {
      assert multiset(Filter(s, keep))[x] > 0;
    }
  }

  /** Filtering depends only on what the predicate answers. */
  lemma {:induction false} FilterCongruent<T(!new)>(s: seq<T>, keep: T -> bool, keep': T -> bool)
    requires forall x :: keep(x) == keep'(x)
    ensures Filter(s, keep) == Filter(s, keep')
  {
    if s != [] {
      FilterCongruent(s[1..], keep, keep');
    }
  }

  /** Filtering with a predicate that accepts everything is the identity. */
  lemma {:induction false} FilterAll<T>(s: seq<T>, keep: T -> bool)
    requires forall x :: x in s ==> keep(x)
    ensures Filter(s, keep) == s
  {
    if s != [] {
      FilterAll(s[1..], keep);
    }
  }

  // ---------------------------------------------------------------------
  // Array.prototype.slice(0, n)

  /** The first `n` elements of `s`, or all of `s` when it is shorter. */
  function Take<T>(s: seq<T>, n: nat): (r: seq<T>)
    ensures |r| == if n < |s| then n else |s|
    ensures r <= s
  {
    if n < |s| then s[..n] else s
  }

  // ---------------------------------------------------------------------
  // Array.prototype.sort with a comparator

  /** The ordering a comparator induces: `a` may come before `b`. */
  predicate Le<T>(cmp: (T, T) -> real, a: T, b: T) {
    cmp(a, b) <= 0.0
  }

  /** Two elements the comparator reports as equal. */
  predicate Tie<T>(cmp: (T, T) -> real, a: T, b: T) {
    cmp(a, b) == 0.0
  }

  /** A consistent comparator in the sense of ECMA-262: the sign of
      `cmp(a, b)` is the opposite of the sign of `cmp(b, a)`, and "not after"
      is transitive. */
  ghost predicate Consistent<T(!new)>(cmp: (T, T) -> real) {
    && (forall a, b :: cmp(a, b) > 0.0 <==> cmp(b, a) < 0.0)
    && (forall a, b, c :: Le(cmp, a, b) && Le(cmp, b, c) ==> Le(cmp, a, c))
  }

  /** `s` is in the order the comparator asks for. */
  ghost predicate Sorted<T>(cmp: (T, T) -> real, s: seq<T>) {
    forall i, j :: 0 <= i < j < |s| ==> Le(cmp, s[i], s[j])
  }

  /** The elements of `s` that tie with `p`, in their order in `s`. */
  function TiesOf<T>(cmp: (T, T) -> real, s: seq<T>, p: T): seq<T> {
    Filter(s, x => Tie(cmp, x, p))
  }

  /** `r` lists every class of tied elements in the same order as `s`. */
  ghost predicate Stable<T(!new)>(cmp: (T, T) -> real, s: seq<T>, r: seq<T>) {
    forall p :: TiesOf(cmp, r, p) == TiesOf(cmp, s, p)
  }

  /** Inserts `x` into `s` by moving it left past every trailing element that
      the comparator places strictly after `x`. */
  function InsertRight<T>(cmp: (T, T) -> real, s: seq<T>, x: T): (r: seq<T>)
    ensures |r| == |s| + 1
  {
    if s == [] then [x]
    else if cmp(s[|s| - 1], x) > 0.0 then InsertRight(cmp, s[..|s| - 1], x) + [s[|s| - 1]]
    else s + [x]
  }

  /** The stable sort of `s`: insertion sort, one element at a time from the
      left. */
  function InsertionSort<T>(cmp: (T, T) -> real, s: seq<T>): (r: seq<T>)
    ensures |r| == |s|
  {
    if s == [] then []
    else InsertRight(cmp, InsertionSort(cmp, s[..|s| - 1]), s[|s| - 1])
  }

  lemma {:induction false} InsertRightPermutation<T>(cmp: (T, T) -> real, s: seq<T>, x: T)
    ensures multiset(InsertRight(cmp, s, x)) == multiset(s) + multiset{x}
  {
    if s != [] {
      var init, last := s[..|s| - 1], s[|s| - 1];
      assert s == init + [last];
      if cmp(last, x) > 0.0 {
        InsertRightPermutation(cmp, init, x);
      }
    }
  }

  /** The sort only reorders: the result is a permutation of the input. */
  lemma {:induction false} SortPermutation<T>(cmp: (T, T) -> real, s: seq<T>)
    ensures multiset(InsertionSort(cmp, s)) == multiset(s)
  {
    if s != [] {
      var init, last := s[..|s| - 1], s[|s| - 1];
      assert s == init + [last];
      SortPermutation(cmp, init);
      InsertRightPermutation(cmp, InsertionSort(cmp, init), last);
    }
  }

  lemma {:induction false} InsertRightSorted<T(!new)>(cmp: (T, T) -> real, s: seq<T>, x: T)
    requires Consistent(cmp)
    requires Sorted(cmp, s)
    ensures Sorted(cmp, InsertRight(cmp, s, x))
  {
    if s != [] {
      var init, last := s[..|s| - 1], s[|s| - 1];
      if cmp(last, x) > 0.0 {
        var t := InsertRight(cmp, init, x);
        InsertRightSorted(cmp, init, x);
        InsertRightPermutation(cmp, init, x);
        forall y | y in t ensures Le(cmp, y, last) {
          assert y in multiset(t);
          if y != x {
            assert y in multiset(init);
            var k :| 0 <= k < |init| && init[k] == y;
            assert s[k] == y;
          } else {
            assert cmp(x, last) < 0.0;
          }
        }
        var r := t + [last];
        forall i, j | 0 <= i < j < |r| ensures Le(cmp, r[i], r[j]) {
          if j == |r| - 1 {
            assert r[i] in t;
          } else {
            assert r[i] == t[i] && r[j] == t[j];
          }
        }
      } else {
        var r := s + [x];
        forall i, j | 0 <= i < j < |r| ensures Le(cmp, r[i], r[j]) {
          if j < |s| {
            assert r[i] == s[i] && r[j] == s[j];
          } else if i == |s| - 1 {
            assert r[i] == last && r[j] == x;
          } else {
            assert r[i] == s[i] && r[j] == x;
            assert Le(cmp, s[i], last) && Le(cmp, last, x);
          }
        }
      }
    }
  }

  /** Under a consistent comparator the sort puts its result in order. */
  lemma {:induction false} SortSorted<T(!new)>(cmp: (T, T) -> real, s: seq<T>)
    requires Consistent(cmp)
    ensures Sorted(cmp, InsertionSort(cmp, s))
  {
    if s != [] {
      SortSorted(cmp, s[..|s| - 1]);
      InsertRightSorted(cmp, InsertionSort(cmp, s[..|s| - 1]), s[|s| - 1]);
    }
  }

  lemma {:induction false} InsertRightTies<T(!new)>(cmp: (T, T) -> real, s: seq<T>, x: T, p: T)
    requires Consistent(cmp)
    ensures TiesOf(cmp, InsertRight(cmp, s, x), p) == TiesOf(cmp, s, p) + TiesOf(cmp, [x], p)
  {
    var keep := y => Tie(cmp, y, p);
    if s == [] {
    } else {
      var init, last := s[..|s| - 1], s[|s| - 1];
      assert s == init + [last];
      FilterConcat(init, [last], keep);
      if cmp(last, x) > 0.0 {
        InsertRightTies(cmp, init, x, p);
        FilterConcat(InsertRight(cmp, init, x), [last], keep);
        // `last` and `x` do not tie, so at most one of them ties with `p`.
        TieTransitive(cmp, last, p, x);
        assert !(Tie(cmp, x, p) && Tie(cmp, last, p));
      } else {
        FilterConcat(s, [x], keep);
      }
    }
  }

  /** Elements that tie with a common element tie with each other. */
  lemma TieTransitive<T(!new)>(cmp: (T, T) -> real, a: T, b: T, c: T)
    requires Consistent(cmp)
    ensures Tie(cmp, a, b) && Tie(cmp, c, b) ==> Tie(cmp, a, c)
  {
    if Tie(cmp, a, b) && Tie(cmp, c, b) {
      assert Le(cmp, b, c) && Le(cmp, a, c);
      assert Le(cmp, b, a) && Le(cmp, c, a);
    }
  }

  /** The sort is stable: elements that tie keep their input order. */
  lemma {:induction false} SortStable<T(!new)>(cmp: (T, T) -> real, s: seq<T>)
    requires Consistent(cmp)
    ensures Stable(cmp, s, InsertionSort(cmp, s))
  {
    if s != [] {
      var init, last := s[..|s| - 1], s[|s| - 1];
      assert s == init + [last];
      SortStable(cmp, init);
      forall p ensures TiesOf(cmp, InsertionSort(cmp, s), p) == TiesOf(cmp, s, p) {
        InsertRightTies(cmp, InsertionSort(cmp, init), last, p);
        FilterConcat(init, [last], y => Tie(cmp, y, p));
      }
    }
  }

  /** With a comparator that ties everything, the sort returns its input
      unchanged. */
  lemma {:induction false} SortAllTies<T>(cmp: (T, T) -> real, s: seq<T>)
    requires forall a, b :: cmp(a, b) == 0.0
    ensures InsertionSort(cmp, s) == s
  {
    if s != [] {
      var init := s[..|s| - 1];
      SortAllTies(cmp, init);
      assert s == init + [s[|s| - 1]];
      if init != [] {
        assert cmp(init[|init| - 1], s[|s| - 1]) == 0.0;
      }
    }
  }

  /** `Array.prototype.sort` on a freshly built array, as an insertion sort
      in place: the array ends up holding the stable sort of its old
      contents. */
  method SortInPlace<T>(a: array<T>, cmp: (T, T) -> real)
    modifies a
    ensures a[..] == InsertionSort(cmp, old(a[..]))
  {
    ghost var input := a[..];
    var i := 0;
    while i < a.Length
      invariant 0 <= i <= a.Length
      invariant a[..] == InsertionSort(cmp, input[..i]) + input[i..]
    {
      ghost var sorted := InsertionSort(cmp, input[..i]);
      SortStep(cmp, input, i);
      InsertLast(a, i, cmp, sorted, input[i + 1..]);
      i := i + 1;
    }
    assert input[..a.Length] == input;
  }

  /** Sorting one more element of `s` inserts it into the sorted prefix. */
  lemma SortStep<T>(cmp: (T, T) -> real, s: seq<T>, i: nat)
    requires i < |s|
    ensures InsertionSort(cmp, s[..i + 1]) == InsertRight(cmp, InsertionSort(cmp, s[..i]), s[i])
    ensures InsertionSort(cmp, s[..i]) + s[i..] == InsertionSort(cmp, s[..i]) + [s[i]] + s[i + 1..]
  {
    assert s[..i + 1][..i] == s[..i];
    assert s[i..] == [s[i]] + s[i + 1..];
  }

  /** Inserts `a[i]` into the sorted prefix `a[..i]`, shifting right every
      element of the prefix that the comparator places after it. */
  method InsertLast<T>(a: array<T>, i: nat, cmp: (T, T) -> real, ghost sorted: seq<T>, ghost rest: seq<T>)
    requires i < a.Length && |sorted| == i
    requires a[..] == sorted + [a[i]] + rest
    modifies a
    ensures a[..] == InsertRight(cmp, sorted, old(a[i])) + rest
  {
    var x := a[i];
    Split(a, sorted, x, rest);
    var j := ShiftRight(a, i, x, cmp, sorted, rest);
    a[j] := x;
    ShiftDone(cmp, sorted, j, x);
    Assemble(a, sorted, j, x, rest);
  }

  /** The shifting loop of the insertion: moves right, one place each, the
      last elements of `sorted = a[..i]` that the comparator places after
      `x`, and returns the place left free for `x`. */
  method ShiftRight<T>(a: array<T>, i: nat, x: T, cmp: (T, T) -> real, ghost sorted: seq<T>, ghost rest: seq<T>)
    returns (j: nat)
    requires i < a.Length && |sorted| == i && |rest| == a.Length - i - 1
    requires forall k :: 0 <= k < i ==> a[k] == sorted[k]
    requires forall k :: i < k < a.Length ==> a[k] == rest[k - i - 1]
    modifies a
    ensures j <= i
    ensures forall k :: 0 <= k < j ==> a[k] == sorted[k]
    ensures forall k :: j < k <= i ==> a[k] == sorted[k - 1]
    ensures forall k :: i < k < a.Length ==> a[k] == rest[k - i - 1]
    ensures j > 0 ==> cmp(sorted[j - 1], x) <= 0.0
    ensures InsertRight(cmp, sorted, x) == InsertRight(cmp, sorted[..j], x) + sorted[j..]
  {
    j := i;
    assert sorted[..j] == sorted;
    while j > 0 && cmp(a[j - 1], x) > 0.0
      invariant 0 <= j <= i
      invariant forall k :: 0 <= k < j ==> a[k] == sorted[k]
      invariant forall k :: j < k <= i ==> a[k] == sorted[k - 1]
      invariant forall k :: i < k < a.Length ==> a[k] == rest[k - i - 1]
      invariant InsertRight(cmp, sorted, x) == InsertRight(cmp, sorted[..j], x) + sorted[j..]
    {
      assert a[j - 1] == sorted[j - 1];
      ShiftStep(cmp, sorted, j, x);
      a[j] := a[j - 1];
      j := j - 1;
    }
  }

  /** The elements of an array holding `sorted + [x] + rest`, position by
      position. */
  lemma Split<T>(a: array<T>, sorted: seq<T>, x: T, rest: seq<T>)
    requires a[..] == sorted + [x] + rest
    ensures forall k :: 0 <= k < |sorted| ==> a[k] == sorted[k]
    ensures forall k :: |sorted| < k < a.Length ==> a[k] == rest[k - |sorted| - 1]
  {
    forall k | 0 <= k < a.Length ensures a[k] == a[..][k] { }
  }

  /** An array whose elements are those of `sorted` with `x` placed at `j`,
      followed by `rest`. */
  lemma Assemble<T>(a: array<T>, sorted: seq<T>, j: nat, x: T, rest: seq<T>)
    requires j <= |sorted| && a.Length == |sorted| + 1 + |rest|
    requires forall k :: 0 <= k < j ==> a[k] == sorted[k]
    requires a[j] == x
    requires forall k :: j < k <= |sorted| ==> a[k] == sorted[k - 1]
    requires forall k :: |sorted| < k < a.Length ==> a[k] == rest[k - |sorted| - 1]
    ensures a[..] == sorted[..j] + [x] + sorted[j..] + rest
  {
    var r := sorted[..j] + [x] + sorted[j..] + rest;
    forall k | 0 <= k < a.Length ensures a[..][k] == r[k] { }
  }

  /** The shifting loop stops where `x` belongs: no element before it is
      placed after it. */
  lemma ShiftDone<T>(cmp: (T, T) -> real, s: seq<T>, j: nat, x: T)
    requires j <= |s|
    requires j > 0 ==> cmp(s[j - 1], x) <= 0.0
    ensures InsertRight(cmp, s[..j], x) == s[..j] + [x]
  {
    if j > 0 {
      assert s[..j][j - 1] == s[j - 1];
    }
  }

  /** One step of the shifting loop: moving past `s[j - 1]`. */
  lemma ShiftStep<T>(cmp: (T, T) -> real, s: seq<T>, j: nat, x: T)
    requires 0 < j <= |s|
    requires cmp(s[j - 1], x) > 0.0
    ensures InsertRight(cmp, s[..j], x) + s[j..] == InsertRight(cmp, s[..j - 1], x) + s[j - 1..]
  {
    assert s[..j][..j - 1] == s[..j - 1];
    assert s[j - 1..] == [s[j - 1]] + s[j..];
  }
}
