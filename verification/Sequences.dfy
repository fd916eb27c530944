/** Sequences as sets, sub-sequences by a test, and sorting by a numeric key. */
module Sequences {

  // ---------- Sets of elements ----------

  function ToSet<T>(s: seq<T>): set<T> {
    set x | x in s
  }

  predicate NoDuplicates<T(==)>(s: seq<T>) {
    forall i, j :: 0 <= i < j < |s| ==> s[i] != s[j]
  }

  /** A sequence has at most as many elements as places, and exactly as many when none is repeated. */
  lemma {:induction false} SizeOfSet<T>(s: seq<T>)
    ensures |ToSet(s)| <= |s|
    ensures |ToSet(s)| == |s| <==> NoDuplicates(s)
  {
    if s == [] {
      assert ToSet(s) == {};
    } else {
      var m := |s| - 1;
      SizeOfSet(s[..m]);
      assert s == s[..m] + [s[m]];
      assert ToSet(s) == ToSet(s[..m]) + {s[m]};
      if NoDuplicates(s) {
        assert s[m] !in s[..m];
      }
      if |ToSet(s)| == |s| {
        assert s[m] !in ToSet(s[..m]);
        assert NoDuplicates(s[..m]);
        forall i | 0 <= i < m ensures s[i] != s[m] {
          assert s[..m][i] in s[..m];
        }
      }
    }
  }

  lemma SameElements<T>(a: seq<T>, b: seq<T>)
    requires multiset(a) == multiset(b)
    ensures |a| == |b| && ToSet(a) == ToSet(b)
    ensures forall x :: x in a <==> x in b
    ensures NoDuplicates(a) <==> NoDuplicates(b)
  {
    assert |a| == |multiset(a)| == |multiset(b)| == |b|;
    forall x ensures x in a <==> x in b {
      assert x in a <==> x in multiset(a);
      assert x in b <==> x in multiset(b);
    }
    SizeOfSet(a);
    SizeOfSet(b);
  }

  lemma SubsetSize<T>(a: set<T>, b: set<T>)
    requires a <= b
    ensures |a| <= |b| && (|a| == |b| ==> a == b)
  {
    assert b == a + (b - a) && |b| == |a| + |b - a|;
  }

  /** Two duplicate-free sequences with the same elements are permutations of each other. */
  lemma SameWithoutDuplicates<T(!new)>(a: seq<T>, b: seq<T>)
    requires NoDuplicates(a) && NoDuplicates(b) && forall x :: x in a <==> x in b
    ensures multiset(a) == multiset(b)
  {
    forall x ensures multiset(a)[x] == multiset(b)[x] {
      OnceWithoutDuplicates(a, x);
      OnceWithoutDuplicates(b, x);
    }
    assert multiset(a) == multiset(b);
  }

  lemma {:induction false} OnceWithoutDuplicates<T>(s: seq<T>, x: T)
    requires NoDuplicates(s)
    ensures multiset(s)[x] == if x in s then 1 else 0
  {
    if s != [] {
      var m := |s| - 1;
      OnceWithoutDuplicates(s[..m], x);
      assert s == s[..m] + [s[m]];
      assert x == s[m] ==> x !in s[..m];
    }
  }

  /** The numbers from low up to but not including high. */
  function Range(low: int, high: int): set<int>
    decreases high - low
  {
    if high <= low then {} else Range(low, high - 1) + {high - 1}
  }

  lemma {:induction false} SizeOfRange(low: int, high: int)
    requires low <= high
    ensures |Range(low, high)| == high - low
    ensures forall i :: i in Range(low, high) <==> low <= i < high
    decreases high - low
  {
    if low < high {
      SizeOfRange(low, high - 1);
    }
  }

  lemma MultiplicityFirst<T>(s: seq<T>, x: T)
    requires s != []
    ensures multiset(s)[x] == multiset(s[1..])[x] + if s[0] == x then 1 else 0
  {
    assert s == [s[0]] + s[1..];
  }

  // ---------- Sub-sequences ----------

  /** The elements of s that pass the test, in order. */
  function Filter<T>(test: T -> bool, s: seq<T>): seq<T> {
    if s == [] then []
    else Filter(test, s[..|s| - 1]) + if test(s[|s| - 1]) then [s[|s| - 1]] else []
  }

  lemma {:induction false} FilterMultiplicity<T>(test: T -> bool, s: seq<T>, x: T)
    ensures multiset(Filter(test, s))[x] == if test(x) then multiset(s)[x] else 0
  {
    if s != [] {
      var m := |s| - 1;
      FilterMultiplicity(test, s[..m], x);
      assert s == s[..m] + [s[m]];
    }
  }

  lemma FilterMember<T>(test: T -> bool, s: seq<T>, x: T)
    ensures x in Filter(test, s) <==> x in s && test(x)
  {
    FilterMultiplicity(test, s, x);
    assert x in Filter(test, s) <==> multiset(Filter(test, s))[x] > 0;
    assert x in s <==> multiset(s)[x] > 0;
  }

  lemma {:induction false} FilterAppend<T>(test: T -> bool, a: seq<T>, b: seq<T>)
    ensures Filter(test, a + b) == Filter(test, a) + Filter(test, b)
    decreases |b|
  {
    if b == [] {
      assert a + b == a;
    } else {
      var m := |b| - 1;
      assert (a + b)[..|a| + m] == a + b[..m];
      FilterAppend(test, a, b[..m]);
    }
  }

  lemma {:induction false} FilterTwice<T(!new)>(test: T -> bool, other: T -> bool, both: T -> bool, s: seq<T>)
    requires forall x :: both(x) == (test(x) && other(x))
    ensures Filter(test, Filter(other, s)) == Filter(both, s)
  {
    if s != [] {
      var m := |s| - 1;
      var last := s[m];
      FilterTwice(test, other, both, s[..m]);
      FilterAppend(test, Filter(other, s[..m]), if other(last) then [last] else []);
      FilterOne(test, last);
    }
  }

  /** The places of the elements that pass. */
  ghost function Places<T>(test: T -> bool, s: seq<T>): set<int> {
    set i | 0 <= i < |s| && test(s[i])
  }

  lemma {:induction false} FilterCounts<T>(test: T -> bool, s: seq<T>)
    ensures |Filter(test, s)| == |Places(test, s)|
  {
    if s == [] {
      assert Places(test, s) == {};
    } else {
      var m := |s| - 1;
      FilterCounts(test, s[..m]);
      assert Places(test, s) == Places(test, s[..m]) + if test(s[m]) then {m} else {};
    }
  }

  ghost predicate Pairwise<T(!new)>(apart: (T, T) -> bool, test: T -> bool, s: seq<T>) {
    forall i, j :: 0 <= i < j < |s| && test(s[i]) && test(s[j]) ==> apart(s[i], s[j])
  }

  predicate Always<T>(x: T) {
    true
  }

  /** A relation between any two chosen elements is a relation between any two elements that pass the test. */
  lemma {:induction false} FilterPairs<T(!new)>(apart: (T, T) -> bool, test: T -> bool, s: seq<T>)
    ensures Pairwise(apart, Always, Filter(test, s)) <==> Pairwise(apart, test, s)
  {
    if s != [] {
      var m := |s| - 1;
      FilterPairs(apart, test, s[..m]);
      PairwiseLast(apart, test, s[..m], s[m]);
      assert s[..m] + [s[m]] == s;
      if !test(s[m]) {
        assert Filter(test, s) == Filter(test, s[..m]);
      } else {
        PairwiseLast(apart, Always, Filter(test, s[..m]), s[m]);
        forall x ensures x in Filter(test, s[..m]) <==> x in s[..m] && test(x) {
          FilterMember(test, s[..m], x);
        }
      }
    }
  }

  lemma PairwiseLast<T(!new)>(apart: (T, T) -> bool, test: T -> bool, s: seq<T>, last: T)
    ensures Pairwise(apart, test, s + [last]) <==>
              Pairwise(apart, test, s) && (test(last) ==> forall x :: x in s && test(x) ==> apart(x, last))
  {
    var more := s + [last];
    if Pairwise(apart, test, more) {
      forall i, j | 0 <= i < j < |s| && test(s[i]) && test(s[j]) ensures apart(s[i], s[j]) {
        assert more[i] == s[i] && more[j] == s[j];
      }
      forall x | x in s && test(x) && test(last) ensures apart(x, last) {
        var i :| 0 <= i < |s| && s[i] == x;
        assert more[i] == x && more[|s|] == last;
      }
    }
  }

  lemma FilterPrefix<T>(test: T -> bool, s: seq<T>, i: nat)
    requires i <= |s|
    ensures Filter(test, s[..i]) <= Filter(test, s)
  {
    assert s == s[..i] + s[i..];
    FilterAppend(test, s[..i], s[i..]);
  }

  lemma FilterLast<T>(test: T -> bool, s: seq<T>, i: nat)
    requires i < |s|
    ensures Filter(test, s[..i + 1]) == Filter(test, s[..i]) + if test(s[i]) then [s[i]] else []
  {
    assert s[..i + 1][..i] == s[..i];
  }

  lemma FilterPermutation<T(!new)>(test: T -> bool, a: seq<T>, b: seq<T>)
    requires multiset(a) == multiset(b)
    ensures multiset(Filter(test, a)) == multiset(Filter(test, b))
    ensures |Filter(test, a)| == |Filter(test, b)|
  {
    forall x ensures multiset(Filter(test, a))[x] == multiset(Filter(test, b))[x] {
      FilterMultiplicity(test, a, x);
      FilterMultiplicity(test, b, x);
    }
    assert multiset(Filter(test, a)) == multiset(Filter(test, b));
    assert |Filter(test, a)| == |multiset(Filter(test, a))| == |multiset(Filter(test, b))| == |Filter(test, b)|;
  }

  lemma {:induction false} FilterSame<T>(test: T -> bool, other: T -> bool, s: seq<T>)
    requires forall x :: x in s ==> test(x) == other(x)
    ensures Filter(test, s) == Filter(other, s)
  {
    if s != [] {
      FilterSame(test, other, s[..|s| - 1]);
    }
  }

  // ---------- Sorting ----------

  ghost predicate SortedBy<T>(key: T -> real, s: seq<T>) {
    forall i, j :: 0 <= i < j < |s| ==> key(s[i]) <= key(s[j])
  }

  function InsertBy<T>(key: T -> real, x: T, s: seq<T>): seq<T> {
    if s == [] || key(x) <= key(s[0]) then [x] + s
    else [s[0]] + InsertBy(key, x, s[1..])
  }

  /** A stable sort. */
  function SortBy<T>(key: T -> real, s: seq<T>): seq<T> {
    if s == [] then []
    else InsertBy(key, s[0], SortBy(key, s[1..]))
  }

  lemma {:induction false} InsertAddsOne<T>(key: T -> real, x: T, s: seq<T>)
    ensures multiset(InsertBy(key, x, s)) == multiset{x} + multiset(s)
  {
    if s != [] && key(x) > key(s[0]) {
      InsertAddsOne(key, x, s[1..]);
      assert s == [s[0]] + s[1..];
    }
  }

  lemma {:induction false} InsertKeepsSorted<T>(key: T -> real, x: T, s: seq<T>)
    requires SortedBy(key, s)
    ensures SortedBy(key, InsertBy(key, x, s))
  {
    if s != [] && key(x) > key(s[0]) {
      InsertKeepsSorted(key, x, s[1..]);
      InsertAddsOne(key, x, s[1..]);
      var rest := InsertBy(key, x, s[1..]);
      forall i | 0 <= i < |rest| ensures key(s[0]) <= key(rest[i]) {
        assert rest[i] in multiset(rest);
        assert rest[i] == x || rest[i] in s[1..];
      }
    }
  }

  lemma {:induction false} SortBySorts<T>(key: T -> real, s: seq<T>)
    ensures SortedBy(key, SortBy(key, s)) && multiset(SortBy(key, s)) == multiset(s)
    ensures |SortBy(key, s)| == |s|
  {
    if s != [] {
      SortBySorts(key, s[1..]);
      InsertKeepsSorted(key, s[0], SortBy(key, s[1..]));
      InsertAddsOne(key, s[0], SortBy(key, s[1..]));
      assert s == [s[0]] + s[1..];
    }
    assert |multiset(SortBy(key, s))| == |multiset(s)|;
  }

  function WithKey<T>(key: T -> real, k: real): T -> bool {
    x => key(x) == k
  }

  lemma {:induction false} InsertIsStable<T>(key: T -> real, x: T, s: seq<T>, k: real)
    ensures Filter(WithKey(key, k), InsertBy(key, x, s)) == Filter(WithKey(key, k), [x] + s)
  {
    var test := WithKey(key, k);
    if s != [] && key(x) > key(s[0]) {
      InsertIsStable(key, x, s[1..], k);
      FilterAppend(test, [s[0]], InsertBy(key, x, s[1..]));
      FilterAppend(test, [x], s[1..]);
      FilterAppend(test, [x], s);
      FilterAppend(test, [s[0]], s[1..]);
      assert s == [s[0]] + s[1..];
      FilterOne(test, x);
      FilterOne(test, s[0]);
    }
  }

  lemma FilterOne<T>(test: T -> bool, x: T)
    ensures Filter(test, [x]) == if test(x) then [x] else []
  {
    assert [x][..0] == [];
  }

  /** Elements with the same key keep the order they were given in. */
  lemma {:induction false} SortIsStable<T>(key: T -> real, s: seq<T>, k: real)
    ensures Filter(WithKey(key, k), SortBy(key, s)) == Filter(WithKey(key, k), s)
  {
    if s != [] {
      var test := WithKey(key, k);
      SortIsStable(key, s[1..], k);
      InsertIsStable(key, s[0], SortBy(key, s[1..]), k);
      FilterAppend(test, [s[0]], SortBy(key, s[1..]));
      FilterAppend(test, [s[0]], s[1..]);
      assert s == [s[0]] + s[1..];
    }
  }

  lemma SameTails<T>(a: seq<T>, b: seq<T>)
    requires multiset(a) == multiset(b) && |a| > 0 && |b| > 0 && a[0] == b[0]
    ensures multiset(a[1..]) == multiset(b[1..])
  {
    assert a == [a[0]] + a[1..] && b == [b[0]] + b[1..];
    assert multiset(a[1..]) == multiset(a) - multiset{a[0]};
    assert multiset(b[1..]) == multiset(b) - multiset{b[0]};
  }

  /** Sorting forgets the order it was given, as long as no two elements have the same key. */
  lemma {:induction false} SortedIsUnique<T>(key: T -> real, a: seq<T>, b: seq<T>)
    requires SortedBy(key, a) && SortedBy(key, b) && multiset(a) == multiset(b)
    requires forall i, j :: 0 <= i < j < |a| ==> key(a[i]) != key(a[j])
    ensures a == b
  {
    assert |a| == |multiset(a)| == |b|;
    if a != [] {
      FirstIsUnique(key, a, b);
      SameTails(a, b);
      SortedIsUnique(key, a[1..], b[1..]);
      assert a == [a[0]] + a[1..] && b == [b[0]] + b[1..];
    }
  }

  lemma FirstIsUnique<T>(key: T -> real, a: seq<T>, b: seq<T>)
    requires SortedBy(key, a) && SortedBy(key, b) && multiset(a) == multiset(b) && |a| > 0 && |b| > 0
    requires forall i, j :: 0 <= i < j < |a| ==> key(a[i]) != key(a[j])
    ensures a[0] == b[0]
  {
    assert b[0] in multiset(a);
    assert b[0] in a;
    assert a[0] in multiset(b);
    assert a[0] in b;
    var k :| 0 <= k < |a| && a[k] == b[0];
    var m :| 0 <= m < |b| && b[m] == a[0];
    assert key(b[0]) <= key(b[m]) && key(a[0]) <= key(a[k]);
  }
}
