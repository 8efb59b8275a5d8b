/**
 * The intermediate and terminal operations of `java.util.stream.Stream` that
 * the katas chain, over an ordered, finite source modelled as a sequence:
 * `filter`, `map`, `distinct`, `sorted()`, `sorted(comparator)` with a key
 * compared in reverse order, `limit` and `mapToInt(...).sum()`.
 *
 * Each operation is a plain recursive definition; what it guarantees is
 * stated and proved in the lemma that follows it.
 */
module Streams {
  import opened JavaStrings

  // ---------------------------------------------------------------------
  // Sequence relations used to state what the operations do
  // ---------------------------------------------------------------------

  /** `r` can be obtained from `s` by deleting elements (order kept). */
  predicate IsSubsequence<T(==)>(r: seq<T>, s: seq<T>) {
    if r == [] then true
    else if s == [] then false
    else if r[0] == s[0] then IsSubsequence(r[1..], s[1..])
    else IsSubsequence(r, s[1..])
  }

  predicate NoDuplicates<T(==)>(s: seq<T>) {
    forall i, j :: 0 <= i < j < |s| ==> s[i] != s[j]
  }

  /** Index of the first occurrence of `x` in `s`. */
  function IndexOf<T(==)>(s: seq<T>, x: T): (i: nat)
    requires x in s
    ensures i < |s| && s[i] == x
    ensures forall k :: 0 <= k < i ==> s[k] != x
  {
    if s[0] == x then 0 else 1 + IndexOf(s[1..], x)
  }

  /** The positions of `s` whose element satisfies `p`. */
  function IndicesWhere<T>(s: seq<T>, p: T -> bool): set<nat> {
    set i: nat | i < |s| && p(s[i])
  }

  // ---------------------------------------------------------------------
  // filter
  // ---------------------------------------------------------------------

  /** `filter(p)`. */
  function Filter<T>(s: seq<T>, p: T -> bool): seq<T> {
    if s == [] then []
    else if p(s[0]) then [s[0]] + Filter(s[1..], p)
    else Filter(s[1..], p)
  }

  /**
   * `filter(p)` keeps exactly the elements satisfying `p`, each with its full
   * multiplicity, in their original order.
   */
  lemma {:induction false} FilterSpec<T(!new)>(s: seq<T>, p: T -> bool)
    ensures |Filter(s, p)| <= |s|
    ensures forall x :: x in Filter(s, p) ==> p(x)
    ensures forall x :: multiset(Filter(s, p))[x] == if p(x) then multiset(s)[x] else 0
    ensures IsSubsequence(Filter(s, p), s)
  {
    if s != [] {
      FilterSpec(s[1..], p);
      assert s == [s[0]] + s[1..];
    }
  }

  /** An element survives `filter(p)` exactly when it is in the input and satisfies `p`. */
  lemma {:induction false} FilterElements<T>(s: seq<T>, p: T -> bool, x: T)
    ensures x in Filter(s, p) <==> x in s && p(x)
  {
    if s != [] {
      FilterElements(s[1..], p, x);
      assert s == [s[0]] + s[1..];
    }
  }

  /** Filtering a concatenation filters each part. */
  lemma {:induction false} FilterAppend<T>(a: seq<T>, b: seq<T>, p: T -> bool)
    ensures Filter(a + b, p) == Filter(a, p) + Filter(b, p)
  {
    if a == [] {
      assert a + b == b;
    } else {
      assert (a + b)[1..] == a[1..] + b;
      FilterAppend(a[1..], b, p);
    }
  }

  /** Two predicates that agree on every element select the same elements. */
  lemma {:induction false} FilterCongruent<T>(s: seq<T>, p: T -> bool, q: T -> bool)
    requires forall x :: x in s ==> p(x) == q(x)
    ensures Filter(s, p) == Filter(s, q)
  {
    if s != [] {
      FilterCongruent(s[1..], p, q);
    }
  }

  /**
   * The length of `filter(p)` is the number of positions holding an element
   * that satisfies `p`: equal elements at different positions count apart.
   */
  lemma {:induction false} FilterCountsPositions<T>(s: seq<T>, p: T -> bool)
    ensures |Filter(s, p)| == |IndicesWhere(s, p)|
    decreases |s|
  {
    if s != [] {
      var n := |s| - 1;
      var init := s[..n];
      FilterCountsPositions(init, p);
      assert s == init + [s[n]];
      FilterAppend(init, [s[n]], p);
      assert IndicesWhere(s, p) == IndicesWhere(init, p) + (if p(s[n]) then {n} else {});
      assert n !in IndicesWhere(init, p);
    }
  }

  // ---------------------------------------------------------------------
  // map, limit
  // ---------------------------------------------------------------------

  /** `map(f)`. */
  function Map<T, U>(s: seq<T>, f: T -> U): (r: seq<U>)
    ensures |r| == |s|
    ensures forall i :: 0 <= i < |s| ==> r[i] == f(s[i])
  {
    seq(|s|, i requires 0 <= i < |s| => f(s[i]))
  }

  /** `map` applied to the two halves of a split, put back together. */
  lemma MapSplit<T, U>(s: seq<T>, k: nat, f: T -> U, left: seq<U>, right: seq<U>)
    requires k <= |s| && Map(s[..k], f) == left && Map(s[k..], f) == right
    ensures Map(s, f) == left + right
  {
    var r := Map(s, f);
    forall i | 0 <= i < |s| ensures r[i] == (left + right)[i] {
      if i < k {
        assert s[..k][i] == s[i];
      } else {
        assert s[k..][i - k] == s[i];
      }
    }
  }

  /** Mapping a concatenation maps each part. */
  lemma MapAppend<T, U>(a: seq<T>, b: seq<T>, f: T -> U)
    ensures Map(a + b, f) == Map(a, f) + Map(b, f)
  {
    assert (a + b)[..|a|] == a;
    assert (a + b)[|a|..] == b;
    MapSplit(a + b, |a|, f, Map(a, f), Map(b, f));
  }

  /** The elements of `d` that `f` sends to `u`. */
  ghost function Preimage<T, U>(d: seq<T>, f: T -> U, u: U): set<T> {
    set x | x in d && f(x) == u
  }

  /**
   * Mapping a duplicate-free sequence: each value `u` appears once for every
   * element that `f` sends to `u`.
   */
  lemma {:induction false} MapCountsUnique<T, U>(d: seq<T>, f: T -> U, u: U)
    requires NoDuplicates(d)
    ensures multiset(Map(d, f))[u] == |Preimage(d, f, u)|
    decreases |d|
  {
    var all := Preimage(d, f, u);
    if d == [] {
      assert all == {};
    } else {
      var rest := d[1..];
      var later := Preimage(rest, f, u);
      UniqueTail(d);
      MapCountsUnique(rest, f, u);
      MapHead(d, f);
      assert forall x :: x in d <==> x == d[0] || x in rest;
      if f(d[0]) == u {
        assert all == later + {d[0]};
      } else {
        assert all == later;
      }
    }
  }

  /** The tail of a duplicate-free sequence is duplicate-free and lacks the head. */
  lemma UniqueTail<T>(d: seq<T>)
    requires d != [] && NoDuplicates(d)
    ensures NoDuplicates(d[1..]) && d[0] !in d[1..]
  {
    var rest := d[1..];
    forall k | 0 <= k < |rest| ensures rest[k] != d[0] {
      assert rest[k] == d[k + 1];
    }
    forall i, j | 0 <= i < j < |rest| ensures rest[i] != rest[j] {
      assert rest[i] == d[i + 1] && rest[j] == d[j + 1];
    }
  }

  /** `map` sends the head to the head and the rest to the rest. */
  lemma MapHead<T, U>(d: seq<T>, f: T -> U)
    requires d != []
    ensures multiset(Map(d, f)) == multiset{f(d[0])} + multiset(Map(d[1..], f))
  {
    assert Map(d, f) == [f(d[0])] + Map(d[1..], f);
  }

  /** `limit(n)`: the first `n` elements, or all of them if there are fewer. */
  function Limit<T>(s: seq<T>, n: nat): (r: seq<T>)
    ensures |r| == if |s| < n then |s| else n
    ensures r == s[..|r|]
  {
    if |s| < n then s else s[..n]
  }

  /** Deleting the first element of a subsequence leaves a subsequence. */
  lemma {:induction false} SubsequenceDropHead<T>(r: seq<T>, s: seq<T>)
    requires r != [] && IsSubsequence(r, s)
    ensures IsSubsequence(r[1..], s)
    decreases |s|, 1
  {
    if r[0] == s[0] {
      SubsequenceCons(r[1..], s);
    } else {
      SubsequenceDropHead(r, s[1..]);
      SubsequenceCons(r[1..], s);
    }
  }

  /** A subsequence of the tail is a subsequence of the whole. */
  lemma {:induction false} SubsequenceCons<T>(r: seq<T>, s: seq<T>)
    requires s != [] && IsSubsequence(r, s[1..])
    ensures IsSubsequence(r, s)
    decreases |s|, 0
  {
    if r != [] && r[0] == s[0] {
      SubsequenceDropHead(r, s[1..]);
    }
  }

  /** `map` keeps a subsequence a subsequence. */
  lemma {:induction false} SubsequenceMap<T, U>(r: seq<T>, s: seq<T>, f: T -> U)
    requires IsSubsequence(r, s)
    ensures IsSubsequence(Map(r, f), Map(s, f))
  {
    if r != [] {
      assert Map(s, f)[1..] == Map(s[1..], f);
      assert Map(r, f)[1..] == Map(r[1..], f);
      if r[0] == s[0] {
        SubsequenceMap(r[1..], s[1..], f);
      } else {
        SubsequenceMap(r, s[1..], f);
        if f(r[0]) == f(s[0]) {
          SubsequenceDropHead(Map(r, f), Map(s[1..], f));
        }
      }
    }
  }

  // ---------------------------------------------------------------------
  // distinct
  // ---------------------------------------------------------------------

  /**
   * `distinct()` on an ordered stream: an element is passed on unless an
   * equal one (by value) has already been passed on, so each value keeps
   * its first occurrence.
   */
  function Distinct<T(==)>(s: seq<T>): seq<T>
    decreases |s|
  {
    if s == [] then []
    else
      var kept := Distinct(s[..|s| - 1]);
      if s[|s| - 1] in kept then kept else kept + [s[|s| - 1]]
  }

  /** `distinct()` keeps every value of the input, and each only once. */
  lemma {:induction false} DistinctSpec<T(!new)>(s: seq<T>)
    ensures NoDuplicates(Distinct(s))
    ensures forall x :: x in Distinct(s) <==> x in s
    ensures |Distinct(s)| <= |s|
    decreases |s|
  {
    if s != [] {
      var init := s[..|s| - 1];
      DistinctSpec(init);
      assert s == init + [s[|s| - 1]];
    }
  }

  /** Before its first occurrence, an element's first index is the same in a prefix. */
  lemma IndexOfPrefix<T>(s: seq<T>, m: nat, x: T)
    requires m <= |s| && x in s[..m]
    ensures IndexOf(s, x) == IndexOf(s[..m], x)
  {
    var k := IndexOf(s[..m], x);
    var i := IndexOf(s, x);
    assert s[..m][k] == s[k];
    assert i <= k;
    assert s[..m][i] == s[i];
  }

  lemma {:induction false} DistinctOrder<T(!new)>(s: seq<T>, i: nat, j: nat)
    requires i < j < |Distinct(s)|
    ensures Distinct(s)[i] in s && Distinct(s)[j] in s
    ensures IndexOf(s, Distinct(s)[i]) < IndexOf(s, Distinct(s)[j])
    decreases |s|
  {
    var n := |s|;
    var init := s[..n - 1];
    var kept := Distinct(init);
    var r := Distinct(s);
    assert init + [s[n - 1]] == s;
    DistinctSnoc(init, s[n - 1]);
    assert r[i] == kept[i];
    DistinctMember(init, r[i]);
    IndexOfPrefix(s, n - 1, r[i]);
    if j < |kept| {
      assert r[j] == kept[j];
      DistinctOrder(init, i, j);
      DistinctMember(init, r[j]);
      IndexOfPrefix(s, n - 1, r[j]);
    } else {
      IndexOfLast(s);
    }
  }

  /** What `distinct()` passes on comes from its input. */
  lemma DistinctMember<T(!new)>(s: seq<T>, x: T)
    requires x in Distinct(s)
    ensures x in s
  {
    DistinctSpec(s);
  }

  /** A last element that does not occur earlier first occurs at the end. */
  lemma IndexOfLast<T>(s: seq<T>)
    requires s != [] && s[|s| - 1] !in s[..|s| - 1]
    ensures IndexOf(s, s[|s| - 1]) == |s| - 1
  {
  }

  /**
   * `r` lists elements of `s`, ordered by where each first occurs in `s`.
   */
  predicate InFirstAppearanceOrder<T(==)>(r: seq<T>, s: seq<T>) {
    && (forall i :: 0 <= i < |r| ==> r[i] in s)
    && (forall i, j :: 0 <= i < j < |r| ==> IndexOf(s, r[i]) < IndexOf(s, r[j]))
  }

  /**
   * What `distinct()` keeps: no value twice, exactly the values of the input,
   * in the order of their first appearance in the input.
   */
  lemma DistinctKeepsFirstAppearance<T(!new)>(s: seq<T>)
    ensures NoDuplicates(Distinct(s))
    ensures forall x :: x in Distinct(s) <==> x in s
    ensures InFirstAppearanceOrder(Distinct(s), s)
  {
    DistinctSpec(s);
    var r := Distinct(s);
    forall i, j | 0 <= i < j < |r| ensures IndexOf(s, r[i]) < IndexOf(s, r[j]) {
      DistinctOrder(s, i, j);
    }
  }

  /** One more element at the end is dropped by `distinct()` exactly when its value was already seen. */
  lemma DistinctSnoc<T(!new)>(s: seq<T>, x: T)
    ensures Distinct(s + [x]) == if x in s then Distinct(s) else Distinct(s) + [x]
  {
    assert (s + [x])[..|s|] == s;
    DistinctSpec(s);
  }

  /** A sequence without duplicates goes through `distinct()` unchanged. */
  lemma {:induction false} DistinctOfUnique<T>(s: seq<T>)
    requires NoDuplicates(s)
    ensures Distinct(s) == s
    decreases |s|
  {
    if s != [] {
      var init := s[..|s| - 1];
      DistinctOfUnique(init);
      assert s == init + [s[|s| - 1]];
    }
  }

  /** Without duplicates, the multiset of a sequence takes each element once. */
  lemma {:induction false} NoDuplicatesMultiplicity<T>(s: seq<T>, x: T)
    requires NoDuplicates(s)
    ensures multiset(s)[x] == if x in s then 1 else 0
  {
    if s != [] {
      assert s == [s[0]] + s[1..];
      assert s[0] !in s[1..];
      NoDuplicatesMultiplicity(s[1..], x);
    }
  }

  /** A permutation of a sequence without duplicates has none either. */
  lemma PermutationNoDuplicates<T>(a: seq<T>, b: seq<T>)
    requires NoDuplicates(a) && multiset(a) == multiset(b)
    ensures NoDuplicates(b)
  {
    forall i, j | 0 <= i < j < |b| ensures b[i] != b[j] {
      NoDuplicatesMultiplicity(a, b[j]);
      assert b == b[..j] + [b[j]] + b[j + 1..];
      assert b[i] in b[..j];
      assert multiset(b) == multiset(b[..j]) + multiset{b[j]} + multiset(b[j + 1..]);
    }
  }

  // ---------------------------------------------------------------------
  // sorted(): natural order of strings
  // ---------------------------------------------------------------------

  predicate Sorted(s: seq<string>) {
    forall i, j :: 0 <= i < j < |s| ==> LessEq(s[i], s[j])
  }

  /** Places `x` before the first element it is not above. */
  function Insert(x: string, s: seq<string>): seq<string> {
    if s == [] then [x]
    else if LessEq(x, s[0]) then [x] + s
    else [s[0]] + Insert(x, s[1..])
  }

  lemma {:induction false} InsertSpec(x: string, s: seq<string>)
    requires Sorted(s)
    ensures Sorted(Insert(x, s))
    ensures multiset(Insert(x, s)) == multiset(s) + multiset{x}
  {
    if s == [] {
    } else if LessEq(x, s[0]) {
      forall j | 0 <= j < |s| ensures LessEq(x, s[j]) {
        if j > 0 { LessEqTransitive(x, s[0], s[j]); }
      }
      assert s == [s[0]] + s[1..];
    } else {
      var rest := Insert(x, s[1..]);
      InsertSpec(x, s[1..]);
      assert s == [s[0]] + s[1..];
      forall j | 0 <= j < |rest| ensures LessEq(s[0], rest[j]) {
        assert rest[j] in multiset(rest);
        if rest[j] == x {
          LessEqTotal(x, s[0]);
        } else {
          assert rest[j] in s[1..];
        }
      }
    }
  }

  /** `sorted()`: insertion sort. */
  function Sort(s: seq<string>): seq<string> {
    if s == [] then [] else Insert(s[0], Sort(s[1..]))
  }

  /** `sorted()` returns an ascending permutation of the input. */
  lemma {:induction false} SortSpec(s: seq<string>)
    ensures Sorted(Sort(s))
    ensures multiset(Sort(s)) == multiset(s)
  {
    if s != [] {
      SortSpec(s[1..]);
      InsertSpec(s[0], Sort(s[1..]));
      assert s == [s[0]] + s[1..];
    }
  }

  /**
   * There is only one ascending permutation of a sequence, so `Sort` is the
   * result of any correct sorting algorithm.
   */
  lemma {:induction false} SortedPermutationUnique(a: seq<string>, b: seq<string>)
    requires Sorted(a) && Sorted(b) && multiset(a) == multiset(b)
    ensures a == b
    decreases |a|
  {
    assert |a| == |multiset(a)| == |multiset(b)| == |b|;
    if a != [] {
      assert a[0] in multiset(a) && b[0] in multiset(b);
      SortedHeadLeast(b, a[0]);
      SortedHeadLeast(a, b[0]);
      LessEqAntisymmetric(a[0], b[0]);
      SameHeadTails(a, b);
      SortedPermutationUnique(a[1..], b[1..]);
      assert a == [a[0]] + a[1..] && b == [b[0]] + b[1..];
    }
  }

  /** The head of an ascending sequence is below all of its elements. */
  lemma SortedHeadLeast(s: seq<string>, x: string)
    requires Sorted(s) && x in s
    ensures LessEq(s[0], x)
  {
    var i :| 0 <= i < |s| && s[i] == x;
    if i == 0 {
      CompareToZeroIffEqual(x, x);
    }
  }

  /** Permutations with the same head have permuted tails. */
  lemma SameHeadTails<T>(a: seq<T>, b: seq<T>)
    requires a != [] && b != [] && a[0] == b[0] && multiset(a) == multiset(b)
    ensures multiset(a[1..]) == multiset(b[1..])
  {
    assert a == [a[0]] + a[1..] && b == [b[0]] + b[1..];
    assert multiset(a) == multiset{a[0]} + multiset(a[1..]);
    assert multiset(b) == multiset{b[0]} + multiset(b[1..]);
    assert multiset(a[1..]) == multiset(a) - multiset{a[0]};
    assert multiset(b[1..]) == multiset(b) - multiset{b[0]};
  }

  /** `Sort` gives any ascending permutation of its input. */
  lemma SortIs(s: seq<string>, t: seq<string>)
    requires Sorted(t) && multiset(t) == multiset(s)
    ensures Sort(s) == t
  {
    SortSpec(s);
    SortedPermutationUnique(Sort(s), t);
  }

  /** Ordered neighbours make an ascending sequence. */
  lemma {:induction false} SortedFromNeighbours(s: seq<string>)
    requires forall i :: 0 < i < |s| ==> LessEq(s[i - 1], s[i])
    ensures Sorted(s)
  {
    if s != [] {
      SortedFromNeighbours(s[1..]);
      forall j | 0 < j < |s| ensures LessEq(s[0], s[j]) {
        if j > 1 { LessEqTransitive(s[0], s[1], s[j]); }
      }
    }
  }

  /**
   * An ascending sequence without duplicates is determined by its set of
   * elements.
   */
  lemma SortedSetUnique(a: seq<string>, b: seq<string>)
    requires Sorted(a) && Sorted(b) && NoDuplicates(a) && NoDuplicates(b)
    requires forall x :: x in a <==> x in b
    ensures a == b
  {
    forall x ensures multiset(a)[x] == multiset(b)[x] {
      NoDuplicatesMultiplicity(a, x);
      NoDuplicatesMultiplicity(b, x);
    }
    assert multiset(a) == multiset(b);
    SortedPermutationUnique(a, b);
  }

  /** Sorting keeps a sequence without duplicates free of them. */
  lemma SortNoDuplicates(s: seq<string>)
    requires NoDuplicates(s)
    ensures NoDuplicates(Sort(s))
  {
    SortSpec(s);
    PermutationNoDuplicates(s, Sort(s));
  }

  /** Sorting keeps the elements. */
  lemma SortElements(s: seq<string>, x: string)
    ensures x in Sort(s) <==> x in s
  {
    SortSpec(s);
    assert x in Sort(s) <==> x in multiset(Sort(s));
  }

  /**
   * `distinct().sorted()` gives the one ascending, duplicate-free listing of
   * the input's values.
   */
  lemma SortDistinctIs(s: seq<string>, t: seq<string>)
    requires Sorted(t) && NoDuplicates(t)
    requires forall x :: x in t <==> x in s
    ensures Sort(Distinct(s)) == t
  {
    DistinctSpec(s);
    SortSpec(Distinct(s));
    SortNoDuplicates(Distinct(s));
    forall x ensures x in Sort(Distinct(s)) <==> x in t {
      SortElements(Distinct(s), x);
    }
    SortedSetUnique(Sort(Distinct(s)), t);
  }

  // ---------------------------------------------------------------------
  // sorted(Comparator.comparing(key, Comparator.reverseOrder()))
  // ---------------------------------------------------------------------

  predicate SortedByKeyDesc<T>(s: seq<T>, key: T -> int) {
    forall i, j :: 0 <= i < j < |s| ==> key(s[i]) >= key(s[j])
  }

  /** The elements of `s` whose key is `k`, in order. */
  function WithKey<T>(s: seq<T>, key: T -> int, k: int): seq<T> {
    if s == [] then []
    else if key(s[0]) == k then [s[0]] + WithKey(s[1..], key, k)
    else WithKey(s[1..], key, k)
  }

  /** Places `x` before the first element whose key is not above `x`'s. */
  function InsertByKeyDesc<T>(x: T, s: seq<T>, key: T -> int): seq<T> {
    if s == [] then [x]
    else if key(x) >= key(s[0]) then [x] + s
    else [s[0]] + InsertByKeyDesc(x, s[1..], key)
  }

  /** Inserting adds `x` and keeps every other element. */
  lemma {:induction false} InsertByKeyDescPermutes<T>(x: T, s: seq<T>, key: T -> int)
    ensures multiset(InsertByKeyDesc(x, s, key)) == multiset(s) + multiset{x}
  {
    if s != [] {
      assert s == [s[0]] + s[1..];
      if key(x) < key(s[0]) {
        InsertByKeyDescPermutes(x, s[1..], key);
      }
    }
  }

  /** Inserting into a sequence in descending key order keeps it in that order. */
  lemma {:induction false} InsertByKeyDescSorted<T>(x: T, s: seq<T>, key: T -> int)
    requires SortedByKeyDesc(s, key)
    ensures SortedByKeyDesc(InsertByKeyDesc(x, s, key), key)
  {
    if s != [] && key(x) < key(s[0]) {
      var rest := InsertByKeyDesc(x, s[1..], key);
      InsertByKeyDescSorted(x, s[1..], key);
      forall j | 0 <= j < |rest| ensures key(s[0]) >= key(rest[j]) {
        InsertByKeyDescElements(x, s[1..], key, rest[j]);
      }
      assert InsertByKeyDesc(x, s, key) == [s[0]] + rest;
    }
  }

  /** Inserting adds `x` to the elements and nothing else. */
  lemma {:induction false} InsertByKeyDescElements<T>(x: T, s: seq<T>, key: T -> int, y: T)
    ensures y in InsertByKeyDesc(x, s, key) <==> y == x || y in s
  {
    if s != [] && key(x) < key(s[0]) {
      InsertByKeyDescElements(x, s[1..], key, y);
      assert s == [s[0]] + s[1..];
    }
  }

  /** `x` enters its key class ahead of the elements already there. */
  lemma {:induction false} InsertByKeyDescStable<T>(x: T, s: seq<T>, key: T -> int, k: int)
    ensures WithKey(InsertByKeyDesc(x, s, key), key, k)
      == (if key(x) == k then [x] else []) + WithKey(s, key, k)
  {
    if s != [] {
      var r := InsertByKeyDesc(x, s, key);
      if key(x) >= key(s[0]) {
        assert r[1..] == s;
      } else {
        var rest := InsertByKeyDesc(x, s[1..], key);
        assert r == [s[0]] + rest && r[1..] == rest;
        InsertByKeyDescStable(x, s[1..], key, k);
      }
    }
  }

  /** `sorted(comparing(key, reverseOrder()))`: insertion sort that keeps ties in order. */
  function SortByKeyDesc<T>(s: seq<T>, key: T -> int): seq<T> {
    if s == [] then [] else InsertByKeyDesc(s[0], SortByKeyDesc(s[1..], key), key)
  }

  /**
   * The result is a permutation ordered by descending key, and it is stable:
   * the elements of each key keep their relative order.
   */
  lemma {:induction false} SortByKeyDescSpec<T>(s: seq<T>, key: T -> int)
    ensures SortedByKeyDesc(SortByKeyDesc(s, key), key)
    ensures multiset(SortByKeyDesc(s, key)) == multiset(s)
    ensures forall k :: WithKey(SortByKeyDesc(s, key), key, k) == WithKey(s, key, k)
  {
    if s != [] {
      var rest := SortByKeyDesc(s[1..], key);
      SortByKeyDescSpec(s[1..], key);
      InsertByKeyDescSorted(s[0], rest, key);
      InsertByKeyDescPermutes(s[0], rest, key);
      assert s == [s[0]] + s[1..];
      forall k ensures WithKey(SortByKeyDesc(s, key), key, k) == WithKey(s, key, k) {
        InsertByKeyDescStable(s[0], rest, key, k);
      }
    }
  }

  /**
   * Order by descending key together with stability determines the result:
   * any stable sort gives `SortByKeyDesc`.
   */
  lemma {:induction false} StableSortUnique<T>(a: seq<T>, b: seq<T>, key: T -> int)
    requires SortedByKeyDesc(a, key) && SortedByKeyDesc(b, key)
    requires forall k :: WithKey(a, key, k) == WithKey(b, key, k)
    ensures a == b
    decreases |a|
  {
    if a == [] || b == [] {
      // A non-empty side would have a non-empty key class that the other lacks.
      if a != [] { WithKeyHead(a, key); }
      if b != [] { WithKeyHead(b, key); }
    } else {
      // Both heads carry the largest key; the key classes then name the same element.
      WithKeyHead(a, key);
      WithKeyHead(b, key);
      var ka, kb := key(a[0]), key(b[0]);
      assert a[0] in WithKey(b, key, ka);
      assert b[0] in WithKey(a, key, kb);
      WithKeyMember(b, key, ka, a[0]);
      WithKeyMember(a, key, kb, b[0]);
      assert ka == kb;
      assert a[0] == b[0];
      forall k ensures WithKey(a[1..], key, k) == WithKey(b[1..], key, k) {
        if k == ka {
          assert WithKey(a, key, k) == [a[0]] + WithKey(a[1..], key, k);
          assert WithKey(b, key, k) == [b[0]] + WithKey(b[1..], key, k);
          assert WithKey(a[1..], key, k) == WithKey(a, key, k)[1..];
          assert WithKey(b[1..], key, k) == WithKey(b, key, k)[1..];
        } else {
          assert WithKey(a, key, k) == WithKey(a[1..], key, k);
          assert WithKey(b, key, k) == WithKey(b[1..], key, k);
        }
      }
      StableSortUnique(a[1..], b[1..], key);
      assert a == [a[0]] + a[1..] && b == [b[0]] + b[1..];
    }
  }

  /** The key class of a concatenation is the concatenation of the key classes. */
  lemma {:induction false} WithKeyAppend<T>(a: seq<T>, b: seq<T>, key: T -> int, k: int)
    ensures WithKey(a + b, key, k) == WithKey(a, key, k) + WithKey(b, key, k)
  {
    if a == [] {
      assert a + b == b;
    } else {
      assert (a + b)[1..] == a[1..] + b;
      WithKeyAppend(a[1..], b, key, k);
    }
  }

  /** When every element has key `k`, the key class of `k` is the whole sequence. */
  lemma {:induction false} WithKeyOfConstant<T>(s: seq<T>, key: T -> int, k: int)
    requires forall i :: 0 <= i < |s| ==> key(s[i]) == k
    ensures WithKey(s, key, k) == s
  {
    if s != [] {
      WithKeyOfConstant(s[1..], key, k);
      assert s == [s[0]] + s[1..];
    }
  }

  lemma WithKeyHead<T>(s: seq<T>, key: T -> int)
    requires s != []
    ensures WithKey(s, key, key(s[0])) == [s[0]] + WithKey(s[1..], key, key(s[0]))
  {
  }

  /** An element of a key class of a descending sequence has that key, at most the head's. */
  lemma WithKeyMember<T>(s: seq<T>, key: T -> int, k: int, x: T)
    requires s != [] && SortedByKeyDesc(s, key) && x in WithKey(s, key, k)
    ensures key(x) == k && key(x) <= key(s[0])
  {
    WithKeyElements(s, key, k, x);
  }

  lemma {:induction false} WithKeyElements<T>(s: seq<T>, key: T -> int, k: int, x: T)
    requires x in WithKey(s, key, k)
    ensures x in s && key(x) == k
  {
    if s != [] && !(key(s[0]) == k && x == s[0]) {
      if key(s[0]) == k {
        assert WithKey(s, key, k) == [s[0]] + WithKey(s[1..], key, k);
      }
      WithKeyElements(s[1..], key, k, x);
    }
  }

  // ---------------------------------------------------------------------
  // mapToInt(key).sum()
  // ---------------------------------------------------------------------

  /** The sum of `key` over the elements, each occurrence counted. */
  function Sum<T>(s: seq<T>, key: T -> int): int {
    if s == [] then 0 else key(s[0]) + Sum(s[1..], key)
  }

  /** The sum over a concatenation is the sum of the sums. */
  lemma {:induction false} SumAppend<T>(a: seq<T>, b: seq<T>, key: T -> int)
    ensures Sum(a + b, key) == Sum(a, key) + Sum(b, key)
  {
    if a == [] {
      assert a + b == b;
    } else {
      assert (a + b)[1..] == a[1..] + b;
      SumAppend(a[1..], b, key);
    }
  }
}
