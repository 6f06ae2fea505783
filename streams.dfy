/**
 * The sequential semantics of the `java.util.stream` operations that the demos use.
 * A finite stream is a `seq`; an infinite one (from `Stream.iterate`) is the function
 * giving its element at each position. Every intermediate operation becomes a function
 * from stream to stream, every terminal operation a function from stream to result.
 */
module Streams {
  import opened Wrappers

  // ---------------------------------------------------------------------------------------------
  // Order preservation

  /** `a` can be obtained from `b` by deleting elements, keeping the order of the rest.
      Matching each element of `a` with its earliest possible partner in `b` is complete. */
  ghost predicate IsSubsequence<T>(a: seq<T>, b: seq<T>)
    decreases |b|
  {
    if a == [] then true
    else if b == [] then false
    else if a[0] == b[0] then IsSubsequence(a[1..], b[1..])
    else IsSubsequence(a, b[1..])
  }

  lemma {:induction false} SubsequenceLength<T>(a: seq<T>, b: seq<T>)
    requires IsSubsequence(a, b)
    ensures |a| <= |b|
    decreases |b|
  {
    if a != [] {
      if a[0] == b[0] {
        SubsequenceLength(a[1..], b[1..]);
      } else {
        SubsequenceLength(a, b[1..]);
      }
    }
  }

  /** No value occurs twice. */
  ghost predicate NoDuplicates<T>(s: seq<T>) {
    forall i, j :: 0 <= i < j < |s| ==> s[i] != s[j]
  }

  /** Every element of `r` occurs in `s`, and they come in the order of their first occurrences there. */
  ghost predicate InFirstOccurrenceOrder<T>(r: seq<T>, s: seq<T>) {
    (forall x :: x in r ==> x in s) &&
    forall i, j :: 0 <= i < j < |r| ==> FirstIndex(s, r[i]) < FirstIndex(s, r[j])
  }

  /** The position of the first occurrence of `x` in `s`. */
  ghost function FirstIndex<T>(s: seq<T>, x: T): (k: nat)
    requires x in s
    ensures k < |s| && s[k] == x
    ensures forall j :: 0 <= j < k ==> s[j] != x
  {
    if s[0] == x then 0 else 1 + FirstIndex(s[1..], x)
  }

  // ---------------------------------------------------------------------------------------------
  // Predicate combinators (named, so that two pipelines built alike denote the same predicate)

  function Not<T>(p: T -> bool): T -> bool {
    x => !p(x)
  }

  function And<T>(p: T -> bool, q: T -> bool): T -> bool {
    x => p(x) && q(x)
  }

  function KeyIs<T, K(==)>(key: T -> K, k: K): T -> bool {
    x => key(x) == k
  }

  // ---------------------------------------------------------------------------------------------
  // map, filter, findFirst

  /** `map(f)`: one output per input, in input order. */
  function Map<T, U>(s: seq<T>, f: T -> U): (r: seq<U>)
    ensures |r| == |s|
    ensures forall i :: 0 <= i < |s| ==> r[i] == f(s[i])
  {
    if s == [] then [] else [f(s[0])] + Map(s[1..], f)
  }

  /** `filter(p)`: exactly the elements satisfying `p`, in input order. */
  function Filter<T>(s: seq<T>, p: T -> bool): (r: seq<T>)
    ensures |r| <= |s|
  {
    if s == [] then []
    else if p(s[0]) then [s[0]] + Filter(s[1..], p)
    else Filter(s[1..], p)
  }

  /** An element is in the filtered stream exactly when it is in the stream and satisfies `p`. */
  lemma {:induction false} FilterSpec<T>(s: seq<T>, p: T -> bool)
    ensures forall x :: x in Filter(s, p) <==> x in s && p(x)
  {
    if s != [] {
      FilterSpec(s[1..], p);
      assert s == [s[0]] + s[1..];
    }
  }

  lemma {:induction false} FilterIsSubsequence<T>(s: seq<T>, p: T -> bool)
    ensures IsSubsequence(Filter(s, p), s)
  {
    if s != [] {
      FilterIsSubsequence(s[1..], p);
      var r := Filter(s, p);
      if !p(s[0]) && r != [] {
        FilterSpec(s, p);
        assert r[0] in r;
      }
    }
  }

  lemma {:induction false} FilterNone<T>(s: seq<T>, p: T -> bool)
    requires forall i :: 0 <= i < |s| ==> !p(s[i])
    ensures Filter(s, p) == []
  {
    if s != [] {
      FilterNone(s[1..], p);
    }
  }

  /** Filtering a stream that grew by one element at the end. */
  lemma {:induction false} FilterSnoc<T>(s: seq<T>, x: T, p: T -> bool)
    ensures Filter(s + [x], p) == Filter(s, p) + (if p(x) then [x] else [])
  {
    if s == [] {
      assert [] + [x] == [x];
    } else {
      assert (s + [x])[1..] == s[1..] + [x];
      FilterSnoc(s[1..], x, p);
    }
  }

  /** Two filters in a row keep what one filter on the conjunction keeps. */
  lemma {:induction false} FilterFilter<T>(s: seq<T>, p: T -> bool, q: T -> bool)
    ensures Filter(Filter(s, p), q) == Filter(s, And(p, q))
  {
    if s != [] {
      FilterFilter(s[1..], p, q);
      if p(s[0]) {
        assert Filter(s, p)[1..] == Filter(s[1..], p);
      }
    }
  }

  /** Each element passes exactly one of `p` and its negation. */
  lemma {:induction false} FilterSplits<T>(s: seq<T>, p: T -> bool)
    ensures multiset(Filter(s, p)) + multiset(Filter(s, Not(p))) == multiset(s)
  {
    if s != [] {
      FilterSplits(s[1..], p);
      assert s == [s[0]] + s[1..];
    }
  }

  /** Each value occurs in the filtered stream as often as in the stream when it satisfies `p`,
      and not at all otherwise. */
  lemma {:induction false} FilterCount<T>(s: seq<T>, p: T -> bool)
    ensures forall x :: multiset(Filter(s, p))[x] == if p(x) then multiset(s)[x] else 0
  {
    if s != [] {
      FilterCount(s[1..], p);
      assert s == [s[0]] + s[1..];
    }
  }

  /** `filter(Objects::nonNull)`: drops the absent values, keeping the order of the present ones. */
  function NonNull<T>(s: seq<Option<T>>): (r: seq<T>)
    ensures |r| == |Filter(s, IsPresent)|
    ensures forall i :: 0 <= i < |r| ==> Filter(s, IsPresent)[i] == Some(r[i])
  {
    if s == [] then []
    else if s[0].Some? then [s[0].value] + NonNull(s[1..])
    else NonNull(s[1..])
  }

  /** A value survives `filter(Objects::nonNull)` exactly when it was present in the stream. */
  lemma {:induction false} NonNullMembers<T>(s: seq<Option<T>>)
    ensures forall x :: x in NonNull(s) <==> Some(x) in s
  {
    if s != [] {
      NonNullMembers(s[1..]);
      assert s == [s[0]] + s[1..];
    }
  }

  /** Each value occurs after `filter(Objects::nonNull)` as often as it was present before. */
  lemma {:induction false} NonNullCount<T>(s: seq<Option<T>>)
    ensures forall x :: multiset(NonNull(s))[x] == multiset(s)[Some(x)]
  {
    if s != [] {
      NonNullCount(s[1..]);
      assert s == [s[0]] + s[1..];
    }
  }

  /** `findFirst()`: the first element of the stream, or empty. */
  function FindFirst<T>(s: seq<T>): Option<T> {
    if s == [] then None else Some(s[0])
  }

  /** `filter(p).findFirst()` is the earliest element satisfying `p`, and empty exactly when none does. */
  lemma {:induction false} FindFirstOfFilter<T>(s: seq<T>, p: T -> bool)
    ensures FindFirst(Filter(s, p)).None? <==> forall i :: 0 <= i < |s| ==> !p(s[i])
    ensures FindFirst(Filter(s, p)).Some? ==>
      exists k :: 0 <= k < |s| && s[k] == FindFirst(Filter(s, p)).value && p(s[k]) &&
        forall j :: 0 <= j < k ==> !p(s[j])
  {
    if s != [] {
      FindFirstOfFilter(s[1..], p);
      if !p(s[0]) {
        var r := FindFirst(Filter(s, p));
        if r.Some? {
          var k :| 0 <= k < |s[1..]| && s[1..][k] == r.value && p(s[1..][k]) &&
            forall j :: 0 <= j < k ==> !p(s[1..][j]);
          assert s[k + 1] == r.value;
        }
      } else {
        assert s[0] == FindFirst(Filter(s, p)).value;
      }
    }
  }

  // ---------------------------------------------------------------------------------------------
  // distinct

  /** Sequential `distinct()`: an element passes when it is not in the set of values seen so far. */
  function DistinctFrom<T(==)>(s: seq<T>, seen: set<T>): seq<T> {
    if s == [] then []
    else if s[0] in seen then DistinctFrom(s[1..], seen)
    else [s[0]] + DistinctFrom(s[1..], seen + {s[0]})
  }

  function Distinct<T(==)>(s: seq<T>): seq<T> {
    DistinctFrom(s, {})
  }

  /** An element is kept exactly when it occurs and was not seen before. */
  lemma {:induction false} DistinctFromMembers<T>(s: seq<T>, seen: set<T>)
    ensures forall x :: x in DistinctFrom(s, seen) ==> x in s && x !in seen
    ensures forall x :: x in s && x !in seen ==> x in DistinctFrom(s, seen)
  {
    if s != [] {
      assert s == [s[0]] + s[1..];
      if s[0] in seen {
        DistinctFromMembers(s[1..], seen);
      } else {
        DistinctFromMembers(s[1..], seen + {s[0]});
      }
    }
  }

  lemma {:induction false} DistinctFromNoDuplicates<T>(s: seq<T>, seen: set<T>)
    ensures NoDuplicates(DistinctFrom(s, seen))
  {
    if s != [] && s[0] !in seen {
      var t := DistinctFrom(s[1..], seen + {s[0]});
      DistinctFromNoDuplicates(s[1..], seen + {s[0]});
      DistinctFromMembers(s[1..], seen + {s[0]});
      forall j | 0 <= j < |t| ensures t[j] != s[0] {
        assert t[j] in t;
      }
    } else if s != [] {
      DistinctFromNoDuplicates(s[1..], seen);
    }
  }

  /** An element of the tail other than the head is first found one place later in the whole. */
  lemma FirstIndexTail<T>(s: seq<T>, x: T)
    requires s != [] && x in s[1..] && x != s[0]
    ensures x in s && FirstIndex(s, x) == 1 + FirstIndex(s[1..], x)
  {
    var k :| 0 <= k < |s[1..]| && s[1..][k] == x;
    assert s[k + 1] == x;
  }

  lemma {:induction false} DistinctFromOrderAt<T>(s: seq<T>, seen: set<T>, i: nat, j: nat)
    requires i < j < |DistinctFrom(s, seen)|
    ensures DistinctFrom(s, seen)[i] in s && DistinctFrom(s, seen)[j] in s
    ensures FirstIndex(s, DistinctFrom(s, seen)[i]) < FirstIndex(s, DistinctFrom(s, seen)[j])
  {
    var r := DistinctFrom(s, seen);
    var seen' := if s[0] in seen then seen else seen + {s[0]};
    var t := DistinctFrom(s[1..], seen');
    var d := if s[0] in seen then 0 else 1;
    assert r == if s[0] in seen then t else [s[0]] + t;
    DistinctFromMembers(s[1..], seen');
    assert r[j] == t[j - d] && t[j - d] in t;
    FirstIndexTail(s, r[j]);
    if i >= d {
      DistinctFromOrderAt(s[1..], seen', i - d, j - d);
      assert r[i] == t[i - d] && t[i - d] in t;
      FirstIndexTail(s, r[i]);
    } else {
      assert r[i] == s[0];
    }
  }

  /** The kept elements appear in the order of their first occurrences. */
  lemma DistinctFromOrder<T>(s: seq<T>, seen: set<T>)
    ensures InFirstOccurrenceOrder(DistinctFrom(s, seen), s)
  {
    var r := DistinctFrom(s, seen);
    DistinctFromMembers(s, seen);
    forall i, j | 0 <= i < j < |r|
      ensures FirstIndex(s, r[i]) < FirstIndex(s, r[j])
    {
      DistinctFromOrderAt(s, seen, i, j);
    }
  }

  lemma {:induction false} DistinctFromIsSubsequence<T>(s: seq<T>, seen: set<T>)
    ensures IsSubsequence(DistinctFrom(s, seen), s)
  {
    if s != [] {
      var r := DistinctFrom(s, seen);
      if s[0] in seen {
        DistinctFromIsSubsequence(s[1..], seen);
        DistinctFromMembers(s[1..], seen);
        if r != [] {
          assert r[0] in r;
        }
      } else {
        DistinctFromIsSubsequence(s[1..], seen + {s[0]});
        assert r[1..] == DistinctFrom(s[1..], seen + {s[0]});
      }
    }
  }

  /** `distinct()` keeps every value once, at its first occurrence, in the order of first occurrence. */
  lemma DistinctSpec<T>(s: seq<T>)
    ensures forall x :: x in Distinct(s) <==> x in s
    ensures NoDuplicates(Distinct(s))
    ensures InFirstOccurrenceOrder(Distinct(s), s)
    ensures IsSubsequence(Distinct(s), s)
  {
    DistinctFromMembers(s, {});
    DistinctFromNoDuplicates(s, {});
    DistinctFromOrder(s, {});
    DistinctFromIsSubsequence(s, {});
  }

  // ---------------------------------------------------------------------------------------------
  // allMatch, anyMatch, noneMatch

  /** What a short-circuiting matcher answers, and how many elements it applied the predicate to. */
  datatype MatchOutcome = MatchOutcome(answer: bool, pulled: nat)

  /** The position of the first element on which `p` gives `stopOn`, or |s| when there is none. */
  function StopIndex<T>(s: seq<T>, p: T -> bool, stopOn: bool): (k: nat)
    ensures k <= |s|
    ensures forall i :: 0 <= i < k ==> p(s[i]) != stopOn
    ensures k < |s| ==> p(s[k]) == stopOn
  {
    if s == [] then 0
    else if p(s[0]) == stopOn then 0
    else 1 + StopIndex(s[1..], p, stopOn)
  }

  /** `allMatch(p)`: stops at the first element failing `p`. */
  function AllMatch<T>(s: seq<T>, p: T -> bool): (r: MatchOutcome)
    ensures r.answer <==> forall i :: 0 <= i < |s| ==> p(s[i])
    ensures r.pulled <= |s|
    ensures r.answer ==> r.pulled == |s|
    ensures !r.answer ==> 0 < r.pulled && !p(s[r.pulled - 1])
    ensures forall i :: 0 <= i < r.pulled - 1 ==> p(s[i])
  {
    var k := StopIndex(s, p, false);
    if k == |s| then MatchOutcome(true, |s|) else MatchOutcome(false, k + 1)
  }

  /** `anyMatch(p)`: stops at the first element satisfying `p`. */
  function AnyMatch<T>(s: seq<T>, p: T -> bool): (r: MatchOutcome)
    ensures r.answer <==> exists i :: 0 <= i < |s| && p(s[i])
    ensures r.pulled <= |s|
    ensures !r.answer ==> r.pulled == |s|
    ensures r.answer ==> 0 < r.pulled && p(s[r.pulled - 1])
    ensures forall i :: 0 <= i < r.pulled - 1 ==> !p(s[i])
  {
    var k := StopIndex(s, p, true);
    if k == |s| then MatchOutcome(false, |s|) else MatchOutcome(true, k + 1)
  }

  /** `noneMatch(p)`: stops at the first element satisfying `p`. */
  function NoneMatch<T>(s: seq<T>, p: T -> bool): (r: MatchOutcome)
    ensures r.answer <==> forall i :: 0 <= i < |s| ==> !p(s[i])
    ensures r.pulled <= |s|
    ensures r.answer ==> r.pulled == |s|
    ensures !r.answer ==> 0 < r.pulled && p(s[r.pulled - 1])
    ensures forall i :: 0 <= i < r.pulled - 1 ==> !p(s[i])
  {
    var k := StopIndex(s, p, true);
    if k == |s| then MatchOutcome(true, |s|) else MatchOutcome(false, k + 1)
  }

  // ---------------------------------------------------------------------------------------------
  // min(comparator)

  /** `min(compare)`: a left fold of `BinaryOperator.minBy`, which keeps the accumulator when
      `compare(acc, next) <= 0`; empty on an empty stream. */
  function MinBy<T>(s: seq<T>, compare: (T, T) -> int): (r: Option<T>)
    ensures r.None? <==> s == []
  {
    if s == [] then None else Some(FoldMinBy(s[0], s[1..], compare))
  }

  function FoldMinBy<T>(acc: T, rest: seq<T>, compare: (T, T) -> int): T {
    if rest == [] then acc
    else FoldMinBy(if compare(acc, rest[0]) <= 0 then acc else rest[0], rest[1..], compare)
  }

  /** The position of the element `FoldMinBy` ends with, when it starts from position k with
      the elements from position i on still to come. */
  ghost function FoldMinIndex<T>(s: seq<T>, k: nat, i: nat, compare: (T, T) -> int): (m: nat)
    requires k < i <= |s|
    ensures m < |s|
    decreases |s| - i
  {
    if i == |s| then k
    else FoldMinIndex(s, if compare(s[k], s[i]) <= 0 then k else i, i + 1, compare)
  }

  lemma {:induction false} FoldMinByAt<T>(s: seq<T>, k: nat, i: nat, compare: (T, T) -> int)
    requires k < i <= |s|
    ensures FoldMinBy(s[k], s[i..], compare) == s[FoldMinIndex(s, k, i, compare)]
    decreases |s| - i
  {
    if i < |s| {
      assert s[i..][0] == s[i] && s[i..][1..] == s[i + 1..];
      FoldMinByAt(s, if compare(s[k], s[i]) <= 0 then k else i, i + 1, compare);
    }
  }

  /** Under a comparator ordering by `key`, the fold ends at the first position of least key. */
  lemma {:induction false} FoldMinIndexKey<T>(s: seq<T>, k: nat, i: nat, compare: (T, T) -> int, key: T -> int)
    requires forall a, b :: (compare(a, b) <= 0) == (key(a) <= key(b))
    requires k < i <= |s|
    requires forall j :: 0 <= j < i ==> key(s[k]) <= key(s[j])
    requires forall j :: 0 <= j < k ==> key(s[j]) > key(s[k])
    ensures forall j :: 0 <= j < |s| ==> key(s[FoldMinIndex(s, k, i, compare)]) <= key(s[j])
    ensures forall j :: 0 <= j < FoldMinIndex(s, k, i, compare) ==> key(s[j]) > key(s[FoldMinIndex(s, k, i, compare)])
    decreases |s| - i
  {
    if i < |s| {
      if compare(s[k], s[i]) <= 0 {
        FoldMinIndexKey(s, k, i + 1, compare, key);
      } else {
        FoldMinIndexKey(s, i, i + 1, compare, key);
      }
    }
  }

  lemma {:induction false} FoldMinByAgree<T>(acc: T, rest: seq<T>, c1: (T, T) -> int, c2: (T, T) -> int)
    requires forall a, b :: a in [acc] + rest && b in [acc] + rest ==> (c1(a, b) <= 0) == (c2(a, b) <= 0)
    ensures FoldMinBy(acc, rest, c1) == FoldMinBy(acc, rest, c2)
  {
    if rest != [] {
      var next := if c1(acc, rest[0]) <= 0 then acc else rest[0];
      assert forall x :: x in [next] + rest[1..] ==> x in [acc] + rest;
      FoldMinByAgree(next, rest[1..], c1, c2);
    }
  }

  /** Two comparators that agree on the sign test `<= 0` for the elements of a stream give the same `min`. */
  lemma MinByAgree<T>(s: seq<T>, c1: (T, T) -> int, c2: (T, T) -> int)
    requires forall a, b :: a in s && b in s ==> (c1(a, b) <= 0) == (c2(a, b) <= 0)
    ensures MinBy(s, c1) == MinBy(s, c2)
  {
    if s != [] {
      assert [s[0]] + s[1..] == s;
      FoldMinByAgree(s[0], s[1..], c1, c2);
    }
  }

  /** With a comparator that orders by an integer key, `min` gives the first element of least key. */
  lemma MinByKey<T>(s: seq<T>, compare: (T, T) -> int, key: T -> int)
    requires forall a, b :: (compare(a, b) <= 0) == (key(a) <= key(b))
    requires s != []
    ensures exists m :: (0 <= m < |s| && MinBy(s, compare) == Some(s[m]) &&
      (forall j :: 0 <= j < |s| ==> key(s[m]) <= key(s[j])) &&
      (forall j :: 0 <= j < m ==> key(s[j]) > key(s[m])))
  {
    FoldMinByAt(s, 0, 1, compare);
    FoldMinIndexKey(s, 0, 1, compare, key);
    var m := FoldMinIndex(s, 0, 1, compare);
    assert MinBy(s, compare) == Some(s[m]);
  }

  // ---------------------------------------------------------------------------------------------
  // collect(partitioningBy), collect(groupingBy), collect(groupingBy(..., mapping(...)))

  /** `partitioningBy(p)`: both keys always present; each element appended to the list of its key. */
  function PartitioningBy<T>(s: seq<T>, p: T -> bool): (r: map<bool, seq<T>>)
    ensures r.Keys == {true, false}
    decreases |s|
  {
    if s == [] then map[true := [], false := []]
    else
      var m := PartitioningBy(s[..|s| - 1], p);
      var x := s[|s| - 1];
      if p(x) then m[true := m[true] + [x]] else m[false := m[false] + [x]]
  }

  /** Each partition is the filter of the input on its key, so it keeps input order, and every
      element lands in exactly one of them. */
  lemma {:induction false} PartitioningBySpec<T>(s: seq<T>, p: T -> bool)
    ensures PartitioningBy(s, p)[true] == Filter(s, p)
    ensures PartitioningBy(s, p)[false] == Filter(s, Not(p))
    ensures multiset(PartitioningBy(s, p)[true]) + multiset(PartitioningBy(s, p)[false]) == multiset(s)
    decreases |s|
  {
    if s != [] {
      var init, x := s[..|s| - 1], s[|s| - 1];
      assert s == init + [x];
      PartitioningBySpec(init, p);
      FilterSnoc(init, x, p);
      FilterSnoc(init, x, Not(p));
    }
    FilterSplits(s, p);
  }

  /** The partition is determined by the two filters. */
  lemma PartitioningByIsFilters<T>(s: seq<T>, p: T -> bool)
    ensures PartitioningBy(s, p) == map[true := Filter(s, p), false := Filter(s, Not(p))]
  {
    PartitioningBySpec(s, p);
  }

  /** `groupingBy(key)`: each element appended to the list of its key, the list created on first use. */
  function GroupingBy<T, K(==)>(s: seq<T>, key: T -> K): map<K, seq<T>>
    decreases |s|
  {
    if s == [] then map[]
    else
      var m := GroupingBy(s[..|s| - 1], key);
      var x := s[|s| - 1];
      m[key(x) := (if key(x) in m then m[key(x)] else []) + [x]]
  }

  /** One key per classifier value that occurs in the input, and no other. */
  lemma {:induction false} GroupingByKeys<T, K>(s: seq<T>, key: T -> K)
    ensures forall k :: k in GroupingBy(s, key) ==> exists i :: 0 <= i < |s| && key(s[i]) == k
    ensures forall i :: 0 <= i < |s| ==> key(s[i]) in GroupingBy(s, key)
    decreases |s|
  {
    if s != [] {
      var init, x := s[..|s| - 1], s[|s| - 1];
      GroupingByKeys(init, key);
      var m := GroupingBy(init, key);
      assert GroupingBy(s, key).Keys == m.Keys + {key(x)};
      forall k | k in GroupingBy(s, key)
        ensures exists i :: 0 <= i < |s| && key(s[i]) == k
      {
        if k in m {
          var i :| 0 <= i < |init| && key(init[i]) == k;
          assert s[i] == init[i];
        } else {
          assert key(s[|s| - 1]) == k;
        }
      }
      forall i | 0 <= i < |s|
        ensures key(s[i]) in GroupingBy(s, key)
      {
        if i < |init| {
          assert s[i] == init[i];
        }
      }
    }
  }

  /** Each group is the filter of the input on its key, so it lists its elements in input order. */
  lemma {:induction false} GroupingByGroups<T, K>(s: seq<T>, key: T -> K)
    ensures forall k :: k in GroupingBy(s, key) ==> GroupingBy(s, key)[k] == Filter(s, KeyIs(key, k))
    decreases |s|
  {
    if s != [] {
      var init, x := s[..|s| - 1], s[|s| - 1];
      assert s == init + [x];
      GroupingByGroups(init, key);
      GroupingByKeys(init, key);
      var m := GroupingBy(init, key);
      forall k | k in GroupingBy(s, key)
        ensures GroupingBy(s, key)[k] == Filter(s, KeyIs(key, k))
      {
        FilterSnoc(init, x, KeyIs(key, k));
        if k !in m {
          assert forall i :: 0 <= i < |init| ==> !KeyIs(key, k)(init[i]);
          FilterNone(init, KeyIs(key, k));
        }
      }
    }
  }

  /** `groupingBy(key, mapping(f, toList()))`: as `GroupingBy`, appending `f(x)` instead of `x`. */
  function GroupingByMapping<T, K(==), U>(s: seq<T>, key: T -> K, f: T -> U): map<K, seq<U>>
    decreases |s|
  {
    if s == [] then map[]
    else
      var m := GroupingByMapping(s[..|s| - 1], key, f);
      var x := s[|s| - 1];
      m[key(x) := (if key(x) in m then m[key(x)] else []) + [f(x)]]
  }

  /** The `mapping` downstream collector gives, per key, the images of that key's group, in order. */
  lemma {:induction false} GroupingByMappingSpec<T, K, U>(s: seq<T>, key: T -> K, f: T -> U)
    ensures GroupingByMapping(s, key, f).Keys == GroupingBy(s, key).Keys
    ensures forall k :: k in GroupingBy(s, key) ==>
      GroupingByMapping(s, key, f)[k] == Map(GroupingBy(s, key)[k], f)
    decreases |s|
  {
    if s != [] {
      var init, x := s[..|s| - 1], s[|s| - 1];
      GroupingByMappingSpec(init, key, f);
      var g := GroupingBy(init, key);
      forall k | k in GroupingBy(s, key)
        ensures GroupingByMapping(s, key, f)[k] == Map(GroupingBy(s, key)[k], f)
      {
        if k == key(x) {
          var before := if k in g then g[k] else [];
          assert Map(before + [x], f) == Map(before, f) + [f(x)];
        }
      }
    }
  }

  /** The `mapping` collector is the `groupingBy` result with `f` mapped over each group. */
  lemma GroupingByMappingIsMap<T, K, U>(s: seq<T>, key: T -> K, f: T -> U)
    ensures GroupingByMapping(s, key, f) == map k | k in GroupingBy(s, key) :: Map(GroupingBy(s, key)[k], f)
  {
    GroupingByMappingSpec(s, key, f);
  }

  // ---------------------------------------------------------------------------------------------
  // Infinite streams: Stream.iterate, skip, limit

  /** Element `k` of `Stream.iterate(seed, f)`: the seed first, then `f` of the previous element. */
  function IterateAt<T>(seed: T, f: T -> T, k: nat): T {
    if k == 0 then seed else f(IterateAt(seed, f, k - 1))
  }

  function Iterate<T>(seed: T, f: T -> T): nat -> T {
    (k: nat) => IterateAt(seed, f, k)
  }

  /** `skip(n)` on an infinite stream: again an infinite stream, starting n places later. */
  function Skip<T>(g: nat -> T, n: nat): nat -> T {
    (k: nat) => g(n + k)
  }

  /** `limit(n)` on an infinite stream: exactly its first n elements. */
  function Limit<T>(g: nat -> T, n: nat): (r: seq<T>)
    ensures |r| == n
    ensures forall k :: 0 <= k < n ==> r[k] == g(k)
  {
    seq(n, i requires 0 <= i < n => g(i))
  }

  /** Iterating m + k times is iterating k times from the m-th element. */
  lemma {:induction false} IterateShift<T>(seed: T, f: T -> T, m: nat, k: nat)
    ensures IterateAt(seed, f, m + k) == IterateAt(IterateAt(seed, f, m), f, k)
  {
    if k > 0 {
      IterateShift(seed, f, m, k - 1);
    }
  }

  /** `iterate(seed, f).skip(m)` is the stream iterated from element m. */
  lemma SkipIterate<T>(seed: T, f: T -> T, m: nat)
    ensures forall k: nat :: Skip(Iterate(seed, f), m)(k) == Iterate(IterateAt(seed, f, m), f)(k)
  {
    forall k: nat
      ensures Skip(Iterate(seed, f), m)(k) == Iterate(IterateAt(seed, f, m), f)(k)
    {
      IterateShift(seed, f, m, k);
    }
  }

  /** `skip(m).limit(n)` is the window [m, m + n) of the stream. */
  lemma SkipLimitWindow<T>(g: nat -> T, m: nat, n: nat)
    ensures Limit(Skip(g, m), n) == Limit(g, m + n)[m..]
  {
  }
}
