/**
 * `StreamsJ8`: `getPalindrome` and the integer- and employee-valued demo pipelines, each stated
 * as a composition of the `Streams` operations, with the results the demos compute.
 */
module StreamsJ8 {
  import opened Wrappers
  import opened JavaInt
  import opened Streams
  import opened Strings
  import opened Employees

  // ---------------------------------------------------------------------------------------------
  // getPalindrome

  function HasLength(n: int): string -> bool {
    s => |s| == n
  }

  /** `getPalindrome(stream, length)`: the strings of the given length that equal their reverse
      ignoring case. */
  function GetPalindrome(words: seq<string>, length: int): seq<string> {
    Filter(Filter(words, HasLength(length)), IsPalindromeIgnoreCase)
  }

  /** A word is in the result exactly when it is an input word of the given length that equals
      its reverse ignoring case, and it occurs there as often as in the input. The two filters
      are one filter on the conjunction of the two tests. */
  lemma GetPalindromeSpec(words: seq<string>, length: int)
    ensures forall w :: w in GetPalindrome(words, length) <==>
      w in words && |w| == length && IsPalindromeIgnoreCase(w)
    ensures forall w ::
      multiset(GetPalindrome(words, length))[w] ==
        (if |w| == length && IsPalindromeIgnoreCase(w) then multiset(words)[w] else 0)
    ensures GetPalindrome(words, length) == Filter(words, And(HasLength(length), IsPalindromeIgnoreCase))
  {
    FilterSpec(words, HasLength(length));
    FilterSpec(Filter(words, HasLength(length)), IsPalindromeIgnoreCase);
    FilterFilter(words, HasLength(length), IsPalindromeIgnoreCase);
    FilterCount(words, And(HasLength(length), IsPalindromeIgnoreCase));
  }

  /** The result keeps input order: it is a subsequence of the input, hence no longer than it. */
  lemma GetPalindromeKeepsOrder(words: seq<string>, length: int)
    ensures IsSubsequence(GetPalindrome(words, length), words)
    ensures |GetPalindrome(words, length)| <= |words|
  {
    FilterFilter(words, HasLength(length), IsPalindromeIgnoreCase);
    FilterIsSubsequence(words, And(HasLength(length), IsPalindromeIgnoreCase));
    SubsequenceLength(GetPalindrome(words, length), words);
  }

  /** The words `streamFileWrite` writes, one per line, and `streamFileRead` reads back. */
  const Words: seq<string> := ["hello", "refer", "world", "level", "another"]

  lemma PalindromeDemo()
    ensures GetPalindrome(Words, 5) == ["refer", "level"]
  {
    assert Filter(Words, HasLength(5)) == ["hello", "refer", "world", "level"];
    PalindromeWords();
  }

  lemma PalindromeWords()
    ensures !IsPalindromeIgnoreCase("hello") && IsPalindromeIgnoreCase("refer")
    ensures !IsPalindromeIgnoreCase("world") && IsPalindromeIgnoreCase("level")
  {
    assert Reverse("hello") == "olleh";
    assert Reverse("refer") == "refer";
    assert Reverse("world") == "dlrow";
    assert Reverse("level") == "level";
  }

  // ---------------------------------------------------------------------------------------------
  // streamFilter, streamFindFirst: map(findById), filter(nonNull), filter(salary > threshold)

  /** The salaries the constructors of `arrayOfEmps` set, in whole units, by id. */
  const InitialSalaries: map<Int32, int> := map[1 := 100000, 2 := 200000, 3 := 300000]

  /** `salaryIncrement(amount)` on every employee, as the `forEach` of `streamForEach` applies it:
      each salary becomes `salary + salary * amount / 100`. */
  function SalaryIncrement(salaries: map<Int32, int>, amount: int): map<Int32, int> {
    map id | id in salaries :: salaries[id] + salaries[id] * amount / 100
  }

  /** Every employee keeps a salary, and a salary whose raise is a whole number grows by exactly
      `amount` percent. */
  lemma SalaryIncrementSpec(salaries: map<Int32, int>, amount: int)
    ensures SalaryIncrement(salaries, amount).Keys == salaries.Keys
    ensures forall id :: id in salaries && (salaries[id] * amount) % 100 == 0 ==>
      100 * SalaryIncrement(salaries, amount)[id] == salaries[id] * (100 + amount)
  {
    forall id | id in salaries && (salaries[id] * amount) % 100 == 0
      ensures 100 * SalaryIncrement(salaries, amount)[id] == salaries[id] * (100 + amount)
    {
      var s := salaries[id];
      var q := s * amount / 100;
      assert s * amount == 100 * q;
      assert s * (100 + amount) == 100 * s + s * amount;
    }
  }

  /** The salaries when `main` reaches `streamFilter` and `streamFindFirst`: `streamForEach`, which
      runs first, has raised every salary of the shared `arrayOfEmps` by 10 percent. */
  const SalariesInMain: map<Int32, int> := SalaryIncrement(InitialSalaries, 10)

  lemma RaisedSalaries()
    ensures SalariesInMain == map[1 := 110000, 2 := 220000, 3 := 330000]
  {
    SalaryIncrementSpec(InitialSalaries, 10);
    var m := SalariesInMain;
    assert m.Keys == {1, 2, 3};
    assert m[1] == 110000 && m[2] == 220000 && m[3] == 330000;
  }

  function EarnsMoreThan(salaries: map<Int32, int>, threshold: int): Employee -> bool {
    (e: Employee) => e.id in salaries && salaries[e.id] > threshold
  }

  function FindInArrayOfEmps(id: Int32): Option<Employee> {
    Lookup(ArrayOfEmps, id)
  }

  /** `Stream.of(empIds).map(findById).filter(nonNull).filter(salary > threshold)`, with the
      salaries in force. */
  function EmployeesEarningMoreThan(salaries: map<Int32, int>, empIds: seq<Int32>, threshold: int): seq<Employee> {
    Filter(NonNull(Map(empIds, FindInArrayOfEmps)), EarnsMoreThan(salaries, threshold))
  }

  /** The pipeline keeps exactly the employees found for some id whose salary exceeds the
      threshold, each as many times as the ids find it. */
  lemma EmployeesEarningMoreThanSpec(salaries: map<Int32, int>, empIds: seq<Int32>, threshold: int)
    ensures forall e :: e in EmployeesEarningMoreThan(salaries, empIds, threshold) <==>
      e.id in salaries && salaries[e.id] > threshold &&
      exists i :: 0 <= i < |empIds| && FindInArrayOfEmps(empIds[i]) == Some(e)
    ensures forall e ::
      multiset(EmployeesEarningMoreThan(salaries, empIds, threshold))[e] ==
        (if e.id in salaries && salaries[e.id] > threshold
         then multiset(Map(empIds, FindInArrayOfEmps))[Some(e)] else 0)
  {
    EmployeesEarningMoreThanMembers(salaries, empIds, threshold);
    EmployeesEarningMoreThanCount(salaries, empIds, threshold);
  }

  /** An employee is in the pipeline's result exactly when some id finds it and its salary
      exceeds the threshold. */
  lemma EmployeesEarningMoreThanMembers(salaries: map<Int32, int>, empIds: seq<Int32>, threshold: int)
    ensures forall e :: e in EmployeesEarningMoreThan(salaries, empIds, threshold) <==>
      e.id in salaries && salaries[e.id] > threshold &&
      exists i :: 0 <= i < |empIds| && FindInArrayOfEmps(empIds[i]) == Some(e)
  {
    var found := Map(empIds, FindInArrayOfEmps);
    NonNullMembers(found);
    FilterSpec(NonNull(found), EarnsMoreThan(salaries, threshold));
    forall e ensures Some(e) in found <==> exists i :: 0 <= i < |empIds| && FindInArrayOfEmps(empIds[i]) == Some(e) {
      if Some(e) in found {
        var i :| 0 <= i < |found| && found[i] == Some(e);
        assert FindInArrayOfEmps(empIds[i]) == Some(e);
      }
    }
  }

  /** Each employee occurs in the pipeline's result once for every id that finds it, when its
      salary exceeds the threshold, and not at all otherwise. */
  lemma EmployeesEarningMoreThanCount(salaries: map<Int32, int>, empIds: seq<Int32>, threshold: int)
    ensures forall e ::
      multiset(EmployeesEarningMoreThan(salaries, empIds, threshold))[e] ==
        (if e.id in salaries && salaries[e.id] > threshold
         then multiset(Map(empIds, FindInArrayOfEmps))[Some(e)] else 0)
  {
    var found := Map(empIds, FindInArrayOfEmps);
    NonNullCount(found);
    FilterCount(NonNull(found), EarnsMoreThan(salaries, threshold));
  }

  /** The ids `streamFilter` and `streamFindFirst` look up; 4 has no employee. */
  const EmpIds: seq<Int32> := [1, 2, 3, 4]

  lemma LookupDemo()
    ensures Map(EmpIds, FindInArrayOfEmps) ==
      [Some(ArrayOfEmps[0]), Some(ArrayOfEmps[1]), Some(ArrayOfEmps[2]), None]
  {
  }

  /** Id 4 finds no employee, so only the three employees of `arrayOfEmps` reach the salary filter. */
  lemma NonNullOfLookups()
    ensures NonNull(Map(EmpIds, FindInArrayOfEmps)) == ArrayOfEmps
  {
    LookupDemo();
    var a, b, c := ArrayOfEmps[0], ArrayOfEmps[1], ArrayOfEmps[2];
    var none: Option<Employee> := None;
    assert NonNull([none]) == [] && NonNull([Some(c), none]) == [c];
    assert NonNull([Some(b), Some(c), none]) == [b, c];
    assert NonNull([Some(a), Some(b), Some(c), None]) == [a, b, c];
  }

  /** As `main` runs it, after the raise: Bill Gates (220000) and Mark Zuckerberg (330000). */
  lemma StreamFilterDemo()
    ensures EmployeesEarningMoreThan(SalariesInMain, EmpIds, 200000) ==
      [Employee(2, "Bill Gates"), Employee(3, "Mark Zuckerberg")]
  {
    NonNullOfLookups();
    RaisedSalaries();
  }

  /** As `main` runs it, after the raise: Jeff Bezos (110000) is already above 100000. */
  lemma StreamFindFirstDemo()
    ensures FindFirst(EmployeesEarningMoreThan(SalariesInMain, EmpIds, 100000)) == Some(Employee(1, "Jeff Bezos"))
  {
    NonNullOfLookups();
    RaisedSalaries();
  }

  /** `streamFilter` on an `arrayOfEmps` that no raise has touched. */
  lemma StreamFilterUnraisedDemo()
    ensures EmployeesEarningMoreThan(InitialSalaries, EmpIds, 200000) == [Employee(3, "Mark Zuckerberg")]
  {
    NonNullOfLookups();
  }

  /** `streamFindFirst` on an `arrayOfEmps` that no raise has touched. */
  lemma StreamFindFirstUnraisedDemo()
    ensures FindFirst(EmployeesEarningMoreThan(InitialSalaries, EmpIds, 100000)) == Some(Employee(2, "Bill Gates"))
  {
    NonNullOfLookups();
  }

  // ---------------------------------------------------------------------------------------------
  // streamIterate, streamInfinite: Stream.iterate(2, i -> i * 2)

  /** The lambda `i -> i * 2` on an `Integer`. */
  function TimesTwo(i: Int32): Int32 {
    Wrap32(i * 2)
  }

  function Pow2(n: nat): int {
    if n == 0 then 1 else 2 * Pow2(n - 1)
  }

  lemma {:induction false} Pow2Monotonic(a: nat, b: nat)
    requires a <= b
    ensures 0 < Pow2(a) <= Pow2(b)
    decreases b
  {
    if a < b {
      Pow2Monotonic(a, b - 1);
    } else if a > 0 {
      Pow2Monotonic(a - 1, a - 1);
    }
  }

  lemma Pow2Thirty()
    ensures Pow2(30) == 0x4000_0000
  {
    assert Pow2(10) == 1024;
    assert Pow2(20) == 0x10_0000;
  }

  /** Element k of `iterate(2, i -> i * 2)` is 2 to the power k + 1, while that fits in an `int`. */
  lemma {:induction false} DoublingElement(k: nat)
    requires k < 30
    ensures IterateAt(2, TimesTwo, k) == Pow2(k + 1)
  {
    if k > 0 {
      DoublingElement(k - 1);
      Pow2Monotonic(k + 1, 30);
      Pow2Thirty();
    }
  }

  /** From element 30 on, the doubling has wrapped around: MIN_VALUE, then 0 for ever. */
  lemma {:induction false} DoublingOverflow(k: nat)
    requires k >= 30
    ensures IterateAt(2, TimesTwo, k) == if k == 30 then MinInt32 else 0
  {
    if k == 30 {
      DoublingElement(29);
      Pow2Thirty();
    } else {
      DoublingOverflow(k - 1);
    }
  }

  /** `iterate(2, i -> i * 2).skip(m).limit(n)` lists the powers of two from 2^(m+1) to
      2^(m+n), and has exactly n elements, for windows ending before the wrap at element 30. */
  lemma DoublingWindow(m: nat, n: nat)
    requires m + n <= 30
    ensures |Limit(Skip(Iterate(2, TimesTwo), m), n)| == n
    ensures forall k :: 0 <= k < n ==> Limit(Skip(Iterate(2, TimesTwo), m), n)[k] == Pow2(m + k + 1)
  {
    forall k | 0 <= k < n
      ensures Limit(Skip(Iterate(2, TimesTwo), m), n)[k] == Pow2(m + k + 1)
    {
      DoublingElement(m + k);
    }
  }

  lemma StreamIterateDemo()
    ensures Limit(Iterate(2, TimesTwo), 5) == [2, 4, 8, 16, 32]
  {
    DoublingWindow(0, 5);
    assert Skip(Iterate(2, TimesTwo), 0)(0) == Iterate(2, TimesTwo)(0);
    assert Limit(Skip(Iterate(2, TimesTwo), 0), 5) == Limit(Iterate(2, TimesTwo), 5);
  }

  lemma StreamInfiniteDemo()
    ensures Limit(Skip(Iterate(2, TimesTwo), 3), 5) == [16, 32, 64, 128, 256]
  {
    DoublingWindow(3, 5);
    assert Pow2(4) == 16 && Pow2(8) == 256;
  }

  // ---------------------------------------------------------------------------------------------
  // streamDistinct, streamAllMatchAnyMatchNoneMatch, partitioningBy

  /** `i % 2 == 0`. Java's `%` truncates where Dafny's is Euclidean, but both leave 0 exactly on
      the multiples, so the tests agree on negative operands too. */
  predicate IsEven(i: int) {
    i % 2 == 0
  }

  /** `i % 3 == 0`. */
  predicate IsMultipleOfThree(i: int) {
    i % 3 == 0
  }

  const IntList: seq<int> := [2, 4, 5, 6, 8]

  lemma DistinctDemo()
    ensures Distinct([2, 5, 3, 2, 4, 3]) == [2, 5, 3, 4]
  {
    assert {} + {2} == {2} && {2} + {5} == {2, 5} && {2, 5} + {3} == {2, 5, 3};
    assert DistinctFrom([2, 4, 3], {2, 5, 3}) == [4];
    assert DistinctFrom([5, 3, 2, 4, 3], {2}) == [5, 3, 4];
  }

  /** allMatch stops at 5 (the third element), anyMatch after the first, noneMatch at 6 (the fourth). */
  lemma AllMatchDemo()
    ensures AllMatch(IntList, IsEven) == MatchOutcome(false, 3)
  {
    assert IsEven(2) && IsEven(4) && !IsEven(5);
    assert StopIndex(IntList, IsEven, false) == 2;
  }

  lemma AnyMatchDemo()
    ensures AnyMatch(IntList, IsEven) == MatchOutcome(true, 1)
  {
    assert IsEven(2);
    assert StopIndex(IntList, IsEven, true) == 0;
  }

  lemma NoneMatchDemo()
    ensures NoneMatch(IntList, IsMultipleOfThree) == MatchOutcome(false, 4)
  {
    assert !IsMultipleOfThree(2) && !IsMultipleOfThree(4) && !IsMultipleOfThree(5) && IsMultipleOfThree(6);
    assert StopIndex(IntList, IsMultipleOfThree, true) == 3;
  }

  lemma EvensOfIntList()
    ensures Filter(IntList, IsEven) == [2, 4, 6, 8]
  {
  }

  /** The odd values of `intList`: only 5. */
  lemma OddsOfIntList()
    ensures Filter(IntList, Not(IsEven)) == [5]
  {
    var odd := Not(IsEven);
    assert IsEven(2) && IsEven(4) && !IsEven(5) && IsEven(6) && IsEven(8);
    assert !odd(2) && !odd(4) && odd(5) && !odd(6) && !odd(8);
    assert Filter([6, 8], odd) == [];
  }

  lemma PartitionDemo()
    ensures PartitioningBy(IntList, IsEven) == map[true := [2, 4, 6, 8], false := [5]]
  {
    PartitioningByIsFilters(IntList, IsEven);
    EvensOfIntList();
    OddsOfIntList();
  }

  // ---------------------------------------------------------------------------------------------
  // streamMinMax (by id), groupingBy(initial), groupingBy(initial, mapping(getId))

  /** `min` with the subtracting comparator as written, over `arrayOfEmps`, whose ids are far
      from overflowing. */
  lemma MinByIdDemo()
    ensures MinBy(ArrayOfEmps, SubtractIds) == Some(Employee(1, "Jeff Bezos"))
  {
    MinBySubtractIdsSmallIds(ArrayOfEmps);
  }

  /** `e.getName().charAt(0)`, for a non-empty name: its first character (a whole code point,
      where `charAt` gives the first UTF-16 unit). */
  function Initial(e: Employee): char {
    if |e.name| > 0 then e.name[0] else '\0'
  }

  function GetId(e: Employee): Int32 {
    e.id
  }

  /** `charAt(0)` throws on an empty name, which aborts the whole collection (`None`). */
  predicate AllNamed(emps: seq<Employee>) {
    forall i :: 0 <= i < |emps| ==> |emps[i].name| > 0
  }

  /** `collect(groupingBy(e -> e.getName().charAt(0)))`. */
  function GroupByInitial(emps: seq<Employee>): Option<map<char, seq<Employee>>> {
    if AllNamed(emps) then Some(GroupingBy(emps, Initial)) else None
  }

  /** `collect(groupingBy(e -> e.getName().charAt(0), mapping(Employee::getId, toList())))`. */
  function GroupIdsByInitial(emps: seq<Employee>): Option<map<char, seq<Int32>>> {
    if AllNamed(emps) then Some(GroupingByMapping(emps, Initial, GetId)) else None
  }

  /** The ids grouped by initial are, key by key, the ids of the employees grouped by initial. */
  lemma GroupIdsByInitialSpec(emps: seq<Employee>)
    ensures GroupIdsByInitial(emps).None? <==> GroupByInitial(emps).None?
    ensures GroupByInitial(emps).Some? ==>
      GroupIdsByInitial(emps).value.Keys == GroupByInitial(emps).value.Keys &&
      forall c :: c in GroupByInitial(emps).value ==>
        GroupIdsByInitial(emps).value[c] == Map(GroupByInitial(emps).value[c], GetId)
  {
    GroupingByMappingSpec(emps, Initial, GetId);
  }

  /** Each employee of `arrayOfEmps` has an initial of its own, so each group has one element. */
  lemma GroupsOfArrayOfEmps()
    ensures GroupingBy(ArrayOfEmps, Initial) ==
      map['J' := [ArrayOfEmps[0]], 'B' := [ArrayOfEmps[1]], 'M' := [ArrayOfEmps[2]]]
  {
    GroupingByKeys(ArrayOfEmps, Initial);
    GroupingByGroups(ArrayOfEmps, Initial);
    var g := GroupingBy(ArrayOfEmps, Initial);
    assert Initial(ArrayOfEmps[0]) == 'J' && Initial(ArrayOfEmps[1]) == 'B' && Initial(ArrayOfEmps[2]) == 'M';
    assert g.Keys == {'J', 'B', 'M'};
    assert Filter(ArrayOfEmps, KeyIs(Initial, 'J')) == [ArrayOfEmps[0]];
    assert Filter(ArrayOfEmps, KeyIs(Initial, 'B')) == [ArrayOfEmps[1]];
    assert Filter(ArrayOfEmps, KeyIs(Initial, 'M')) == [ArrayOfEmps[2]];
  }

  lemma GroupingDemo()
    ensures GroupByInitial(ArrayOfEmps) == Some(map[
      'J' := [Employee(1, "Jeff Bezos")],
      'B' := [Employee(2, "Bill Gates")],
      'M' := [Employee(3, "Mark Zuckerberg")]])
  {
    assert AllNamed(ArrayOfEmps);
    GroupsOfArrayOfEmps();
  }

  lemma IdsOfGroups(g: map<char, seq<Employee>>)
    requires g == map['J' := [ArrayOfEmps[0]], 'B' := [ArrayOfEmps[1]], 'M' := [ArrayOfEmps[2]]]
    ensures (map c | c in g :: Map(g[c], GetId)) == map['J' := [1], 'B' := [2], 'M' := [3]]
  {
    var ids := map c | c in g :: Map(g[c], GetId);
    assert ids.Keys == {'J', 'B', 'M'};
    assert ids['J'] == Map([ArrayOfEmps[0]], GetId) == [1];
    assert ids['B'] == Map([ArrayOfEmps[1]], GetId) == [2];
    assert ids['M'] == Map([ArrayOfEmps[2]], GetId) == [3];
  }

  lemma MappingDemo()
    ensures GroupIdsByInitial(ArrayOfEmps) == Some(map['J' := [1], 'B' := [2], 'M' := [3]])
  {
    assert AllNamed(ArrayOfEmps);
    GroupsOfArrayOfEmps();
    GroupingByMappingIsMap(ArrayOfEmps, Initial, GetId);
    IdsOfGroups(GroupingBy(ArrayOfEmps, Initial));
  }
}
