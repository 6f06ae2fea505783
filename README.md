# streams-java-8: a Dafny model of the `StreamsJ8` core

`StreamsJ8` is a tour of `java.util.stream`. The model covers the part of it that computes
something:

- `EmployeeRepository.findById`: a for-each scan of the fixed array `arrayOfEmps` with an early
  return.
- `getPalindrome`: two filters over a stream of words.
- The integer- and employee-valued demo pipelines:
  - `filter` and `findFirst` over `map(findById)`;
  - `Stream.iterate` with `skip` and `limit`;
  - `distinct`;
  - the three short-circuiting matchers;
  - `min` by id;
  - `partitioningBy`, `groupingBy` and `groupingBy(..., mapping(...))`.

Layout:

- `JavaInt` (`java_int.dfy`): Java's 32-bit `int`. It gives the range as `Int32`, the
  two's-complement wrap-around as `Wrap32`, and `Integer.compare`.
- `Wrappers` (`wrappers.dfy`): `Option`, which stands for a nullable reference or an `Optional`.
- `Streams` (`streams.dfy`): the sequential semantics of the stream operations the demos use.
  - A finite stream is a `seq`. An infinite one is the function `nat -> T` giving its element at
    each position.
  - Each stream operation is a function.
  - Each has lemmas stating what it keeps, in which order, and what a short-circuiting terminal
    operation looks at.
- `Strings` (`strings.dfy`): `compareToIgnoreCase` and `StringBuilder.reverse`, on `seq<char>`.
  A `char` is a Unicode scalar value, not a UTF-16 code unit.
- `Employees` (`employees.dfy`):
  - `Employee` with its id and name.
  - `arrayOfEmps`.
  - `findById`, as a method with a loop proved against the function `Lookup`.
  - The two comparisons the findings below are about.
- `StreamsJ8` (`streams_j8.dfy`): `getPalindrome` and each demo pipeline as a composition of the
  `Streams` operations. It has lemmas for the general properties and for the concrete results the
  demos print. The salaries that `streamFilter` and `streamFindFirst` test are a table passed in.
  The demos use the table in force when `main` reaches them, that is after the 10 percent raise
  of `streamForEach`.

## Model

| member | source | states |
|---|---|---|
| JavaInt.Wrap32 | src/main/java/cl/andres/streams/j8/StreamsJ8.java:361 | an `int` result is the mathematical result when that fits in 32 bits, and otherwise differs from it by a multiple of 2^32 |
| JavaInt.Compare | src/main/java/cl/andres/streams/j8/StreamsJ8.java:409 | `Integer.compare` is negative, zero or positive exactly when the first argument is smaller than, equal to or greater than the second |
| Wrappers.IsPresent | src/main/java/cl/andres/streams/j8/StreamsJ8.java:222 | the test `Objects::nonNull`: a value is present; `NonNull` and `NonNullMembers` state what survives it |
| Employees.Employee | src/main/java/cl/andres/streams/j8/StreamsJ8.java:43-79 | the `Employee` class with its id and name; the salary is kept apart, in a table keyed by id (`InitialSalaries`, `SalaryIncrement`) |
| Employees.ArrayOfEmps | src/main/java/cl/andres/streams/j8/StreamsJ8.java:81-85 | the three employees of `arrayOfEmps` with their ids and names, in array order; `LookupDemo` and `GroupsOfArrayOfEmps` state what the demos find in it |
| Employees.LookupSpec | src/main/java/cl/andres/streams/j8/StreamsJ8.java:90-100 | the lookup is empty exactly when no employee has the id; otherwise it is the employee at the first position holding that id |
| Employees.Lookup | src/main/java/cl/andres/streams/j8/StreamsJ8.java:90-100 | the value comparison that replaces `findById`'s reference comparison (first finding); `LookupSpec` states what it finds |
| Employees.FindById | src/main/java/cl/andres/streams/j8/StreamsJ8.java:90-100 | the loop over the array returns the first employee with the id, and `null` (None) exactly when there is none; the result equals `Lookup` on the array's contents |
| Employees.LookupAsWrittenSmallIds | src/main/java/cl/andres/streams/j8/StreamsJ8.java:94 | with `==` on boxed `Integer`s, the scan still finds the first employee with the id when the id is between -128 and 127 |
| Employees.SameBoxedInteger | src/main/java/cl/andres/streams/j8/StreamsJ8.java:94 | `==` on two independently boxed `Integer`s under the default cache: true exactly for equal values from -128 to 127; `LookupAsWrittenSmallIds` and `LookupAsWrittenUncachedIds` state what the scan then finds |
| Employees.LookupAsWritten | src/main/java/cl/andres/streams/j8/StreamsJ8.java:94 | the scan with reference comparison of independently boxed ids under the default cache; specified by `LookupAsWrittenSmallIds` and `LookupAsWrittenUncachedIds` |
| Employees.LookupAsWrittenMissesLargeIds | src/main/java/cl/andres/streams/j8/StreamsJ8.java:94 | with `==` on boxed `Integer`s, an employee with id 1000 is not found by id 1000, although the value lookup finds it |
| Employees.LookupAsWrittenUncachedIds | src/main/java/cl/andres/streams/j8/StreamsJ8.java:94 | for any id outside -128 to 127, the scan with `==` returns `null`, whatever the employees |
| Employees.CompareIds | src/main/java/cl/andres/streams/j8/StreamsJ8.java:409 | the intended id comparator says "not greater" exactly when the first id is at most the second |
| Employees.SubtractIds | src/main/java/cl/andres/streams/j8/StreamsJ8.java:409 | the comparator as written, `e1.getId() - e2.getId()` with 32-bit wrap-around; specified by `MinBySubtractIdsSmallIds` and `SubtractIdsMinIsWrong` |
| Employees.MinBySubtractIdsSmallIds | src/main/java/cl/andres/streams/j8/StreamsJ8.java:408-410 | while every id lies in [-2^30, 2^30), `min` with the subtracting comparator equals `min` with `Integer.compare` |
| Employees.SubtractIdsMinIsWrong | src/main/java/cl/andres/streams/j8/StreamsJ8.java:408-410 | with the subtracting comparator, `min` over ids MAX_VALUE and -1 returns the employee with id MAX_VALUE |
| Employees.MinByIdSpec | src/main/java/cl/andres/streams/j8/StreamsJ8.java:408-410 | `min` by id is empty exactly on no employees; otherwise it is the first employee of least id |
| Streams.Map | src/main/java/cl/andres/streams/j8/StreamsJ8.java:220-221 | `map(f)` has one output per input, and output i is f of input i |
| Streams.Filter | src/main/java/cl/andres/streams/j8/StreamsJ8.java:222-223 | `filter(p)` is no longer than its input; `FilterSpec` and `FilterIsSubsequence` state what it keeps and in which order |
| Streams.FilterSpec | src/main/java/cl/andres/streams/j8/StreamsJ8.java:211-224 | a value is in `filter(p)` exactly when it is in the stream and satisfies p |
| Streams.FilterCount | src/main/java/cl/andres/streams/j8/StreamsJ8.java:222-223 | a value occurs in `filter(p)` as often as in the stream when it satisfies p, and not at all otherwise |
| Streams.FilterIsSubsequence | src/main/java/cl/andres/streams/j8/StreamsJ8.java:211-213 | `filter` keeps the surviving elements in their original order (a subsequence) |
| Streams.FilterFilter | src/main/java/cl/andres/streams/j8/StreamsJ8.java:222-223 | two filters in a row equal one filter on the conjunction |
| Streams.FilterSplits | src/main/java/cl/andres/streams/j8/StreamsJ8.java:659-662 | filtering by p and by not-p together account for every element exactly once (as multisets) |
| Streams.NonNull | src/main/java/cl/andres/streams/j8/StreamsJ8.java:222 | `filter(Objects::nonNull)` gives the contents of the present values, position by position, in order |
| Streams.NonNullMembers | src/main/java/cl/andres/streams/j8/StreamsJ8.java:222 | a value survives `filter(Objects::nonNull)` exactly when it was present in the stream |
| Streams.NonNullCount | src/main/java/cl/andres/streams/j8/StreamsJ8.java:222 | a value occurs after `filter(Objects::nonNull)` as often as it was present before |
| Streams.FindFirst | src/main/java/cl/andres/streams/j8/StreamsJ8.java:253 | `findFirst()`; `FindFirstOfFilter` states what it gives after a filter |
| Streams.FindFirstOfFilter | src/main/java/cl/andres/streams/j8/StreamsJ8.java:241-254 | `filter(p).findFirst()` is empty exactly when no element satisfies p; otherwise it is the element at the first position satisfying p |
| Streams.DistinctFromMembers | src/main/java/cl/andres/streams/j8/StreamsJ8.java:429-430 | with the values already seen, `distinct` lets a value through exactly when it occurs and was not seen |
| Streams.DistinctFromNoDuplicates | src/main/java/cl/andres/streams/j8/StreamsJ8.java:429-430 | `distinct` output has no repeated value |
| Streams.DistinctFromOrderAt | src/main/java/cl/andres/streams/j8/StreamsJ8.java:429-440 | of two output positions, the earlier holds the value whose first occurrence in the input comes earlier |
| Streams.DistinctFromOrder | src/main/java/cl/andres/streams/j8/StreamsJ8.java:429-440 | `distinct` outputs values in the order of their first occurrences |
| Streams.DistinctFromIsSubsequence | src/main/java/cl/andres/streams/j8/StreamsJ8.java:429-440 | `distinct` output is a subsequence of its input |
| Streams.DistinctSpec | src/main/java/cl/andres/streams/j8/StreamsJ8.java:429-440 | `distinct()` has the same values as its input, each once, in the order of first occurrence, as a subsequence of the input |
| Streams.DistinctFrom | src/main/java/cl/andres/streams/j8/StreamsJ8.java:429-430 | sequential `distinct` with the set of values seen so far; specified by the `DistinctFrom…` lemmas |
| Streams.Distinct | src/main/java/cl/andres/streams/j8/StreamsJ8.java:429-440 | `distinct()`; `DistinctSpec` states its values, uniqueness and order |
| Streams.StopIndex | src/main/java/cl/andres/streams/j8/StreamsJ8.java:450-451 | the stop position is the first one where the predicate gives the deciding answer, or the length when none does |
| Streams.AllMatch | src/main/java/cl/andres/streams/j8/StreamsJ8.java:453-454 | `allMatch` answers whether every element satisfies p; when false it has tested exactly up to and including the first failing element, otherwise all elements |
| Streams.AnyMatch | src/main/java/cl/andres/streams/j8/StreamsJ8.java:456-457 | `anyMatch` answers whether some element satisfies p; when true it has tested exactly up to and including the first satisfying element, otherwise all elements |
| Streams.NoneMatch | src/main/java/cl/andres/streams/j8/StreamsJ8.java:459-460 | `noneMatch` answers whether no element satisfies p; when false it has tested exactly up to and including the first satisfying element, otherwise all elements |
| Streams.FoldMinBy | src/main/java/cl/andres/streams/j8/StreamsJ8.java:409 | the `BinaryOperator.minBy` reduction `min` runs, keeping the accumulator on `<= 0`; `FoldMinByAt`, `FoldMinIndexKey` and `FoldMinByAgree` state it |
| Streams.MinBy | src/main/java/cl/andres/streams/j8/StreamsJ8.java:401-402 | `min` is empty exactly on an empty stream |
| Streams.FoldMinByAt | src/main/java/cl/andres/streams/j8/StreamsJ8.java:408-410 | the `minBy` fold ends with the element at a definite position of the stream |
| Streams.FoldMinIndexKey | src/main/java/cl/andres/streams/j8/StreamsJ8.java:408-410 | under a comparator ordering by an integer key, that position holds a least key, and every earlier position a greater one |
| Streams.MinByKey | src/main/java/cl/andres/streams/j8/StreamsJ8.java:408-410 | `min` with a comparator ordering by an integer key returns the first element of least key |
| Streams.MinByAgree | src/main/java/cl/andres/streams/j8/StreamsJ8.java:408-410 | two comparators that agree on the `<= 0` test over the stream's elements give the same `min` |
| Streams.PartitioningBy | src/main/java/cl/andres/streams/j8/StreamsJ8.java:659-668 | `partitioningBy` always has exactly the keys true and false |
| Streams.PartitioningBySpec | src/main/java/cl/andres/streams/j8/StreamsJ8.java:659-668 | the true list is `filter(p)` and the false list `filter(not p)`, so each keeps input order; together they hold each element exactly once |
| Streams.PartitioningByIsFilters | src/main/java/cl/andres/streams/j8/StreamsJ8.java:659-668 | the partition is the two-key map of those two filters |
| Streams.GroupingByKeys | src/main/java/cl/andres/streams/j8/StreamsJ8.java:676-685 | `groupingBy` has a key exactly for each classifier value that some element has |
| Streams.GroupingBy | src/main/java/cl/andres/streams/j8/StreamsJ8.java:684-685 | `groupingBy(key)`; `GroupingByKeys` and `GroupingByGroups` state its keys and groups |
| Streams.GroupingByGroups | src/main/java/cl/andres/streams/j8/StreamsJ8.java:676-685 | each group is the filter of the input on its key, so it lists its elements in input order |
| Streams.GroupingByMappingSpec | src/main/java/cl/andres/streams/j8/StreamsJ8.java:688-701 | `groupingBy(key, mapping(f, toList()))` has the same keys as `groupingBy(key)`, and each list is f mapped over that key's group |
| Streams.GroupingByMappingIsMap | src/main/java/cl/andres/streams/j8/StreamsJ8.java:688-701 | the `mapping` result is the `groupingBy` map with f mapped over each group |
| Streams.GroupingByMapping | src/main/java/cl/andres/streams/j8/StreamsJ8.java:699-701 | `groupingBy(key, mapping(f, toList()))`; `GroupingByMappingSpec` relates it to `GroupingBy` |
| Streams.Limit | src/main/java/cl/andres/streams/j8/StreamsJ8.java:820-821 | `limit(n)` on an infinite stream has exactly n elements, the first n of the stream |
| Streams.IterateAt | src/main/java/cl/andres/streams/j8/StreamsJ8.java:361 | element k of `iterate(seed, f)`: the seed, then f of the previous element; `IterateShift` relates its positions |
| Streams.Iterate | src/main/java/cl/andres/streams/j8/StreamsJ8.java:361 | `Stream.iterate(seed, f)` as the function from position to element; `SkipIterate` states it after `skip` |
| Streams.Skip | src/main/java/cl/andres/streams/j8/StreamsJ8.java:364 | `skip(n)` on an infinite stream; `SkipIterate` and `SkipLimitWindow` state it |
| Streams.IterateShift | src/main/java/cl/andres/streams/j8/StreamsJ8.java:817-818 | element m + k of `iterate(seed, f)` is element k of the iteration started from element m |
| Streams.SkipIterate | src/main/java/cl/andres/streams/j8/StreamsJ8.java:361-364 | `iterate(seed, f).skip(m)` is, position by position, `iterate` from element m |
| Streams.SkipLimitWindow | src/main/java/cl/andres/streams/j8/StreamsJ8.java:363-366 | `skip(m).limit(n)` is positions m to m + n - 1 of the stream |
| Strings.FoldCase | src/main/java/cl/andres/streams/j8/StreamsJ8.java:906 | the case folding maps upper-case ASCII letters to lower-case ones, leaves every other character alone, and never yields an upper-case letter |
| Strings.FoldCaseEqual | src/main/java/cl/andres/streams/j8/StreamsJ8.java:906 | two characters fold alike exactly when they are equal or are the upper- and lower-case forms of one ASCII letter |
| Strings.Reverse | src/main/java/cl/andres/streams/j8/StreamsJ8.java:906 | `new StringBuilder(s).reverse().toString()`; `ReverseInvolution` and `PalindromeIgnoreCaseIff` state it |
| Strings.ReverseInvolution | src/main/java/cl/andres/streams/j8/StreamsJ8.java:906 | reversing a string twice gives it back |
| Strings.CompareToIgnoreCaseZero | src/main/java/cl/andres/streams/j8/StreamsJ8.java:906 | `compareToIgnoreCase` is 0 exactly when the lengths agree and the characters agree position by position after folding |
| Strings.CompareToIgnoreCase | src/main/java/cl/andres/streams/j8/StreamsJ8.java:906 | `compareToIgnoreCase`; `CompareToIgnoreCaseZero` states when it is 0 |
| Strings.IsPalindromeIgnoreCase | src/main/java/cl/andres/streams/j8/StreamsJ8.java:906 | the test `s.compareToIgnoreCase(reverse(s)) == 0`; `PalindromeIgnoreCaseIff` states it character by character |
| Strings.PalindromeIgnoreCaseIff | src/main/java/cl/andres/streams/j8/StreamsJ8.java:906 | a string compares equal to its reverse ignoring case exactly when each character folds like its mirror image |
| StreamsJ8.HasLength | src/main/java/cl/andres/streams/j8/StreamsJ8.java:905 | the test `s.length() == length`; `GetPalindromeSpec` states its effect |
| StreamsJ8.GetPalindromeSpec | src/main/java/cl/andres/streams/j8/StreamsJ8.java:903-908 | a word is in the result exactly when it is an input word of the given length equal to its reverse ignoring case, and it occurs there as often as in the input; the two filters equal one filter on the conjunction |
| StreamsJ8.GetPalindromeKeepsOrder | src/main/java/cl/andres/streams/j8/StreamsJ8.java:903-908 | the result is a subsequence of the input, hence no longer than it |
| StreamsJ8.GetPalindrome | src/main/java/cl/andres/streams/j8/StreamsJ8.java:903-908 | the two filters of `getPalindrome`; specified by `GetPalindromeSpec` and `GetPalindromeKeepsOrder` |
| StreamsJ8.PalindromeWords | src/main/java/cl/andres/streams/j8/StreamsJ8.java:855-861 | of the four five-letter words, "refer" and "level" are palindromes ignoring case, "hello" and "world" are not |
| StreamsJ8.Words | src/main/java/cl/andres/streams/j8/StreamsJ8.java:855-861 | the five words `streamFileWrite` writes and `streamFileRead` reads back; `PalindromeDemo` states the palindromes among them |
| StreamsJ8.PalindromeDemo | src/main/java/cl/andres/streams/j8/StreamsJ8.java:892 | `getPalindrome` on the written words with length 5 gives ["refer", "level"] |
| StreamsJ8.InitialSalaries | src/main/java/cl/andres/streams/j8/StreamsJ8.java:82-84 | the salaries the constructors set, by id: 100000, 200000 and 300000 |
| StreamsJ8.SalaryIncrement | src/main/java/cl/andres/streams/j8/StreamsJ8.java:54-55 | `salaryIncrement(amount)` applied to every employee, as the `forEach` at :138 does; specified by `SalaryIncrementSpec` |
| StreamsJ8.SalaryIncrementSpec | src/main/java/cl/andres/streams/j8/StreamsJ8.java:54-55 | every employee keeps a salary, and one whose raise is a whole number grows by exactly `amount` percent |
| StreamsJ8.RaisedSalaries | src/main/java/cl/andres/streams/j8/StreamsJ8.java:138 | when `main` reaches `streamFilter` (:19-22), this `forEach` has raised the salaries to 110000, 220000 and 330000 |
| StreamsJ8.SalariesInMain | src/main/java/cl/andres/streams/j8/StreamsJ8.java:138 | the salaries after `streamForEach`'s raise, which `RaisedSalaries` states |
| StreamsJ8.EarnsMoreThan | src/main/java/cl/andres/streams/j8/StreamsJ8.java:223 | the test `e.getSalary() > threshold` against a salary table; `EmployeesEarningMoreThanSpec` states its effect |
| StreamsJ8.FindInArrayOfEmps | src/main/java/cl/andres/streams/j8/StreamsJ8.java:221 | `EmployeeRepository::findById` on `arrayOfEmps`, as the pipelines call it; `LookupSpec` and `LookupDemo` state what it finds |
| StreamsJ8.EmployeesEarningMoreThan | src/main/java/cl/andres/streams/j8/StreamsJ8.java:218-224 | the pipeline over a given salary table; specified by `EmployeesEarningMoreThanSpec` |
| StreamsJ8.EmployeesEarningMoreThanSpec | src/main/java/cl/andres/streams/j8/StreamsJ8.java:218-224 | for any salary table, the `map(findById).filter(nonNull).filter(salary > t)` pipeline keeps exactly the employees found for some id whose salary exceeds t, each once for every id that finds it: the conjunction of `EmployeesEarningMoreThanMembers` and `EmployeesEarningMoreThanCount` |
| StreamsJ8.EmployeesEarningMoreThanMembers | src/main/java/cl/andres/streams/j8/StreamsJ8.java:218-224 | an employee is in the result exactly when some id finds it and its salary exceeds the threshold |
| StreamsJ8.EmployeesEarningMoreThanCount | src/main/java/cl/andres/streams/j8/StreamsJ8.java:218-224 | each employee occurs in the result once for every id that finds it when its salary exceeds the threshold, and otherwise not at all |
| StreamsJ8.EmpIds | src/main/java/cl/andres/streams/j8/StreamsJ8.java:218 | the ids `{ 1, 2, 3, 4 }` that `streamFilter` and `streamFindFirst` (:247) look up; `LookupDemo` states what each finds |
| StreamsJ8.LookupDemo | src/main/java/cl/andres/streams/j8/StreamsJ8.java:218-221 | ids 1, 2, 3 find the three employees, id 4 finds nothing |
| StreamsJ8.NonNullOfLookups | src/main/java/cl/andres/streams/j8/StreamsJ8.java:220-222 | after `filter(Objects::nonNull)` the stream is `arrayOfEmps` |
| StreamsJ8.StreamFilterDemo | src/main/java/cl/andres/streams/j8/StreamsJ8.java:218-224 | as `main` runs it, after the raise, the employees with salary above 200000 are [Bill Gates, Mark Zuckerberg] |
| StreamsJ8.StreamFindFirstDemo | src/main/java/cl/andres/streams/j8/StreamsJ8.java:247-254 | as `main` runs it, after the raise, the first employee with salary above 100000 is Jeff Bezos |
| StreamsJ8.StreamFilterUnraisedDemo | src/main/java/cl/andres/streams/j8/StreamsJ8.java:218-224 | with the constructor salaries, the employees with salary above 200000 are [Mark Zuckerberg] |
| StreamsJ8.StreamFindFirstUnraisedDemo | src/main/java/cl/andres/streams/j8/StreamsJ8.java:247-254 | with the constructor salaries, the first employee with salary above 100000 is Bill Gates |
| StreamsJ8.TimesTwo | src/main/java/cl/andres/streams/j8/StreamsJ8.java:361 | the lambda `i -> i * 2` on an `Integer`, wrapping at 32 bits; `DoublingElement` and `DoublingOverflow` state its iterates |
| StreamsJ8.DoublingElement | src/main/java/cl/andres/streams/j8/StreamsJ8.java:817-818 | element k of `iterate(2, i -> i * 2)` is 2^(k+1) for k below 30 |
| StreamsJ8.DoublingOverflow | src/main/java/cl/andres/streams/j8/StreamsJ8.java:827 | element 30 of `iterate(2, i -> i * 2)` has wrapped to MIN_VALUE, and every later element is 0 |
| StreamsJ8.DoublingWindow | src/main/java/cl/andres/streams/j8/StreamsJ8.java:361-366 | `skip(m).limit(n)` of the doubling stream has exactly n elements, the powers 2^(m+1) to 2^(m+n), for m + n <= 30 (before the wrap at element 30, which `DoublingOverflow` states) |
| StreamsJ8.StreamIterateDemo | src/main/java/cl/andres/streams/j8/StreamsJ8.java:827-831 | `iterate(2, i -> i * 2).limit(5)` is [2, 4, 8, 16, 32] |
| StreamsJ8.StreamInfiniteDemo | src/main/java/cl/andres/streams/j8/StreamsJ8.java:361-366 | `iterate(2, i -> i * 2).skip(3).limit(5)` is [16, 32, 64, 128, 256] |
| StreamsJ8.IsEven | src/main/java/cl/andres/streams/j8/StreamsJ8.java:468 | the lambda `i % 2 == 0` of `allMatch`, `anyMatch` and `partitioningBy` (:668) |
| StreamsJ8.IsMultipleOfThree | src/main/java/cl/andres/streams/j8/StreamsJ8.java:470 | the lambda `i % 3 == 0` of `noneMatch` |
| StreamsJ8.IntList | src/main/java/cl/andres/streams/j8/StreamsJ8.java:466 | the list `[2, 4, 5, 6, 8]` of the matchers and of `partitioningBy` (:665); `AllMatchDemo`, `AnyMatchDemo`, `NoneMatchDemo` and `PartitionDemo` use it |
| StreamsJ8.DistinctDemo | src/main/java/cl/andres/streams/j8/StreamsJ8.java:436-440 | `distinct` of [2, 5, 3, 2, 4, 3] is [2, 5, 3, 4] |
| StreamsJ8.AllMatchDemo | src/main/java/cl/andres/streams/j8/StreamsJ8.java:466-468 | `allMatch(even)` on [2, 4, 5, 6, 8] is false after testing three elements (it stops at 5) |
| StreamsJ8.AnyMatchDemo | src/main/java/cl/andres/streams/j8/StreamsJ8.java:466-469 | `anyMatch(even)` is true after testing the first element |
| StreamsJ8.NoneMatchDemo | src/main/java/cl/andres/streams/j8/StreamsJ8.java:466-470 | `noneMatch(multiple of 3)` is false after testing four elements (it stops at 6) |
| StreamsJ8.EvensOfIntList | src/main/java/cl/andres/streams/j8/StreamsJ8.java:665-668 | the even values of [2, 4, 5, 6, 8] are [2, 4, 6, 8] |
| StreamsJ8.OddsOfIntList | src/main/java/cl/andres/streams/j8/StreamsJ8.java:665-668 | the odd values of [2, 4, 5, 6, 8] are [5] |
| StreamsJ8.PartitionDemo | src/main/java/cl/andres/streams/j8/StreamsJ8.java:665-670 | `partitioningBy(even)` on [2, 4, 5, 6, 8] is {true: [2, 4, 6, 8], false: [5]} |
| StreamsJ8.MinByIdDemo | src/main/java/cl/andres/streams/j8/StreamsJ8.java:408-410 | `min` over `arrayOfEmps` with the comparator as written (the subtraction) is Jeff Bezos |
| StreamsJ8.Initial | src/main/java/cl/andres/streams/j8/StreamsJ8.java:685 | `e.getName().charAt(0)`, the group key, for a non-empty name; `GroupingDemo` states the keys of `arrayOfEmps` |
| StreamsJ8.GetId | src/main/java/cl/andres/streams/j8/StreamsJ8.java:701 | `Employee::getId`; `GroupIdsByInitialSpec` and `MappingDemo` state its effect |
| StreamsJ8.AllNamed | src/main/java/cl/andres/streams/j8/StreamsJ8.java:685 | every name is non-empty, the condition under which `charAt(0)` (:685, :700) does not throw; `GroupByInitial`, `GroupIdsByInitial` and `GroupIdsByInitialSpec` depend on it |
| StreamsJ8.GroupByInitial | src/main/java/cl/andres/streams/j8/StreamsJ8.java:684-685 | `groupingBy(e -> e.getName().charAt(0))`, or None when a name is empty and `charAt(0)` throws; `GroupingDemo` and `GroupIdsByInitialSpec` state it |
| StreamsJ8.GroupIdsByInitial | src/main/java/cl/andres/streams/j8/StreamsJ8.java:699-701 | `groupingBy(initial, mapping(getId, toList()))`, or None when a name is empty and `charAt(0)` throws; `GroupIdsByInitialSpec` relates it to `GroupByInitial` |
| StreamsJ8.GroupIdsByInitialSpec | src/main/java/cl/andres/streams/j8/StreamsJ8.java:684-701 | grouping ids by initial fails exactly when grouping employees by initial fails (an empty name); otherwise it has the same keys, and each list is the ids of that group |
| StreamsJ8.GroupsOfArrayOfEmps | src/main/java/cl/andres/streams/j8/StreamsJ8.java:684-685 | grouping `arrayOfEmps` by initial gives J, B and M, each with its one employee |
| StreamsJ8.GroupingDemo | src/main/java/cl/andres/streams/j8/StreamsJ8.java:684-686 | `groupingBy(initial)` over `arrayOfEmps` is {J: [Jeff Bezos], B: [Bill Gates], M: [Mark Zuckerberg]} |
| StreamsJ8.MappingDemo | src/main/java/cl/andres/streams/j8/StreamsJ8.java:699-702 | `groupingBy(initial, mapping(getId))` over `arrayOfEmps` is {J: [1], B: [2], M: [3]} |

## Left out

- Console output (`System.out.println` throughout) and `main`. They only print results. Of
  `main`, only its order matters to the model: `streamForEach` runs before `streamFilter` and
  `streamFindFirst`, which is why those demos use the raised salaries.
- File I/O in `streamFileWrite` / `streamFileRead` (`PrintWriter`, `Files.lines`, `IOException`).
  The words written are a constant, and `getPalindrome` is applied to them directly.
- Salaries. `double` salary arithmetic is not modelled: `average`, `reduce(0.0, Double::sum)`,
  the summary statistics, `reducing` and `max` by salary.
  - `Employee` holds only its id and name.
  - The salary filters of `streamFilter` and `streamFindFirst` read a whole-number table keyed by
    id. For the array's salaries, before and after one 10 percent raise, every value is a whole
    number and the `double` arithmetic is exact.
- StreamsJ8.SalaryIncrement: the raise that `forEach(e -> e.salaryIncrement(10.0))` makes by
  updating each shared `Employee` in place is modelled as a new salary table. The model does not
  capture the in-place update or the aliasing through the static array. It also tracks no raise
  after `streamFindFirst` (`streamPeek`, `streamParallel`): only salary demos that are left out
  depend on those. `double` rounding of a raise that is not a whole number is not modelled.
- `parallel().forEach` and `Stream.generate(Math::random)`: concurrency and randomness.
- Laziness and single use. A stream is modelled as its sequence of elements, and an infinite
  stream as the function from position to element. What a short-circuiting matcher looks at is
  stated as a count (`MatchOutcome.pulled`).
- Container conversions (`toArray`, `toSet`, `toCollection`, `joining`), the stream-creation
  examples, and the `sorted`-by-name demo, which depends on `String.compareTo`.
- Strings.FoldCase: folds only the ASCII letters. `compareToIgnoreCase` folds every letter that
  has an upper and a lower case, through `Character.toUpperCase` and then `toLowerCase`.
- StreamsJ8.GetPalindromeSpec: lengths count Unicode scalar values, where `String.length()` counts
  UTF-16 code units. A word with a supplementary character is measured differently; for example
  "\U{1F600}" has length 1 in the model and 2 in Java. A lone surrogate cannot be represented.
  On text without supplementary characters the two agree.
- StreamsJ8.Initial: takes the first scalar value of the name. For a name that starts with a
  supplementary character, `charAt(0)` gives the high surrogate instead.
- Streams.Skip, Streams.Limit: take `nat` counts. The `IllegalArgumentException` Java raises on a
  negative count is not modelled.
- Employees.FindById: takes the array as a parameter, where the source reads the static field
  `arrayOfEmps`. Its comparison is by value; the reference comparison the source writes is the
  first finding below.
- The `orElseThrow(NoSuchElementException::new)` of `streamMinMax` is not modelled, because
  `arrayOfEmps` is not empty. `MinBy` answers `None` on an empty stream.
- `groupingBy` on an employee with an empty name: `charAt(0)` throws and the whole collection
  aborts. `GroupByInitial` and `GroupIdsByInitial` model the exception as `None`.

## Findings

| source | as written | input that shows it | evidently intended | confidence | as-written member | corrected member |
|---|---|---|---|---|---|---|
| src/main/java/cl/andres/streams/j8/StreamsJ8.java:94 | `employee.id == id` compares two `Integer` references. Under the default auto-boxing cache, two independently boxed values are the same object only from -128 to 127 | an employee with id 1000 looked up by `findById(1000)`, the 1000 boxed separately, returns `null` | compare the values (`employee.id.equals(id)`), returning the first employee with that id | not executed | Employees.LookupAsWrittenMissesLargeIds | Employees.FindById |
| src/main/java/cl/andres/streams/j8/StreamsJ8.java:409 | the comparator `e1.getId() - e2.getId()` subtracts in 32-bit `int`, which overflows | ids 2147483647 and -1: the difference wraps to -2147483648, so `min` returns the employee with id 2147483647 | `Integer.compare(e1.getId(), e2.getId())`, so that `min` returns the least id | not executed | Employees.SubtractIdsMinIsWrong | Employees.MinByIdSpec |
