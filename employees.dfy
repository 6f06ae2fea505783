/**
 * `StreamsJ8.Employee` without its salary, the fixed array `arrayOfEmps`, and
 * `EmployeeRepository.findById`.
 */
module Employees {
  import opened Wrappers
  import opened JavaInt
  import Streams

  datatype Employee = Employee(id: Int32, name: string)

  /** The contents of `arrayOfEmps`. */
  const ArrayOfEmps: seq<Employee> :=
    [Employee(1, "Jeff Bezos"), Employee(2, "Bill Gates"), Employee(3, "Mark Zuckerberg")]

  /** The employee `findById` returns: the first one in `emps` with the given id, if any. */
  function Lookup(emps: seq<Employee>, id: Int32): Option<Employee> {
    if emps == [] then None
    else if emps[0].id == id then Some(emps[0])
    else Lookup(emps[1..], id)
  }

  /** `Lookup` finds the first employee with the id, and finds nothing exactly when no employee has it. */
  lemma {:induction false} LookupSpec(emps: seq<Employee>, id: Int32)
    ensures Lookup(emps, id).None? <==> forall i :: 0 <= i < |emps| ==> emps[i].id != id
    ensures Lookup(emps, id).Some? ==>
      exists k :: (0 <= k < |emps| && emps[k] == Lookup(emps, id).value && emps[k].id == id &&
        forall j :: 0 <= j < k ==> emps[j].id != id)
  {
    if emps != [] && emps[0].id != id {
      LookupSpec(emps[1..], id);
      var r := Lookup(emps, id);
      if r.Some? {
        var k :| 0 <= k < |emps[1..]| && emps[1..][k] == r.value && emps[1..][k].id == id &&
          forall j :: 0 <= j < k ==> emps[1..][j].id != id;
        assert emps[k + 1] == r.value;
      }
    }
  }

  /** `EmployeeRepository.findById`: a scan of the array that returns at the first employee with the
      id, and `null` (here `None`) after the last. */
  method FindById(emps: array<Employee>, id: Int32) returns (r: Option<Employee>)
    ensures r == Lookup(emps[..], id)
    ensures r.None? <==> forall i :: 0 <= i < emps.Length ==> emps[i].id != id
    ensures r.Some? ==> exists k :: (0 <= k < emps.Length && emps[k] == r.value && emps[k].id == id &&
      forall j :: 0 <= j < k ==> emps[j].id != id)
  {
    var i := 0;
    while i < emps.Length
      invariant 0 <= i <= emps.Length
      invariant forall j :: 0 <= j < i ==> emps[j].id != id
      invariant Lookup(emps[..], id) == Lookup(emps[i..], id)
    {
      assert emps[i..][1..] == emps[i + 1..];
      if emps[i].id == id {
        return Some(emps[i]);
      }
      i := i + 1;
    }
    return None;
  }

  // ---------------------------------------------------------------------------------------------
  // `employee.id == id` as written compares two `Integer` references

  /** Whether two `Integer`s boxed independently by autoboxing (`Integer.valueOf`) are the same
      reference under the default cache. Values from -128 to 127 are always shared. Larger
      values are shared only when the cache is enlarged (`-XX:AutoBoxCacheMax`), or when the
      caller passes the employee's own `Integer` object; neither is modelled. */
  predicate SameBoxedInteger(a: Int32, b: Int32) {
    a == b && -128 <= a <= 127
  }

  /** `findById` with the reference comparison it is written with, for an id boxed independently
      of the employees' ids, under the default cache. */
  function LookupAsWritten(emps: seq<Employee>, id: Int32): Option<Employee> {
    if emps == [] then None
    else if SameBoxedInteger(emps[0].id, id) then Some(emps[0])
    else LookupAsWritten(emps[1..], id)
  }

  /** For ids inside the cache the reference comparison agrees with value equality, so the demos,
      whose ids are 1 to 4, are unaffected. */
  lemma {:induction false} LookupAsWrittenSmallIds(emps: seq<Employee>, id: Int32)
    requires -128 <= id <= 127
    ensures LookupAsWritten(emps, id) == Lookup(emps, id)
  {
    if emps != [] {
      LookupAsWrittenSmallIds(emps[1..], id);
    }
  }

  /** For an id outside the cache the reference comparison never succeeds: the scan returns
      `null` whatever the employees. */
  lemma {:induction false} LookupAsWrittenUncachedIds(emps: seq<Employee>, id: Int32)
    requires !(-128 <= id <= 127)
    ensures LookupAsWritten(emps, id) == None
  {
    if emps != [] {
      LookupAsWrittenUncachedIds(emps[1..], id);
    }
  }

  /** Outside the cache an employee whose id equals the one asked for is not found. */
  lemma LookupAsWrittenMissesLargeIds()
    ensures LookupAsWritten([Employee(1000, "Ada Lovelace")], 1000) == None
    ensures Lookup([Employee(1000, "Ada Lovelace")], 1000) == Some(Employee(1000, "Ada Lovelace"))
  {
    var emps := [Employee(1000, "Ada Lovelace")];
    assert emps[1..] == [];
  }

  // ---------------------------------------------------------------------------------------------
  // the comparator `(e1, e2) -> e1.getId() - e2.getId()` of `streamMinMax`

  /** The comparator as written: an `int` subtraction, which wraps around. */
  function SubtractIds(e1: Employee, e2: Employee): int {
    Wrap32(e1.id - e2.id)
  }

  /** The comparator intended: `Integer.compare` on the ids. */
  function CompareIds(e1: Employee, e2: Employee): (r: int)
    ensures r <= 0 <==> e1.id <= e2.id
  {
    Compare(e1.id, e2.id)
  }

  /** With the subtracting comparator, `min` can return an employee whose id is not the least. */
  lemma SubtractIdsMinIsWrong()
    ensures Streams.MinBy([Employee(0x7fff_ffff, "A"), Employee(-1, "B")], SubtractIds) ==
      Some(Employee(0x7fff_ffff, "A"))
  {
    var s := [Employee(0x7fff_ffff, "A"), Employee(-1, "B")];
    assert SubtractIds(s[0], s[1]) == -0x8000_0000;
    assert s[1..][1..] == [];
  }

  /** While every id lies in [-2^30, 2^30), no difference of two ids overflows, so the subtracting
      comparator chooses the same `min` as `Integer.compare`. */
  lemma MinBySubtractIdsSmallIds(emps: seq<Employee>)
    requires forall i :: 0 <= i < |emps| ==> -0x4000_0000 <= emps[i].id < 0x4000_0000
    ensures Streams.MinBy(emps, SubtractIds) == Streams.MinBy(emps, CompareIds)
  {
    forall a, b | a in emps && b in emps
      ensures (SubtractIds(a, b) <= 0) == (CompareIds(a, b) <= 0)
    {
      assert SubtractIds(a, b) == a.id - b.id;
    }
    Streams.MinByAgree(emps, SubtractIds, CompareIds);
  }

  /** `min` by id with the intended comparator: empty only for no employees, and otherwise the
      first employee of least id. */
  lemma MinByIdSpec(emps: seq<Employee>)
    ensures Streams.MinBy(emps, CompareIds).None? <==> emps == []
    ensures emps != [] ==> exists m :: (0 <= m < |emps| && Streams.MinBy(emps, CompareIds) == Some(emps[m]) &&
      (forall j :: 0 <= j < |emps| ==> emps[m].id <= emps[j].id) &&
      (forall j :: 0 <= j < m ==> emps[j].id > emps[m].id))
  {
    if emps != [] {
      Streams.MinByKey(emps, CompareIds, (e: Employee) => e.id as int);
    }
  }
}
