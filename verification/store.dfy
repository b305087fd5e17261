/**
 The application's collection operations (`useAppState`): add, update and
 delete as pure functions over the employee sequence, and the integer part
 of the statistics panel. The fresh id `generateId` would draw from the
 clock and a random source is a parameter.
 */
module Store {
  import opened Wrappers
  import opened Seqs
  import opened Records

  /** `addEmployee`: a copy of the record with the fresh id, appended at the end. */
  function AddEmployee(employees: seq<Employee>, e: Employee, freshId: int): (r: seq<Employee>)
    ensures |r| == |employees| + 1
    ensures r[..|employees|] == employees
    ensures r[|employees|] == e.(id := freshId)
  {
    employees + [e.(id := freshId)]
  }

  /** `updateEmployee`: every record carrying the updated record's id is replaced by it. */
  function UpdateEmployee(employees: seq<Employee>, updated: Employee): (r: seq<Employee>)
    ensures |r| == |employees|
    ensures forall i :: 0 <= i < |r| ==> r[i].id == employees[i].id
    ensures forall i :: 0 <= i < |r| && employees[i].id != updated.id ==> r[i] == employees[i]
    ensures forall i :: 0 <= i < |r| && employees[i].id == updated.id ==> r[i] == updated
  {
    seq(|employees|, i requires 0 <= i < |employees| => if employees[i].id == updated.id then updated else employees[i])
  }

  /** The test `deleteEmployee` hands to `filter`. */
  function KeepOthers(id: int): Employee -> bool {
    (e: Employee) => e.id != id
  }

  /** `deleteEmployee`: the records with another id, in order. */
  function DeleteEmployee(employees: seq<Employee>, id: int): (r: seq<Employee>)
    ensures IsSubsequence(r, employees)
    ensures forall e :: e in r <==> e in employees && e.id != id
    ensures !HasId(r, id)
    ensures forall e :: multiset(r)[e] == if e.id != id then multiset(employees)[e] else 0
  {
    var r := Filter(employees, KeepOthers(id));
    FilterIsSubsequence(employees, KeepOthers(id));
    forall e ensures multiset(r)[e] == if e.id != id then multiset(employees)[e] else 0 {
      FilterMultiset(employees, KeepOthers(id), e);
    }
    assert forall i :: 0 <= i < |r| ==> r[i] in r;
    r
  }

  /** A record whose id is fresh keeps ids unique. */
  lemma AddKeepsIdsUnique(employees: seq<Employee>, e: Employee, freshId: int)
    requires IdsUnique(employees) && !HasId(employees, freshId)
    ensures IdsUnique(AddEmployee(employees, e, freshId))
  {
    var r := AddEmployee(employees, e, freshId);
    forall i, j | 0 <= i < j < |r| ensures r[i].id != r[j].id {
      assert r[i] == employees[i];
      if j < |employees| {
        assert r[j] == employees[j];
      }
    }
  }

  /** Deleting the fresh id again undoes an add. */
  lemma DeleteUndoesAdd(employees: seq<Employee>, e: Employee, freshId: int)
    requires !HasId(employees, freshId)
    ensures DeleteEmployee(AddEmployee(employees, e, freshId), freshId) == employees
  {
    var a := AddEmployee(employees, e, freshId);
    FilterKeepAll(employees, KeepOthers(freshId));
    FilterAppend(employees, [e.(id := freshId)], KeepOthers(freshId));
  }

  /** Updating with an id no record carries leaves the collection as it is. */
  lemma UpdateAbsentIsIdentity(employees: seq<Employee>, updated: Employee)
    requires !HasId(employees, updated.id)
    ensures UpdateEmployee(employees, updated) == employees
  {
  }

  /** Updating with a present id puts the updated record in the collection. */
  lemma UpdatePresentStores(employees: seq<Employee>, updated: Employee)
    requires HasId(employees, updated.id)
    ensures updated in UpdateEmployee(employees, updated)
  {
    var i :| 0 <= i < |employees| && employees[i].id == updated.id;
    assert UpdateEmployee(employees, updated)[i] == updated;
  }

  /** Update keeps every id in place, so it keeps ids unique. */
  lemma UpdateKeepsIdsUnique(employees: seq<Employee>, updated: Employee)
    requires IdsUnique(employees)
    ensures IdsUnique(UpdateEmployee(employees, updated))
  {
  }

  /** Updating twice with the same record is updating once. */
  lemma UpdateIdempotent(employees: seq<Employee>, updated: Employee)
    ensures UpdateEmployee(UpdateEmployee(employees, updated), updated) == UpdateEmployee(employees, updated)
  {
  }

  /** Deleting is idempotent. */
  lemma DeleteIdempotent(employees: seq<Employee>, id: int)
    ensures DeleteEmployee(DeleteEmployee(employees, id), id) == DeleteEmployee(employees, id)
  {
    FilterIdempotent(employees, KeepOthers(id));
  }

  /** Deleting an absent id changes nothing. */
  lemma DeleteAbsentIsIdentity(employees: seq<Employee>, id: int)
    requires !HasId(employees, id)
    ensures DeleteEmployee(employees, id) == employees
  {
    FilterKeepAll(employees, KeepOthers(id));
  }

  /** A subsequence of a collection with unique ids has unique ids. */
  lemma {:induction false} SubsequenceKeepsIdsUnique(a: seq<Employee>, b: seq<Employee>)
    requires IsSubsequence(a, b) && IdsUnique(b)
    ensures IdsUnique(a)
    decreases |b|
  {
    if |a| > 0 {
      assert IdsUnique(b[1..]) by {
        forall i, j | 0 <= i < j < |b[1..]| ensures b[1..][i].id != b[1..][j].id {
          assert b[1..][i] == b[i + 1] && b[1..][j] == b[j + 1];
        }
      }
      if a[0] == b[0] {
        SubsequenceKeepsIdsUnique(a[1..], b[1..]);
        forall j | 0 < j < |a| ensures a[0].id != a[j].id {
          assert a[j] in a[1..];
          SubsequenceMembers(a[1..], b[1..], a[j]);
          var k :| 0 <= k < |b[1..]| && b[1..][k] == a[j];
          assert b[k + 1] == a[j];
        }
      } else {
        SubsequenceKeepsIdsUnique(a, b[1..]);
      }
    }
  }

  lemma {:induction false} SubsequenceMembers<T>(a: seq<T>, b: seq<T>, x: T)
    requires IsSubsequence(a, b) && x in a
    ensures x in b
    decreases |b|
  {
    if a[0] == b[0] {
      if x != a[0] {
        assert x in a[1..];
        SubsequenceMembers(a[1..], b[1..], x);
      }
    } else {
      SubsequenceMembers(a, b[1..], x);
    }
  }

  /** Delete keeps ids unique. */
  lemma DeleteKeepsIdsUnique(employees: seq<Employee>, id: int)
    requires IdsUnique(employees)
    ensures IdsUnique(DeleteEmployee(employees, id))
  {
    SubsequenceKeepsIdsUnique(DeleteEmployee(employees, id), employees);
  }

  /** The department values occurring in the collection; a missing department is a value of its own. */
  function DepartmentSet(employees: seq<Employee>): set<Option<string>> {
    set i | 0 <= i < |employees| :: employees[i].department
  }

  /** The integer part of `getEmployeeStats`: the head count and the number of distinct departments. */
  method EmployeeStats(employees: seq<Employee>) returns (totalEmployees: nat, departments: nat)
    ensures totalEmployees == |employees|
    ensures departments == |DepartmentSet(employees)|
    ensures departments <= totalEmployees
    ensures employees == [] ==> departments == 0
  {
    totalEmployees := |employees|;
    var unique: seq<Option<string>> := [];
    for i := 0 to |employees|
      invariant NoDup(unique)
      invariant |unique| <= i
      invariant ToSet(unique) == DepartmentSet(employees[..i])
    {
      var d := employees[i].department;
      assert DepartmentSet(employees[..i + 1]) == DepartmentSet(employees[..i]) + {d} by {
        assert forall k :: 0 <= k < i ==> employees[..i + 1][k] == employees[..i][k];
        assert employees[..i + 1][i].department == d;
      }
      if d !in unique {
        unique := unique + [d];
      }
    }
    assert employees[..|employees|] == employees;
    NoDupCardinality(unique);
    departments := |unique|;
  }
}
