/**
 * EmployeeRepository: the employee table as state changed in place. Each
 * method applies the matching `EmployeeTable` function to the object's
 * fields; the read-only queries leave the fields untouched.
 */
module Repository {
  import opened Employees
  import EmployeeTable

  class EmployeeRepository {
    var rows: map<int, Employee>
    var nextId: int

    /** The table these fields hold. */
    function Snapshot(): EmployeeTable.Table
      reads this
    {
      EmployeeTable.Table(rows, nextId)
    }

    ghost predicate Valid()
      reads this
    {
      EmployeeTable.Valid(Snapshot())
    }

    /** A repository over an empty table whose key counter starts at 1. */
    constructor ()
      ensures Valid() && Snapshot() == EmployeeTable.Empty
    {
      rows := map[];
      nextId := 1;
    }

    method Save(e: Employee) returns (saved: Employee)
      requires Valid()
      modifies this
      ensures Valid()
      ensures (Snapshot(), saved) == EmployeeTable.Save(old(Snapshot()), e)
    {
      if e.id in rows {
        rows := rows[e.id := e];
        saved := e;
      } else {
        saved := e.(id := nextId);
        rows := rows[nextId := saved];
        nextId := nextId + 1;
      }
    }

    method FindById(id: int) returns (r: Option<Employee>)
      ensures r == EmployeeTable.FindById(Snapshot(), id)
    {
      r := if id in rows then Some(rows[id]) else None;
    }

    method FindByEmail(email: string) returns (r: Lookup)
      requires Valid()
      ensures r == EmployeeTable.FindByEmail(Snapshot(), email)
    {
      r := EmployeeTable.FindByEmail(Snapshot(), email);
    }

    method FindByJpql(firstName: string, lastName: string) returns (r: Lookup)
      requires Valid()
      ensures r == EmployeeTable.FindByJpql(Snapshot(), firstName, lastName)
    {
      r := EmployeeTable.FindByJpql(Snapshot(), firstName, lastName);
    }

    method FindAll() returns (all: seq<Employee>)
      requires Valid()
      ensures all == EmployeeTable.FindAll(Snapshot())
    {
      all := EmployeeTable.FindAll(Snapshot());
    }

    method DeleteById(id: int)
      requires Valid()
      modifies this
      ensures Valid()
      ensures Snapshot() == EmployeeTable.DeleteById(old(Snapshot()), id)
    {
      rows := rows - {id};
    }

    method Delete(e: Employee)
      requires Valid()
      modifies this
      ensures Valid()
      ensures Snapshot() == EmployeeTable.Delete(old(Snapshot()), e)
    {
      DeleteById(e.id);
    }

    method DeleteAll()
      requires Valid()
      modifies this
      ensures Valid()
      ensures Snapshot() == EmployeeTable.DeleteAll(old(Snapshot()))
    {
      rows := map[];
    }
  }
}
