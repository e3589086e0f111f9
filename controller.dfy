/**
 * EmployeeController with the HTTP plumbing stripped away: each handler
 * maps what the service gives back to a status and an optional body, or
 * lets a service failure escape unmapped.
 */
module Controller {
  import opened Employees
  import opened EmployeeTable
  import EmployeeService

  datatype Status = Created | Ok | NotFound

  /** The HTTP status code each status stands for. */
  function Code(s: Status): int {
    match s
    case Created => 201
    case Ok => 200
    case NotFound => 404
  }

  datatype Body = NoBody | Record(employee: Employee) | Records(employees: seq<Employee>)

  /** A response the handler builds, or a service failure it does not handle. */
  datatype Outcome = Reply(status: Status, body: Body) | Raised(error: ServiceError)

  /**
   * `createEmployee` (POST): the service's saved record with status 201. A
   * service failure escapes as it is; no conflict status exists.
   */
  function CreateEmployee(t: Table, e: Employee): (r: (Table, Outcome))
    requires Valid(t)
    ensures Valid(r.0)
    ensures r.1.Reply? <==> EmailFree(t, e.email)
    ensures r.1.Reply? ==> r.1.status == Created && r.1.body.Record?
                           && (r.0, r.1.body.employee) == Save(t, e)
    ensures r.1.Raised? ==> r.0 == t
    ensures r.1.Raised? ==> EmployeeService.SaveEmployee(t, e).1 == Failure(r.1.error)
    ensures r.1.Raised? ==>
      (r.1.error == DuplicateEmail(e.email) <==>
        forall a, b :: a in t.rows && b in t.rows && t.rows[a].email == e.email && t.rows[b].email == e.email ==> a == b)
    ensures r.1.Raised? && EmailsDistinct(t) ==> r.1.error == DuplicateEmail(e.email)
    ensures EmailsDistinct(t) ==> EmailsDistinct(r.0)
  {
    EmployeeService.SaveEmployeeKeepsEmailsDistinct(t, e);
    var (t', saved) := EmployeeService.SaveEmployee(t, e);
    match saved
    case Success(s) => (t', Reply(Created, Record(s)))
    case Failure(err) => (t', Raised(err))
  }

  /** `getAllEmployees` (GET): the service's listing, unchanged, with status 200. */
  function GetAllEmployees(t: Table): (r: Outcome)
    requires Valid(t)
    ensures r.Reply? && r.status == Ok && r.body.Records?
    ensures r.body.employees == EmployeeService.GetAllEmployees(t)
    ensures forall e :: e in r.body.employees <==> FindById(t, e.id) == Some(e)
    ensures |r.body.employees| == |t.rows|
    ensures t.rows == map[] ==> r.body.employees == []
  {
    Reply(Ok, Records(EmployeeService.GetAllEmployees(t)))
  }

  /** `getEmployeeById` (GET by id): 200 with the record, or 404 with no body. */
  function GetEmployeeById(t: Table, id: int): (r: Outcome)
    requires Valid(t)
    ensures r.Reply?
    ensures r.status == Ok <==> id in t.rows
    ensures r.status == Ok ==> r.body.Record? && FindById(t, id) == Some(r.body.employee)
    ensures r.status != Ok ==> r.status == NotFound && r.body == NoBody
  {
    match EmployeeService.GetEmployeeById(t, id)
    case Some(e) => Reply(Ok, Record(e))
    case None => Reply(NotFound, NoBody)
  }

  /**
   * `updateEmployee` (PUT by id): the path id is only checked for presence.
   * Absent, the answer is 404 and the service's update is not called;
   * present, the payload, with its own id, is written whole and returned
   * with status 200.
   */
  function UpdateEmployee(t: Table, pathId: int, payload: Employee): (r: (Table, Outcome))
    requires Valid(t)
    ensures Valid(r.0)
    ensures pathId !in t.rows ==> r == (t, Reply(NotFound, NoBody))
    ensures pathId in t.rows ==> r.1.Reply? && r.1.status == Ok && r.1.body.Record?
                                 && (r.0, r.1.body.employee) == EmployeeService.UpdateEmployee(t, payload)
    ensures pathId in t.rows ==>
      var stored := r.1.body.employee;
      && stored.firstName == payload.firstName && stored.lastName == payload.lastName
      && stored.email == payload.email
      && FindById(r.0, stored.id) == Some(stored)
  {
    match EmployeeService.GetEmployeeById(t, pathId)
    case Some(_) =>
      var (t', updated) := EmployeeService.UpdateEmployee(t, payload);
      (t', Reply(Ok, Record(updated)))
    case None => (t, Reply(NotFound, NoBody))
  }

  /** Which stored id the PUT names does not matter, only that it is stored. */
  lemma UpdateIgnoresWhichPathId(t: Table, p1: int, p2: int, payload: Employee)
    requires Valid(t) && p1 in t.rows && p2 in t.rows
    ensures UpdateEmployee(t, p1, payload) == UpdateEmployee(t, p2, payload)
  {
  }

  /**
   * A payload whose id names another stored row overwrites that row; the
   * row the path names is left as it was.
   */
  lemma UpdateWritesPayloadRow(t: Table, pathId: int, payload: Employee)
    requires Valid(t) && pathId in t.rows && payload.id in t.rows && payload.id != pathId
    ensures var (t', r) := UpdateEmployee(t, pathId, payload);
            && r == Reply(Ok, Record(payload))
            && FindById(t', payload.id) == Some(payload)
            && FindById(t', pathId) == FindById(t, pathId)
  {
  }

  /**
   * A payload without a stored id (none given, or one the table lacks) is
   * inserted as a new row under a fresh id; the row the path names stays.
   */
  lemma UpdateWithUnknownPayloadIdInserts(t: Table, pathId: int, payload: Employee)
    requires Valid(t) && pathId in t.rows && payload.id !in t.rows
    ensures var (t', r) := UpdateEmployee(t, pathId, payload);
            && r.Reply? && r.status == Ok && r.body.Record?
            && r.body.employee.id == t.nextId && r.body.employee.id != pathId
            && FindById(t', pathId) == FindById(t, pathId)
            && t'.nextId == t.nextId + 1
  {
  }

  /**
   * One client session against a fresh service: create, read back, read the
   * unassigned id 0 (never a key), update the first name, delete through
   * the service, and read again.
   */
  lemma CreateReadUpdateDeleteScenario()
    ensures var dan := Employee(Unassigned, "Dan", "Sanchez", "dan@domain.com");
            var (t1, created) := CreateEmployee(Empty, dan);
            var stored := dan.(id := 1);
            var edit := stored.(firstName := "DanUpdate");
            var (t2, updated) := UpdateEmployee(t1, 1, edit);
            var t3 := EmployeeService.DeleteEmployee(t2, 1);
            && created == Reply(Created, Record(stored)) && Code(created.status) == 201
            && GetEmployeeById(t1, 1) == Reply(Ok, Record(stored))
            && GetEmployeeById(t1, Unassigned) == Reply(NotFound, NoBody)
            && Code(GetEmployeeById(t1, Unassigned).status) == 404
            && updated == Reply(Ok, Record(edit)) && Code(updated.status) == 200
            && GetEmployeeById(t3, 1) == Reply(NotFound, NoBody)
  {
  }
}
