/**
 * The behaviour of the employee service over the table: the email
 * uniqueness guard on save, and the read, update and delete operations,
 * which hand straight through to the repository.
 */
module EmployeeService {
  import opened Employees
  import opened EmployeeTable

  /**
   * `saveEmployee`: looks the candidate's email up first. A stored record
   * with that email makes the call fail without touching the table; only a
   * free email reaches `save`, whose result is returned as it is. When the
   * email is held by one row the failure is the duplicate-email error; when
   * several rows hold it, the lookup's incorrect-result-size error escapes.
   */
  function SaveEmployee(t: Table, e: Employee): (r: (Table, Result<Employee>))
    requires Valid(t)
    ensures Valid(r.0)
    ensures r.1.Success? <==> EmailFree(t, e.email)
    ensures r.1.Success? ==> (r.0, r.1.value) == Save(t, e)
    ensures r.1.Failure? ==> r.0 == t
    ensures r.1.Failure? ==>
      (r.1.error == DuplicateEmail(e.email) <==>
        forall a, b :: a in t.rows && b in t.rows && t.rows[a].email == e.email && t.rows[b].email == e.email ==> a == b)
    ensures r.1.Failure? ==> r.1.error == DuplicateEmail(e.email) || r.1.error == IncorrectResultSize
    ensures r.1.Failure? && EmailsDistinct(t) ==> r.1.error == DuplicateEmail(e.email)
  {
    match FindByEmail(t, e.email)
    case Match(_) => (t, Failure(DuplicateEmail(e.email)))
    case NonUniqueResult => (t, Failure(IncorrectResultSize))
    case NoMatch =>
      var (t', saved) := Save(t, e);
      (t', Success(saved))
  }

  /**
   * `getAllEmployees`: `findAll`'s listing: each stored record once, in
   * ascending id order, as many as there are rows.
   */
  function GetAllEmployees(t: Table): (all: seq<Employee>)
    requires Valid(t)
    ensures forall e :: e in all <==> FindById(t, e.id) == Some(e)
    ensures IdsAscending(all)
    ensures |all| == |t.rows|
    ensures t.rows == map[] ==> all == []
  {
    var all := FindAll(t);
    assert |all| > 0 ==> all[0] in all;
    all
  }

  /** `getEmployeeById` (absent from EmployeeServiceImpl; modelled as a delegation to `findById`). */
  function GetEmployeeById(t: Table, id: int): (r: Option<Employee>)
    requires Valid(t)
    ensures r.Some? <==> id in t.rows
    ensures r.Some? ==> r.value == t.rows[id] && r.value.id == id
  {
    FindById(t, id)
  }

  /**
   * `updateEmployee` (absent from EmployeeServiceImpl; modelled as a
   * delegation to `save`): every field of the record is written as given,
   * nothing is merged, and no other row changes.
   */
  function UpdateEmployee(t: Table, e: Employee): (r: (Table, Employee))
    requires Valid(t)
    ensures Valid(r.0)
    ensures r.1.firstName == e.firstName && r.1.lastName == e.lastName && r.1.email == e.email
    ensures FindById(r.0, r.1.id) == Some(r.1)
    ensures forall k :: k != r.1.id ==> FindById(r.0, k) == FindById(t, k)
    ensures e.id in t.rows ==> r.1 == e && r.0.nextId == t.nextId
    ensures e.id !in t.rows ==> r.1.id !in t.rows && r.1.id == t.nextId && r.0.nextId == t.nextId + 1
  {
    Save(t, e)
  }

  /**
   * `deleteEmployee` (absent from EmployeeServiceImpl; modelled as a
   * delegation to `deleteById`): only the row with that id goes.
   */
  function DeleteEmployee(t: Table, id: int): (r: Table)
    requires Valid(t)
    ensures Valid(r)
    ensures FindById(r, id) == None
    ensures forall k :: k != id ==> FindById(r, k) == FindById(t, k)
    ensures r.nextId == t.nextId
  {
    DeleteById(t, id)
  }

  /** Whether it succeeds or fails, `saveEmployee` keeps stored emails pairwise distinct. */
  lemma SaveEmployeeKeepsEmailsDistinct(t: Table, e: Employee)
    requires Valid(t)
    ensures EmailsDistinct(t) ==> EmailsDistinct(SaveEmployee(t, e).0)
  {
  }

  /** After a successful `saveEmployee`, `findByEmail` finds exactly the saved record. */
  lemma SavedEmployeeFoundByEmail(t: Table, e: Employee)
    requires Valid(t) && EmailFree(t, e.email)
    ensures var (t', r) := SaveEmployee(t, e);
            r.Success? && FindByEmail(t', e.email) == Match(r.value)
  {
  }

  /**
   * With exactly one stored record holding its email, `saveEmployee` fails
   * with the duplicate-email error and `save` is never reached, whatever
   * other rows share emails among themselves.
   */
  lemma DuplicateEmailRejected(t: Table, e: Employee, k: int)
    requires Valid(t)
    requires k in t.rows && t.rows[k].email == e.email
    requires forall j :: j in t.rows && t.rows[j].email == e.email ==> j == k
    ensures SaveEmployee(t, e) == (t, Failure(DuplicateEmail(e.email)))
  {
  }

  /**
   * Two records without ids and with different emails, saved one after the
   * other into a table just emptied by `deleteAll`, both succeed, take the
   * next two keys, and are the two records listed.
   */
  lemma {:induction false} TwoDistinctEmailsBothSaved(t: Table, a: Employee, b: Employee)
    requires Valid(t)
    requires a.id == Unassigned && b.id == Unassigned && a.email != b.email
    ensures var t0 := DeleteAll(t);
            var (t1, r1) := SaveEmployee(t0, a);
            var (t2, r2) := SaveEmployee(t1, b);
            && r1 == Success(a.(id := t.nextId)) && r2 == Success(b.(id := t.nextId + 1))
            && GetAllEmployees(t2) == [a.(id := t.nextId), b.(id := t.nextId + 1)]
  {
    var t0 := DeleteAll(t);
    var (t1, r1) := SaveEmployee(t0, a);
    assert EmailFree(t1, b.email) by {
      assert t1.rows == map[t.nextId := a.(id := t.nextId)];
    }
    var (t2, r2) := SaveEmployee(t1, b);
    TwoSavesAfterDeleteAll(t, a, b);
  }

  /**
   * The candidate's id is not ignored: a record whose id names a stored row
   * and whose email is free overwrites that row instead of adding one.
   */
  lemma SaveEmployeeWithStoredIdOverwrites(t: Table, e: Employee)
    requires Valid(t) && e.id in t.rows && EmailFree(t, e.email)
    ensures var (t', r) := SaveEmployee(t, e);
            && r == Success(e)
            && t'.rows.Keys == t.rows.Keys && t'.nextId == t.nextId
            && FindById(t', e.id) == Some(e)
  {
  }

  /**
   * `updateEmployee` performs no email check: it can give a second row an
   * email the table already holds.
   */
  lemma UpdateEmployeeSkipsEmailCheck()
    ensures var a := Employee(1, "Ann", "Lee", "ann@domain.com");
            var b := Employee(2, "Bob", "Ray", "bob@domain.com");
            var t := Table(map[1 := a, 2 := b], 3);
            && Valid(t) && EmailsDistinct(t)
            && !EmailsDistinct(UpdateEmployee(t, b.(email := a.email)).0)
  {
    var a := Employee(1, "Ann", "Lee", "ann@domain.com");
    var b := Employee(2, "Bob", "Ray", "bob@domain.com");
    var t := Table(map[1 := a, 2 := b], 3);
    assert a.email != b.email;
    var t' := UpdateEmployee(t, b.(email := a.email)).0;
    assert t'.rows[1].email == t'.rows[2].email;
  }
}
