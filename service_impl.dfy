/**
 * EmployeeServiceImpl: the service object holding its repository. Each
 * method calls the repository as the service does and is proved to behave
 * as the matching `EmployeeService` function says.
 */
module ServiceImpl {
  import opened Employees
  import EmployeeService
  import opened Repository

  class EmployeeServiceImpl {
    const repository: EmployeeRepository

    constructor (repository: EmployeeRepository)
      ensures this.repository == repository
    {
      this.repository := repository;
    }

    /** Check-then-insert: `save` is called only when no stored record has the email. */
    method SaveEmployee(e: Employee) returns (r: Result<Employee>)
      requires repository.Valid()
      modifies repository
      ensures repository.Valid()
      ensures (repository.Snapshot(), r) == EmployeeService.SaveEmployee(old(repository.Snapshot()), e)
    {
      var existing := repository.FindByEmail(e.email);
      match existing
      case Match(_) =>
        r := Failure(DuplicateEmail(e.email));
      case NonUniqueResult =>
        r := Failure(IncorrectResultSize);
      case NoMatch =>
        var saved := repository.Save(e);
        r := Success(saved);
    }

    method GetAllEmployees() returns (all: seq<Employee>)
      requires repository.Valid()
      ensures all == EmployeeService.GetAllEmployees(repository.Snapshot())
    {
      all := repository.FindAll();
    }

    method GetEmployeeById(id: int) returns (r: Option<Employee>)
      requires repository.Valid()
      ensures r == EmployeeService.GetEmployeeById(repository.Snapshot(), id)
    {
      r := repository.FindById(id);
    }

    method UpdateEmployee(e: Employee) returns (updated: Employee)
      requires repository.Valid()
      modifies repository
      ensures repository.Valid()
      ensures (repository.Snapshot(), updated) == EmployeeService.UpdateEmployee(old(repository.Snapshot()), e)
    {
      updated := repository.Save(e);
    }

    method DeleteEmployee(id: int)
      requires repository.Valid()
      modifies repository
      ensures repository.Valid()
      ensures repository.Snapshot() == EmployeeService.DeleteEmployee(old(repository.Snapshot()), id)
    {
      repository.DeleteById(id);
    }
  }
}
