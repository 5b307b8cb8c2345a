/** The employee service: create with an email-uniqueness check, list, fetch by id,
    an unconditional update, and a delete that unwraps a lookup. Each operation that
    writes is a method of `EmployeeServiceImpl` proved against a transition function on
    the table; the two reads change nothing. */
module EmployeeService {
  import opened Wrappers
  import opened EmployeeTable

  /** The service's failures. `EmailAlreadyExists` is what create raises when the email
      is taken (`saveEmployee` throws it as a ResourceNotFoundException); `NoSuchElement` is
      the failure of unwrapping an empty lookup when delete is given an unknown id. */
  datatype ServiceError = EmailAlreadyExists(email: string) | NoSuchElement(id: int)

  /** A table after an operation, together with what the operation returned. */
  datatype Step<R> = Step(table: Table, result: R)

  /** saveEmployee: rejects an email that is already stored, leaving the table as it was;
      otherwise hands the employee to the repository's save and returns the stored row. */
  function SaveTransition(t: Table, e: Employee): (r: Step<Result<Employee, ServiceError>>)
    requires Valid(t)
    ensures Valid(r.table)
    ensures r.result.Failure? <==> EmailInUse(t, e.email)
    ensures r.result.Failure? ==> r.table == t && r.result.error == EmailAlreadyExists(e.email)
    ensures r.result.Success? ==> Stored(r.table, r.result.value) == Save(t, e)
  {
    match FindByEmail(t, e.email)
    case Some(_) => Step(t, Failure(EmailAlreadyExists(e.email)))
    case None =>
      var s := Save(t, e);
      Step(s.table, Success(s.employee))
  }

  /** deleteEmployee: looks the id up and deletes the row found; an unknown id fails
      before anything is deleted. */
  function DeleteTransition(t: Table, id: int): (r: Step<Outcome<ServiceError>>)
    requires Valid(t)
    ensures Valid(r.table)
    ensures r.result.Fail? <==> id !in t.rows
    ensures r.result.Fail? ==> r.table == t && r.result.error == NoSuchElement(id)
    ensures r.result.Pass? ==> r.table.rows == t.rows - {id} && r.table == Delete(t, t.rows[id])
  {
    match FindById(t, id)
    case None => Step(t, Fail(NoSuchElement(id)))
    case Some(e) => Step(Delete(t, e), Pass)
  }

  class EmployeeServiceImpl {
    /** The state of the employee repository the service delegates to. */
    var employeeRepository: Table

    ghost predicate Valid()
      reads this
    {
      EmployeeTable.Valid(employeeRepository)
    }

    /** Wires the service to a repository in the given state. */
    constructor (repository: Table)
      requires EmployeeTable.Valid(repository)
      ensures Valid() && employeeRepository == repository
    {
      employeeRepository := repository;
    }

    method SaveEmployee(employee: Employee) returns (r: Result<Employee, ServiceError>)
      requires Valid()
      modifies this
      ensures Valid()
      ensures Step(employeeRepository, r) == SaveTransition(old(employeeRepository), employee)
      ensures r.Failure? <==> EmailInUse(old(employeeRepository), employee.email)
      ensures r.Failure? ==> employeeRepository == old(employeeRepository)
    {
      var savedEmployee := FindByEmail(employeeRepository, employee.email);
      if savedEmployee.Some? {
        return Failure(EmailAlreadyExists(employee.email));
      }
      var stored := Save(employeeRepository, employee);
      employeeRepository := stored.table;
      return Success(stored.employee);
    }

    /** Every stored employee exactly once, oldest first. */
    method GetAllEmployee() returns (list: seq<Employee>)
      requires Valid()
      ensures |list| == |employeeRepository.rows|
      ensures forall e :: e in list <==> e in employeeRepository.rows.Values
      ensures forall i, j :: 0 <= i < j < |list| ==> list[i].id.Some? && list[j].id.Some? && list[i].id.value < list[j].id.value
    {
      list := FindAll(employeeRepository);
    }

    /** The employee stored under `id`, or absence; never a failure. */
    method GetEmployeeById(id: int) returns (r: Option<Employee>)
      requires Valid()
      ensures r.Some? <==> id in employeeRepository.rows
      ensures r.Some? ==> r.value == employeeRepository.rows[id] && r.value.id == Some(id)
    {
      r := FindById(employeeRepository, id);
    }

    /** An unconditional save: no existence check and no email check. */
    method UpdateEmployee(updateEmployee: Employee) returns (r: Employee)
      requires Valid()
      modifies this
      ensures Valid()
      ensures Stored(employeeRepository, r) == Save(old(employeeRepository), updateEmployee)
    {
      var stored := Save(employeeRepository, updateEmployee);
      employeeRepository := stored.table;
      r := stored.employee;
    }

    method DeleteEmployee(id: int) returns (r: Outcome<ServiceError>)
      requires Valid()
      modifies this
      ensures Valid()
      ensures Step(employeeRepository, r) == DeleteTransition(old(employeeRepository), id)
      ensures r.Fail? <==> id !in old(employeeRepository).rows
      ensures employeeRepository.rows == old(employeeRepository).rows - {id}
    {
      var found := GetEmployeeById(id);
      if found.None? {
        return Fail(NoSuchElement(id));
      }
      var employeeToDelete := found.value;
      employeeRepository := Delete(employeeRepository, employeeToDelete);
      return Pass;
    }
  }
}
