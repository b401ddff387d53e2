/**
 * The employee directory service: five operations over the repository,
 * guarded by an existence check (get, update, delete) and an email check
 * (create). Every operation takes the store and returns the store after the
 * call together with either its value or the error it throws.
 */
module Service {
  import opened Results
  import opened Model
  import opened Repository

  /**
   * The errors the service surfaces: the two domain errors, and the
   * repository failure it lets through unchanged.
   */
  datatype Error =
    | NotFound(id: Id)
    | AlreadyExists(email: string)
    | Persistence(cause: StoreError)

  /** The store after a call, and what the call returned or threw. */
  datatype Response<+T> = Response(store: Store, result: Result<T, Error>)

  /** `getAllEmployees`: every stored record once; the store is untouched. */
  function GetAllEmployees(s: Store): (r: Response<seq<Employee>>)
    requires Valid(s)
    ensures r.store == s
    ensures r.result.Success?
    ensures |r.result.value| == |s.records|
    ensures forall e :: e in r.result.value ==> e in s.records.Values
    ensures forall k :: k in s.records ==> s.records[k] in r.result.value
    ensures forall i, j :: 0 <= i < j < |r.result.value| ==> r.result.value[i].id != r.result.value[j].id
  {
    Response(s, Success(FindAll(s)))
  }

  /** `getEmployeeById`: the stored record, or `NotFound(id)`; the store is untouched. */
  function GetEmployeeById(s: Store, id: Id): (r: Response<Employee>)
    ensures r.store == s
    ensures r.result.Success? <==> id in s.records
    ensures r.result.Success? ==> r.result.value == s.records[id]
    ensures r.result.Failure? ==> r.result.error == NotFound(id)
  {
    match FindById(s, id)
    case Some(e) => Response(s, Success(e))
    case None => Response(s, Failure(NotFound(id)))
  }

  /**
   * `employeeAlreadyExist`: whether the email lookup finds a record. The
   * lookup itself fails when several records share the email.
   */
  function EmployeeAlreadyExist(s: Store, email: string): (r: Result<bool, StoreError>)
    requires Valid(s)
    ensures r.Failure? <==> EmailShared(s, email)
    ensures r == Success(false) <==> !EmailTaken(s, email)
    ensures r == Success(true) <==> EmailTaken(s, email) && !EmailShared(s, email)
    ensures EmailsDistinct(s) ==> r == Success(EmailTaken(s, email))
  {
    match FindByEmail(s, email)
    case Success(found) => Success(found.Some?)
    case Failure(err) => Failure(err)
  }

  /**
   * `addEmployee`: refuses an email some record already holds, and otherwise
   * saves the candidate. A candidate with no id, or an id the store does not
   * hold, is inserted under a fresh id; one whose id is stored overwrites
   * that record.
   */
  function AddEmployee(s: Store, e: Employee): (r: Response<Employee>)
    requires Valid(s)
    ensures Valid(r.store)
    ensures r.result.Failure? <==> EmailTaken(s, e.email)
    ensures r.result.Failure? ==> r.store == s
    ensures r.result.Failure? ==>
      r.result.error == (if EmailShared(s, e.email)
                         then Persistence(NonUniqueResult(e.email))
                         else AlreadyExists(e.email))
    ensures r.result.Success? ==>
      && r.result.value.id.Some?
      && r.result.value.firstName == e.firstName
      && r.result.value.lastName == e.lastName
      && r.result.value.email == e.email
      && r.result.value.department == e.department
      && FindById(r.store, r.result.value.id.value) == Some(r.result.value)
      && (forall k :: k in s.records && k != r.result.value.id.value ==>
            k in r.store.records && r.store.records[k] == s.records[k])
    ensures r.result.Success? && IsNew(s, e) ==>
      && r.result.value.id == Some(s.nextId)
      && s.nextId !in s.records
      && r.store.records.Keys == s.records.Keys + {s.nextId}
      && |r.store.records| == |s.records| + 1
    ensures r.result.Success? && !IsNew(s, e) ==>
      && r.result.value == e
      && r.store.records.Keys == s.records.Keys
  {
    match EmployeeAlreadyExist(s, e.email)
    case Failure(err) => Response(s, Failure(Persistence(err)))
    case Success(taken) =>
      if taken then Response(s, Failure(AlreadyExists(e.email)))
      else
        var (s', saved) := Save(s, e);
        Response(s', Success(saved))
  }

  /**
   * `updateEmployee`: the stored record under `id` takes the candidate's
   * four fields and keeps its id; the candidate's own id is ignored. There is
   * no email check, so the new email may be one another record holds.
   *
   * The unit test `shouldThrowEmployeeAlreadyExistException`
   * (src/test/java/com/ducvu/EmployeeManagement/service/EmployeeServiceTest.java:157-169)
   * expects this operation to refuse a taken email before looking the id up.
   * The service modelled here performs no such check, so that test's
   * expectation does not match this service. See `UpdateIgnoresTakenEmail`
   * and `UpdateOnTestMockFailsNotFound`.
   */
  function UpdateEmployee(s: Store, e: Employee, id: Id): (r: Response<Employee>)
    requires Valid(s)
    ensures Valid(r.store)
    ensures r.result.Success? <==> id in s.records
    ensures r.result.Failure? ==> r.store == s && r.result.error == NotFound(id)
    ensures r.result.Success? ==>
      && r.result.value == Employee(Some(id), e.firstName, e.lastName, e.email, e.department)
      && r.store.records.Keys == s.records.Keys
      && r.store.records[id] == r.result.value
      && (forall k :: k in s.records && k != id ==> r.store.records[k] == s.records[k])
      && r.store.nextId == s.nextId
  {
    match FindById(s, id)
    case None => Response(s, Failure(NotFound(id)))
    case Some(employee) =>
      var updated := SetDepartment(SetEmail(SetLastName(SetFirstName(employee,
        e.firstName), e.lastName), e.email), e.department);
      CopyFieldsKeepsId(employee, e);
      var (s', saved) := Save(s, updated);
      Response(s', Success(saved))
  }

  /** `deleteEmployee`: removes exactly the record under `id`, or fails with `NotFound(id)`. */
  function DeleteEmployee(s: Store, id: Id): (r: Response<()>)
    requires Valid(s)
    ensures Valid(r.store)
    ensures r.result.Success? <==> id in s.records
    ensures r.result.Failure? ==> r.store == s && r.result.error == NotFound(id)
    ensures r.result.Success? ==>
      && r.store.records.Keys == s.records.Keys - {id}
      && (forall k :: k in r.store.records ==> r.store.records[k] == s.records[k])
      && |r.store.records| == |s.records| - 1
  {
    if !ExistsById(s, id) then Response(s, Failure(NotFound(id)))
    else Response(DeleteById(s, id), Success(()))
  }
}
