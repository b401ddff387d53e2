/** Properties that relate several service calls, or a call and the store invariants. */
module Properties {
  import opened Results
  import opened Model
  import opened Repository
  import opened Service

  /** The empty table satisfies both store invariants. */
  lemma EmptyIsValid()
    ensures Valid(Empty) && EmailsDistinct(Empty)
    ensures GetAllEmployees(Empty).result == Success([])
  {
  }

  /** A successful create is visible to a later get under the id it returned. */
  lemma GetAfterAdd(s: Store, e: Employee)
    requires Valid(s)
    requires AddEmployee(s, e).result.Success?
    ensures var r := AddEmployee(s, e);
      GetEmployeeById(r.store, r.result.value.id.value).result == Success(r.result.value)
  {
  }

  /** A successful update is visible to a later get under the same id. */
  lemma GetAfterUpdate(s: Store, e: Employee, id: Id)
    requires Valid(s)
    requires id in s.records
    ensures GetEmployeeById(UpdateEmployee(s, e, id).store, id).result
         == Success(Employee(Some(id), e.firstName, e.lastName, e.email, e.department))
  {
  }

  /** After a successful delete, a get of the same id fails with `NotFound`. */
  lemma GetAfterDelete(s: Store, id: Id)
    requires Valid(s)
    requires id in s.records
    ensures DeleteEmployee(s, id).result.Success?
    ensures GetEmployeeById(DeleteEmployee(s, id).store, id).result == Failure(NotFound(id))
  {
  }

  /** A second delete of the same id fails and changes nothing. */
  lemma DeleteTwiceFails(s: Store, id: Id)
    requires Valid(s)
    ensures var s' := DeleteEmployee(s, id).store;
      DeleteEmployee(s', id) == Response(s', Failure(NotFound(id)))
  {
  }

  /**
   * Ids come from the store, never from the caller: a new candidate gets the
   * same outcome whatever (unstored) id it carries.
   */
  lemma AddIgnoresCallerId(s: Store, e: Employee)
    requires Valid(s)
    requires IsNew(s, e)
    ensures AddEmployee(s, e) == AddEmployee(s, SetId(e, None))
  {
  }

  /** The email check keeps the directory invariant: create never introduces a duplicate email. */
  lemma AddPreservesEmailsDistinct(s: Store, e: Employee)
    requires Valid(s) && EmailsDistinct(s)
    ensures EmailsDistinct(AddEmployee(s, e).store)
  {
  }

  /** Delete keeps the directory invariant. */
  lemma DeletePreservesEmailsDistinct(s: Store, id: Id)
    requires Valid(s) && EmailsDistinct(s)
    ensures EmailsDistinct(DeleteEmployee(s, id).store)
  {
  }

  /**
   * Update keeps the directory invariant when no OTHER record holds the new
   * email. The service does not check this itself.
   */
  lemma UpdatePreservesEmailsDistinctWhenEmailFree(s: Store, e: Employee, id: Id)
    requires Valid(s) && EmailsDistinct(s)
    requires forall k :: k in s.records && k != id ==> s.records[k].email != e.email
    ensures EmailsDistinct(UpdateEmployee(s, e, id).store)
  {
  }

  /**
   * Update does not check emails, so it can break the directory invariant:
   * two records with distinct emails, and the second one renamed to the
   * first one's email.
   */
  lemma UpdateCanDuplicateEmail()
    ensures exists s: Store, e: Employee, id: Id ::
      && Valid(s) && EmailsDistinct(s)
      && UpdateEmployee(s, e, id).result.Success?
      && !EmailsDistinct(UpdateEmployee(s, e, id).store)
  {
    var a := Employee(Some(1), "A", "A", "a@x.com", "D");
    var b := Employee(Some(2), "B", "B", "b@x.com", "D");
    var s := Store(map[1 := a, 2 := b], 3);
    var e := Create("B", "B", "a@x.com", "D");
    var s' := UpdateEmployee(s, e, 2).store;
    assert s'.records[1].email == s'.records[2].email;
  }

  /**
   * Once two records share an email, creating a third with that email fails
   * with the repository's lookup error rather than `AlreadyExists`.
   */
  lemma AddAfterDuplicateFailsInLookup(s: Store, e: Employee)
    requires Valid(s)
    requires EmailShared(s, e.email)
    ensures AddEmployee(s, e) == Response(s, Failure(Persistence(NonUniqueResult(e.email))))
  {
  }

  /**
   * The data of `shouldThrowEmployeeAlreadyExistException`, taken as a
   * consistent store: record 1 holds "existing@gmail.com" and an update of
   * record 1 carries that same email. The service succeeds instead of
   * refusing the email. (The test's mock answers only the email lookup; that
   * case is `UpdateOnTestMockFailsNotFound`.)
   */
  lemma UpdateIgnoresTakenEmail()
    ensures var existing := Employee(Some(1), "First", "Last", "existing@gmail.com", "testDP");
      var s := Store(map[1 := existing], 2);
      var candidate := Create("UFirst", "ULast", "existing@gmail.com", "testDP");
      UpdateEmployee(s, candidate, 1).result
        == Success(Employee(Some(1), "UFirst", "ULast", "existing@gmail.com", "testDP"))
  {
  }

  /**
   * `shouldThrowEmployeeAlreadyExistException` as its mock sets it up: only
   * the email lookup is answered, so the lookup by id finds nothing and the
   * service fails with `NotFound`, not `AlreadyExists`.
   */
  lemma UpdateOnTestMockFailsNotFound()
    ensures UpdateEmployee(Empty, Create("UFirst", "ULast", "existing@gmail.com", "testDP"), 1)
         == Response(Empty, Failure(NotFound(1)))
  {
  }
}
