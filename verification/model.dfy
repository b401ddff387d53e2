/** The `Employee` entity: a store-assigned id plus four text fields. */
module Model {
  import opened Results

  /** A Java `Long` identifier (the null reference is the `None` of `Employee.id`). */
  type Id = int

  /**
   * The entity with its five fields in declaration order. The datatype
   * constructor is the all-arguments constructor; `id` is `None` until the
   * store assigns one.
   */
  datatype Employee = Employee(
    id: Option<Id>,
    firstName: string,
    lastName: string,
    email: string,
    department: string)

  /**
   * The four-argument constructor: the all-arguments constructor with no id,
   * so every field but `id` is set.
   */
  function Create(firstName: string, lastName: string, email: string, department: string): (e: Employee)
    ensures e.id == None
    ensures e.firstName == firstName && e.lastName == lastName
    ensures e.email == email && e.department == department
  {
    Employee(None, firstName, lastName, email, department)
  }

  // Setters generated for each field: each one replaces its own field and
  // leaves the other four alone.

  function SetId(e: Employee, v: Option<Id>): (r: Employee)
    ensures r.id == v
    ensures r.firstName == e.firstName && r.lastName == e.lastName
    ensures r.email == e.email && r.department == e.department
  {
    e.(id := v)
  }

  function SetFirstName(e: Employee, v: string): (r: Employee)
    ensures r.firstName == v
    ensures r.id == e.id && r.lastName == e.lastName
    ensures r.email == e.email && r.department == e.department
  {
    e.(firstName := v)
  }

  function SetLastName(e: Employee, v: string): (r: Employee)
    ensures r.lastName == v
    ensures r.id == e.id && r.firstName == e.firstName
    ensures r.email == e.email && r.department == e.department
  {
    e.(lastName := v)
  }

  /** The email is a mutable natural key: it can be replaced like any other field. */
  function SetEmail(e: Employee, v: string): (r: Employee)
    ensures r.email == v
    ensures r.id == e.id && r.firstName == e.firstName
    ensures r.lastName == e.lastName && r.department == e.department
  {
    e.(email := v)
  }

  function SetDepartment(e: Employee, v: string): (r: Employee)
    ensures r.department == v
    ensures r.id == e.id && r.firstName == e.firstName
    ensures r.lastName == e.lastName && r.email == e.email
  {
    e.(department := v)
  }

  /** Generated equality: two employees are equal exactly when all five fields are. */
  lemma EqualIffFieldsEqual(a: Employee, b: Employee)
    ensures a == b <==>
      && a.id == b.id
      && a.firstName == b.firstName
      && a.lastName == b.lastName
      && a.email == b.email
      && a.department == b.department
  {
  }

  /**
   * Round trip through the accessors: rebuilding a record from its four
   * fields with the four-argument constructor loses exactly its id.
   */
  lemma CreateFromFieldsDropsOnlyId(e: Employee)
    ensures Create(e.firstName, e.lastName, e.email, e.department) == SetId(e, None)
    ensures e.id == None ==> Create(e.firstName, e.lastName, e.email, e.department) == e
  {
  }

  /** Setting a field to the value it already holds changes nothing. */
  lemma SetOwnValueIsIdentity(e: Employee)
    ensures SetId(e, e.id) == e
    ensures SetFirstName(e, e.firstName) == e
    ensures SetLastName(e, e.lastName) == e
    ensures SetEmail(e, e.email) == e
    ensures SetDepartment(e, e.department) == e
  {
  }

  /**
   * Copying the four mutable fields of `src` onto `e` through the setters, in
   * any order, yields `src`'s fields under `e`'s id.
   */
  lemma CopyFieldsKeepsId(e: Employee, src: Employee)
    ensures SetDepartment(SetEmail(SetLastName(SetFirstName(e, src.firstName), src.lastName), src.email), src.department)
         == Employee(e.id, src.firstName, src.lastName, src.email, src.department)
    ensures SetFirstName(SetLastName(SetEmail(SetDepartment(e, src.department), src.email), src.lastName), src.firstName)
         == Employee(e.id, src.firstName, src.lastName, src.email, src.department)
  {
  }
}
