# Employee directory service, modelled in Dafny

This project models the business layer of the EmployeeManagement backend:
the `EmployeeService` that lists, gets, creates, updates and deletes
`Employee` records over a Spring Data repository. The repository is modelled
as an in-memory table (`Repository.Store`): a map from id to record plus the
counter that the IDENTITY column draws fresh ids from. Every service
operation is a pure function from a store to the store after the call and
either its value or the error it throws (`NotFound(id)`,
`AlreadyExists(email)`, or a repository failure passed through unchanged).

Files:

- `results.dfy` — `Option` (Java `Optional`) and `Result` (value or thrown error).
- `model.dfy` — the `Employee` record, its four-argument constructor, setters and equality.
- `repository.dfy` — the store, its invariants, and the six repository
  operations the service uses: `findById`, `existsById`, `findAll`,
  `findEmployeeByEmail`, `save`, `deleteById`.
- `service.dfy` — the five service operations and `employeeAlreadyExist`.
- `properties.dfy` — properties relating several calls, and the email invariant.
- `scenario.dfy` — a worked session: create, duplicate create, list, delete, list.

Two store invariants are used throughout. `Valid` says every stored id was
drawn from the counter (it lies in `[1, nextId)`) and every record carries
the id it is stored under; every operation preserves it, and every operation
over the whole table requires it, because no other store is reachable. `EmailsDistinct` says no
two records share an email; create preserves it, delete preserves it, and
update can break it.

Modelling choices:

- `save` follows Spring Data's rule: an entity whose id is null is inserted
  under a fresh id. An entity whose id is stored overwrites that record. An
  entity whose id is not stored is also inserted under a fresh id: that is
  the behaviour the repository's integration test assumes when it creates an
  employee carrying id 0 (EmployeeManagement/src/test/java/com/ducvu/EmployeeManagement/EmployeeServiceTest.java,
  lines 36-37 and 49). So `AddEmployee` needs no precondition
  on the candidate's id, and its contract covers both the insert and the
  overwrite case.
- `findEmployeeByEmail` is a single-result query. When two or more rows match
  it fails (`NonUniqueResult`). Rows can only come to share an email through
  update, which does not check emails. A create with such an email then fails
  with that repository error, wrapped as `Persistence`, instead of
  `AlreadyExists`.
- `findAll` returns records in ascending id order, which is creation order.
  Callers may rely only on "every stored record exactly once".
- The unit test `shouldThrowEmployeeAlreadyExistException`
  (src/test/java/com/ducvu/EmployeeManagement/service/EmployeeServiceTest.java,
  lines 157-169) expects `updateEmployee` to refuse a taken email. The service
  source does not do that: it looks the id up and overwrites the four fields
  with no email check. The model follows the service source. Against that
  test's mock, which answers only the email lookup, `findById` finds nothing,
  so the service throws `NotFound`, not `AlreadyExists`:
  `Properties.UpdateOnTestMockFailsNotFound` states this, on an empty store.
  `Properties.UpdateIgnoresTakenEmail` takes the test's data as a consistent
  store instead (record 1 holds the email) and shows the update succeeds
  there. `Properties.UpdateCanDuplicateEmail` shows that update can break
  `EmailsDistinct`.

## Model

| member | source | states |
|---|---|---|
| `Model.Create` | src/main/java/com/ducvu/EmployeeManagement/model/Employee.java:35-40 | the four-argument constructor sets firstName, lastName, email and department from its arguments and leaves the id unassigned |
| `Model.CreateFromFieldsDropsOnlyId` | src/main/java/com/ducvu/EmployeeManagement/model/Employee.java:17-40 | rebuilding a record from its four fields with the four-argument constructor gives the same record with the id cleared, and the record itself when it had no id |
| `Model.EqualIffFieldsEqual` | src/main/java/com/ducvu/EmployeeManagement/model/Employee.java:16 | two employees are equal exactly when all five fields are equal |
| `Model.SetId` | src/main/java/com/ducvu/EmployeeManagement/model/Employee.java:16-24 | the id setter replaces the id and leaves the four other fields unchanged |
| `Model.SetFirstName` | src/main/java/com/ducvu/EmployeeManagement/model/Employee.java:16-26 | the firstName setter replaces firstName and leaves the other fields unchanged |
| `Model.SetLastName` | src/main/java/com/ducvu/EmployeeManagement/model/Employee.java:16-28 | the lastName setter replaces lastName and leaves the other fields unchanged |
| `Model.SetEmail` | src/main/java/com/ducvu/EmployeeManagement/model/Employee.java:29-31 | email is a mutable natural key: its setter replaces it and leaves the other fields unchanged |
| `Model.SetDepartment` | src/main/java/com/ducvu/EmployeeManagement/model/Employee.java:16-33 | the department setter replaces department and leaves the other fields unchanged |
| `Model.SetOwnValueIsIdentity` | src/main/java/com/ducvu/EmployeeManagement/model/Employee.java:16 | setting any field to the value it already holds changes nothing |
| `Model.CopyFieldsKeepsId` | EmployeeManagement/src/main/java/com/ducvu/EmployeeManagement/service/EmployeeService.java:42-45 | applying the four setters with a candidate's values, in either order, gives the candidate's fields under the original id |
| `Repository.FindById` | EmployeeManagement/src/main/java/com/ducvu/EmployeeManagement/repository/EmployeeRepository.java:10 | the lookup finds a record exactly when the id is stored, and then it is the stored record |
| `Repository.ExistsById` | EmployeeManagement/src/main/java/com/ducvu/EmployeeManagement/repository/EmployeeRepository.java:10 | the existence test agrees with the lookup by id |
| `Repository.FindAll` | EmployeeManagement/src/main/java/com/ducvu/EmployeeManagement/repository/EmployeeRepository.java:10 | the listing has one entry per stored record, contains every stored record and nothing else, and its ids are strictly ascending, so no id repeats |
| `Repository.FindByEmail` | EmployeeManagement/src/main/java/com/ducvu/EmployeeManagement/repository/EmployeeRepository.java:11 | the email lookup finds nothing exactly when no record has the email, fails with `NonUniqueResult` exactly when two records share it, and otherwise returns the stored record holding it |
| `Repository.Save` | EmployeeManagement/src/main/java/com/ducvu/EmployeeManagement/repository/EmployeeRepository.java:10 | save keeps the store valid. A stored id is overwritten in place. Any other entity is inserted under a fresh id (the counter value, held by no record), and the count grows by one. The returned value carries the saved id and fields, and no other record changes |
| `Repository.DeleteById` | EmployeeManagement/src/main/java/com/ducvu/EmployeeManagement/repository/EmployeeRepository.java:10 | delete removes exactly the given id, keeps every other record, and never rewinds the id counter |
| `Service.GetAllEmployees` | EmployeeManagement/src/main/java/com/ducvu/EmployeeManagement/service/EmployeeService.java:23-25 | listing never fails, leaves the store unchanged, and returns every stored record exactly once with no two entries sharing an id |
| `Service.GetEmployeeById` | EmployeeManagement/src/main/java/com/ducvu/EmployeeManagement/service/EmployeeService.java:27-30 | get succeeds exactly when the id is stored and then returns that record; otherwise it fails with `NotFound(id)`; the store is unchanged either way |
| `Service.EmployeeAlreadyExist` | EmployeeManagement/src/main/java/com/ducvu/EmployeeManagement/service/EmployeeService.java:56-58 | the check is false exactly when no record has the email, true exactly when one does, and fails when several do; under distinct emails it is exactly "the email is taken" |
| `Service.AddEmployee` | EmployeeManagement/src/main/java/com/ducvu/EmployeeManagement/service/EmployeeService.java:32-38 | create fails exactly when the email is taken: then no save happens, the store is unchanged and the error is `AlreadyExists(email)`, or the lookup failure if the email is shared. On success the saved record has the candidate's four fields. A new candidate gets a fresh id and the count grows by one. Every other record is unchanged and the store stays valid |
| `Service.UpdateEmployee` | EmployeeManagement/src/main/java/com/ducvu/EmployeeManagement/service/EmployeeService.java:40-48 | update fails with `NotFound(id)` and leaves the store unchanged exactly when the id is not stored. Otherwise the record keeps its id and takes the candidate's four fields, which is also the returned value. Every other record and the id set are unchanged, and there is no email check |
| `Service.DeleteEmployee` | EmployeeManagement/src/main/java/com/ducvu/EmployeeManagement/service/EmployeeService.java:50-54 | delete fails with `NotFound(id)` and leaves the store unchanged exactly when the id is not stored; otherwise exactly that record is removed and the count drops by one |
| `Properties.EmptyIsValid` | src/main/java/com/ducvu/EmployeeManagement/model/Employee.java:21-24 | the empty table, with ids starting at 1, satisfies both invariants and lists nothing |
| `Properties.GetAfterAdd` | EmployeeManagement/src/main/java/com/ducvu/EmployeeManagement/service/EmployeeService.java:27-38 | a record returned by a successful create is what a later get of its id returns |
| `Properties.GetAfterUpdate` | EmployeeManagement/src/main/java/com/ducvu/EmployeeManagement/service/EmployeeService.java:27-48 | after an update of a stored id, get returns the id with the candidate's four fields |
| `Properties.GetAfterDelete` | EmployeeManagement/src/main/java/com/ducvu/EmployeeManagement/service/EmployeeService.java:27-54 | deleting a stored id succeeds, and a later get of that id fails with `NotFound` |
| `Properties.DeleteTwiceFails` | EmployeeManagement/src/main/java/com/ducvu/EmployeeManagement/service/EmployeeService.java:50-54 | a repeated delete of the same id fails with `NotFound` and changes nothing |
| `Properties.AddIgnoresCallerId` | src/main/java/com/ducvu/EmployeeManagement/model/Employee.java:21-24 | ids are assigned by the store: a new candidate gets the same result whatever unstored id it carries |
| `Properties.AddPreservesEmailsDistinct` | EmployeeManagement/src/main/java/com/ducvu/EmployeeManagement/service/EmployeeService.java:32-37 | if stored emails are pairwise distinct before a create, they are after it, whether it succeeds or fails |
| `Properties.DeletePreservesEmailsDistinct` | EmployeeManagement/src/main/java/com/ducvu/EmployeeManagement/service/EmployeeService.java:50-54 | delete keeps stored emails pairwise distinct |
| `Properties.UpdatePreservesEmailsDistinctWhenEmailFree` | EmployeeManagement/src/main/java/com/ducvu/EmployeeManagement/service/EmployeeService.java:40-48 | update keeps emails pairwise distinct when no other record holds the new email, a condition the service leaves to its callers |
| `Properties.UpdateCanDuplicateEmail` | EmployeeManagement/src/main/java/com/ducvu/EmployeeManagement/service/EmployeeService.java:40-48 | there is a store with distinct emails on which a successful update makes two records share an email |
| `Properties.AddAfterDuplicateFailsInLookup` | EmployeeManagement/src/main/java/com/ducvu/EmployeeManagement/service/EmployeeService.java:32-35 | once an email is shared, a create with it fails with the single-result lookup error and changes nothing |
| `Properties.UpdateIgnoresTakenEmail` | src/test/java/com/ducvu/EmployeeManagement/service/EmployeeServiceTest.java:157-169 | on a consistent store built from that test's data (record 1 holds the email), the service overwrites record 1 instead of refusing the taken email as the test expects |
| `Properties.UpdateOnTestMockFailsNotFound` | src/test/java/com/ducvu/EmployeeManagement/service/EmployeeServiceTest.java:157-169 | on that test's mock, where no record is found by id, the update fails with `NotFound(1)`, not `AlreadyExists` |
| `Scenario.CreateDuplicateListDelete` | EmployeeManagement/src/main/java/com/ducvu/EmployeeManagement/service/EmployeeService.java:23-54 | from an empty directory: the first create returns id 1, a second create with the same email fails with `AlreadyExists`, the listing has one record, deleting id 1 succeeds, and the listing is then empty |

## Left out

- HTTP layer (`EmployeeController`): routing, status codes 200/201/204, CORS. It is transport with no logic.
- JPA and Spring machinery: entity annotations, transactions, the database schema and the protected no-argument constructor. These are used only by the persistence framework.
- A database-level unique constraint on `email`. Hibernate may generate one from `@NaturalId` when it creates the schema. The schema is not part of this model, so update is modelled as the service code shows it: a duplicate email is accepted.
- Repository.Save: inserting a caller-supplied id that is not stored follows the behaviour the repository's integration test assumes. Newer Hibernate versions (6.6 on) instead reject such a merge with a persistence failure (`OptimisticLockException`); that failure is not modelled.
- Null ids: `findById(null)` throws in Spring Data. Ids are modelled as non-null integers.
- Model.Employee: field values are never null. Java allows null strings and a JSON body may omit fields, and `findEmployeeByEmail(null)` would match rows whose email `IS NULL`; the model has no null string.
- Repository.FindByEmail: email equality is exact, case-sensitive string equality (the reference behaviour). The database's collation, which decides case and trailing-space equality in the real lookup, is not modelled.
- 64-bit overflow of the identity counter: the counter is an unbounded natural number.
- Repository failures other than the non-unique email lookup (lost connections and the like): they propagate unchanged and carry no logic of the service.
- Exception messages: errors are the datatype `Service.Error`, not formatted text.
- Concurrency: each call is one atomic step. Two concurrent creates racing on one email are the database's concern.
- The Spring-context smoke test and the SQL-fixture integration tests: they exercise the framework, not the service logic.
