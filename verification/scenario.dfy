/** A worked session against an empty directory. */
module Scenario {
  import opened Results
  import opened Model
  import opened Repository
  import opened Service

  /**
   * Create a record, try a second one with the same email, list, delete the
   * first, list again.
   */
  lemma CreateDuplicateListDelete()
    ensures var first := Create("First", "Last", "a@x.com", "Dept");
      var second := Create("First2", "Last2", "a@x.com", "Dept2");
      var r1 := AddEmployee(Empty, first);
      var r2 := AddEmployee(r1.store, second);
      var r4 := DeleteEmployee(r2.store, 1);
      && r1.result == Success(Employee(Some(1), "First", "Last", "a@x.com", "Dept"))
      && r2.result == Failure(AlreadyExists("a@x.com"))
      && |GetAllEmployees(r2.store).result.value| == 1
      && r4.result == Success(())
      && GetAllEmployees(r4.store).result == Success([])
  {
  }
}
