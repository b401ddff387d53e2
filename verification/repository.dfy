/**
 * The employee repository as an in-memory store: the table of records keyed
 * by id, and the counter the IDENTITY column draws fresh ids from.
 */
module Repository {
  import opened Results
  import opened Model

  datatype Store = Store(records: map<Id, Employee>, nextId: nat)

  /** An empty table whose identity column starts at 1. */
  const Empty: Store := Store(map[], 1)

  /** The failure a lookup that should find at most one row raises on two or more. */
  datatype StoreError = NonUniqueResult(email: string)

  /**
   * Store invariant: every stored id was drawn from the counter, so it lies
   * below `nextId`, and every record carries the id it is stored under.
   */
  ghost predicate Valid(s: Store) {
    && 1 <= s.nextId
    && forall k :: k in s.records ==> 1 <= k < s.nextId && s.records[k].id == Some(k)
  }

  /** The record stored under `k` has email `email`. */
  ghost predicate HasEmail(s: Store, k: Id, email: string) {
    k in s.records && s.records[k].email == email
  }

  /** Some stored record has email `email`. */
  ghost predicate EmailTaken(s: Store, email: string) {
    exists k :: HasEmail(s, k, email)
  }

  /** Two different stored records have email `email`. */
  ghost predicate EmailShared(s: Store, email: string) {
    exists j, k :: j != k && HasEmail(s, j, email) && HasEmail(s, k, email)
  }

  /** The directory invariant: no two stored records share an email. */
  ghost predicate EmailsDistinct(s: Store) {
    forall j, k :: j in s.records && k in s.records && j != k ==>
      s.records[j].email != s.records[k].email
  }

  /** `save` inserts (rather than overwrites) when the entity's id is null or not stored. */
  predicate IsNew(s: Store, e: Employee) {
    e.id.None? || e.id.value !in s.records
  }

  ghost predicate Increasing(ks: seq<Id>) {
    forall i, j :: 0 <= i < j < |ks| ==> ks[i] < ks[j]
  }

  /** The keys of `m` in `[0, n)`, ascending. */
  function KeysBelow(m: map<Id, Employee>, n: nat): (ks: seq<Id>)
    ensures forall k :: k in ks <==> k in m && 0 <= k < n
    ensures Increasing(ks)
  {
    if n == 0 then []
    else
      var prefix := KeysBelow(m, n - 1);
      assert forall i :: 0 <= i < |prefix| ==> prefix[i] in prefix;
      if n - 1 in m then prefix + [n - 1] else prefix
  }

  /** The ids of all stored records, in ascending (that is, creation) order. */
  function Ids(s: Store): (ks: seq<Id>)
    requires Valid(s)
    ensures forall k :: k in ks <==> k in s.records
    ensures forall i :: 0 <= i < |ks| ==> ks[i] in s.records
    ensures Increasing(ks)
  {
    var ks := KeysBelow(s.records, s.nextId);
    assert forall i :: 0 <= i < |ks| ==> ks[i] in ks;
    ks
  }

  /** The elements of `ks` whose record has email `email`, in their order in `ks`. */
  function Matching(m: map<Id, Employee>, ks: seq<Id>, email: string): (r: seq<Id>)
    requires forall k :: k in ks ==> k in m
    ensures forall k :: k in r <==> k in ks && m[k].email == email
    ensures Increasing(ks) ==> Increasing(r)
  {
    if ks == [] then []
    else
      assert ks[0] in ks;
      assert forall k :: k in ks[1..] ==> k in ks;
      var rest := Matching(m, ks[1..], email);
      assert Increasing(ks) ==> forall i :: 0 <= i < |rest| ==> ks[0] < rest[i] by {
        if Increasing(ks) {
          forall i | 0 <= i < |rest| ensures ks[0] < rest[i] {
            assert rest[i] in ks[1..];
          }
        }
      }
      if m[ks[0]].email == email then [ks[0]] + rest else rest
  }

  /** A strictly increasing sequence has as many distinct elements as it is long. */
  lemma {:induction false} IncreasingCard(ks: seq<Id>)
    requires Increasing(ks)
    ensures |set k | k in ks| == |ks|
  {
    if ks != [] {
      var init := ks[..|ks| - 1];
      var last := ks[|ks| - 1];
      IncreasingCard(init);
      assert (set k | k in ks) == (set k | k in init) + {last};
      assert last !in (set k | k in init);
    }
  }

  /** `findById`: the stored record, if any. */
  function FindById(s: Store, id: Id): (r: Option<Employee>)
    ensures r.Some? <==> id in s.records
    ensures r.Some? ==> r.value == s.records[id]
  {
    if id in s.records then Some(s.records[id]) else None
  }

  /** `existsById`. */
  function ExistsById(s: Store, id: Id): (b: bool)
    ensures b <==> FindById(s, id).Some?
  {
    id in s.records
  }

  /** The records stored under `ks`, in the order of `ks`. */
  function Lookup(m: map<Id, Employee>, ks: seq<Id>): (r: seq<Employee>)
    requires forall i :: 0 <= i < |ks| ==> ks[i] in m
    ensures |r| == |ks|
    ensures forall i :: 0 <= i < |ks| ==> r[i] == m[ks[i]]
  {
    if ks == [] then []
    else
      [m[ks[0]]] + Lookup(m, ks[1..])
  }

  /** Looking up keys yields only stored records. */
  lemma LookupWithinValues(m: map<Id, Employee>, ks: seq<Id>)
    requires forall i :: 0 <= i < |ks| ==> ks[i] in m
    ensures forall e :: e in Lookup(m, ks) ==> e in m.Values
  {
  }

  /** Looking up every stored key yields every stored record. */
  lemma LookupCoversRecords(m: map<Id, Employee>, ks: seq<Id>)
    requires forall i :: 0 <= i < |ks| ==> ks[i] in m
    requires forall k :: k in m ==> k in ks
    ensures forall k :: k in m ==> m[k] in Lookup(m, ks)
  {
    var r := Lookup(m, ks);
    forall k | k in m
      ensures m[k] in r
    {
      var i :| 0 <= i < |ks| && ks[i] == k;
      assert r[i] == m[k];
    }
  }

  /** There are as many stored ids as stored records. */
  lemma IdsCount(s: Store)
    requires Valid(s)
    ensures |Ids(s)| == |s.records|
  {
    var ks := Ids(s);
    IncreasingCard(ks);
    assert (set k | k in ks) == s.records.Keys;
  }

  /** Records looked up under ascending keys of a valid store have ascending ids. */
  lemma LookupIdsAscending(s: Store, ks: seq<Id>)
    requires Valid(s)
    requires forall i :: 0 <= i < |ks| ==> ks[i] in s.records
    requires Increasing(ks)
    ensures forall i :: 0 <= i < |ks| ==> Lookup(s.records, ks)[i].id == Some(ks[i])
    ensures forall i, j :: 0 <= i < j < |ks| ==>
      Lookup(s.records, ks)[i].id.value < Lookup(s.records, ks)[j].id.value
  {
  }

  /**
   * `findAll`: every stored record exactly once. The order is ascending id,
   * which is creation order; callers may not rely on it.
   */
  function FindAll(s: Store): (r: seq<Employee>)
    requires Valid(s)
    ensures |r| == |s.records|
    ensures forall e :: e in r ==> e in s.records.Values
    ensures forall k :: k in s.records ==> s.records[k] in r
    ensures forall i :: 0 <= i < |r| ==> r[i].id.Some? && r[i].id.value in s.records
    ensures forall i, j :: 0 <= i < j < |r| ==> r[i].id.value < r[j].id.value
  {
    var ks := Ids(s);
    IdsCount(s);
    LookupWithinValues(s.records, ks);
    LookupCoversRecords(s.records, ks);
    LookupIdsAscending(s, ks);
    Lookup(s.records, ks)
  }

  /**
   * `findEmployeeByEmail`: nothing when no record has the email, the record
   * when exactly one has it, and a failure when several do (a single-result
   * query that finds more than one row).
   */
  function FindByEmail(s: Store, email: string): (r: Result<Option<Employee>, StoreError>)
    requires Valid(s)
    ensures r.Failure? <==> EmailShared(s, email)
    ensures r.Failure? ==> r.error == NonUniqueResult(email)
    ensures r == Success(None) <==> !EmailTaken(s, email)
    ensures r.Success? && r.value.Some? ==>
      && r.value.value.id.Some?
      && HasEmail(s, r.value.value.id.value, email)
      && r.value.value == s.records[r.value.value.id.value]
  {
    var ms := Matching(s.records, Ids(s), email);
    if |ms| == 0 then
      assert forall k :: HasEmail(s, k, email) ==> k in ms;
      Success(None)
    else if |ms| == 1 then
      assert !EmailShared(s, email) by {
        forall j, k | HasEmail(s, j, email) && HasEmail(s, k, email) ensures j == k {
          assert j in ms && k in ms;
        }
      }
      assert HasEmail(s, ms[0], email);
      Success(Some(s.records[ms[0]]))
    else
      assert ms[0] < ms[1];
      assert HasEmail(s, ms[0], email) && HasEmail(s, ms[1], email);
      Failure(NonUniqueResult(email))
  }

  /**
   * `save`: an entity whose id is stored overwrites that record; any other
   * entity is inserted under the next id from the counter, which no record
   * holds yet. Either way the saved value carries its id and is returned,
   * and no other record changes.
   */
  function Save(s: Store, e: Employee): (r: (Store, Employee))
    requires Valid(s)
    ensures Valid(r.0)
    ensures r.1.id.Some? && FindById(r.0, r.1.id.value) == Some(r.1)
    ensures r.1.firstName == e.firstName && r.1.lastName == e.lastName
    ensures r.1.email == e.email && r.1.department == e.department
    ensures r.0.records.Keys == s.records.Keys + {r.1.id.value}
    ensures forall k :: k in s.records && k != r.1.id.value ==> r.0.records[k] == s.records[k]
    ensures !IsNew(s, e) ==> r.1 == e && r.0.nextId == s.nextId
    ensures IsNew(s, e) ==>
      && r.1.id == Some(s.nextId)
      && s.nextId !in s.records
      && r.0.nextId == s.nextId + 1
      && |r.0.records| == |s.records| + 1
  {
    if !IsNew(s, e) then
      (Store(s.records[e.id.value := e], s.nextId), e)
    else
      var saved := SetId(e, Some(s.nextId));
      (Store(s.records[s.nextId := saved], s.nextId + 1), saved)
  }

  /** `deleteById`: the record is gone, every other one stays, ids are not reused. */
  function DeleteById(s: Store, id: Id): (r: Store)
    requires Valid(s)
    ensures Valid(r)
    ensures !ExistsById(r, id)
    ensures r.records.Keys == s.records.Keys - {id}
    ensures forall k :: k in r.records ==> r.records[k] == s.records[k]
    ensures r.nextId == s.nextId
    ensures |r.records| == if id in s.records then |s.records| - 1 else |s.records|
  {
    Store(s.records - {id}, s.nextId)
  }
}
