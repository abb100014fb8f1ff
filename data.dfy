/**
 * The database behind `AppDbContext`: the Stores, Employees, EodReports and
 * SquareEvents tables, each a sequence of rows in the order of their ids, with
 * the AUTOINCREMENT counter that allocates the next id.
 */
module Data {
  import opened Wrappers
  import opened Dates
  import opened Models

  // ---- Primary keys: AUTOINCREMENT ids, strictly increasing in table order ----

  predicate StoreIdsAllocated(stores: seq<Store>, next: int) {
    && 1 <= next
    && (forall i :: 0 <= i < |stores| ==> 1 <= stores[i].id < next)
    && (forall i, j :: 0 <= i < j < |stores| ==> stores[i].id < stores[j].id)
  }

  predicate EmployeeIdsAllocated(employees: seq<Employee>, next: int) {
    && 1 <= next
    && (forall i :: 0 <= i < |employees| ==> 1 <= employees[i].id < next)
    && (forall i, j :: 0 <= i < j < |employees| ==> employees[i].id < employees[j].id)
  }

  predicate EodReportIdsAllocated(reports: seq<EodReport>, next: int) {
    && 1 <= next
    && (forall i :: 0 <= i < |reports| ==> 1 <= reports[i].id < next)
    && (forall i, j :: 0 <= i < j < |reports| ==> reports[i].id < reports[j].id)
  }

  predicate SquareEventIdsAllocated(events: seq<SquareEventRaw>, next: int) {
    && 1 <= next
    && (forall i :: 0 <= i < |events| ==> 1 <= events[i].id < next)
    && (forall i, j :: 0 <= i < j < |events| ==> events[i].id < events[j].id)
  }

  // ---- Unique keys ----

  /** The unique index on Employees (StoreId, FullName). */
  predicate EmployeeKeysUnique(employees: seq<Employee>) {
    forall i, j :: 0 <= i < j < |employees| ==>
      !(employees[i].storeId == employees[j].storeId && employees[i].fullName == employees[j].fullName)
  }

  /** The unique index on EodReports (StoreId, BizDate). */
  predicate EodReportKeysUnique(reports: seq<EodReport>) {
    forall i, j :: 0 <= i < j < |reports| ==>
      !(reports[i].storeId == reports[j].storeId && reports[i].bizDate == reports[j].bizDate)
  }

  /**
   * Store names are pairwise distinct. The schema has no such index; the store
   * operations keep it by checking before they write.
   */
  predicate StoreNamesUnique(stores: seq<Store>) {
    forall i, j :: 0 <= i < j < |stores| ==> stores[i].name != stores[j].name
  }

  // ---- Foreign keys ----

  predicate StoreExists(stores: seq<Store>, id: int) {
    exists i :: 0 <= i < |stores| && stores[i].id == id
  }

  predicate EmployeeStoresExist(employees: seq<Employee>, stores: seq<Store>) {
    forall i :: 0 <= i < |employees| ==> StoreExists(stores, employees[i].storeId)
  }

  predicate EodReportStoresExist(reports: seq<EodReport>, stores: seq<Store>) {
    forall i :: 0 <= i < |reports| ==> StoreExists(stores, reports[i].storeId)
  }

  // ---- Lookups by primary key: `FindAsync(id)` ----

  function StoreIndex(stores: seq<Store>, id: int): (k: Option<nat>)
    ensures k.Some? ==> k.value < |stores| && stores[k.value].id == id
    ensures k.None? <==> !StoreExists(stores, id)
  {
    if stores == [] then None
    else if stores[0].id == id then Some(0)
    else match StoreIndex(stores[1..], id)
      case None => None
      case Some(k) => Some(k + 1)
  }

  function EmployeeIndex(employees: seq<Employee>, id: int): (k: Option<nat>)
    ensures k.Some? ==> k.value < |employees| && employees[k.value].id == id
    ensures k.None? <==> forall i :: 0 <= i < |employees| ==> employees[i].id != id
  {
    if employees == [] then None
    else if employees[0].id == id then Some(0)
    else match EmployeeIndex(employees[1..], id)
      case None => None
      case Some(k) => Some(k + 1)
  }

  // ---- Cascades: the rows that survive the deletion of a store ----

  function EmployeesNotOf(employees: seq<Employee>, storeId: int): (r: seq<Employee>)
    ensures forall e :: e in r <==> e in employees && e.storeId != storeId
  {
    if employees == [] then []
    else if employees[0].storeId == storeId then EmployeesNotOf(employees[1..], storeId)
    else [employees[0]] + EmployeesNotOf(employees[1..], storeId)
  }

  function EodReportsNotOf(reports: seq<EodReport>, storeId: int): (r: seq<EodReport>)
    ensures forall x :: x in r <==> x in reports && x.storeId != storeId
  {
    if reports == [] then []
    else if reports[0].storeId == storeId then EodReportsNotOf(reports[1..], storeId)
    else [reports[0]] + EodReportsNotOf(reports[1..], storeId)
  }

  /** Dropping a store's employees keeps the ids allocated. */
  lemma {:induction false} EmployeesNotOfIds(employees: seq<Employee>, storeId: int, next: int)
    requires EmployeeIdsAllocated(employees, next)
    ensures EmployeeIdsAllocated(EmployeesNotOf(employees, storeId), next)
  {
    if employees != [] {
      var e, tail := employees[0], employees[1..];
      assert forall i :: 0 <= i < |tail| ==> tail[i] == employees[i + 1];
      EmployeesNotOfIds(tail, storeId, next);
      var rest := EmployeesNotOf(tail, storeId);
      if e.storeId != storeId {
        forall j | 0 <= j < |rest| ensures e.id < rest[j].id {
          assert rest[j] in tail;
          var m :| 0 <= m < |tail| && tail[m] == rest[j];
          assert employees[m + 1] == rest[j];
        }
        PrependEmployeeId(e, rest, next);
      }
    }
  }

  lemma PrependEmployeeId(e: Employee, rest: seq<Employee>, next: int)
    requires EmployeeIdsAllocated(rest, next) && 1 <= e.id < next
    requires forall j :: 0 <= j < |rest| ==> e.id < rest[j].id
    ensures EmployeeIdsAllocated([e] + rest, next)
  {
    var r := [e] + rest;
    assert forall i :: 0 < i < |r| ==> r[i] == rest[i - 1];
  }

  /** Dropping a store's employees keeps (StoreId, FullName) unique. */
  lemma {:induction false} EmployeesNotOfKeys(employees: seq<Employee>, storeId: int)
    requires EmployeeKeysUnique(employees)
    ensures EmployeeKeysUnique(EmployeesNotOf(employees, storeId))
  {
    if employees != [] {
      var tail := employees[1..];
      EmployeesNotOfKeys(tail, storeId);
      if employees[0].storeId != storeId {
        var e := employees[0];
        var rest := EmployeesNotOf(tail, storeId);
        var r := [e] + rest;
        forall j | 0 < j < |r| ensures !(e.storeId == r[j].storeId && e.fullName == r[j].fullName) {
          assert r[j] == rest[j - 1] && r[j] in tail;
          var m :| 0 <= m < |tail| && tail[m] == r[j];
          assert employees[m + 1] == r[j];
        }
      }
    }
  }

  /** Dropping a store's reports keeps the ids allocated. */
  lemma {:induction false} EodReportsNotOfIds(reports: seq<EodReport>, storeId: int, next: int)
    requires EodReportIdsAllocated(reports, next)
    ensures EodReportIdsAllocated(EodReportsNotOf(reports, storeId), next)
  {
    if reports != [] {
      var tail := reports[1..];
      assert forall i :: 0 <= i < |tail| ==> tail[i] == reports[i + 1];
      EodReportsNotOfIds(tail, storeId, next);
      if reports[0].storeId != storeId {
        var rest := EodReportsNotOf(tail, storeId);
        var r := [reports[0]] + rest;
        forall j | 0 < j < |r| ensures reports[0].id < r[j].id {
          assert r[j] == rest[j - 1] && r[j] in tail;
          var m :| 0 <= m < |tail| && tail[m] == r[j];
          assert reports[m + 1] == r[j];
        }
      }
    }
  }

  /** Dropping a store's reports keeps (StoreId, BizDate) unique. */
  lemma {:induction false} EodReportsNotOfKeys(reports: seq<EodReport>, storeId: int)
    requires EodReportKeysUnique(reports)
    ensures EodReportKeysUnique(EodReportsNotOf(reports, storeId))
  {
    if reports != [] {
      var tail := reports[1..];
      EodReportsNotOfKeys(tail, storeId);
      if reports[0].storeId != storeId {
        var x := reports[0];
        var rest := EodReportsNotOf(tail, storeId);
        var r := [x] + rest;
        forall j | 0 < j < |r| ensures !(x.storeId == r[j].storeId && x.bizDate == r[j].bizDate) {
          assert r[j] == rest[j - 1] && r[j] in tail;
          var m :| 0 <= m < |tail| && tail[m] == r[j];
          assert reports[m + 1] == r[j];
        }
      }
    }
  }

  /** The database: the four tables and their id counters. */
  class AppDb {
    var stores: seq<Store>
    var employees: seq<Employee>
    var eodReports: seq<EodReport>
    var squareEvents: seq<SquareEventRaw>
    var nextStoreId: int
    var nextEmployeeId: int
    var nextEodReportId: int
    var nextSquareEventId: int

    /** What the schema guarantees, together with the store names kept distinct. */
    predicate Valid()
      reads this
    {
      && StoreIdsAllocated(stores, nextStoreId)
      && EmployeeIdsAllocated(employees, nextEmployeeId)
      && EodReportIdsAllocated(eodReports, nextEodReportId)
      && SquareEventIdsAllocated(squareEvents, nextSquareEventId)
      && StoreNamesUnique(stores)
      && EmployeeKeysUnique(employees)
      && EodReportKeysUnique(eodReports)
      && EmployeeStoresExist(employees, stores)
      && EodReportStoresExist(eodReports, stores)
    }

    /** A freshly migrated, empty database. */
    constructor ()
      ensures Valid()
      ensures stores == [] && employees == [] && eodReports == [] && squareEvents == []
      ensures nextStoreId == 1 && nextEmployeeId == 1 && nextEodReportId == 1 && nextSquareEventId == 1
    {
      stores, employees, eodReports, squareEvents := [], [], [], [];
      nextStoreId, nextEmployeeId, nextEodReportId, nextSquareEventId := 1, 1, 1, 1;
    }

    /** `Stores.Add` and `SaveChanges`: the row is stored under the next id. */
    method InsertStore(name: string) returns (store: Store)
      requires Valid()
      requires forall i :: 0 <= i < |stores| ==> stores[i].name != name
      modifies this`stores, this`nextStoreId
      ensures Valid()
      ensures store == Store(old(nextStoreId), name)
      ensures stores == old(stores) + [store]
      ensures nextStoreId == old(nextStoreId) + 1
      ensures !StoreExists(old(stores), store.id)
    {
      store := Store(nextStoreId, name);
      stores := stores + [store];
      nextStoreId := nextStoreId + 1;
      assert forall i :: 0 <= i < |employees| ==> employees[i].storeId == old(stores)[StoreWitness(old(stores), employees[i].storeId)].id;
      StoreExistsGrows(old(stores), stores);
    }

    /** `store.Name = name` and `SaveChanges`: only the row at index `k` changes. */
    method RenameStore(k: nat, name: string) returns (store: Store)
      requires Valid() && k < |stores|
      requires forall i :: 0 <= i < |stores| && i != k ==> stores[i].name != name
      modifies this`stores
      ensures Valid()
      ensures store == Store(old(stores)[k].id, name)
      ensures stores == old(stores)[k := store]
    {
      store := Store(stores[k].id, name);
      stores := stores[k := store];
      assert forall id :: StoreExists(old(stores), id) ==> StoreExists(stores, id) by {
        forall id | StoreExists(old(stores), id) ensures StoreExists(stores, id) {
          var i := StoreWitness(old(stores), id);
          assert stores[i].id == id;
        }
      }
    }

    /**
     * `Stores.Remove` and `SaveChanges`. The delete cascades to the store's
     * EodReports (the foreign key's ON DELETE CASCADE) and to its Employees
     * (the cascade EF Core gives a required relationship).
     */
    method DeleteStore(k: nat)
      requires Valid() && k < |stores|
      modifies this`stores, this`employees, this`eodReports
      ensures Valid()
      ensures stores == old(stores)[..k] + old(stores)[k + 1..]
      ensures employees == EmployeesNotOf(old(employees), old(stores)[k].id)
      ensures eodReports == EodReportsNotOf(old(eodReports), old(stores)[k].id)
    {
      var id := stores[k].id;
      var before, staff, reports := stores, employees, eodReports;
      stores := stores[..k] + stores[k + 1..];
      employees := EmployeesNotOf(employees, id);
      eodReports := EodReportsNotOf(eodReports, id);
      RemovedStoreKeepsTable(before, k, nextStoreId);
      EmployeesNotOfIds(staff, id, nextEmployeeId);
      EmployeesNotOfKeys(staff, id);
      EodReportsNotOfIds(reports, id, nextEodReportId);
      EodReportsNotOfKeys(reports, id);
      CascadeKeepsForeignKeys(before, k, staff, reports);
    }

    /** `Employees.Add` and `SaveChanges`: the row is stored under the next id. */
    method InsertEmployee(e: Employee) returns (saved: Employee)
      requires Valid()
      requires StoreExists(stores, e.storeId)
      requires forall i :: 0 <= i < |employees| ==>
                 !(employees[i].storeId == e.storeId && employees[i].fullName == e.fullName)
      modifies this`employees, this`nextEmployeeId
      ensures Valid()
      ensures saved == e.(id := old(nextEmployeeId))
      ensures employees == old(employees) + [saved]
      ensures nextEmployeeId == old(nextEmployeeId) + 1
      ensures forall i :: 0 <= i < |old(employees)| ==> old(employees)[i].id != saved.id
    {
      saved := e.(id := nextEmployeeId);
      employees := employees + [saved];
      nextEmployeeId := nextEmployeeId + 1;
    }

    /** Assigning an Employee's fields and `SaveChanges`: only the row at index `k` changes. */
    method ReplaceEmployee(k: nat, e: Employee) returns (saved: Employee)
      requires Valid() && k < |employees|
      requires StoreExists(stores, e.storeId)
      requires forall i :: 0 <= i < |employees| && i != k ==>
                 !(employees[i].storeId == e.storeId && employees[i].fullName == e.fullName)
      modifies this`employees
      ensures Valid()
      ensures saved == e.(id := old(employees)[k].id)
      ensures employees == old(employees)[k := saved]
    {
      saved := e.(id := employees[k].id);
      employees := employees[k := saved];
    }

    /** `Employees.Remove` and `SaveChanges`. */
    method DeleteEmployee(k: nat)
      requires Valid() && k < |employees|
      modifies this`employees
      ensures Valid()
      ensures employees == old(employees)[..k] + old(employees)[k + 1..]
    {
      var before := employees;
      employees := employees[..k] + employees[k + 1..];
      assert forall i :: 0 <= i < |employees| ==> employees[i] == (if i < k then before[i] else before[i + 1]);
    }

    /** `SquareEvents.Add` and `SaveChanges`: the event is stored under the next id. */
    method AppendSquareEvent(ev: SquareEventRaw) returns (saved: SquareEventRaw)
      requires Valid()
      modifies this`squareEvents, this`nextSquareEventId
      ensures Valid()
      ensures saved == ev.(id := old(nextSquareEventId))
      ensures squareEvents == old(squareEvents) + [saved]
      ensures nextSquareEventId == old(nextSquareEventId) + 1
    {
      saved := ev.(id := nextSquareEventId);
      squareEvents := squareEvents + [saved];
      nextSquareEventId := nextSquareEventId + 1;
    }
  }

  /** An index of the store with that id. */
  function StoreWitness(stores: seq<Store>, id: int): (i: nat)
    requires StoreExists(stores, id)
    ensures i < |stores| && stores[i].id == id
  {
    StoreIndex(stores, id).value
  }

  /** Appending a store keeps every existing store findable. */
  lemma StoreExistsGrows(before: seq<Store>, after: seq<Store>)
    requires |before| <= |after| && before == after[..|before|]
    ensures forall id :: StoreExists(before, id) ==> StoreExists(after, id)
  {
    forall id | StoreExists(before, id) ensures StoreExists(after, id) {
      var i := StoreWitness(before, id);
      assert after[i].id == id;
    }
  }

  /** Removing a store keeps the table's ids allocated and its names distinct. */
  lemma RemovedStoreKeepsTable(stores: seq<Store>, k: nat, next: int)
    requires k < |stores|
    requires StoreIdsAllocated(stores, next) && StoreNamesUnique(stores)
    ensures StoreIdsAllocated(stores[..k] + stores[k + 1..], next)
    ensures StoreNamesUnique(stores[..k] + stores[k + 1..])
  {
    RemovedStoreKeepsOthers(stores, k);
  }

  /** After the cascade, every remaining employee and report still has its store. */
  lemma CascadeKeepsForeignKeys(stores: seq<Store>, k: nat, employees: seq<Employee>, reports: seq<EodReport>)
    requires k < |stores|
    requires forall i, j :: 0 <= i < j < |stores| ==> stores[i].id < stores[j].id
    requires EmployeeStoresExist(employees, stores) && EodReportStoresExist(reports, stores)
    ensures EmployeeStoresExist(EmployeesNotOf(employees, stores[k].id), stores[..k] + stores[k + 1..])
    ensures EodReportStoresExist(EodReportsNotOf(reports, stores[k].id), stores[..k] + stores[k + 1..])
  {
    var id, rest := stores[k].id, stores[..k] + stores[k + 1..];
    RemovedStoreKeepsOthers(stores, k);
    var staff := EmployeesNotOf(employees, id);
    forall i | 0 <= i < |staff| ensures StoreExists(rest, staff[i].storeId) {
      assert staff[i] in employees;
      var m :| 0 <= m < |employees| && employees[m] == staff[i];
    }
    var kept := EodReportsNotOf(reports, id);
    forall i | 0 <= i < |kept| ensures StoreExists(rest, kept[i].storeId) {
      assert kept[i] in reports;
      var m :| 0 <= m < |reports| && reports[m] == kept[i];
    }
  }

  /**
   * Removing the store at index `k` keeps every other store findable, and only
   * the removed store's id disappears, since ids are distinct.
   */
  lemma RemovedStoreKeepsOthers(stores: seq<Store>, k: nat)
    requires k < |stores|
    requires forall i, j :: 0 <= i < j < |stores| ==> stores[i].id < stores[j].id
    ensures forall id :: StoreExists(stores, id) && id != stores[k].id ==>
              StoreExists(stores[..k] + stores[k + 1..], id)
    ensures var rest := stores[..k] + stores[k + 1..];
            forall i :: 0 <= i < |rest| ==> rest[i] == (if i < k then stores[i] else stores[i + 1])
  {
    var rest := stores[..k] + stores[k + 1..];
    forall id | StoreExists(stores, id) && id != stores[k].id
      ensures StoreExists(rest, id)
    {
      var i := StoreWitness(stores, id);
      if i < k {
        assert rest[i] == stores[i];
      } else {
        assert i > k;
        assert rest[i - 1] == stores[i];
      }
    }
  }
}
