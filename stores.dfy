/**
 * `/api/stores`: list, read, create, rename and delete stores. Names are kept
 * distinct by checking before each write; deleting a store takes its
 * employees and EOD reports with it.
 */
module StoresController {
  import opened Wrappers
  import opened FluentRules
  import opened Models
  import opened Data
  import opened Http
  import StoreDtoValidator

  const DuplicateNameMessage := "Store name already exists."

  /** `Stores.AnyAsync(s => s.Name == name)`; names compare ordinally, as SQLite's BINARY collation does. */
  predicate NameTaken(stores: seq<Store>, name: string) {
    exists i :: 0 <= i < |stores| && stores[i].name == name
  }

  /** `Stores.AnyAsync(s => s.Id != id && s.Name == name)`. */
  predicate NameTakenByOther(stores: seq<Store>, id: int, name: string) {
    exists i :: 0 <= i < |stores| && stores[i].id != id && stores[i].name == name
  }

  /** Keeping a store's own name is never a clash, since names are distinct. */
  lemma OwnNameIsFree(stores: seq<Store>, k: nat)
    requires StoreNamesUnique(stores) && k < |stores|
    ensures !NameTakenByOther(stores, stores[k].id, stores[k].name)
  {
    forall i | 0 <= i < |stores| && stores[i].id != stores[k].id
      ensures stores[i].name != stores[k].name
    {
      assert i != k;
    }
  }

  /** `GET /api/stores`: every store, in increasing id order. */
  function List(db: AppDb): (r: ActionResult<seq<Store>>)
    reads db
    requires db.Valid()
    ensures r.Ok?
    ensures forall s :: s in r.body <==> s in db.stores
    ensures forall i, j :: 0 <= i < j < |r.body| ==> r.body[i].id < r.body[j].id
  {
    Ok(db.stores)
  }

  /** `GET /api/stores/{id}`. */
  function Get(db: AppDb, id: int): (r: ActionResult<Store>)
    reads db
    ensures r.Ok? || r.NotFound?
    ensures r.Ok? <==> StoreExists(db.stores, id)
    ensures r.Ok? ==> r.body in db.stores && r.body.id == id
  {
    match StoreIndex(db.stores, id)
    case None => NotFound
    case Some(k) => Ok(db.stores[k])
  }

  /** In a valid database, a store found by id is the one with that id. */
  lemma GetFindsTheStore(db: AppDb, k: nat)
    requires db.Valid() && k < |db.stores|
    ensures Get(db, db.stores[k].id) == Ok(db.stores[k])
  {
    forall i | 0 <= i < |db.stores| && i != k
      ensures db.stores[i].id != db.stores[k].id
    {
      if i < k {
        assert db.stores[i].id < db.stores[k].id;
      } else {
        assert db.stores[k].id < db.stores[i].id;
      }
    }
  }

  /** `POST /api/stores`: validation, then the name check, then the insert. */
  method Create(db: AppDb, dto: StoreDto) returns (r: ActionResult<Store>)
    requires db.Valid()
    modifies db`stores, db`nextStoreId
    ensures db.Valid()
    ensures r.ValidationProblem? <==> StoreDtoValidator.Validate(dto) != map[]
    ensures r.ValidationProblem? ==> r.errors == StoreDtoValidator.Validate(dto)
    ensures r.Conflict? <==> StoreDtoValidator.Validate(dto) == map[] && NameTaken(old(db.stores), dto.name)
    ensures r.Conflict? ==> r.message == DuplicateNameMessage
    ensures r.ValidationProblem? || r.Conflict? || r.Created?
    ensures !r.Created? ==> db.stores == old(db.stores) && db.nextStoreId == old(db.nextStoreId)
    ensures r.Created? ==>
              && r.body == Store(old(db.nextStoreId), dto.name) && r.id == r.body.id
              && db.stores == old(db.stores) + [r.body]
              && !StoreExists(old(db.stores), r.id)
              && Get(db, r.id) == Ok(r.body)
  {
    var errors := StoreDtoValidator.Validate(dto);
    if errors != map[] {
      return ValidationProblem(errors);
    }
    if NameTaken(db.stores, dto.name) {
      return Conflict(DuplicateNameMessage);
    }
    var store := db.InsertStore(dto.name);
    GetFindsTheStore(db, |db.stores| - 1);
    return Created(store.id, store);
  }

  /** `PUT /api/stores/{id}`: validation, lookup, the name check among the other stores, then the rename. */
  method Update(db: AppDb, id: int, dto: StoreDto) returns (r: ActionResult<Store>)
    requires db.Valid()
    modifies db`stores
    ensures db.Valid()
    ensures r.ValidationProblem? <==> StoreDtoValidator.Validate(dto) != map[]
    ensures r.ValidationProblem? ==> r.errors == StoreDtoValidator.Validate(dto)
    ensures r.NotFound? <==> StoreDtoValidator.Validate(dto) == map[] && !StoreExists(old(db.stores), id)
    ensures r.Conflict? <==>
              && StoreDtoValidator.Validate(dto) == map[] && StoreExists(old(db.stores), id)
              && NameTakenByOther(old(db.stores), id, dto.name)
    ensures r.Conflict? ==> r.message == DuplicateNameMessage
    ensures r.ValidationProblem? || r.NotFound? || r.Conflict? || r.Ok?
    ensures !r.Ok? ==> db.stores == old(db.stores)
    ensures r.Ok? ==>
              && r.body == Store(id, dto.name)
              && exists k :: 0 <= k < |old(db.stores)| && old(db.stores)[k].id == id && db.stores == old(db.stores)[k := r.body]
  {
    var errors := StoreDtoValidator.Validate(dto);
    if errors != map[] {
      return ValidationProblem(errors);
    }
    var k := StoreIndex(db.stores, id);
    if k.None? {
      return NotFound;
    }
    if NameTakenByOther(db.stores, id, dto.name) {
      return Conflict(DuplicateNameMessage);
    }
    var store := db.RenameStore(k.value, dto.name);
    return Ok(store);
  }

  /** `DELETE /api/stores/{id}`: the store goes, and with it its employees and EOD reports. */
  method Delete(db: AppDb, id: int) returns (r: ActionResult<Store>)
    requires db.Valid()
    modifies db`stores, db`employees, db`eodReports
    ensures db.Valid()
    ensures r.NotFound? <==> !StoreExists(old(db.stores), id)
    ensures r.NotFound? || r.NoContent?
    ensures r.NotFound? ==> db.stores == old(db.stores) && db.employees == old(db.employees) && db.eodReports == old(db.eodReports)
    ensures r.NoContent? ==>
              && (forall s :: s in db.stores <==> s in old(db.stores) && s.id != id)
              && db.employees == EmployeesNotOf(old(db.employees), id)
              && db.eodReports == EodReportsNotOf(old(db.eodReports), id)
              && Get(db, id) == NotFound
  {
    var k := StoreIndex(db.stores, id);
    if k.None? {
      return NotFound;
    }
    ghost var before := db.stores;
    db.DeleteStore(k.value);
    RemovedStoreIsGone(before, db.nextStoreId, k.value);
    return NoContent;
  }

  /** Removing the row at `k` removes exactly the store with its id. */
  lemma RemovedStoreIsGone(stores: seq<Store>, next: int, k: nat)
    requires StoreIdsAllocated(stores, next) && k < |stores|
    ensures var rest := stores[..k] + stores[k + 1..];
            && (forall s :: s in rest <==> s in stores && s.id != stores[k].id)
            && !StoreExists(rest, stores[k].id)
  {
    var rest := stores[..k] + stores[k + 1..];
    assert forall i :: 0 <= i < |rest| ==> rest[i] == if i < k then stores[i] else stores[i + 1];
    forall s | s in stores && s.id != stores[k].id
      ensures s in rest
    {
      var i :| 0 <= i < |stores| && stores[i] == s;
      if i < k {
        assert rest[i] == s;
      } else {
        assert i != k;
        assert rest[i - 1] == s;
      }
    }
    forall i | 0 <= i < |rest|
      ensures rest[i].id != stores[k].id
    {
      if i < k {
        assert stores[i].id < stores[k].id;
      } else {
        assert stores[k].id < stores[i + 1].id;
      }
    }
  }
}
