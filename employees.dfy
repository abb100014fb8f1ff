/**
 * `/api/employees`: a filtered, name-ordered, paged listing, lookup by id,
 * and create, update and delete. Employees belong to an existing store, and
 * no two in one store share a full name.
 */
module EmployeesController {
  import opened Wrappers
  import opened Text
  import opened Dates
  import opened FluentRules
  import opened Models
  import opened Data
  import opened Http
  import EmployeeDtoValidator

  /** C#'s `int`. */
  newtype int32 = x: int | -0x8000_0000 <= x < 0x8000_0000

  const BadPageMessage := "page/pageSize must be positive."
  const StoreNotFoundMessage := "Store not found."
  const DuplicateMessage := "Employee already exists in this store."
  const DuplicateOnUpdateMessage := "Another employee with same name exists in this store."

  /** The query string of `GET /api/employees`; `page` defaults to 1 and `pageSize` to 50. */
  datatype Query = Query(storeId: Option<int32>, active: Option<bool>, name: Option<string>, page: int32, pageSize: int32)

  /** The body of the listing: `{ total, page, pageSize, items }`. */
  datatype EmployeePage = EmployeePage(total: int, page: int32, pageSize: int32, items: seq<Employee>)

  // ---- Filtering ----

  /** The `Where` clauses: each filter applies only when it is given. */
  predicate Matches(q: Query, e: Employee) {
    && (q.storeId.Some? ==> e.storeId == q.storeId.value as int)
    && (q.active.Some? ==> e.active == q.active.value)
    && (!IsNullOrWhiteSpace(q.name) ==> Contains(e.fullName, q.name.value))
  }

  /** The rows that match, each as often as the table holds it. */
  function Filter(employees: seq<Employee>, q: Query): (r: seq<Employee>)
    ensures |r| <= |employees|
    ensures forall e :: e in r <==> e in employees && Matches(q, e)
    ensures forall e :: multiset(r)[e] == if Matches(q, e) then multiset(employees)[e] else 0
  {
    if employees == [] then []
    else
      assert employees == [employees[0]] + employees[1..];
      if Matches(q, employees[0]) then [employees[0]] + Filter(employees[1..], q)
      else Filter(employees[1..], q)
  }

  /** A blank name filter filters nothing. */
  lemma {:induction false} BlankNameFiltersNothing(employees: seq<Employee>, q: Query)
    requires q.storeId.None? && q.active.None? && IsNullOrWhiteSpace(q.name)
    ensures Filter(employees, q) == employees
  {
    if employees != [] {
      BlankNameFiltersNothing(employees[1..], q);
      assert employees == [employees[0]] + employees[1..];
    }
  }

  // ---- Ordering: `OrderBy(e => e.FullName)` ----

  /** Full names in ordinal order, as SQLite's BINARY collation sorts them. */
  predicate SortedByName(s: seq<Employee>) {
    forall i, j :: 0 <= i < j < |s| ==> OrdinalLessOrEqual(s[i].fullName, s[j].fullName)
  }

  /** Inserts `e` before the first row whose name is not below its own. */
  function Insert(e: Employee, s: seq<Employee>): (r: seq<Employee>)
    ensures multiset(r) == multiset(s) + multiset{e}
  {
    if s == [] || OrdinalLessOrEqual(e.fullName, s[0].fullName) then [e] + s
    else
      assert s == [s[0]] + s[1..];
      [s[0]] + Insert(e, s[1..])
  }

  lemma {:induction false} InsertSorted(e: Employee, s: seq<Employee>)
    requires SortedByName(s)
    ensures SortedByName(Insert(e, s))
  {
    if s == [] {
    } else if OrdinalLessOrEqual(e.fullName, s[0].fullName) {
      forall j | 0 <= j < |s|
        ensures OrdinalLessOrEqual(e.fullName, s[j].fullName)
      {
        if j > 0 {
          OrdinalTransitive(e.fullName, s[0].fullName, s[j].fullName);
        }
      }
      ConsSorted(e, s);
    } else {
      var t := s[1..];
      assert SortedByName(t) by {
        assert forall j :: 0 <= j < |t| ==> t[j] == s[j + 1];
      }
      InsertSorted(e, t);
      OrdinalTotal(e.fullName, s[0].fullName);
      HeadBelowInsert(e, s);
      ConsSorted(s[0], Insert(e, t));
    }
  }

  /** A row no greater than every row of an ordered list can go in front of it. */
  lemma ConsSorted(h: Employee, u: seq<Employee>)
    requires SortedByName(u)
    requires forall j :: 0 <= j < |u| ==> OrdinalLessOrEqual(h.fullName, u[j].fullName)
    ensures SortedByName([h] + u)
  {
    assert forall j :: 1 <= j < |[h] + u| ==> ([h] + u)[j] == u[j - 1];
  }

  /** The head of an ordered list stays below everything once `e`, not below it, goes into the tail. */
  lemma HeadBelowInsert(e: Employee, s: seq<Employee>)
    requires s != [] && SortedByName(s) && OrdinalLessOrEqual(s[0].fullName, e.fullName)
    ensures forall j :: 0 <= j < |Insert(e, s[1..])| ==> OrdinalLessOrEqual(s[0].fullName, Insert(e, s[1..])[j].fullName)
  {
    var t := s[1..];
    var u := Insert(e, t);
    forall j | 0 <= j < |u|
      ensures OrdinalLessOrEqual(s[0].fullName, u[j].fullName)
    {
      assert u[j] in multiset(u);
      if u[j] != e {
        assert u[j] in multiset(t);
        var m :| 0 <= m < |t| && t[m] == u[j];
        assert s[m + 1] == u[j];
      }
    }
  }

  /** The rows ordered by full name; rows with equal names keep their table order. */
  function SortByName(s: seq<Employee>): (r: seq<Employee>)
    ensures SortedByName(r)
    ensures multiset(r) == multiset(s)
  {
    if s == [] then []
    else
      var t := SortByName(s[1..]);
      InsertSorted(s[0], t);
      assert s == [s[0]] + s[1..];
      Insert(s[0], t)
  }

  // ---- Paging: `Skip((page - 1) * pageSize).Take(pageSize)` ----

  /**
   * `Skip(offset).Take(count)`, translated to SQLite's `LIMIT count OFFSET
   * offset`; a negative offset counts as zero.
   */
  function Window(s: seq<Employee>, offset: int, count: nat): (r: seq<Employee>)
    ensures var lo := if offset < 0 then 0 else offset;
            && |r| == (if lo >= |s| then 0 else if |s| - lo < count then |s| - lo else count)
            && forall i :: 0 <= i < |r| ==> r[i] == s[lo + i]
  {
    var lo := if offset < 0 then 0 else if offset > |s| then |s| else offset;
    var hi := if lo + count > |s| then |s| else lo + count;
    s[lo..hi]
  }

  /**
   * `(page - 1) * pageSize` in unbounded arithmetic: the offset the paging
   * means, the number of rows on the `page - 1` full pages before `page`.
   */
  function Offset(page: int32, pageSize: int32): (r: int)
    ensures 0 < page && 0 < pageSize ==> 0 <= r
    ensures 0 < pageSize ==> r % pageSize as int == 0 && r / pageSize as int == page as int - 1
  {
    MultipleDivides(page as int - 1, pageSize as int);
    (page as int - 1) * pageSize as int
  }

  lemma MultipleDivides(k: int, n: int)
    ensures 0 < n ==> (k * n) % n == 0 && (k * n) / n == k
  {
  }

  /** C#'s unchecked `int` arithmetic: the result taken modulo 2^32, as a signed value. */
  function Wrap32(x: int): (r: int32)
    ensures (r as int - x) % 0x1_0000_0000 == 0
    ensures -0x8000_0000 <= x < 0x8000_0000 ==> r as int == x
  {
    ((x + 0x8000_0000) % 0x1_0000_0000 - 0x8000_0000) as int32
  }

  /**
   * `(page - 1) * pageSize` as the source computes it, in 32-bit arithmetic:
   * the true offset up to a multiple of 2^32.
   */
  function OffsetAsWritten(page: int32, pageSize: int32): (r: int32)
    ensures (r as int - Offset(page, pageSize)) % 0x1_0000_0000 == 0
  {
    var m := 0x1_0000_0000;
    var w := Wrap32(page as int - 1);
    var r := Wrap32(w as int * pageSize as int);
    var k := (w as int - (page as int - 1)) / m;
    assert w as int == page as int - 1 + k * m;
    assert w as int * pageSize as int == Offset(page, pageSize) + (k * pageSize as int) * m;
    MultipleDivides(k * pageSize as int, m);
    SumOfMultiples(r as int - w as int * pageSize as int, (k * pageSize as int) * m, m);
    r
  }

  lemma SumOfMultiples(a: int, b: int, m: int)
    requires 0 < m && a % m == 0 && b % m == 0
    ensures (a + b) % m == 0
  {
    assert a == (a / m) * m && b == (b / m) * m;
    assert a + b == (a / m + b / m) * m;
    MultipleDivides(a / m + b / m, m);
  }

  /** While the offset fits in 32 bits, the two agree. */
  lemma OffsetAsWrittenAgrees(page: int32, pageSize: int32)
    requires 0 < page && 0 < pageSize && Offset(page, pageSize) < 0x8000_0000
    ensures OffsetAsWritten(page, pageSize) as int == Offset(page, pageSize)
  {
  }

  /**
   * Page 85899347 of 50 wraps to offset 4: far past the end of any table, it
   * returns rows 4 to 53 again instead of nothing.
   */
  lemma OffsetAsWrittenWraps()
    ensures Offset(85899347, 50) == 4294967300
    ensures OffsetAsWritten(85899347, 50) == 4
  {
  }

  /** With the unbounded offset, a page past the end is empty. */
  lemma PastTheEndIsEmpty(s: seq<Employee>, page: int32, pageSize: int32)
    requires 0 < page && 0 < pageSize && |s| <= Offset(page, pageSize)
    ensures Window(s, Offset(page, pageSize), pageSize as int) == []
  {
  }

  /** Every row is on exactly one page: row `i` is entry `i % pageSize` of page `i / pageSize + 1`. */
  lemma EveryRowOnItsPage(s: seq<Employee>, pageSize: int32, i: nat)
    requires 0 < pageSize && i < |s| && i / pageSize as int + 1 < 0x8000_0000
    ensures var page := (i / pageSize as int + 1) as int32;
            var w := Window(s, Offset(page, pageSize), pageSize as int);
            i % pageSize as int < |w| && w[i % pageSize as int] == s[i]
  {
    var n := pageSize as int;
    var p := i / n;
    var j := i % n;
    DivMod(i, n);
    var lo := p * n;
    var off := Offset((p + 1) as int32, pageSize);
    assert off == lo;
    var w := Window(s, off, n);
    assert lo + j == i;
    assert j < |w|;
    assert w[j] == s[lo + j];
  }

  lemma DivMod(i: nat, n: int)
    requires 0 < n
    ensures (i / n) * n + i % n == i && 0 <= i % n < n && 0 <= i / n
  {
  }

  // ---- The endpoints ----

  /** `GET /api/employees`. */
  function List(db: AppDb, q: Query): (r: ActionResult<EmployeePage>)
    reads db
    ensures r.BadRequest? <==> q.page <= 0 || q.pageSize <= 0
    ensures r.BadRequest? ==> r.message == BadPageMessage
    ensures r.BadRequest? || r.Ok?
    ensures r.Ok? ==>
              && r.body.total == |Filter(db.employees, q)|
              && r.body.page == q.page && r.body.pageSize == q.pageSize
              && |r.body.items| <= q.pageSize as int
              && SortedByName(r.body.items)
              && (forall e :: e in r.body.items ==> e in db.employees && Matches(q, e))
              && r.body.items == Window(SortByName(Filter(db.employees, q)), Offset(q.page, q.pageSize), q.pageSize as int)
  {
    if q.page <= 0 || q.pageSize <= 0 then BadRequest(BadPageMessage)
    else
      var matching := Filter(db.employees, q);
      var sorted := SortByName(matching);
      var items := Window(sorted, Offset(q.page, q.pageSize), q.pageSize as int);
      assert forall e :: e in items ==> e in multiset(sorted);
      Ok(EmployeePage(|matching|, q.page, q.pageSize, items))
  }

  /** `GET /api/employees/{id}`. */
  function GetById(db: AppDb, id: int): (r: ActionResult<Employee>)
    reads db
    ensures r.Ok? || r.NotFound?
    ensures r.NotFound? <==> forall i :: 0 <= i < |db.employees| ==> db.employees[i].id != id
    ensures r.Ok? ==> r.body in db.employees && r.body.id == id
  {
    match EmployeeIndex(db.employees, id)
    case None => NotFound
    case Some(k) => Ok(db.employees[k])
  }

  /** In a valid database the id names one row. */
  lemma EmployeeIdsDistinct(employees: seq<Employee>, next: int, k: nat)
    requires EmployeeIdsAllocated(employees, next) && k < |employees|
    ensures forall i :: 0 <= i < |employees| && i != k ==> employees[i].id != employees[k].id
  {
    forall i | 0 <= i < |employees| && i != k
      ensures employees[i].id != employees[k].id
    {
      if i < k {
        assert employees[i].id < employees[k].id;
      } else {
        assert employees[k].id < employees[i].id;
      }
    }
  }

  lemma GetByIdFindsTheRow(db: AppDb, k: nat)
    requires db.Valid() && k < |db.employees|
    ensures GetById(db, db.employees[k].id) == Ok(db.employees[k])
  {
    EmployeeIdsDistinct(db.employees, db.nextEmployeeId, k);
  }

  /** `Employees.AnyAsync(e => e.StoreId == storeId && e.FullName == fullName)`. */
  predicate KeyTaken(employees: seq<Employee>, storeId: int, fullName: string) {
    exists i :: 0 <= i < |employees| && employees[i].storeId == storeId && employees[i].fullName == fullName
  }

  /** The same, among the rows whose id is not `id`. */
  predicate KeyTakenByOther(employees: seq<Employee>, id: int, storeId: int, fullName: string) {
    exists i :: 0 <= i < |employees| && employees[i].id != id
                && employees[i].storeId == storeId && employees[i].fullName == fullName
  }

  /** Saving an employee under its own store and name is never a clash. */
  lemma OwnKeyIsFree(employees: seq<Employee>, k: nat)
    requires EmployeeKeysUnique(employees) && k < |employees|
    ensures !KeyTakenByOther(employees, employees[k].id, employees[k].storeId, employees[k].fullName)
  {
    forall i | 0 <= i < |employees| && employees[i].id != employees[k].id
      ensures !(employees[i].storeId == employees[k].storeId && employees[i].fullName == employees[k].fullName)
    {
      assert i != k;
    }
  }

  /** The HireDate the row gets: none when the body's is blank, otherwise the culture's reading of it. */
  function HireDateOf(dto: EmployeeDto, tryParse: CultureDateParser): Option<DateOnly> {
    if IsNullOrWhiteSpace(dto.hireDate) then None else tryParse(dto.hireDate.value)
  }

  /** After validation, the controller's own reading of HireDate cannot fail. */
  lemma HireDateRecheckPasses(dto: EmployeeDto, tryParse: CultureDateParser)
    requires EmployeeDtoValidator.Validate(dto, tryParse) == map[]
    requires !IsNullOrWhiteSpace(dto.hireDate)
    ensures HireDateOf(dto, tryParse).Some?
  {
    assert "HireDate" !in EmployeeDtoValidator.Validate(dto, tryParse);
  }

  /** The row built from a body. */
  function EmployeeFrom(dto: EmployeeDto, tryParse: CultureDateParser, id: int): (e: Employee)
    ensures e.id == id && e.storeId == dto.storeId && e.fullName == dto.fullName && e.role == dto.role
    ensures e.hireDate == HireDateOf(dto, tryParse) && e.active == dto.active
  {
    Employee(id, dto.storeId, dto.fullName, dto.role, HireDateOf(dto, tryParse), dto.active)
  }

  /** The answer when the body names a store that does not exist. */
  const StoreNotFound: Errors := map["StoreId" := [WithMessage(StoreNotFoundMessage)]]

  /** What `Create` answers, in the order the source checks. */
  function CreateAnswer(employees: seq<Employee>, stores: seq<Store>, next: int, dto: EmployeeDto, tryParse: CultureDateParser): (r: ActionResult<Employee>)
    ensures r.ValidationProblem? || r.Conflict? || r.Created?
    ensures r.ValidationProblem? <==>
              EmployeeDtoValidator.Validate(dto, tryParse) != map[] || !StoreExists(stores, dto.storeId)
    ensures r.ValidationProblem? ==>
              r.errors == if EmployeeDtoValidator.Validate(dto, tryParse) != map[]
                          then EmployeeDtoValidator.Validate(dto, tryParse) else StoreNotFound
    ensures r.Conflict? <==>
              && EmployeeDtoValidator.Validate(dto, tryParse) == map[] && StoreExists(stores, dto.storeId)
              && KeyTaken(employees, dto.storeId, dto.fullName)
    ensures r.Conflict? ==> r.message == DuplicateMessage
    ensures r.Created? ==> r.id == next && r.body == EmployeeFrom(dto, tryParse, next)
  {
    var errors := EmployeeDtoValidator.Validate(dto, tryParse);
    if errors != map[] then ValidationProblem(errors)
    else if !StoreExists(stores, dto.storeId) then ValidationProblem(StoreNotFound)
    else if KeyTaken(employees, dto.storeId, dto.fullName) then Conflict(DuplicateMessage)
    else Created(next, EmployeeFrom(dto, tryParse, next))
  }

  /**
   * `POST /api/employees`: validation, the store check, the HireDate reading,
   * the name check within the store, then the insert.
   */
  method Create(db: AppDb, dto: EmployeeDto, tryParse: CultureDateParser) returns (r: ActionResult<Employee>)
    requires db.Valid()
    modifies db`employees, db`nextEmployeeId
    ensures db.Valid()
    ensures r == CreateAnswer(old(db.employees), db.stores, old(db.nextEmployeeId), dto, tryParse)
    ensures !r.Created? ==> db.employees == old(db.employees) && db.nextEmployeeId == old(db.nextEmployeeId)
    ensures r.Created? ==>
              && db.employees == old(db.employees) + [r.body]
              && GetById(db, r.id) == Ok(r.body)
              && forall i :: 0 <= i < |old(db.employees)| ==> old(db.employees)[i].id != r.id
  {
    var errors := EmployeeDtoValidator.Validate(dto, tryParse);
    if errors != map[] {
      return ValidationProblem(errors);
    }
    if !StoreExists(db.stores, dto.storeId) {
      return ValidationProblem(StoreNotFound);
    }
    var hire := None;
    if !IsNullOrWhiteSpace(dto.hireDate) {
      var d := tryParse(dto.hireDate.value);
      if d.None? {
        // The validator has already rejected such a HireDate.
        assert false;
      }
      hire := d;
    }
    if KeyTaken(db.employees, dto.storeId, dto.fullName) {
      return Conflict(DuplicateMessage);
    }
    var emp := Employee(0, dto.storeId, dto.fullName, dto.role, hire, dto.active);
    var saved := db.InsertEmployee(emp);
    GetByIdFindsTheRow(db, |db.employees| - 1);
    return Created(saved.id, saved);
  }

  /** Some row has the id: what `FindAsync(id)` finds. */
  predicate EmployeeExists(employees: seq<Employee>, id: int) {
    exists i :: 0 <= i < |employees| && employees[i].id == id
  }

  /** What `Update` answers, in the order the source checks. */
  function UpdateAnswer(employees: seq<Employee>, stores: seq<Store>, id: int, dto: EmployeeDto, tryParse: CultureDateParser): (r: ActionResult<Employee>)
    ensures r.ValidationProblem? || r.NotFound? || r.Conflict? || r.Ok?
    ensures r.NotFound? <==>
              EmployeeDtoValidator.Validate(dto, tryParse) == map[] && !EmployeeExists(employees, id)
    ensures r.ValidationProblem? <==>
              || EmployeeDtoValidator.Validate(dto, tryParse) != map[]
              || (EmployeeExists(employees, id) && !StoreExists(stores, dto.storeId))
    ensures r.ValidationProblem? ==>
              r.errors == if EmployeeDtoValidator.Validate(dto, tryParse) != map[]
                          then EmployeeDtoValidator.Validate(dto, tryParse) else StoreNotFound
    ensures r.Conflict? <==>
              && EmployeeDtoValidator.Validate(dto, tryParse) == map[]
              && EmployeeExists(employees, id) && StoreExists(stores, dto.storeId)
              && KeyTakenByOther(employees, id, dto.storeId, dto.fullName)
    ensures r.Conflict? ==> r.message == DuplicateOnUpdateMessage
    ensures r.Ok? ==> r.body == EmployeeFrom(dto, tryParse, id)
  {
    var errors := EmployeeDtoValidator.Validate(dto, tryParse);
    if errors != map[] then ValidationProblem(errors)
    else if EmployeeIndex(employees, id).None? then NotFound
    else if !StoreExists(stores, dto.storeId) then ValidationProblem(StoreNotFound)
    else if KeyTakenByOther(employees, id, dto.storeId, dto.fullName) then Conflict(DuplicateOnUpdateMessage)
    else Ok(EmployeeFrom(dto, tryParse, id))
  }

  /** Re-saving an employee's own store and name with valid fields is never a conflict. */
  lemma ResaveIsNotConflict(employees: seq<Employee>, stores: seq<Store>, k: nat, dto: EmployeeDto, tryParse: CultureDateParser)
    requires EmployeeKeysUnique(employees) && k < |employees|
    requires dto.storeId == employees[k].storeId && dto.fullName == employees[k].fullName
    ensures !UpdateAnswer(employees, stores, employees[k].id, dto, tryParse).Conflict?
  {
    OwnKeyIsFree(employees, k);
  }

  /**
   * `PUT /api/employees/{id}`: validation, the lookup, the store check, the
   * HireDate reading, the name check among the other rows, then every field
   * but the id is replaced.
   */
  method Update(db: AppDb, id: int, dto: EmployeeDto, tryParse: CultureDateParser) returns (r: ActionResult<Employee>)
    requires db.Valid()
    modifies db`employees
    ensures db.Valid()
    ensures r == UpdateAnswer(old(db.employees), db.stores, id, dto, tryParse)
    ensures !r.Ok? ==> db.employees == old(db.employees)
    ensures r.Ok? ==>
              && db.employees == old(db.employees)[EmployeeIndex(old(db.employees), id).value := r.body]
              && GetById(db, id) == Ok(r.body)
  {
    var errors := EmployeeDtoValidator.Validate(dto, tryParse);
    if errors != map[] {
      return ValidationProblem(errors);
    }
    var k := EmployeeIndex(db.employees, id);
    if k.None? {
      return NotFound;
    }
    if !StoreExists(db.stores, dto.storeId) {
      return ValidationProblem(StoreNotFound);
    }
    var hire := None;
    if !IsNullOrWhiteSpace(dto.hireDate) {
      var d := tryParse(dto.hireDate.value);
      if d.None? {
        // The validator has already rejected such a HireDate.
        assert false;
      }
      hire := d;
    }
    if KeyTakenByOther(db.employees, id, dto.storeId, dto.fullName) {
      return Conflict(DuplicateOnUpdateMessage);
    }
    EmployeeIdsDistinct(db.employees, db.nextEmployeeId, k.value);
    var saved := db.ReplaceEmployee(k.value, Employee(id, dto.storeId, dto.fullName, dto.role, hire, dto.active));
    GetByIdFindsTheRow(db, k.value);
    return Ok(saved);
  }

  /** `DELETE /api/employees/{id}`. */
  method Delete(db: AppDb, id: int) returns (r: ActionResult<Employee>)
    requires db.Valid()
    modifies db`employees
    ensures db.Valid()
    ensures r.NotFound? <==> old(GetById(db, id)).NotFound?
    ensures r.NotFound? || r.NoContent?
    ensures r.NotFound? ==> db.employees == old(db.employees)
    ensures r.NoContent? ==>
              && (forall e :: e in db.employees <==> e in old(db.employees) && e.id != id)
              && GetById(db, id) == NotFound
  {
    var k := EmployeeIndex(db.employees, id);
    if k.None? {
      return NotFound;
    }
    ghost var before := db.employees;
    EmployeeIdsDistinct(before, db.nextEmployeeId, k.value);
    db.DeleteEmployee(k.value);
    RemovedRowIsGone(before, k.value);
    return NoContent;
  }

  /** Removing the row at `k` removes exactly the employee with its id. */
  lemma RemovedRowIsGone(employees: seq<Employee>, k: nat)
    requires k < |employees|
    requires forall i :: 0 <= i < |employees| && i != k ==> employees[i].id != employees[k].id
    ensures var rest := employees[..k] + employees[k + 1..];
            && (forall e :: e in rest <==> e in employees && e.id != employees[k].id)
            && (forall i :: 0 <= i < |rest| ==> rest[i].id != employees[k].id)
  {
    var rest := employees[..k] + employees[k + 1..];
    assert forall i :: 0 <= i < |rest| ==> rest[i] == if i < k then employees[i] else employees[i + 1];
    forall e | e in employees && e.id != employees[k].id
      ensures e in rest
    {
      var i :| 0 <= i < |employees| && employees[i] == e;
      if i < k {
        assert rest[i] == e;
      } else {
        assert i != k;
        assert rest[i - 1] == e;
      }
    }
  }
}
