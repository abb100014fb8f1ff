/**
 * The records of the API: the table rows (api/Models) and the request bodies.
 */
module Models {
  import opened Wrappers
  import opened Dates
  import opened Decimals

  /** A `DateTime`, as a count of ticks; the clock is an input wherever it is read. */
  type DateTime = int

  /**
   * `DateOnly.TryParse(s, out d)` with the current culture's formats. Culture
   * data is outside the model, so callers receive the parser as a parameter.
   */
  type CultureDateParser = string -> Option<DateOnly>

  /** A row of Stores. */
  datatype Store = Store(id: int, name: string)

  /** A row of Employees. */
  datatype Employee = Employee(
    id: int,
    storeId: int,
    fullName: string,
    role: string,
    hireDate: Option<DateOnly>,
    active: bool)

  /** The `[MaxLength]` annotations of Employee. */
  const FullNameMaxLength: nat := 100
  const RoleMaxLength: nat := 50

  /** A row of EodReports. */
  datatype EodReport = EodReport(
    id: int,
    storeId: int,
    bizDate: DateOnly,
    netSales: Decimal,
    tickets: int,
    createdAt: DateTime)

  /** A row of SquareEvents: one raw webhook call. */
  datatype SquareEventRaw = SquareEventRaw(
    id: int,
    storeId: int,
    eventType: string,
    signature: string,
    payload: string,
    receivedAt: DateTime,
    processed: bool)

  /** The body of POST and PUT /api/stores. */
  datatype StoreDto = StoreDto(name: string)

  /** The body of POST and PUT /api/employees; HireDate is text, possibly absent. */
  datatype EmployeeDto = EmployeeDto(
    storeId: int,
    fullName: string,
    role: string,
    hireDate: Option<string>,
    active: bool)

  /** An EOD report as a request body sends it, BizDate still text. */
  datatype EodReportDto = EodReportDto(
    storeId: int,
    bizDate: string,
    netSales: Decimal,
    tickets: int)
}
