/**
 * `GET /api/eod/{storeId}/{bizDate}`: the end-of-day report of a store for a
 * date, or a message that there is none yet.
 */
module EodController {
  import opened Wrappers
  import opened Dates
  import opened Models
  import opened Data
  import opened Http

  const InvalidDateMessage := "invalid date"
  const NoEodMessage := "no eod yet"

  /** The 200 body: the report, or `{ message = "no eod yet" }`. */
  datatype EodBody = Report(report: EodReport) | Message(text: string)

  predicate IsReportFor(x: EodReport, storeId: int, bizDate: DateOnly) {
    x.storeId == storeId && x.bizDate == bizDate
  }

  /** `FirstOrDefaultAsync(x => x.StoreId == storeId && x.BizDate == d)`. */
  function FirstReport(reports: seq<EodReport>, storeId: int, bizDate: DateOnly): (k: Option<nat>)
    ensures k.Some? ==> k.value < |reports| && IsReportFor(reports[k.value], storeId, bizDate)
    ensures k.Some? ==> forall i :: 0 <= i < k.value ==> !IsReportFor(reports[i], storeId, bizDate)
    ensures k.None? <==> forall i :: 0 <= i < |reports| ==> !IsReportFor(reports[i], storeId, bizDate)
  {
    if reports == [] then None
    else if IsReportFor(reports[0], storeId, bizDate) then Some(0)
    else match FirstReport(reports[1..], storeId, bizDate)
      case None => None
      case Some(k) => Some(k + 1)
  }

  /** Under the unique index on (StoreId, BizDate) the first match is the only one. */
  lemma FirstIsOnly(reports: seq<EodReport>, storeId: int, bizDate: DateOnly, j: nat)
    requires EodReportKeysUnique(reports)
    requires j < |reports| && IsReportFor(reports[j], storeId, bizDate)
    ensures FirstReport(reports, storeId, bizDate) == Some(j)
  {
    forall i | 0 <= i < |reports| && i != j
      ensures !IsReportFor(reports[i], storeId, bizDate)
    {
      if i < j {
        assert !(reports[i].storeId == reports[j].storeId && reports[i].bizDate == reports[j].bizDate);
      } else {
        assert !(reports[j].storeId == reports[i].storeId && reports[j].bizDate == reports[i].bizDate);
      }
    }
  }

  /**
   * The action. `bizDate` is read by `DateOnly.TryParse` with the current
   * culture, for which `tryParse` stands.
   */
  function Get(db: AppDb, storeId: int, bizDate: string, tryParse: CultureDateParser): (r: ActionResult<EodBody>)
    reads db
    ensures r.BadRequest? || r.Ok?
    ensures r.BadRequest? <==> tryParse(bizDate).None?
    ensures r.BadRequest? ==> r.message == InvalidDateMessage
    ensures r.Ok? && r.body.Report? ==>
              r.body.report in db.eodReports && IsReportFor(r.body.report, storeId, tryParse(bizDate).value)
    ensures r.Ok? && r.body.Message? ==>
              r.body.text == NoEodMessage
              && forall x :: x in db.eodReports ==> !IsReportFor(x, storeId, tryParse(bizDate).value)
  {
    match tryParse(bizDate)
    case None => BadRequest(InvalidDateMessage)
    case Some(d) =>
      match FirstReport(db.eodReports, storeId, d)
      case None => Ok(Message(NoEodMessage))
      case Some(k) => Ok(Report(db.eodReports[k]))
  }

  /** A stored report is what the endpoint answers for its store and date. */
  lemma FindsStoredReport(db: AppDb, j: nat, bizDate: string, tryParse: CultureDateParser)
    requires db.Valid() && j < |db.eodReports|
    requires tryParse(bizDate) == Some(db.eodReports[j].bizDate)
    ensures Get(db, db.eodReports[j].storeId, bizDate, tryParse) == Ok(Report(db.eodReports[j]))
  {
    FirstIsOnly(db.eodReports, db.eodReports[j].storeId, db.eodReports[j].bizDate, j);
  }

  /**
   * With the invariant culture, which reads `yyyy-MM-dd`, the route's date in
   * that form finds the report stored for it.
   */
  lemma FindsReportByIsoDate(db: AppDb, j: nat, tryParse: CultureDateParser)
    requires db.Valid() && j < |db.eodReports|
    requires tryParse(Format(db.eodReports[j].bizDate)) == ParseExact(Format(db.eodReports[j].bizDate))
    ensures Get(db, db.eodReports[j].storeId, Format(db.eodReports[j].bizDate), tryParse) == Ok(Report(db.eodReports[j]))
  {
    ParseFormat(db.eodReports[j].bizDate);
    FindsStoredReport(db, j, Format(db.eodReports[j].bizDate), tryParse);
  }
}
