/** The report handlers: the period report of a group as a PDF or as a
    spreadsheet. The group key arrives through `Number(...)` (a `Num`); the
    period's ends are query text, read as dates by PostgreSQL, whose
    reading is the `parseDate` parameter. */
module ReportsController {
  import opened Base
  import opened Text
  import opened Store
  import opened GroupModel
  import opened GroupsController
  import opened ReportService

  /** The query after `normalizeRange`. */
  datatype Range = Range(groupId: Num, from: string, to: string)

  /** `normalizeRange`: a missing or empty `from` becomes `monthStart` and a
      missing or empty `to` becomes `today`. Both are the clock's texts,
      parameters here. The server takes `monthStart` from local midnight on
      the first of the local month and `today` from the current instant,
      each rendered as a UTC calendar day. East of UTC, `monthStart` is the
      last day of the previous month, and `today` is yesterday until the
      local clock passes the offset. */
  function NormalizeRange(groupId: Num, from: Option<string>, to: Option<string>, monthStart: string, today: string)
      : (r: Range)
    ensures r.groupId == groupId
    ensures Truthy(from) ==> r.from == from.value
    ensures Truthy(to) ==> r.to == to.value
    ensures !Truthy(from) ==> r.from == monthStart
    ensures !Truthy(to) ==> r.to == today
  {
    Range(groupId, if Truthy(from) then from.value else monthStart, if Truthy(to) then to.value else today)
  }

  /** An empty `from` is not a period end: it is replaced like a missing one. */
  lemma EmptyFromIsDefaulted(groupId: Num, to: Option<string>, monthStart: string, today: string)
    ensures NormalizeRange(groupId, Some(""), to, monthStart, today)
            == NormalizeRange(groupId, None, to, monthStart, today)
  {
  }

  datatype ReportFormat = Pdf | Xlsx

  function Extension(f: ReportFormat): string {
    match f
    case Pdf => "pdf"
    case Xlsx => "xlsx"
  }

  function ContentType(f: ReportFormat): string {
    match f
    case Pdf => "application/pdf"
    case Xlsx => "application/vnd.openxmlformats-officedocument.spreadsheetml.sheet"
  }

  /** The attachment's name: `report_<group>_<from>_<to>.<extension>`. */
  function Filename(groupId: int, from: string, to: string, f: ReportFormat): string {
    "report" + ['_'] + (IntToString(groupId) + ['_'] + (from + ['_'] + (to + "." + Extension(f))))
  }

  /** The name can be read back: when the period's ends hold no underscore,
      splitting it at underscores gives the fixed word, the group key, the
      period's start, and its end followed by the extension. */
  lemma FilenameFields(groupId: int, from: string, to: string, f: ReportFormat)
    requires '_' !in from && '_' !in to
    ensures var parts := Split(Filename(groupId, from, to, f), '_');
            && parts == ["report", IntToString(groupId), from, to + "." + Extension(f)]
            && ParseInt(parts[1]) == Some(groupId)
  {
    var tail := to + "." + Extension(f);
    assert '_' !in Extension(f) by {
      match f
      case Pdf => assert Extension(f) == ['p', 'd', 'f'];
      case Xlsx => assert Extension(f) == ['x', 'l', 's', 'x'];
    }
    assert '_' !in tail;
    IntToStringChars(groupId, '_');
    assert "report"[..] == ['r', 'e', 'p', 'o', 'r', 't'];
    SplitAfterPiece("report", IntToString(groupId) + ['_'] + (from + ['_'] + tail), '_');
    SplitAfterPiece(IntToString(groupId), from + ['_'] + tail, '_');
    SplitAfterPiece(from, tail, '_');
    SplitPlain(tail, '_');
    ParseIntToString(groupId);
  }

  /** What a report request answers: the refusal's status, or the document's
      name, type, rows and totals. */
  datatype ReportAnswer =
    | ReportRefused(status: Status)
    | Report(filename: string, contentType: string, rows: seq<TransactionRow>, totals: ReportTotals)

  /** `summaryPdf` and `summaryXlsx`: the member-read guard (400 for a missing
      or zero group, 500 for a key that does not bind, 403 for a
      non-member), then the report query, which raises (500) when either end
      is not a date; otherwise the period's rows, their totals, and the name
      and type of the attachment. */
  function Summary(ms: seq<MembershipRow>, txs: seq<TransactionRow>, caller: int, range: Range, f: ReportFormat,
                   parseDate: string -> Option<Time>): (r: ReportAnswer)
    ensures r == ReportRefused(BAD_REQUEST) <==> !NumTruthy(range.groupId)
    ensures r == ReportRefused(FORBIDDEN) <==> MemberReadStatus(ms, caller, range.groupId) == FORBIDDEN
    ensures r == ReportRefused(INTERNAL_ERROR) <==>
              || MemberReadStatus(ms, caller, range.groupId) == INTERNAL_ERROR
              || (MemberReadStatus(ms, caller, range.groupId) == OK
                  && (parseDate(range.from).None? || parseDate(range.to).None?))
    ensures r.Report? <==>
              && NumTruthy(range.groupId) && BindsAsInteger(range.groupId)
              && RoleOf(ms, caller, range.groupId.value).Some?
              && parseDate(range.from).Some? && parseDate(range.to).Some?
    ensures r.Report? ==>
              var rows := ReportRows(txs, range.groupId.value, parseDate(range.from).value, parseDate(range.to).value);
              && r.rows == rows && r.totals == TotalsOf(rows)
              && r.filename == Filename(range.groupId.value, range.from, range.to, f)
              && r.contentType == ContentType(f)
  {
    var guard := MemberReadStatus(ms, caller, range.groupId);
    if guard != OK then ReportRefused(guard)
    else if parseDate(range.from).None? || parseDate(range.to).None? then ReportRefused(INTERNAL_ERROR)
    else
      var rows := ReportRows(txs, range.groupId.value, parseDate(range.from).value, parseDate(range.to).value);
      Report(Filename(range.groupId.value, range.from, range.to, f), ContentType(f), rows, TotalsOf(rows))
  }

  /** The two formats answer alike: the same refusals, and the same rows and
      totals under names that differ only in the extension. */
  lemma FormatsAgree(ms: seq<MembershipRow>, txs: seq<TransactionRow>, caller: int, range: Range,
                     parseDate: string -> Option<Time>)
    ensures var p, x := Summary(ms, txs, caller, range, Pdf, parseDate), Summary(ms, txs, caller, range, Xlsx, parseDate);
            && p.Report? == x.Report?
            && (p.ReportRefused? ==> p == x)
            && (p.Report? ==> p.rows == x.rows && p.totals == x.totals)
  {
  }

  /** A member's request without dates reports the entries between the
      clock's two day texts, both included, when the database reads them. */
  lemma DefaultPeriodReport(ms: seq<MembershipRow>, txs: seq<TransactionRow>, caller: int, groupId: int,
                            monthStart: string, today: string, parseDate: string -> Option<Time>, f: ReportFormat)
    requires groupId != 0 && INT4_MIN <= groupId <= INT4_MAX && RoleOf(ms, caller, groupId).Some?
    requires parseDate(monthStart).Some? && parseDate(today).Some?
    ensures var r := Summary(ms, txs, caller, NormalizeRange(Int(groupId), None, None, monthStart, today), f, parseDate);
            && r.Report?
            && r.rows == ReportRows(txs, groupId, parseDate(monthStart).value, parseDate(today).value)
            && r.filename == Filename(groupId, monthStart, today, f)
  {
  }
}
