/** The period report: the group's entries between two dates, oldest first,
    with the income and expense totals and the balance they leave, and the
    cells each entry contributes to the PDF and spreadsheet documents. */
module ReportService {
  import opened Base
  import opened Rows
  import opened Store
  import opened TransactionModel

  // ---- The report's rows

  /** `ORDER BY date ASC, id ASC`. */
  predicate OldestFirst(a: TransactionRow, b: TransactionRow) {
    a.date < b.date || (a.date == b.date && a.id <= b.id)
  }

  lemma OldestFirstOrder()
    ensures TotalPreorder(OldestFirst)
  {
  }

  /** `WHERE group_id = $1 AND date BETWEEN $2 AND $3`: both ends included. */
  predicate InPeriod(t: TransactionRow, groupId: int, from: Time, to: Time) {
    t.groupId == groupId && from <= t.date <= to
  }

  function PeriodTransactions(txs: seq<TransactionRow>, groupId: int, from: Time, to: Time): seq<TransactionRow> {
    Filter(txs, (t: TransactionRow) => InPeriod(t, groupId, from, to))
  }

  /** The rows the report query returns, in its order. */
  function ReportRows(txs: seq<TransactionRow>, groupId: int, from: Time, to: Time): seq<TransactionRow> {
    SortBy(PeriodTransactions(txs, groupId, from, to), OldestFirst)
  }

  /** The report lists exactly the group's entries dated within the period,
      each as often as the table holds it, oldest first. */
  lemma ReportRowsSpec(txs: seq<TransactionRow>, groupId: int, from: Time, to: Time)
    ensures multiset(ReportRows(txs, groupId, from, to)) == multiset(PeriodTransactions(txs, groupId, from, to))
    ensures forall t :: t in ReportRows(txs, groupId, from, to) <==> t in txs && InPeriod(t, groupId, from, to)
    ensures SortedBy(ReportRows(txs, groupId, from, to), OldestFirst)
  {
    var p := PeriodTransactions(txs, groupId, from, to);
    var s := ReportRows(txs, groupId, from, to);
    FilterMembers(txs, (t: TransactionRow) => InPeriod(t, groupId, from, to));
    forall t ensures t in s <==> t in txs && InPeriod(t, groupId, from, to) {
      assert t in s <==> t in multiset(s);
      assert t in p <==> t in multiset(p);
      if t in txs && InPeriod(t, groupId, from, to) {
        var i :| 0 <= i < |txs| && txs[i] == t;
      }
    }
    OldestFirstOrder();
    SortBySorted(p, OldestFirst);
  }

  /** A period that ends before it starts has no entries. */
  lemma EmptyPeriod(txs: seq<TransactionRow>, groupId: int, from: Time, to: Time)
    requires to < from
    ensures ReportRows(txs, groupId, from, to) == []
  {
    FilterSame(txs, (t: TransactionRow) => InPeriod(t, groupId, from, to), (t: TransactionRow) => false);
    FilterNone(txs);
  }

  // ---- The totals

  datatype ReportTotals = ReportTotals(totalIncome: Cents, totalExpense: Cents, currentBalance: Cents)

  /** What the totals of `rows` are: the income amounts summed, the other
      amounts summed, and the first less the second. */
  function TotalsOf(rows: seq<TransactionRow>): ReportTotals {
    ReportTotals(Sum(rows, IncomeOf), Sum(rows, ExpenseOf), Sum(rows, IncomeOf) - Sum(rows, ExpenseOf))
  }

  /** Inserting a row into a sorted sequence adds its term to any sum. */
  lemma {:induction false} SumInsert(x: TransactionRow, s: seq<TransactionRow>, le: (TransactionRow, TransactionRow) -> bool,
                                     f: TransactionRow -> int)
    ensures Sum(Insert(x, s, le), f) == f(x) + Sum(s, f)
  {
    if s != [] && !le(x, s[0]) {
      SumInsert(x, s[1..], le, f);
      assert ([s[0]] + Insert(x, s[1..], le))[1..] == Insert(x, s[1..], le);
    }
  }

  /** Sorting leaves a sum unchanged. */
  lemma {:induction false} SumSortBy(s: seq<TransactionRow>, le: (TransactionRow, TransactionRow) -> bool,
                                     f: TransactionRow -> int)
    ensures Sum(SortBy(s, le), f) == Sum(s, f)
  {
    if s != [] {
      SumSortBy(s[1..], le, f);
      SumInsert(s[0], SortBy(s[1..], le), le, f);
    }
  }

  /** The totals do not depend on the order of the rows: they are those of
      the period's entries in table order. */
  lemma TotalsIgnoreOrder(txs: seq<TransactionRow>, groupId: int, from: Time, to: Time)
    ensures TotalsOf(ReportRows(txs, groupId, from, to)) == TotalsOf(PeriodTransactions(txs, groupId, from, to))
  {
    var p := PeriodTransactions(txs, groupId, from, to);
    SumSortBy(p, OldestFirst, IncomeOf);
    SumSortBy(p, OldestFirst, ExpenseOf);
  }

  /** The balance moves by each entry's signed amount: income adds, expense
      subtracts. */
  lemma BalanceIsSignedSum(rows: seq<TransactionRow>)
    ensures TotalsOf(rows).currentBalance == Sum(rows, SignedOf)
  {
    SumSigned(rows);
  }

  /** A period covering every entry of the group reports the same figures as
      the group's statistics. */
  lemma WholeHistoryMatchesStats(txs: seq<TransactionRow>, groupId: int, from: Time, to: Time)
    requires forall i :: 0 <= i < |txs| && txs[i].groupId == groupId ==> from <= txs[i].date <= to
    ensures var t := TotalsOf(ReportRows(txs, groupId, from, to));
            var s := StatsByGroup(txs, groupId);
            t.totalIncome == s.totalIncome && t.totalExpense == s.totalExpense && t.currentBalance == s.currentBalance
  {
    TotalsIgnoreOrder(txs, groupId, from, to);
    FilterSame(txs, (t: TransactionRow) => InPeriod(t, groupId, from, to), (t: TransactionRow) => t.groupId == groupId);
  }

  /** With the CHECK on amounts, both totals are non-negative. */
  lemma TotalsNonNegative(txs: seq<TransactionRow>, next: int, groupId: int, from: Time, to: Time)
    requires TransactionsOk(txs, next)
    ensures TotalsOf(ReportRows(txs, groupId, from, to)).totalIncome >= 0
    ensures TotalsOf(ReportRows(txs, groupId, from, to)).totalExpense >= 0
  {
    var rows := ReportRows(txs, groupId, from, to);
    ReportRowsSpec(txs, groupId, from, to);
    forall x | x in rows ensures IncomeOf(x) >= 0 && ExpenseOf(x) >= 0 {
      var i :| 0 <= i < |txs| && txs[i] == x;
    }
    SumNonNegative(rows, IncomeOf);
    SumNonNegative(rows, ExpenseOf);
  }

  /** One step of the totals loop: the running sums over `rows[..i]` grow by
      the row's amount on the side of its type. */
  lemma SumPrefixStep(rows: seq<TransactionRow>, i: nat, f: TransactionRow -> int)
    requires i < |rows|
    ensures Sum(rows[..i + 1], f) == Sum(rows[..i], f) + f(rows[i])
  {
    assert rows[..i + 1] == rows[..i] + [rows[i]];
    SumAppend(rows[..i], [rows[i]], f);
  }

  /** `fetchReportData`: the query's rows, then one pass over them adding
      each income amount to the income total and every other amount to the
      expense total; the balance is their difference. */
  method FetchReportData(db: Database, groupId: int, from: Time, to: Time)
      returns (rows: seq<TransactionRow>, totals: ReportTotals)
    ensures rows == ReportRows(db.transactions, groupId, from, to)
    ensures totals == TotalsOf(rows)
  {
    rows := ReportRows(db.transactions, groupId, from, to);
    var totalIncome, totalExpense := 0, 0;
    for i := 0 to |rows|
      invariant totalIncome == Sum(rows[..i], IncomeOf)
      invariant totalExpense == Sum(rows[..i], ExpenseOf)
    {
      SumPrefixStep(rows, i, IncomeOf);
      SumPrefixStep(rows, i, ExpenseOf);
      if rows[i].txType == Income {
        totalIncome := totalIncome + rows[i].amount;
      } else {
        totalExpense := totalExpense + rows[i].amount;
      }
    }
    assert rows[..|rows|] == rows;
    totals := ReportTotals(totalIncome, totalExpense, totalIncome - totalExpense);
  }

  // ---- The documents' cells

  /** The sign the PDF puts before an amount. */
  function SignOf(t: TransactionRow): (s: string)
    ensures |s| == 1
    ensures s[0] == '+' <==> t.txType == Income
  {
    if t.txType == Income then "+" else "-"
  }

  /** `description || "-"`, in both documents. */
  function DescriptionCell(description: string): (c: string)
    ensures c != ""
    ensures description != "" ==> c == description
    ensures description == "" ==> c == "-"
  {
    if description == "" then "-" else description
  }

  /** An empty description and a description of one dash print alike. */
  lemma BlankDescriptionLooksLikeDash()
    ensures DescriptionCell("") == DescriptionCell("-")
  {
  }

  /** `receipt_url || ""`, in the spreadsheet. */
  function ReceiptCell(receiptUrl: Option<string>): (c: string)
    ensures c == "" <==> !Truthy(receiptUrl)
    ensures Truthy(receiptUrl) ==> c == receiptUrl.value
  {
    if Truthy(receiptUrl) then receiptUrl.value else ""
  }

  /** One entry's row of the spreadsheet (its date column is left out). */
  datatype SheetRow = SheetRow(txType: TxType, amount: Cents, description: string, receipt: string)

  function SheetRowOf(t: TransactionRow): (r: SheetRow)
    ensures r.txType == t.txType && r.amount == t.amount
    ensures r.description == DescriptionCell(t.description) && r.receipt == ReceiptCell(t.receiptUrl)
  {
    SheetRow(t.txType, t.amount, DescriptionCell(t.description), ReceiptCell(t.receiptUrl))
  }

  /** The spreadsheet's entry rows, in the report's order. */
  function SheetRows(rows: seq<TransactionRow>): (r: seq<SheetRow>)
    ensures |r| == |rows|
    ensures forall i :: 0 <= i < |rows| ==> r[i] == SheetRowOf(rows[i])
  {
    if rows == [] then [] else [SheetRowOf(rows[0])] + SheetRows(rows[1..])
  }

  /** A sheet row's effect on the balance. */
  function SheetSigned(r: SheetRow): int {
    if r.txType == Income then r.amount else -r.amount
  }

  /** The spreadsheet's rows carry the whole balance: their signed amounts
      add up to the balance printed above them. */
  lemma {:induction false} SheetRowsBalance(rows: seq<TransactionRow>)
    ensures Sum(SheetRows(rows), SheetSigned) == TotalsOf(rows).currentBalance
  {
    SumSigned(rows);
    if rows != [] {
      SheetRowsBalance(rows[1..]);
      SumSigned(rows[1..]);
      assert SheetRows(rows)[1..] == SheetRows(rows[1..]);
    }
  }
}
