/** The `transactions` table: inserting, partially updating and deleting
    ledger entries, and the reads over it: a page of a group's entries, the
    group's totals, its monthly and per-category buckets, and the lookups by
    key and by receipt. */
module TransactionModel {
  import opened Base
  import opened Rows
  import opened Text
  import opened Store

  /** `NUMERIC(12,2)` holds at most ten digits before the point, so an
      amount in cents must lie below 10^12. */
  const AMOUNT_LIMIT: int := 1_000_000_000_000

  /** The value `x || null` binds: absent and empty text both become NULL. */
  function OrNull(x: Option<string>): (r: Option<string>)
    ensures r.Some? <==> Truthy(x)
    ensures r.Some? ==> r == x
  {
    if Truthy(x) then x else None
  }

  // ---- createTransaction

  /** The row the INSERT of `createTransaction` stores and returns. */
  function NewTransaction(id: int, groupId: int, txType: TxType, amount: Cents, description: string,
                          date: Time, receiptUrl: Option<string>, category: Option<string>,
                          createdBy: int, now: Time): TransactionRow
  {
    TransactionRow(id, groupId, txType, amount, description, date, OrNull(receiptUrl), OrNull(category),
                   createdBy, now)
  }

  /** The INSERT succeeds when both foreign keys hold, the CHECK holds and
      the amount fits the column. */
  predicate InsertAccepted(users: set<int>, groups: set<int>, groupId: int, amount: Cents, createdBy: int) {
    groupId in groups && createdBy in users && 0 <= amount < AMOUNT_LIMIT
  }

  lemma TransactionAppendOk(txs: seq<TransactionRow>, next: int, users: set<int>, groups: set<int>,
                            t: TransactionRow)
    requires TransactionsOk(txs, next) && TransactionsRefer(txs, users, groups)
    requires t.id == next && t.amount >= 0 && t.createdBy in users && t.groupId in groups
    ensures TransactionsOk(txs + [t], next + 1) && TransactionsRefer(txs + [t], users, groups)
  {
  }

  /** `createTransaction`: the INSERT draws the next key in every case (a
      failed INSERT still uses up its SERIAL value) and adds the row when
      the constraints hold; otherwise it raises (`None`). */
  method CreateTransaction(db: Database, groupId: int, txType: TxType, amount: Cents, description: string,
                           date: Time, receiptUrl: Option<string>, createdBy: int, category: Option<string>,
                           now: Time)
      returns (r: Option<TransactionRow>)
    requires db.Valid()
    modifies db`transactions, db`nextTransactionId
    ensures db.Valid()
    ensures db.nextTransactionId == old(db.nextTransactionId) + 1
    ensures r.Some? <==> InsertAccepted(UserIds(db.users), GroupIds(db.groups), groupId, amount, createdBy)
    ensures r.Some? ==>
              && r.value == NewTransaction(old(db.nextTransactionId), groupId, txType, amount, description,
                                           date, receiptUrl, category, createdBy, now)
              && db.transactions == old(db.transactions) + [r.value]
    ensures r.None? ==> db.transactions == old(db.transactions)
  {
    var t := NewTransaction(db.nextTransactionId, groupId, txType, amount, description, date, receiptUrl,
                            category, createdBy, now);
    if InsertAccepted(UserIds(db.users), GroupIds(db.groups), groupId, amount, createdBy) {
      TransactionAppendOk(db.transactions, db.nextTransactionId, UserIds(db.users), GroupIds(db.groups), t);
      db.transactions, db.nextTransactionId := db.transactions + [t], db.nextTransactionId + 1;
      r := Some(t);
    } else {
      db.nextTransactionId := db.nextTransactionId + 1;
      r := None;
    }
  }

  // ---- getTransactionById and getTransactionByReceiptKey

  /** `getTransactionById`: the first row with the key (LIMIT 1), or `None`. */
  function TransactionById(txs: seq<TransactionRow>, id: int): (r: Option<TransactionRow>)
    ensures r.None? <==> forall i :: 0 <= i < |txs| ==> txs[i].id != id
    ensures r.Some? ==> r.value in txs && r.value.id == id
  {
    if txs == [] then None
    else if txs[0].id == id then Some(txs[0])
    else TransactionById(txs[1..], id)
  }

  /** Keys are unique, so the lookup finds the one row with the key. */
  lemma {:induction false} TransactionByIdRow(txs: seq<TransactionRow>, next: int, i: int)
    requires TransactionsOk(txs, next) && 0 <= i < |txs|
    ensures TransactionById(txs, txs[i].id) == Some(txs[i])
  {
    if i > 0 {
      assert TransactionsOk(txs[1..], next) by {
        forall a, b | 0 <= a < b < |txs[1..]| ensures txs[1..][a].id < txs[1..][b].id {
          assert txs[1..][a] == txs[a + 1] && txs[1..][b] == txs[b + 1];
        }
      }
      TransactionByIdRow(txs[1..], next, i - 1);
      assert txs[1..][i - 1] == txs[i];
    }
  }

  /** A created transaction is found by its key, exactly as it was stored. */
  lemma CreatedFoundById(txs: seq<TransactionRow>, next: int, t: TransactionRow)
    requires TransactionsOk(txs, next) && t.id == next
    ensures TransactionById(txs + [t], t.id) == Some(t)
  {
    var s := txs + [t];
    assert forall i :: 0 <= i < |txs| ==> s[i].id < next;
    assert s[|txs|] == t;
  }

  /** What `getTransactionByReceiptKey` selects: `id, group_id, receipt_url`. */
  datatype ReceiptOwner = ReceiptOwner(id: int, groupId: int, receiptUrl: Option<string>)

  /** `getTransactionByReceiptKey`: the first row whose receipt URL is the key, or `None`. */
  function TransactionByReceiptKey(txs: seq<TransactionRow>, key: string): (r: Option<ReceiptOwner>)
    ensures r.None? <==> forall i :: 0 <= i < |txs| ==> txs[i].receiptUrl != Some(key)
    ensures r.Some? ==> r.value.receiptUrl == Some(key)
                        && exists i :: 0 <= i < |txs| && txs[i].id == r.value.id
                                       && txs[i].groupId == r.value.groupId && txs[i].receiptUrl == Some(key)
  {
    if txs == [] then None
    else if txs[0].receiptUrl == Some(key) then Some(ReceiptOwner(txs[0].id, txs[0].groupId, txs[0].receiptUrl))
    else
      var r := TransactionByReceiptKey(txs[1..], key);
      if r.Some? then
        assert exists i :: 0 <= i < |txs[1..]| && txs[1..][i].id == r.value.id
                           && txs[1..][i].groupId == r.value.groupId && txs[1..][i].receiptUrl == Some(key);
        var i :| 0 <= i < |txs[1..]| && txs[1..][i].id == r.value.id
                 && txs[1..][i].groupId == r.value.groupId && txs[1..][i].receiptUrl == Some(key);
        assert txs[i + 1] == txs[1..][i];
        r
      else
        assert forall i :: 1 <= i < |txs| ==> txs[i] == txs[1..][i - 1];
        r
  }

  // ---- listTransactionsByGroup

  /** `ORDER BY date DESC, id DESC`. */
  predicate NewestFirst(a: TransactionRow, b: TransactionRow) {
    a.date > b.date || (a.date == b.date && a.id >= b.id)
  }

  lemma NewestFirstOrder()
    ensures TotalPreorder(NewestFirst)
  {
  }

  /** `WHERE group_id = $1`. */
  function GroupTransactions(txs: seq<TransactionRow>, groupId: int): seq<TransactionRow> {
    Filter(txs, (t: TransactionRow) => t.groupId == groupId)
  }

  /** The group's rows, newest first. */
  function NewestGroupTransactions(txs: seq<TransactionRow>, groupId: int): seq<TransactionRow> {
    SortBy(GroupTransactions(txs, groupId), NewestFirst)
  }

  /** `listTransactionsByGroup`: the page of `limit` rows after the first
      `offset` of the group's rows, newest first. */
  function ListTransactionsByGroup(txs: seq<TransactionRow>, groupId: int, limit: nat, offset: nat)
      : seq<TransactionRow>
  {
    Page(NewestGroupTransactions(txs, groupId), offset, limit)
  }

  /** The ordered group rows are exactly the group's rows of the table, each
      as often as it occurs there, newest first. */
  lemma NewestGroupTransactionsSpec(txs: seq<TransactionRow>, groupId: int)
    ensures multiset(NewestGroupTransactions(txs, groupId)) == multiset(GroupTransactions(txs, groupId))
    ensures forall t :: t in NewestGroupTransactions(txs, groupId) <==> t in txs && t.groupId == groupId
    ensures SortedBy(NewestGroupTransactions(txs, groupId), NewestFirst)
  {
    var g := GroupTransactions(txs, groupId);
    var s := NewestGroupTransactions(txs, groupId);
    FilterMembers(txs, (t: TransactionRow) => t.groupId == groupId);
    forall t ensures t in s <==> t in txs && t.groupId == groupId {
      assert t in s <==> t in multiset(s);
      assert t in g <==> t in multiset(g);
      if t in txs && t.groupId == groupId {
        var i :| 0 <= i < |txs| && txs[i] == t;
      }
    }
    NewestFirstOrder();
    SortBySorted(g, NewestFirst);
  }

  /** A page holds at most `limit` of the group's rows, newest first. */
  lemma ListTransactionsSpec(txs: seq<TransactionRow>, groupId: int, limit: nat, offset: nat)
    ensures |ListTransactionsByGroup(txs, groupId, limit, offset)| <= limit
    ensures forall t :: t in ListTransactionsByGroup(txs, groupId, limit, offset) ==> t in txs && t.groupId == groupId
    ensures SortedBy(ListTransactionsByGroup(txs, groupId, limit, offset), NewestFirst)
  {
    NewestGroupTransactionsSpec(txs, groupId);
    var s := NewestGroupTransactions(txs, groupId);
    var r := ListTransactionsByGroup(txs, groupId, limit, offset);
    forall t | t in r ensures t in s {
      var i :| 0 <= i < |r| && r[i] == t;
    }
  }

  /** Consecutive pages neither overlap nor leave a gap: the page at `offset`
      followed by the page right after it is the page of both lengths. */
  lemma ListConsecutivePages(txs: seq<TransactionRow>, groupId: int, a: nat, b: nat, offset: nat)
    ensures ListTransactionsByGroup(txs, groupId, a, offset) + ListTransactionsByGroup(txs, groupId, b, offset + a)
            == ListTransactionsByGroup(txs, groupId, a + b, offset)
  {
    var s := NewestGroupTransactions(txs, groupId);
    var p, q, w := Page(s, offset, a), Page(s, offset + a, b), Page(s, offset, a + b);
    assert |p + q| == |w|;
    forall i | 0 <= i < |w| ensures (p + q)[i] == w[i] {
      if i < |p| {
        assert (p + q)[i] == p[i];
      } else {
        assert (p + q)[i] == q[i - |p|];
      }
    }
  }

  /** From the start, a page large enough lists every row of the group. */
  lemma ListWholeGroup(txs: seq<TransactionRow>, groupId: int, limit: nat)
    requires limit >= |GroupTransactions(txs, groupId)|
    ensures multiset(ListTransactionsByGroup(txs, groupId, limit, 0)) == multiset(GroupTransactions(txs, groupId))
  {
    var s := NewestGroupTransactions(txs, groupId);
    if |s| > 0 {
      assert Page(s, 0, limit) == s;
    }
  }

  // ---- getStatsByGroup

  /** `CASE WHEN type = 'income' THEN amount ELSE 0 END`. */
  function IncomeOf(t: TransactionRow): int {
    if t.txType == Income then t.amount else 0
  }

  /** `CASE WHEN type = 'expense' THEN amount ELSE 0 END`. */
  function ExpenseOf(t: TransactionRow): int {
    if t.txType == Expense then t.amount else 0
  }

  /** A row's effect on the balance: `CASE WHEN type = 'income' THEN amount ELSE -amount END`. */
  function SignedOf(t: TransactionRow): int {
    if t.txType == Income then t.amount else -t.amount
  }

  /** Summing the signed amounts is summing the incomes less the expenses. */
  lemma {:induction false} SumSigned(s: seq<TransactionRow>)
    ensures Sum(s, SignedOf) == Sum(s, IncomeOf) - Sum(s, ExpenseOf)
  {
    if s != [] {
      SumSigned(s[1..]);
    }
  }

  datatype Stats = Stats(totalIncome: Cents, totalExpense: Cents, currentBalance: Cents)

  /** `getStatsByGroup`: the group's income and expense totals (0 for no
      rows, as COALESCE gives) and their difference. */
  function StatsByGroup(txs: seq<TransactionRow>, groupId: int): (r: Stats)
    ensures r.currentBalance == Sum(GroupTransactions(txs, groupId), SignedOf)
  {
    var rows := GroupTransactions(txs, groupId);
    SumSigned(rows);
    var income := Sum(rows, IncomeOf);
    var expense := Sum(rows, ExpenseOf);
    Stats(income, expense, income - expense)
  }

  /** With no row of the group every figure is 0. */
  lemma StatsEmpty(txs: seq<TransactionRow>, groupId: int)
    requires forall i :: 0 <= i < |txs| ==> txs[i].groupId != groupId
    ensures StatsByGroup(txs, groupId) == Stats(0, 0, 0)
  {
    FilterSame(txs, (t: TransactionRow) => t.groupId == groupId, (t: TransactionRow) => false);
    FilterNone(txs);
  }

  /** A filter no row passes leaves nothing. */
  lemma {:induction false} FilterNone(txs: seq<TransactionRow>)
    ensures Filter(txs, (t: TransactionRow) => false) == []
  {
    if txs != [] {
      FilterNone(txs[1..]);
    }
  }

  /** A new row changes its own group's figures by its amount, on the side
      of its type, and no other group's figures. */
  lemma StatsAppend(txs: seq<TransactionRow>, t: TransactionRow, groupId: int)
    ensures var before, after := StatsByGroup(txs, groupId), StatsByGroup(txs + [t], groupId);
            if t.groupId == groupId then
              && after.totalIncome == before.totalIncome + IncomeOf(t)
              && after.totalExpense == before.totalExpense + ExpenseOf(t)
              && after.currentBalance == before.currentBalance + SignedOf(t)
            else after == before
  {
    var p := (x: TransactionRow) => x.groupId == groupId;
    FilterAppend(txs, [t], p);
    var rows := GroupTransactions(txs, groupId);
    if t.groupId == groupId {
      assert Filter([t], p) == [t];
      SumAppend(rows, [t], IncomeOf);
      SumAppend(rows, [t], ExpenseOf);
    } else {
      assert Filter([t], p) == [];
      assert rows + [] == rows;
    }
  }

  /** With the CHECK on amounts, both totals are non-negative. */
  lemma StatsNonNegative(txs: seq<TransactionRow>, next: int, groupId: int)
    requires TransactionsOk(txs, next)
    ensures StatsByGroup(txs, groupId).totalIncome >= 0 && StatsByGroup(txs, groupId).totalExpense >= 0
  {
    var rows := GroupTransactions(txs, groupId);
    FilterMembers(txs, (t: TransactionRow) => t.groupId == groupId);
    forall x | x in rows ensures IncomeOf(x) >= 0 && ExpenseOf(x) >= 0 {
      var i :| 0 <= i < |txs| && txs[i] == x;
    }
    SumNonNegative(rows, IncomeOf);
    SumNonNegative(rows, ExpenseOf);
  }

  // ---- getMonthlyStatsByGroup

  /** One row of the monthly statistics; months are counted as consecutive integers. */
  datatype MonthBucket = MonthBucket(month: int, income: Cents, expense: Cents)

  predicate IntLe(a: int, b: int) {
    a <= b
  }

  lemma IntLeOrder()
    ensures TotalPreorder(IntLe)
  {
  }

  /** The first month of the window: `months - 1` months before `current`. */
  function WindowStart(months: int, current: int): int {
    current - (months - 1)
  }

  /** `WHERE group_id = $1 AND date >= <first day of the window's first month>`. */
  function MonthlyRows(txs: seq<TransactionRow>, groupId: int, start: int, monthOf: Time -> int)
      : seq<TransactionRow>
  {
    Filter(txs, (t: TransactionRow) => t.groupId == groupId && monthOf(t.date) >= start)
  }

  /** The month of each row. */
  function MonthsOf(rows: seq<TransactionRow>, monthOf: Time -> int): (r: seq<int>)
    ensures |r| == |rows|
    ensures forall i :: 0 <= i < |rows| ==> r[i] == monthOf(rows[i].date)
  {
    seq(|rows|, i requires 0 <= i < |rows| => monthOf(rows[i].date))
  }

  /** The income and expense sums of the rows of one month. */
  function MonthBucketOf(rows: seq<TransactionRow>, month: int, monthOf: Time -> int): MonthBucket {
    var inMonth := Filter(rows, (t: TransactionRow) => monthOf(t.date) == month);
    MonthBucket(month, Sum(inMonth, IncomeOf), Sum(inMonth, ExpenseOf))
  }

  /** `getMonthlyStatsByGroup`: one bucket per month that has rows of the
      group since the window start (`GROUP BY` month), ascending. `monthOf`
      is the calendar month of an instant in the database's time zone. */
  function MonthlyStatsByGroup(txs: seq<TransactionRow>, groupId: int, months: int, current: int,
                               monthOf: Time -> int): seq<MonthBucket>
  {
    var rows := MonthlyRows(txs, groupId, WindowStart(months, current), monthOf);
    MonthBuckets(rows, MonthKeys(rows, monthOf), monthOf)
  }

  /** `GROUP BY 1 ORDER BY 1 ASC`: the distinct months of the rows, ascending. */
  function MonthKeys(rows: seq<TransactionRow>, monthOf: Time -> int): seq<int> {
    SortBy(Distinct(MonthsOf(rows, monthOf)), IntLe)
  }

  /** One bucket per key. */
  function MonthBuckets(rows: seq<TransactionRow>, keys: seq<int>, monthOf: Time -> int): (r: seq<MonthBucket>)
    ensures |r| == |keys|
    ensures forall i :: 0 <= i < |r| ==> r[i] == MonthBucketOf(rows, keys[i], monthOf)
  {
    seq(|keys|, i requires 0 <= i < |keys| => MonthBucketOf(rows, keys[i], monthOf))
  }

  /** The sorted distinct months of some rows: strictly ascending, and
      holding exactly the months of the rows. */
  lemma MonthKeysSpec(rows: seq<TransactionRow>, monthOf: Time -> int)
    ensures var keys := MonthKeys(rows, monthOf);
            && (forall i, j :: 0 <= i < j < |keys| ==> keys[i] < keys[j])
            && (forall m :: m in keys <==> m in MonthsOf(rows, monthOf))
  {
    var d := Distinct(MonthsOf(rows, monthOf));
    var keys := SortBy(d, IntLe);
    IntLeOrder();
    SortBySorted(d, IntLe);
    NoDuplicatesPermutation(d, keys);
    forall m ensures m in keys <==> m in d {
      assert m in keys <==> m in multiset(keys);
      assert m in d <==> m in multiset(d);
    }
  }

  /** Each monthly bucket is a month of some row of the group in the window. */
  lemma MonthlyBucketsFromRows(txs: seq<TransactionRow>, groupId: int, start: int, monthOf: Time -> int,
                               m: int)
    requires m in MonthsOf(MonthlyRows(txs, groupId, start, monthOf), monthOf)
    ensures m >= start && exists t :: t in txs && t.groupId == groupId && monthOf(t.date) == m
  {
    var rows := MonthlyRows(txs, groupId, start, monthOf);
    var k :| 0 <= k < |rows| && MonthsOf(rows, monthOf)[k] == m;
    FilterRowFrom(txs, (t: TransactionRow) => t.groupId == groupId && monthOf(t.date) >= start, rows[k]);
  }

  /** Every row of the group in the window has its month among the buckets' months. */
  lemma MonthlyRowsCovered(txs: seq<TransactionRow>, groupId: int, start: int, monthOf: Time -> int,
                           t: TransactionRow)
    requires t in txs && t.groupId == groupId && monthOf(t.date) >= start
    ensures monthOf(t.date) in MonthsOf(MonthlyRows(txs, groupId, start, monthOf), monthOf)
  {
    var rows := MonthlyRows(txs, groupId, start, monthOf);
    FilterKeepsRow(txs, (t: TransactionRow) => t.groupId == groupId && monthOf(t.date) >= start, t);
    var j :| 0 <= j < |rows| && rows[j] == t;
    assert MonthsOf(rows, monthOf)[j] == monthOf(t.date);
  }

  /** The monthly buckets are in strictly ascending month order, and each
      bucket sums the income and the expense of its month's rows. */
  lemma MonthlyStatsSpec(txs: seq<TransactionRow>, groupId: int, months: int, current: int,
                         monthOf: Time -> int)
    ensures var r := MonthlyStatsByGroup(txs, groupId, months, current, monthOf);
            && (forall i, j :: 0 <= i < j < |r| ==> r[i].month < r[j].month)
            && (forall i :: 0 <= i < |r| ==>
                  r[i] == MonthBucketOf(MonthlyRows(txs, groupId, WindowStart(months, current), monthOf),
                                        r[i].month, monthOf))
  {
    var rows := MonthlyRows(txs, groupId, WindowStart(months, current), monthOf);
    MonthKeysSpec(rows, monthOf);
  }

  /** A month has a bucket exactly when the group has a row in it no
      earlier than the window start. */
  lemma MonthlyStatsCover(txs: seq<TransactionRow>, groupId: int, months: int, current: int,
                          monthOf: Time -> int)
    ensures var r := MonthlyStatsByGroup(txs, groupId, months, current, monthOf);
            forall i :: 0 <= i < |r| ==>
              r[i].month >= WindowStart(months, current)
              && exists t :: t in txs && t.groupId == groupId && monthOf(t.date) == r[i].month
    ensures var r := MonthlyStatsByGroup(txs, groupId, months, current, monthOf);
            forall t :: t in txs && t.groupId == groupId && monthOf(t.date) >= WindowStart(months, current) ==>
              exists i :: 0 <= i < |r| && r[i].month == monthOf(t.date)
  {
    var start := WindowStart(months, current);
    var rows := MonthlyRows(txs, groupId, start, monthOf);
    var keys := MonthKeys(rows, monthOf);
    var r := MonthlyStatsByGroup(txs, groupId, months, current, monthOf);
    assert r == MonthBuckets(rows, keys, monthOf);
    MonthKeysSpec(rows, monthOf);
    forall i | 0 <= i < |r|
      ensures r[i].month >= start && exists t :: t in txs && t.groupId == groupId && monthOf(t.date) == r[i].month
    {
      MonthlyBucketsFromRows(txs, groupId, start, monthOf, keys[i]);
    }
    forall t | t in txs && t.groupId == groupId && monthOf(t.date) >= start
      ensures exists i :: 0 <= i < |r| && r[i].month == monthOf(t.date)
    {
      MonthlyRowsCovered(txs, groupId, start, monthOf, t);
      var i :| 0 <= i < |keys| && keys[i] == monthOf(t.date);
      assert r[i].month == monthOf(t.date);
    }
  }

  // ---- getCategoryStatsByGroup

  /** The bucket of rows with no category or a blank one. */
  const OTHER_CATEGORY: string := "기타"

  /** `COALESCE(NULLIF(TRIM(category), ''), '기타')`. */
  function CategoryKey(t: TransactionRow): (r: string)
    ensures r != ""
  {
    if t.category.None? || TrimSql(t.category.value) == "" then OTHER_CATEGORY else TrimSql(t.category.value)
  }

  /** One row of the category statistics. */
  datatype CategoryBucket = CategoryBucket(category: string, income: Cents, expense: Cents, total: Cents)

  /** `WHERE group_id = $1 [AND date >= from] [AND date <= to]`: each bound
      applies only when given. */
  predicate InRange(t: TransactionRow, groupId: int, from: Option<Time>, to: Option<Time>) {
    t.groupId == groupId && (from.Some? ==> from.value <= t.date) && (to.Some? ==> t.date <= to.value)
  }

  function CategoryRows(txs: seq<TransactionRow>, groupId: int, from: Option<Time>, to: Option<Time>)
      : seq<TransactionRow>
  {
    Filter(txs, (t: TransactionRow) => InRange(t, groupId, from, to))
  }

  /** The category of each row. */
  function CategoriesOf(rows: seq<TransactionRow>): (r: seq<string>)
    ensures |r| == |rows|
    ensures forall i :: 0 <= i < |rows| ==> r[i] == CategoryKey(rows[i])
  {
    seq(|rows|, i requires 0 <= i < |rows| => CategoryKey(rows[i]))
  }

  /** The three sums over the rows of one category. */
  function CategoryBucketOf(rows: seq<TransactionRow>, category: string): CategoryBucket {
    var inCategory := Filter(rows, (t: TransactionRow) => CategoryKey(t) == category);
    CategoryBucket(category, Sum(inCategory, IncomeOf), Sum(inCategory, ExpenseOf), Sum(inCategory, SignedOf))
  }

  /** `ORDER BY total DESC, category ASC`, with categories in code-point order. */
  predicate LargerTotalFirst(a: CategoryBucket, b: CategoryBucket) {
    a.total > b.total || (a.total == b.total && LexLe(a.category, b.category))
  }

  lemma LargerTotalFirstOrder()
    ensures TotalPreorder(LargerTotalFirst)
  {
    forall a: CategoryBucket, b: CategoryBucket ensures LargerTotalFirst(a, b) || LargerTotalFirst(b, a) {
      LexLeTotal(a.category, b.category);
    }
    forall a: CategoryBucket, b: CategoryBucket, c: CategoryBucket
      | LargerTotalFirst(a, b) && LargerTotalFirst(b, c)
      ensures LargerTotalFirst(a, c)
    {
      if a.total == b.total == c.total {
        LexLeTransitive(a.category, b.category, c.category);
      }
    }
  }

  /** `getCategoryStatsByGroup`: one bucket per category of the group's rows
      in range (`GROUP BY` the trimmed category), by total descending and
      then by name. */
  function CategoryStatsByGroup(txs: seq<TransactionRow>, groupId: int, from: Option<Time>, to: Option<Time>)
      : seq<CategoryBucket>
  {
    SortBy(CategoryBuckets(CategoryRows(txs, groupId, from, to)), LargerTotalFirst)
  }

  /** The per-category buckets before sorting: one per distinct category,
      in order of first appearance. */
  function CategoryBuckets(rows: seq<TransactionRow>): (r: seq<CategoryBucket>)
    ensures |r| == |Distinct(CategoriesOf(rows))|
    ensures forall i :: 0 <= i < |r| ==> r[i] == CategoryBucketOf(rows, Distinct(CategoriesOf(rows))[i])
  {
    var keys := Distinct(CategoriesOf(rows));
    seq(|keys|, i requires 0 <= i < |keys| => CategoryBucketOf(rows, keys[i]))
  }

  /** The unsorted buckets name distinct categories. */
  lemma CategoryBucketsDistinct(rows: seq<TransactionRow>)
    ensures NoDuplicates(CategoryBuckets(rows))
  {
    var keys := Distinct(CategoriesOf(rows));
    var buckets := CategoryBuckets(rows);
    forall i, j | 0 <= i < j < |buckets| ensures buckets[i] != buckets[j] {
      assert buckets[i].category == keys[i] && buckets[j].category == keys[j];
    }
  }

  /** A bucket of the reordered buckets sums its category's rows, with the
      total equal to the income less the expense. */
  lemma CategoryBucketSums(rows: seq<TransactionRow>, r: seq<CategoryBucket>, i: int)
    requires multiset(r) == multiset(CategoryBuckets(rows)) && 0 <= i < |r|
    ensures r[i] == CategoryBucketOf(rows, r[i].category) && r[i].total == r[i].income - r[i].expense
    ensures r[i].category in CategoriesOf(rows)
  {
    var keys := Distinct(CategoriesOf(rows));
    var buckets := CategoryBuckets(rows);
    assert r[i] in multiset(buckets);
    var k :| 0 <= k < |buckets| && buckets[k] == r[i];
    SumSigned(Filter(rows, (t: TransactionRow) => CategoryKey(t) == keys[k]));
  }

  /** Every category of the rows has a bucket among the reordered buckets. */
  lemma CategoryBucketFound(rows: seq<TransactionRow>, r: seq<CategoryBucket>, c: string)
    requires multiset(r) == multiset(CategoryBuckets(rows)) && c in CategoriesOf(rows)
    ensures exists i :: 0 <= i < |r| && r[i].category == c
  {
    var keys := Distinct(CategoriesOf(rows));
    var buckets := CategoryBuckets(rows);
    var k :| 0 <= k < |keys| && keys[k] == c;
    assert buckets[k] in multiset(r);
    var l :| 0 <= l < |r| && r[l] == buckets[k];
  }

  /** Sorted or not, the buckets name distinct categories, exactly those of
      the rows, and each bucket sums its category's rows. */
  lemma CategoryBucketsSpec(rows: seq<TransactionRow>, r: seq<CategoryBucket>)
    requires multiset(r) == multiset(CategoryBuckets(rows))
    ensures forall i, j :: 0 <= i < j < |r| ==> r[i].category != r[j].category
    ensures forall i :: 0 <= i < |r| ==>
              r[i] == CategoryBucketOf(rows, r[i].category) && r[i].total == r[i].income - r[i].expense
              && r[i].category in CategoriesOf(rows)
    ensures forall c :: c in CategoriesOf(rows) ==> exists i :: 0 <= i < |r| && r[i].category == c
  {
    CategoryBucketsDistinct(rows);
    NoDuplicatesPermutation(CategoryBuckets(rows), r);
    forall i | 0 <= i < |r|
      ensures r[i] == CategoryBucketOf(rows, r[i].category) && r[i].total == r[i].income - r[i].expense
      ensures r[i].category in CategoriesOf(rows)
    {
      CategoryBucketSums(rows, r, i);
    }
    forall i, j | 0 <= i < j < |r| ensures r[i].category != r[j].category {
      assert r[i] != r[j];
    }
    forall c | c in CategoriesOf(rows) ensures exists i :: 0 <= i < |r| && r[i].category == c {
      CategoryBucketFound(rows, r, c);
    }
  }

  /** Each category of the rows in range is the category of some row of the
      group in range, and every such row's category is one of them. */
  lemma CategoryRowsSpec(txs: seq<TransactionRow>, groupId: int, from: Option<Time>, to: Option<Time>)
    ensures forall c :: c in CategoriesOf(CategoryRows(txs, groupId, from, to)) ==>
              exists t :: t in txs && InRange(t, groupId, from, to) && CategoryKey(t) == c
    ensures forall t :: t in txs && InRange(t, groupId, from, to) ==>
              CategoryKey(t) in CategoriesOf(CategoryRows(txs, groupId, from, to))
  {
    var p := (t: TransactionRow) => InRange(t, groupId, from, to);
    var rows := CategoryRows(txs, groupId, from, to);
    var cs := CategoriesOf(rows);
    forall c | c in cs ensures exists t :: t in txs && InRange(t, groupId, from, to) && CategoryKey(t) == c {
      var k :| 0 <= k < |cs| && cs[k] == c;
      FilterRowFrom(txs, p, rows[k]);
    }
    forall t | t in txs && InRange(t, groupId, from, to) ensures CategoryKey(t) in cs {
      FilterKeepsRow(txs, p, t);
      var j :| 0 <= j < |rows| && rows[j] == t;
      assert cs[j] == CategoryKey(t);
    }
  }

  /** The buckets are sorted by total descending, then name; no category
      appears twice and none is empty (so the `|| "기타"` of the result
      mapping never applies); each bucket sums its category's rows, and its
      total is its income less its expense. */
  lemma CategoryStatsSpec(txs: seq<TransactionRow>, groupId: int, from: Option<Time>, to: Option<Time>)
    ensures var r := CategoryStatsByGroup(txs, groupId, from, to);
            && SortedBy(r, LargerTotalFirst)
            && (forall i, j :: 0 <= i < j < |r| ==> r[i].category != r[j].category)
            && (forall i :: 0 <= i < |r| ==> r[i].category != "")
            && (forall i :: 0 <= i < |r| ==>
                  r[i] == CategoryBucketOf(CategoryRows(txs, groupId, from, to), r[i].category)
                  && r[i].total == r[i].income - r[i].expense)
  {
    var rows := CategoryRows(txs, groupId, from, to);
    var r := CategoryStatsByGroup(txs, groupId, from, to);
    LargerTotalFirstOrder();
    SortBySorted(CategoryBuckets(rows), LargerTotalFirst);
    CategoryBucketsSpec(rows, r);
    forall i | 0 <= i < |r| ensures r[i].category != "" {
      var k :| 0 <= k < |CategoriesOf(rows)| && CategoriesOf(rows)[k] == r[i].category;
    }
  }

  /** A category has a bucket exactly when some row of the group in range
      falls in it. */
  lemma CategoryStatsCover(txs: seq<TransactionRow>, groupId: int, from: Option<Time>, to: Option<Time>)
    ensures var r := CategoryStatsByGroup(txs, groupId, from, to);
            forall i :: 0 <= i < |r| ==>
              exists t :: t in txs && InRange(t, groupId, from, to) && CategoryKey(t) == r[i].category
    ensures var r := CategoryStatsByGroup(txs, groupId, from, to);
            forall t :: t in txs && InRange(t, groupId, from, to) ==>
              exists i :: 0 <= i < |r| && r[i].category == CategoryKey(t)
  {
    var rows := CategoryRows(txs, groupId, from, to);
    CategoryBucketsSpec(rows, CategoryStatsByGroup(txs, groupId, from, to));
    CategoryRowsSpec(txs, groupId, from, to);
  }

  // ---- updateTransaction

  /** The parameters `updateTransaction` binds, `None` standing for NULL. */
  datatype TxPatch = TxPatch(txType: Option<TxType>, amount: Option<Cents>, description: Option<string>,
                             date: Option<Time>, receiptUrl: Option<string>, category: Option<string>)

  /** `SET column = COALESCE($n, column)` for each column of the patch. */
  function Merge(row: TransactionRow, p: TxPatch): (r: TransactionRow)
    ensures r.id == row.id && r.groupId == row.groupId && r.createdBy == row.createdBy
            && r.createdAt == row.createdAt
    ensures row.receiptUrl.Some? ==> r.receiptUrl.Some?
    ensures row.category.Some? ==> r.category.Some?
  {
    row.(txType := p.txType.GetOr(row.txType), amount := p.amount.GetOr(row.amount),
         description := p.description.GetOr(row.description), date := p.date.GetOr(row.date),
         receiptUrl := if p.receiptUrl.Some? then p.receiptUrl else row.receiptUrl,
         category := if p.category.Some? then p.category else row.category)
  }

  /** Each column takes the patch's value when one is bound and keeps its
      own otherwise; applying a patch twice is applying it once; the empty
      patch changes nothing. */
  lemma MergeSpec(row: TransactionRow, p: TxPatch)
    ensures var r := Merge(row, p);
            && r.txType == (if p.txType.Some? then p.txType.value else row.txType)
            && r.amount == (if p.amount.Some? then p.amount.value else row.amount)
            && r.description == (if p.description.Some? then p.description.value else row.description)
            && r.date == (if p.date.Some? then p.date.value else row.date)
            && r.receiptUrl == (if p.receiptUrl.Some? then p.receiptUrl else row.receiptUrl)
            && r.category == (if p.category.Some? then p.category else row.category)
    ensures Merge(Merge(row, p), p) == Merge(row, p)
    ensures Merge(row, TxPatch(None, None, None, None, None, None)) == row
  {
  }

  /** The table after `UPDATE ... WHERE id = $1`. */
  function Updated(txs: seq<TransactionRow>, id: int, p: TxPatch): (r: seq<TransactionRow>)
    ensures |r| == |txs|
    ensures forall i :: 0 <= i < |txs| ==> r[i] == if txs[i].id == id then Merge(txs[i], p) else txs[i]
  {
    seq(|txs|, i requires 0 <= i < |txs| => if txs[i].id == id then Merge(txs[i], p) else txs[i])
  }

  /** The UPDATE raises when a row is updated to an amount the CHECK or the
      column type refuses. */
  predicate UpdateFails(txs: seq<TransactionRow>, id: int, p: TxPatch) {
    TransactionById(txs, id).Some? && p.amount.Some? && !(0 <= p.amount.value < AMOUNT_LIMIT)
  }

  /** After an update the lookup by key finds the merged row. */
  lemma {:induction false} UpdatedFound(txs: seq<TransactionRow>, id: int, p: TxPatch)
    ensures TransactionById(Updated(txs, id, p), id)
            == if TransactionById(txs, id).Some? then Some(Merge(TransactionById(txs, id).value, p)) else None
  {
    if txs != [] && txs[0].id != id {
      UpdatedFound(txs[1..], id, p);
      assert Updated(txs, id, p)[1..] == Updated(txs[1..], id, p);
    }
  }

  lemma UpdateKeepsValid(txs: seq<TransactionRow>, next: int, users: set<int>, groups: set<int>, id: int,
                         p: TxPatch)
    requires TransactionsOk(txs, next) && TransactionsRefer(txs, users, groups) && !UpdateFails(txs, id, p)
    ensures TransactionsOk(Updated(txs, id, p), next) && TransactionsRefer(Updated(txs, id, p), users, groups)
  {
    var r := Updated(txs, id, p);
    forall i | 0 <= i < |r| ensures r[i].amount >= 0 {
      if txs[i].id == id && p.amount.Some? {
        assert TransactionById(txs, id).Some?;
      }
    }
  }

  /** `updateTransaction`: merges the patch into the row with the key and
      returns it, or returns `None` when no row has the key; `ok` is false
      when the statement raises, and then nothing changes. */
  method UpdateTransaction(db: Database, id: int, p: TxPatch) returns (ok: bool, r: Option<TransactionRow>)
    requires db.Valid()
    modifies db`transactions
    ensures db.Valid()
    ensures ok <==> !UpdateFails(old(db.transactions), id, p)
    ensures ok ==> db.transactions == Updated(old(db.transactions), id, p)
                   && r == TransactionById(db.transactions, id)
    ensures !ok ==> db.transactions == old(db.transactions) && r.None?
  {
    if UpdateFails(db.transactions, id, p) {
      return false, None;
    }
    UpdateKeepsValid(db.transactions, db.nextTransactionId, UserIds(db.users), GroupIds(db.groups), id, p);
    db.transactions := Updated(db.transactions, id, p);
    ok, r := true, TransactionById(db.transactions, id);
  }

  // ---- deleteTransaction

  /** The table after `DELETE FROM transactions WHERE id = $1`. */
  function WithoutTransaction(txs: seq<TransactionRow>, id: int): seq<TransactionRow> {
    Filter(txs, (t: TransactionRow) => t.id != id)
  }

  /** The delete removes exactly the rows with the key: the lookup finds
      none afterwards and every other row remains. */
  lemma WithoutTransactionSpec(txs: seq<TransactionRow>, id: int)
    ensures TransactionById(WithoutTransaction(txs, id), id).None?
    ensures forall t :: t in WithoutTransaction(txs, id) <==> t in txs && t.id != id
  {
    var p := (t: TransactionRow) => t.id != id;
    FilterMembers(txs, p);
    forall t | t in txs && t.id != id ensures t in WithoutTransaction(txs, id) {
      var i :| 0 <= i < |txs| && txs[i] == t;
    }
  }

  /** `deleteTransaction`. */
  method DeleteTransaction(db: Database, id: int)
    requires db.Valid()
    modifies db`transactions
    ensures db.Valid()
    ensures db.transactions == WithoutTransaction(old(db.transactions), id)
  {
    var next, users, groups := db.nextTransactionId, UserIds(db.users), GroupIds(db.groups);
    var p := (t: TransactionRow) => t.id != id;
    FilterKeeps(db.transactions, p, (t: TransactionRow) => 1 <= t.id < next && t.amount >= 0);
    FilterKeeps(db.transactions, p, (t: TransactionRow) => t.createdBy in users && t.groupId in groups);
    FilterPairwise(db.transactions, p, (a: TransactionRow, b: TransactionRow) => a.id < b.id);
    db.transactions := WithoutTransaction(db.transactions, id);
  }
}
