/** The transaction handlers: the member-only reads (a page, the totals,
    the monthly buckets), and create, update and delete with their guards:
    any member creates, and only the group's admin or the entry's creator
    edits or deletes. */
module TransactionsController {
  import opened Base
  import opened Rows
  import opened Store
  import opened GroupModel
  import opened TransactionModel
  import opened GroupsController

  // ---- GET /transactions

  const DEFAULT_LIMIT: int := 50
  const MAX_LIMIT: int := 200
  const DEFAULT_MONTHS: int := 6

  /** The page size: the query's (1 to 200 once validated), else 50. */
  function EffectiveLimit(limit: Option<int>): (r: int)
    requires limit.Some? ==> 1 <= limit.value <= MAX_LIMIT
    ensures 1 <= r <= MAX_LIMIT
    ensures r == if limit.Some? then limit.value else DEFAULT_LIMIT
  {
    if limit.Some? && limit.value != 0 then limit.value else DEFAULT_LIMIT
  }

  /** The page number: the query's (at least 1 once validated), else 1. */
  function EffectivePage(page: Option<int>): (r: int)
    requires page.Some? ==> page.value >= 1
    ensures r >= 1
    ensures r == if page.Some? then page.value else 1
  {
    if page.Some? && page.value != 0 then page.value else 1
  }

  /** `offset = (page - 1) * limit`: the rows of the earlier pages. */
  function Offset(page: int, limit: int): (r: nat)
    requires page >= 1 && limit >= 1
    ensures r == (page - 1) * limit
  {
    (page - 1) * limit
  }

  datatype ListResult = ListResult(status: Status, items: seq<TransactionRow>, limit: int, page: int)

  /** `list`: the requested page of the group's entries, newest first, with
      the effective limit and page echoed back. */
  function List(ms: seq<MembershipRow>, txs: seq<TransactionRow>, caller: int, groupId: Num,
                limit: Option<int>, page: Option<int>): (r: ListResult)
    requires limit.Some? ==> 1 <= limit.value <= MAX_LIMIT
    requires page.Some? ==> page.value >= 1
    ensures r.status == MemberReadStatus(ms, caller, groupId)
    ensures r.status == OK ==>
              && r.limit == EffectiveLimit(limit) && r.page == EffectivePage(page)
              && r.items == ListTransactionsByGroup(txs, groupId.value, r.limit, Offset(r.page, r.limit))
    ensures r.status != OK ==> r.items == []
  {
    var status := MemberReadStatus(ms, caller, groupId);
    if status != OK then ListResult(status, [], 0, 0)
    else
      var lim, pg := EffectiveLimit(limit), EffectivePage(page);
      ListResult(OK, ListTransactionsByGroup(txs, groupId.value, lim, Offset(pg, lim)), lim, pg)
  }

  /** Pages tile the group's entries: page `p` followed by page `p + 1`
      is the stretch of twice the page size from page `p`'s first entry,
      and each page is at most the page size, newest first, from the group. */
  lemma ListNextPage(ms: seq<MembershipRow>, txs: seq<TransactionRow>, caller: int, groupId: Num,
                     limit: Option<int>, p: int)
    requires limit.Some? ==> 1 <= limit.value <= MAX_LIMIT
    requires p >= 1 && MemberReadStatus(ms, caller, groupId) == OK
    ensures var lim := EffectiveLimit(limit);
            List(ms, txs, caller, groupId, limit, Some(p)).items
            + List(ms, txs, caller, groupId, limit, Some(p + 1)).items
            == ListTransactionsByGroup(txs, groupId.value, 2 * lim, Offset(p, lim))
    ensures var r := List(ms, txs, caller, groupId, limit, Some(p));
            && |r.items| <= EffectiveLimit(limit)
            && SortedBy(r.items, NewestFirst)
            && (forall t :: t in r.items ==> t in txs && t.groupId == groupId.value)
  {
    var lim := EffectiveLimit(limit);
    assert Offset(p + 1, lim) == Offset(p, lim) + lim;
    ListConsecutivePages(txs, groupId.value, lim, lim, Offset(p, lim));
    ListTransactionsSpec(txs, groupId.value, lim, Offset(p, lim));
  }

  // ---- GET /transactions/stats

  datatype StatsResult = StatsResult(status: Status, stats: Option<TransactionModel.Stats>)

  /** `stats`: the group's totals, for members only. */
  function GroupStats(ms: seq<MembershipRow>, txs: seq<TransactionRow>, caller: int, groupId: Num)
      : (r: StatsResult)
    ensures r.status == MemberReadStatus(ms, caller, groupId)
    ensures r.status == OK ==> r.stats == Some(StatsByGroup(txs, groupId.value))
    ensures r.status != OK ==> r.stats.None?
  {
    var status := MemberReadStatus(ms, caller, groupId);
    if status != OK then StatsResult(status, None) else StatsResult(OK, Some(StatsByGroup(txs, groupId.value)))
  }

  // ---- GET /transactions/monthly

  /** `months > 0 ? months : 6` applied to `q.months ? Number(q.months) : 6`;
      `None` is an absent or empty parameter. The window is the query's
      length when that is a positive number, and 6 months otherwise
      (absent, empty, NaN, zero or negative). */
  function EffectiveMonths(months: Option<Num>): (r: Num)
    ensures !r.NaN? && (r.Int? ==> r.value > 0)
    ensures months.Some? && months.value.Int? && months.value.value > 0 ==> r == months.value
    ensures (months.None? || months.value.NaN? || (months.value.Int? && months.value.value <= 0)
             || (months.value.NonInteger? && !months.value.positive))
            ==> r == Int(DEFAULT_MONTHS)
  {
    if months.Some? && ((months.value.Int? && months.value.value > 0)
                        || (months.value.NonInteger? && months.value.positive))
    then months.value
    else Int(DEFAULT_MONTHS)
  }

  datatype MonthlyResult = MonthlyResult(status: Status, data: seq<MonthBucket>)

  /** `monthly`: the group's monthly buckets over the effective window. A
      positive non-integer reaches `$2::int` and makes the query raise. */
  function Monthly(ms: seq<MembershipRow>, txs: seq<TransactionRow>, caller: int, groupId: Num,
                   months: Option<Num>, current: int, monthOf: Time -> int): (r: MonthlyResult)
    ensures MemberReadStatus(ms, caller, groupId) != OK ==> r.status == MemberReadStatus(ms, caller, groupId)
    ensures r.status == OK <==> MemberReadStatus(ms, caller, groupId) == OK
                                && BindsAsInteger(EffectiveMonths(months))
    ensures r.status == OK ==>
              r.data == MonthlyStatsByGroup(txs, groupId.value, EffectiveMonths(months).value, current, monthOf)
    ensures r.status != OK ==> r.data == []
  {
    var status := MemberReadStatus(ms, caller, groupId);
    if status != OK then MonthlyResult(status, [])
    else if !BindsAsInteger(EffectiveMonths(months)) then MonthlyResult(INTERNAL_ERROR, [])
    else MonthlyResult(OK, MonthlyStatsByGroup(txs, groupId.value, EffectiveMonths(months).value, current, monthOf))
  }

  // ---- POST /transactions

  /** The type named by a request body, or `None` for any other text. */
  function ParseTxType(s: string): (r: Option<TxType>)
    ensures r.Some? <==> s == "income" || s == "expense"
    ensures r == Some(Income) <==> s == "income"
  {
    if s == "income" then Some(Income) else if s == "expense" then Some(Expense) else None
  }

  /** The body of `create`; `None` is an absent field. */
  datatype CreateBody = CreateBody(groupId: Num, txType: Option<string>, amount: Option<Cents>,
                                   description: Option<string>, date: Option<string>,
                                   receiptUrl: Option<string>)

  /** The status of `create`. `parseDate` is PostgreSQL's reading of a date
      text (`None` when it refuses it, and the INSERT raises). */
  function CreateStatus(users: set<int>, groups: set<int>, ms: seq<MembershipRow>, caller: int,
                        b: CreateBody, parseDate: string -> Option<Time>): (r: Status)
    ensures r == BAD_REQUEST <==>
              !NumTruthy(b.groupId) || !Truthy(b.txType) || b.amount.None? || !Truthy(b.description)
              || !Truthy(b.date) || ParseTxType(b.txType.value).None?
    ensures r == FORBIDDEN <==> r != BAD_REQUEST && BindsAsInteger(b.groupId)
                                && RoleOf(ms, caller, b.groupId.value).None?
    ensures r == CREATED <==>
              && r != BAD_REQUEST && BindsAsInteger(b.groupId) && RoleOf(ms, caller, b.groupId.value).Some?
              && parseDate(b.date.value).Some? && InsertAccepted(users, groups, b.groupId.value, b.amount.value, caller)
    ensures r in {BAD_REQUEST, FORBIDDEN, INTERNAL_ERROR, CREATED}
  {
    if !NumTruthy(b.groupId) || !Truthy(b.txType) || b.amount.None? || !Truthy(b.description)
       || !Truthy(b.date) then BAD_REQUEST
    else if ParseTxType(b.txType.value).None? then BAD_REQUEST
    else if !BindsAsInteger(b.groupId) then INTERNAL_ERROR
    else if RoleOf(ms, caller, b.groupId.value).None? then FORBIDDEN
    else if parseDate(b.date.value).None? then INTERNAL_ERROR
    else if !InsertAccepted(users, groups, b.groupId.value, b.amount.value, caller) then INTERNAL_ERROR
    else CREATED
  }

  /** A member of the group passes both foreign keys of the INSERT. */
  lemma MemberRefers(db: Database, caller: int, groupId: int)
    requires db.Valid() && RoleOf(db.memberships, caller, groupId).Some?
    ensures caller in UserIds(db.users) && groupId in GroupIds(db.groups)
  {
    var i :| 0 <= i < |db.memberships| && Matches(db.memberships[i], caller, groupId);
  }

  /** A member's complete entry with a date the database reads and an
      amount the CHECK accepts is created. */
  lemma MemberEntryCreated(db: Database, caller: int, b: CreateBody, parseDate: string -> Option<Time>)
    requires db.Valid()
    requires Truthy(b.txType) && ParseTxType(b.txType.value).Some? && Truthy(b.description)
    requires Truthy(b.date) && parseDate(b.date.value).Some?
    requires b.amount.Some? && 0 <= b.amount.value < AMOUNT_LIMIT
    requires BindsAsInteger(b.groupId) && b.groupId.value != 0 && RoleOf(db.memberships, caller, b.groupId.value).Some?
    ensures CreateStatus(UserIds(db.users), GroupIds(db.groups), db.memberships, caller, b, parseDate) == CREATED
  {
    MemberRefers(db, caller, b.groupId.value);
  }

  /** `create`: any member records an entry, as its creator, with no category. */
  method Create(db: Database, caller: int, b: CreateBody, now: Time, parseDate: string -> Option<Time>)
      returns (status: Status, tx: Option<TransactionRow>)
    requires db.Valid()
    modifies db`transactions, db`nextTransactionId
    ensures db.Valid()
    ensures status == CreateStatus(UserIds(db.users), GroupIds(db.groups), old(db.memberships), caller, b,
                                   parseDate)
    ensures status == CREATED ==>
              && tx == Some(NewTransaction(old(db.nextTransactionId), b.groupId.value,
                                           ParseTxType(b.txType.value).value, b.amount.value,
                                           b.description.value, parseDate(b.date.value).value, b.receiptUrl,
                                           None, caller, now))
              && db.transactions == old(db.transactions) + [tx.value]
              && tx.value.createdBy == caller && tx.value.category.None?
    ensures status != CREATED ==> tx.None? && db.transactions == old(db.transactions)
  {
    if !NumTruthy(b.groupId) || !Truthy(b.txType) || b.amount.None? || !Truthy(b.description) || !Truthy(b.date) {
      return BAD_REQUEST, None;
    }
    var txType := ParseTxType(b.txType.value);
    if txType.None? {
      return BAD_REQUEST, None;
    }
    if !BindsAsInteger(b.groupId) {
      return INTERNAL_ERROR, None;
    }
    var role := RoleOf(db.memberships, caller, b.groupId.value);
    if role.None? {
      return FORBIDDEN, None;
    }
    var date := parseDate(b.date.value);
    if date.None? {
      return INTERNAL_ERROR, None;
    }
    MemberRefers(db, caller, b.groupId.value);
    tx := CreateTransaction(db, b.groupId.value, txType.value, b.amount.value, b.description.value, date.value,
                            b.receiptUrl, caller, None, now);
    status := if tx.Some? then CREATED else INTERNAL_ERROR;
  }

  // ---- PUT /transactions/:id and DELETE /transactions/:id

  /** Who may edit or delete an entry: a member of its group who is the
      group's admin or the entry's creator. */
  predicate MayEdit(ms: seq<MembershipRow>, caller: int, tx: TransactionRow) {
    RoleOf(ms, caller, tx.groupId) == Some(Admin)
    || (RoleOf(ms, caller, tx.groupId).Some? && tx.createdBy == caller)
  }

  /** The entry `update` and `remove` address: it must exist and belong to
      the group the request names. */
  function Addressed(txs: seq<TransactionRow>, id: Num, groupId: Num): (r: Option<TransactionRow>)
    requires BindsAsInteger(id)
    ensures r.Some? <==> TransactionById(txs, id.value).Some? && groupId.Int?
                         && TransactionById(txs, id.value).value.groupId == groupId.value
    ensures r.Some? ==> r.value in txs && r.value.id == id.value && r.value.groupId == groupId.value
  {
    var tx := TransactionById(txs, id.value);
    if tx.Some? && groupId.Int? && tx.value.groupId == groupId.value then tx else None
  }

  /** The guards `update` and `remove` share, in order: both keys present
      (400), the id bindable (500), the entry in the named group (404), and
      the caller's authority (403). */
  function EditStatus(ms: seq<MembershipRow>, txs: seq<TransactionRow>, caller: int, id: Num, groupId: Num)
      : (r: Status)
    ensures r == BAD_REQUEST <==> !NumTruthy(id) || !NumTruthy(groupId)
    ensures r == NOT_FOUND <==> NumTruthy(id) && NumTruthy(groupId) && BindsAsInteger(id)
                                && Addressed(txs, id, groupId).None?
    ensures r == FORBIDDEN <==> NumTruthy(id) && NumTruthy(groupId) && BindsAsInteger(id)
                                && Addressed(txs, id, groupId).Some? && BindsAsInteger(groupId)
                                && !MayEdit(ms, caller, Addressed(txs, id, groupId).value)
    ensures r == OK <==> NumTruthy(id) && NumTruthy(groupId) && BindsAsInteger(id)
                         && Addressed(txs, id, groupId).Some? && BindsAsInteger(groupId)
                         && MayEdit(ms, caller, Addressed(txs, id, groupId).value)
  {
    if !NumTruthy(id) || !NumTruthy(groupId) then BAD_REQUEST
    else if !BindsAsInteger(id) then INTERNAL_ERROR
    else match Addressed(txs, id, groupId)
      case None => NOT_FOUND
      case Some(tx) =>
        if !BindsAsInteger(groupId) then INTERNAL_ERROR
        else if !MayEdit(ms, caller, tx) then FORBIDDEN
        else OK
  }

  /** The body of `update`; `None` is an absent field. */
  datatype UpdateBody = UpdateBody(groupId: Num, txType: Option<string>, amount: Option<Cents>,
                                   description: Option<string>, date: Option<string>,
                                   receiptUrl: Option<string>)

  /** The parameters `update` binds: each text field `|| null`, the amount
      unless it is absent, and never a category. `None` when the date text
      is one PostgreSQL refuses, so the UPDATE raises. */
  function PatchOf(b: UpdateBody, parseDate: string -> Option<Time>): (r: Option<TxPatch>)
    ensures r.Some? <==> !Truthy(b.date) || parseDate(b.date.value).Some?
    ensures r.Some? ==> r.value.category.None? && r.value.amount == b.amount
                        && r.value.description == OrNull(b.description)
                        && r.value.receiptUrl == OrNull(b.receiptUrl)
  {
    if Truthy(b.date) && parseDate(b.date.value).None? then None
    else
      Some(TxPatch(if Truthy(b.txType) then ParseTxType(b.txType.value) else None, b.amount, OrNull(b.description),
                   if Truthy(b.date) then parseDate(b.date.value) else None, OrNull(b.receiptUrl), None))
  }

  /** The status of `update`: the shared guards, then the type check (400),
      then the statement itself, which raises (500) on a refused date or
      amount. The type is checked only after the authority: a caller who
      may not edit the entry gets 403 whatever type the body names. */
  function UpdateStatus(ms: seq<MembershipRow>, txs: seq<TransactionRow>, caller: int, id: Num, b: UpdateBody,
                        parseDate: string -> Option<Time>): (r: Status)
    ensures EditStatus(ms, txs, caller, id, b.groupId) != OK ==> r == EditStatus(ms, txs, caller, id, b.groupId)
    ensures r == OK <==> EditStatus(ms, txs, caller, id, b.groupId) == OK
                         && (Truthy(b.txType) ==> ParseTxType(b.txType.value).Some?)
                         && PatchOf(b, parseDate).Some? && !UpdateFails(txs, id.value, PatchOf(b, parseDate).value)
  {
    var guard := EditStatus(ms, txs, caller, id, b.groupId);
    if guard != OK then guard
    else if Truthy(b.txType) && ParseTxType(b.txType.value).None? then BAD_REQUEST
    else match PatchOf(b, parseDate)
      case None => INTERNAL_ERROR
      case Some(p) => if UpdateFails(txs, id.value, p) then INTERNAL_ERROR else OK
  }

  /** `update`: the admin or the creator merges the body into the entry;
      the entry's key, group, creator, creation time and category stay. */
  method Update(db: Database, caller: int, id: Num, b: UpdateBody, parseDate: string -> Option<Time>)
      returns (status: Status, tx: Option<TransactionRow>)
    requires db.Valid()
    modifies db`transactions
    ensures db.Valid()
    ensures status == UpdateStatus(old(db.memberships), old(db.transactions), caller, id, b, parseDate)
    ensures status == OK ==>
              var before := Addressed(old(db.transactions), id, b.groupId).value;
              && db.transactions == Updated(old(db.transactions), id.value, PatchOf(b, parseDate).value)
              && tx == Some(Merge(before, PatchOf(b, parseDate).value))
              && tx.value.id == before.id && tx.value.groupId == before.groupId
              && tx.value.createdBy == before.createdBy && tx.value.category == before.category
    ensures status != OK ==> tx.None? && db.transactions == old(db.transactions)
  {
    var guard := EditStatus(db.memberships, db.transactions, caller, id, b.groupId);
    if guard != OK {
      return guard, None;
    }
    if Truthy(b.txType) && ParseTxType(b.txType.value).None? {
      return BAD_REQUEST, None;
    }
    var patch := PatchOf(b, parseDate);
    if patch.None? {
      return INTERNAL_ERROR, None;
    }
    ghost var before := Addressed(db.transactions, id, b.groupId).value;
    var ok;
    ok, tx := UpdateTransaction(db, id.value, patch.value);
    if !ok {
      return INTERNAL_ERROR, None;
    }
    UpdatedFound(old(db.transactions), id.value, patch.value);
    status := OK;
  }

  /** `remove`: the admin or the creator deletes the entry. */
  method Remove(db: Database, caller: int, id: Num, groupId: Num) returns (status: Status)
    requires db.Valid()
    modifies db`transactions
    ensures db.Valid()
    ensures status == (var guard := EditStatus(old(db.memberships), old(db.transactions), caller, id, groupId);
                       if guard == OK then NO_CONTENT else guard)
    ensures status == NO_CONTENT ==> db.transactions == WithoutTransaction(old(db.transactions), id.value)
    ensures status != NO_CONTENT ==> db.transactions == old(db.transactions)
  {
    var guard := EditStatus(db.memberships, db.transactions, caller, id, groupId);
    if guard != OK {
      return guard;
    }
    DeleteTransaction(db, id.value);
    status := NO_CONTENT;
  }
}
