/** The notification handlers: reading the notification log (own rows, or
    the whole group's for its admin) and the admin's manual dues reminder. */
module NotificationsController {
  import opened Base
  import opened Rows
  import opened Store
  import opened GroupModel
  import opened LogModel
  import opened Reminders
  import Text

  // ---- GET /notifications/logs

  /** A row of `listLogs`: the log row with its user's and group's names. */
  datatype LogView = LogView(id: int, userId: int, groupId: int, kind: string, message: string, sentAt: Time,
                             userName: string, groupName: string)

  function ViewOfLog(l: LogRow, u: UserRow, g: GroupRow): LogView {
    LogView(l.id, l.userId, l.groupId, l.kind, l.message, l.sentAt, u.name, g.name)
  }

  /** The query string: `None` for an absent or empty parameter, otherwise
      what `Number` makes of it. */
  datatype LogQuery = LogQuery(groupId: Option<Num>, userId: Option<Num>)

  /** `groupId` takes part only when it is a truthy number (NaN and 0 drop it). */
  predicate GroupGiven(q: LogQuery) {
    q.groupId.Some? && NumTruthy(q.groupId.value)
  }

  /** The status of `listLogs`: the role query for a given group raises (500)
      when the key does not bind, a non-member gets 403, and the log query
      raises (500) when a given `userId` does not bind. */
  function ListLogsStatus(ms: seq<MembershipRow>, caller: int, q: LogQuery): (r: Status)
    ensures r == FORBIDDEN <==> GroupGiven(q) && BindsAsInteger(q.groupId.value)
                                && RoleOf(ms, caller, q.groupId.value.value).None?
    ensures r == OK <==> (GroupGiven(q) ==> BindsAsInteger(q.groupId.value)
                                            && RoleOf(ms, caller, q.groupId.value.value).Some?)
                         && (q.userId.Some? ==> BindsAsInteger(q.userId.value))
  {
    if GroupGiven(q) && !BindsAsInteger(q.groupId.value) then INTERNAL_ERROR
    else if GroupGiven(q) && RoleOf(ms, caller, q.groupId.value.value).None? then FORBIDDEN
    else if q.userId.Some? && !BindsAsInteger(q.userId.value) then INTERNAL_ERROR
    else OK
  }

  /** The caller is the admin of the group the query names. */
  predicate SeesGroup(ms: seq<MembershipRow>, caller: int, q: LogQuery) {
    GroupGiven(q) && q.groupId.value.Int? && RoleOf(ms, caller, q.groupId.value.value) == Some(Admin)
  }

  /** The WHERE clause the handler builds: the caller's own rows unless the
      caller is the group's admin, AND the group, AND the requested user. */
  predicate Visible(ms: seq<MembershipRow>, caller: int, q: LogQuery, l: LogRow) {
    && (!SeesGroup(ms, caller, q) ==> l.userId == caller)
    && (GroupGiven(q) && q.groupId.value.Int? ==> l.groupId == q.groupId.value.value)
    && (q.userId.Some? && q.userId.value.Int? ==> l.userId == q.userId.value.value)
  }

  /** The log rows that pass the clause, joined with their user and group, in table order. */
  function JoinLogs(us: seq<UserRow>, gs: seq<GroupRow>, ms: seq<MembershipRow>, ls: seq<LogRow>, caller: int,
                    q: LogQuery): seq<LogView>
  {
    if ls == [] then []
    else
      var rest := JoinLogs(us, gs, ms, ls[1..], caller, q);
      var u, g := UserById(us, ls[0].userId), GroupById(gs, ls[0].groupId);
      if Visible(ms, caller, q, ls[0]) && u.Some? && g.Some? then [ViewOfLog(ls[0], u.value, g.value)] + rest
      else rest
  }

  function NewerSent(a: LogView, b: LogView): bool {
    a.sentAt >= b.sentAt
  }

  lemma NewerSentOrder()
    ensures TotalPreorder(NewerSent)
  {
  }

  const LOG_LIMIT: nat := 100

  datatype LogsResult = LogsResult(status: Status, logs: seq<LogView>)

  /** `listLogs`: `ORDER BY nl.sent_at DESC LIMIT 100` over the visible rows. */
  function ListLogs(us: seq<UserRow>, gs: seq<GroupRow>, ms: seq<MembershipRow>, ls: seq<LogRow>, caller: int,
                    q: LogQuery): (r: LogsResult)
    ensures r.status == ListLogsStatus(ms, caller, q)
    ensures r.status == OK ==> r.logs == Page(SortBy(JoinLogs(us, gs, ms, ls, caller, q), NewerSent), 0, LOG_LIMIT)
    ensures r.status != OK ==> r.logs == []
  {
    var status := ListLogsStatus(ms, caller, q);
    if status != OK then LogsResult(status, [])
    else LogsResult(OK, Page(SortBy(JoinLogs(us, gs, ms, ls, caller, q), NewerSent), 0, LOG_LIMIT))
  }

  /** `x` is the view of a visible log row whose user and group exist. */
  predicate VisibleEntry(us: seq<UserRow>, gs: seq<GroupRow>, ms: seq<MembershipRow>, ls: seq<LogRow>, caller: int,
                         q: LogQuery, x: LogView) {
    exists i :: 0 <= i < |ls| && Visible(ms, caller, q, ls[i]) && UserById(us, ls[i].userId).Some?
                && GroupById(gs, ls[i].groupId).Some?
                && x == ViewOfLog(ls[i], UserById(us, ls[i].userId).value, GroupById(gs, ls[i].groupId).value)
  }

  lemma {:induction false} JoinLogsExact(us: seq<UserRow>, gs: seq<GroupRow>, ms: seq<MembershipRow>,
                                         ls: seq<LogRow>, caller: int, q: LogQuery, x: LogView)
    ensures x in JoinLogs(us, gs, ms, ls, caller, q) <==> VisibleEntry(us, gs, ms, ls, caller, q, x)
  {
    if ls != [] {
      JoinLogsExact(us, gs, ms, ls[1..], caller, q, x);
      assert forall i :: 1 <= i < |ls| ==> ls[i] == ls[1..][i - 1];
      if VisibleEntry(us, gs, ms, ls[1..], caller, q, x) {
        var i :| 0 <= i < |ls[1..]| && Visible(ms, caller, q, ls[1..][i]) && UserById(us, ls[1..][i].userId).Some?
                 && GroupById(gs, ls[1..][i].groupId).Some?
                 && x == ViewOfLog(ls[1..][i], UserById(us, ls[1..][i].userId).value,
                                   GroupById(gs, ls[1..][i].groupId).value);
        assert ls[i + 1] == ls[1..][i];
      }
    }
  }

  /** Each listed row is a visible row. */
  lemma ListLogsSound(us: seq<UserRow>, gs: seq<GroupRow>, ms: seq<MembershipRow>, ls: seq<LogRow>, caller: int,
                      q: LogQuery)
    requires ListLogsStatus(ms, caller, q) == OK
    ensures forall x :: x in ListLogs(us, gs, ms, ls, caller, q).logs ==> VisibleEntry(us, gs, ms, ls, caller, q, x)
  {
    var j := JoinLogs(us, gs, ms, ls, caller, q);
    var sorted := SortBy(j, NewerSent);
    var r := ListLogs(us, gs, ms, ls, caller, q).logs;
    forall x | x in r ensures VisibleEntry(us, gs, ms, ls, caller, q, x) {
      var k :| 0 <= k < |r| && r[k] == x;
      assert sorted[k] == x;
      assert x in multiset(sorted);
      JoinLogsExact(us, gs, ms, ls, caller, q, x);
    }
  }

  /** When at most 100 rows are visible, every one of them is listed. */
  lemma ListLogsComplete(us: seq<UserRow>, gs: seq<GroupRow>, ms: seq<MembershipRow>, ls: seq<LogRow>, caller: int,
                         q: LogQuery)
    requires ListLogsStatus(ms, caller, q) == OK
    requires |JoinLogs(us, gs, ms, ls, caller, q)| <= LOG_LIMIT
    ensures forall x :: VisibleEntry(us, gs, ms, ls, caller, q, x) ==> x in ListLogs(us, gs, ms, ls, caller, q).logs
  {
    var j := JoinLogs(us, gs, ms, ls, caller, q);
    var r := ListLogs(us, gs, ms, ls, caller, q).logs;
    assert r == SortBy(j, NewerSent);
    forall x | VisibleEntry(us, gs, ms, ls, caller, q, x) ensures x in r {
      JoinLogsExact(us, gs, ms, ls, caller, q, x);
      assert x in multiset(j);
    }
  }

  /** The listed rows are at most 100, newest first, each a visible row;
      when at most 100 rows are visible, every one of them is listed. */
  lemma ListLogsSpec(us: seq<UserRow>, gs: seq<GroupRow>, ms: seq<MembershipRow>, ls: seq<LogRow>, caller: int,
                     q: LogQuery)
    requires ListLogsStatus(ms, caller, q) == OK
    ensures |ListLogs(us, gs, ms, ls, caller, q).logs| <= LOG_LIMIT
    ensures SortedBy(ListLogs(us, gs, ms, ls, caller, q).logs, NewerSent)
    ensures forall x :: x in ListLogs(us, gs, ms, ls, caller, q).logs ==> VisibleEntry(us, gs, ms, ls, caller, q, x)
    ensures |JoinLogs(us, gs, ms, ls, caller, q)| <= LOG_LIMIT ==>
              forall x :: VisibleEntry(us, gs, ms, ls, caller, q, x) ==> x in ListLogs(us, gs, ms, ls, caller, q).logs
  {
    var j := JoinLogs(us, gs, ms, ls, caller, q);
    var sorted := SortBy(j, NewerSent);
    var r := ListLogs(us, gs, ms, ls, caller, q).logs;
    NewerSentOrder();
    SortBySorted(j, NewerSent);
    assert forall a, b :: 0 <= a < b < |r| ==> r[a] == sorted[a] && r[b] == sorted[b];
    ListLogsSound(us, gs, ms, ls, caller, q);
    if |j| <= LOG_LIMIT {
      ListLogsComplete(us, gs, ms, ls, caller, q);
    }
  }

  /** Every listed row is the caller's own unless the caller is the admin of
      the named group; without a usable `groupId` only own rows are listed. */
  lemma ListLogsOwnRows(us: seq<UserRow>, gs: seq<GroupRow>, ms: seq<MembershipRow>, ls: seq<LogRow>, caller: int,
                        q: LogQuery)
    requires ListLogsStatus(ms, caller, q) == OK
    ensures !SeesGroup(ms, caller, q) ==> forall x :: x in ListLogs(us, gs, ms, ls, caller, q).logs ==> x.userId == caller
    ensures GroupGiven(q) ==>
              forall x :: x in ListLogs(us, gs, ms, ls, caller, q).logs ==> x.groupId == q.groupId.value.value
    ensures !GroupGiven(q) ==> !SeesGroup(ms, caller, q)
  {
    ListLogsSpec(us, gs, ms, ls, caller, q);
  }

  /** No row passes a clause that asks for someone else's rows while also
      keeping only the caller's. */
  lemma {:induction false} JoinLogsOtherUser(us: seq<UserRow>, gs: seq<GroupRow>, ms: seq<MembershipRow>,
                                             ls: seq<LogRow>, caller: int, q: LogQuery)
    requires !SeesGroup(ms, caller, q)
    requires q.userId.Some? && q.userId.value.Int? && q.userId.value.value != caller
    ensures JoinLogs(us, gs, ms, ls, caller, q) == []
  {
    if ls != [] {
      JoinLogsOtherUser(us, gs, ms, ls[1..], caller, q);
    }
  }

  /** The filters are ANDed: a caller who is not the group's admin and asks
      for another user's rows gets an empty list. */
  lemma ListLogsOtherUserEmpty(us: seq<UserRow>, gs: seq<GroupRow>, ms: seq<MembershipRow>, ls: seq<LogRow>,
                               caller: int, q: LogQuery)
    requires ListLogsStatus(ms, caller, q) == OK && !SeesGroup(ms, caller, q)
    requires q.userId.Some? && q.userId.value.Int? && q.userId.value.value != caller
    ensures ListLogs(us, gs, ms, ls, caller, q).logs == []
  {
    JoinLogsOtherUser(us, gs, ms, ls, caller, q);
  }

  // ---- The reminder decision for one row

  const OPTED_OUT_REASON: string := "알림 설정이 비활성화되어 있습니다."
  const NOTHING_UNPAID_REASON: string := "미납 내역이 없습니다."

  /** One entry of the handler's `results`. */
  datatype ReminderResult = ReminderResult(userId: int, userName: string, email: string, sent: bool,
                                           reason: Option<string>)

  /** The decision for one row, in the handler's order: opted out first,
      then nothing unpaid, then the outcome of sending and logging. */
  function Decide(r: ReminderRow, failure: Failure): (x: ReminderResult)
    ensures x.userId == r.userId && x.userName == r.userName && x.email == r.email
    ensures x.sent <==> Sends(r, failure)
    ensures !Allows(r) ==> x.reason == Some(OPTED_OUT_REASON)
    ensures Allows(r) && r.unpaidCount == 0 ==> x.reason == Some(NOTHING_UNPAID_REASON)
    ensures Eligible(r) ==> x.reason == failure(r)
  {
    if !Allows(r) then ReminderResult(r.userId, r.userName, r.email, false, Some(OPTED_OUT_REASON))
    else if r.unpaidCount == 0 then ReminderResult(r.userId, r.userName, r.email, false, Some(NOTHING_UNPAID_REASON))
    else match failure(r)
      case Some(message) => ReminderResult(r.userId, r.userName, r.email, false, Some(message))
      case None => ReminderResult(r.userId, r.userName, r.email, true, None)
  }

  /** The whole `results` array: one decision per row, in row order. */
  function Decisions(rows: seq<ReminderRow>, failure: Failure): (r: seq<ReminderResult>)
    ensures |r| == |rows|
    ensures forall i :: 0 <= i < |rows| ==> r[i] == Decide(rows[i], failure)
  {
    seq(|rows|, i requires 0 <= i < |rows| => Decide(rows[i], failure))
  }

  lemma DecisionsStep(rows: seq<ReminderRow>, failure: Failure, i: int)
    requires 0 <= i < |rows|
    ensures Decisions(rows[..i + 1], failure) == Decisions(rows[..i], failure) + [Decide(rows[i], failure)]
  {
    assert Decisions(rows[..i + 1], failure)[i] == Decide(rows[i], failure);
  }

  // ---- POST /notifications/test/dues-reminder

  // The body's `groupId` is a `JsonValue`: no schema is applied on this route.

  /** PostgreSQL's reading of a text as an `INTEGER`: an optional minus sign
      and decimal digits, within the 32-bit range. */
  function Int4OfText(t: string): (r: Option<int>)
    ensures r.Some? ==> INT4_MIN <= r.value <= INT4_MAX
    ensures r.Some? ==> Text.ParseInt(t) == r
  {
    var n := Text.ParseInt(t);
    if n.Some? && INT4_MIN <= n.value <= INT4_MAX then n else None
  }

  /** The key PostgreSQL binds for `group_id = $n`: a number as its integer
      value, a string as its text read as an integer; a boolean, an object
      or an array is sent as text no integer reading accepts, and the query
      raises (`None`). */
  function Int4Param(v: JsonValue): (r: Option<int>)
    ensures v.JNumber? ==> (r.Some? <==> BindsAsInteger(v.num)) && (r.Some? ==> r.value == v.num.value)
    ensures v.JString? ==> r == Int4OfText(v.text)
    ensures v.JBool? || v.JStructured? || v.JAbsent? ==> r.None?
  {
    match v
    case JNumber(n) => if BindsAsInteger(n) then Some(n.value) else None
    case JString(t) => Int4OfText(t)
    case _ => None
  }

  /** The status of `testDuesReminder`: 400 without a truthy `groupId`, 500
      when PostgreSQL cannot read it as a key, 403 unless the caller is the
      group's admin. */
  function ReminderStatus(ms: seq<MembershipRow>, caller: int, groupId: JsonValue): (r: Status)
    ensures r == BAD_REQUEST <==> !JsonTruthy(groupId)
    ensures r == INTERNAL_ERROR <==> JsonTruthy(groupId) && Int4Param(groupId).None?
    ensures r == FORBIDDEN <==> JsonTruthy(groupId) && Int4Param(groupId).Some?
                                && RoleOf(ms, caller, Int4Param(groupId).value) != Some(Admin)
    ensures r == OK <==> JsonTruthy(groupId) && Int4Param(groupId).Some?
                         && RoleOf(ms, caller, Int4Param(groupId).value) == Some(Admin)
  {
    if !JsonTruthy(groupId) then BAD_REQUEST
    else if Int4Param(groupId).None? then INTERNAL_ERROR
    else if RoleOf(ms, caller, Int4Param(groupId).value) != Some(Admin) then FORBIDDEN
    else OK
  }

  /** A JSON number behaves as a `Number()`-ed key: 400 iff it is 0, and 200
      iff it binds and the caller is the admin of that group. */
  lemma NumberGroupIdStatus(ms: seq<MembershipRow>, caller: int, n: Num)
    ensures ReminderStatus(ms, caller, JNumber(n)) == BAD_REQUEST <==> !NumTruthy(n)
    ensures ReminderStatus(ms, caller, JNumber(n)) == OK <==>
              BindsAsInteger(n) && n.value != 0 && RoleOf(ms, caller, n.value) == Some(Admin)
  {
  }

  /** The text `"0"` is truthy, so it passes the 400 check and is read as
      group 0; a text that is not an integer, and `true`, make the query
      raise. */
  lemma TextGroupIdStatus(ms: seq<MembershipRow>, caller: int)
    ensures RoleOf(ms, caller, 0) != Some(Admin) ==> ReminderStatus(ms, caller, JString("0")) == FORBIDDEN
    ensures ReminderStatus(ms, caller, JString("abc")) == INTERNAL_ERROR
    ensures ReminderStatus(ms, caller, JBool(true)) == INTERNAL_ERROR
    ensures ReminderStatus(ms, caller, JString("")) == BAD_REQUEST
  {
    assert Text.ParseInt("0") == Some(0) by {
      assert "0"[..] == ['0'];
      Text.ParseIntDigits("0");
      assert Text.DigitsValue("0") == 0;
    }
    assert Text.ParseInt("abc").None? by {
      assert !Text.IsDigit("abc"[0]) && "abc"[0] != '-';
    }
  }

  /** One pass of the handler's loop, on row `i`: decide, and when the row
      is reminded, append its log row; what the earlier passes did extends
      to the first `i + 1` rows. */
  method RemindRow(db: Database, rows: seq<ReminderRow>, i: nat, results: seq<ReminderResult>, failure: Failure,
                   now: Time, test: bool, ghost logs0: seq<LogRow>, ghost firstId: int)
      returns (results': seq<ReminderResult>)
    requires i < |rows| && RowsExist(rows, UserIds(db.users), GroupIds(db.groups))
    requires LogsRefer(db.logs, UserIds(db.users), GroupIds(db.groups))
    requires results == Decisions(rows[..i], failure)
    requires db.logs == logs0 + SentLogs(rows[..i], failure, firstId, now, test)
    requires db.nextLogId == firstId + |SentLogs(rows[..i], failure, firstId, now, test)|
    modifies db`logs, db`nextLogId
    ensures LogsRefer(db.logs, UserIds(db.users), GroupIds(db.groups))
    ensures results' == Decisions(rows[..i + 1], failure)
    ensures db.logs == logs0 + SentLogs(rows[..i + 1], failure, firstId, now, test)
    ensures db.nextLogId == firstId + |SentLogs(rows[..i + 1], failure, firstId, now, test)|
  {
    var r := rows[i];
    SentLogsStep(rows, failure, firstId, now, test, i);
    DecisionsStep(rows, failure, i);
    if Sends(r, failure) {
      var ok := InsertNotificationLog(db, r.userId, r.groupId, REMINDER_KIND, ReminderMessage(r, test), now);
    }
    results' := results + [Decide(r, failure)];
  }

  /** The handler's loop over the query rows: one decision per row, and a
      log row for each row reminded, with consecutive keys. */
  method RemindRows(db: Database, rows: seq<ReminderRow>, failure: Failure, now: Time, test: bool)
      returns (results: seq<ReminderResult>)
    requires db.Valid()
    requires RowsExist(rows, UserIds(db.users), GroupIds(db.groups))
    modifies db`logs, db`nextLogId
    ensures db.Valid()
    ensures results == Decisions(rows, failure)
    ensures db.logs == old(db.logs) + SentLogs(rows, failure, old(db.nextLogId), now, test)
    ensures db.nextLogId == old(db.nextLogId) + |SentLogs(rows, failure, old(db.nextLogId), now, test)|
  {
    results := [];
    ghost var logs0, firstId := db.logs, db.nextLogId;
    var i := 0;
    while i < |rows|
      invariant 0 <= i <= |rows|
      invariant LogsRefer(db.logs, UserIds(db.users), GroupIds(db.groups))
      invariant results == Decisions(rows[..i], failure)
      invariant db.logs == logs0 + SentLogs(rows[..i], failure, firstId, now, test)
      invariant db.nextLogId == firstId + |SentLogs(rows[..i], failure, firstId, now, test)|
    {
      results := RemindRow(db, rows, i, results, failure, now, test, logs0, firstId);
      i := i + 1;
    }
    assert rows[..i] == rows;
  }

  /** `testDuesReminder`: for each member row of the group, skip the opted
      out, then those with nothing unpaid; remind and log the rest, recording
      a failure and carrying on when sending or logging raises. */
  method TestDuesReminder(db: Database, caller: int, groupId: JsonValue, now: Time, failure: Failure)
      returns (status: Status, results: seq<ReminderResult>, totalUsers: nat)
    requires db.Valid()
    modifies db`logs, db`nextLogId
    ensures db.Valid()
    ensures status == ReminderStatus(db.memberships, caller, groupId)
    ensures status == OK ==>
              var g := Int4Param(groupId).value;
              var rows := ReminderRows(db.users, db.groups, db.memberships, db.dues, db.preferences, Some(g));
              var sent := SentLogs(rows, failure, old(db.nextLogId), now, true);
              && totalUsers == |rows| == CountMembers(db.memberships, g)
              && results == Decisions(rows, failure)
              && db.logs == old(db.logs) + sent
              && db.nextLogId == old(db.nextLogId) + |sent|
    ensures status != OK ==> results == [] && db.logs == old(db.logs) && db.nextLogId == old(db.nextLogId)
  {
    results, totalUsers := [], 0;
    status := ReminderStatus(db.memberships, caller, groupId);
    if status != OK {
      return;
    }
    var g := Int4Param(groupId).value;
    var rows := ReminderRows(db.users, db.groups, db.memberships, db.dues, db.preferences, Some(g));
    ReminderRowsCount(db.users, db.groups, db.memberships, db.dues, db.preferences, g);
    results := RemindRows(db, rows, failure, now, true);
    totalUsers := |rows|;
  }
}
