/** The dues-reminder query both the manual reminder and the daily sweep
    run, the per-row decision whether a member is reminded, and the log rows
    a run of reminders appends. */
module Reminders {
  import opened Base
  import opened Text
  import opened Store
  import opened GroupModel
  import opened DuesModel
  import opened PreferenceModel
  import opened LogModel

  /** A row of the reminder query. */
  datatype ReminderRow = ReminderRow(groupId: int, groupName: string, userId: int, userName: string,
                                     email: string, unpaidCount: nat, receiveDuesReminders: Option<bool>)

  /** `COUNT(*) FILTER (WHERE d.is_paid = false OR d.is_paid IS NULL)` over
      the member's left-joined dues: with at most one dues row per pair, it
      is 0 for a paid row and 1 for an unpaid or missing one. */
  function UnpaidCount(d: Option<DuesRow>): (r: nat)
    ensures r == 0 <==> d.Some? && d.value.isPaid
    ensures r <= 1
  {
    if d.Some? && d.value.isPaid then 0 else 1
  }

  /** `up.receive_dues_reminders` of the LEFT JOIN: null without a row. */
  function ReceiveOf(ps: seq<PreferenceRow>, userId: int): (r: Option<bool>)
    ensures r.None? <==> PreferenceOf(ps, userId).None?
    ensures r.Some? ==> r.value == GetUserPreferences(ps, userId).receiveDuesReminders
  {
    match PreferenceOf(ps, userId)
    case None => None
    case Some(p) => Some(p.receiveDuesReminders)
  }

  /** The query row of one membership whose user and group exist. */
  function RowOf(u: UserRow, g: GroupRow, ds: seq<DuesRow>, ps: seq<PreferenceRow>): ReminderRow {
    ReminderRow(g.id, g.name, u.id, u.name, u.email, UnpaidCount(DuesOf(ds, g.id, u.id)), ReceiveOf(ps, u.id))
  }

  /** The query: one row per membership (of the group `only` names, or of
      every group when it is `None`), joined with its user and group. */
  function ReminderRows(us: seq<UserRow>, gs: seq<GroupRow>, ms: seq<MembershipRow>, ds: seq<DuesRow>,
                        ps: seq<PreferenceRow>, only: Option<int>): (r: seq<ReminderRow>)
    ensures forall k :: 0 <= k < |r| ==> r[k].userId in UserIds(us) && r[k].groupId in GroupIds(gs)
    ensures only.Some? ==> forall k :: 0 <= k < |r| ==> r[k].groupId == only.value
  {
    if ms == [] then []
    else
      var rest := ReminderRows(us, gs, ms[1..], ds, ps, only);
      var u, g := UserById(us, ms[0].userId), GroupById(gs, ms[0].groupId);
      if (only.None? || ms[0].groupId == only.value) && u.Some? && g.Some?
      then [RowOf(u.value, g.value, ds, ps)] + rest
      else rest
  }

  /** Every row's user and group have rows. */
  predicate RowsExist(rows: seq<ReminderRow>, users: set<int>, groups: set<int>) {
    forall k :: 0 <= k < |rows| ==> rows[k].userId in users && rows[k].groupId in groups
  }

  /** Under the foreign keys of `user_groups`, the query has exactly one row
      per membership of the group. */
  lemma {:induction false} ReminderRowsCount(us: seq<UserRow>, gs: seq<GroupRow>, ms: seq<MembershipRow>,
                                             ds: seq<DuesRow>, ps: seq<PreferenceRow>, groupId: int)
    requires MembershipsRefer(ms, UserIds(us), GroupIds(gs))
    ensures |ReminderRows(us, gs, ms, ds, ps, Some(groupId))| == CountMembers(ms, groupId)
  {
    if ms != [] {
      assert forall i :: 0 <= i < |ms[1..]| ==> ms[1..][i] == ms[i + 1];
      ReminderRowsCount(us, gs, ms[1..], ds, ps, groupId);
    }
  }

  /** A member counts 0 unpaid exactly when their dues row in the group
      is paid, and 1 when it is unpaid or missing. */
  lemma ReminderRowUnpaid(u: UserRow, g: GroupRow, ds: seq<DuesRow>, ps: seq<PreferenceRow>)
    requires UniqueDues(ds)
    ensures RowOf(u, g, ds, ps).unpaidCount == 0
            <==> exists i :: 0 <= i < |ds| && KeyIs(ds[i], g.id, u.id) && ds[i].isPaid
    ensures RowOf(u, g, ds, ps).unpaidCount == 1
            <==> forall i :: 0 <= i < |ds| && KeyIs(ds[i], g.id, u.id) ==> !ds[i].isPaid
  {
    if i :| 0 <= i < |ds| && KeyIs(ds[i], g.id, u.id) {
      DuesOfExact(ds, g.id, u.id, ds[i]);
    }
  }

  // ---- The decision for one row

  /** `receive_dues_reminders !== false`: a null or absent setting counts as
      opted in. */
  predicate Allows(r: ReminderRow) {
    r.receiveDuesReminders != Some(false)
  }

  /** A member who is reminded when sending and logging succeed. */
  predicate Eligible(r: ReminderRow) {
    Allows(r) && r.unpaidCount > 0
  }

  /** The outcome of sending and logging one reminder: `None` when both
      succeed, else the message of the error raised. The notice itself is
      delivered outside this model. */
  type Failure = ReminderRow -> Option<string>

  /** The row is reminded and logged. */
  predicate Sends(r: ReminderRow, failure: Failure) {
    Eligible(r) && failure(r).None?
  }

  const REMINDER_KIND: string := "dues_reminder"

  /** The log message: `{group}: 미납 {n}건 안내 발송`, with ` (테스트)` for
      the manual test. */
  function ReminderMessage(r: ReminderRow, test: bool): (m: string)
    ensures |m| > |r.groupName| && m[..|r.groupName|] == r.groupName
    ensures test ==> |m| >= 6 && m[|m| - 6..] == " (테스트)"
  {
    r.groupName + ": 미납 " + NatToString(r.unpaidCount) + "건 안내 발송" + (if test then " (테스트)" else "")
  }

  /** The log rows a run appends for `rows`, with keys from `firstId` on:
      one per row that is reminded, in row order. */
  function SentLogs(rows: seq<ReminderRow>, failure: Failure, firstId: int, now: Time, test: bool)
      : (r: seq<LogRow>)
    ensures |r| <= |rows|
    ensures forall k :: 0 <= k < |r| ==> r[k].id == firstId + k && r[k].kind == REMINDER_KIND && r[k].sentAt == now
    decreases |rows|
  {
    if rows == [] then []
    else
      var prev := SentLogs(rows[..|rows| - 1], failure, firstId, now, test);
      var last := rows[|rows| - 1];
      if Sends(last, failure)
      then prev + [NewLog(firstId + |prev|, last.userId, last.groupId, REMINDER_KIND, ReminderMessage(last, test), now)]
      else prev
  }

  /** Extending the rows by one appends at most the log row of the new one. */
  lemma SentLogsStep(rows: seq<ReminderRow>, failure: Failure, firstId: int, now: Time, test: bool, i: int)
    requires 0 <= i < |rows|
    ensures var prev := SentLogs(rows[..i], failure, firstId, now, test);
            SentLogs(rows[..i + 1], failure, firstId, now, test)
            == prev + (if Sends(rows[i], failure)
                       then [NewLog(firstId + |prev|, rows[i].userId, rows[i].groupId, REMINDER_KIND,
                                    ReminderMessage(rows[i], test), now)]
                       else [])
  {
    assert rows[..i + 1][..i] == rows[..i];
  }

  /** The log row records a reminder of the row's user in the row's group. */
  predicate LogFor(l: LogRow, r: ReminderRow, test: bool) {
    l.userId == r.userId && l.groupId == r.groupId && l.message == ReminderMessage(r, test)
  }

  /** The log row is for some reminded row of `rows`. */
  predicate SentFor(l: LogRow, rows: seq<ReminderRow>, failure: Failure, test: bool) {
    exists j :: 0 <= j < |rows| && Sends(rows[j], failure) && LogFor(l, rows[j], test)
  }

  /** Each log row is for a reminded row. */
  predicate LogsSound(ls: seq<LogRow>, rows: seq<ReminderRow>, failure: Failure, test: bool) {
    forall k :: 0 <= k < |ls| ==> SentFor(ls[k], rows, failure, test)
  }

  /** Each reminded row has a log row. */
  predicate LogsComplete(ls: seq<LogRow>, rows: seq<ReminderRow>, failure: Failure, test: bool) {
    forall j :: 0 <= j < |rows| && Sends(rows[j], failure) ==> exists k :: 0 <= k < |ls| && LogFor(ls[k], rows[j], test)
  }

  /** Each appended log row is for a reminded row. */
  lemma {:induction false} SentLogsSound(rows: seq<ReminderRow>, failure: Failure, firstId: int, now: Time,
                                         test: bool)
    ensures LogsSound(SentLogs(rows, failure, firstId, now, test), rows, failure, test)
    decreases |rows|
  {
    var r := SentLogs(rows, failure, firstId, now, test);
    if rows != [] {
      var init, last := rows[..|rows| - 1], rows[|rows| - 1];
      var prev := SentLogs(init, failure, firstId, now, test);
      SentLogsSound(init, failure, firstId, now, test);
      assert LogsSound(prev, init, failure, test);
      forall k | 0 <= k < |r| ensures SentFor(r[k], rows, failure, test) {
        if k < |prev| {
          assert SentFor(prev[k], init, failure, test);
          var j :| 0 <= j < |init| && Sends(init[j], failure) && LogFor(prev[k], init[j], test);
          assert rows[j] == init[j] && r[k] == prev[k];
        } else {
          assert Sends(last, failure) && LogFor(r[k], rows[|rows| - 1], test);
        }
      }
    }
  }

  /** Each reminded row has an appended log row. */
  lemma {:induction false} SentLogsComplete(rows: seq<ReminderRow>, failure: Failure, firstId: int, now: Time,
                                            test: bool)
    ensures LogsComplete(SentLogs(rows, failure, firstId, now, test), rows, failure, test)
    decreases |rows|
  {
    var r := SentLogs(rows, failure, firstId, now, test);
    if rows != [] {
      var init, last := rows[..|rows| - 1], rows[|rows| - 1];
      var prev := SentLogs(init, failure, firstId, now, test);
      SentLogsComplete(init, failure, firstId, now, test);
      assert LogsComplete(prev, init, failure, test);
      forall j | 0 <= j < |rows| && Sends(rows[j], failure)
        ensures exists k :: 0 <= k < |r| && LogFor(r[k], rows[j], test)
      {
        if j < |init| {
          assert init[j] == rows[j];
          var k :| 0 <= k < |prev| && LogFor(prev[k], init[j], test);
          assert r[k] == prev[k];
        } else {
          assert LogFor(r[|prev|], last, test);
        }
      }
    }
  }
}
