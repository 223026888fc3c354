/** The two scheduled jobs of the server: the hourly purge of stale
    invitations and the daily dues-reminder sweep over every group. */
module ServerJobs {
  import opened Base
  import opened Store
  import opened InvitationModel
  import opened LogModel
  import opened Reminders

  // ---- Hourly: purge stale invitations

  /** The hourly job: `deleteExpiredInvitations`, whose error is caught and
      only reported. `raises` stands for the DELETE failing, in which case the
      statement leaves the table as it was. */
  method HourlyPurge(db: Database, now: Time, raises: bool)
    requires db.Valid()
    modifies db`invitations
    ensures db.Valid()
    ensures raises ==> db.invitations == old(db.invitations)
    ensures !raises ==> db.invitations == WithoutStale(old(db.invitations), now)
  {
    if !raises {
      DeleteExpiredInvitations(db, now);
    }
  }

  // ---- Daily: remind every member with unpaid dues

  /** A row whose send or log insert raises; the catch wraps the whole loop,
      so such a row ends the run. */
  predicate Aborts(r: ReminderRow, failure: Failure) {
    Eligible(r) && failure(r).Some?
  }

  /** The index of the row that ends the run, or `|rows|` when none does. */
  function FirstFailure(rows: seq<ReminderRow>, failure: Failure): (k: nat)
    ensures k <= |rows|
    ensures forall j :: 0 <= j < k ==> !Aborts(rows[j], failure)
    ensures k < |rows| ==> Aborts(rows[k], failure)
  {
    if rows == [] then 0
    else if Aborts(rows[0], failure) then 0
    else
      var k := FirstFailure(rows[1..], failure);
      assert forall j :: 1 <= j < 1 + k ==> rows[j] == rows[1..][j - 1];
      1 + k
  }

  /** The number of rows of `rows` that are reminded. */
  function CountSends(rows: seq<ReminderRow>, failure: Failure): (n: nat)
    ensures n <= |rows|
    decreases |rows|
  {
    if rows == [] then 0
    else CountSends(rows[..|rows| - 1], failure) + (if Sends(rows[|rows| - 1], failure) then 1 else 0)
  }

  /** A run appends one log row, and takes one key, per row it reminds. */
  lemma {:induction false} SentLogsCount(rows: seq<ReminderRow>, failure: Failure, firstId: int, now: Time,
                                         test: bool)
    ensures |SentLogs(rows, failure, firstId, now, test)| == CountSends(rows, failure)
    decreases |rows|
  {
    if rows != [] {
      SentLogsCount(rows[..|rows| - 1], failure, firstId, now, test);
    }
  }

  /** Before the row that ends the run, a row is reminded exactly when it is
      eligible: opted in (or without a setting) and with something unpaid. */
  lemma SweepSendsEligible(rows: seq<ReminderRow>, failure: Failure, j: int)
    requires 0 <= j < FirstFailure(rows, failure)
    ensures Sends(rows[j], failure) <==> Eligible(rows[j])
  {
    assert !Aborts(rows[j], failure);
  }

  /** Each log row is for an eligible row. */
  predicate LogsForEligible(ls: seq<LogRow>, rows: seq<ReminderRow>) {
    forall k :: 0 <= k < |ls| ==> exists j :: 0 <= j < |rows| && Eligible(rows[j]) && LogFor(ls[k], rows[j], false)
  }

  /** Each eligible row has a log row. */
  predicate EligibleLogged(ls: seq<LogRow>, rows: seq<ReminderRow>) {
    forall j :: 0 <= j < |rows| && Eligible(rows[j]) ==> exists k :: 0 <= k < |ls| && LogFor(ls[k], rows[j], false)
  }

  /** Each log row a run appends is for an eligible row. */
  lemma EligibleLogsSound(done: seq<ReminderRow>, failure: Failure, firstId: int, now: Time)
    ensures LogsForEligible(SentLogs(done, failure, firstId, now, false), done)
  {
    var ls := SentLogs(done, failure, firstId, now, false);
    SentLogsSound(done, failure, firstId, now, false);
    assert LogsSound(ls, done, failure, false);
    forall k | 0 <= k < |ls|
      ensures exists j :: 0 <= j < |done| && Eligible(done[j]) && LogFor(ls[k], done[j], false)
    {
      assert SentFor(ls[k], done, failure, false);
      var j :| 0 <= j < |done| && Sends(done[j], failure) && LogFor(ls[k], done[j], false);
      assert Eligible(done[j]);
    }
  }

  /** Rows none of which ends the run: each eligible row has a log row. */
  lemma EligibleLogsComplete(done: seq<ReminderRow>, failure: Failure, firstId: int, now: Time)
    requires forall j :: 0 <= j < |done| ==> !Aborts(done[j], failure)
    ensures EligibleLogged(SentLogs(done, failure, firstId, now, false), done)
  {
    var ls := SentLogs(done, failure, firstId, now, false);
    SentLogsComplete(done, failure, firstId, now, false);
    assert LogsComplete(ls, done, failure, false);
    forall j | 0 <= j < |done| && Eligible(done[j])
      ensures exists k :: 0 <= k < |ls| && LogFor(ls[k], done[j], false)
    {
      assert !Aborts(done[j], failure) && Sends(done[j], failure);
      var k :| 0 <= k < |ls| && LogFor(ls[k], done[j], false);
    }
  }

  /** The logs of a sweep: one `dues_reminder` row for each eligible row
      before the one that ends the run, and only for those. */
  lemma SweepLogsExact(rows: seq<ReminderRow>, failure: Failure, firstId: int, now: Time)
    ensures LogsForEligible(SentLogs(rows[..FirstFailure(rows, failure)], failure, firstId, now, false),
                            rows[..FirstFailure(rows, failure)])
    ensures EligibleLogged(SentLogs(rows[..FirstFailure(rows, failure)], failure, firstId, now, false),
                           rows[..FirstFailure(rows, failure)])
  {
    var done := rows[..FirstFailure(rows, failure)];
    assert forall j :: 0 <= j < |done| ==> done[j] == rows[j];
    EligibleLogsSound(done, failure, firstId, now);
    EligibleLogsComplete(done, failure, firstId, now);
  }

  /** When no send fails, the run reaches every row. */
  lemma {:induction false} SweepWithoutFailureIsComplete(rows: seq<ReminderRow>, failure: Failure)
    requires forall j :: 0 <= j < |rows| ==> failure(rows[j]).None?
    ensures FirstFailure(rows, failure) == |rows|
  {
    if rows != [] {
      assert failure(rows[0]).None?;
      assert forall j :: 0 <= j < |rows[1..]| ==> rows[1..][j] == rows[j + 1];
      SweepWithoutFailureIsComplete(rows[1..], failure);
    }
  }

  /** One row of the sweep before the one that ends it: when the row is
      eligible, send and append its log row; what the earlier rows did
      extends to the first `i + 1` rows. */
  method SweepRow(db: Database, rows: seq<ReminderRow>, i: nat, failure: Failure, now: Time,
                  ghost logs0: seq<LogRow>, ghost firstId: int)
    requires i < FirstFailure(rows, failure) && RowsExist(rows, UserIds(db.users), GroupIds(db.groups))
    requires LogsRefer(db.logs, UserIds(db.users), GroupIds(db.groups))
    requires db.logs == logs0 + SentLogs(rows[..i], failure, firstId, now, false)
    requires db.nextLogId == firstId + |SentLogs(rows[..i], failure, firstId, now, false)|
    modifies db`logs, db`nextLogId
    ensures LogsRefer(db.logs, UserIds(db.users), GroupIds(db.groups))
    ensures db.logs == logs0 + SentLogs(rows[..i + 1], failure, firstId, now, false)
    ensures db.nextLogId == firstId + |SentLogs(rows[..i + 1], failure, firstId, now, false)|
  {
    var r := rows[i];
    SentLogsStep(rows, failure, firstId, now, false, i);
    SweepSendsEligible(rows, failure, i);
    if Allows(r) && r.unpaidCount > 0 {
      var ok := InsertNotificationLog(db, r.userId, r.groupId, REMINDER_KIND, ReminderMessage(r, false), now);
    }
  }

  /** The loop of the daily job over the query rows, left at the first row
      whose send or log raises. */
  method SweepRows(db: Database, rows: seq<ReminderRow>, failure: Failure, now: Time)
    requires db.Valid() && RowsExist(rows, UserIds(db.users), GroupIds(db.groups))
    modifies db`logs, db`nextLogId
    ensures db.Valid()
    ensures var sent := SentLogs(rows[..FirstFailure(rows, failure)], failure, old(db.nextLogId), now, false);
            db.logs == old(db.logs) + sent && db.nextLogId == old(db.nextLogId) + |sent|
  {
    ghost var logs0, firstId := db.logs, db.nextLogId;
    var i := 0;
    while i < |rows|
      invariant 0 <= i <= FirstFailure(rows, failure)
      invariant LogsRefer(db.logs, UserIds(db.users), GroupIds(db.groups))
      invariant db.logs == logs0 + SentLogs(rows[..i], failure, firstId, now, false)
      invariant db.nextLogId == firstId + |SentLogs(rows[..i], failure, firstId, now, false)|
    {
      if Allows(rows[i]) && rows[i].unpaidCount > 0 && failure(rows[i]).Some? {
        break;
      }
      SweepRow(db, rows, i, failure, now, logs0, firstId);
      i := i + 1;
    }
    assert i == FirstFailure(rows, failure);
  }

  /** The daily job: the reminder query over every group, then the loop. */
  method DailySweep(db: Database, now: Time, failure: Failure)
    requires db.Valid()
    modifies db`logs, db`nextLogId
    ensures db.Valid()
    ensures var rows := ReminderRows(db.users, db.groups, db.memberships, db.dues, db.preferences, None);
            var sent := SentLogs(rows[..FirstFailure(rows, failure)], failure, old(db.nextLogId), now, false);
            db.logs == old(db.logs) + sent && db.nextLogId == old(db.nextLogId) + |sent|
  {
    var rows := ReminderRows(db.users, db.groups, db.memberships, db.dues, db.preferences, None);
    SweepRows(db, rows, failure, now);
  }
}
