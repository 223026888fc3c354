/** The notification log: an append-only table. Rows are only ever added
    here; they leave only by the cascade when their group is deleted. */
module LogModel {
  import opened Base
  import opened Store

  /** The row an insert adds: the next SERIAL key, `sent_at` defaulting to
      the statement's `NOW()`. */
  function NewLog(id: int, userId: int, groupId: int, kind: string, message: string, now: Time): (r: LogRow)
    ensures r.id == id && r.userId == userId && r.groupId == groupId && r.kind == kind && r.message == message
    ensures r.sentAt == now
  {
    LogRow(id, userId, groupId, kind, message, now)
  }

  /** A row whose user and group exist keeps every log row referring to existing rows. */
  lemma LogAppendRefers(ls: seq<LogRow>, users: set<int>, groups: set<int>, l: LogRow)
    requires LogsRefer(ls, users, groups) && l.userId in users && l.groupId in groups
    ensures LogsRefer(ls + [l], users, groups)
  {
    assert forall i :: 0 <= i < |ls| ==> (ls + [l])[i] == ls[i];
  }

  /** `insertNotificationLog`: appends exactly one row with the given user,
      group, type and message, sent now. The INSERT raises a foreign-key
      error (`false`, no row) when the user or the group has no row; the key
      counter advances either way. Only the log and its counter change, so
      `db.TablesValid()` is kept by the frame. */
  method InsertNotificationLog(db: Database, userId: int, groupId: int, kind: string, message: string, now: Time)
      returns (ok: bool)
    requires LogsRefer(db.logs, UserIds(db.users), GroupIds(db.groups))
    modifies db`logs, db`nextLogId
    ensures LogsRefer(db.logs, UserIds(db.users), GroupIds(db.groups))
    ensures db.nextLogId == old(db.nextLogId) + 1
    ensures ok <==> userId in UserIds(db.users) && groupId in GroupIds(db.groups)
    ensures ok ==> db.logs == old(db.logs) + [NewLog(old(db.nextLogId), userId, groupId, kind, message, now)]
    ensures !ok ==> db.logs == old(db.logs)
  {
    ok := userId in UserIds(db.users) && groupId in GroupIds(db.groups);
    if ok {
      LogAppendRefers(db.logs, UserIds(db.users), GroupIds(db.groups),
                      NewLog(db.nextLogId, userId, groupId, kind, message, now));
      db.logs, db.nextLogId := db.logs + [NewLog(db.nextLogId, userId, groupId, kind, message, now)], db.nextLogId + 1;
    } else {
      db.nextLogId := db.nextLogId + 1;
    }
  }
}
