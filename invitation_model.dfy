/** Invitations to a group: eight-character codes, creation with an expiry,
    lookup by code, marking as accepted, and the purge of stale invitations. */
module InvitationModel {
  import opened Base
  import opened Rows
  import opened Store
  import Codes

  const INVITE_CODE_LENGTH: nat := 8

  /** The lifetime `createInvitation` uses when its caller gives none. */
  const DEFAULT_TTL_HOURS: int := 72

  /** Eight characters drawn from the unambiguous alphabet. */
  method GenerateInviteCode(draws: seq<real>) returns (code: string)
    requires |draws| == INVITE_CODE_LENGTH && Codes.ValidDraws(draws)
    ensures |code| == 8
    ensures forall i :: 0 <= i < |code| ==> code[i] in Codes.ALPHABET && code[i] !in "IO01"
  {
    code := Codes.Generate(draws);
    Codes.CodeUnambiguous(draws);
  }

  /** Some invitation already uses `code`. */
  predicate InviteCodeTaken(invs: seq<InvitationRow>, code: string) {
    exists i :: 0 <= i < |invs| && invs[i].code == code
  }

  predicate InviteAttemptsOk(attempts: seq<seq<real>>) {
    forall k :: 0 <= k < |attempts| ==> |attempts[k]| == INVITE_CODE_LENGTH && Codes.ValidDraws(attempts[k])
  }

  /** Some attempt draws a code no invitation uses, so the retry loop ends. */
  predicate SomeFreshInvite(invs: seq<InvitationRow>, attempts: seq<seq<real>>)
    requires InviteAttemptsOk(attempts)
  {
    exists k :: 0 <= k < |attempts| && !InviteCodeTaken(invs, Codes.CodeOf(attempts[k]))
  }

  /** The existence query of the retry loop, as a test on codes. */
  function InviteTakenIn(invs: seq<InvitationRow>): string -> bool {
    c => InviteCodeTaken(invs, c)
  }

  /** The code the retry loop settles on: the first drawn code no invitation uses. */
  function FreshInviteCode(invs: seq<InvitationRow>, attempts: seq<seq<real>>): (code: string)
    requires InviteAttemptsOk(attempts) && SomeFreshInvite(invs, attempts)
    ensures !InviteCodeTaken(invs, code) && |code| == INVITE_CODE_LENGTH
  {
    var k :| 0 <= k < |attempts| && !InviteCodeTaken(invs, Codes.CodeOf(attempts[k]));
    assert !InviteTakenIn(invs)(Codes.CodeOf(attempts[k]));
    var code := Codes.FirstFresh(attempts, InviteTakenIn(invs));
    ghost var j :| 0 <= j < |attempts| && code == Codes.CodeOf(attempts[j]);
    code
  }

  /** The retry loop of `createInvitation`: draw codes until one is unused. */
  method DrawInviteCode(invs: seq<InvitationRow>, attempts: seq<seq<real>>) returns (code: string)
    requires InviteAttemptsOk(attempts) && SomeFreshInvite(invs, attempts)
    ensures code == FreshInviteCode(invs, attempts)
    ensures !InviteCodeTaken(invs, code)
  {
    code := Codes.DrawUntilFresh(attempts, InviteTakenIn(invs));
  }

  /** `getInvitationByCode`: the first invitation with the code, or `None`. */
  function InvitationByCode(invs: seq<InvitationRow>, code: string): (r: Option<InvitationRow>)
    ensures r.Some? <==> InviteCodeTaken(invs, code)
    ensures r.Some? ==> r.value in invs && r.value.code == code
  {
    if invs == [] then None
    else if invs[0].code == code then Some(invs[0])
    else
      var r := InvitationByCode(invs[1..], code);
      assert forall i :: 1 <= i < |invs| ==> invs[i] == invs[1..][i - 1];
      r
  }

  /** With unique codes, looking up a row's code finds that row. */
  lemma {:induction false} InvitationByCodeRow(invs: seq<InvitationRow>, i: int)
    requires UniqueInvitationCodes(invs) && 0 <= i < |invs|
    ensures InvitationByCode(invs, invs[i].code) == Some(invs[i])
  {
    if i > 0 {
      assert invs[1..][i - 1] == invs[i];
      assert UniqueInvitationCodes(invs[1..]) by {
        assert forall k :: 0 <= k < |invs[1..]| ==> invs[1..][k] == invs[k + 1];
      }
      InvitationByCodeRow(invs[1..], i - 1);
    }
  }

  /** Appending a row whose code is unused leaves every earlier lookup as it
      was and makes the new code find the new row. */
  lemma {:induction false} InvitationByCodeAppend(invs: seq<InvitationRow>, v: InvitationRow, code: string)
    requires !InviteCodeTaken(invs, v.code)
    ensures InvitationByCode(invs + [v], code)
            == if InviteCodeTaken(invs, code) then InvitationByCode(invs, code)
               else if code == v.code then Some(v) else None
  {
    if invs != [] {
      assert (invs + [v])[1..] == invs[1..] + [v];
      assert forall i :: 1 <= i < |invs| ==> invs[i] == invs[1..][i - 1];
      InvitationByCodeAppend(invs[1..], v, code);
    }
  }

  /** `NOW() + (ttlHours || ' hours')::interval`. */
  function ExpiryAfter(now: Time, ttlHours: int): Time {
    now + ttlHours * HOUR_MS
  }

  /** A positive lifetime puts the expiry after the creation instant, by whole hours. */
  lemma ExpiryInFuture(now: Time, ttlHours: int)
    requires ttlHours > 0
    ensures ExpiryAfter(now, ttlHours) >= now + HOUR_MS
    ensures (ExpiryAfter(now, ttlHours) - now) % HOUR_MS == 0
  {
    assert ttlHours * HOUR_MS >= HOUR_MS;
  }

  /** The row `createInvitation` inserts: pending, with the next key. */
  function NewInvitation(id: int, groupId: int, code: string, createdBy: int, ttlHours: int, now: Time): InvitationRow {
    InvitationRow(id, groupId, code, ExpiryAfter(now, ttlHours), createdBy, now, None, None)
  }

  /** `createInvitation`: draw codes until one is unused, then insert the
      invitation. The INSERT raises a foreign-key error (result `None`) when
      the group or the creator has no row; the SERIAL counter advances even
      then, because PostgreSQL draws the key before it checks the row. */
  method CreateInvitation(db: Database, groupId: int, createdBy: int, ttlHours: int, now: Time,
                          attempts: seq<seq<real>>)
      returns (r: Option<InvitationRow>)
    requires db.Valid()
    requires InviteAttemptsOk(attempts) && SomeFreshInvite(db.invitations, attempts)
    modifies db`invitations, db`nextInvitationId
    ensures db.Valid()
    ensures db.nextInvitationId == old(db.nextInvitationId) + 1
    ensures r.Some? <==> groupId in GroupIds(db.groups) && createdBy in UserIds(db.users)
    ensures r.Some? ==>
              && r.value == NewInvitation(old(db.nextInvitationId), groupId,
                                          FreshInviteCode(old(db.invitations), attempts), createdBy, ttlHours, now)
              && db.invitations == old(db.invitations) + [r.value]
    ensures r.None? ==> db.invitations == old(db.invitations)
  {
    var code := DrawInviteCode(db.invitations, attempts);
    var row := NewInvitation(db.nextInvitationId, groupId, code, createdBy, ttlHours, now);
    if groupId in GroupIds(db.groups) && createdBy in UserIds(db.users) {
      InvitationAppendOk(db.invitations, UserIds(db.users), GroupIds(db.groups), row);
      db.invitations, db.nextInvitationId := db.invitations + [row], db.nextInvitationId + 1;
      r := Some(row);
    } else {
      db.nextInvitationId := db.nextInvitationId + 1;
      r := None;
    }
  }

  /** A row with an unused code, an existing group and an existing creator
      keeps `invitations` consistent. */
  lemma InvitationAppendOk(invs: seq<InvitationRow>, users: set<int>, groups: set<int>, v: InvitationRow)
    requires UniqueInvitationCodes(invs) && InvitationsRefer(invs, users, groups)
    requires !InviteCodeTaken(invs, v.code) && v.createdBy in users && v.groupId in groups
    ensures UniqueInvitationCodes(invs + [v]) && InvitationsRefer(invs + [v], users, groups)
  {
  }

  /** A created invitation is found by its code, pending, until its expiry. */
  lemma CreatedFoundByCode(invs: seq<InvitationRow>, attempts: seq<seq<real>>, id: int, groupId: int,
                           createdBy: int, ttlHours: int, now: Time)
    requires InviteAttemptsOk(attempts) && SomeFreshInvite(invs, attempts)
    ensures var v := NewInvitation(id, groupId, FreshInviteCode(invs, attempts), createdBy, ttlHours, now);
            && InvitationByCode(invs + [v], v.code) == Some(v)
            && v.acceptedAt.None?
            && (ttlHours > 0 ==> v.expiresAt > now)
  {
    var v := NewInvitation(id, groupId, FreshInviteCode(invs, attempts), createdBy, ttlHours, now);
    InvitationByCodeAppend(invs, v, v.code);
    if ttlHours > 0 {
      ExpiryInFuture(now, ttlHours);
    }
  }

  /** `UPDATE invitations SET accepted_at = NOW(), accepted_by = $2 WHERE id = $1`. */
  function MarkedAccepted(invs: seq<InvitationRow>, id: int, userId: int, now: Time): (r: seq<InvitationRow>)
    ensures |r| == |invs|
    ensures forall i :: 0 <= i < |invs| ==>
              && r[i].id == invs[i].id && r[i].groupId == invs[i].groupId && r[i].code == invs[i].code
              && r[i].createdBy == invs[i].createdBy && r[i].expiresAt == invs[i].expiresAt
              && r[i].createdAt == invs[i].createdAt
              && (invs[i].id == id ==> r[i].acceptedAt == Some(now) && r[i].acceptedBy == Some(userId))
              && (invs[i].id != id ==> r[i] == invs[i])
  {
    seq(|invs|, i requires 0 <= i < |invs| =>
      if invs[i].id == id then invs[i].(acceptedAt := Some(now), acceptedBy := Some(userId)) else invs[i])
  }

  /** After marking the invitation a code finds, the same code finds it accepted. */
  lemma MarkedFoundAccepted(invs: seq<InvitationRow>, code: string, userId: int, now: Time)
    requires InvitationByCode(invs, code).Some?
    ensures var v := InvitationByCode(invs, code).value;
            var w := InvitationByCode(MarkedAccepted(invs, v.id, userId, now), code);
            w == Some(v.(acceptedAt := Some(now), acceptedBy := Some(userId)))
  {
    var v := InvitationByCode(invs, code).value;
    MarkedPrefix(invs, code, v.id, userId, now);
  }

  lemma {:induction false} MarkedPrefix(invs: seq<InvitationRow>, code: string, id: int, userId: int, now: Time)
    requires InvitationByCode(invs, code).Some? && InvitationByCode(invs, code).value.id == id
    ensures InvitationByCode(MarkedAccepted(invs, id, userId, now), code)
            == Some(InvitationByCode(invs, code).value.(acceptedAt := Some(now), acceptedBy := Some(userId)))
  {
    var m := MarkedAccepted(invs, id, userId, now);
    if invs[0].code != code {
      assert MarkedAccepted(invs[1..], id, userId, now) == m[1..];
      MarkedPrefix(invs[1..], code, id, userId, now);
    }
  }

  /** `markInvitationAccepted`. `accepted_by` references `users`, so when some
      row has the key and the user has no row the UPDATE raises (result
      false, nothing changed). */
  method MarkInvitationAccepted(db: Database, id: int, userId: int, now: Time) returns (ok: bool)
    requires db.Valid()
    modifies db`invitations
    ensures db.Valid()
    ensures ok <==> userId in UserIds(db.users) || forall i :: 0 <= i < |old(db.invitations)| ==> old(db.invitations)[i].id != id
    ensures db.invitations == if ok then MarkedAccepted(old(db.invitations), id, userId, now) else old(db.invitations)
  {
    ok := userId in UserIds(db.users) || forall i :: 0 <= i < |db.invitations| ==> db.invitations[i].id != id;
    if ok {
      db.invitations := MarkedAccepted(db.invitations, id, userId, now);
    }
  }

  /** A row the purge deletes: expired strictly before `now` and never accepted. */
  predicate Stale(v: InvitationRow, now: Time) {
    v.expiresAt < now && v.acceptedAt.None?
  }

  /** The invitations left by `deleteExpiredInvitations`. */
  function WithoutStale(invs: seq<InvitationRow>, now: Time): seq<InvitationRow> {
    Filter(invs, (v: InvitationRow) => !Stale(v, now))
  }

  /** The purge deletes exactly the stale rows, keeps the rest in order, and
      a second purge at the same instant deletes nothing more. */
  lemma WithoutStaleExact(invs: seq<InvitationRow>, now: Time)
    ensures forall v :: v in WithoutStale(invs, now) <==> v in invs && !Stale(v, now)
    ensures WithoutStale(WithoutStale(invs, now), now) == WithoutStale(invs, now)
  {
    var p := (v: InvitationRow) => !Stale(v, now);
    FilterMembers(invs, p);
    FilterAll(Filter(invs, p), p);
  }

  /** `deleteExpiredInvitations`. */
  method DeleteExpiredInvitations(db: Database, now: Time)
    requires db.Valid()
    modifies db`invitations
    ensures db.Valid()
    ensures db.invitations == WithoutStale(old(db.invitations), now)
  {
    var users, groups := UserIds(db.users), GroupIds(db.groups);
    FilterPairwise(db.invitations, (v: InvitationRow) => !Stale(v, now),
                   (a: InvitationRow, b: InvitationRow) => a.code != b.code);
    FilterKeeps(db.invitations, (v: InvitationRow) => !Stale(v, now),
                (v: InvitationRow) => v.createdBy in users && v.groupId in groups);
    db.invitations := WithoutStale(db.invitations, now);
  }
}
