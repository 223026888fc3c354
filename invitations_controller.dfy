/** Accepting an invitation: the checks in order (400, 404, 409, 410), the
    membership insert that does nothing when the pair already has a row,
    and marking the invitation as accepted. */
module InvitationsController {
  import opened Base
  import opened Store
  import opened GroupModel
  import opened InvitationModel
  import GroupsController

  /** The status of `accept`, check by check. The membership INSERT raises
      (500) when the caller or the group has no row. */
  function AcceptStatus(invs: seq<InvitationRow>, users: set<int>, groups: set<int>, caller: int,
                        code: Option<string>, now: Time): (r: Status)
    ensures r == BAD_REQUEST <==> !Truthy(code)
    ensures r == NOT_FOUND <==> Truthy(code) && InvitationByCode(invs, code.value).None?
    ensures r == CONFLICT <==> Truthy(code) && InvitationByCode(invs, code.value).Some?
                               && InvitationByCode(invs, code.value).value.acceptedAt.Some?
    ensures r == GONE <==> Truthy(code) && InvitationByCode(invs, code.value).Some?
                           && InvitationByCode(invs, code.value).value.acceptedAt.None?
                           && InvitationByCode(invs, code.value).value.expiresAt < now
    ensures r == INTERNAL_ERROR <==> Truthy(code) && InvitationByCode(invs, code.value).Some?
                                     && InvitationByCode(invs, code.value).value.acceptedAt.None?
                                     && now <= InvitationByCode(invs, code.value).value.expiresAt
                                     && (caller !in users || InvitationByCode(invs, code.value).value.groupId !in groups)
    ensures r == OK <==> Truthy(code) && InvitationByCode(invs, code.value).Some?
                         && InvitationByCode(invs, code.value).value.acceptedAt.None?
                         && now <= InvitationByCode(invs, code.value).value.expiresAt
                         && caller in users && InvitationByCode(invs, code.value).value.groupId in groups
  {
    if !Truthy(code) then BAD_REQUEST
    else
      match InvitationByCode(invs, code.value)
      case None => NOT_FOUND
      case Some(v) =>
        if v.acceptedAt.Some? then CONFLICT
        else if v.expiresAt < now then GONE
        else if caller !in users || v.groupId !in groups then INTERNAL_ERROR
        else OK
  }

  // ---- The membership the handler grants

  /** As written: `INSERT ... VALUES (caller, group, 'member') ON CONFLICT
      (user_id, group_id) DO NOTHING`. */
  function JoinAsMember(ms: seq<MembershipRow>, userId: int, groupId: int): (r: seq<MembershipRow>)
    ensures RoleOf(ms, userId, groupId).Some? ==> r == ms
    ensures RoleOf(ms, userId, groupId).None? ==> r == ms + [MembershipRow(userId, groupId, Member)]
  {
    if RoleOf(ms, userId, groupId).Some? then ms else ms + [MembershipRow(userId, groupId, Member)]
  }

  /** The insert as written can leave a group with a member and no admin:
      the sole admin, also the sole member, may leave; an invitation made
      before is then accepted by someone else, who joins as a member. */
  lemma JoinAsMemberLosesAdmin()
    ensures var before := [MembershipRow(1, 10, Admin)];
            && AdminPresent(before)
            && GroupsController.LeaveStatus(before, 1, Int(10)) == NO_CONTENT
            && Without(before, 1, 10) == []
            && JoinAsMember([], 2, 10) == [MembershipRow(2, 10, Member)]
            && !AdminPresent(JoinAsMember(Without(before, 1, 10), 2, 10))
  {
    var before := [MembershipRow(1, 10, Admin)];
    forall g ensures CountMembers(before, g) > 0 ==> CountAdmins(before, g) > 0 {
      assert before[1..] == [];
      assert CountMembers(before, g) == CountAdmins(before, g) == if g == 10 then 1 else 0;
    }
    assert GroupsController.LeaveStatus(before, 1, Int(10)) == NO_CONTENT by {
      assert CountAdmins(before, 10) == 1 && CountMembers(before, 10) == 1 by {
        assert before[1..] == [];
      }
    }
    assert Without(before, 1, 10) == [] by {
      assert before[1..] == [];
    }
    var after := [MembershipRow(2, 10, Member)];
    assert CountMembers(after, 10) == 1 && CountAdmins(after, 10) == 0 by {
      assert after[1..] == [];
    }
  }

  /** Corrected: a caller joining a group that has no admin becomes its
      admin; otherwise the caller joins as a member. */
  function JoinRole(ms: seq<MembershipRow>, groupId: int): Role {
    if CountAdmins(ms, groupId) == 0 then Admin else Member
  }

  /** Corrected insert: as written, except for the role `JoinRole` picks. */
  function Join(ms: seq<MembershipRow>, userId: int, groupId: int): (r: seq<MembershipRow>)
    ensures RoleOf(ms, userId, groupId).Some? ==> r == ms
    ensures RoleOf(ms, userId, groupId).None? ==> r == ms + [MembershipRow(userId, groupId, JoinRole(ms, groupId))]
  {
    if RoleOf(ms, userId, groupId).Some? then ms else ms + [MembershipRow(userId, groupId, JoinRole(ms, groupId))]
  }

  /** With the corrected insert, the caller is a member afterwards, an
      existing membership keeps its role, and every group that has members
      keeps an admin. */
  lemma JoinKeepsAdmin(ms: seq<MembershipRow>, userId: int, groupId: int)
    requires AdminPresent(ms)
    ensures RoleOf(Join(ms, userId, groupId), userId, groupId).Some?
    ensures AdminPresent(Join(ms, userId, groupId))
  {
    if RoleOf(ms, userId, groupId).None? {
      var m := MembershipRow(userId, groupId, JoinRole(ms, groupId));
      RoleOfAppend(ms, m, userId, groupId);
      forall g ensures CountMembers(ms + [m], g) == CountMembers(ms, g) + (if m.groupId == g then 1 else 0)
                       && CountAdmins(ms + [m], g)
                          == CountAdmins(ms, g) + (if m.groupId == g && m.role == Admin then 1 else 0)
      {
        CountsAppend(ms, m, g);
      }
    }
  }

  // ---- The handler

  /** The membership and invitation rows an accepted invitation leaves keep
      every constraint satisfied, with the insert as written. */
  lemma AcceptKeepsValid(db: Database, caller: int, v: InvitationRow, now: Time)
    requires db.Valid() && v in db.invitations && caller in UserIds(db.users)
    ensures MembershipsOk(JoinAsMember(db.memberships, caller, v.groupId), UserIds(db.users), GroupIds(db.groups))
    ensures UniqueInvitationCodes(MarkedAccepted(db.invitations, v.id, caller, now))
    ensures InvitationsRefer(MarkedAccepted(db.invitations, v.id, caller, now), UserIds(db.users), GroupIds(db.groups))
  {
    if RoleOf(db.memberships, caller, v.groupId).None? {
      MembershipAppendOk(db.memberships, UserIds(db.users), GroupIds(db.groups),
                         MembershipRow(caller, v.groupId, Member));
    }
  }

  /** The two statements of a successful `accept`: the membership insert
      as written and `markInvitationAccepted`. */
  method JoinAndMark(db: Database, caller: int, v: InvitationRow, now: Time)
    requires db.Valid() && v in db.invitations && caller in UserIds(db.users)
    modifies db`memberships, db`invitations
    ensures db.Valid()
    ensures db.memberships == JoinAsMember(old(db.memberships), caller, v.groupId)
    ensures db.invitations == MarkedAccepted(old(db.invitations), v.id, caller, now)
  {
    AcceptKeepsValid(db, caller, v, now);
    db.memberships, db.invitations :=
      JoinAsMember(db.memberships, caller, v.groupId), MarkedAccepted(db.invitations, v.id, caller, now);
  }

  /** `accept`: on success the caller belongs to the invitation's group, as
      a member unless the pair already had a row, and the invitation is
      marked accepted by the caller at `now`. */
  method Accept(db: Database, caller: int, code: Option<string>, now: Time)
      returns (status: Status, groupId: Option<int>)
    requires db.Valid()
    modifies db`memberships, db`invitations
    ensures db.Valid()
    ensures status == AcceptStatus(old(db.invitations), UserIds(db.users), GroupIds(db.groups), caller, code, now)
    ensures status == OK ==>
              var v := InvitationByCode(old(db.invitations), code.value).value;
              && groupId == Some(v.groupId)
              && db.memberships == JoinAsMember(old(db.memberships), caller, v.groupId)
              && db.invitations == MarkedAccepted(old(db.invitations), v.id, caller, now)
    ensures status != OK ==> groupId.None? && db.memberships == old(db.memberships)
                             && db.invitations == old(db.invitations)
  {
    if !Truthy(code) {
      return BAD_REQUEST, None;
    }
    var invite := InvitationByCode(db.invitations, code.value);
    if invite.None? {
      return NOT_FOUND, None;
    }
    var v := invite.value;
    if v.acceptedAt.Some? {
      return CONFLICT, None;
    }
    if v.expiresAt < now {
      return GONE, None;
    }
    if caller !in UserIds(db.users) || v.groupId !in GroupIds(db.groups) {
      return INTERNAL_ERROR, None;
    }
    JoinAndMark(db, caller, v, now);
    status, groupId := OK, Some(v.groupId);
  }

  // ---- The handler with the corrected insert

  /** The corrected insert keeps every constraint too. */
  lemma JoinKeepsValid(db: Database, caller: int, groupId: int)
    requires db.Valid() && caller in UserIds(db.users) && groupId in GroupIds(db.groups)
    ensures MembershipsOk(Join(db.memberships, caller, groupId), UserIds(db.users), GroupIds(db.groups))
  {
    if RoleOf(db.memberships, caller, groupId).None? {
      MembershipAppendOk(db.memberships, UserIds(db.users), GroupIds(db.groups),
                         MembershipRow(caller, groupId, JoinRole(db.memberships, groupId)));
    }
  }

  /** The two statements with the corrected insert, which keeps an admin
      in every group with members. */
  method JoinCorrectedAndMark(db: Database, caller: int, v: InvitationRow, now: Time)
    requires db.Valid() && v in db.invitations && caller in UserIds(db.users) && v.groupId in GroupIds(db.groups)
    modifies db`memberships, db`invitations
    ensures db.Valid()
    ensures db.memberships == Join(old(db.memberships), caller, v.groupId)
    ensures db.invitations == MarkedAccepted(old(db.invitations), v.id, caller, now)
    ensures AdminPresent(old(db.memberships)) ==> AdminPresent(db.memberships)
  {
    AcceptKeepsValid(db, caller, v, now);
    JoinKeepsValid(db, caller, v.groupId);
    if AdminPresent(db.memberships) {
      JoinKeepsAdmin(db.memberships, caller, v.groupId);
    }
    db.memberships, db.invitations :=
      Join(db.memberships, caller, v.groupId), MarkedAccepted(db.invitations, v.id, caller, now);
  }

  /** `accept` with the corrected insert: the same answers, and on success
      the memberships become `Join` of the old ones, so that every group
      with members keeps an admin. */
  method AcceptCorrected(db: Database, caller: int, code: Option<string>, now: Time)
      returns (status: Status, groupId: Option<int>)
    requires db.Valid()
    modifies db`memberships, db`invitations
    ensures db.Valid()
    ensures status == AcceptStatus(old(db.invitations), UserIds(db.users), GroupIds(db.groups), caller, code, now)
    ensures status == OK ==>
              var v := InvitationByCode(old(db.invitations), code.value).value;
              && groupId == Some(v.groupId)
              && db.memberships == Join(old(db.memberships), caller, v.groupId)
              && db.invitations == MarkedAccepted(old(db.invitations), v.id, caller, now)
    ensures status != OK ==> groupId.None? && db.memberships == old(db.memberships)
                             && db.invitations == old(db.invitations)
    ensures AdminPresent(old(db.memberships)) ==> AdminPresent(db.memberships)
  {
    status := AcceptStatus(db.invitations, UserIds(db.users), GroupIds(db.groups), caller, code, now);
    if status != OK {
      return status, None;
    }
    var v := InvitationByCode(db.invitations, code.value).value;
    JoinCorrectedAndMark(db, caller, v, now);
    groupId := Some(v.groupId);
  }

  /** An invitation accepts once: the same code answers 409 afterwards, at
      any instant and for any caller. */
  lemma AcceptOnce(invs: seq<InvitationRow>, users: set<int>, groups: set<int>, caller: int,
                   code: Option<string>, now: Time, other: int, later: Time)
    requires AcceptStatus(invs, users, groups, caller, code, now) == OK
    ensures var v := InvitationByCode(invs, code.value).value;
            AcceptStatus(MarkedAccepted(invs, v.id, caller, now), users, groups, other, code, later) == CONFLICT
  {
    MarkedFoundAccepted(invs, code.value, caller, now);
  }
}
