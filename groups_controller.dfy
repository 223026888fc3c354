/** The group handlers: list, create, invite, members, change role, delete
    and leave. Each handler checks its guards in the order the controller
    does and answers with the first status that applies; the status each
    handler sends is given by a function of the state it reads, and the
    handler is proved to send it and to make exactly the change that
    status stands for. Path parameters arrive through `Number(...)` (a
    `Num`); the caller is the authenticated user's key. */
module GroupsController {
  import opened Base
  import opened Rows
  import opened Store
  import opened GroupModel
  import opened InvitationModel

  // ---- GET /groups

  /** `list`: the caller's groups with the caller's role, newest first. */
  method List(db: Database, caller: int) returns (status: Status, groups: seq<UserGroup>)
    ensures status == OK
    ensures forall x :: x in groups <==>
              exists i :: 0 <= i < |db.memberships| && db.memberships[i].userId == caller
                          && db.memberships[i].role == x.userRole
                          && GroupById(db.groups, db.memberships[i].groupId) == Some(x.group)
    ensures SortedBy(groups, NewerOrSame)
  {
    status := OK;
    groups := GroupsForUser(db.groups, db.memberships, caller);
    GroupsForUserSpec(db.groups, db.memberships, caller);
  }

  // ---- POST /groups

  /** A group just created has one membership row, its owner's, as admin;
      and every group that had members still has an admin. */
  lemma NewGroupOwner(ms: seq<MembershipRow>, owner: int, groupId: int)
    requires forall i :: 0 <= i < |ms| ==> ms[i].groupId != groupId
    ensures var ms' := ms + [MembershipRow(owner, groupId, Admin)];
            && CountMembers(ms', groupId) == 1
            && CountAdmins(ms', groupId) == 1
            && RoleOf(ms', owner, groupId) == Some(Admin)
            && (AdminPresent(ms) ==> AdminPresent(ms'))
  {
    var m := MembershipRow(owner, groupId, Admin);
    var ms' := ms + [m];
    MembersCountRows(ms, groupId);
    AdminsAtMostMembers(ms, groupId);
    RoleOfAppend(ms, m, owner, groupId);
    forall g ensures CountMembers(ms', g) == CountMembers(ms, g) + (if g == groupId then 1 else 0)
                     && CountAdmins(ms', g) == CountAdmins(ms, g) + (if g == groupId then 1 else 0)
    {
      CountsAppend(ms, m, g);
    }
  }

  /** `create`: 400 without a name; otherwise the group is inserted, and
      the owner's membership after it; a missing owner row makes the second
      INSERT raise (500) after the group row is already in place. */
  method Create(db: Database, caller: int, name: Option<string>, now: Time, attempts: seq<seq<real>>)
      returns (status: Status, group: Option<GroupRow>)
    requires db.Valid()
    requires Truthy(name) ==> AttemptsOk(attempts) && SomeFresh(db.groups, attempts)
    modifies db`groups, db`nextGroupId, db`memberships
    ensures db.Valid()
    ensures status == BAD_REQUEST <==> !Truthy(name)
    ensures status == CREATED <==> Truthy(name) && caller in UserIds(db.users)
    ensures status == INTERNAL_ERROR <==> Truthy(name) && caller !in UserIds(db.users)
    ensures !Truthy(name) ==> db.groups == old(db.groups) && db.nextGroupId == old(db.nextGroupId)
                              && db.memberships == old(db.memberships)
    ensures Truthy(name) ==>
              db.groups == old(db.groups) + [GroupRow(old(db.nextGroupId), name.value,
                                                       FreshGroupCode(old(db.groups), attempts), now)]
    ensures status == CREATED ==>
              && group == Some(db.groups[|db.groups| - 1])
              && !CodeTaken(old(db.groups), group.value.code)
              && CountMembers(db.memberships, group.value.id) == 1
              && RoleOf(db.memberships, caller, group.value.id) == Some(Admin)
    ensures AdminPresent(old(db.memberships)) ==> AdminPresent(db.memberships)
  {
    if !Truthy(name) {
      return BAD_REQUEST, None;
    }
    forall i | 0 <= i < |db.memberships| ensures db.memberships[i].groupId != db.nextGroupId {
      GroupIdsBelow(db.groups, db.nextGroupId, db.memberships[i].groupId);
    }
    NewGroupOwner(db.memberships, caller, db.nextGroupId);
    group := CreateGroup(db, name.value, caller, now, attempts);
    status := if group.Some? then CREATED else INTERNAL_ERROR;
  }

  // ---- POST /groups/:groupId/invitations

  /** `ttlHours && Number(ttlHours) > 0 ? Number(ttlHours) : 72`; `None`
      stands for an absent or non-numeric field. */
  function EffectiveTtl(ttl: Option<int>): (h: int)
    ensures h > 0
    ensures ttl.Some? && ttl.value > 0 ==> h == ttl.value
    ensures h != DEFAULT_TTL_HOURS ==> ttl == Some(h)
  {
    if ttl.Some? && ttl.value > 0 then ttl.value else DEFAULT_TTL_HOURS
  }

  /** The status of `createInvite`. The parameter goes to the role query
      unchecked, so NaN or a non-integer makes that query raise. */
  function CreateInviteStatus(ms: seq<MembershipRow>, caller: int, groupId: Num): (r: Status)
    ensures r == CREATED <==> BindsAsInteger(groupId) && RoleOf(ms, caller, groupId.value) == Some(Admin)
    ensures r == INTERNAL_ERROR <==> !BindsAsInteger(groupId)
  {
    if !BindsAsInteger(groupId) then INTERNAL_ERROR
    else if RoleOf(ms, caller, groupId.value) != Some(Admin) then FORBIDDEN
    else CREATED
  }

  /** `createInvite`: only an admin of the group invites; the invitation
      is pending and expires the effective lifetime after `now`. */
  method CreateInvite(db: Database, caller: int, groupId: Num, ttl: Option<int>, now: Time,
                      attempts: seq<seq<real>>)
      returns (status: Status, invitation: Option<InvitationRow>)
    requires db.Valid() && InviteAttemptsOk(attempts)
    requires CreateInviteStatus(db.memberships, caller, groupId) == CREATED ==>
               SomeFreshInvite(db.invitations, attempts)
    modifies db`invitations, db`nextInvitationId
    ensures db.Valid()
    ensures status == CreateInviteStatus(db.memberships, caller, groupId)
    ensures status == CREATED ==>
              && invitation == Some(NewInvitation(old(db.nextInvitationId), groupId.value,
                                                  FreshInviteCode(old(db.invitations), attempts),
                                                  caller, EffectiveTtl(ttl), now))
              && db.invitations == old(db.invitations) + [invitation.value]
              && InvitationByCode(db.invitations, invitation.value.code) == invitation
    ensures status != CREATED ==> db.invitations == old(db.invitations)
                                  && db.nextInvitationId == old(db.nextInvitationId)
  {
    if !BindsAsInteger(groupId) {
      return INTERNAL_ERROR, None;
    }
    var role := RoleOf(db.memberships, caller, groupId.value);
    if role != Some(Admin) {
      return FORBIDDEN, None;
    }
    var i :| 0 <= i < |db.memberships| && Matches(db.memberships[i], caller, groupId.value);
    assert caller in UserIds(db.users) && groupId.value in GroupIds(db.groups);
    CreatedFoundByCode(db.invitations, attempts, db.nextInvitationId, groupId.value, caller,
                       EffectiveTtl(ttl), now);
    invitation := CreateInvitation(db, groupId.value, caller, EffectiveTtl(ttl), now, attempts);
    status := CREATED;
  }

  // ---- GET /groups/:groupId/members

  /** The guard of the member-only reads (`members`, and the transaction,
      dues and report reads): a missing or zero group is 400, a key the
      role query cannot bind is 500, a non-member is 403. */
  function MemberReadStatus(ms: seq<MembershipRow>, caller: int, groupId: Num): (r: Status)
    ensures r == OK <==> NumTruthy(groupId) && BindsAsInteger(groupId)
                         && RoleOf(ms, caller, groupId.value).Some?
    ensures r == BAD_REQUEST <==> !NumTruthy(groupId)
  {
    if !NumTruthy(groupId) then BAD_REQUEST
    else if !BindsAsInteger(groupId) then INTERNAL_ERROR
    else if RoleOf(ms, caller, groupId.value).None? then FORBIDDEN
    else OK
  }

  /** `members`: the group's members, with names and roles, by user key. */
  method Members(db: Database, caller: int, groupId: Num) returns (status: Status, members: seq<MemberView>)
    ensures status == MemberReadStatus(db.memberships, caller, groupId)
    ensures status == OK ==>
              && (forall x :: x in members <==>
                    exists i :: 0 <= i < |db.memberships| && db.memberships[i].groupId == groupId.value
                                && db.memberships[i].userId == x.userId && db.memberships[i].role == x.role
                                && UserById(db.users, x.userId).Some?
                                && UserById(db.users, x.userId).value.name == x.userName)
              && SortedBy(members, ByUserId)
    ensures status != OK ==> members == []
  {
    if !NumTruthy(groupId) {
      return BAD_REQUEST, [];
    }
    if !BindsAsInteger(groupId) {
      return INTERNAL_ERROR, [];
    }
    var role := RoleOf(db.memberships, caller, groupId.value);
    if role.None? {
      return FORBIDDEN, [];
    }
    members := GroupMembers(db.users, db.memberships, groupId.value);
    GroupMembersSpec(db.users, db.memberships, groupId.value);
    status := OK;
  }

  // ---- PUT /groups/:groupId/members/:userId/role

  /** `String(req.body?.role || "")`. */
  function RoleText(role: Option<string>): string {
    if Truthy(role) then role.value else ""
  }

  /** The status of `changeRole`, guard by guard. */
  function ChangeRoleStatus(ms: seq<MembershipRow>, caller: int, groupId: Num, target: Num,
                            role: Option<string>): (r: Status)
    ensures r == OK ==>
              && BindsAsInteger(groupId) && BindsAsInteger(target) && groupId.value != 0 && target.value != 0
              && ParseRole(RoleText(role)).Some?
              && RoleOf(ms, caller, groupId.value) == Some(Admin)
              && RoleOf(ms, target.value, groupId.value).Some?
    ensures (r == OK && RoleOf(ms, target.value, groupId.value) == Some(Admin)
             && ParseRole(RoleText(role)) == Some(Member)) ==> CountAdmins(ms, groupId.value) >= 2
    ensures var wellFormed := NumTruthy(groupId) && NumTruthy(target) && ParseRole(RoleText(role)).Some?;
            var byAdmin := wellFormed && BindsAsInteger(groupId) && RoleOf(ms, caller, groupId.value) == Some(Admin);
            var found := byAdmin && BindsAsInteger(target) && RoleOf(ms, target.value, groupId.value).Some?;
            var lastAdminDemoted := groupId.Int? && target.Int? && RoleOf(ms, target.value, groupId.value) == Some(Admin)
                                    && ParseRole(RoleText(role)) == Some(Member)
                                    && CountAdmins(ms, groupId.value) <= 1;
            && (r == BAD_REQUEST <==> !wellFormed || (found && lastAdminDemoted))
            && (r == INTERNAL_ERROR <==> wellFormed && (!BindsAsInteger(groupId) || (byAdmin && !BindsAsInteger(target))))
            && (r == FORBIDDEN <==> wellFormed && BindsAsInteger(groupId) && RoleOf(ms, caller, groupId.value) != Some(Admin))
            && (r == NOT_FOUND <==> byAdmin && BindsAsInteger(target) && RoleOf(ms, target.value, groupId.value).None?)
            && (r == OK <==> found && !lastAdminDemoted)
  {
    if !NumTruthy(groupId) || !NumTruthy(target) then BAD_REQUEST
    else if ParseRole(RoleText(role)).None? then BAD_REQUEST
    else if !BindsAsInteger(groupId) then INTERNAL_ERROR
    else if RoleOf(ms, caller, groupId.value) != Some(Admin) then FORBIDDEN
    else if !BindsAsInteger(target) then INTERNAL_ERROR
    else if RoleOf(ms, target.value, groupId.value).None? then NOT_FOUND
    else if RoleOf(ms, target.value, groupId.value) == Some(Admin) && ParseRole(RoleText(role)) == Some(Member)
            && CountAdmins(ms, groupId.value) <= 1 then BAD_REQUEST
    else OK
  }

  /** A role change the guards let through leaves every group that has
      members with an admin. */
  lemma ChangeRoleKeepsAdmin(ms: seq<MembershipRow>, caller: int, groupId: Num, target: Num, role: Option<string>)
    requires UniqueMemberships(ms) && AdminPresent(ms)
    requires ChangeRoleStatus(ms, caller, groupId, target, role) == OK
    ensures AdminPresent(WithRole(ms, target.value, groupId.value, ParseRole(RoleText(role)).value))
  {
    var g, t, r := groupId.value, target.value, ParseRole(RoleText(role)).value;
    var ms' := WithRole(ms, t, g, r);
    WithRoleCounts(ms, t, g, r);
    var i :| 0 <= i < |ms| && Matches(ms[i], t, g);
    MembersCountRows(ms, g);
    assert CountAdmins(ms, g) > 0;
  }

  /** `changeRole`: an admin sets a member's role; the last admin of a group
      cannot be demoted. */
  method ChangeRole(db: Database, caller: int, groupId: Num, target: Num, role: Option<string>)
      returns (status: Status, member: Option<MembershipRow>)
    requires db.Valid()
    modifies db`memberships
    ensures db.Valid()
    ensures status == ChangeRoleStatus(old(db.memberships), caller, groupId, target, role)
    ensures status == OK ==>
              var newRole := ParseRole(RoleText(role)).value;
              && db.memberships == WithRole(old(db.memberships), target.value, groupId.value, newRole)
              && member == Some(MembershipRow(target.value, groupId.value, newRole))
              && RoleOf(db.memberships, target.value, groupId.value) == Some(newRole)
    ensures status != OK ==> db.memberships == old(db.memberships) && member.None?
    ensures AdminPresent(old(db.memberships)) ==> AdminPresent(db.memberships)
  {
    if !NumTruthy(groupId) || !NumTruthy(target) {
      return BAD_REQUEST, None;
    }
    var parsed := ParseRole(RoleText(role));
    if parsed.None? {
      return BAD_REQUEST, None;
    }
    if !BindsAsInteger(groupId) {
      return INTERNAL_ERROR, None;
    }
    var g := groupId.value;
    var requesterRole := RoleOf(db.memberships, caller, g);
    if requesterRole != Some(Admin) {
      return FORBIDDEN, None;
    }
    if !BindsAsInteger(target) {
      return INTERNAL_ERROR, None;
    }
    var t := target.value;
    var currentRole := RoleOf(db.memberships, t, g);
    if currentRole.None? {
      return NOT_FOUND, None;
    }
    if currentRole == Some(Admin) && parsed == Some(Member) {
      var adminCount := CountAdmins(db.memberships, g);
      if adminCount <= 1 {
        return BAD_REQUEST, None;
      }
    }
    if AdminPresent(db.memberships) {
      ChangeRoleKeepsAdmin(db.memberships, caller, groupId, target, role);
    }
    WithRoleEffect(db.memberships, t, g, parsed.value);
    member := SetUserGroupRole(db, t, g, parsed.value);
    status := OK;
  }

  // ---- DELETE /groups/:groupId

  /** The status of `remove`: exactly an admin of the group deletes it. */
  function RemoveStatus(ms: seq<MembershipRow>, caller: int, groupId: Num): (r: Status)
    ensures r == NO_CONTENT <==> NumTruthy(groupId) && BindsAsInteger(groupId)
                                 && RoleOf(ms, caller, groupId.value) == Some(Admin)
  {
    if !NumTruthy(groupId) then BAD_REQUEST
    else if !BindsAsInteger(groupId) then INTERNAL_ERROR
    else if RoleOf(ms, caller, groupId.value) != Some(Admin) then FORBIDDEN
    else NO_CONTENT
  }

  /** Deleting a group leaves it no members, and every other group its admins. */
  lemma DeleteGroupKeepsAdmin(ms: seq<MembershipRow>, groupId: int)
    ensures CountMembers(MembershipsOutside(ms, groupId), groupId) == 0
    ensures AdminPresent(ms) ==> AdminPresent(MembershipsOutside(ms, groupId))
  {
    CountsOutside(ms, groupId, groupId);
    forall g ensures CountMembers(MembershipsOutside(ms, groupId), g) == (if g == groupId then 0 else CountMembers(ms, g))
                     && CountAdmins(MembershipsOutside(ms, groupId), g) == (if g == groupId then 0 else CountAdmins(ms, g))
    {
      CountsOutside(ms, groupId, g);
    }
  }

  /** `remove`: an admin deletes the group and, by cascade, everything that belongs to it. */
  method Remove(db: Database, caller: int, groupId: Num) returns (status: Status)
    requires db.Valid()
    modifies db`groups, db`memberships, db`invitations, db`transactions, db`dues, db`logs
    ensures db.Valid()
    ensures status == RemoveStatus(old(db.memberships), caller, groupId)
    ensures status == NO_CONTENT ==>
              && db.groups == OtherGroups(old(db.groups), groupId.value)
              && db.memberships == MembershipsOutside(old(db.memberships), groupId.value)
              && db.invitations == InvitationsOutside(old(db.invitations), groupId.value)
              && db.transactions == TransactionsOutside(old(db.transactions), groupId.value)
              && db.dues == DuesOutside(old(db.dues), groupId.value)
              && db.logs == LogsOutside(old(db.logs), groupId.value)
              && CountMembers(db.memberships, groupId.value) == 0
    ensures status != NO_CONTENT ==>
              && db.groups == old(db.groups) && db.memberships == old(db.memberships)
              && db.invitations == old(db.invitations) && db.transactions == old(db.transactions)
              && db.dues == old(db.dues) && db.logs == old(db.logs)
    ensures AdminPresent(old(db.memberships)) ==> AdminPresent(db.memberships)
  {
    if !NumTruthy(groupId) {
      return BAD_REQUEST;
    }
    if !BindsAsInteger(groupId) {
      return INTERNAL_ERROR;
    }
    var role := RoleOf(db.memberships, caller, groupId.value);
    if role != Some(Admin) {
      return FORBIDDEN;
    }
    DeleteGroupKeepsAdmin(db.memberships, groupId.value);
    DeleteGroup(db, groupId.value);
    status := NO_CONTENT;
  }

  // ---- POST /groups/:groupId/leave

  /** The status of `leave`: a member leaves, except the last admin of a
      group that has other members. */
  function LeaveStatus(ms: seq<MembershipRow>, caller: int, groupId: Num): (r: Status)
    ensures r == NO_CONTENT ==> BindsAsInteger(groupId) && RoleOf(ms, caller, groupId.value).Some?
    ensures (r == NO_CONTENT && RoleOf(ms, caller, groupId.value) == Some(Admin)
             && CountAdmins(ms, groupId.value) <= 1) ==> CountMembers(ms, groupId.value) <= 1
    ensures r == NOT_FOUND <==> NumTruthy(groupId) && BindsAsInteger(groupId)
                                && RoleOf(ms, caller, groupId.value).None?
    ensures r == INTERNAL_ERROR <==> NumTruthy(groupId) && !BindsAsInteger(groupId)
    ensures var lastAdminWithOthers := groupId.Int? && RoleOf(ms, caller, groupId.value) == Some(Admin)
                                       && CountAdmins(ms, groupId.value) <= 1 && CountMembers(ms, groupId.value) > 1;
            && (r == BAD_REQUEST <==> !NumTruthy(groupId)
                                      || (BindsAsInteger(groupId) && lastAdminWithOthers))
            && (r == NO_CONTENT <==> NumTruthy(groupId) && BindsAsInteger(groupId)
                                     && RoleOf(ms, caller, groupId.value).Some? && !lastAdminWithOthers)
  {
    if !NumTruthy(groupId) then BAD_REQUEST
    else if !BindsAsInteger(groupId) then INTERNAL_ERROR
    else if RoleOf(ms, caller, groupId.value).None? then NOT_FOUND
    else if RoleOf(ms, caller, groupId.value) == Some(Admin)
            && CountAdmins(ms, groupId.value) <= 1 && CountMembers(ms, groupId.value) > 1 then BAD_REQUEST
    else NO_CONTENT
  }

  /** Leaving as the guards allow leaves every group that has members with an admin. */
  lemma LeaveKeepsAdmin(ms: seq<MembershipRow>, caller: int, groupId: Num)
    requires UniqueMemberships(ms) && AdminPresent(ms)
    requires LeaveStatus(ms, caller, groupId) == NO_CONTENT
    ensures AdminPresent(Without(ms, caller, groupId.value))
  {
    var g := groupId.value;
    var ms' := Without(ms, caller, g);
    forall h | CountMembers(ms', h) > 0 ensures CountAdmins(ms', h) > 0 {
      WithoutMembers(ms, caller, g, h);
      WithoutAdmins(ms, caller, g, h);
    }
  }

  /** `leave`: the caller's membership is deleted. */
  method Leave(db: Database, caller: int, groupId: Num) returns (status: Status)
    requires db.Valid()
    modifies db`memberships
    ensures db.Valid()
    ensures status == LeaveStatus(old(db.memberships), caller, groupId)
    ensures status == NO_CONTENT ==>
              && db.memberships == Without(old(db.memberships), caller, groupId.value)
              && RoleOf(db.memberships, caller, groupId.value).None?
    ensures status != NO_CONTENT ==> db.memberships == old(db.memberships)
    ensures AdminPresent(old(db.memberships)) ==> AdminPresent(db.memberships)
  {
    if !NumTruthy(groupId) {
      return BAD_REQUEST;
    }
    if !BindsAsInteger(groupId) {
      return INTERNAL_ERROR;
    }
    var g := groupId.value;
    var role := RoleOf(db.memberships, caller, g);
    if role.None? {
      return NOT_FOUND;
    }
    if role == Some(Admin) {
      var adminCount := CountAdmins(db.memberships, g);
      var memberCount := CountMembers(db.memberships, g);
      if adminCount <= 1 && memberCount > 1 {
        return BAD_REQUEST;
      }
    }
    if AdminPresent(db.memberships) {
      LeaveKeepsAdmin(db.memberships, caller, groupId);
    }
    WithoutEffect(db.memberships, caller, g);
    RemoveUserFromGroup(db, caller, g);
    status := NO_CONTENT;
  }
}
