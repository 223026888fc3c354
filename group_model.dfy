/** Groups and memberships: join codes, creation, role lookups, head counts,
    role changes, leaving and the cascading delete. */
module GroupModel {
  import opened Base
  import opened Rows
  import opened Store
  import Codes

  const GROUP_CODE_LENGTH: nat := 6

  /** Six characters drawn from the unambiguous alphabet. */
  method GenerateGroupCode(draws: seq<real>) returns (code: string)
    requires |draws| == GROUP_CODE_LENGTH && Codes.ValidDraws(draws)
    ensures |code| == 6
    ensures forall i :: 0 <= i < |code| ==> code[i] in Codes.ALPHABET && code[i] !in "IO01"
  {
    code := Codes.Generate(draws);
    Codes.CodeUnambiguous(draws);
  }

  /** Some group already uses `code`. */
  predicate CodeTaken(gs: seq<GroupRow>, code: string) {
    exists i :: 0 <= i < |gs| && gs[i].code == code
  }

  predicate AttemptsOk(attempts: seq<seq<real>>) {
    forall k :: 0 <= k < |attempts| ==> |attempts[k]| == GROUP_CODE_LENGTH && Codes.ValidDraws(attempts[k])
  }

  /** Some attempt draws a code no group uses, so the retry loop ends. */
  predicate SomeFresh(gs: seq<GroupRow>, attempts: seq<seq<real>>)
    requires AttemptsOk(attempts)
  {
    exists k :: 0 <= k < |attempts| && !CodeTaken(gs, Codes.CodeOf(attempts[k]))
  }

  /** The existence query of the retry loop, as a test on codes. */
  function TakenIn(gs: seq<GroupRow>): string -> bool {
    c => CodeTaken(gs, c)
  }

  /** The code the retry loop settles on: the first drawn code no group uses. */
  function FreshGroupCode(gs: seq<GroupRow>, attempts: seq<seq<real>>): (code: string)
    requires AttemptsOk(attempts) && SomeFresh(gs, attempts)
    ensures !CodeTaken(gs, code) && |code| == GROUP_CODE_LENGTH
  {
    var k :| 0 <= k < |attempts| && !CodeTaken(gs, Codes.CodeOf(attempts[k]));
    assert !TakenIn(gs)(Codes.CodeOf(attempts[k]));
    var code := Codes.FirstFresh(attempts, TakenIn(gs));
    ghost var j :| 0 <= j < |attempts| && code == Codes.CodeOf(attempts[j]);
    code
  }

  // ---- Lookups

  predicate Matches(m: MembershipRow, userId: int, groupId: int) {
    m.userId == userId && m.groupId == groupId
  }

  /** `getUserGroupRole`: the role of the first row for the pair, or `None` (SQL NULL). */
  function RoleOf(ms: seq<MembershipRow>, userId: int, groupId: int): (r: Option<Role>)
    ensures r.None? <==> forall i :: 0 <= i < |ms| ==> !Matches(ms[i], userId, groupId)
    ensures r.Some? ==> exists i :: 0 <= i < |ms| && Matches(ms[i], userId, groupId) && ms[i].role == r.value
  {
    if ms == [] then None
    else if Matches(ms[0], userId, groupId) then Some(ms[0].role)
    else
      var r := RoleOf(ms[1..], userId, groupId);
      assert forall i :: 1 <= i < |ms| ==> ms[i] == ms[1..][i - 1];
      r
  }

  /** With one row per pair, the role found is the role of the pair's row. */
  lemma {:induction false} RoleOfRow(ms: seq<MembershipRow>, i: int)
    requires UniqueMemberships(ms) && 0 <= i < |ms|
    ensures RoleOf(ms, ms[i].userId, ms[i].groupId) == Some(ms[i].role)
  {
    if i > 0 {
      assert !Matches(ms[0], ms[i].userId, ms[i].groupId);
      assert ms[1..][i - 1] == ms[i];
      RoleOfRow(ms[1..], i - 1);
    }
  }

  function GroupById(gs: seq<GroupRow>, id: int): (r: Option<GroupRow>)
    ensures r.Some? <==> id in GroupIds(gs)
    ensures r.Some? ==> r.value in gs && r.value.id == id
  {
    if gs == [] then None
    else if gs[0].id == id then Some(gs[0])
    else GroupById(gs[1..], id)
  }

  function UserById(us: seq<UserRow>, id: int): (r: Option<UserRow>)
    ensures r.Some? <==> id in UserIds(us)
    ensures r.Some? ==> r.value in us && r.value.id == id
  {
    if us == [] then None
    else if us[0].id == id then Some(us[0])
    else UserById(us[1..], id)
  }

  // ---- Head counts

  /** `countAdminsInGroup`. */
  function CountAdmins(ms: seq<MembershipRow>, groupId: int): nat {
    if ms == [] then 0
    else (if ms[0].groupId == groupId && ms[0].role == Admin then 1 else 0) + CountAdmins(ms[1..], groupId)
  }

  /** `countMembersInGroup`: rows of the group, whatever their role. */
  function CountMembers(ms: seq<MembershipRow>, groupId: int): nat {
    if ms == [] then 0
    else (if ms[0].groupId == groupId then 1 else 0) + CountMembers(ms[1..], groupId)
  }

  /** A group never has more admins than members. */
  lemma {:induction false} AdminsAtMostMembers(ms: seq<MembershipRow>, groupId: int)
    ensures CountAdmins(ms, groupId) <= CountMembers(ms, groupId)
  {
    if ms != [] {
      AdminsAtMostMembers(ms[1..], groupId);
    }
  }

  /** A group has a member exactly when some membership row names it. */
  lemma {:induction false} MembersCountRows(ms: seq<MembershipRow>, groupId: int)
    ensures CountMembers(ms, groupId) > 0 <==> exists i :: 0 <= i < |ms| && ms[i].groupId == groupId
  {
    if ms != [] {
      MembersCountRows(ms[1..], groupId);
      assert forall i :: 1 <= i < |ms| ==> ms[i] == ms[1..][i - 1];
      if CountMembers(ms[1..], groupId) > 0 {
        var i :| 0 <= i < |ms[1..]| && ms[1..][i].groupId == groupId;
        assert ms[i + 1].groupId == groupId;
      }
    }
  }

  /** An admin row makes the admin count positive. */
  lemma {:induction false} AdminRowCounts(ms: seq<MembershipRow>, i: int)
    requires 0 <= i < |ms| && ms[i].role == Admin
    ensures CountAdmins(ms, ms[i].groupId) > 0
  {
    if i > 0 {
      assert ms[1..][i - 1] == ms[i];
      AdminRowCounts(ms[1..], i - 1);
    }
  }

  /** Appending a row adds it to its group's head counts and to no other. */
  lemma {:induction false} CountsAppend(ms: seq<MembershipRow>, m: MembershipRow, g: int)
    ensures CountMembers(ms + [m], g) == CountMembers(ms, g) + (if m.groupId == g then 1 else 0)
    ensures CountAdmins(ms + [m], g) == CountAdmins(ms, g) + (if m.groupId == g && m.role == Admin then 1 else 0)
  {
    if ms != [] {
      assert (ms + [m])[1..] == ms[1..] + [m];
      CountsAppend(ms[1..], m, g);
    }
  }

  /** An appended row answers the role lookup only for a pair that had no row. */
  lemma {:induction false} RoleOfAppend(ms: seq<MembershipRow>, m: MembershipRow, userId: int, groupId: int)
    ensures RoleOf(ms + [m], userId, groupId)
            == if RoleOf(ms, userId, groupId).Some? then RoleOf(ms, userId, groupId)
               else if Matches(m, userId, groupId) then Some(m.role) else None
  {
    if ms != [] {
      assert (ms + [m])[1..] == ms[1..] + [m];
      RoleOfAppend(ms[1..], m, userId, groupId);
    }
  }

  /** Deleting a group's rows empties its head counts and leaves the others alone. */
  lemma {:induction false} CountsOutside(ms: seq<MembershipRow>, groupId: int, g: int)
    ensures CountMembers(MembershipsOutside(ms, groupId), g)
            == if g == groupId then 0 else CountMembers(ms, g)
    ensures CountAdmins(MembershipsOutside(ms, groupId), g)
            == if g == groupId then 0 else CountAdmins(ms, g)
  {
    if ms != [] {
      CountsOutside(ms[1..], groupId, g);
      var rest := MembershipsOutside(ms[1..], groupId);
      if ms[0].groupId != groupId {
        assert ([ms[0]] + rest)[1..] == rest;
      }
    }
  }

  /** The group invariant the role rules are there to keep: every group that
      has members has an admin. */
  ghost predicate AdminPresent(ms: seq<MembershipRow>) {
    forall g :: CountMembers(ms, g) > 0 ==> CountAdmins(ms, g) > 0
  }

  // ---- Role change and removal on the membership table

  /** `UPDATE user_groups SET role = $3 WHERE user_id = $1 AND group_id = $2`. */
  function WithRole(ms: seq<MembershipRow>, userId: int, groupId: int, role: Role): (r: seq<MembershipRow>)
    ensures |r| == |ms|
  {
    if ms == [] then []
    else [if Matches(ms[0], userId, groupId) then ms[0].(role := role) else ms[0]]
         + WithRole(ms[1..], userId, groupId, role)
  }

  /** Setting a role changes the role of that pair only, and nothing when
      the pair has no row. */
  lemma {:induction false} WithRoleEffect(ms: seq<MembershipRow>, userId: int, groupId: int, role: Role)
    ensures RoleOf(WithRole(ms, userId, groupId, role), userId, groupId)
            == if RoleOf(ms, userId, groupId).Some? then Some(role) else None
    ensures forall u, g :: (u != userId || g != groupId) ==>
              RoleOf(WithRole(ms, userId, groupId, role), u, g) == RoleOf(ms, u, g)
    ensures RoleOf(ms, userId, groupId).None? ==> WithRole(ms, userId, groupId, role) == ms
  {
    if ms != [] {
      WithRoleEffect(ms[1..], userId, groupId, role);
      var r := WithRole(ms, userId, groupId, role);
      assert r[1..] == WithRole(ms[1..], userId, groupId, role);
    }
  }

  /** The keys of the rows are untouched by a role change. */
  lemma {:induction false} WithRoleKeys(ms: seq<MembershipRow>, userId: int, groupId: int, role: Role)
    ensures forall i :: 0 <= i < |ms| ==>
              WithRole(ms, userId, groupId, role)[i].userId == ms[i].userId
              && WithRole(ms, userId, groupId, role)[i].groupId == ms[i].groupId
  {
    if ms != [] {
      WithRoleKeys(ms[1..], userId, groupId, role);
      var r := WithRole(ms, userId, groupId, role);
      assert forall i :: 1 <= i < |ms| ==> r[i] == WithRole(ms[1..], userId, groupId, role)[i - 1];
    }
  }

  /** A role change leaves the number of rows of every group alone. */
  lemma {:induction false} WithRoleKeepsMembers(ms: seq<MembershipRow>, userId: int, groupId: int, role: Role, g: int)
    ensures CountMembers(WithRole(ms, userId, groupId, role), g) == CountMembers(ms, g)
  {
    if ms != [] {
      WithRoleKeepsMembers(ms[1..], userId, groupId, role, g);
      assert WithRole(ms, userId, groupId, role)[1..] == WithRole(ms[1..], userId, groupId, role);
    }
  }

  /** A role change leaves the admins of other groups alone. */
  lemma {:induction false} WithRoleKeepsOtherAdmins(ms: seq<MembershipRow>, userId: int, groupId: int, role: Role, g: int)
    requires g != groupId
    ensures CountAdmins(WithRole(ms, userId, groupId, role), g) == CountAdmins(ms, g)
  {
    if ms != [] {
      WithRoleKeepsOtherAdmins(ms[1..], userId, groupId, role, g);
      assert WithRole(ms, userId, groupId, role)[1..] == WithRole(ms[1..], userId, groupId, role);
    }
  }

  /** In the pair's group, a role change moves the admin count by the old
      and new role of its one row. */
  lemma {:induction false} WithRoleGroupAdmins(ms: seq<MembershipRow>, userId: int, groupId: int, role: Role)
    requires UniqueMemberships(ms)
    ensures CountAdmins(WithRole(ms, userId, groupId, role), groupId)
            == CountAdmins(ms, groupId)
               - (if RoleOf(ms, userId, groupId) == Some(Admin) then 1 else 0)
               + (if RoleOf(ms, userId, groupId).Some? && role == Admin then 1 else 0)
  {
    if ms != [] {
      var rest := ms[1..];
      assert WithRole(ms, userId, groupId, role)[1..] == WithRole(rest, userId, groupId, role);
      if Matches(ms[0], userId, groupId) {
        assert RoleOf(rest, userId, groupId).None? by {
          forall i | 0 <= i < |rest| ensures !Matches(rest[i], userId, groupId) {
            assert rest[i] == ms[i + 1];
          }
        }
        WithRoleEffect(rest, userId, groupId, role);
      } else {
        assert UniqueMemberships(rest) by {
          assert forall i :: 0 <= i < |rest| ==> rest[i] == ms[i + 1];
        }
        WithRoleGroupAdmins(rest, userId, groupId, role);
      }
    }
  }

  /** How a role change moves the head counts, with one row per pair. */
  lemma WithRoleCounts(ms: seq<MembershipRow>, userId: int, groupId: int, role: Role)
    requires UniqueMemberships(ms)
    ensures forall g :: CountMembers(WithRole(ms, userId, groupId, role), g) == CountMembers(ms, g)
    ensures forall g :: g != groupId ==>
              CountAdmins(WithRole(ms, userId, groupId, role), g) == CountAdmins(ms, g)
    ensures CountAdmins(WithRole(ms, userId, groupId, role), groupId)
            == CountAdmins(ms, groupId)
               - (if RoleOf(ms, userId, groupId) == Some(Admin) then 1 else 0)
               + (if RoleOf(ms, userId, groupId).Some? && role == Admin then 1 else 0)
  {
    forall g ensures CountMembers(WithRole(ms, userId, groupId, role), g) == CountMembers(ms, g) {
      WithRoleKeepsMembers(ms, userId, groupId, role, g);
    }
    forall g | g != groupId ensures CountAdmins(WithRole(ms, userId, groupId, role), g) == CountAdmins(ms, g) {
      WithRoleKeepsOtherAdmins(ms, userId, groupId, role, g);
    }
    WithRoleGroupAdmins(ms, userId, groupId, role);
  }

  /** `DELETE FROM user_groups WHERE user_id = $1 AND group_id = $2`. */
  function Without(ms: seq<MembershipRow>, userId: int, groupId: int): seq<MembershipRow> {
    Filter(ms, m => !Matches(m, userId, groupId))
  }

  /** Removal deletes exactly the pair's membership. */
  lemma WithoutEffect(ms: seq<MembershipRow>, userId: int, groupId: int)
    ensures RoleOf(Without(ms, userId, groupId), userId, groupId).None?
    ensures forall i :: 0 <= i < |ms| && !Matches(ms[i], userId, groupId) ==> ms[i] in Without(ms, userId, groupId)
    ensures forall m :: m in Without(ms, userId, groupId) ==> m in ms && !Matches(m, userId, groupId)
  {
    var r := Without(ms, userId, groupId);
    FilterMembers(ms, m => !Matches(m, userId, groupId));
    forall m | m in r ensures m in ms && !Matches(m, userId, groupId) {
      var i :| 0 <= i < |r| && r[i] == m;
    }
  }

  /** With one row per pair, a pair with a row has no other row after it. */
  lemma UniqueTail(ms: seq<MembershipRow>)
    requires UniqueMemberships(ms) && ms != []
    ensures UniqueMemberships(ms[1..])
    ensures forall i :: 0 <= i < |ms[1..]| ==> !Matches(ms[1..][i], ms[0].userId, ms[0].groupId)
  {
    assert forall i :: 0 <= i < |ms[1..]| ==> ms[1..][i] == ms[i + 1];
  }

  /** Removal lowers the pair's group head count by one when the pair had a
      row, and leaves every other group's count alone. */
  lemma {:induction false} WithoutMembers(ms: seq<MembershipRow>, userId: int, groupId: int, g: int)
    requires UniqueMemberships(ms)
    ensures CountMembers(Without(ms, userId, groupId), g)
            == CountMembers(ms, g) - (if g == groupId && RoleOf(ms, userId, groupId).Some? then 1 else 0)
  {
    if ms != [] {
      var p := (m: MembershipRow) => !Matches(m, userId, groupId);
      UniqueTail(ms);
      WithoutMembers(ms[1..], userId, groupId, g);
      if Matches(ms[0], userId, groupId) {
        FilterAll(ms[1..], p);
        assert Without(ms, userId, groupId) == ms[1..];
      } else {
        var rest := Without(ms[1..], userId, groupId);
        assert Without(ms, userId, groupId) == [ms[0]] + rest;
        assert ([ms[0]] + rest)[1..] == rest;
      }
    }
  }

  /** Removal lowers the admin count by one when the pair's row was an admin row. */
  lemma {:induction false} WithoutAdmins(ms: seq<MembershipRow>, userId: int, groupId: int, g: int)
    requires UniqueMemberships(ms)
    ensures CountAdmins(Without(ms, userId, groupId), g)
            == CountAdmins(ms, g) - (if g == groupId && RoleOf(ms, userId, groupId) == Some(Admin) then 1 else 0)
  {
    if ms != [] {
      var p := (m: MembershipRow) => !Matches(m, userId, groupId);
      UniqueTail(ms);
      WithoutAdmins(ms[1..], userId, groupId, g);
      if Matches(ms[0], userId, groupId) {
        FilterAll(ms[1..], p);
        assert Without(ms, userId, groupId) == ms[1..];
      } else {
        var rest := Without(ms[1..], userId, groupId);
        assert Without(ms, userId, groupId) == [ms[0]] + rest;
        assert ([ms[0]] + rest)[1..] == rest;
      }
    }
  }

  /** Removing rows keeps the memberships one per pair. */
  lemma WithoutUnique(ms: seq<MembershipRow>, userId: int, groupId: int)
    requires UniqueMemberships(ms)
    ensures UniqueMemberships(Without(ms, userId, groupId))
  {
    FilterPairwise(ms, m => !Matches(m, userId, groupId),
                   (a: MembershipRow, b: MembershipRow) => a.userId != b.userId || a.groupId != b.groupId);
  }

  // ---- Listings

  /** A row of `getGroupsForUser`: the group and the caller's role in it. */
  datatype UserGroup = UserGroup(group: GroupRow, userRole: Role)

  /** The inner join of the user's memberships with their groups, in table order. */
  function JoinUserGroups(gs: seq<GroupRow>, ms: seq<MembershipRow>, userId: int): seq<UserGroup> {
    if ms == [] then []
    else
      var rest := JoinUserGroups(gs, ms[1..], userId);
      var g := GroupById(gs, ms[0].groupId);
      if ms[0].userId == userId && g.Some? then [UserGroup(g.value, ms[0].role)] + rest else rest
  }

  function NewerOrSame(a: UserGroup, b: UserGroup): bool {
    a.group.createdAt >= b.group.createdAt
  }

  /** `getGroupsForUser`: `ORDER BY g.created_at DESC`. */
  function GroupsForUser(gs: seq<GroupRow>, ms: seq<MembershipRow>, userId: int): seq<UserGroup> {
    SortBy(JoinUserGroups(gs, ms, userId), NewerOrSame)
  }

  lemma {:induction false} JoinUserGroupsExact(gs: seq<GroupRow>, ms: seq<MembershipRow>, userId: int, x: UserGroup)
    ensures x in JoinUserGroups(gs, ms, userId)
            <==> exists i :: 0 <= i < |ms| && ms[i].userId == userId && ms[i].role == x.userRole
                             && GroupById(gs, ms[i].groupId) == Some(x.group)
  {
    if ms != [] {
      JoinUserGroupsExact(gs, ms[1..], userId, x);
      assert forall i :: 1 <= i < |ms| ==> ms[i] == ms[1..][i - 1];
      if x in JoinUserGroups(gs, ms[1..], userId) {
        var i :| 0 <= i < |ms[1..]| && ms[1..][i].userId == userId && ms[1..][i].role == x.userRole
                 && GroupById(gs, ms[1..][i].groupId) == Some(x.group);
        assert ms[i + 1] == ms[1..][i];
      }
    }
  }

  /** With one row per pair, the join lists each of the user's groups at
      most once. */
  lemma {:induction false} JoinUserGroupsOnce(gs: seq<GroupRow>, ms: seq<MembershipRow>, userId: int, x: UserGroup)
    requires UniqueMemberships(ms)
    ensures multiset(JoinUserGroups(gs, ms, userId))[x] <= 1
  {
    if ms != [] {
      var rest := ms[1..];
      assert UniqueMemberships(rest) by {
        assert forall i :: 0 <= i < |rest| ==> rest[i] == ms[i + 1];
      }
      JoinUserGroupsOnce(gs, rest, userId, x);
      var g := GroupById(gs, ms[0].groupId);
      if ms[0].userId == userId && g.Some? && x == UserGroup(g.value, ms[0].role) {
        assert x !in JoinUserGroups(gs, rest, userId) by {
          JoinUserGroupsExact(gs, rest, userId, x);
          forall i | 0 <= i < |rest| && rest[i].userId == userId ensures rest[i].groupId != x.group.id {
            assert rest[i] == ms[i + 1];
          }
        }
      }
    }
  }

  /** The caller's groups: exactly one entry per membership of the caller
      (with its role), newest group first. */
  lemma GroupsForUserSpec(gs: seq<GroupRow>, ms: seq<MembershipRow>, userId: int)
    ensures forall x :: x in GroupsForUser(gs, ms, userId) <==>
              exists i :: 0 <= i < |ms| && ms[i].userId == userId && ms[i].role == x.userRole
                          && GroupById(gs, ms[i].groupId) == Some(x.group)
    ensures SortedBy(GroupsForUser(gs, ms, userId), NewerOrSame)
    ensures multiset(GroupsForUser(gs, ms, userId)) == multiset(JoinUserGroups(gs, ms, userId))
    ensures UniqueMemberships(ms) ==> forall x :: multiset(GroupsForUser(gs, ms, userId))[x] <= 1
  {
    var j := JoinUserGroups(gs, ms, userId);
    if UniqueMemberships(ms) {
      forall x ensures multiset(GroupsForUser(gs, ms, userId))[x] <= 1 {
        JoinUserGroupsOnce(gs, ms, userId, x);
      }
    }
    forall x ensures x in GroupsForUser(gs, ms, userId) <==> x in j {
      assert x in GroupsForUser(gs, ms, userId) <==> x in multiset(GroupsForUser(gs, ms, userId));
      assert x in j <==> x in multiset(j);
    }
    forall x ensures x in j <==> exists i :: 0 <= i < |ms| && ms[i].userId == userId && ms[i].role == x.userRole
                                            && GroupById(gs, ms[i].groupId) == Some(x.group) {
      JoinUserGroupsExact(gs, ms, userId, x);
    }
    SortBySorted(j, NewerOrSame);
  }

  /** A row of `listGroupMembers`. */
  datatype MemberView = MemberView(userId: int, userName: string, role: Role)

  /** `COALESCE(u.name, u.email)`: `users.name` is NOT NULL, so the name is
      always present (possibly empty) and the e-mail is never used. */
  function DisplayName(u: UserRow): string {
    u.name
  }

  /** The inner join of the group's memberships with their users, in table order. */
  function JoinMembers(us: seq<UserRow>, ms: seq<MembershipRow>, groupId: int): seq<MemberView> {
    if ms == [] then []
    else
      var rest := JoinMembers(us, ms[1..], groupId);
      var u := UserById(us, ms[0].userId);
      if ms[0].groupId == groupId && u.Some? then [MemberView(u.value.id, DisplayName(u.value), ms[0].role)] + rest
      else rest
  }

  function ByUserId(a: MemberView, b: MemberView): bool {
    a.userId <= b.userId
  }

  /** `listGroupMembers`: `ORDER BY u.id ASC`. */
  function GroupMembers(us: seq<UserRow>, ms: seq<MembershipRow>, groupId: int): seq<MemberView> {
    SortBy(JoinMembers(us, ms, groupId), ByUserId)
  }

  lemma {:induction false} JoinMembersExact(us: seq<UserRow>, ms: seq<MembershipRow>, groupId: int, x: MemberView)
    ensures x in JoinMembers(us, ms, groupId)
            <==> exists i :: 0 <= i < |ms| && ms[i].groupId == groupId && ms[i].userId == x.userId
                             && ms[i].role == x.role && UserById(us, x.userId).Some?
                             && UserById(us, x.userId).value.name == x.userName
  {
    if ms != [] {
      JoinMembersExact(us, ms[1..], groupId, x);
      assert forall i :: 1 <= i < |ms| ==> ms[i] == ms[1..][i - 1];
      if x in JoinMembers(us, ms[1..], groupId) {
        var i :| 0 <= i < |ms[1..]| && ms[1..][i].groupId == groupId && ms[1..][i].userId == x.userId
                 && ms[1..][i].role == x.role && UserById(us, x.userId).Some?
                 && UserById(us, x.userId).value.name == x.userName;
        assert ms[i + 1] == ms[1..][i];
      }
    }
  }

  /** With one row per pair, the join lists each member of the group at
      most once. */
  lemma {:induction false} JoinMembersOnce(us: seq<UserRow>, ms: seq<MembershipRow>, groupId: int, x: MemberView)
    requires UniqueMemberships(ms)
    ensures multiset(JoinMembers(us, ms, groupId))[x] <= 1
  {
    if ms != [] {
      var rest := ms[1..];
      assert UniqueMemberships(rest) by {
        assert forall i :: 0 <= i < |rest| ==> rest[i] == ms[i + 1];
      }
      JoinMembersOnce(us, rest, groupId, x);
      var u := UserById(us, ms[0].userId);
      if ms[0].groupId == groupId && u.Some? && x == MemberView(u.value.id, DisplayName(u.value), ms[0].role) {
        assert x !in JoinMembers(us, rest, groupId) by {
          JoinMembersExact(us, rest, groupId, x);
          forall i | 0 <= i < |rest| && rest[i].groupId == groupId ensures rest[i].userId != x.userId {
            assert rest[i] == ms[i + 1];
          }
        }
      }
    }
  }

  /** The member list: one entry per membership of the group, with the
      member's name and role, in ascending user id. */
  lemma GroupMembersSpec(us: seq<UserRow>, ms: seq<MembershipRow>, groupId: int)
    ensures forall x :: x in GroupMembers(us, ms, groupId) <==>
              exists i :: 0 <= i < |ms| && ms[i].groupId == groupId && ms[i].userId == x.userId
                          && ms[i].role == x.role && UserById(us, x.userId).Some?
                          && UserById(us, x.userId).value.name == x.userName
    ensures SortedBy(GroupMembers(us, ms, groupId), ByUserId)
    ensures multiset(GroupMembers(us, ms, groupId)) == multiset(JoinMembers(us, ms, groupId))
    ensures UniqueMemberships(ms) ==> forall x :: multiset(GroupMembers(us, ms, groupId))[x] <= 1
  {
    var j := JoinMembers(us, ms, groupId);
    if UniqueMemberships(ms) {
      forall x ensures multiset(GroupMembers(us, ms, groupId))[x] <= 1 {
        JoinMembersOnce(us, ms, groupId, x);
      }
    }
    forall x ensures x in GroupMembers(us, ms, groupId) <==> x in j {
      assert x in GroupMembers(us, ms, groupId) <==> x in multiset(GroupMembers(us, ms, groupId));
      assert x in j <==> x in multiset(j);
    }
    forall x ensures x in j <==> exists i :: 0 <= i < |ms| && ms[i].groupId == groupId && ms[i].userId == x.userId
                                            && ms[i].role == x.role && UserById(us, x.userId).Some?
                                            && UserById(us, x.userId).value.name == x.userName {
      JoinMembersExact(us, ms, groupId, x);
    }
    SortBySorted(j, ByUserId);
  }

  // ---- Statements that change the database

  /** `createGroup`: draw codes until one is unused, insert the group, then
      insert the owner's admin membership. The second INSERT raises a
      foreign-key error (result `None`) when the owner has no user row; the
      group row stays, since the two statements run outside a transaction. */
  method CreateGroup(db: Database, name: string, ownerUserId: int, now: Time, attempts: seq<seq<real>>)
      returns (r: Option<GroupRow>)
    requires db.Valid()
    requires AttemptsOk(attempts) && SomeFresh(db.groups, attempts)
    modifies db`groups, db`nextGroupId, db`memberships
    ensures db.Valid()
    ensures db.groups == old(db.groups) + [GroupRow(old(db.nextGroupId), name, FreshGroupCode(old(db.groups), attempts), now)]
    ensures db.nextGroupId == old(db.nextGroupId) + 1
    ensures r.Some? <==> ownerUserId in UserIds(db.users)
    ensures r.Some? ==> r.value == db.groups[|db.groups| - 1]
                        && db.memberships == old(db.memberships) + [MembershipRow(ownerUserId, r.value.id, Admin)]
    ensures r.None? ==> db.memberships == old(db.memberships)
  {
    var code := DrawGroupCode(db.groups, attempts);
    var group := GroupRow(db.nextGroupId, name, code, now);
    var owner := MembershipRow(ownerUserId, group.id, Admin);
    CreateGroupKeepsValid(db, group, owner);
    db.groups, db.nextGroupId := db.groups + [group], db.nextGroupId + 1;
    if ownerUserId in UserIds(db.users) {
      db.memberships := db.memberships + [owner];
      r := Some(group);
    } else {
      r := None;
    }
  }

  /** The retry loop of `createGroup`: draw codes until one is unused. */
  method DrawGroupCode(gs: seq<GroupRow>, attempts: seq<seq<real>>) returns (code: string)
    requires AttemptsOk(attempts) && SomeFresh(gs, attempts)
    ensures code == FreshGroupCode(gs, attempts)
    ensures !CodeTaken(gs, code)
  {
    code := Codes.DrawUntilFresh(attempts, TakenIn(gs));
  }

  /** A group with the next key and an unused code, and then its owner's
      admin row when the owner exists, keep every constraint satisfied. */
  lemma CreateGroupKeepsValid(db: Database, group: GroupRow, owner: MembershipRow)
    requires db.Valid() && group.id == db.nextGroupId && !CodeTaken(db.groups, group.code)
    requires owner.groupId == group.id
    ensures GroupsOk(db.groups + [group], db.nextGroupId + 1)
    ensures MembershipsOk(db.memberships, UserIds(db.users), GroupIds(db.groups + [group]))
    ensures owner.userId in UserIds(db.users) ==>
              MembershipsOk(db.memberships + [owner], UserIds(db.users), GroupIds(db.groups + [group]))
    ensures LogsRefer(db.logs, UserIds(db.users), GroupIds(db.groups + [group]))
    ensures InvitationsRefer(db.invitations, UserIds(db.users), GroupIds(db.groups + [group]))
    ensures TransactionsRefer(db.transactions, UserIds(db.users), GroupIds(db.groups + [group]))
  {
    var groups' := GroupIds(db.groups + [group]);
    GroupAppendOk(db.groups, db.nextGroupId, group);
    forall i | 0 <= i < |db.memberships|
      ensures db.memberships[i].groupId != group.id
    {
      GroupIdsBelow(db.groups, db.nextGroupId, db.memberships[i].groupId);
    }
    if owner.userId in UserIds(db.users) {
      MembershipAppendOk(db.memberships, UserIds(db.users), groups', owner);
    }
  }

  /** `INSERT INTO user_groups (user_id, group_id, role)`. It raises (result
      false, nothing inserted) when the user or the group row is missing or
      the pair already has a row. */
  method InsertMembership(db: Database, userId: int, groupId: int, role: Role) returns (ok: bool)
    requires db.Valid()
    modifies db`memberships
    ensures db.Valid()
    ensures ok <==> userId in UserIds(db.users) && groupId in GroupIds(db.groups)
                    && RoleOf(old(db.memberships), userId, groupId).None?
    ensures db.memberships == if ok then old(db.memberships) + [MembershipRow(userId, groupId, role)]
                              else old(db.memberships)
  {
    ok := userId in UserIds(db.users) && groupId in GroupIds(db.groups)
          && RoleOf(db.memberships, userId, groupId).None?;
    if ok {
      MembershipAppendOk(db.memberships, UserIds(db.users), GroupIds(db.groups), MembershipRow(userId, groupId, role));
      db.memberships := db.memberships + [MembershipRow(userId, groupId, role)];
    }
  }

  /** `setUserGroupRole`: the updated row, or `None` when the pair has no row. */
  method SetUserGroupRole(db: Database, userId: int, groupId: int, role: Role)
      returns (updated: Option<MembershipRow>)
    requires db.Valid()
    modifies db`memberships
    ensures db.Valid()
    ensures db.memberships == WithRole(old(db.memberships), userId, groupId, role)
    ensures updated == if RoleOf(old(db.memberships), userId, groupId).Some?
                       then Some(MembershipRow(userId, groupId, role)) else None
  {
    updated := if RoleOf(db.memberships, userId, groupId).Some?
               then Some(MembershipRow(userId, groupId, role)) else None;
    WithRoleKeys(db.memberships, userId, groupId, role);
    db.memberships := WithRole(db.memberships, userId, groupId, role);
  }

  /** `removeUserFromGroup`. */
  method RemoveUserFromGroup(db: Database, userId: int, groupId: int)
    requires db.Valid()
    modifies db`memberships
    ensures db.Valid()
    ensures db.memberships == Without(old(db.memberships), userId, groupId)
  {
    WithoutUnique(db.memberships, userId, groupId);
    WithoutEffect(db.memberships, userId, groupId);
    db.memberships := Without(db.memberships, userId, groupId);
  }

  function OtherGroups(gs: seq<GroupRow>, groupId: int): seq<GroupRow> {
    Filter(gs, (g: GroupRow) => g.id != groupId)
  }

  function MembershipsOutside(ms: seq<MembershipRow>, groupId: int): seq<MembershipRow> {
    Filter(ms, (m: MembershipRow) => m.groupId != groupId)
  }

  function InvitationsOutside(invs: seq<InvitationRow>, groupId: int): seq<InvitationRow> {
    Filter(invs, (v: InvitationRow) => v.groupId != groupId)
  }

  function TransactionsOutside(txs: seq<TransactionRow>, groupId: int): seq<TransactionRow> {
    Filter(txs, (t: TransactionRow) => t.groupId != groupId)
  }

  function DuesOutside(ds: seq<DuesRow>, groupId: int): seq<DuesRow> {
    Filter(ds, (d: DuesRow) => d.groupId != groupId)
  }

  function LogsOutside(ls: seq<LogRow>, groupId: int): seq<LogRow> {
    Filter(ls, (l: LogRow) => l.groupId != groupId)
  }

  lemma OtherGroupIds(gs: seq<GroupRow>, groupId: int)
    ensures GroupIds(OtherGroups(gs, groupId)) == GroupIds(gs) - {groupId}
  {
    var r := OtherGroups(gs, groupId);
    FilterMembers(gs, (g: GroupRow) => g.id != groupId);
    forall x | x in GroupIds(r) ensures x in GroupIds(gs) - {groupId} {
      GroupIdsMember(r, x);
      GroupIdsMember(gs, x);
      var i :| 0 <= i < |r| && r[i].id == x;
      var j :| 0 <= j < |gs| && gs[j] == r[i];
    }
    forall x | x in GroupIds(gs) - {groupId} ensures x in GroupIds(r) {
      GroupIdsMember(r, x);
      GroupIdsMember(gs, x);
      var j :| 0 <= j < |gs| && gs[j].id == x;
      var i :| 0 <= i < |r| && r[i] == gs[j];
    }
  }

  /** The groups that remain after a delete keep their keys and codes. */
  lemma OtherGroupsValid(gs: seq<GroupRow>, next: int, groupId: int)
    requires GroupsOk(gs, next)
    ensures GroupsOk(OtherGroups(gs, groupId), next)
    ensures GroupIds(OtherGroups(gs, groupId)) == GroupIds(gs) - {groupId}
  {
    var p := (g: GroupRow) => g.id != groupId;
    OtherGroupIds(gs, groupId);
    FilterKeeps(gs, p, (g: GroupRow) => 1 <= g.id < next);
    FilterPairwise(gs, p, (a: GroupRow, b: GroupRow) => a.code != b.code);
  }

  /** Deleting every row that refers to a group keeps all constraints
      satisfied, with the group itself still present. */
  lemma CascadeKeepsValid(db: Database, groupId: int)
    requires db.Valid()
    ensures MembershipsOk(MembershipsOutside(db.memberships, groupId), UserIds(db.users), GroupIds(db.groups))
    ensures UniqueInvitationCodes(InvitationsOutside(db.invitations, groupId))
    ensures InvitationsRefer(InvitationsOutside(db.invitations, groupId), UserIds(db.users), GroupIds(db.groups))
    ensures TransactionsOk(TransactionsOutside(db.transactions, groupId), db.nextTransactionId)
    ensures TransactionsRefer(TransactionsOutside(db.transactions, groupId), UserIds(db.users), GroupIds(db.groups))
    ensures UniqueDues(DuesOutside(db.dues, groupId))
    ensures LogsRefer(LogsOutside(db.logs, groupId), UserIds(db.users), GroupIds(db.groups))
  {
    var users, groups := UserIds(db.users), GroupIds(db.groups);
    FilterPairwise(db.memberships, (m: MembershipRow) => m.groupId != groupId,
                   (a: MembershipRow, b: MembershipRow) => a.userId != b.userId || a.groupId != b.groupId);
    FilterKeeps(db.memberships, (m: MembershipRow) => m.groupId != groupId,
                (m: MembershipRow) => m.userId in users && m.groupId in groups);
    FilterPairwise(db.invitations, (v: InvitationRow) => v.groupId != groupId,
                   (a: InvitationRow, b: InvitationRow) => a.code != b.code);
    FilterKeeps(db.invitations, (v: InvitationRow) => v.groupId != groupId,
                (v: InvitationRow) => v.createdBy in users && v.groupId in groups);
    var next := db.nextTransactionId;
    FilterKeeps(db.transactions, (t: TransactionRow) => t.groupId != groupId,
                (t: TransactionRow) => 1 <= t.id < next && t.amount >= 0);
    FilterPairwise(db.transactions, (t: TransactionRow) => t.groupId != groupId,
                   (a: TransactionRow, b: TransactionRow) => a.id < b.id);
    FilterKeeps(db.transactions, (t: TransactionRow) => t.groupId != groupId,
                (t: TransactionRow) => t.createdBy in users && t.groupId in groups);
    FilterPairwise(db.dues, (d: DuesRow) => d.groupId != groupId,
                   (a: DuesRow, b: DuesRow) => a.groupId != b.groupId || a.userId != b.userId);
    FilterKeeps(db.logs, (l: LogRow) => l.groupId != groupId, (l: LogRow) => l.userId in users && l.groupId in groups);
  }

  /** Once no row refers to a group, dropping the group row keeps all
      constraints satisfied. */
  lemma DropGroupKeepsValid(db: Database, groupId: int)
    requires db.Valid()
    requires forall i :: 0 <= i < |db.memberships| ==> db.memberships[i].groupId != groupId
    requires forall i :: 0 <= i < |db.invitations| ==> db.invitations[i].groupId != groupId
    requires forall i :: 0 <= i < |db.transactions| ==> db.transactions[i].groupId != groupId
    requires forall i :: 0 <= i < |db.logs| ==> db.logs[i].groupId != groupId
    ensures GroupsOk(OtherGroups(db.groups, groupId), db.nextGroupId)
    ensures MembershipsOk(db.memberships, UserIds(db.users), GroupIds(OtherGroups(db.groups, groupId)))
    ensures InvitationsRefer(db.invitations, UserIds(db.users), GroupIds(OtherGroups(db.groups, groupId)))
    ensures TransactionsRefer(db.transactions, UserIds(db.users), GroupIds(OtherGroups(db.groups, groupId)))
    ensures LogsRefer(db.logs, UserIds(db.users), GroupIds(OtherGroups(db.groups, groupId)))
  {
    OtherGroupsValid(db.groups, db.nextGroupId, groupId);
  }

  /** The ON DELETE CASCADE part of `deleteGroup`: every row of the group's
      memberships, invitations, transactions, dues and logs goes. */
  method DeleteGroupRows(db: Database, groupId: int)
    requires db.Valid()
    modifies db`memberships, db`invitations, db`transactions, db`dues, db`logs
    ensures db.Valid()
    ensures db.memberships == MembershipsOutside(old(db.memberships), groupId)
    ensures db.invitations == InvitationsOutside(old(db.invitations), groupId)
    ensures db.transactions == TransactionsOutside(old(db.transactions), groupId)
    ensures db.dues == DuesOutside(old(db.dues), groupId)
    ensures db.logs == LogsOutside(old(db.logs), groupId)
  {
    CascadeKeepsValid(db, groupId);
    db.memberships, db.invitations, db.transactions, db.dues, db.logs :=
      MembershipsOutside(db.memberships, groupId), InvitationsOutside(db.invitations, groupId),
      TransactionsOutside(db.transactions, groupId), DuesOutside(db.dues, groupId), LogsOutside(db.logs, groupId);
  }

  /** `deleteGroup`: the group row goes, and ON DELETE CASCADE takes its
      memberships, invitations, transactions, dues and notification logs. */
  method DeleteGroup(db: Database, groupId: int)
    requires db.Valid()
    modifies db`groups, db`memberships, db`invitations, db`transactions, db`dues, db`logs
    ensures db.Valid()
    ensures db.groups == OtherGroups(old(db.groups), groupId)
    ensures db.memberships == MembershipsOutside(old(db.memberships), groupId)
    ensures db.invitations == InvitationsOutside(old(db.invitations), groupId)
    ensures db.transactions == TransactionsOutside(old(db.transactions), groupId)
    ensures db.dues == DuesOutside(old(db.dues), groupId)
    ensures db.logs == LogsOutside(old(db.logs), groupId)
  {
    DeleteGroupRows(db, groupId);
    DropGroupKeepsValid(db, groupId);
    db.groups := OtherGroups(db.groups, groupId);
  }
}
