/** The dues handlers: any member reads the group's paid list; only the
    group's admin records a payment, for any user id, member or not. */
module DuesController {
  import opened Base
  import opened Store
  import opened GroupModel
  import opened DuesModel
  import opened GroupsController

  datatype ListResult = ListResult(status: Status, items: seq<DuesView>)

  /** `list`: the group's paid list, for members only. */
  function List(us: seq<UserRow>, ms: seq<MembershipRow>, ds: seq<DuesRow>, caller: int, groupId: Num)
      : (r: ListResult)
    ensures r.status == MemberReadStatus(ms, caller, groupId)
    ensures r.status == OK ==> r.items == ListDuesByGroup(us, ms, ds, groupId.value)
    ensures r.status != OK ==> r.items == []
  {
    var status := MemberReadStatus(ms, caller, groupId);
    if status != OK then ListResult(status, []) else ListResult(OK, ListDuesByGroup(us, ms, ds, groupId.value))
  }

  /** The body of `update`; `isPaid` is `None` when absent or not a boolean. */
  datatype UpdateBody = UpdateBody(groupId: Num, userId: Num, isPaid: Option<bool>)

  /** The status of `update`: the body check (400), the caller's role query
      (500 when the key does not bind), admin only (403), then the upsert,
      which raises (500) when a key does not bind or has no row. Whether the
      target belongs to the group is never asked. */
  function UpdateStatus(users: set<int>, groups: set<int>, ms: seq<MembershipRow>, caller: int, b: UpdateBody)
      : (r: Status)
    ensures r == BAD_REQUEST <==> !NumTruthy(b.groupId) || !NumTruthy(b.userId) || b.isPaid.None?
    ensures r == FORBIDDEN <==> NumTruthy(b.groupId) && NumTruthy(b.userId) && b.isPaid.Some?
                                && BindsAsInteger(b.groupId) && RoleOf(ms, caller, b.groupId.value) != Some(Admin)
    ensures r == OK <==> NumTruthy(b.groupId) && NumTruthy(b.userId) && b.isPaid.Some?
                         && BindsAsInteger(b.groupId) && RoleOf(ms, caller, b.groupId.value) == Some(Admin)
                         && BindsAsInteger(b.userId) && b.groupId.value in groups && b.userId.value in users
  {
    if !NumTruthy(b.groupId) || !NumTruthy(b.userId) || b.isPaid.None? then BAD_REQUEST
    else if !BindsAsInteger(b.groupId) then INTERNAL_ERROR
    else if RoleOf(ms, caller, b.groupId.value) != Some(Admin) then FORBIDDEN
    else if !BindsAsInteger(b.userId) || b.groupId.value !in groups || b.userId.value !in users then INTERNAL_ERROR
    else OK
  }

  /** The admin's update succeeds for a target with a user row even when the
      target is not a member of the group, and the target then has a dues row
      there: membership of the target is not checked. */
  lemma UpdateIgnoresTargetMembership(users: set<int>, groups: set<int>, ms: seq<MembershipRow>, caller: int,
                                      b: UpdateBody)
    requires NumTruthy(b.groupId) && BindsAsInteger(b.groupId) && NumTruthy(b.userId) && BindsAsInteger(b.userId)
    requires b.isPaid.Some? && RoleOf(ms, caller, b.groupId.value) == Some(Admin)
    requires b.groupId.value in groups && b.userId.value in users
    requires RoleOf(ms, b.userId.value, b.groupId.value).None?
    ensures UpdateStatus(users, groups, ms, caller, b) == OK
  {
  }

  /** `update`: the admin records the target's paid state. */
  method Update(db: Database, caller: int, b: UpdateBody, now: Time) returns (status: Status, item: Option<DuesRow>)
    requires db.Valid()
    modifies db`dues
    ensures db.Valid()
    ensures status == UpdateStatus(UserIds(db.users), GroupIds(db.groups), db.memberships, caller, b)
    ensures status == OK ==>
              && item == Some(PaidRow(b.groupId.value, b.userId.value, b.isPaid.value, now))
              && db.dues == Upserted(old(db.dues), b.groupId.value, b.userId.value, b.isPaid.value, now)
    ensures status != OK ==> item.None? && db.dues == old(db.dues)
  {
    if !NumTruthy(b.groupId) || !NumTruthy(b.userId) || b.isPaid.None? {
      return BAD_REQUEST, None;
    }
    if !BindsAsInteger(b.groupId) {
      return INTERNAL_ERROR, None;
    }
    if RoleOf(db.memberships, caller, b.groupId.value) != Some(Admin) {
      return FORBIDDEN, None;
    }
    if !BindsAsInteger(b.userId) {
      return INTERNAL_ERROR, None;
    }
    item := SetDuesStatus(db, b.groupId.value, b.userId.value, b.isPaid.value, now);
    status := if item.Some? then OK else INTERNAL_ERROR;
  }
}
