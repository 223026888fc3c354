/** The relational state of the ledger: one row datatype per table, the
    table constraints as predicates over row sequences, and the `Database`
    object whose fields are the tables. */
module Store {
  import opened Base
  import opened Rows

  /** A role in a group (`user_groups.role`). */
  datatype Role = Admin | Member

  function RoleName(r: Role): string {
    match r
    case Admin => "admin"
    case Member => "member"
  }

  /** The role named by a request body, or `None` for any other text. */
  function ParseRole(s: string): (r: Option<Role>)
    ensures r.Some? <==> s == "admin" || s == "member"
    ensures r.Some? ==> RoleName(r.value) == s
  {
    if s == "admin" then Some(Admin) else if s == "member" then Some(Member) else None
  }

  datatype UserRow = UserRow(id: int, email: string, passwordHash: string, name: string,
                             role: string, createdAt: Time)

  datatype GroupRow = GroupRow(id: int, name: string, code: string, createdAt: Time)

  datatype MembershipRow = MembershipRow(userId: int, groupId: int, role: Role)

  datatype InvitationRow = InvitationRow(id: int, groupId: int, code: string, expiresAt: Time,
                                         createdBy: int, createdAt: Time,
                                         acceptedAt: Option<Time>, acceptedBy: Option<int>)

  /** `transactions.type`; the CHECK constraint admits exactly these two. */
  datatype TxType = Income | Expense

  datatype TransactionRow = TransactionRow(id: int, groupId: int, txType: TxType, amount: Cents,
                                           description: string, date: Time,
                                           receiptUrl: Option<string>, category: Option<string>,
                                           createdBy: int, createdAt: Time)

  datatype DuesRow = DuesRow(groupId: int, userId: int, isPaid: bool, paidAt: Option<Time>)

  datatype PreferenceRow = PreferenceRow(userId: int, receiveDuesReminders: bool)

  datatype LogRow = LogRow(id: int, userId: int, groupId: int, kind: string, message: string,
                           sentAt: Time)

  datatype SubscriptionRow = SubscriptionRow(id: int, userId: int, endpoint: string, p256dh: string,
                                             auth: string, createdAt: Time, updatedAt: Time)

  // ---- SERIAL keys: every key was handed out by the counter, so lies below its next value

  predicate UserKeysBelow(us: seq<UserRow>, next: int) {
    1 <= next && forall i :: 0 <= i < |us| ==> 1 <= us[i].id < next
  }

  predicate GroupKeysBelow(gs: seq<GroupRow>, next: int) {
    1 <= next && forall i :: 0 <= i < |gs| ==> 1 <= gs[i].id < next
  }

  /** The primary keys of `users`, as a set. */
  function UserIds(us: seq<UserRow>): set<int> {
    if us == [] then {} else {us[0].id} + UserIds(us[1..])
  }

  /** The primary keys of `groups`, as a set. */
  function GroupIds(gs: seq<GroupRow>): set<int> {
    if gs == [] then {} else {gs[0].id} + GroupIds(gs[1..])
  }

  lemma {:induction false} UserIdsMember(us: seq<UserRow>, x: int)
    ensures x in UserIds(us) <==> exists i :: 0 <= i < |us| && us[i].id == x
  {
    if us != [] {
      UserIdsMember(us[1..], x);
      assert forall i :: 1 <= i < |us| ==> us[i] == us[1..][i - 1];
      if x in UserIds(us[1..]) {
        var j :| 0 <= j < |us[1..]| && us[1..][j].id == x;
        assert us[j + 1].id == x;
      }
    }
  }

  lemma {:induction false} GroupIdsMember(gs: seq<GroupRow>, x: int)
    ensures x in GroupIds(gs) <==> exists i :: 0 <= i < |gs| && gs[i].id == x
  {
    if gs != [] {
      GroupIdsMember(gs[1..], x);
      assert forall i :: 1 <= i < |gs| ==> gs[i] == gs[1..][i - 1];
      if x in GroupIds(gs[1..]) {
        var j :| 0 <= j < |gs[1..]| && gs[1..][j].id == x;
        assert gs[j + 1].id == x;
      }
    }
  }

  lemma {:induction false} UserIdsAppend(us: seq<UserRow>, u: UserRow)
    ensures UserIds(us + [u]) == UserIds(us) + {u.id}
  {
    if us != [] {
      assert (us + [u])[1..] == us[1..] + [u];
      UserIdsAppend(us[1..], u);
    }
  }

  lemma {:induction false} GroupIdsAppend(gs: seq<GroupRow>, g: GroupRow)
    ensures GroupIds(gs + [g]) == GroupIds(gs) + {g.id}
  {
    if gs != [] {
      assert (gs + [g])[1..] == gs[1..] + [g];
      GroupIdsAppend(gs[1..], g);
    }
  }

  /** Every user key lies below the SERIAL counter. */
  lemma UserIdsBelow(us: seq<UserRow>, next: int, x: int)
    requires UserKeysBelow(us, next) && x in UserIds(us)
    ensures x < next
  {
    UserIdsMember(us, x);
  }

  /** Every group key lies below the SERIAL counter. */
  lemma GroupIdsBelow(gs: seq<GroupRow>, next: int, x: int)
    requires GroupKeysBelow(gs, next) && x in GroupIds(gs)
    ensures x < next
  {
    GroupIdsMember(gs, x);
  }

  // ---- UNIQUE constraints

  /** `users.email` is UNIQUE. */
  predicate UniqueEmails(us: seq<UserRow>) {
    forall i, j :: 0 <= i < j < |us| ==> us[i].email != us[j].email
  }

  /** `groups.code` is UNIQUE. */
  predicate UniqueGroupCodes(gs: seq<GroupRow>) {
    forall i, j :: 0 <= i < j < |gs| ==> gs[i].code != gs[j].code
  }

  /** `UNIQUE (user_id, group_id)` on `user_groups`. */
  predicate UniqueMemberships(ms: seq<MembershipRow>) {
    forall i, j :: 0 <= i < j < |ms| ==> ms[i].userId != ms[j].userId || ms[i].groupId != ms[j].groupId
  }

  /** `invitations.code` is UNIQUE. */
  predicate UniqueInvitationCodes(invs: seq<InvitationRow>) {
    forall i, j :: 0 <= i < j < |invs| ==> invs[i].code != invs[j].code
  }

  /** `UNIQUE (group_id, user_id)` on `dues`. */
  predicate UniqueDues(ds: seq<DuesRow>) {
    forall i, j :: 0 <= i < j < |ds| ==> ds[i].groupId != ds[j].groupId || ds[i].userId != ds[j].userId
  }

  /** `user_preferences.user_id` is the primary key. */
  predicate UniquePreferences(ps: seq<PreferenceRow>) {
    forall i, j :: 0 <= i < j < |ps| ==> ps[i].userId != ps[j].userId
  }

  /** `push_subscriptions.endpoint` is UNIQUE (which makes `(user_id, endpoint)` unique too). */
  predicate UniqueEndpoints(subs: seq<SubscriptionRow>) {
    forall i, j :: 0 <= i < j < |subs| ==> subs[i].endpoint != subs[j].endpoint
  }

  /** `transactions`: SERIAL keys below the counter, rising in insertion
      order (so no key repeats), and `CHECK (amount >= 0)`. */
  predicate TransactionsOk(txs: seq<TransactionRow>, next: int) {
    && 1 <= next
    && (forall i :: 0 <= i < |txs| ==> 1 <= txs[i].id < next && txs[i].amount >= 0)
    && (forall i, j :: 0 <= i < j < |txs| ==> txs[i].id < txs[j].id)
  }

  // ---- FOREIGN KEY constraints (users are never deleted, so `ON DELETE SET NULL` never fires)

  predicate MembershipsRefer(ms: seq<MembershipRow>, users: set<int>, groups: set<int>) {
    forall i :: 0 <= i < |ms| ==> ms[i].userId in users && ms[i].groupId in groups
  }

  predicate InvitationsRefer(invs: seq<InvitationRow>, users: set<int>, groups: set<int>) {
    forall i :: 0 <= i < |invs| ==> invs[i].createdBy in users && invs[i].groupId in groups
  }

  predicate TransactionsRefer(txs: seq<TransactionRow>, users: set<int>, groups: set<int>) {
    forall i :: 0 <= i < |txs| ==> txs[i].createdBy in users && txs[i].groupId in groups
  }

  predicate LogsRefer(ls: seq<LogRow>, users: set<int>, groups: set<int>) {
    forall i :: 0 <= i < |ls| ==> ls[i].userId in users && ls[i].groupId in groups
  }

  // ---- The constraints of each table

  predicate UsersOk(us: seq<UserRow>, next: int) {
    UserKeysBelow(us, next) && UniqueEmails(us)
  }

  predicate GroupsOk(gs: seq<GroupRow>, next: int) {
    GroupKeysBelow(gs, next) && UniqueGroupCodes(gs)
  }

  predicate MembershipsOk(ms: seq<MembershipRow>, users: set<int>, groups: set<int>) {
    UniqueMemberships(ms) && MembershipsRefer(ms, users, groups)
  }

  /** A new group with the counter's key and a code no group uses keeps `groups` consistent. */
  lemma GroupAppendOk(gs: seq<GroupRow>, next: int, g: GroupRow)
    requires GroupsOk(gs, next) && g.id == next
    requires forall i :: 0 <= i < |gs| ==> gs[i].code != g.code
    ensures GroupsOk(gs + [g], next + 1)
    ensures GroupIds(gs + [g]) == GroupIds(gs) + {g.id}
  {
    GroupIdsAppend(gs, g);
  }

  /** A new user with the counter's key and an unused email keeps `users` consistent. */
  lemma UserAppendOk(us: seq<UserRow>, next: int, u: UserRow)
    requires UsersOk(us, next) && u.id == next
    requires forall i :: 0 <= i < |us| ==> us[i].email != u.email
    ensures UsersOk(us + [u], next + 1)
    ensures UserIds(us + [u]) == UserIds(us) + {u.id}
  {
    UserIdsAppend(us, u);
  }

  /** A membership of existing rows whose pair has no row yet keeps `user_groups` consistent. */
  lemma MembershipAppendOk(ms: seq<MembershipRow>, users: set<int>, groups: set<int>, m: MembershipRow)
    requires MembershipsOk(ms, users, groups) && m.userId in users && m.groupId in groups
    requires forall i :: 0 <= i < |ms| ==> ms[i].userId != m.userId || ms[i].groupId != m.groupId
    ensures MembershipsOk(ms + [m], users, groups)
  {
  }

  /** The whole database: every table, and the SERIAL counters PostgreSQL keeps for them. */
  class Database {
    var users: seq<UserRow>
    var groups: seq<GroupRow>
    var memberships: seq<MembershipRow>
    var invitations: seq<InvitationRow>
    var transactions: seq<TransactionRow>
    var dues: seq<DuesRow>
    var preferences: seq<PreferenceRow>
    var logs: seq<LogRow>
    var subscriptions: seq<SubscriptionRow>
    var nextUserId: int
    var nextGroupId: int
    var nextInvitationId: int
    var nextTransactionId: int
    var nextLogId: int
    var nextSubscriptionId: int

    /** The key, UNIQUE and CHECK constraints of the schema, and the foreign
        keys of `user_groups`, `invitations`, `transactions` and
        `notification_logs`. */
    predicate Valid()
      reads this
    {
      TablesValid() && LogsRefer(logs, UserIds(users), GroupIds(groups))
    }

    /** The constraints on every table but the notification log, which
        only ever grows by rows whose user and group exist. */
    predicate TablesValid()
      reads this`users, this`groups, this`memberships, this`invitations, this`transactions, this`dues
      reads this`preferences, this`subscriptions, this`nextUserId, this`nextGroupId, this`nextTransactionId
    {
      && UsersOk(users, nextUserId)
      && GroupsOk(groups, nextGroupId)
      && MembershipsOk(memberships, UserIds(users), GroupIds(groups))
      && UniqueInvitationCodes(invitations)
      && InvitationsRefer(invitations, UserIds(users), GroupIds(groups))
      && TransactionsOk(transactions, nextTransactionId)
      && TransactionsRefer(transactions, UserIds(users), GroupIds(groups))
      && UniqueDues(dues)
      && UniquePreferences(preferences)
      && UniqueEndpoints(subscriptions)
    }

    /** A freshly migrated, empty database. */
    constructor ()
      ensures Valid()
      ensures users == [] && groups == [] && memberships == [] && invitations == []
      ensures transactions == [] && dues == [] && preferences == [] && logs == []
      ensures subscriptions == []
    {
      users, groups, memberships, invitations := [], [], [], [];
      transactions, dues, preferences, logs, subscriptions := [], [], [], [], [];
      nextUserId, nextGroupId, nextInvitationId := 1, 1, 1;
      nextTransactionId, nextLogId, nextSubscriptionId := 1, 1, 1;
    }
  }
}
