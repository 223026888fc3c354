/** The accounts table: creation of a user with a unique email, and lookup
    by email. */
module UserModel {
  import opened Base
  import opened Store

  /** The role a new account gets when the caller names none (the column's
      default too). */
  const DEFAULT_USER_ROLE: string := "member"

  /** The columns `createUser` returns: everything but the password hash. */
  datatype PublicUser = PublicUser(id: int, email: string, name: string, role: string, createdAt: Time)

  function PublicOf(u: UserRow): (p: PublicUser)
    ensures p.id == u.id && p.email == u.email && p.name == u.name && p.role == u.role && p.createdAt == u.createdAt
  {
    PublicUser(u.id, u.email, u.name, u.role, u.createdAt)
  }

  /** `getUserByEmail`: the first row with exactly that email, or `None`. */
  function UserByEmail(us: seq<UserRow>, email: string): (r: Option<UserRow>)
    ensures r.None? <==> forall i :: 0 <= i < |us| ==> us[i].email != email
    ensures r.Some? ==> r.value in us && r.value.email == email
  {
    if us == [] then None
    else if us[0].email == email then Some(us[0])
    else
      var r := UserByEmail(us[1..], email);
      assert forall i :: 1 <= i < |us| ==> us[i] == us[1..][i - 1];
      r
  }

  /** Under the UNIQUE constraint on `email`, the lookup finds exactly the
      row with that email. */
  lemma UserByEmailExact(us: seq<UserRow>, email: string, u: UserRow)
    requires UniqueEmails(us)
    ensures UserByEmail(us, email) == Some(u) <==> u in us && u.email == email
  {
    if u in us && u.email == email {
      var found := UserByEmail(us, email).value;
      var i :| 0 <= i < |us| && us[i] == u;
      var j :| 0 <= j < |us| && us[j] == found;
      assert i == j;
    }
  }

  /** The row `createUser` inserts: the next SERIAL key, the role defaulting
      to `member`, `created_at` the statement's `NOW()`. */
  function NewUser(id: int, email: string, passwordHash: string, name: string, role: Option<string>, now: Time)
      : (u: UserRow)
    ensures u.id == id && u.email == email && u.passwordHash == passwordHash && u.name == name
    ensures u.role == role.GetOr(DEFAULT_USER_ROLE) && u.createdAt == now
  {
    UserRow(id, email, passwordHash, name, role.GetOr(DEFAULT_USER_ROLE), now)
  }

  /** A user with the next key and an unused email keeps every constraint:
      the other tables' references only gain a key. */
  lemma CreateUserKeepsValid(db: Database, u: UserRow)
    requires db.Valid() && u.id == db.nextUserId && UserByEmail(db.users, u.email).None?
    ensures UsersOk(db.users + [u], db.nextUserId + 1)
    ensures MembershipsOk(db.memberships, UserIds(db.users + [u]), GroupIds(db.groups))
    ensures LogsRefer(db.logs, UserIds(db.users + [u]), GroupIds(db.groups))
    ensures InvitationsRefer(db.invitations, UserIds(db.users + [u]), GroupIds(db.groups))
    ensures TransactionsRefer(db.transactions, UserIds(db.users + [u]), GroupIds(db.groups))
  {
    UserAppendOk(db.users, db.nextUserId, u);
  }

  /** `createUser`: inserts the account and returns it without the password
      hash. The INSERT raises a unique violation (`None`, no row) when the
      email is taken; the key counter advances either way. */
  method CreateUser(db: Database, email: string, passwordHash: string, name: string, role: Option<string>, now: Time)
      returns (r: Option<PublicUser>)
    requires db.Valid()
    modifies db`users, db`nextUserId
    ensures db.Valid()
    ensures db.nextUserId == old(db.nextUserId) + 1
    ensures r.Some? <==> UserByEmail(old(db.users), email).None?
    ensures r.Some? ==>
              && db.users == old(db.users) + [NewUser(old(db.nextUserId), email, passwordHash, name, role, now)]
              && r.value == PublicOf(db.users[|db.users| - 1])
              && UserByEmail(db.users, email) == Some(db.users[|db.users| - 1])
    ensures r.None? ==> db.users == old(db.users)
  {
    var u := NewUser(db.nextUserId, email, passwordHash, name, role, now);
    if UserByEmail(db.users, email).Some? {
      db.nextUserId := db.nextUserId + 1;
      return None;
    }
    CreateUserKeepsValid(db, u);
    UserByEmailExact(db.users + [u], email, u);
    db.users, db.nextUserId := db.users + [u], db.nextUserId + 1;
    r := Some(PublicOf(u));
  }
}
