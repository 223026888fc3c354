/** The dues table: the member-by-member paid list of a group (a left join
    of its memberships with their dues rows, by name), and the upsert that
    records whether a member has paid. */
module DuesModel {
  import opened Base
  import opened Rows
  import opened Text
  import opened Store
  import opened GroupModel

  // ---- Lookup by the UNIQUE (group_id, user_id) key

  predicate KeyIs(d: DuesRow, groupId: int, userId: int) {
    d.groupId == groupId && d.userId == userId
  }

  /** The dues row of the pair, if any. */
  function DuesOf(ds: seq<DuesRow>, groupId: int, userId: int): (r: Option<DuesRow>)
    ensures r.None? <==> forall i :: 0 <= i < |ds| ==> !KeyIs(ds[i], groupId, userId)
    ensures r.Some? ==> r.value in ds && KeyIs(r.value, groupId, userId)
  {
    if ds == [] then None
    else if KeyIs(ds[0], groupId, userId) then Some(ds[0])
    else
      var r := DuesOf(ds[1..], groupId, userId);
      assert forall i :: 1 <= i < |ds| ==> ds[i] == ds[1..][i - 1];
      r
  }

  /** Under the UNIQUE key, the lookup finds exactly the row with that key. */
  lemma DuesOfExact(ds: seq<DuesRow>, groupId: int, userId: int, d: DuesRow)
    requires UniqueDues(ds)
    ensures DuesOf(ds, groupId, userId) == Some(d) <==> d in ds && KeyIs(d, groupId, userId)
  {
    if d in ds && KeyIs(d, groupId, userId) {
      var found := DuesOf(ds, groupId, userId).value;
      var i :| 0 <= i < |ds| && ds[i] == d;
      var j :| 0 <= j < |ds| && ds[j] == found;
      assert i == j;
    }
  }

  // ---- listDuesByGroup

  /** A row of `listDuesByGroup`. */
  datatype DuesView = DuesView(userId: int, userName: string, isPaid: bool, paidAt: Option<Time>)

  /** The entry of one member: `COALESCE(d.is_paid, false)` and `d.paid_at`
      (null when the member has no dues row). */
  function ViewOf(u: UserRow, d: Option<DuesRow>): DuesView {
    DuesView(u.id, u.name, d.Some? && d.value.isPaid, if d.Some? then d.value.paidAt else None)
  }

  /** The group's memberships joined with their users and left-joined with
      their dues rows, in table order. */
  function JoinDues(us: seq<UserRow>, ms: seq<MembershipRow>, ds: seq<DuesRow>, groupId: int): seq<DuesView> {
    if ms == [] then []
    else
      var rest := JoinDues(us, ms[1..], ds, groupId);
      var u := UserById(us, ms[0].userId);
      if ms[0].groupId == groupId && u.Some? then [ViewOf(u.value, DuesOf(ds, groupId, ms[0].userId))] + rest
      else rest
  }

  function ByName(a: DuesView, b: DuesView): bool {
    LexLe(a.userName, b.userName)
  }

  lemma ByNameOrder()
    ensures TotalPreorder(ByName)
  {
    forall a: DuesView, b: DuesView ensures ByName(a, b) || ByName(b, a) {
      LexLeTotal(a.userName, b.userName);
    }
    forall a: DuesView, b: DuesView, c: DuesView | ByName(a, b) && ByName(b, c) ensures ByName(a, c) {
      LexLeTransitive(a.userName, b.userName, c.userName);
    }
  }

  /** `listDuesByGroup`: `ORDER BY u.name ASC`. */
  function ListDuesByGroup(us: seq<UserRow>, ms: seq<MembershipRow>, ds: seq<DuesRow>, groupId: int)
      : seq<DuesView> {
    SortBy(JoinDues(us, ms, ds, groupId), ByName)
  }

  /** A member of the group, with a user row. */
  predicate ListedMember(us: seq<UserRow>, m: MembershipRow, groupId: int) {
    m.groupId == groupId && UserById(us, m.userId).Some?
  }

  /** `x` is the entry of some membership of the group. */
  predicate MemberEntry(us: seq<UserRow>, ms: seq<MembershipRow>, ds: seq<DuesRow>, groupId: int, x: DuesView) {
    exists i :: 0 <= i < |ms| && ListedMember(us, ms[i], groupId)
                && x == ViewOf(UserById(us, ms[i].userId).value, DuesOf(ds, groupId, ms[i].userId))
  }

  lemma {:induction false} JoinDuesExact(us: seq<UserRow>, ms: seq<MembershipRow>, ds: seq<DuesRow>, groupId: int,
                                         x: DuesView)
    ensures x in JoinDues(us, ms, ds, groupId) <==> MemberEntry(us, ms, ds, groupId, x)
  {
    if ms != [] {
      JoinDuesExact(us, ms[1..], ds, groupId, x);
      assert forall i :: 1 <= i < |ms| ==> ms[i] == ms[1..][i - 1];
      if x in JoinDues(us, ms[1..], ds, groupId) {
        var i :| 0 <= i < |ms[1..]| && ListedMember(us, ms[1..][i], groupId)
                 && x == ViewOf(UserById(us, ms[1..][i].userId).value, DuesOf(ds, groupId, ms[1..][i].userId));
        assert ms[i + 1] == ms[1..][i];
      }
    }
  }

  /** One entry per membership of the group whose user has a row. */
  lemma {:induction false} JoinDuesCount(us: seq<UserRow>, ms: seq<MembershipRow>, ds: seq<DuesRow>, groupId: int)
    requires forall i :: 0 <= i < |ms| ==> ms[i].userId in UserIds(us)
    ensures |JoinDues(us, ms, ds, groupId)| == CountMembers(ms, groupId)
  {
    if ms != [] {
      assert forall i :: 1 <= i < |ms[1..]| ==> ms[1..][i] == ms[i + 1];
      JoinDuesCount(us, ms[1..], ds, groupId);
    }
  }

  /** The dues list holds exactly one entry per member of the group, with the
      member's name and paid state (false and no paid time when the member has
      no dues row), never an entry of a non-member, ordered by name. */
  lemma ListDuesSpec(us: seq<UserRow>, ms: seq<MembershipRow>, ds: seq<DuesRow>, groupId: int)
    requires forall i :: 0 <= i < |ms| ==> ms[i].userId in UserIds(us)
    ensures forall x :: x in ListDuesByGroup(us, ms, ds, groupId) <==> MemberEntry(us, ms, ds, groupId, x)
    ensures |ListDuesByGroup(us, ms, ds, groupId)| == CountMembers(ms, groupId)
    ensures SortedBy(ListDuesByGroup(us, ms, ds, groupId), ByName)
  {
    var j := JoinDues(us, ms, ds, groupId);
    forall x ensures x in ListDuesByGroup(us, ms, ds, groupId) <==> x in j {
      assert x in ListDuesByGroup(us, ms, ds, groupId) <==> x in multiset(ListDuesByGroup(us, ms, ds, groupId));
      assert x in j <==> x in multiset(j);
    }
    forall x ensures x in j <==> MemberEntry(us, ms, ds, groupId, x) {
      JoinDuesExact(us, ms, ds, groupId, x);
    }
    JoinDuesCount(us, ms, ds, groupId);
    ByNameOrder();
    SortBySorted(j, ByName);
  }

  /** A member with no dues row is listed unpaid, with no paid time. */
  lemma ListDuesDefault(us: seq<UserRow>, ms: seq<MembershipRow>, ds: seq<DuesRow>, groupId: int, i: int)
    requires 0 <= i < |ms| && ListedMember(us, ms[i], groupId) && DuesOf(ds, groupId, ms[i].userId).None?
    ensures DuesView(ms[i].userId, UserById(us, ms[i].userId).value.name, false, None)
            in ListDuesByGroup(us, ms, ds, groupId)
  {
    var x := ViewOf(UserById(us, ms[i].userId).value, DuesOf(ds, groupId, ms[i].userId));
    JoinDuesExact(us, ms, ds, groupId, x);
    assert x in multiset(JoinDues(us, ms, ds, groupId));
    assert x in multiset(ListDuesByGroup(us, ms, ds, groupId));
  }

  // ---- setDuesStatus

  /** The row the upsert leaves: `is_paid = isPaid`, and `paid_at` the
      statement's `NOW()` when paid, null otherwise. */
  function PaidRow(groupId: int, userId: int, isPaid: bool, now: Time): (r: DuesRow)
    ensures KeyIs(r, groupId, userId) && r.isPaid == isPaid
    ensures r.paidAt.Some? <==> isPaid
    ensures isPaid ==> r.paidAt == Some(now)
  {
    DuesRow(groupId, userId, isPaid, if isPaid then Some(now) else None)
  }

  /** `INSERT ... ON CONFLICT (group_id, user_id) DO UPDATE`: the pair's row
      is overwritten in place when it exists, and appended otherwise. */
  function Upserted(ds: seq<DuesRow>, groupId: int, userId: int, isPaid: bool, now: Time): (r: seq<DuesRow>)
  {
    var row := PaidRow(groupId, userId, isPaid, now);
    if DuesOf(ds, groupId, userId).Some? then
      seq(|ds|, i requires 0 <= i < |ds| => if KeyIs(ds[i], groupId, userId) then row else ds[i])
    else ds + [row]
  }

  /** Every row of the upserted table is the new row or an old row of another pair, and back. */
  lemma UpsertedRows(ds: seq<DuesRow>, groupId: int, userId: int, isPaid: bool, now: Time, d: DuesRow)
    ensures d in Upserted(ds, groupId, userId, isPaid, now)
            <==> d == PaidRow(groupId, userId, isPaid, now) || (d in ds && !KeyIs(d, groupId, userId))
  {
    var r := Upserted(ds, groupId, userId, isPaid, now);
    var row := PaidRow(groupId, userId, isPaid, now);
    if DuesOf(ds, groupId, userId).Some? {
      var k :| 0 <= k < |ds| && ds[k] == DuesOf(ds, groupId, userId).value;
      assert r[k] == row;
      if d in ds && !KeyIs(d, groupId, userId) {
        var i :| 0 <= i < |ds| && ds[i] == d;
        assert r[i] == d;
      }
    }
  }

  /** The upsert keeps the pair key unique. */
  lemma UpsertedUnique(ds: seq<DuesRow>, groupId: int, userId: int, isPaid: bool, now: Time)
    requires UniqueDues(ds)
    ensures UniqueDues(Upserted(ds, groupId, userId, isPaid, now))
  {
  }

  /** After the upsert the pair's row records exactly the requested state,
      whether it was inserted or updated, and every other pair's row is as
      before. */
  lemma UpsertSpec(ds: seq<DuesRow>, groupId: int, userId: int, isPaid: bool, now: Time)
    requires UniqueDues(ds)
    ensures UniqueDues(Upserted(ds, groupId, userId, isPaid, now))
    ensures DuesOf(Upserted(ds, groupId, userId, isPaid, now), groupId, userId)
            == Some(PaidRow(groupId, userId, isPaid, now))
    ensures forall g, u :: g != groupId || u != userId ==>
              DuesOf(Upserted(ds, groupId, userId, isPaid, now), g, u) == DuesOf(ds, g, u)
  {
    var r := Upserted(ds, groupId, userId, isPaid, now);
    var row := PaidRow(groupId, userId, isPaid, now);
    UpsertedUnique(ds, groupId, userId, isPaid, now);
    UpsertedRows(ds, groupId, userId, isPaid, now, row);
    DuesOfExact(r, groupId, userId, row);
    forall g, u | g != groupId || u != userId
      ensures DuesOf(r, g, u) == DuesOf(ds, g, u)
    {
      var old_ := DuesOf(ds, g, u);
      var new_ := DuesOf(r, g, u);
      if new_.Some? {
        UpsertedRows(ds, groupId, userId, isPaid, now, new_.value);
        DuesOfExact(ds, g, u, new_.value);
      }
      if old_.Some? {
        UpsertedRows(ds, groupId, userId, isPaid, now, old_.value);
        DuesOfExact(r, g, u, old_.value);
      }
    }
  }

  /** Repeating the upsert with the same paid state leaves what the second
      call alone leaves: only `paid_at` can move, to the later `NOW()`. */
  lemma UpsertRepeat(ds: seq<DuesRow>, groupId: int, userId: int, isPaid: bool, now1: Time, now2: Time)
    ensures Upserted(Upserted(ds, groupId, userId, isPaid, now1), groupId, userId, isPaid, now2)
            == Upserted(ds, groupId, userId, isPaid, now2)
  {
    var r1 := Upserted(ds, groupId, userId, isPaid, now1);
    var row1 := PaidRow(groupId, userId, isPaid, now1);
    UpsertedRows(ds, groupId, userId, isPaid, now1, row1);
    assert DuesOf(r1, groupId, userId).Some?;
    var lhs := Upserted(r1, groupId, userId, isPaid, now2);
    var rhs := Upserted(ds, groupId, userId, isPaid, now2);
    if DuesOf(ds, groupId, userId).Some? {
      assert |lhs| == |rhs|;
      forall i | 0 <= i < |lhs| ensures lhs[i] == rhs[i] {
      }
    } else {
      assert |lhs| == |rhs|;
      forall i | 0 <= i < |lhs| ensures lhs[i] == rhs[i] {
        if i < |ds| {
          assert r1[i] == ds[i];
          assert !KeyIs(ds[i], groupId, userId);
        }
      }
    }
  }

  /** `setDuesStatus`: the upsert, returning the pair's row. The INSERT raises
      a foreign-key error (`None`, nothing changes) when the group or the
      user has no row. */
  method SetDuesStatus(db: Database, groupId: int, userId: int, isPaid: bool, now: Time)
      returns (r: Option<DuesRow>)
    requires db.Valid()
    modifies db`dues
    ensures db.Valid()
    ensures r.Some? <==> groupId in GroupIds(db.groups) && userId in UserIds(db.users)
    ensures r.Some? ==> r == Some(PaidRow(groupId, userId, isPaid, now))
                        && db.dues == Upserted(old(db.dues), groupId, userId, isPaid, now)
                        && DuesOf(db.dues, groupId, userId) == r
    ensures r.None? ==> db.dues == old(db.dues)
  {
    if groupId !in GroupIds(db.groups) || userId !in UserIds(db.users) {
      return None;
    }
    UpsertSpec(db.dues, groupId, userId, isPaid, now);
    db.dues := Upserted(db.dues, groupId, userId, isPaid, now);
    r := Some(PaidRow(groupId, userId, isPaid, now));
  }
}
