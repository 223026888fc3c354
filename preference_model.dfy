/** The per-user settings table: whether the user receives dues reminders,
    read with a default of yes, and written by an upsert. */
module PreferenceModel {
  import opened Base
  import opened Store

  /** The user's settings row, if any. */
  function PreferenceOf(ps: seq<PreferenceRow>, userId: int): (r: Option<PreferenceRow>)
    ensures r.None? <==> forall i :: 0 <= i < |ps| ==> ps[i].userId != userId
    ensures r.Some? ==> r.value in ps && r.value.userId == userId
  {
    if ps == [] then None
    else if ps[0].userId == userId then Some(ps[0])
    else
      var r := PreferenceOf(ps[1..], userId);
      assert forall i :: 1 <= i < |ps| ==> ps[i] == ps[1..][i - 1];
      r
  }

  /** Under the primary key, the lookup finds exactly the user's row. */
  lemma PreferenceOfExact(ps: seq<PreferenceRow>, userId: int, p: PreferenceRow)
    requires UniquePreferences(ps)
    ensures PreferenceOf(ps, userId) == Some(p) <==> p in ps && p.userId == userId
  {
    if p in ps && p.userId == userId {
      var found := PreferenceOf(ps, userId).value;
      var i :| 0 <= i < |ps| && ps[i] == p;
      var j :| 0 <= j < |ps| && ps[j] == found;
      assert i == j;
    }
  }

  /** `getUserPreferences`: the stored row, or reminders on when the user
      has none. */
  function GetUserPreferences(ps: seq<PreferenceRow>, userId: int): (r: PreferenceRow)
    ensures r.userId == userId
    ensures PreferenceOf(ps, userId).None? ==> r.receiveDuesReminders
    ensures PreferenceOf(ps, userId).Some? ==> r == PreferenceOf(ps, userId).value
  {
    match PreferenceOf(ps, userId)
    case None => PreferenceRow(userId, true)
    case Some(p) => p
  }

  /** `INSERT ... VALUES ($1, COALESCE($2, true)) ON CONFLICT (user_id) DO
      UPDATE SET receive_dues_reminders = EXCLUDED...`: the excluded row
      already holds the coalesced flag, so an absent flag stores true on the
      update path too. */
  function UpsertedPreferences(ps: seq<PreferenceRow>, userId: int, flag: Option<bool>): (r: seq<PreferenceRow>)
  {
    var row := PreferenceRow(userId, flag.GetOr(true));
    if PreferenceOf(ps, userId).Some? then
      seq(|ps|, i requires 0 <= i < |ps| => if ps[i].userId == userId then row else ps[i])
    else ps + [row]
  }

  lemma UpsertedPreferenceRows(ps: seq<PreferenceRow>, userId: int, flag: Option<bool>, p: PreferenceRow)
    ensures p in UpsertedPreferences(ps, userId, flag)
            <==> p == PreferenceRow(userId, flag.GetOr(true)) || (p in ps && p.userId != userId)
  {
    var r := UpsertedPreferences(ps, userId, flag);
    if PreferenceOf(ps, userId).Some? {
      var k :| 0 <= k < |ps| && ps[k] == PreferenceOf(ps, userId).value;
      assert r[k] == PreferenceRow(userId, flag.GetOr(true));
      if p in ps && p.userId != userId {
        var i :| 0 <= i < |ps| && ps[i] == p;
        assert r[i] == p;
      }
    }
  }

  /** After the upsert the user reads back exactly the given flag, or true
      when it was absent, whether a row existed or not; every other user
      reads what they read before; the key stays unique. */
  lemma UpsertPreferencesSpec(ps: seq<PreferenceRow>, userId: int, flag: Option<bool>)
    requires UniquePreferences(ps)
    ensures UniquePreferences(UpsertedPreferences(ps, userId, flag))
    ensures GetUserPreferences(UpsertedPreferences(ps, userId, flag), userId).receiveDuesReminders
            == flag.GetOr(true)
    ensures forall u :: u != userId ==>
              GetUserPreferences(UpsertedPreferences(ps, userId, flag), u) == GetUserPreferences(ps, u)
  {
    var r := UpsertedPreferences(ps, userId, flag);
    var row := PreferenceRow(userId, flag.GetOr(true));
    UpsertedPreferenceRows(ps, userId, flag, row);
    PreferenceOfExact(r, userId, row);
    forall u | u != userId ensures PreferenceOf(r, u) == PreferenceOf(ps, u) {
      var before := PreferenceOf(ps, u);
      var after := PreferenceOf(r, u);
      if after.Some? {
        UpsertedPreferenceRows(ps, userId, flag, after.value);
        PreferenceOfExact(ps, u, after.value);
      }
      if before.Some? {
        UpsertedPreferenceRows(ps, userId, flag, before.value);
        PreferenceOfExact(r, u, before.value);
      }
    }
  }

  /** `upsertUserPreferences`, returning the stored row. The INSERT raises a
      foreign-key error (`None`, nothing changes) for a user with no row. */
  method UpsertUserPreferences(db: Database, userId: int, flag: Option<bool>) returns (r: Option<PreferenceRow>)
    requires db.Valid()
    modifies db`preferences
    ensures db.Valid()
    ensures r.Some? <==> userId in UserIds(db.users)
    ensures r.Some? ==> r == Some(PreferenceRow(userId, flag.GetOr(true)))
                        && db.preferences == UpsertedPreferences(old(db.preferences), userId, flag)
                        && GetUserPreferences(db.preferences, userId) == r.value
    ensures r.None? ==> db.preferences == old(db.preferences)
  {
    if userId !in UserIds(db.users) {
      return None;
    }
    UpsertPreferencesSpec(db.preferences, userId, flag);
    db.preferences := UpsertedPreferences(db.preferences, userId, flag);
    r := Some(PreferenceRow(userId, flag.GetOr(true)));
  }
}
