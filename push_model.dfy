/** The push-subscription table: an upsert keyed by user and endpoint, the
    reads by user, and the delete of one user's endpoint. */
module PushModel {
  import opened Base
  import opened Rows
  import opened Store

  /** The row holding the endpoint, if any. */
  function SubscriptionAt(subs: seq<SubscriptionRow>, endpoint: string): (r: Option<SubscriptionRow>)
    ensures r.None? <==> forall i :: 0 <= i < |subs| ==> subs[i].endpoint != endpoint
    ensures r.Some? ==> r.value in subs && r.value.endpoint == endpoint
  {
    if subs == [] then None
    else if subs[0].endpoint == endpoint then Some(subs[0])
    else
      var r := SubscriptionAt(subs[1..], endpoint);
      assert forall i :: 1 <= i < |subs| ==> subs[i] == subs[1..][i - 1];
      r
  }

  /** Under the UNIQUE endpoint, the lookup finds exactly the endpoint's row. */
  lemma SubscriptionAtExact(subs: seq<SubscriptionRow>, endpoint: string, s: SubscriptionRow)
    requires UniqueEndpoints(subs)
    ensures SubscriptionAt(subs, endpoint) == Some(s) <==> s in subs && s.endpoint == endpoint
  {
    if s in subs && s.endpoint == endpoint {
      var found := SubscriptionAt(subs, endpoint).value;
      var i :| 0 <= i < |subs| && subs[i] == s;
      var j :| 0 <= j < |subs| && subs[j] == found;
      assert i == j;
    }
  }

  predicate Holds(s: SubscriptionRow, userId: int, endpoint: string) {
    s.userId == userId && s.endpoint == endpoint
  }

  /** The update path of the upsert: new keys, `updated_at = NOW()`; the id,
      the owner and `created_at` stay. */
  function Refreshed(s: SubscriptionRow, p256dh: string, auth: string, now: Time): (t: SubscriptionRow)
    ensures t.id == s.id && t.userId == s.userId && t.endpoint == s.endpoint && t.createdAt == s.createdAt
    ensures t.p256dh == p256dh && t.auth == auth && t.updatedAt == now
  {
    s.(p256dh := p256dh, auth := auth, updatedAt := now)
  }

  /** The upsert refuses an endpoint held by another user: the conflict is on
      the endpoint's own UNIQUE constraint, not on `(user_id, endpoint)`. */
  predicate HeldByOther(subs: seq<SubscriptionRow>, userId: int, endpoint: string) {
    SubscriptionAt(subs, endpoint).Some? && SubscriptionAt(subs, endpoint).value.userId != userId
  }

  /** The table after a save that does not raise: the user's row for the
      endpoint refreshed, or a new row with key `id` appended. */
  function SavedSubscriptions(subs: seq<SubscriptionRow>, userId: int, endpoint: string, p256dh: string,
                              auth: string, id: int, now: Time): seq<SubscriptionRow>
  {
    if SubscriptionAt(subs, endpoint).Some? then
      seq(|subs|, i requires 0 <= i < |subs| =>
            if Holds(subs[i], userId, endpoint) then Refreshed(subs[i], p256dh, auth, now) else subs[i])
    else subs + [SubscriptionRow(id, userId, endpoint, p256dh, auth, now, now)]
  }

  /** A save keeps endpoints unique; afterwards the endpoint belongs to the
      user with the new keys, keeping its id and creation time when it
      existed; every other endpoint reads as before. */
  lemma SaveSpec(subs: seq<SubscriptionRow>, userId: int, endpoint: string, p256dh: string, auth: string,
                 id: int, now: Time)
    requires UniqueEndpoints(subs) && !HeldByOther(subs, userId, endpoint)
    ensures var saved := SavedSubscriptions(subs, userId, endpoint, p256dh, auth, id, now);
            && UniqueEndpoints(saved)
            && SubscriptionAt(saved, endpoint).Some?
            && var row := SubscriptionAt(saved, endpoint).value;
               && row.userId == userId && row.p256dh == p256dh && row.auth == auth && row.updatedAt == now
               && (SubscriptionAt(subs, endpoint).Some? ==>
                     row.id == SubscriptionAt(subs, endpoint).value.id
                     && row.createdAt == SubscriptionAt(subs, endpoint).value.createdAt)
               && (SubscriptionAt(subs, endpoint).None? ==> row.id == id && row.createdAt == now)
    ensures forall e :: e != endpoint ==>
              SubscriptionAt(SavedSubscriptions(subs, userId, endpoint, p256dh, auth, id, now), e)
              == SubscriptionAt(subs, e)
  {
    if SubscriptionAt(subs, endpoint).Some? {
      SaveRefreshes(subs, userId, endpoint, p256dh, auth, id, now);
    } else {
      SaveAppends(subs, userId, endpoint, p256dh, auth, id, now);
    }
  }

  /** The update path rewrites exactly the held row, at its place. */
  lemma RefreshRewritesHeldRow(subs: seq<SubscriptionRow>, userId: int, endpoint: string, p256dh: string,
                               auth: string, id: int, now: Time, k: int)
    requires UniqueEndpoints(subs) && 0 <= k < |subs| && Holds(subs[k], userId, endpoint)
    ensures var saved := SavedSubscriptions(subs, userId, endpoint, p256dh, auth, id, now);
            && |saved| == |subs|
            && saved[k] == Refreshed(subs[k], p256dh, auth, now)
            && (forall i :: 0 <= i < |subs| ==> saved[i].endpoint == subs[i].endpoint)
            && (forall i :: 0 <= i < |subs| && i != k ==> saved[i] == subs[i])
  {
    assert SubscriptionAt(subs, endpoint).Some?;
    forall i | 0 <= i < |subs| && i != k ensures !Holds(subs[i], userId, endpoint) {
      if i < k {
        assert subs[i].endpoint != subs[k].endpoint;
      } else {
        assert subs[k].endpoint != subs[i].endpoint;
      }
    }
  }

  /** The update path of a save. */
  lemma SaveRefreshes(subs: seq<SubscriptionRow>, userId: int, endpoint: string, p256dh: string, auth: string,
                      id: int, now: Time)
    requires UniqueEndpoints(subs) && !HeldByOther(subs, userId, endpoint) && SubscriptionAt(subs, endpoint).Some?
    ensures var saved := SavedSubscriptions(subs, userId, endpoint, p256dh, auth, id, now);
            && UniqueEndpoints(saved)
            && SubscriptionAt(saved, endpoint) == Some(Refreshed(SubscriptionAt(subs, endpoint).value, p256dh, auth, now))
            && forall e :: e != endpoint ==> SubscriptionAt(saved, e) == SubscriptionAt(subs, e)
  {
    var saved := SavedSubscriptions(subs, userId, endpoint, p256dh, auth, id, now);
    var held := SubscriptionAt(subs, endpoint).value;
    var k :| 0 <= k < |subs| && subs[k] == held;
    RefreshRewritesHeldRow(subs, userId, endpoint, p256dh, auth, id, now, k);
    assert UniqueEndpoints(saved) by {
      forall i, j | 0 <= i < j < |saved| ensures saved[i].endpoint != saved[j].endpoint {
        assert saved[i].endpoint == subs[i].endpoint && saved[j].endpoint == subs[j].endpoint;
      }
    }
    SubscriptionAtExact(saved, endpoint, saved[k]);
    forall e | e != endpoint ensures SubscriptionAt(saved, e) == SubscriptionAt(subs, e) {
      RefreshKeepsOthers(subs, saved, endpoint, e);
    }
  }

  /** Rows that keep every endpoint in place, and change only the row of
      one endpoint, read as before for every other endpoint. */
  lemma RefreshKeepsOthers(subs: seq<SubscriptionRow>, saved: seq<SubscriptionRow>, endpoint: string, e: string)
    requires UniqueEndpoints(subs) && UniqueEndpoints(saved) && |saved| == |subs| && e != endpoint
    requires forall i :: 0 <= i < |subs| ==> saved[i].endpoint == subs[i].endpoint
    requires forall i :: 0 <= i < |subs| && subs[i].endpoint != endpoint ==> saved[i] == subs[i]
    ensures SubscriptionAt(saved, e) == SubscriptionAt(subs, e)
  {
    var before := SubscriptionAt(subs, e);
    if before.Some? {
      var j :| 0 <= j < |subs| && subs[j] == before.value;
      assert saved[j] == subs[j];
      SubscriptionAtExact(saved, e, saved[j]);
    }
  }

  /** The insert path of a save. */
  lemma SaveAppends(subs: seq<SubscriptionRow>, userId: int, endpoint: string, p256dh: string, auth: string,
                    id: int, now: Time)
    requires UniqueEndpoints(subs) && SubscriptionAt(subs, endpoint).None?
    ensures var saved := SavedSubscriptions(subs, userId, endpoint, p256dh, auth, id, now);
            && UniqueEndpoints(saved)
            && SubscriptionAt(saved, endpoint) == Some(SubscriptionRow(id, userId, endpoint, p256dh, auth, now, now))
            && forall e :: e != endpoint ==> SubscriptionAt(saved, e) == SubscriptionAt(subs, e)
  {
    var saved := SavedSubscriptions(subs, userId, endpoint, p256dh, auth, id, now);
    var row := SubscriptionRow(id, userId, endpoint, p256dh, auth, now, now);
    assert saved == subs + [row];
    assert UniqueEndpoints(saved);
    SubscriptionAtExact(saved, endpoint, row);
    forall e | e != endpoint ensures SubscriptionAt(saved, e) == SubscriptionAt(subs, e) {
      var before := SubscriptionAt(subs, e);
      if before.Some? {
        SubscriptionAtExact(saved, e, before.value);
      }
    }
  }

  /** Saving the same subscription again changes nothing but the
      update time: no second row appears. */
  lemma ResaveAddsNoRow(subs: seq<SubscriptionRow>, userId: int, endpoint: string, p256dh: string,
                        auth: string, id1: int, id2: int, now1: Time, now2: Time)
    requires UniqueEndpoints(subs) && !HeldByOther(subs, userId, endpoint)
    ensures var once := SavedSubscriptions(subs, userId, endpoint, p256dh, auth, id1, now1);
            |SavedSubscriptions(once, userId, endpoint, p256dh, auth, id2, now2)| == |once|
  {
    SaveSpec(subs, userId, endpoint, p256dh, auth, id1, now1);
  }

  /** `savePushSubscription`: the upsert on `(user_id, endpoint)`, returning
      the stored row. It raises (`None`, no change) for an endpoint another
      user holds, and for a new endpoint of a user with no row (the foreign
      key); the SERIAL key is drawn whatever happens. */
  method SavePushSubscription(db: Database, userId: int, endpoint: string, p256dh: string, auth: string,
                              now: Time) returns (r: Option<SubscriptionRow>)
    requires db.Valid()
    modifies db`subscriptions, db`nextSubscriptionId
    ensures db.Valid()
    ensures db.nextSubscriptionId == old(db.nextSubscriptionId) + 1
    ensures r.None? <==> HeldByOther(old(db.subscriptions), userId, endpoint)
                         || (SubscriptionAt(old(db.subscriptions), endpoint).None? && userId !in UserIds(db.users))
    ensures r.Some? ==> db.subscriptions == SavedSubscriptions(old(db.subscriptions), userId, endpoint, p256dh,
                                                              auth, old(db.nextSubscriptionId), now)
                        && r == SubscriptionAt(db.subscriptions, endpoint)
    ensures r.None? ==> db.subscriptions == old(db.subscriptions)
  {
    var id := db.nextSubscriptionId;
    db.nextSubscriptionId := db.nextSubscriptionId + 1;
    if HeldByOther(db.subscriptions, userId, endpoint)
       || (SubscriptionAt(db.subscriptions, endpoint).None? && userId !in UserIds(db.users)) {
      return None;
    }
    SaveSpec(db.subscriptions, userId, endpoint, p256dh, auth, id, now);
    db.subscriptions := SavedSubscriptions(db.subscriptions, userId, endpoint, p256dh, auth, id, now);
    r := SubscriptionAt(db.subscriptions, endpoint);
  }

  /** `getPushSubscriptionsByUserId`: the user's rows. */
  function SubscriptionsOf(subs: seq<SubscriptionRow>, userId: int): (r: seq<SubscriptionRow>)
    ensures forall s :: s in r <==> s in subs && s.userId == userId
  {
    FilterMembers(subs, (t: SubscriptionRow) => t.userId == userId);
    forall s | s in Filter(subs, (t: SubscriptionRow) => t.userId == userId) ensures s in subs {
      FilterRowFrom(subs, (t: SubscriptionRow) => t.userId == userId, s);
    }
    Filter(subs, (t: SubscriptionRow) => t.userId == userId)
  }

  /** `getPushSubscriptionsByUserIds`: nothing for an empty list (no query),
      otherwise the rows of the listed users. */
  function SubscriptionsOfUsers(subs: seq<SubscriptionRow>, userIds: seq<int>): (r: seq<SubscriptionRow>)
    ensures forall s :: s in r <==> s in subs && s.userId in userIds
  {
    if |userIds| == 0 then []
    else
      forall s | s in Filter(subs, (t: SubscriptionRow) => t.userId in userIds) ensures s in subs {
        FilterRowFrom(subs, (t: SubscriptionRow) => t.userId in userIds, s);
      }
      forall s | s in subs && s.userId in userIds ensures s in Filter(subs, (t: SubscriptionRow) => t.userId in userIds) {
        FilterKeepsRow(subs, (t: SubscriptionRow) => t.userId in userIds, s);
      }
      Filter(subs, (t: SubscriptionRow) => t.userId in userIds)
  }

  /** Asking for one user's rows through the list form gives the same rows,
      in the same order, as asking for that user. */
  lemma SubscriptionsOfOneUser(subs: seq<SubscriptionRow>, userId: int)
    ensures SubscriptionsOfUsers(subs, [userId]) == SubscriptionsOf(subs, userId)
  {
    FilterSame(subs, (t: SubscriptionRow) => t.userId in [userId], (t: SubscriptionRow) => t.userId == userId);
  }

  /** The table after `deletePushSubscription`. */
  function WithoutSubscription(subs: seq<SubscriptionRow>, userId: int, endpoint: string): (r: seq<SubscriptionRow>)
    ensures forall s :: s in r <==> s in subs && !Holds(s, userId, endpoint)
  {
    forall s | s in Filter(subs, (t: SubscriptionRow) => !Holds(t, userId, endpoint)) ensures s in subs {
      FilterRowFrom(subs, (t: SubscriptionRow) => !Holds(t, userId, endpoint), s);
    }
    forall s | s in subs && !Holds(s, userId, endpoint)
      ensures s in Filter(subs, (t: SubscriptionRow) => !Holds(t, userId, endpoint))
    {
      FilterKeepsRow(subs, (t: SubscriptionRow) => !Holds(t, userId, endpoint), s);
    }
    Filter(subs, (t: SubscriptionRow) => !Holds(t, userId, endpoint))
  }

  /** Deleting leaves endpoints unique; the user's endpoint is gone and any
      other user's row for it, or for any other endpoint, stays. */
  lemma DeleteSpec(subs: seq<SubscriptionRow>, userId: int, endpoint: string)
    requires UniqueEndpoints(subs)
    ensures UniqueEndpoints(WithoutSubscription(subs, userId, endpoint))
    ensures HeldByOther(subs, userId, endpoint) ==> WithoutSubscription(subs, userId, endpoint) == subs
    ensures !HeldByOther(subs, userId, endpoint) ==> SubscriptionAt(WithoutSubscription(subs, userId, endpoint), endpoint).None?
  {
    FilterPairwise(subs, (t: SubscriptionRow) => !Holds(t, userId, endpoint), (a: SubscriptionRow, b: SubscriptionRow) => a.endpoint != b.endpoint);
    if HeldByOther(subs, userId, endpoint) {
      var held := SubscriptionAt(subs, endpoint).value;
      forall s | s in subs ensures !Holds(s, userId, endpoint) {
        if s.endpoint == endpoint {
          SubscriptionAtExact(subs, endpoint, s);
        }
      }
      FilterAll(subs, (t: SubscriptionRow) => !Holds(t, userId, endpoint));
    } else {
      var rest := WithoutSubscription(subs, userId, endpoint);
      if SubscriptionAt(rest, endpoint).Some? {
        var s := SubscriptionAt(rest, endpoint).value;
        SubscriptionAtExact(subs, endpoint, s);
      }
    }
  }

  /** `deletePushSubscription`: removes the user's row for the endpoint. */
  method DeletePushSubscription(db: Database, userId: int, endpoint: string)
    requires db.Valid()
    modifies db`subscriptions
    ensures db.Valid()
    ensures db.subscriptions == WithoutSubscription(old(db.subscriptions), userId, endpoint)
  {
    DeleteSpec(db.subscriptions, userId, endpoint);
    db.subscriptions := WithoutSubscription(db.subscriptions, userId, endpoint);
  }
}
