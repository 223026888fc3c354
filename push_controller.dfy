/** The push handlers: the public VAPID key, and subscribe and unsubscribe
    for the calling user. */
module PushController {
  import opened Base
  import opened Store
  import opened PushModel

  /** `getVapidKey`: 503 while no public key is configured. */
  datatype KeyAnswer = KeyMissing(status: Status) | PublicKey(key: string)

  function GetVapidKey(publicKey: Option<string>): (r: KeyAnswer)
    ensures r == KeyMissing(SERVICE_UNAVAILABLE) <==> !Truthy(publicKey)
    ensures r.PublicKey? <==> Truthy(publicKey)
    ensures r.PublicKey? ==> r.key == publicKey.value && r.key != ""
  {
    if Truthy(publicKey) then PublicKey(publicKey.value) else KeyMissing(SERVICE_UNAVAILABLE)
  }

  /** The browser's subscription object as it arrives; any part may be
      missing. */
  datatype Keys = Keys(p256dh: Option<string>, auth: Option<string>)
  datatype SubscriptionBody = SubscriptionBody(endpoint: Option<string>, keys: Option<Keys>)

  /** The 400 check of `subscribe`: a subscription with a non-empty endpoint
      and a `keys` object; what the keys hold is not looked at. */
  predicate WellFormed(body: Option<SubscriptionBody>) {
    body.Some? && Truthy(body.value.endpoint) && body.value.keys.Some?
  }

  /** `subscribe`: 400 for a malformed subscription; a missing key is bound
      as NULL and violates NOT NULL (500, after the key is drawn); otherwise
      the upsert under the caller's id, 200 when it stores the row and 500
      when it raises. */
  method Subscribe(db: Database, caller: int, body: Option<SubscriptionBody>, now: Time) returns (status: Status)
    requires db.Valid()
    modifies db`subscriptions, db`nextSubscriptionId
    ensures db.Valid()
    ensures status == BAD_REQUEST <==> !WellFormed(body)
    ensures status == BAD_REQUEST ==> db.subscriptions == old(db.subscriptions)
                                      && db.nextSubscriptionId == old(db.nextSubscriptionId)
    ensures status != BAD_REQUEST ==> db.nextSubscriptionId == old(db.nextSubscriptionId) + 1
    ensures status == OK <==>
              && WellFormed(body) && body.value.keys.value.p256dh.Some? && body.value.keys.value.auth.Some?
              && !HeldByOther(old(db.subscriptions), caller, body.value.endpoint.value)
              && (SubscriptionAt(old(db.subscriptions), body.value.endpoint.value).Some?
                  || caller in UserIds(db.users))
    ensures status == OK ==>
              var b := body.value;
              db.subscriptions == SavedSubscriptions(old(db.subscriptions), caller, b.endpoint.value,
                                                     b.keys.value.p256dh.value, b.keys.value.auth.value,
                                                     old(db.nextSubscriptionId), now)
    ensures status != OK ==> db.subscriptions == old(db.subscriptions)
    ensures status in {OK, BAD_REQUEST, INTERNAL_ERROR}
  {
    if !WellFormed(body) {
      return BAD_REQUEST;
    }
    var b := body.value;
    var keys := b.keys.value;
    if keys.p256dh.None? || keys.auth.None? {
      db.nextSubscriptionId := db.nextSubscriptionId + 1;
      return INTERNAL_ERROR;
    }
    var saved := SavePushSubscription(db, caller, b.endpoint.value, keys.p256dh.value, keys.auth.value, now);
    status := if saved.Some? then OK else INTERNAL_ERROR;
  }

  /** `unsubscribe`: 400 without an endpoint; otherwise the caller's row for
      the endpoint is deleted (none is no error). */
  method Unsubscribe(db: Database, caller: int, endpoint: Option<string>) returns (status: Status)
    requires db.Valid()
    modifies db`subscriptions
    ensures db.Valid()
    ensures status == BAD_REQUEST <==> !Truthy(endpoint)
    ensures status != BAD_REQUEST ==> status == OK
    ensures status == BAD_REQUEST ==> db.subscriptions == old(db.subscriptions)
    ensures status == OK ==> db.subscriptions == WithoutSubscription(old(db.subscriptions), caller, endpoint.value)
  {
    if !Truthy(endpoint) {
      return BAD_REQUEST;
    }
    DeletePushSubscription(db, caller, endpoint.value);
    status := OK;
  }
}
