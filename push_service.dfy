/** The web-push sender: whether push is configured, the payload sent, and
    the delivery loop that counts successes and collects failures. The
    push service's answer to each delivery is a parameter. */
module PushService {
  import opened Base
  import opened Rows
  import opened Store
  import opened PushModel

  const DEFAULT_ICON: string := "/pwa-192x192.png"
  const INVALID_SUBSCRIPTION_PREFIX: string := "Invalid subscription: "
  const UNKNOWN_ERROR: string := "Unknown error"

  /** `isPushEnabled`: both VAPID keys are set and non-empty. */
  predicate IsPushEnabled(publicKey: Option<string>, privateKey: Option<string>) {
    Truthy(publicKey) && Truthy(privateKey)
  }

  /** What a caller asks to send; `data` is a flat object here. */
  datatype Payload = Payload(title: string, body: string, icon: Option<string>, badge: Option<string>,
                             data: Option<map<string, string>>)

  /** The JSON body that goes to the push service. */
  datatype WirePayload = WirePayload(title: string, body: string, icon: string, badge: string,
                                     data: map<string, string>)

  /** The body of a notification: the icon and badge default to the app
      icon, the data to an empty object. */
  function WireOf(p: Payload): (w: WirePayload)
    ensures w.title == p.title && w.body == p.body
    ensures w.icon == (if Truthy(p.icon) then p.icon.value else DEFAULT_ICON)
    ensures w.badge == (if Truthy(p.badge) then p.badge.value else DEFAULT_ICON)
    ensures w.data == p.data.GetOr(map[])
  {
    WirePayload(p.title, p.body, if Truthy(p.icon) then p.icon.value else DEFAULT_ICON,
                if Truthy(p.badge) then p.badge.value else DEFAULT_ICON, p.data.GetOr(map[]))
  }

  /** What a failed delivery throws: an `Error` (with the push service's
      HTTP status when it has one) or some other value. */
  datatype SendFailure = ErrorThrown(statusCode: Option<int>, message: string) | ValueThrown

  /** The delivery of one notification: `None` on success. */
  type Deliver = (SubscriptionRow, WirePayload) -> Option<SendFailure>

  /** The message recorded for a failure: a gone (410) or unknown (404)
      subscription is reported as invalid, another error by its message, and
      a thrown non-error as unknown. */
  function FailureMessage(f: SendFailure): (m: string)
    ensures f.ErrorThrown? && f.statusCode in {Some(410), Some(404)} ==> m == INVALID_SUBSCRIPTION_PREFIX + f.message
    ensures f.ErrorThrown? && f.statusCode !in {Some(410), Some(404)} ==> m == f.message
    ensures f.ValueThrown? ==> m == UNKNOWN_ERROR
  {
    match f
    case ErrorThrown(code, message) =>
      if code == Some(GONE) || code == Some(NOT_FOUND) then INVALID_SUBSCRIPTION_PREFIX + message else message
    case ValueThrown => UNKNOWN_ERROR
  }

  datatype PushError = PushError(userId: int, error: string)

  datatype PushSummary = PushSummary(sent: nat, failed: nat, errors: seq<PushError>)

  /** The error entries of a run over `subs`, in order. */
  function Reports(subs: seq<SubscriptionRow>, deliver: Deliver, w: WirePayload): seq<PushError>
    decreases |subs|
  {
    if subs == [] then []
    else
      var s := subs[|subs| - 1];
      Reports(subs[..|subs| - 1], deliver, w)
      + (if deliver(s, w).Some? then [PushError(s.userId, FailureMessage(deliver(s, w).value))] else [])
  }

  /** The number of deliveries of a run over `subs` that succeed. */
  function Delivered(subs: seq<SubscriptionRow>, deliver: Deliver, w: WirePayload): nat
    decreases |subs|
  {
    if subs == [] then 0
    else Delivered(subs[..|subs| - 1], deliver, w) + (if deliver(subs[|subs| - 1], w).None? then 1 else 0)
  }

  /** Every subscription is either delivered or reported: the two counts
      add up to the number of subscriptions. */
  lemma {:induction false} DeliveredPlusReported(subs: seq<SubscriptionRow>, deliver: Deliver, w: WirePayload)
    ensures Delivered(subs, deliver, w) + |Reports(subs, deliver, w)| == |subs|
    decreases |subs|
  {
    if subs != [] {
      DeliveredPlusReported(subs[..|subs| - 1], deliver, w);
    }
  }

  /** A failure does not stop the run: the deliveries counted are all the
      subscriptions whose delivery succeeds, and the error entries as many as
      those whose delivery fails. */
  lemma {:induction false} RunCoversAll(subs: seq<SubscriptionRow>, deliver: Deliver, w: WirePayload)
    ensures Delivered(subs, deliver, w) == |Filter(subs, s => deliver(s, w).None?)|
    ensures |Reports(subs, deliver, w)| == |Filter(subs, s => deliver(s, w).Some?)|
    decreases |subs|
  {
    if subs != [] {
      var init, s := subs[..|subs| - 1], subs[|subs| - 1];
      RunCoversAll(init, deliver, w);
      assert subs == init + [s];
      FilterAppend(init, [s], s => deliver(s, w).None?);
      FilterAppend(init, [s], s => deliver(s, w).Some?);
    }
  }

  /** Each error entry is that of a subscription whose delivery failed. */
  predicate ReportsFromFailures(rs: seq<PushError>, subs: seq<SubscriptionRow>, deliver: Deliver, w: WirePayload) {
    forall k :: 0 <= k < |rs| ==> FromFailure(rs[k], subs, deliver, w)
  }

  /** The entry is that of some subscription whose delivery failed. */
  predicate FromFailure(e: PushError, subs: seq<SubscriptionRow>, deliver: Deliver, w: WirePayload) {
    exists i :: 0 <= i < |subs| && deliver(subs[i], w).Some?
                && e == PushError(subs[i].userId, FailureMessage(deliver(subs[i], w).value))
  }

  lemma {:induction false} ReportsSound(subs: seq<SubscriptionRow>, deliver: Deliver, w: WirePayload)
    ensures ReportsFromFailures(Reports(subs, deliver, w), subs, deliver, w)
    decreases |subs|
  {
    if subs != [] {
      var init, s := subs[..|subs| - 1], subs[|subs| - 1];
      ReportsSound(init, deliver, w);
      var before := Reports(init, deliver, w);
      assert ReportsFromFailures(before, init, deliver, w);
      var rs := Reports(subs, deliver, w);
      forall k | 0 <= k < |rs| ensures FromFailure(rs[k], subs, deliver, w) {
        if k < |before| {
          assert FromFailure(before[k], init, deliver, w);
          var i :| 0 <= i < |init| && deliver(init[i], w).Some?
                   && before[k] == PushError(init[i].userId, FailureMessage(deliver(init[i], w).value));
          assert rs[k] == before[k] && subs[i] == init[i];
        } else {
          assert rs[k] == PushError(s.userId, FailureMessage(deliver(s, w).value));
          assert subs[|subs| - 1] == s;
        }
      }
    }
  }

  /** Every error entry names the user of a subscription of the run. */
  lemma ReportsNameUsers(subs: seq<SubscriptionRow>, deliver: Deliver, w: WirePayload, userIds: seq<int>)
    requires forall i :: 0 <= i < |subs| ==> subs[i].userId in userIds
    ensures forall k :: 0 <= k < |Reports(subs, deliver, w)| ==> Reports(subs, deliver, w)[k].userId in userIds
  {
    ReportsSound(subs, deliver, w);
    var rs := Reports(subs, deliver, w);
    forall k | 0 <= k < |rs| ensures rs[k].userId in userIds {
      assert FromFailure(rs[k], subs, deliver, w);
      var i :| 0 <= i < |subs| && deliver(subs[i], w).Some?
               && rs[k] == PushError(subs[i].userId, FailureMessage(deliver(subs[i], w).value));
    }
  }

  /** One step of the run: the prefix grows by one subscription. */
  lemma RunStep(subs: seq<SubscriptionRow>, deliver: Deliver, w: WirePayload, i: nat)
    requires i < |subs|
    ensures Delivered(subs[..i + 1], deliver, w)
            == Delivered(subs[..i], deliver, w) + (if deliver(subs[i], w).None? then 1 else 0)
    ensures Reports(subs[..i + 1], deliver, w)
            == Reports(subs[..i], deliver, w)
               + (if deliver(subs[i], w).Some? then [PushError(subs[i].userId, FailureMessage(deliver(subs[i], w).value))] else [])
  {
    assert subs[..i + 1][..i] == subs[..i];
  }

  /** The `for` loop of `sendPushNotificationsToUsers`: one delivery per
      subscription, a failure caught and recorded, the run going on. */
  method DeliverAll(subs: seq<SubscriptionRow>, deliver: Deliver, w: WirePayload)
      returns (sent: nat, failed: nat, errors: seq<PushError>)
    ensures sent == Delivered(subs, deliver, w)
    ensures errors == Reports(subs, deliver, w)
    ensures failed == |errors|
  {
    errors := [];
    sent, failed := 0, 0;
    for i := 0 to |subs|
      invariant sent == Delivered(subs[..i], deliver, w)
      invariant errors == Reports(subs[..i], deliver, w)
      invariant failed == |errors|
    {
      RunStep(subs, deliver, w, i);
      var outcome := deliver(subs[i], w);
      if outcome.None? {
        sent := sent + 1;
      } else {
        failed := failed + 1;
        errors := errors + [PushError(subs[i].userId, FailureMessage(outcome.value))];
      }
    }
    assert subs[..|subs|] == subs;
  }

  /** `sendPushNotificationsToUsers`: `None` when push is not configured
      (it throws, even for an empty list); otherwise one delivery attempt per
      subscription of the listed users, counting successes and failures and
      recording an error entry per failure. */
  method SendPushNotificationsToUsers(publicKey: Option<string>, privateKey: Option<string>,
                                      table: seq<SubscriptionRow>, userIds: seq<int>, payload: Payload,
                                      deliver: Deliver) returns (r: Option<PushSummary>)
    ensures r.None? <==> !IsPushEnabled(publicKey, privateKey)
    ensures r.Some? ==>
              var subs := SubscriptionsOfUsers(table, userIds);
              && r.value.sent == Delivered(subs, deliver, WireOf(payload))
              && r.value.errors == Reports(subs, deliver, WireOf(payload))
              && r.value.failed == |r.value.errors|
              && r.value.sent + r.value.failed == |subs|
    ensures r.Some? && |userIds| == 0 ==> r.value == PushSummary(0, 0, [])
  {
    if !IsPushEnabled(publicKey, privateKey) {
      return None;
    }
    if |userIds| == 0 {
      return Some(PushSummary(0, 0, []));
    }
    var subs := SubscriptionsOfUsers(table, userIds);
    var sent, failed, errors := DeliverAll(subs, deliver, WireOf(payload));
    DeliveredPlusReported(subs, deliver, WireOf(payload));
    r := Some(PushSummary(sent, failed, errors));
  }
}
