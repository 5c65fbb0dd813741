/** The subscription services of
    src/modules/subscriptions/subscriptions.service.ts: creating a
    subscription by hand (refused when one exists for the same sender),
    listing a user's subscriptions newest first, and the owner-checked
    toggle and removal. */
module Subscriptions {
  import opened Common
  import opened Store
  import Text

  /** Everything but the subscriptions is untouched, and so is every
      subscription other than `id`. */
  predicate OnlySubscriptionChanged(s: Store, t: Store, id: string) {
    && t.users == s.users && t.newsletters == s.newsletters && t.queue == s.queue
    && (forall k :: k in s.subscriptions && k != id ==> k in t.subscriptions && t.subscriptions[k] == s.subscriptions[k])
    && (forall k :: k in t.subscriptions && k != id ==> k in s.subscriptions)
  }

  /** `createSubscription(userId, newsletterName, senderEmail)`. The database
      generates the id (`freshId`) and the creation time (`now`); the column
      defaults give a zero count, no last delivery, and an active flag. */
  function CreateSubscription(s: Store, freshId: string, now: int,
                              userId: string, newsletterName: string, senderEmail: string): (st: Step<Subscription>)
    requires freshId !in s.subscriptions
    ensures st.result.Err? <==> HasSubscription(s, userId, senderEmail)
    ensures st.result.Err? ==>
      st.store == s && st.result.error == Conflict("Subscription already exists for " + senderEmail)
    ensures st.result.Ok? ==>
      var sub := st.result.value;
      && st.store == s.(subscriptions := s.subscriptions[freshId := sub])
      && sub.id == freshId && sub.userId == userId
      && sub.newsletterName == newsletterName && sub.senderEmail == senderEmail
      && sub.senderDomain == Text.DomainPart(senderEmail)
      && sub.emailCount == 0 && sub.lastReceivedAt.None?
      && sub.subscribedAt == now && sub.isActive
  {
    var senderDomain := Text.DomainPart(senderEmail);
    if HasSubscription(s, userId, senderEmail) then
      Step(Err(Conflict("Subscription already exists for " + senderEmail)), s)
    else
      var sub := Subscription(freshId, userId, newsletterName, senderEmail, senderDomain, 0, None, now, true);
      Step(Ok(sub), s.(subscriptions := s.subscriptions[freshId := sub]))
  }

  /** Creation keeps one subscription per (user, sender). */
  lemma CreatePreservesValid(s: Store, freshId: string, now: int,
                             userId: string, newsletterName: string, senderEmail: string)
    requires Valid(s) && freshId !in s.subscriptions
    ensures Valid(CreateSubscription(s, freshId, now, userId, newsletterName, senderEmail).store)
  {
  }

  /** A second creation for the same sender is refused and changes nothing. */
  lemma CreateTwiceConflicts(s: Store, id1: string, id2: string, now1: int, now2: int,
                             userId: string, name1: string, name2: string, senderEmail: string)
    requires id1 !in s.subscriptions
    requires id2 !in CreateSubscription(s, id1, now1, userId, name1, senderEmail).store.subscriptions
    ensures var t := CreateSubscription(s, id1, now1, userId, name1, senderEmail).store;
      CreateSubscription(t, id2, now2, userId, name2, senderEmail) ==
        Step(Err(Conflict("Subscription already exists for " + senderEmail)), t)
  {
    var t := CreateSubscription(s, id1, now1, userId, name1, senderEmail).store;
    if !HasSubscription(s, userId, senderEmail) {
      assert t.subscriptions[id1].userId == userId && t.subscriptions[id1].senderEmail == senderEmail;
    }
  }

  function SubscribedAt(sub: Subscription): int {
    sub.subscribedAt
  }

  /** `fetchSubscriptions(userId)`: the caller's subscriptions, each once,
      newest first. */
  method FetchSubscriptions(s: Store, userId: string) returns (rows: seq<Subscription>)
    ensures SortedDesc(rows, SubscribedAt)
    ensures forall sub :: sub in rows <==> sub in s.subscriptions.Values && sub.userId == userId
    ensures |rows| == |Selected(s.subscriptions, (sub: Subscription) => sub.userId == userId)|
  {
    rows := ListSorted(s.subscriptions, (sub: Subscription) => sub.userId == userId, SubscribedAt);
  }

  /** The caller owns a subscription with this id. */
  predicate Owns(s: Store, id: string, userId: string) {
    id in s.subscriptions && s.subscriptions[id].userId == userId
  }

  /** `updateSubscription(id, userId, isActive)`: owner-checked; only the
      active flag of that one subscription changes. */
  function UpdateSubscription(s: Store, id: string, userId: string, isActive: bool): (st: Step<Subscription>)
    ensures st.result.Err? <==> !Owns(s, id, userId)
    ensures st.result.Err? ==>
      st.store == s && st.result.error == NotFound("Subscription not found: " + id)
    ensures st.result.Ok? ==>
      && id in st.store.subscriptions
      && st.result.value == st.store.subscriptions[id]
      && st.result.value == s.subscriptions[id].(isActive := isActive)
      && OnlySubscriptionChanged(s, st.store, id)
  {
    if !Owns(s, id, userId) then Step(Err(NotFound("Subscription not found: " + id)), s)
    else
      var updated := s.subscriptions[id].(isActive := isActive);
      Step(Ok(updated), s.(subscriptions := s.subscriptions[id := updated]))
  }

  /** `deleteSubscription(id, userId)`: owner-checked; removes that one
      subscription. */
  function DeleteSubscription(s: Store, id: string, userId: string): (st: Step<bool>)
    ensures st.result.Err? <==> !Owns(s, id, userId)
    ensures st.result.Err? ==>
      st.store == s && st.result.error == NotFound("Subscription not found: " + id)
    ensures st.result.Ok? ==>
      && st.result.value
      && st.store.subscriptions.Keys == s.subscriptions.Keys - {id}
      && OnlySubscriptionChanged(s, st.store, id)
  {
    if !Owns(s, id, userId) then Step(Err(NotFound("Subscription not found: " + id)), s)
    else Step(Ok(true), s.(subscriptions := s.subscriptions - {id}))
  }

  /** Toggling and removal keep the store's unique constraints. */
  lemma UpdateDeletePreserveValid(s: Store, id: string, userId: string, isActive: bool)
    requires Valid(s)
    ensures Valid(UpdateSubscription(s, id, userId, isActive).store)
    ensures Valid(DeleteSubscription(s, id, userId).store)
  {
  }

  /** After removal the sender may be subscribed to afresh. */
  lemma DeleteThenCreate(s: Store, id: string, userId: string, freshId: string, now: int, name: string)
    requires Valid(s) && Owns(s, id, userId)
    requires freshId !in DeleteSubscription(s, id, userId).store.subscriptions
    ensures var t := DeleteSubscription(s, id, userId).store;
      CreateSubscription(t, freshId, now, userId, name, s.subscriptions[id].senderEmail).result.Ok?
  {
    var t := DeleteSubscription(s, id, userId).store;
    var email := s.subscriptions[id].senderEmail;
    forall k | k in t.subscriptions
      ensures !(t.subscriptions[k].userId == userId && t.subscriptions[k].senderEmail == email)
    {
      assert k in s.subscriptions && k != id;
    }
  }
}
