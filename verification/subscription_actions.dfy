/** The push actions of lib/actions/subscriptions.ts. `user` is what `getAuthenticatedUser`
    answered; a missing user makes the two subscription actions throw "Usuario no
    autenticado" (a `Failure`). `sendAlarmNotification` never throws: every failure
    becomes a `{ success: false }` answer. The outcome of the store read and of the
    web-push call are parameters. */
module SubscriptionActions {
  import opened Wrappers
  import opened Schema
  import opened SubscriptionModel
  import Ordering

  const NOT_AUTHENTICATED: string := "Usuario no autenticado"
  const NO_SUBSCRIPTION: string := "No hay suscripción disponible"
  const SEND_FAILED: string := "Error al enviar notificación"

  /** `subscribeUserPush`: updates the user's subscriptions when they have any, creates
      one otherwise. */
  function SubscribeUserPush(user: Option<User>, table: Table, sub: PushSubscription,
                             freshId: string, now: int, storedAt: int)
    : (r: Result<Table>)
    ensures r.Failure? <==> user.None?
    ensures r.Failure? ==> r.error == NOT_AUTHENTICATED
    ensures r.Success? && Ordering.Count(table, (s: Subscription) => s.userId == user.value.id) > 0 ==>
      r.value == UpdateSubscription(table, user.value.id, sub).0
    ensures r.Success? && Ordering.Count(table, (s: Subscription) => s.userId == user.value.id) == 0 ==>
      r.value == CreateSubscription(table, user.value.id, sub, freshId, now, storedAt).0
  {
    if user.None? then Failure(NOT_AUTHENTICATED)
    else
      var id := user.value.id;
      if |GetSubscriptionsByUserId(table, id)| > 0 then Success(UpdateSubscription(table, id, sub).0)
      else Success(CreateSubscription(table, id, sub, freshId, now, storedAt).0)
  }

  /** After subscribing, the user has at least one subscription and every one of them is
      the one just sent; no other user's subscriptions change. */
  lemma SubscribeStoresPayload(user: User, table: Table, sub: PushSubscription, freshId: string,
                               now: int, storedAt: int, other: string)
    requires other != user.id
    ensures var t := SubscribeUserPush(Some(user), table, sub, freshId, now, storedAt).value;
      var data := GetSubscriptionDataByUserId(t, user.id);
      && |data| > 0
      && (forall i :: 0 <= i < |data| ==> data[i] == sub)
      && GetSubscriptionDataByUserId(t, other) == GetSubscriptionDataByUserId(table, other)
  {
    var id := user.id;
    UpdateThenRead(table, id, sub, id);
    UpdateThenRead(table, id, sub, other);
    if |GetSubscriptionsByUserId(table, id)| == 0 {
      CreateThenRead(table, id, sub, freshId, now, storedAt);
      CreateKeepsOthers(table, id, sub, freshId, now, storedAt, other);
    }
  }

  /** Subscribing twice with the same subscription changes nothing the second time. */
  lemma SubscribeIdempotent(user: User, table: Table, sub: PushSubscription, freshId: string,
                            now: int, storedAt: int, freshId': string, now': int, storedAt': int)
    ensures var t := SubscribeUserPush(Some(user), table, sub, freshId, now, storedAt).value;
      SubscribeUserPush(Some(user), t, sub, freshId', now', storedAt') == Success(t)
  {
    var t := SubscribeUserPush(Some(user), table, sub, freshId, now, storedAt).value;
    SubscribeStoresPayload(user, table, sub, freshId, now, storedAt, user.id + "'");
    SamePayloadUnchanged(t, user.id, sub);
  }

  /** Overwriting a user's subscriptions with the one they all already hold is no change. */
  lemma SamePayloadUnchanged(t: Table, userId: string, sub: PushSubscription)
    requires var data := GetSubscriptionDataByUserId(t, userId);
      forall i :: 0 <= i < |data| ==> data[i] == sub
    ensures SetPayload(t, userId, sub) == t
  {
    var data := GetSubscriptionDataByUserId(t, userId);
    var t' := SetPayload(t, userId, sub);
    forall i | 0 <= i < |t|
      ensures t'[i] == t[i]
    {
      if t[i].userId == userId {
        assert t[i].subscription in data;
      }
    }
  }

  /** `unsubscribeUserPush`: deletes every subscription of the user. */
  function UnsubscribeUserPush(user: Option<User>, table: Table): (r: Result<Table>)
    ensures r.Failure? <==> user.None?
    ensures r.Failure? ==> r.error == NOT_AUTHENTICATED
    ensures r.Success? ==> r.value == DeleteSubscription(table, user.value.id).0
  {
    if user.None? then Failure(NOT_AUTHENTICATED)
    else Success(DeleteSubscription(table, user.value.id).0)
  }

  /** Unsubscribing undoes subscribing: the user has no subscription left and every other
      user reads what they read before either call. */
  lemma SubscribeThenUnsubscribe(user: User, table: Table, sub: PushSubscription, freshId: string,
                                 now: int, storedAt: int, other: string)
    requires other != user.id
    ensures var t := SubscribeUserPush(Some(user), table, sub, freshId, now, storedAt).value;
      var t' := UnsubscribeUserPush(Some(user), t).value;
      && GetSubscriptionsByUserId(t', user.id) == []
      && GetSubscriptionDataByUserId(t', other) == GetSubscriptionDataByUserId(table, other)
  {
    var t := SubscribeUserPush(Some(user), table, sub, freshId, now, storedAt).value;
    SubscribeStoresPayload(user, table, sub, freshId, now, storedAt, other);
    DeleteThenRead(t, user.id, other);
  }

  /** The JSON body of the push: title, body, icon and the `data` object. */
  datatype AlarmPayload = AlarmPayload(title: string, body: string, icon: string,
                                       alarmId: string, userId: string)

  /** One call of `webpush.sendNotification`. */
  datatype Push = Push(to: PushSubscription, payload: AlarmPayload)

  datatype AlarmAnswer = AlarmSent | AlarmFailed(error: string)

  /** `sendAlarmNotification`: pushes the alarm to the first subscription the store hands
      back. `readThrows` and `sendThrows` say whether the query or the push rejected. */
  function SendAlarmNotification(table: Table, alarmId: string, userId: string, message: string,
                                 readThrows: bool, sendThrows: bool)
    : (r: (AlarmAnswer, Option<Push>))
    ensures r.1.Some? <==> !readThrows && |GetSubscriptionDataByUserId(table, userId)| > 0
    ensures r.1.Some? ==>
      r.1.value == Push(GetSubscriptionDataByUserId(table, userId)[0],
                        AlarmPayload("¡Alarma!", message, "/icon.png", alarmId, userId))
    ensures r.0.AlarmSent? <==> r.1.Some? && !sendThrows
    ensures r.0 == AlarmFailed(NO_SUBSCRIPTION)
            <==> !readThrows && |GetSubscriptionDataByUserId(table, userId)| == 0
    ensures readThrows || (r.1.Some? && sendThrows) ==> r.0 == AlarmFailed(SEND_FAILED)
  {
    if readThrows then (AlarmFailed(SEND_FAILED), None)
    else
      var subscriptions := GetSubscriptionDataByUserId(table, userId);
      if |subscriptions| == 0 then (AlarmFailed(NO_SUBSCRIPTION), None)
      else
        var push := Push(subscriptions[0], AlarmPayload("¡Alarma!", message, "/icon.png", alarmId, userId));
        if sendThrows then (AlarmFailed(SEND_FAILED), Some(push)) else (AlarmSent, Some(push))
  }

  /** Once a user has subscribed, an alarm for them is pushed to the subscription they
      sent, whatever they had stored before. */
  lemma AlarmReachesSubscriber(user: User, table: Table, sub: PushSubscription, freshId: string,
                               now: int, storedAt: int, alarmId: string, message: string)
    ensures var t := SubscribeUserPush(Some(user), table, sub, freshId, now, storedAt).value;
      var r := SendAlarmNotification(t, alarmId, user.id, message, false, false);
      r.0 == AlarmSent && r.1.Some? && r.1.value.to == sub
  {
    SubscribeStoresPayload(user, table, sub, freshId, now, storedAt, user.id + "'");
  }
}
