/** The push-subscription store of lib/models/subscription.ts on a table of rows. The
    JSON column is represented by the subscription it encodes (`JSON.stringify` on the
    way in and `JSON.parse` on the way out cancel). `created_at` is filled in by the
    database, so its value is a parameter of `createSubscription`. */
module SubscriptionModel {
  import Ordering

  /** The browser's `PushSubscription`: its endpoint and its two keys. */
  datatype PushSubscription = PushSubscription(endpoint: string, p256dh: string, auth: string)

  /** A row of `subscriptions`, and the `Subscription` the model functions return. */
  datatype Subscription = Subscription(id: string, userId: string, subscription: PushSubscription,
                                       createdAt: int)

  type Table = seq<Subscription>

  function ByNewest(r: Subscription): int {
    r.createdAt
  }

  function PayloadOf(r: Subscription): PushSubscription {
    r.subscription
  }

  /** `WHERE user_id = ?`. */
  function RowsOfUser(table: Table, userId: string): seq<Subscription> {
    Ordering.Filter(table, (r: Subscription) => r.userId == userId)
  }

  /** `getSubscriptionsByUserId`: every subscription of the user, newest first. */
  function GetSubscriptionsByUserId(table: Table, userId: string): (ss: seq<Subscription>)
    ensures |ss| == Ordering.Count(table, (r: Subscription) => r.userId == userId)
    ensures forall i :: 0 <= i < |ss| ==> ss[i].userId == userId && ss[i] in table
    ensures forall i, j :: 0 <= i < j < |ss| ==> ss[i].createdAt >= ss[j].createdAt
    ensures forall i :: 0 <= i < |table| && table[i].userId == userId ==> table[i] in ss
  {
    ListingFacts(table, userId);
    Ordering.SortDesc(RowsOfUser(table, userId), ByNewest)
  }

  lemma ListingFacts(table: Table, userId: string)
    ensures var ss := Ordering.SortDesc(RowsOfUser(table, userId), ByNewest);
      && |ss| == Ordering.Count(table, (r: Subscription) => r.userId == userId)
      && (forall i :: 0 <= i < |ss| ==> ss[i].userId == userId && ss[i] in table)
      && (forall i, j :: 0 <= i < j < |ss| ==> ss[i].createdAt >= ss[j].createdAt)
      && (forall i :: 0 <= i < |table| && table[i].userId == userId ==> table[i] in ss)
  {
    var mine := RowsOfUser(table, userId);
    var ss := Ordering.SortDesc(mine, ByNewest);
    Ordering.CountIsFilterLength(table, (r: Subscription) => r.userId == userId);
    forall i | 0 <= i < |ss|
      ensures ss[i].userId == userId && ss[i] in table
    {
      assert ss[i] in multiset(mine);
    }
    forall i, j | 0 <= i < j < |ss|
      ensures ss[i].createdAt >= ss[j].createdAt
    {
      assert ByNewest(ss[i]) >= ByNewest(ss[j]);
    }
    forall i | 0 <= i < |table| && table[i].userId == userId
      ensures table[i] in ss
    {
      assert table[i] in mine;
      assert table[i] in multiset(ss);
    }
  }

  /** `getSubscriptionDataByUserId`: the user's subscriptions without the row around them.
      The query has no `ORDER BY`; the model answers in storage order. */
  function GetSubscriptionDataByUserId(table: Table, userId: string): (ps: seq<PushSubscription>)
    ensures |ps| == Ordering.Count(table, (r: Subscription) => r.userId == userId)
    ensures forall i :: 0 <= i < |table| && table[i].userId == userId ==> table[i].subscription in ps
  {
    var mine := RowsOfUser(table, userId);
    Ordering.CountIsFilterLength(table, (r: Subscription) => r.userId == userId);
    assert forall i :: 0 <= i < |table| && table[i].userId == userId ==> table[i] in mine;
    Ordering.Map(mine, PayloadOf)
  }

  /** The two reads agree: the same subscriptions, as often, in possibly different order. */
  lemma DataMatchesListing(table: Table, userId: string)
    ensures multiset(GetSubscriptionDataByUserId(table, userId))
         == multiset(Ordering.Map(GetSubscriptionsByUserId(table, userId), PayloadOf))
  {
    Ordering.MapOfSortDesc(RowsOfUser(table, userId), ByNewest, PayloadOf);
  }

  /** The row `createSubscription` inserts: a fresh uuid and the database's timestamp. */
  function NewRow(freshId: string, userId: string, sub: PushSubscription, storedAt: int): Subscription {
    Subscription(freshId, userId, sub, storedAt)
  }

  /** `createSubscription`: one row more; the object handed back carries the
      application's clock `now` instead of the stored timestamp. */
  function CreateSubscription(table: Table, userId: string, sub: PushSubscription, freshId: string,
                              now: int, storedAt: int)
    : (r: (Table, Subscription))
    ensures |r.0| == |table| + 1 && r.0[..|table|] == table
    ensures r.0[|table|] == NewRow(freshId, userId, sub, storedAt)
    ensures r.1 == Subscription(freshId, userId, sub, now)
  {
    var row := NewRow(freshId, userId, sub, storedAt);
    assert (table + [row])[..|table|] == table;
    (table + [row], row.(createdAt := now))
  }

  /** After a create the user has one more subscription, the new one last in storage
      order and present in the newest-first listing. */
  lemma CreateThenRead(table: Table, userId: string, sub: PushSubscription, freshId: string,
                       now: int, storedAt: int)
    ensures var t := CreateSubscription(table, userId, sub, freshId, now, storedAt).0;
      && GetSubscriptionDataByUserId(t, userId) == GetSubscriptionDataByUserId(table, userId) + [sub]
      && NewRow(freshId, userId, sub, storedAt) in GetSubscriptionsByUserId(t, userId)
  {
    var row := NewRow(freshId, userId, sub, storedAt);
    var t := CreateSubscription(table, userId, sub, freshId, now, storedAt).0;
    assert RowsOfUser(t, userId) == RowsOfUser(table, userId) + [row] by {
      assert t == table + [row];
      Ordering.FilterAppend(table, row, (r: Subscription) => r.userId == userId);
    }
    assert GetSubscriptionDataByUserId(t, userId) == GetSubscriptionDataByUserId(table, userId) + [sub] by {
      Ordering.MapConcat(RowsOfUser(table, userId), [row], PayloadOf);
    }
    assert row in GetSubscriptionsByUserId(t, userId) by {
      assert t[|table|] == row;
    }
  }

  /** A create leaves what every other user reads unchanged. */
  lemma CreateKeepsOthers(table: Table, userId: string, sub: PushSubscription, freshId: string,
                          now: int, storedAt: int, other: string)
    requires other != userId
    ensures var t := CreateSubscription(table, userId, sub, freshId, now, storedAt).0;
      GetSubscriptionDataByUserId(t, other) == GetSubscriptionDataByUserId(table, other)
  {
    var row := NewRow(freshId, userId, sub, storedAt);
    Ordering.FilterAppend(table, row, (r: Subscription) => r.userId == other);
  }

  /** `SET subscription = ?` on the rows of `WHERE user_id = ?`. */
  function SetPayload(table: Table, userId: string, sub: PushSubscription): (t: Table)
    ensures |t| == |table|
    ensures forall i :: 0 <= i < |table| ==>
      t[i] == (if table[i].userId == userId then table[i].(subscription := sub) else table[i])
  {
    Ordering.Map(table, (r: Subscription) => if r.userId == userId then r.(subscription := sub) else r)
  }

  /** `updateSubscription`: overwrites the subscription of every row of the user; true
      when at least one row matched. */
  function UpdateSubscription(table: Table, userId: string, sub: PushSubscription): (r: (Table, bool))
    ensures r.0 == SetPayload(table, userId, sub)
    ensures r.1 <==> exists i :: 0 <= i < |table| && table[i].userId == userId
  {
    (SetPayload(table, userId, sub), Ordering.Count(table, (r: Subscription) => r.userId == userId) > 0)
  }

  /** After an update, the user reads the new subscription once for every row they had,
      and every other user reads what they read before. */
  lemma {:induction false} UpdateThenRead(table: Table, userId: string, sub: PushSubscription, v: string)
    ensures var after := GetSubscriptionDataByUserId(SetPayload(table, userId, sub), v);
      && (v == userId ==> |after| == |GetSubscriptionDataByUserId(table, v)|
                          && forall i :: 0 <= i < |after| ==> after[i] == sub)
      && (v != userId ==> after == GetSubscriptionDataByUserId(table, v))
  {
    if |table| > 0 {
      var t := SetPayload(table, userId, sub);
      assert t[1..] == SetPayload(table[1..], userId, sub);
      UpdateThenRead(table[1..], userId, sub, v);
      var rest := RowsOfUser(t[1..], v);
      if t[0].userId == v {
        Ordering.MapConcat([t[0]], rest, PayloadOf);
        Ordering.MapConcat([table[0]], RowsOfUser(table[1..], v), PayloadOf);
        assert ([t[0]] + rest)[1..] == rest;
      }
    }
  }

  /** `DELETE FROM subscriptions WHERE user_id = ?`. */
  function WithoutUser(table: Table, userId: string): Table {
    Ordering.Filter(table, (r: Subscription) => r.userId != userId)
  }

  /** `deleteSubscription`: removes every row of the user, keeping the rest in order;
      true when something was removed. */
  function DeleteSubscription(table: Table, userId: string): (r: (Table, bool))
    ensures forall i :: 0 <= i < |r.0| ==> r.0[i].userId != userId
    ensures Ordering.IsSubsequence(r.0, table)
    ensures forall i :: 0 <= i < |table| && table[i].userId != userId ==> table[i] in r.0
    ensures |r.0| + Ordering.Count(table, (r: Subscription) => r.userId == userId) == |table|
    ensures r.1 <==> |r.0| < |table|
  {
    var kept := WithoutUser(table, userId);
    Ordering.CountIsFilterLength(table, (r: Subscription) => r.userId == userId);
    Ordering.FilterSplits(table, (r: Subscription) => r.userId == userId,
                          (r: Subscription) => r.userId != userId);
    (kept, |kept| < |table|)
  }

  /** After a delete the user has no subscription; the other users read what they read
      before. */
  lemma DeleteThenRead(table: Table, userId: string, v: string)
    ensures GetSubscriptionsByUserId(DeleteSubscription(table, userId).0, userId) == []
    ensures v != userId ==>
      GetSubscriptionDataByUserId(DeleteSubscription(table, userId).0, v)
      == GetSubscriptionDataByUserId(table, v)
  {
    if v != userId {
      Ordering.FilterOfFilter(table, (r: Subscription) => r.userId != userId,
                              (r: Subscription) => r.userId == v);
    }
  }
}
