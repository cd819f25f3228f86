/**
 * subscription.controller.js: subscribing to and unsubscribing from a
 * channel, a channel's subscribers, and the channels a user subscribes to.
 */
module SubscriptionController {
  import opened Wrappers
  import opened Entities
  import opened EntityStore
  import Rows

  datatype SubscriptionState = SubscriptionState(subscribed: bool)

  /** The row `findOne({channel, subscriber})` looks for. */
  predicate SubscriptionOf(x: Subscription, subscriber: Id, channel: Id) {
    x.subscriber == subscriber && x.channel == channel
  }

  /**
   * The store change of one toggle: a row of the pair (the model takes the
   * first the lookup meets) is deleted, or, when there is none, a row with id
   * `id` is appended. The flag says whether a row was created.
   */
  function SubscriptionToggle(subs: seq<Subscription>, subscriber: Id, channel: Id, id: Id)
    : (r: (seq<Subscription>, bool))
    ensures r.1 <==> !IsSubscribed(subs, subscriber, channel)
    ensures r.1 ==> r.0 == subs + [Subscription(id, subscriber, channel)]
    ensures !r.1 ==> |r.0| == |subs| - 1 && forall x :: x in r.0 ==> x in subs
  {
    match Rows.FirstIndex(subs, (x: Subscription) => SubscriptionOf(x, subscriber, channel))
    case Some(i) =>
      assert subs[i] in subs;
      (Rows.RemoveAt(subs, i), false)
    case None =>
      assert forall x :: x in subs ==> !SubscriptionOf(x, subscriber, channel) by {
        forall x | x in subs ensures !SubscriptionOf(x, subscriber, channel) {
          var k :| 0 <= k < |subs| && subs[k] == x;
        }
      }
      (subs + [Subscription(id, subscriber, channel)], true)
  }

  /** Deleting the only row of the pair leaves the pair unsubscribed. */
  lemma RemovedPairIsGone(subs: seq<Subscription>, i: nat)
    requires i < |subs| && SubscriptionPairsUnique(subs)
    ensures forall x :: x in Rows.RemoveAt(subs, i) ==> SubscriptionPair(x) != SubscriptionPair(subs[i])
  {
    Rows.RemoveAtRemovesKey(subs, i, SubscriptionPair);
    var r := Rows.RemoveAt(subs, i);
    forall x | x in r ensures SubscriptionPair(x) != SubscriptionPair(subs[i]) {
      var k :| 0 <= k < |r| && r[k] == x;
    }
  }

  /**
   * A toggle keeps at most one row per pair and no self-subscription, and its
   * flag tells whether the pair is subscribed afterwards.
   */
  lemma ToggleKeepsInvariants(subs: seq<Subscription>, subscriber: Id, channel: Id, id: Id)
    requires SubscriptionPairsUnique(subs) && NoSelfSubscription(subs) && subscriber != channel
    ensures SubscriptionPairsUnique(SubscriptionToggle(subs, subscriber, channel, id).0)
    ensures NoSelfSubscription(SubscriptionToggle(subs, subscriber, channel, id).0)
    ensures SubscriptionToggle(subs, subscriber, channel, id).1
        <==> IsSubscribed(SubscriptionToggle(subs, subscriber, channel, id).0, subscriber, channel)
  {
    var r := SubscriptionToggle(subs, subscriber, channel, id);
    match Rows.FirstIndex(subs, (x: Subscription) => SubscriptionOf(x, subscriber, channel))
    case Some(i) =>
      Rows.RemoveAtKeepsDistinct(subs, i, SubscriptionPair);
      RemovedPairIsGone(subs, i);
      forall k | 0 <= k < |r.0| ensures r.0[k].subscriber != r.0[k].channel {
        if k < i { assert r.0[k] == subs[k]; } else { assert r.0[k] == subs[k + 1]; }
      }
    case None =>
      var n := Subscription(id, subscriber, channel);
      forall j | 0 <= j < |subs| ensures SubscriptionPair(subs[j]) != SubscriptionPair(n) {
        assert subs[j] in subs;
      }
      Rows.AppendKeepsDistinct(subs, n, SubscriptionPair);
      assert r.0[|subs|] == n;
  }

  /** A toggle leaves the rows of every other pair in place. */
  lemma ToggleKeepsOtherPairs(subs: seq<Subscription>, subscriber: Id, channel: Id, id: Id)
    ensures forall x :: !SubscriptionOf(x, subscriber, channel) ==>
      (x in SubscriptionToggle(subs, subscriber, channel, id).0 <==> x in subs)
  {
    var r := SubscriptionToggle(subs, subscriber, channel, id).0;
    match Rows.FirstIndex(subs, (x: Subscription) => SubscriptionOf(x, subscriber, channel))
    case Some(i) =>
      forall x | !SubscriptionOf(x, subscriber, channel) ensures x in r <==> x in subs {
        if x in subs {
          var k :| 0 <= k < |subs| && subs[k] == x;
          assert k != i;
          if k < i { assert r[k] == x; } else { assert r[k - 1] == x; }
        }
        if x in r {
          var k :| 0 <= k < |r| && r[k] == x;
          if k < i { assert subs[k] == x; } else { assert subs[k + 1] == x; }
        }
      }
    case None =>
  }

  /** Toggling the same pair twice restores whether it is subscribed; from an unsubscribed pair, exactly. */
  lemma ToggleTwiceRestores(subs: seq<Subscription>, subscriber: Id, channel: Id, id1: Id, id2: Id)
    requires SubscriptionPairsUnique(subs) && NoSelfSubscription(subs) && subscriber != channel
    ensures
      var first := SubscriptionToggle(subs, subscriber, channel, id1);
      var second := SubscriptionToggle(first.0, subscriber, channel, id2);
      && second.1 == !first.1
      && (IsSubscribed(second.0, subscriber, channel) <==> IsSubscribed(subs, subscriber, channel))
      && (!IsSubscribed(subs, subscriber, channel) ==> second.0 == subs)
  {
    var first := SubscriptionToggle(subs, subscriber, channel, id1);
    ToggleKeepsInvariants(subs, subscriber, channel, id1);
    ToggleKeepsInvariants(first.0, subscriber, channel, id2);
    if !IsSubscribed(subs, subscriber, channel) {
      var n := Subscription(id1, subscriber, channel);
      assert first.0 == subs + [n];
      assert forall j :: 0 <= j < |subs| ==> first.0[j] == subs[j] && subs[j] in subs;
      assert Rows.FirstIndex(first.0, (x: Subscription) => SubscriptionOf(x, subscriber, channel)) == Some(|subs|);
      assert SubscriptionToggle(first.0, subscriber, channel, id2).0 == Rows.RemoveAt(first.0, |subs|);
      assert Rows.RemoveAt(first.0, |subs|) == subs;
    }
  }

  /** A toggle with a fresh id keeps row ids unique and below the counter it advances on a create. */
  lemma ToggleKeepsIds(subs: seq<Subscription>, subscriber: Id, channel: Id, id: Id)
    requires Rows.DistinctKeys(subs, SubscriptionKey) && forall j :: 0 <= j < |subs| ==> subs[j].id < id
    ensures var t := SubscriptionToggle(subs, subscriber, channel, id);
      && Rows.DistinctKeys(t.0, SubscriptionKey)
      && forall j :: 0 <= j < |t.0| ==> t.0[j].id < (if t.1 then id + 1 else id)
  {
    var t := SubscriptionToggle(subs, subscriber, channel, id);
    match Rows.FirstIndex(subs, (x: Subscription) => SubscriptionOf(x, subscriber, channel))
    case Some(i) =>
      Rows.RemoveAtKeepsDistinct(subs, i, SubscriptionKey);
      forall j | 0 <= j < |t.0| ensures t.0[j].id < id {
        if j < i { assert t.0[j] == subs[j]; } else { assert t.0[j] == subs[j + 1]; }
      }
    case None =>
      Rows.AppendKeepsDistinct(subs, Subscription(id, subscriber, channel), SubscriptionKey);
  }

  /** Whether the caller subscribes to the channel after a toggle that created (true) or deleted (false) a row. */
  method ToggleSubscription(s: Store, channelId: Id, caller: Option<Id>) returns (r: Response<SubscriptionState>)
    requires s.Valid()
    modifies s`subscriptions, s`nextId
    ensures s.Valid()
    ensures r.Failure? ==> s.subscriptions == old(s.subscriptions) && s.nextId == old(s.nextId)
    ensures !s.isValidObjectId(channelId) ==> r == Failure(400, "Invalid channel ID")
    ensures s.isValidObjectId(channelId) && caller.None? ==> r == Failure(401, "Unauthorized request")
    ensures s.isValidObjectId(channelId) && caller.Some? && caller.value == channelId ==>
      r == Failure(400, "You cannot subscribe to your own channel")
    ensures s.isValidObjectId(channelId) && caller.Some? && caller.value != channelId ==>
      var t := SubscriptionToggle(old(s.subscriptions), caller.value, channelId, old(s.nextId));
      && r == (if t.1 then Success(201, SubscriptionState(true)) else Success(200, SubscriptionState(false)))
      && s.subscriptions == t.0
      && s.nextId == (if t.1 then old(s.nextId) + 1 else old(s.nextId))
    ensures old(SubscriptionPairsUnique(s.subscriptions)) && old(NoSelfSubscription(s.subscriptions)) ==>
      && SubscriptionPairsUnique(s.subscriptions) && NoSelfSubscription(s.subscriptions)
      && (r.Success? ==> (r.data.subscribed <==> IsSubscribed(s.subscriptions, caller.value, channelId)))
  {
    if !s.isValidObjectId(channelId) {
      return Failure(400, "Invalid channel ID");
    }
    if caller.None? {
      return Failure(401, "Unauthorized request");
    }
    var u := caller.value;
    if channelId == u {
      return Failure(400, "You cannot subscribe to your own channel");
    }
    var t := SubscriptionToggle(s.subscriptions, u, channelId, s.nextId);
    if SubscriptionPairsUnique(s.subscriptions) && NoSelfSubscription(s.subscriptions) {
      ToggleKeepsInvariants(s.subscriptions, u, channelId, s.nextId);
    }
    ToggleKeepsIds(s.subscriptions, u, channelId, s.nextId);
    s.subscriptions := t.0;
    if t.1 {
      s.nextId := s.nextId + 1;
      return Success(201, SubscriptionState(true));
    } else {
      return Success(200, SubscriptionState(false));
    }
  }

  // -------------------------------------------------------------- listings

  function SubscriberOf(x: Subscription): Id { x.subscriber }
  function ChannelOf(x: Subscription): Id { x.channel }

  /** The subscription rows of `channel` whose subscriber joins a user row, in store order. */
  function ChannelSubscriptionRows(db: Db, channel: Id): (r: seq<Subscription>)
    ensures forall x :: x in r <==>
      x in db.subscriptions && x.channel == channel && x.subscriber in db.watchHistory
    ensures forall x :: multiset(r)[x] ==
                        if x.channel == channel && x.subscriber in db.watchHistory
                        then multiset(db.subscriptions)[x] else 0
    ensures SubscriptionPairsUnique(db.subscriptions) ==> SubscriptionPairsUnique(r)
  {
    var keep := (x: Subscription) => x.channel == channel && x.subscriber in db.watchHistory;
    assert SubscriptionPairsUnique(db.subscriptions) ==> SubscriptionPairsUnique(Rows.Filter(db.subscriptions, keep)) by {
      if SubscriptionPairsUnique(db.subscriptions) {
        Rows.FilterKeepsDistinct(db.subscriptions, keep, SubscriptionPair);
      }
    }
    Rows.Filter(db.subscriptions, keep)
  }

  /**
   * A subscriber as the join's sub-pipeline describes it: how many subscribe
   * to the subscriber, and whether the channel subscribes back.
   */
  datatype SubscriberEntry = SubscriberEntry(subscriber: Id, subscribersCount: nat, subscribedToSubscriber: bool)

  function SubscriberEntryOf(db: Db, channel: Id, x: Subscription): SubscriberEntry {
    var list := SubscriptionsTo(db.subscriptions, x.subscriber);
    SubscriberEntry(x.subscriber, |list|, exists y :: y in list && y.subscriber == channel)
  }

  /**
   * The rows getUserChannelSubscribers means to return: one entry per
   * subscription to `channel` whose subscriber is a user, in store order,
   * each carrying the subscriber's own subscriber count and whether the
   * channel subscribes back.
   */
  function ChannelSubscribers(db: Db, channel: Id): (r: seq<SubscriberEntry>)
    ensures |r| == |ChannelSubscriptionRows(db, channel)|
    ensures forall k :: 0 <= k < |r| ==> r[k].subscriber == ChannelSubscriptionRows(db, channel)[k].subscriber
    ensures forall u :: (exists e :: e in r && e.subscriber == u) <==>
      IsSubscribed(db.subscriptions, u, channel) && u in db.watchHistory
    ensures forall e :: e in r ==>
      && e.subscribersCount == |SubscriptionsTo(db.subscriptions, e.subscriber)|
      && (e.subscribedToSubscriber <==> IsSubscribed(db.subscriptions, channel, e.subscriber))
  {
    var rows := ChannelSubscriptionRows(db, channel);
    var r := Rows.Map(rows, (x: Subscription) => SubscriberEntryOf(db, channel, x));
    forall u | IsSubscribed(db.subscriptions, u, channel) && u in db.watchHistory
      ensures exists e :: e in r && e.subscriber == u
    {
      var x :| x in db.subscriptions && x.subscriber == u && x.channel == channel;
      assert x in rows && SubscriberEntryOf(db, channel, x) in r;
    }
    forall e | e in r
      ensures && IsSubscribed(db.subscriptions, e.subscriber, channel) && e.subscriber in db.watchHistory
              && e.subscribersCount == |SubscriptionsTo(db.subscriptions, e.subscriber)|
              && (e.subscribedToSubscriber <==> IsSubscribed(db.subscriptions, channel, e.subscriber))
    {
      var x :| x in rows && e == SubscriberEntryOf(db, channel, x);
    }
    r
  }

  /** With one row per pair, no subscriber is listed twice. */
  lemma ChannelSubscribersDistinct(db: Db, channel: Id)
    requires SubscriptionPairsUnique(db.subscriptions)
    ensures var r := ChannelSubscribers(db, channel);
      forall i, j :: 0 <= i < j < |r| ==> r[i].subscriber != r[j].subscriber
  {
    var rows := ChannelSubscriptionRows(db, channel);
    var r := ChannelSubscribers(db, channel);
    forall i, j | 0 <= i < j < |r| ensures r[i].subscriber != r[j].subscriber {
      assert rows[i] in rows && rows[j] in rows;
      assert SubscriptionPair(rows[i]) != SubscriptionPair(rows[j]);
    }
  }

  /** The store's answer to the join stage's unknown `pipeLine` argument. */
  const UnknownLookupArgument: string := "unknown argument to $lookup: pipeLine"

  /**
   * getUserChannelSubscribers as written: 400 on a malformed id; for every
   * well-formed id the store rejects the join stage, whose sub-pipeline key
   * is spelled `pipeLine`, so the request fails and lists nothing.
   */
  function GetUserChannelSubscribers(db: Db, isValidObjectId: Id -> bool, channelId: Id)
    : (r: Response<seq<SubscriberEntry>>)
    ensures !isValidObjectId(channelId) <==> r == Failure(400, "Invalid channel ID")
    ensures isValidObjectId(channelId) ==> r == Failure(500, UnknownLookupArgument)
    ensures !r.Success?
  {
    if !isValidObjectId(channelId) then Failure(400, "Invalid channel ID")
    else Failure(500, UnknownLookupArgument)
  }

  /** getUserChannelSubscribers with the sub-pipeline key spelled `pipeline`: 400, or the list with status 200. */
  function GetUserChannelSubscribersIntended(db: Db, isValidObjectId: Id -> bool, channelId: Id)
    : (r: Response<seq<SubscriberEntry>>)
    ensures !isValidObjectId(channelId) <==> r == Failure(400, "Invalid channel ID")
    ensures isValidObjectId(channelId) ==> r == Success(200, ChannelSubscribers(db, channelId))
  {
    if !isValidObjectId(channelId) then Failure(400, "Invalid channel ID")
    else Success(200, ChannelSubscribers(db, channelId))
  }

  /**
   * A channel with one subscriber: the intended handler lists that subscriber,
   * the handler as written fails.
   */
  lemma SubscriberListedOnlyWhenIntended(valid: Id -> bool, channel: Id, fan: Id)
    requires valid(channel) && channel != fan
    ensures
      var db := Db([], [], [], [], [Subscription(0, fan, channel)], map[channel := [], fan := []]);
      && GetUserChannelSubscribers(db, valid, channel).Failure?
      && GetUserChannelSubscribersIntended(db, valid, channel).Success?
      && |GetUserChannelSubscribersIntended(db, valid, channel).data| == 1
      && GetUserChannelSubscribersIntended(db, valid, channel).data[0].subscriber == fan
  {
    var db := Db([], [], [], [], [Subscription(0, fan, channel)], map[channel := [], fan := []]);
    var x := Subscription(0, fan, channel);
    var rows := ChannelSubscriptionRows(db, channel);
    assert multiset(rows)[x] == 1;
    forall y ensures y in rows ==> y == x {
      if y in rows { assert y in db.subscriptions; }
    }
    assert rows == [x] by {
      assert x in rows;
      assert multiset(rows) == multiset{x} by {
        forall y ensures multiset(rows)[y] == multiset{x}[y] {
          if y != x { assert y !in rows; }
        }
      }
      assert |rows| == |multiset(rows)| == 1;
      assert rows[0] in rows;
    }
  }

  /**
   * The `$sort: {createdAt: -1}` then `$limit: 1` join: a newest video of the
   * owner, published or not, the first in store order among equals.
   */
  function LatestVideo(videos: seq<Video>, owner: Id): (r: Option<Video>)
    ensures r.None? <==> forall v :: v in videos ==> v.owner != owner
    ensures r.Some? ==> r.value in videos && r.value.owner == owner
    ensures r.Some? ==> forall v :: v in videos && v.owner == owner ==> v.createdAt <= r.value.createdAt
  {
    var owned := VideosBy(videos, owner);
    var sorted := Rows.Sort(owned, VideoCreatedAt, false);
    Rows.SortKeepsRows(owned, VideoCreatedAt, false);
    if sorted == [] then None
    else
      assert sorted[0] in sorted;
      assert forall v :: v in sorted ==> v.createdAt <= sorted[0].createdAt by {
        forall v | v in sorted ensures v.createdAt <= sorted[0].createdAt {
          var k :| 0 <= k < |sorted| && sorted[k] == v;
          if k > 0 { assert Rows.InOrder(VideoCreatedAt(sorted[0]), VideoCreatedAt(sorted[k]), false); }
        }
      }
      Some(sorted[0])
  }

  /** A subscribed channel with its newest video. */
  datatype ChannelEntry = ChannelEntry(channel: Id, latestVideo: Option<Video>)

  /** One entry per row, in order: the row's channel with that channel's newest video. */
  function Entries(latest: Id -> Option<Video>, rows: seq<Subscription>): (r: seq<ChannelEntry>)
    ensures |r| == |rows|
    ensures forall k :: 0 <= k < |r| ==> r[k] == ChannelEntry(rows[k].channel, latest(rows[k].channel))
  {
    if rows == [] then []
    else [ChannelEntry(rows[0].channel, latest(rows[0].channel))] + Entries(latest, rows[1..])
  }

  /** Every entry comes from a row and carries its channel's lookup, and every row has an entry. */
  lemma EntriesCover(latest: Id -> Option<Video>, rows: seq<Subscription>)
    ensures forall e :: e in Entries(latest, rows) ==>
              e.latestVideo == latest(e.channel) && exists x :: x in rows && x.channel == e.channel
    ensures forall x :: x in rows ==> exists e :: e in Entries(latest, rows) && e.channel == x.channel
  {
    var r := Entries(latest, rows);
    forall e | e in r ensures e.latestVideo == latest(e.channel) && exists x :: x in rows && x.channel == e.channel {
      var k :| 0 <= k < |r| && r[k] == e;
      assert rows[k] in rows;
    }
    forall x | x in rows ensures exists e :: e in r && e.channel == x.channel {
      var k :| 0 <= k < |rows| && rows[k] == x;
      assert r[k] in r;
    }
  }

  /** The subscription rows of `u` whose channel joins a user row, in store order. */
  function SubscriptionRowsOf(db: Db, u: Id): (r: seq<Subscription>)
    ensures forall x :: x in r <==> x in db.subscriptions && x.subscriber == u && x.channel in db.watchHistory
    ensures forall x :: multiset(r)[x] ==
                        if x.subscriber == u && x.channel in db.watchHistory
                        then multiset(db.subscriptions)[x] else 0
  {
    Rows.Filter(db.subscriptions, (x: Subscription) => x.subscriber == u && x.channel in db.watchHistory)
  }

  /** getSubscribedChannels's rows: one entry per subscription of `u` to a user, in store order. */
  function SubscribedChannels(db: Db, u: Id): (r: seq<ChannelEntry>)
    ensures |r| == |SubscriptionRowsOf(db, u)|
    ensures forall k :: 0 <= k < |r| ==> r[k].channel == SubscriptionRowsOf(db, u)[k].channel
    ensures forall e :: e in r ==>
      && IsSubscribed(db.subscriptions, u, e.channel) && e.channel in db.watchHistory
      && e.latestVideo == LatestVideo(db.videos, e.channel)
    ensures forall c :: IsSubscribed(db.subscriptions, u, c) && c in db.watchHistory ==>
      exists e :: e in r && e.channel == c
  {
    var joined := SubscriptionRowsOf(db, u);
    var latest := (c: Id) => LatestVideo(db.videos, c);
    var r := Entries(latest, joined);
    EntriesCover(latest, joined);
    forall e | e in r ensures IsSubscribed(db.subscriptions, u, e.channel) && e.channel in db.watchHistory {
      var x :| x in joined && x.channel == e.channel;
    }
    forall c | IsSubscribed(db.subscriptions, u, c) && c in db.watchHistory ensures exists e :: e in r && e.channel == c {
      var x :| x in db.subscriptions && x.subscriber == u && x.channel == c;
      assert x in joined;
    }
    r
  }

  /** getSubscribedChannels: 400 on a malformed id, otherwise the list with status 200. */
  function GetSubscribedChannels(db: Db, isValidObjectId: Id -> bool, subscriberId: Id): (r: Response<seq<ChannelEntry>>)
    ensures !isValidObjectId(subscriberId) <==> r == Failure(400, "Invalid subscriber ID")
    ensures isValidObjectId(subscriberId) ==> r == Success(200, SubscribedChannels(db, subscriberId))
  {
    if !isValidObjectId(subscriberId) then Failure(400, "Invalid subscriber ID")
    else Success(200, SubscribedChannels(db, subscriberId))
  }
}
