/**
 * dashboard.controller.js: the caller's channel totals and the caller's own
 * video list.
 */
module DashboardController {
  import opened Wrappers
  import opened Entities
  import Rows
  import VideoController

  datatype Stats = Stats(totalSubscribers: nat, totalLikes: nat, totalViews: nat, totalVideos: nat)

  /** `$sum: "$views"` over the owner's videos. */
  function ChannelViews(videos: seq<Video>, owner: Id): nat {
    if videos == [] then 0
    else (if videos[0].owner == owner then videos[0].views else 0) + ChannelViews(videos[1..], owner)
  }

  /** `$sum: {$size: "$likes"}` over the owner's videos, each joined with the likes on it. */
  function ChannelLikes(videos: seq<Video>, likes: seq<Like>, owner: Id): nat {
    if videos == [] then 0
    else (if videos[0].owner == owner then |LikesOn(likes, OnVideo(videos[0].id))| else 0)
         + ChannelLikes(videos[1..], likes, owner)
  }

  /**
   * getChannelStats: 400 without a caller; otherwise the number of
   * subscriptions to the caller's channel and, over the caller's videos, the
   * likes on them, the views and the count. Each defaults to 0 when nothing
   * matches.
   */
  function GetChannelStats(db: Db, caller: Option<Id>): (r: Response<Stats>)
    ensures caller.None? <==> r == Failure(400, "Invalid user ID")
    ensures caller.Some? ==>
      && r.Success? && r.status == 200
      && r.data.totalSubscribers == |SubscriptionsTo(db.subscriptions, caller.value)|
      && r.data.totalVideos == |VideosBy(db.videos, caller.value)|
      && r.data.totalViews == ChannelViews(db.videos, caller.value)
      && r.data.totalLikes == ChannelLikes(db.videos, db.likes, caller.value)
  {
    if caller.None? then Failure(400, "Invalid user ID")
    else
      var u := caller.value;
      Success(200, Stats(|SubscriptionsTo(db.subscriptions, u)|, ChannelLikes(db.videos, db.likes, u),
                         ChannelViews(db.videos, u), |VideosBy(db.videos, u)|))
  }

  /** A channel with no videos and no subscribers has all-zero totals. */
  lemma EmptyChannelHasZeroStats(db: Db, u: Id)
    requires forall v :: v in db.videos ==> v.owner != u
    requires forall x :: x in db.subscriptions ==> x.channel != u
    ensures GetChannelStats(db, Some(u)) == Success(200, Stats(0, 0, 0, 0))
  {
    NoOwnedVideosNoTotals(db.videos, db.likes, u);
    Rows.NothingInIsEmpty(SubscriptionsTo(db.subscriptions, u));
    Rows.NothingInIsEmpty(VideosBy(db.videos, u));
  }

  lemma {:induction false} NoOwnedVideosNoTotals(videos: seq<Video>, likes: seq<Like>, u: Id)
    requires forall v :: v in videos ==> v.owner != u
    ensures ChannelViews(videos, u) == 0 && ChannelLikes(videos, likes, u) == 0
  {
    if videos != [] {
      assert videos[0] in videos;
      assert forall v :: v in videos[1..] ==> v in videos;
      NoOwnedVideosNoTotals(videos[1..], likes, u);
    }
  }

  /** The view getVideoById records (`VideoController.Viewed`) raises its owner's `totalViews` by exactly one, and no other owner's. */
  lemma {:induction false} ViewRaisesChannelViews(videos: seq<Video>, i: nat, owner: Id)
    requires i < |videos|
    ensures ChannelViews(videos[i := VideoController.Viewed(videos[i])], owner)
         == ChannelViews(videos, owner) + (if videos[i].owner == owner then 1 else 0)
  {
    var after := videos[i := VideoController.Viewed(videos[i])];
    if i == 0 {
      assert after[1..] == videos[1..];
    } else {
      assert after[1..] == videos[1..][i - 1 := VideoController.Viewed(videos[i])];
      ViewRaisesChannelViews(videos[1..], i - 1, owner);
    }
  }

  /** The likes whose `video` is one of `ids`. */
  function LikesOnAny(likes: seq<Like>, ids: set<Id>): nat {
    if likes == [] then 0
    else (if likes[0].video.Some? && likes[0].video.value in ids then 1 else 0) + LikesOnAny(likes[1..], ids)
  }

  lemma {:induction false} LikesOnAnySplit(likes: seq<Like>, v: Id, ids: set<Id>)
    requires v !in ids
    ensures LikesOnAny(likes, {v} + ids) == |LikesOn(likes, OnVideo(v))| + LikesOnAny(likes, ids)
  {
    if likes != [] {
      LikesOnAnySplit(likes[1..], v, ids);
    }
  }

  /** The ids of the owner's videos. */
  function ChannelVideoIds(videos: seq<Video>, owner: Id): set<Id> {
    if videos == [] then {}
    else (if videos[0].owner == owner then {videos[0].id} else {}) + ChannelVideoIds(videos[1..], owner)
  }

  lemma {:induction false} ChannelVideoIdsBelong(videos: seq<Video>, owner: Id)
    ensures forall id :: id in ChannelVideoIds(videos, owner) ==> exists j :: 0 <= j < |videos| && videos[j].id == id
  {
    if videos != [] {
      ChannelVideoIdsBelong(videos[1..], owner);
      forall id | id in ChannelVideoIds(videos[1..], owner) ensures exists j :: 0 <= j < |videos| && videos[j].id == id {
        var j :| 0 <= j < |videos[1..]| && videos[1..][j].id == id;
        assert videos[j + 1].id == id;
      }
    }
  }

  /**
   * With unique video ids, `totalLikes` counts every like whose `video` is
   * one of the caller's videos exactly once.
   */
  lemma {:induction false} ChannelLikesCountsLikesOnChannel(videos: seq<Video>, likes: seq<Like>, owner: Id)
    requires Rows.DistinctKeys(videos, VideoKey)
    ensures ChannelLikes(videos, likes, owner) == LikesOnAny(likes, ChannelVideoIds(videos, owner))
  {
    if videos == [] {
      LikesOnNone(likes);
    } else {
      var rest := videos[1..];
      assert Rows.DistinctKeys(rest, VideoKey) by {
        forall a, b | 0 <= a < b < |rest| ensures rest[a].id != rest[b].id {
          assert rest[a] == videos[a + 1] && rest[b] == videos[b + 1];
        }
      }
      ChannelLikesCountsLikesOnChannel(rest, likes, owner);
      if videos[0].owner == owner {
        ChannelVideoIdsBelong(rest, owner);
        assert videos[0].id !in ChannelVideoIds(rest, owner) by {
          forall j | 0 <= j < |rest| ensures rest[j].id != videos[0].id {
            assert rest[j] == videos[j + 1];
          }
        }
        LikesOnAnySplit(likes, videos[0].id, ChannelVideoIds(rest, owner));
        assert ChannelVideoIds(videos, owner) == {videos[0].id} + ChannelVideoIds(rest, owner);
      } else {
        assert ChannelVideoIds(videos, owner) == ChannelVideoIds(rest, owner);
      }
    }
  }

  lemma {:induction false} LikesOnNone(likes: seq<Like>)
    ensures LikesOnAny(likes, {}) == 0
  {
    if likes != [] { LikesOnNone(likes[1..]); }
  }

  /** A video of the channel with its like count. */
  datatype ChannelVideo = ChannelVideo(video: Video, likesCount: nat)

  function ChannelVideoCreatedAt(x: ChannelVideo): int { x.video.createdAt }

  /** The joined like count is the number of likes whose `video` is this video's id. */
  function ChannelVideoOf(likes: seq<Like>, v: Video): (x: ChannelVideo)
    ensures x.video == v && x.likesCount == LikesOnAny(likes, {v.id})
  {
    LikesOnAnySplit(likes, v.id, {});
    LikesOnNone(likes);
    assert {v.id} + {} == {v.id};
    ChannelVideo(v, |LikesOn(likes, OnVideo(v.id))|)
  }

  /** getChannelVideos's rows: every video of the caller, published or not, with its like count, newest first. */
  function ChannelVideos(db: Db, u: Id): (r: seq<ChannelVideo>)
    ensures forall x :: x in r ==> x.video in db.videos && x.video.owner == u && x == ChannelVideoOf(db.likes, x.video)
    ensures forall v :: v in db.videos && v.owner == u ==> ChannelVideoOf(db.likes, v) in r
    ensures |r| == |VideosBy(db.videos, u)|
    ensures forall v :: multiset(r)[ChannelVideoOf(db.likes, v)] ==
                        if v.owner == u then multiset(db.videos)[v] else 0
    ensures Rows.SortedBy(r, ChannelVideoCreatedAt, false)
  {
    var owned := VideosBy(db.videos, u);
    var view := (v: Video) => ChannelVideoOf(db.likes, v);
    var rows := Rows.Map(owned, view);
    Rows.SortKeepsRows(rows, ChannelVideoCreatedAt, false);
    forall v ensures multiset(rows)[view(v)] == multiset(owned)[v] {
      Rows.MapInjectiveCount(owned, view, v);
    }
    forall v | v in db.videos && v.owner == u ensures ChannelVideoOf(db.likes, v) in rows {
      assert v in owned;
    }
    Rows.Sort(rows, ChannelVideoCreatedAt, false)
  }

  /** getChannelVideos: 400 without a caller, otherwise the list with status 200. */
  function GetChannelVideos(db: Db, caller: Option<Id>): (r: Response<seq<ChannelVideo>>)
    ensures caller.None? <==> r == Failure(400, "Invalid user ID")
    ensures caller.Some? ==> r == Success(200, ChannelVideos(db, caller.value))
  {
    if caller.None? then Failure(400, "Invalid user ID")
    else Success(200, ChannelVideos(db, caller.value))
  }
}
