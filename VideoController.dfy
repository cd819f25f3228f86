/**
 * video.controller.js: the public video listing, publishing, the detail view
 * with its view count and watch history, updates, deletion with its cascade,
 * and the publish toggle.
 */
module VideoController {
  import opened Wrappers
  import opened Entities
  import opened EntityStore
  import Rows

  // ---------------------------------------------------------------- listing

  /** The numeric fields the listing may sort on. */
  datatype SortField = CreatedAt | Views

  function SortKey(f: SortField): Video -> int {
    match f
    case CreatedAt => VideoCreatedAt
    case Views => VideoViews
  }

  /**
   * The `$search` and `$match` stages: among the search hits (all videos when
   * there is no query), owned by `ownerFilter` when one is given, and published.
   */
  predicate Listed(searchHits: Option<set<Id>>, ownerFilter: Option<Id>, v: Video) {
    && (searchHits.None? || v.id in searchHits.value)
    && (ownerFilter.None? || v.owner == ownerFilter.value)
    && v.isPublished
  }

  /**
   * getAllVideos's pipeline before pagination: the listed videos, sorted
   * stably on `field`, whose owner joins a user row (`$unwind` drops the rest).
   */
  function VideoFeed(db: Db, searchHits: Option<set<Id>>, ownerFilter: Option<Id>,
                     field: SortField, ascending: bool): (r: seq<Video>)
    ensures forall v :: v in r <==> v in db.videos && Listed(searchHits, ownerFilter, v) && v.owner in db.watchHistory
    ensures forall v ::
      multiset(r)[v] == if Listed(searchHits, ownerFilter, v) && v.owner in db.watchHistory then multiset(db.videos)[v] else 0
    ensures Rows.SortedBy(r, SortKey(field), ascending)
  {
    var listed := Rows.Filter(db.videos, (v: Video) => Listed(searchHits, ownerFilter, v));
    var sorted := Rows.Sort(listed, SortKey(field), ascending);
    Rows.FilterKeepsSorted(sorted, (v: Video) => v.owner in db.watchHistory, SortKey(field), ascending);
    Rows.Filter(sorted, (v: Video) => v.owner in db.watchHistory)
  }

  /**
   * getAllVideos. A malformed `userId` raises 400, which the handler's own
   * catch turns into a 500 carrying the same message. Otherwise the page of
   * the feed, sorted on `sortBy` (default `createdAt`), ascending exactly
   * when `sortType` is "asc".
   */
  function GetAllVideos(db: Db, isValidObjectId: Id -> bool, searchHits: Option<set<Id>>, userId: Option<Id>,
                        sortBy: Option<SortField>, sortType: Option<string>,
                        page: Rows.Pos, limit: Rows.Pos): (r: Response<Rows.Page<Video>>)
    ensures userId.Some? && !isValidObjectId(userId.value) <==> r == Failure(500, "Invalid userId format")
    ensures r.Failure? ==> r == Failure(500, "Invalid userId format")
    ensures r.Success? ==> r.status == 200 && r.data.page == page && r.data.limit == limit
    ensures r.Success? ==> |r.data.docs| <= limit
    ensures r.Success? ==> forall v :: v in r.data.docs ==>
      && v in db.videos && v.isPublished && v.owner in db.watchHistory
      && (userId.Some? ==> v.owner == userId.value)
      && (searchHits.Some? ==> v.id in searchHits.value)
    ensures r.Success? ==>
      var feed := VideoFeed(db, searchHits, userId, if sortBy.Some? then sortBy.value else CreatedAt, sortType == Some("asc"));
      && r.data.totalDocs == |feed|
      && r.data.docs == Rows.Paginate(feed, page, limit)
      && Rows.SortedBy(r.data.docs, SortKey(if sortBy.Some? then sortBy.value else CreatedAt), sortType == Some("asc"))
  {
    if userId.Some? && !isValidObjectId(userId.value) then
      Failure(500, "Invalid userId format")
    else
      var field := if sortBy.Some? then sortBy.value else CreatedAt;
      var ascending := sortType == Some("asc");
      var feed := VideoFeed(db, searchHits, userId, field, ascending);
      Rows.PageKeepsSorted(feed, page, limit, SortKey(field), ascending);
      Success(200, Rows.Page(Rows.Paginate(feed, page, limit), |feed|, page, limit))
  }

  /** Walking pages 1 to `n` with `n * limit` at least `totalDocs` lists the whole feed once, in order. */
  lemma PagesListWholeFeed(db: Db, searchHits: Option<set<Id>>, userId: Option<Id>, field: SortField,
                           ascending: bool, n: nat, limit: Rows.Pos)
    requires |VideoFeed(db, searchHits, userId, field, ascending)| <= n * limit
    ensures Rows.Pages(VideoFeed(db, searchHits, userId, field, ascending), n, limit)
         == VideoFeed(db, searchHits, userId, field, ascending)
  {
    Rows.PagesCoverListing(VideoFeed(db, searchHits, userId, field, ascending), n, limit);
  }

  // ------------------------------------------------------------- publishing

  /** An upload outcome counts only when it carries a non-empty url. */
  predicate Uploaded(url: Option<string>) { url.Some? && url.value != "" }

  /**
   * publishAVideo: title and description, then both file paths, then both
   * upload outcomes are checked; the new video is owned by the caller, has
   * no views and is published.
   */
  method PublishAVideo(s: Store, caller: Id, title: string, description: string,
                       videoPath: string, thumbnailPath: string,
                       videoUrl: Option<string>, thumbnailUrl: Option<string>, now: int)
    returns (r: Response<Video>)
    requires s.Valid()
    modifies s`videos, s`nextId
    ensures s.Valid()
    ensures r.Failure? <==> s.videos == old(s.videos) && s.nextId == old(s.nextId)
    ensures title == "" || description == "" ==>
      r == Failure(400, "Title and description are required to publish a video")
    ensures title != "" && description != "" && (videoPath == "" || thumbnailPath == "") ==>
      r == Failure(400, "Video file and thumbnail are required")
    ensures title != "" && description != "" && videoPath != "" && thumbnailPath != ""
            && !(Uploaded(videoUrl) && Uploaded(thumbnailUrl)) ==>
      r == Failure(500, "Failed to upload video or thumbnail to cloudinary")
    ensures title != "" && description != "" && videoPath != "" && thumbnailPath != ""
            && Uploaded(videoUrl) && Uploaded(thumbnailUrl) ==>
      && r == Success(201, Video(old(s.nextId), caller, title, description, videoUrl.value, thumbnailUrl.value, 0, true, now))
      && s.videos == old(s.videos) + [r.data]
      && s.nextId == old(s.nextId) + 1
      && VideoIndex(old(s.videos), r.data.id).None?
  {
    if title == "" || description == "" {
      return Failure(400, "Title and description are required to publish a video");
    }
    if videoPath == "" || thumbnailPath == "" {
      return Failure(400, "Video file and thumbnail are required");
    }
    if !(Uploaded(videoUrl) && Uploaded(thumbnailUrl)) {
      return Failure(500, "Failed to upload video or thumbnail to cloudinary");
    }
    var v := Video(s.nextId, caller, title, description, videoUrl.value, thumbnailUrl.value, 0, true, now);
    Rows.AppendKeepsDistinct(s.videos, v, VideoKey);
    s.videos := s.videos + [v];
    s.nextId := s.nextId + 1;
    return Success(201, v);
  }

  // ------------------------------------------------------------ detail view

  /** The owner block of the detail view. */
  datatype OwnerDetail = OwnerDetail(id: Id, subscribersCount: nat, isSubscribed: bool)

  /** The detail view: the video's fields, its owner, its like count and whether the viewer likes it. */
  datatype VideoDetail = VideoDetail(video: Video, owner: Option<OwnerDetail>, likesCount: Option<nat>, isLiked: bool)

  /**
   * A subscription row has a `subscriber` field and no `subscribers` field,
   * so the path `$subscribers.subscribers` resolves to an empty list.
   */
  function SubscribersPathAsWritten(joined: seq<Subscription>): (r: seq<Id>)
    ensures r == []
  {
    []
  }

  /**
   * getVideoById's pipeline as written: `$first` of the owner join (absent
   * when the owner row is missing), a subscriber count over the channel's
   * subscription rows, `isSubscribed` tested against the empty path above,
   * and no like count, since `likeCount` is computed but `likesCount` is
   * projected.
   */
  function VideoDetailAsWritten(db: Db, v: Video, viewer: Id): (d: VideoDetail)
    ensures d.video == v && d.likesCount.None?
    ensures d.owner.Some? <==> v.owner in db.watchHistory
    ensures d.owner.Some? ==>
      && d.owner.value.id == v.owner
      && d.owner.value.subscribersCount == |SubscriptionsTo(db.subscriptions, v.owner)|
      && !d.owner.value.isSubscribed
    ensures d.isLiked <==> HasLike(db.likes, OnVideo(v.id), viewer)
  {
    var subscribers := SubscriptionsTo(db.subscriptions, v.owner);
    var owner := if v.owner in db.watchHistory
      then Some(OwnerDetail(v.owner, |subscribers|, viewer in SubscribersPathAsWritten(subscribers)))
      else None;
    var likes := LikesOn(db.likes, OnVideo(v.id));
    VideoDetail(v, owner, None, LikedIn(likes, viewer))
  }

  /**
   * The detail view as evidently intended: the like count is returned and
   * `isSubscribed` tells whether the viewer subscribes to the owner.
   */
  function VideoDetailIntended(db: Db, v: Video, viewer: Id): (d: VideoDetail)
    ensures d.video == v
    ensures d.likesCount == Some(|LikesOn(db.likes, OnVideo(v.id))|)
    ensures d.owner.Some? <==> v.owner in db.watchHistory
    ensures d.owner.Some? ==>
      && d.owner.value.id == v.owner
      && d.owner.value.subscribersCount == |SubscriptionsTo(db.subscriptions, v.owner)|
      && (d.owner.value.isSubscribed <==> IsSubscribed(db.subscriptions, viewer, v.owner))
    ensures d.isLiked <==> HasLike(db.likes, OnVideo(v.id), viewer)
  {
    var subscribers := SubscriptionsTo(db.subscriptions, v.owner);
    var owner := if v.owner in db.watchHistory
      then Some(OwnerDetail(v.owner, |subscribers|, SubscribedIn(subscribers, viewer)))
      else None;
    var likes := LikesOn(db.likes, OnVideo(v.id));
    VideoDetail(v, owner, Some(|likes|), LikedIn(likes, viewer))
  }

  /** `$in: [u, "$subscribers.subscriber"]`. */
  function SubscribedIn(joined: seq<Subscription>, u: Id): (b: bool)
    ensures b <==> exists x :: x in joined && x.subscriber == u
  {
    u in Rows.Map(joined, (x: Subscription) => x.subscriber)
  }

  /**
   * With one subscription of the viewer to the owner and one like, the view as
   * written reports the viewer as not subscribed and no like count, where the
   * intended view reports a subscription and a count of one.
   */
  lemma DetailAsWrittenLosesFields()
    ensures
      var v := Video(1, 2, "t", "d", "f", "i", 0, true, 0);
      var db := Db([v], [], [], [Like(4, 3, Some(1), None, None, 0)], [Subscription(5, 3, 2)], map[2 := [], 3 := []]);
      && VideoDetailAsWritten(db, v, 3).owner == Some(OwnerDetail(2, 1, false))
      && VideoDetailAsWritten(db, v, 3).likesCount == None
      && VideoDetailIntended(db, v, 3).owner == Some(OwnerDetail(2, 1, true))
      && VideoDetailIntended(db, v, 3).likesCount == Some(1)
  {
    var v := Video(1, 2, "t", "d", "f", "i", 0, true, 0);
    var subs := [Subscription(5, 3, 2)];
    var likes := [Like(4, 3, Some(1), None, None, 0)];
    assert subs[0] in SubscriptionsTo(subs, 2);
    assert |SubscriptionsTo(subs, 2)| == 1;
    assert likes[0] in LikesOn(likes, OnVideo(1));
    assert |LikesOn(likes, OnVideo(1))| == 1;
    assert IsSubscribed(subs, 3, 2) by { assert subs[0] in subs; }
  }

  /** `$addToSet`: `x` appended unless already present. */
  function AddToSet(s: seq<Id>, x: Id): (r: seq<Id>)
    ensures |r| == if x in s then |s| else |s| + 1
    ensures r[..|s|] == s
    ensures forall y :: y in r <==> y in s || y == x
  {
    if x in s then s else s + [x]
  }

  /** `$addToSet` keeps a list free of repeats. */
  lemma AddToSetKeepsDistinct(s: seq<Id>, x: Id)
    requires forall i, j :: 0 <= i < j < |s| ==> s[i] != s[j]
    ensures var r := AddToSet(s, x); forall i, j :: 0 <= i < j < |r| ==> r[i] != r[j]
  {
    var r := AddToSet(s, x);
    forall i, j | 0 <= i < j < |r| ensures r[i] != r[j] {
      if j == |s| {
        assert r[i] == s[i] && r[j] == x && s[i] in s;
      }
    }
  }

  /** `User.findByIdAndUpdate(u, {$addToSet: {watchHistory: v}})`: a no-op for an unknown user. */
  function AddToHistory(h: map<Id, seq<Id>>, u: Id, v: Id): (r: map<Id, seq<Id>>)
    ensures r.Keys == h.Keys
    ensures forall w :: w in h && w != u ==> r[w] == h[w]
    ensures u in h ==> v in r[u] && forall y :: y in r[u] <==> y in h[u] || y == v
  {
    if u in h then h[u := AddToSet(h[u], v)] else h
  }

  /** Viewing the same video again leaves the history as it was after the first view. */
  lemma RepeatViewAddsNothing(h: map<Id, seq<Id>>, u: Id, v: Id)
    ensures AddToHistory(AddToHistory(h, u, v), u, v) == AddToHistory(h, u, v)
  {
  }

  /** The video at `i` with one more view. */
  function Viewed(v: Video): (r: Video)
    ensures r.views == v.views + 1 && r.(views := v.views) == v
  {
    v.(views := v.views + 1)
  }

  /**
   * getVideoById: 400 on a malformed video id or caller id, 404 when the video
   * does not exist; otherwise the detail view computed before the update, one
   * more view on the video, and the video added to the caller's history.
   */
  method GetVideoById(s: Store, videoId: Id, caller: Option<Id>) returns (r: Response<VideoDetail>)
    requires s.Valid()
    modifies s`videos, s`watchHistory
    ensures s.Valid()
    ensures r.Failure? ==> s.videos == old(s.videos) && s.watchHistory == old(s.watchHistory)
    ensures !s.isValidObjectId(videoId) ==> r == Failure(400, "Invalid videoId format")
    ensures s.isValidObjectId(videoId) && (caller.None? || !s.isValidObjectId(caller.value)) ==>
      r == Failure(400, "Invalid userId format")
    ensures s.isValidObjectId(videoId) && caller.Some? && s.isValidObjectId(caller.value)
            && VideoIndex(old(s.videos), videoId).None? ==>
      r == Failure(404, "Video not found")
    ensures s.isValidObjectId(videoId) && caller.Some? && s.isValidObjectId(caller.value)
            && VideoIndex(old(s.videos), videoId).Some? ==>
      var i := VideoIndex(old(s.videos), videoId).value;
      && r == Success(200, VideoDetailAsWritten(old(s.Snapshot()), old(s.videos)[i], caller.value))
      && s.videos == old(s.videos)[i := Viewed(old(s.videos)[i])]
      && s.watchHistory == AddToHistory(old(s.watchHistory), caller.value, videoId)
  {
    if !s.isValidObjectId(videoId) {
      return Failure(400, "Invalid videoId format");
    }
    if caller.None? || !s.isValidObjectId(caller.value) {
      return Failure(400, "Invalid userId format");
    }
    var found := VideoIndex(s.videos, videoId);
    if found.None? {
      return Failure(404, "Video not found");
    }
    var i := found.value;
    var detail := VideoDetailAsWritten(s.Snapshot(), s.videos[i], caller.value);
    Rows.UpdateKeepsDistinct(s.videos, i, Viewed(s.videos[i]), VideoKey);
    s.videos := s.videos[i := Viewed(s.videos[i])];
    s.watchHistory := AddToHistory(s.watchHistory, caller.value, videoId);
    return Success(200, detail);
  }

  // ---------------------------------------------------------------- updates

  /**
   * updateVideo: 400 on a malformed id or a missing title or description,
   * 404 when the video does not exist, 403 unless the caller owns it, 500
   * when a new thumbnail was sent and its upload failed; otherwise the title,
   * the description and, when one was sent, the thumbnail are replaced.
   */
  method UpdateVideo(s: Store, videoId: Id, caller: Id, title: string, description: string,
                     thumbnailPath: string, thumbnailUrl: Option<string>)
    returns (r: Response<Video>)
    requires s.Valid()
    modifies s`videos
    ensures s.Valid()
    ensures r.Failure? ==> s.videos == old(s.videos)
    ensures !s.isValidObjectId(videoId) ==> r == Failure(400, "Invalid videoId format")
    ensures s.isValidObjectId(videoId) && (title == "" || description == "") ==>
      r == Failure(400, "Title and description are required to update video")
    ensures s.isValidObjectId(videoId) && title != "" && description != "" ==>
      match VideoIndex(old(s.videos), videoId)
      case None => r == Failure(404, "Video not found")
      case Some(i) =>
        if old(s.videos)[i].owner != caller then r == Failure(403, "You are not authorized to update this video")
        else if thumbnailPath != "" && !Uploaded(thumbnailUrl) then
          r == Failure(500, "Failed to upload thumbnail to cloudinary")
        else
          var v := old(s.videos)[i];
          && r == Success(200, v.(title := title, description := description,
                                  thumbnail := if thumbnailPath != "" then thumbnailUrl.value else v.thumbnail))
          && s.videos == old(s.videos)[i := r.data]
  {
    if !s.isValidObjectId(videoId) {
      return Failure(400, "Invalid videoId format");
    }
    if title == "" || description == "" {
      return Failure(400, "Title and description are required to update video");
    }
    var found := VideoIndex(s.videos, videoId);
    if found.None? {
      return Failure(404, "Video not found");
    }
    var i := found.value;
    var v := s.videos[i];
    if v.owner != caller {
      return Failure(403, "You are not authorized to update this video");
    }
    var thumbnail := v.thumbnail;
    if thumbnailPath != "" {
      if !Uploaded(thumbnailUrl) {
        return Failure(500, "Failed to upload thumbnail to cloudinary");
      }
      thumbnail := thumbnailUrl.value;
    }
    var updated := v.(title := title, description := description, thumbnail := thumbnail);
    Rows.UpdateKeepsDistinct(s.videos, i, updated, VideoKey);
    s.videos := s.videos[i := updated];
    return Success(200, updated);
  }

  /**
   * deleteVideo: 400 on a malformed id, 404 when the video does not exist,
   * 403 unless the caller owns it; otherwise the video's likes, its comments
   * and the video itself are deleted.
   */
  method DeleteVideo(s: Store, videoId: Id, caller: Id) returns (r: Response<()>)
    requires s.Valid()
    modifies s`videos, s`likes, s`comments
    ensures s.Valid()
    ensures r.Failure? ==> s.videos == old(s.videos) && s.likes == old(s.likes) && s.comments == old(s.comments)
    ensures !s.isValidObjectId(videoId) ==> r == Failure(400, "Invalid videoId format")
    ensures s.isValidObjectId(videoId) ==>
      match VideoIndex(old(s.videos), videoId)
      case None => r == Failure(404, "Video not found")
      case Some(i) =>
        if old(s.videos)[i].owner != caller then r == Failure(403, "You are not authorized to delete this video")
        else
          && r == Success(200, ())
          && s.videos == Rows.RemoveAt(old(s.videos), i)
          && s.likes == LikesNotOn(old(s.likes), OnVideo(videoId))
          && s.comments == CommentsNotOn(old(s.comments), videoId)
          && VideoIndex(s.videos, videoId).None?
  {
    if !s.isValidObjectId(videoId) {
      return Failure(400, "Invalid videoId format");
    }
    var found := VideoIndex(s.videos, videoId);
    if found.None? {
      return Failure(404, "Video not found");
    }
    var i := found.value;
    if s.videos[i].owner != caller {
      return Failure(403, "You are not authorized to delete this video");
    }
    s.DeleteLikesOn(OnVideo(videoId));
    s.DeleteCommentsOn(videoId);
    s.DeleteVideoAt(i);
    return Success(200, ());
  }

  /** The payload of the publish toggle. */
  datatype PublishState = PublishState(videoId: Id, isPublished: bool, message: string)

  function PublishMessage(isPublished: bool): string {
    if isPublished then "Video has been published successfully" else "Video has been unpublished successfully"
  }

  /**
   * togglePublishStatus: 400 on a malformed id, 404 when the video does not
   * exist, 403 unless the caller owns it; otherwise the flag is flipped and
   * its new value returned.
   */
  method TogglePublishStatus(s: Store, videoId: Id, caller: Id) returns (r: Response<PublishState>)
    requires s.Valid()
    modifies s`videos
    ensures s.Valid()
    ensures r.Failure? ==> s.videos == old(s.videos)
    ensures !s.isValidObjectId(videoId) ==> r == Failure(400, "Invalid videoId format")
    ensures s.isValidObjectId(videoId) ==>
      match VideoIndex(old(s.videos), videoId)
      case None => r == Failure(404, "Video not found")
      case Some(i) =>
        if old(s.videos)[i].owner != caller then r == Failure(403, "You are not authorized to update this video")
        else
          var now := !old(s.videos)[i].isPublished;
          && r == Success(200, PublishState(videoId, now, PublishMessage(now)))
          && s.videos == old(s.videos)[i := old(s.videos)[i].(isPublished := now)]
  {
    if !s.isValidObjectId(videoId) {
      return Failure(400, "Invalid videoId format");
    }
    var found := VideoIndex(s.videos, videoId);
    if found.None? {
      return Failure(404, "Video not found");
    }
    var i := found.value;
    var v := s.videos[i];
    if v.owner != caller {
      return Failure(403, "You are not authorized to update this video");
    }
    var flipped := v.(isPublished := !v.isPublished);
    Rows.UpdateKeepsDistinct(s.videos, i, flipped, VideoKey);
    s.videos := s.videos[i := flipped];
    return Success(200, PublishState(videoId, flipped.isPublished, PublishMessage(flipped.isPublished)));
  }

  /** Two publish toggles by the owner restore the collection exactly. */
  method TogglePublishTwice(s: Store, videoId: Id, caller: Id) returns (first: Response<PublishState>, second: Response<PublishState>)
    requires s.Valid()
    modifies s`videos
    ensures s.Valid()
    ensures s.videos == old(s.videos)
    ensures first.Success? <==> second.Success?
    ensures first.Success? ==> second.data.isPublished == !first.data.isPublished
    ensures first.Failure? ==> second == first
  {
    first := TogglePublishStatus(s, videoId, caller);
    ghost var mid := s.videos;
    if first.Success? {
      ghost var i := VideoIndex(old(s.videos), videoId).value;
      assert mid[i].id == videoId;
      assert VideoIndex(mid, videoId) == Some(i) by {
        assert VideoIndex(mid, videoId).Some?;
        var j := VideoIndex(mid, videoId).value;
        assert mid[j].id == mid[i].id;
      }
    }
    second := TogglePublishStatus(s, videoId, caller);
  }
}
