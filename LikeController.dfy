/**
 * like.controller.js: the like toggles on videos, comments and tweets, and
 * the caller's liked-videos list.
 */
module LikeController {
  import opened Wrappers
  import opened Entities
  import opened EntityStore
  import Rows

  datatype LikeState = LikeState(isLiked: bool)

  // ------------------------------------------------------ the toggle engine

  /** `Targets(l, find) && l.likedBy == u`: the row a toggle looks up. */
  predicate Matches(l: Like, find: Target, u: Id) {
    Targets(l, find) && l.likedBy == u
  }

  /**
   * One toggle from `before` to `after`: a row of `u` on `find`, whichever
   * the lookup returns, is deleted and `isLiked` is false, or, when there is none, a row of `u` on
   * `create` with id `id` is appended and `isLiked` is true.
   */
  ghost predicate FlipStep(before: seq<Like>, after: seq<Like>, id: Id, find: Target, create: Target,
                           u: Id, now: int, isLiked: bool) {
    && (isLiked <==> !HasLike(before, find, u))
    && (isLiked ==> after == before + [NewLike(id, u, create, now)])
    && (!isLiked ==> exists i :: 0 <= i < |before| && Matches(before[i], find, u)
                                 && after == Rows.RemoveAt(before, i))
  }

  /** The like field a target names. */
  datatype Field = VideoField | CommentField | TweetField

  function FieldOf(t: Target): Field {
    match t
    case OnVideo(_) => VideoField
    case OnComment(_) => CommentField
    case OnTweet(_) => TweetField
  }

  /** At most one row of `u` on `t`: what a toggle of that one pair relies on. */
  ghost predicate PairUnique(likes: seq<Like>, t: Target, u: Id) {
    forall i, j :: 0 <= i < j < |likes| && Matches(likes[i], t, u) ==> !Matches(likes[j], t, u)
  }

  /** No user has two rows on the same target of field `f`. */
  ghost predicate FieldPairsUnique(likes: seq<Like>, f: Field) {
    forall t, u :: FieldOf(t) == f ==> PairUnique(likes, t, u)
  }

  /** Every field of `fields` whose pairs were unique before still has unique pairs after. */
  ghost predicate KeepsFieldsUnique(before: seq<Like>, after: seq<Like>, fields: set<Field>) {
    forall f :: f in fields && FieldPairsUnique(before, f) ==> FieldPairsUnique(after, f)
  }

  /** A row that is not `u`'s on `t` is not the same pair as a new row of `u` on `t`. */
  lemma NotSamePairAsNewLike(a: Like, id: Id, u: Id, t: Target, now: int)
    requires !Matches(a, t, u)
    ensures !SamePair(a, NewLike(id, u, t, now))
  {
  }

  lemma RemoveAtKeepsPairsUnique(likes: seq<Like>, i: nat)
    requires i < |likes| && LikePairsUnique(likes)
    ensures LikePairsUnique(Rows.RemoveAt(likes, i))
  {
    var r := Rows.RemoveAt(likes, i);
    forall a, b | 0 <= a < b < |r| ensures !SamePair(r[a], r[b]) {
      var a' := if a < i then a else a + 1;
      var b' := if b < i then b else b + 1;
      assert r[a] == likes[a'] && r[b] == likes[b'] && a' < b';
    }
  }

  lemma RemoveAtKeepsPairUnique(likes: seq<Like>, i: nat, t: Target, u: Id)
    requires i < |likes| && PairUnique(likes, t, u)
    ensures PairUnique(Rows.RemoveAt(likes, i), t, u)
  {
    var r := Rows.RemoveAt(likes, i);
    forall a, b | 0 <= a < b < |r| && Matches(r[a], t, u) ensures !Matches(r[b], t, u) {
      var a' := if a < i then a else a + 1;
      var b' := if b < i then b else b + 1;
      assert r[a] == likes[a'] && r[b] == likes[b'] && a' < b';
    }
  }

  /** Appending a row keeps `u`'s pair on `t` unique, unless it adds a second row of that pair. */
  lemma AppendKeepsPairUnique(likes: seq<Like>, n: Like, t: Target, u: Id)
    requires PairUnique(likes, t, u)
    requires Matches(n, t, u) ==> !HasLike(likes, t, u)
    ensures PairUnique(likes + [n], t, u)
  {
    var r := likes + [n];
    forall a, b | 0 <= a < b < |r| && Matches(r[a], t, u) ensures !Matches(r[b], t, u) {
      assert r[a] == likes[a] && likes[a] in likes;
      if b < |likes| { assert r[b] == likes[b]; }
    }
  }

  /**
   * A toggle keeps the pairs of field `f` unique unless it inserts on `f`
   * at a target other than the one it looked up.
   */
  lemma FlipKeepsFieldPairsUnique(before: seq<Like>, after: seq<Like>, id: Id, find: Target, create: Target,
                                  u: Id, now: int, isLiked: bool, f: Field)
    requires FlipStep(before, after, id, find, create, u, now, isLiked)
    requires FieldOf(create) == f ==> find == create
    requires FieldPairsUnique(before, f)
    ensures FieldPairsUnique(after, f)
  {
    forall t, u' | FieldOf(t) == f ensures PairUnique(after, t, u') {
      if isLiked {
        var n := NewLike(id, u, create, now);
        if Matches(n, t, u') { assert t == create && u' == u; }
        AppendKeepsPairUnique(before, n, t, u');
      } else {
        var i :| 0 <= i < |before| && Matches(before[i], find, u) && after == Rows.RemoveAt(before, i);
        RemoveAtKeepsPairUnique(before, i, t, u');
      }
    }
  }

  /** The per-field form of `FlipKeepsFieldPairsUnique`, for every field at once. */
  lemma FlipKeepsFieldsUnique(before: seq<Like>, after: seq<Like>, id: Id, find: Target, create: Target,
                              u: Id, now: int, isLiked: bool, fields: set<Field>)
    requires FlipStep(before, after, id, find, create, u, now, isLiked)
    requires FieldOf(create) in fields ==> find == create
    ensures KeepsFieldsUnique(before, after, fields)
  {
    forall f | f in fields && FieldPairsUnique(before, f) ensures FieldPairsUnique(after, f) {
      FlipKeepsFieldPairsUnique(before, after, id, find, create, u, now, isLiked, f);
    }
  }

  /** Deleting the only row of `u` on `t` leaves none. */
  lemma {:induction false} FlipRemovesPair(before: seq<Like>, after: seq<Like>, id: Id, t: Target, create: Target,
                                           u: Id, now: int)
    requires FlipStep(before, after, id, t, create, u, now, false)
    requires PairUnique(before, t, u)
    ensures !HasLike(after, t, u)
    ensures LikePairsUnique(before) ==> LikePairsUnique(after)
  {
    var i :| 0 <= i < |before| && Matches(before[i], t, u) && after == Rows.RemoveAt(before, i);
    if LikePairsUnique(before) { RemoveAtKeepsPairsUnique(before, i); }
    forall k | 0 <= k < |after| ensures !Matches(after[k], t, u) {
      var k' := if k < i then k else k + 1;
      assert after[k] == before[k'] && k' != i;
    }
    forall l | l in after ensures !Matches(l, t, u) {
      var k :| 0 <= k < |after| && after[k] == l;
    }
  }

  /** When a toggle looks up and inserts on the same target, pair uniqueness is kept. */
  lemma FlipKeepsPairsUnique(before: seq<Like>, after: seq<Like>, id: Id, t: Target, u: Id, now: int, isLiked: bool)
    requires FlipStep(before, after, id, t, t, u, now, isLiked)
    requires LikePairsUnique(before)
    ensures LikePairsUnique(after)
  {
    if isLiked {
      var n := NewLike(id, u, t, now);
      forall a, b | 0 <= a < b < |after| ensures !SamePair(after[a], after[b]) {
        if b == |before| {
          assert after[a] == before[a] && after[b] == n;
          assert before[a] in before;
          NotSamePairAsNewLike(before[a], id, u, t, now);
        } else {
          assert after[a] == before[a] && after[b] == before[b];
        }
      }
    } else {
      var i :| 0 <= i < |before| && Matches(before[i], t, u) && after == Rows.RemoveAt(before, i);
      RemoveAtKeepsPairsUnique(before, i);
    }
  }

  /**
   * Toggling the same pair twice restores whether `u` likes `t`; from a state
   * without the like it restores the rows exactly.
   */
  lemma FlipTwiceRestores(l0: seq<Like>, l1: seq<Like>, l2: seq<Like>, id1: Id, id2: Id,
                          t: Target, u: Id, now1: int, now2: int, b1: bool, b2: bool)
    requires FlipStep(l0, l1, id1, t, t, u, now1, b1)
    requires FlipStep(l1, l2, id2, t, t, u, now2, b2)
    requires PairUnique(l0, t, u)
    ensures b2 == !b1
    ensures HasLike(l2, t, u) == HasLike(l0, t, u)
    ensures !HasLike(l0, t, u) ==> l2 == l0
  {
    var n1 := NewLike(id1, u, t, now1);
    if b1 {
      assert l1[|l0|] == n1 && n1 in l1;
      assert !b2;
      assert forall j :: 0 <= j < |l0| ==> l1[j] == l0[j] && l0[j] in l0;
      var i :| 0 <= i < |l1| && Matches(l1[i], t, u) && l2 == Rows.RemoveAt(l1, i);
      assert i == |l0|;
      assert l2 == l0;
    } else {
      FlipRemovesPair(l0, l1, id1, t, t, u, now1);
      assert b2;
      var n2 := NewLike(id2, u, t, now2);
      assert l2[|l1|] == n2 && n2 in l2;
      var i :| 0 <= i < |l0| && Matches(l0[i], t, u) && l1 == Rows.RemoveAt(l0, i);
      assert l0[i] in l0;
    }
  }

  /** A toggle on one pair leaves every row that is not that pair's in place. */
  lemma FlipKeepsOtherRows(before: seq<Like>, after: seq<Like>, id: Id, t: Target, u: Id, now: int, isLiked: bool)
    requires FlipStep(before, after, id, t, t, u, now, isLiked)
    ensures forall l :: !Matches(l, t, u) ==> (l in after <==> l in before)
  {
    if !isLiked {
      var i :| 0 <= i < |before| && Matches(before[i], t, u) && after == Rows.RemoveAt(before, i);
      forall l | !Matches(l, t, u) ensures l in after <==> l in before {
        if l in before {
          var k :| 0 <= k < |before| && before[k] == l;
          assert k != i;
          if k < i { assert after[k] == l; } else { assert after[k - 1] == l; }
        }
        if l in after {
          var k :| 0 <= k < |after| && after[k] == l;
          if k < i { assert before[k] == l; } else { assert before[k + 1] == l; }
        }
      }
    }
  }

  /**
   * The lookup-then-delete-or-create step of the three toggles: find the
   * caller's row on `find`; delete it, or insert a row on `create`.
   */
  method FlipLike(s: Store, find: Target, create: Target, caller: Id, now: int) returns (isLiked: bool)
    requires s.Valid()
    modifies s`likes, s`nextId
    ensures s.Valid()
    ensures FlipStep(old(s.likes), s.likes, old(s.nextId), find, create, caller, now, isLiked)
    ensures s.nextId == if isLiked then old(s.nextId) + 1 else old(s.nextId)
  {
    var found := Rows.FirstIndex(s.likes, (l: Like) => Matches(l, find, caller));
    if found.Some? {
      var i := found.value;
      assert s.likes[i] in s.likes;
      Rows.RemoveAtKeepsDistinct(s.likes, i, LikeKey);
      // Like.findByIdAndDelete(existingLike._id): ids are unique, so this is the row at i.
      s.likes := Rows.RemoveAt(s.likes, i);
      isLiked := false;
    } else {
      assert !HasLike(s.likes, find, caller) by {
        forall l | l in s.likes ensures !Matches(l, find, caller) {
          var k :| 0 <= k < |s.likes| && s.likes[k] == l;
        }
      }
      var row := NewLike(s.nextId, caller, create, now);
      Rows.AppendKeepsDistinct(s.likes, row, LikeKey);
      s.likes := s.likes + [row];
      s.nextId := s.nextId + 1;
      isLiked := true;
    }
  }

  // ------------------------------------------------------------- handlers

  /** toggleVideoLike: 400 on a malformed id, otherwise flip the caller's like on the video. */
  method ToggleVideoLike(s: Store, videoId: Id, caller: Id, now: int) returns (r: Response<LikeState>)
    requires s.Valid()
    modifies s`likes, s`nextId
    ensures s.Valid()
    ensures !s.isValidObjectId(videoId) ==>
      r == Failure(400, "Invalid videoId") && s.likes == old(s.likes) && s.nextId == old(s.nextId)
    ensures s.isValidObjectId(videoId) ==>
      && r.Success? && r.status == 200
      && FlipStep(old(s.likes), s.likes, old(s.nextId), OnVideo(videoId), OnVideo(videoId), caller, now, r.data.isLiked)
      && (old(LikePairsUnique(s.likes)) ==> LikePairsUnique(s.likes))
      && KeepsFieldsUnique(old(s.likes), s.likes, {VideoField, CommentField, TweetField})
  {
    if !s.isValidObjectId(videoId) {
      return Failure(400, "Invalid videoId");
    }
    var liked := FlipLike(s, OnVideo(videoId), OnVideo(videoId), caller, now);
    FlipPreservesUniqueness(old(s.likes), s.likes, old(s.nextId), OnVideo(videoId), caller, now, liked);
    FlipKeepsFieldsUnique(old(s.likes), s.likes, old(s.nextId), OnVideo(videoId), OnVideo(videoId), caller, now, liked, {VideoField, CommentField, TweetField});
    return Success(200, LikeState(liked));
  }

  /** toggleCommentLike: the same flip over the `comment` field. */
  method ToggleCommentLike(s: Store, commentId: Id, caller: Id, now: int) returns (r: Response<LikeState>)
    requires s.Valid()
    modifies s`likes, s`nextId
    ensures s.Valid()
    ensures !s.isValidObjectId(commentId) ==>
      r == Failure(400, "Invalid comment Id") && s.likes == old(s.likes) && s.nextId == old(s.nextId)
    ensures s.isValidObjectId(commentId) ==>
      && r.Success? && r.status == 200
      && FlipStep(old(s.likes), s.likes, old(s.nextId), OnComment(commentId), OnComment(commentId), caller, now, r.data.isLiked)
      && (old(LikePairsUnique(s.likes)) ==> LikePairsUnique(s.likes))
      && KeepsFieldsUnique(old(s.likes), s.likes, {VideoField, CommentField, TweetField})
  {
    if !s.isValidObjectId(commentId) {
      return Failure(400, "Invalid comment Id");
    }
    var liked := FlipLike(s, OnComment(commentId), OnComment(commentId), caller, now);
    FlipPreservesUniqueness(old(s.likes), s.likes, old(s.nextId), OnComment(commentId), caller, now, liked);
    FlipKeepsFieldsUnique(old(s.likes), s.likes, old(s.nextId), OnComment(commentId), OnComment(commentId), caller, now, liked, {VideoField, CommentField, TweetField});
    return Success(200, LikeState(liked));
  }

  /**
   * toggleTweetLike as written: it looks up the caller's row on the `tweet`
   * field but inserts a row on the `comment` field.
   */
  method ToggleTweetLike(s: Store, tweetId: Id, caller: Id, now: int) returns (r: Response<LikeState>)
    requires s.Valid()
    modifies s`likes, s`nextId
    ensures s.Valid()
    ensures !s.isValidObjectId(tweetId) ==>
      r == Failure(400, "Invalid tweet Id") && s.likes == old(s.likes) && s.nextId == old(s.nextId)
    ensures s.isValidObjectId(tweetId) ==>
      && r.Success? && r.status == 200
      && FlipStep(old(s.likes), s.likes, old(s.nextId), OnTweet(tweetId), OnComment(tweetId), caller, now, r.data.isLiked)
      && KeepsFieldsUnique(old(s.likes), s.likes, {VideoField, TweetField})
  {
    if !s.isValidObjectId(tweetId) {
      return Failure(400, "Invalid tweet Id");
    }
    var liked := FlipLike(s, OnTweet(tweetId), OnComment(tweetId), caller, now);
    FlipKeepsFieldsUnique(old(s.likes), s.likes, old(s.nextId), OnTweet(tweetId), OnComment(tweetId), caller, now, liked,
                          {VideoField, TweetField});
    return Success(200, LikeState(liked));
  }

  /** toggleTweetLike with the insert on the `tweet` field, as its lookup expects. */
  method ToggleTweetLikeIntended(s: Store, tweetId: Id, caller: Id, now: int) returns (r: Response<LikeState>)
    requires s.Valid()
    modifies s`likes, s`nextId
    ensures s.Valid()
    ensures !s.isValidObjectId(tweetId) ==>
      r == Failure(400, "Invalid tweet Id") && s.likes == old(s.likes) && s.nextId == old(s.nextId)
    ensures s.isValidObjectId(tweetId) ==>
      && r.Success? && r.status == 200
      && FlipStep(old(s.likes), s.likes, old(s.nextId), OnTweet(tweetId), OnTweet(tweetId), caller, now, r.data.isLiked)
      && (old(LikePairsUnique(s.likes)) ==> LikePairsUnique(s.likes))
      && KeepsFieldsUnique(old(s.likes), s.likes, {VideoField, CommentField, TweetField})
  {
    if !s.isValidObjectId(tweetId) {
      return Failure(400, "Invalid tweet Id");
    }
    var liked := FlipLike(s, OnTweet(tweetId), OnTweet(tweetId), caller, now);
    FlipPreservesUniqueness(old(s.likes), s.likes, old(s.nextId), OnTweet(tweetId), caller, now, liked);
    FlipKeepsFieldsUnique(old(s.likes), s.likes, old(s.nextId), OnTweet(tweetId), OnTweet(tweetId), caller, now, liked, {VideoField, CommentField, TweetField});
    return Success(200, LikeState(liked));
  }

  lemma FlipPreservesUniqueness(before: seq<Like>, after: seq<Like>, id: Id, t: Target, u: Id, now: int, isLiked: bool)
    requires FlipStep(before, after, id, t, t, u, now, isLiked)
    ensures LikePairsUnique(before) ==> LikePairsUnique(after)
  {
    if LikePairsUnique(before) { FlipKeepsPairsUnique(before, after, id, t, u, now, isLiked); }
  }

  /**
   * toggleTweetLike as written never finds the row it inserted: from a state
   * without a `tweet` like of `u`, two calls both report `isLiked: true`, add
   * two rows, and leave two rows of `u` on the same `comment` id.
   */
  lemma TweetLikeNeverUnlikes(l0: seq<Like>, l1: seq<Like>, l2: seq<Like>, id1: Id, id2: Id,
                              tweetId: Id, u: Id, now1: int, now2: int, b1: bool, b2: bool)
    requires FlipStep(l0, l1, id1, OnTweet(tweetId), OnComment(tweetId), u, now1, b1)
    requires FlipStep(l1, l2, id2, OnTweet(tweetId), OnComment(tweetId), u, now2, b2)
    requires !HasLike(l0, OnTweet(tweetId), u)
    ensures b1 && b2
    ensures |l2| == |l0| + 2
    ensures !HasLike(l2, OnTweet(tweetId), u)
    ensures !LikePairsUnique(l2)
    ensures !FieldPairsUnique(l2, CommentField)
  {
    var n1 := NewLike(id1, u, OnComment(tweetId), now1);
    var n2 := NewLike(id2, u, OnComment(tweetId), now2);
    assert l1 == l0 + [n1];
    assert !HasLike(l1, OnTweet(tweetId), u) by {
      forall l | l in l1 ensures !Matches(l, OnTweet(tweetId), u) {
        if l != n1 { assert l in l0; }
      }
    }
    assert l2 == l1 + [n2];
    forall l | l in l2 ensures !Matches(l, OnTweet(tweetId), u) {
      if l != n2 { assert l in l1; }
    }
    assert l2[|l0|] == n1 && l2[|l0| + 1] == n2;
    assert SamePair(l2[|l0|], l2[|l0| + 1]);
    assert !PairUnique(l2, OnComment(tweetId), u) by {
      assert Matches(l2[|l0|], OnComment(tweetId), u) && Matches(l2[|l0| + 1], OnComment(tweetId), u);
    }
  }

  // ----------------------------------------------------------- liked videos

  /**
   * A user document has no `isPublished` field, so the `$match: {isPublished:
   * true}` stage inside the join on `users` keeps none of them.
   */
  predicate UserDocumentPublished(u: Id) { false }

  /** The likes of `u` that carry a `video` id. */
  function VideoLikesBy(likes: seq<Like>, u: Id): (r: seq<Like>)
    ensures forall l :: l in r <==> l in likes && l.likedBy == u && l.video.Some?
    ensures forall l :: multiset(r)[l] == if l.likedBy == u && l.video.Some? then multiset(likes)[l] else 0
  {
    Rows.Filter(likes, (l: Like) => l.likedBy == u && l.video.Some?)
  }

  /**
   * getLikedVideos's pipeline as written: it joins each like's `video` id
   * against the `users` collection, keeps the joined user documents that are
   * published, unwinds, sorts by the like's `createdAt` and returns the joined
   * user documents (here: the like rows that survive the unwind).
   */
  function LikedVideosAsWritten(db: Db, u: Id): (r: seq<Like>)
    ensures forall l :: l in r ==>
      && l in db.likes && l.likedBy == u && l.video.Some?
      && l.video.value in db.watchHistory && UserDocumentPublished(l.video.value)
  {
    var liked := VideoLikesBy(db.likes, u);
    var unwound := Rows.Filter(liked, (l: Like) => l.video.Some? && l.video.value in db.watchHistory
                                                   && UserDocumentPublished(l.video.value));
    var sorted := Rows.Sort(unwound, LikeCreatedAt, false);
    Rows.SortKeepsRows(unwound, LikeCreatedAt, false);
    sorted
  }

  /** As written, the list is empty whatever the store holds. */
  lemma LikedVideosAsWrittenIsEmpty(db: Db, u: Id)
    ensures LikedVideosAsWritten(db, u) == []
  {
    var liked := VideoLikesBy(db.likes, u);
    var keep := (l: Like) => l.video.Some? && l.video.value in db.watchHistory && UserDocumentPublished(l.video.value);
    var unwound := Rows.Filter(liked, keep);
    forall l ensures multiset(unwound)[l] == 0 {
      assert !keep(l);
    }
    assert multiset(unwound) == multiset{};
    var sorted := Rows.Sort(unwound, LikeCreatedAt, false);
    assert |sorted| == |multiset(sorted)| == |multiset(unwound)| == 0;
  }

  /** A liked video with the like that lists it. */
  datatype LikedVideo = LikedVideo(like: Like, video: Video)

  /** The published video a like points at, when the video and its owner exist. */
  function JoinLikedVideo(db: Db, l: Like): (r: Option<LikedVideo>)
    ensures r.Some? ==>
      && r.value.like == l && r.value.video in db.videos && l.video == Some(r.value.video.id)
      && r.value.video.isPublished && r.value.video.owner in db.watchHistory
    ensures forall v :: (Rows.DistinctKeys(db.videos, VideoKey) && v in db.videos && l.video == Some(v.id)
                         && v.isPublished && v.owner in db.watchHistory) ==> r == Some(LikedVideo(l, v))
  {
    assert forall v :: Rows.DistinctKeys(db.videos, VideoKey) && v in db.videos && l.video == Some(v.id)
                       ==> VideoIndex(db.videos, v.id).Some? && db.videos[VideoIndex(db.videos, v.id).value] == v by {
      forall v | Rows.DistinctKeys(db.videos, VideoKey) && v in db.videos && l.video == Some(v.id)
        ensures VideoIndex(db.videos, v.id).Some? && db.videos[VideoIndex(db.videos, v.id).value] == v
      {
        var k :| 0 <= k < |db.videos| && db.videos[k] == v;
        var i := VideoIndex(db.videos, v.id).value;
        assert VideoKey(db.videos[i]) == VideoKey(db.videos[k]);
      }
    }
    if l.video.None? then None
    else match VideoIndex(db.videos, l.video.value)
      case None => None
      case Some(i) =>
        var v := db.videos[i];
        if v.isPublished && v.owner in db.watchHistory then Some(LikedVideo(l, v)) else None
  }

  function JoinAll(db: Db, likes: seq<Like>): (r: seq<LikedVideo>)
    ensures forall x :: x in r ==> x.like in likes && JoinLikedVideo(db, x.like) == Some(x)
    ensures forall l :: l in likes && JoinLikedVideo(db, l).Some? ==> JoinLikedVideo(db, l).value in r
    ensures forall l :: JoinLikedVideo(db, l).Some? ==> multiset(r)[JoinLikedVideo(db, l).value] == multiset(likes)[l]
  {
    if likes == [] then []
    else
      var tail := JoinAll(db, likes[1..]);
      assert likes == [likes[0]] + likes[1..];
      assert forall l :: l in likes <==> l == likes[0] || l in likes[1..];
      match JoinLikedVideo(db, likes[0])
      case None =>
        assert forall l :: JoinLikedVideo(db, l).Some? ==> l != likes[0];
        tail
      case Some(x) =>
        assert forall l :: JoinLikedVideo(db, l).Some? ==> (JoinLikedVideo(db, l).value == x <==> l == likes[0]);
        [x] + tail
  }

  function LikedVideoTime(x: LikedVideo): int { x.like.createdAt }

  /**
   * getLikedVideos as evidently intended: the caller's likes on videos, newest
   * like first, each joined with its video when that video is published and
   * its owner exists.
   */
  function LikedVideos(db: Db, u: Id): (r: seq<LikedVideo>)
    ensures forall x :: x in r ==>
      && x.like in db.likes && x.like.likedBy == u && x.like.video == Some(x.video.id)
      && x.video in db.videos && x.video.isPublished && x.video.owner in db.watchHistory
    ensures Rows.SortedBy(r, LikedVideoTime, false)
    ensures forall l :: l in db.likes && l.likedBy == u && JoinLikedVideo(db, l).Some? ==>
      JoinLikedVideo(db, l).value in r
    ensures forall l :: JoinLikedVideo(db, l).Some? ==>
      multiset(r)[JoinLikedVideo(db, l).value] == if l.likedBy == u then multiset(db.likes)[l] else 0
  {
    var joined := JoinAll(db, VideoLikesBy(db.likes, u));
    Rows.SortKeepsRows(joined, LikedVideoTime, false);
    Rows.Sort(joined, LikedVideoTime, false)
  }

  /**
   * One published video with one like: the intended list holds that like,
   * the list as written is empty.
   */
  lemma LikedVideosDifferFromAsWritten(u: Id, owner: Id, v: Video, l: Like)
    requires v.owner == owner && v.isPublished && l.likedBy == u && l.video == Some(v.id)
    ensures
      var db := Db([v], [], [], [l], [], map[owner := []]);
      && LikedVideos(db, u) == [LikedVideo(l, v)]
      && LikedVideosAsWritten(db, u) == []
  {
    var db := Db([v], [], [], [l], [], map[owner := []]);
    LikedVideosAsWrittenIsEmpty(db, u);
    var x := LikedVideo(l, v);
    assert [l][1..] == [];
    assert VideoLikesBy(db.likes, u) == [l];
    assert JoinLikedVideo(db, l) == Some(x);
    assert JoinAll(db, [l]) == [x];
    assert [x][1..] == [];
    assert Rows.Sort([x], LikedVideoTime, false) == [x];
  }

  /** getLikedVideos: 401 without a caller; otherwise the list as written, with status 200. */
  function GetLikedVideos(db: Db, caller: Option<Id>): (r: Response<seq<Like>>)
    ensures caller.None? <==> r == Failure(401, "Unauthorized access")
    ensures caller.Some? ==> r == Success(200, LikedVideosAsWritten(db, caller.value))
  {
    if caller.None? then Failure(401, "Unauthorized access")
    else Success(200, LikedVideosAsWritten(db, caller.value))
  }

  /** getLikedVideos with the join reading from `videos`: 401 without a caller, otherwise the liked videos. */
  function GetLikedVideosIntended(db: Db, caller: Option<Id>): (r: Response<seq<LikedVideo>>)
    ensures caller.None? <==> r == Failure(401, "Unauthorized access")
    ensures caller.Some? ==> r == Success(200, LikedVideos(db, caller.value))
  {
    if caller.None? then Failure(401, "Unauthorized access")
    else Success(200, LikedVideos(db, caller.value))
  }
}
