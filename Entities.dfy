/**
 * The persisted entities the controllers read and write, a snapshot of the
 * whole store, and the join stages (`$lookup`) several controllers share.
 */
module Entities {
  import opened Wrappers
  import Rows

  /** An opaque object id. */
  type Id = nat

  datatype Video = Video(
    id: Id, owner: Id, title: string, description: string,
    videoFile: string, thumbnail: string,
    views: nat, isPublished: bool, createdAt: int)

  datatype Comment = Comment(id: Id, video: Id, owner: Id, content: string, createdAt: int)

  datatype Tweet = Tweet(id: Id, owner: Id, content: string, createdAt: int)

  /** A like row: the source stores up to three optional target fields. */
  datatype Like = Like(
    id: Id, likedBy: Id,
    video: Option<Id>, comment: Option<Id>, tweet: Option<Id>,
    createdAt: int)

  datatype Subscription = Subscription(id: Id, subscriber: Id, channel: Id)

  /**
   * Every collection at one instant. A user row is represented by its watch
   * history: the users are the keys of `watchHistory`.
   */
  datatype Db = Db(
    videos: seq<Video>, comments: seq<Comment>, tweets: seq<Tweet>,
    likes: seq<Like>, subscriptions: seq<Subscription>,
    watchHistory: map<Id, seq<Id>>)

  /** A handler's outcome: a status with a payload, or an error status with its message. */
  datatype Response<T> = Success(status: nat, data: T) | Failure(status: nat, message: string)

  // Primary keys and sort keys, as named functions.
  function VideoKey(v: Video): Id { v.id }
  function CommentKey(c: Comment): Id { c.id }
  function TweetKey(t: Tweet): Id { t.id }
  function LikeKey(l: Like): Id { l.id }
  function SubscriptionKey(s: Subscription): Id { s.id }
  function VideoCreatedAt(v: Video): int { v.createdAt }
  function VideoViews(v: Video): int { v.views }
  function LikeCreatedAt(l: Like): int { l.createdAt }

  /** The field of a like row that a lookup matches on, with the id it must hold. */
  datatype Target = OnVideo(id: Id) | OnComment(id: Id) | OnTweet(id: Id)

  predicate Targets(l: Like, t: Target) {
    match t
    case OnVideo(v) => l.video == Some(v)
    case OnComment(c) => l.comment == Some(c)
    case OnTweet(w) => l.tweet == Some(w)
  }

  /** The row `Like.create({<field of t>: id, likedBy})` inserts. */
  function NewLike(id: Id, likedBy: Id, t: Target, now: int): (l: Like)
    ensures Targets(l, t) && l.id == id && l.likedBy == likedBy
    ensures forall t' :: Targets(l, t') ==> t' == t
  {
    match t
    case OnVideo(v) => Like(id, likedBy, Some(v), None, None, now)
    case OnComment(c) => Like(id, likedBy, None, Some(c), None, now)
    case OnTweet(w) => Like(id, likedBy, None, None, Some(w), now)
  }

  /** `u` has a like row on `t`. */
  predicate HasLike(likes: seq<Like>, t: Target, u: Id) {
    exists l :: l in likes && Targets(l, t) && l.likedBy == u
  }

  /** Two like rows by the same user name the same target. */
  predicate SamePair(a: Like, b: Like) {
    a.likedBy == b.likedBy
    && ((a.video.Some? && a.video == b.video)
        || (a.comment.Some? && a.comment == b.comment)
        || (a.tweet.Some? && a.tweet == b.tweet))
  }

  /** At most one like row per (user, target) pair. */
  ghost predicate LikePairsUnique(likes: seq<Like>) {
    forall i, j :: 0 <= i < j < |likes| ==> !SamePair(likes[i], likes[j])
  }

  predicate IsSubscribed(subs: seq<Subscription>, subscriber: Id, channel: Id) {
    exists x :: x in subs && x.subscriber == subscriber && x.channel == channel
  }

  function SubscriptionPair(x: Subscription): (Id, Id) { (x.subscriber, x.channel) }

  /** At most one subscription row per (subscriber, channel) pair. */
  ghost predicate SubscriptionPairsUnique(subs: seq<Subscription>) {
    Rows.DistinctKeys(subs, SubscriptionPair)
  }

  ghost predicate NoSelfSubscription(subs: seq<Subscription>) {
    forall i :: 0 <= i < |subs| ==> subs[i].subscriber != subs[i].channel
  }

  // ------------------------------------------------------------ shared joins

  /**
   * `$lookup` from likes on one target field: the like rows on `t`, in store
   * order.
   */
  function LikesOn(likes: seq<Like>, t: Target): (r: seq<Like>)
    ensures |r| <= |likes|
    ensures forall l :: l in r <==> l in likes && Targets(l, t)
    ensures forall l :: multiset(r)[l] == if Targets(l, t) then multiset(likes)[l] else 0
  {
    Rows.Filter(likes, (l: Like) => Targets(l, t))
  }

  /** `Like.deleteMany({<field of t>: id})`: the like rows not on `t`, in store order. */
  function LikesNotOn(likes: seq<Like>, t: Target): (r: seq<Like>)
    ensures forall l :: l in r <==> l in likes && !Targets(l, t)
    ensures forall l :: multiset(r)[l] == if Targets(l, t) then 0 else multiset(likes)[l]
  {
    Rows.Filter(likes, (l: Like) => !Targets(l, t))
  }

  /** `Comment.deleteMany({video})`: the comments on other videos, in store order. */
  function CommentsNotOn(comments: seq<Comment>, videoId: Id): (r: seq<Comment>)
    ensures forall c :: c in r <==> c in comments && c.video != videoId
    ensures forall c :: multiset(r)[c] == if c.video == videoId then 0 else multiset(comments)[c]
  {
    Rows.Filter(comments, (c: Comment) => c.video != videoId)
  }

  /** `$in: [u, "$likes.likedBy"]` over the rows of a like lookup. */
  function LikedIn(joined: seq<Like>, u: Id): (b: bool)
    ensures b <==> exists l :: l in joined && l.likedBy == u
  {
    u in Rows.Map(joined, (l: Like) => l.likedBy)
  }

  /** `$lookup` from subscriptions on `channel`. */
  function SubscriptionsTo(subs: seq<Subscription>, channel: Id): (r: seq<Subscription>)
    ensures |r| <= |subs|
    ensures forall x :: x in r <==> x in subs && x.channel == channel
    ensures forall x :: multiset(r)[x] == if x.channel == channel then multiset(subs)[x] else 0
  {
    Rows.Filter(subs, (x: Subscription) => x.channel == channel)
  }

  /** `$match: {owner}` over videos. */
  function VideosBy(videos: seq<Video>, owner: Id): (r: seq<Video>)
    ensures |r| <= |videos|
    ensures forall v :: v in r <==> v in videos && v.owner == owner
    ensures forall v :: multiset(r)[v] == if v.owner == owner then multiset(videos)[v] else 0
  {
    Rows.Filter(videos, (v: Video) => v.owner == owner)
  }

  /** `findById` over videos. */
  function VideoIndex(videos: seq<Video>, id: Id): (r: Option<nat>)
    ensures r.Some? ==> r.value < |videos| && videos[r.value].id == id
    ensures r.None? <==> forall j :: 0 <= j < |videos| ==> videos[j].id != id
  {
    Rows.IndexOfKey(videos, VideoKey, id)
  }

  function CommentIndex(comments: seq<Comment>, id: Id): (r: Option<nat>)
    ensures r.Some? ==> r.value < |comments| && comments[r.value].id == id
    ensures r.None? <==> forall j :: 0 <= j < |comments| ==> comments[j].id != id
  {
    Rows.IndexOfKey(comments, CommentKey, id)
  }

  function TweetIndex(tweets: seq<Tweet>, id: Id): (r: Option<nat>)
    ensures r.Some? ==> r.value < |tweets| && tweets[r.value].id == id
    ensures r.None? <==> forall j :: 0 <= j < |tweets| ==> tweets[j].id != id
  {
    Rows.IndexOfKey(tweets, TweetKey, id)
  }
}
