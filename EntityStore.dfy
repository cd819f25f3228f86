/**
 * The document store the controllers work against, as one object whose
 * collections the handlers replace step by step.
 */
module EntityStore {
  import opened Entities
  import Rows

  class Store {
    var videos: seq<Video>
    var comments: seq<Comment>
    var tweets: seq<Tweet>
    var likes: seq<Like>
    var subscriptions: seq<Subscription>
    /** One entry per user row: that user's watch history. */
    var watchHistory: map<Id, seq<Id>>
    /** The next object id the store hands out; every id in use is below it. */
    var nextId: Id
    /** `isValidObjectId`, an uninterpreted test on ids. */
    const isValidObjectId: Id -> bool

    /** Primary keys are unique per collection and all below `nextId`. */
    ghost predicate Valid()
      reads this
    {
      && Rows.DistinctKeys(videos, VideoKey)
      && Rows.DistinctKeys(comments, CommentKey)
      && Rows.DistinctKeys(tweets, TweetKey)
      && Rows.DistinctKeys(likes, LikeKey)
      && Rows.DistinctKeys(subscriptions, SubscriptionKey)
      && (forall i :: 0 <= i < |videos| ==> videos[i].id < nextId)
      && (forall i :: 0 <= i < |comments| ==> comments[i].id < nextId)
      && (forall i :: 0 <= i < |tweets| ==> tweets[i].id < nextId)
      && (forall i :: 0 <= i < |likes| ==> likes[i].id < nextId)
      && (forall i :: 0 <= i < |subscriptions| ==> subscriptions[i].id < nextId)
    }

    /** The store's current contents, for the read pipelines. */
    function Snapshot(): (db: Db)
      reads this
      ensures db.videos == videos && db.comments == comments && db.tweets == tweets
      ensures db.likes == likes && db.subscriptions == subscriptions
      ensures db.watchHistory == watchHistory
    {
      Db(videos, comments, tweets, likes, subscriptions, watchHistory)
    }

    /** `Like.deleteMany` on one target field. */
    method DeleteLikesOn(t: Target)
      requires Valid()
      modifies `likes
      ensures Valid()
      ensures likes == LikesNotOn(old(likes), t)
    {
      Rows.FilterKeepsDistinct(likes, (l: Like) => !Targets(l, t), LikeKey);
      var kept := LikesNotOn(likes, t);
      forall i | 0 <= i < |kept| ensures kept[i].id < nextId {
        assert kept[i] in likes;
      }
      likes := kept;
    }

    /** `Comment.deleteMany({video})`. */
    method DeleteCommentsOn(videoId: Id)
      requires Valid()
      modifies `comments
      ensures Valid()
      ensures comments == CommentsNotOn(old(comments), videoId)
    {
      Rows.FilterKeepsDistinct(comments, (c: Comment) => c.video != videoId, CommentKey);
      var kept := CommentsNotOn(comments, videoId);
      forall i | 0 <= i < |kept| ensures kept[i].id < nextId {
        assert kept[i] in comments;
      }
      comments := kept;
    }

    /** `Video.findByIdAndDelete` on the row at `i`: no row keeps its id. */
    method DeleteVideoAt(i: nat)
      requires Valid() && i < |videos|
      modifies `videos
      ensures Valid()
      ensures videos == Rows.RemoveAt(old(videos), i)
      ensures VideoIndex(videos, old(videos)[i].id).None?
    {
      Rows.RemoveAtKeepsDistinct(videos, i, VideoKey);
      Rows.RemoveAtRemovesKey(videos, i, VideoKey);
      videos := Rows.RemoveAt(videos, i);
    }

    /** `Comment.findByIdAndDelete` on the row at `i`: no row keeps its id. */
    method DeleteCommentAt(i: nat)
      requires Valid() && i < |comments|
      modifies `comments
      ensures Valid()
      ensures comments == Rows.RemoveAt(old(comments), i)
      ensures CommentIndex(comments, old(comments)[i].id).None?
    {
      Rows.RemoveAtKeepsDistinct(comments, i, CommentKey);
      Rows.RemoveAtRemovesKey(comments, i, CommentKey);
      comments := Rows.RemoveAt(comments, i);
    }

    /** `Tweet.findByIdAndDelete` on the row at `i`: no row keeps its id. */
    method DeleteTweetAt(i: nat)
      requires Valid() && i < |tweets|
      modifies `tweets
      ensures Valid()
      ensures tweets == Rows.RemoveAt(old(tweets), i)
      ensures TweetIndex(tweets, old(tweets)[i].id).None?
    {
      Rows.RemoveAtKeepsDistinct(tweets, i, TweetKey);
      Rows.RemoveAtRemovesKey(tweets, i, TweetKey);
      tweets := Rows.RemoveAt(tweets, i);
    }

    /** An empty store whose registered users are `users`, each with an empty history. */
    constructor (isValidObjectId: Id -> bool, users: set<Id>)
      ensures Valid()
      ensures this.isValidObjectId == isValidObjectId
      ensures videos == [] && comments == [] && tweets == [] && likes == [] && subscriptions == []
      ensures watchHistory == map u | u in users :: []
    {
      this.isValidObjectId := isValidObjectId;
      videos, comments, tweets, likes, subscriptions := [], [], [], [], [];
      watchHistory := map u | u in users :: [];
      nextId := 0;
    }
  }
}
