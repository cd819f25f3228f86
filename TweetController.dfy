/**
 * tweet.controller.js: posting, listing, editing and deleting tweets.
 */
module TweetController {
  import opened Wrappers
  import opened Entities
  import opened EntityStore
  import Rows
  import Text

  /**
   * createTweet: 400 when the content trims to nothing; otherwise the
   * caller's tweet with the trimmed content.
   */
  method CreateTweet(s: Store, caller: Id, content: string, now: int) returns (r: Response<Tweet>)
    requires s.Valid()
    modifies s`tweets, s`nextId
    ensures s.Valid()
    ensures r.Failure? <==> s.tweets == old(s.tweets) && s.nextId == old(s.nextId)
    ensures Text.Trim(content) == [] ==> r == Failure(400, "content is required")
    ensures Text.Trim(content) != [] ==>
      && r == Success(201, Tweet(old(s.nextId), caller, Text.Trim(content), now))
      && s.tweets == old(s.tweets) + [r.data]
      && s.nextId == old(s.nextId) + 1
    ensures r.Success? ==> Text.Trim(r.data.content) == r.data.content && !Text.AllBlank(r.data.content)
  {
    var trimmed := Text.Trim(content);
    if trimmed == [] {
      return Failure(400, "content is required");
    }
    Text.TrimIdempotent(content);
    Text.TrimmedContentNotBlank(content);
    var t := Tweet(s.nextId, caller, trimmed, now);
    Rows.AppendKeepsDistinct(s.tweets, t, TweetKey);
    s.tweets := s.tweets + [t];
    s.nextId := s.nextId + 1;
    return Success(201, t);
  }

  /** A tweet as the listing shows it: its owner row when present, its like count and the caller's flag. */
  datatype TweetView = TweetView(tweet: Tweet, ownerDetails: Option<Id>, likesCount: nat, isLiked: bool)

  function TweetViewCreatedAt(x: TweetView): int { x.tweet.createdAt }

  /** The owner join (`$first`, so a missing user leaves the field empty) and the like join on `tweet`. */
  function TweetViewOf(db: Db, viewer: Id, t: Tweet): (x: TweetView)
    ensures x.tweet == t
    ensures x.ownerDetails == if t.owner in db.watchHistory then Some(t.owner) else None
    ensures x.likesCount == |LikesOn(db.likes, OnTweet(t.id))|
    ensures x.isLiked <==> HasLike(db.likes, OnTweet(t.id), viewer)
  {
    var likes := LikesOn(db.likes, OnTweet(t.id));
    TweetView(t, if t.owner in db.watchHistory then Some(t.owner) else None, |likes|, LikedIn(likes, viewer))
  }

  /** getUserTweets's rows: every tweet of the user, newest first. */
  function UserTweets(db: Db, userId: Id, viewer: Id): (r: seq<TweetView>)
    ensures forall x :: x in r ==> x.tweet in db.tweets && x.tweet.owner == userId && x == TweetViewOf(db, viewer, x.tweet)
    ensures forall t :: t in db.tweets && t.owner == userId ==> TweetViewOf(db, viewer, t) in r
    ensures forall t :: multiset(r)[TweetViewOf(db, viewer, t)] ==
                        if t.owner == userId then multiset(db.tweets)[t] else 0
    ensures Rows.SortedBy(r, TweetViewCreatedAt, false)
  {
    var owned := Rows.Filter(db.tweets, (t: Tweet) => t.owner == userId);
    var view := (t: Tweet) => TweetViewOf(db, viewer, t);
    var views := Rows.Map(owned, view);
    Rows.SortKeepsRows(views, TweetViewCreatedAt, false);
    forall t ensures multiset(views)[view(t)] == multiset(owned)[t] {
      Rows.MapInjectiveCount(owned, view, t);
    }
    forall t | t in db.tweets && t.owner == userId ensures TweetViewOf(db, viewer, t) in views {
      assert t in owned;
    }
    Rows.Sort(views, TweetViewCreatedAt, false)
  }

  /** getUserTweets: 400 on a malformed id, otherwise the list with status 200. */
  function GetUserTweets(db: Db, isValidObjectId: Id -> bool, userId: Id, caller: Id): (r: Response<seq<TweetView>>)
    ensures !isValidObjectId(userId) <==> r == Failure(400, "Invalid userId")
    ensures isValidObjectId(userId) ==> r == Success(200, UserTweets(db, userId, caller))
  {
    if !isValidObjectId(userId) then Failure(400, "Invalid userId")
    else Success(200, UserTweets(db, userId, caller))
  }

  /**
   * updateTweet: 400 on a malformed id or blank content, 404 when the tweet
   * does not exist, 403 unless the caller owns it; otherwise only its content
   * changes, to the trimmed text.
   */
  method UpdateTweet(s: Store, tweetId: Id, caller: Id, content: string) returns (r: Response<Tweet>)
    requires s.Valid()
    modifies s`tweets
    ensures s.Valid()
    ensures r.Failure? ==> s.tweets == old(s.tweets)
    ensures !s.isValidObjectId(tweetId) ==> r == Failure(400, "Invalid tweetId")
    ensures s.isValidObjectId(tweetId) && Text.Trim(content) == [] ==> r == Failure(400, "Tweet content is required")
    ensures s.isValidObjectId(tweetId) && Text.Trim(content) != [] ==>
      match TweetIndex(old(s.tweets), tweetId)
      case None => r == Failure(404, "Tweet not found")
      case Some(i) =>
        if old(s.tweets)[i].owner != caller then r == Failure(403, "Only the owner can edit this tweet")
        else
          && r == Success(200, old(s.tweets)[i].(content := Text.Trim(content)))
          && s.tweets == old(s.tweets)[i := r.data]
    ensures r.Success? ==> Text.Trim(r.data.content) == r.data.content && !Text.AllBlank(r.data.content)
  {
    if !s.isValidObjectId(tweetId) {
      return Failure(400, "Invalid tweetId");
    }
    var trimmed := Text.Trim(content);
    if trimmed == [] {
      return Failure(400, "Tweet content is required");
    }
    var found := TweetIndex(s.tweets, tweetId);
    if found.None? {
      return Failure(404, "Tweet not found");
    }
    var i := found.value;
    if s.tweets[i].owner != caller {
      return Failure(403, "Only the owner can edit this tweet");
    }
    Text.TrimIdempotent(content);
    Text.TrimmedContentNotBlank(content);
    var edited := s.tweets[i].(content := trimmed);
    Rows.UpdateKeepsDistinct(s.tweets, i, edited, TweetKey);
    s.tweets := s.tweets[i := edited];
    return Success(200, edited);
  }

  /**
   * deleteTweet: 400 on a malformed id, 404 when the tweet does not exist,
   * 403 unless the caller owns it; otherwise the tweet row alone is deleted
   * (the likes on it stay).
   */
  method DeleteTweet(s: Store, tweetId: Id, caller: Id) returns (r: Response<Id>)
    requires s.Valid()
    modifies s`tweets
    ensures s.Valid()
    ensures r.Failure? ==> s.tweets == old(s.tweets)
    ensures !s.isValidObjectId(tweetId) ==> r == Failure(400, "Invalid tweetId")
    ensures s.isValidObjectId(tweetId) ==>
      match TweetIndex(old(s.tweets), tweetId)
      case None => r == Failure(404, "Tweet not found")
      case Some(i) =>
        if old(s.tweets)[i].owner != caller then r == Failure(403, "Only the owner can delete this tweet")
        else
          && r == Success(200, tweetId)
          && s.tweets == Rows.RemoveAt(old(s.tweets), i)
          && TweetIndex(s.tweets, tweetId).None?
  {
    if !s.isValidObjectId(tweetId) {
      return Failure(400, "Invalid tweetId");
    }
    var found := TweetIndex(s.tweets, tweetId);
    if found.None? {
      return Failure(404, "Tweet not found");
    }
    var i := found.value;
    if s.tweets[i].owner != caller {
      return Failure(403, "Only the owner can delete this tweet");
    }
    s.DeleteTweetAt(i);
    return Success(200, tweetId);
  }
}
