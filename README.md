# Video-sharing backend controllers, modelled in Dafny

This project models the bookkeeping of a video-sharing backend's six controllers. The controllers cover:

- videos;
- subscriptions;
- comments;
- likes;
- tweets;
- the channel dashboard.

The model runs against an abstract in-memory document store, not a database.

## The store

The store is a class, `EntityStore.Store`. It holds one sequence per collection: videos, comments, tweets, likes and subscriptions.

- **Users:** they are the keys of `watchHistory`, each mapped to that user's watch history.
- **Ids:** new ids come from a counter, `nextId`.
- **Id format:** `isValidObjectId` is an uninterpreted test on ids.
- **`Valid()`:** every collection's ids are unique, and every id in use is below the counter.

## Handlers

- **Handlers that change the store** are methods over a `Store`.
  - Each one checks its error conditions in the source's order, and a rejected call leaves the store as it was.
  - Each one states its whole new state, either in terms of a pure function of the old state or as an explicit update at the row's position.
- **Read pipelines** are pure functions over a snapshot, `Entities.Db`.
  - Joins with `$unwind` drop rows whose joined user is missing. Joins with `$first` keep them.
  - Sorting is a stable insertion sort.
  - Pagination is offset slicing.
- **The like toggles** share one engine, `LikeController.FlipLike`. It is specified by a two-snapshot relation, `LikeController.FlipStep`. The lemmas about that relation prove three properties:
  - toggling twice restores the pair's state, given only that the pair has at most one row;
  - at most one row per (user, target) pair is preserved, field by field: the tweet toggle as written breaks it for `comment` targets only, so the `video` and `tweet` guarantees survive it;
  - a toggle leaves every other row in place.
- **The subscription toggle** is specified by the pure function `SubscriptionController.SubscriptionToggle`, with the same three kinds of lemma.

## Behaviour that a reader of the handlers might not expect

The model follows the code in both places.

- **The latest-video join in `getSubscribedChannels`** has no publish filter (`src/controllers/subscription.controller.js:152-159`). The listed video is the newest one, published or not.
- **The video detail view returns no like count.** The count is computed under one name and projected under another (`src/controllers/video.controller.js:225,240`).

## Model

| member | source | states |
|---|---|---|
| `Text.Trim` | src/controllers/comment.controller.js:100-101 | the result is empty exactly when every character is JavaScript whitespace; otherwise it runs from the first to the last non-blank character |
| `Text.TrimIdempotent` | src/controllers/comment.controller.js:110 | trimmed content is unchanged by trimming again |
| `Rows.Filter` | src/controllers/video.controller.js:341-347 | keeps exactly the rows that satisfy the filter, each as often as before |
| `Rows.FilterAppend` | src/controllers/video.controller.js:341-347 | filtering a concatenation is the concatenation of the filtered parts, so kept rows stay in their original order |
| `Rows.Sort` | src/controllers/video.controller.js:59-61 | the output is ordered on the key in the requested direction and is a permutation of the input |
| `Rows.Paginate` | src/controllers/video.controller.js:101-107 | page p holds the rows from offset (p-1)*limit onward, in order: exactly `limit` of them, or all that remain when fewer do, and none past the end |
| `Rows.PagesCoverListing` | src/controllers/comment.controller.js:79-84 | pages 1..n, when n*limit reaches the total, list every row exactly once and in order |
| `Entities.LikesOn` | src/controllers/video.controller.js:216-222 | exactly the like rows on the given target, each as often as in the store |
| `Entities.SubscriptionsTo` | src/controllers/dashboard.controller.js:18 | exactly the subscription rows of the channel, each as often as in the store |
| `Entities.VideosBy` | src/controllers/dashboard.controller.js:72 | exactly the videos of the owner, each as often as in the store |
| `Entities.LikedIn` | src/controllers/video.controller.js:227 | true exactly when some joined like is by the user |
| `Entities.NewLike` | src/controllers/like.controller.js:26-29 | the created row names exactly one target, the given one, and is by the caller |
| `EntityStore.Store.DeleteLikesOn` | src/controllers/video.controller.js:341-343 | the remaining likes are exactly those not on the target; ids stay unique |
| `EntityStore.Store.DeleteCommentsOn` | src/controllers/video.controller.js:345-347 | the remaining comments are exactly those on other videos |
| `EntityStore.Store.DeleteVideoAt` | src/controllers/video.controller.js:351 | the row is removed and no remaining video has its id |
| `EntityStore.Store.DeleteCommentAt` | src/controllers/comment.controller.js:169 | the row is removed and no remaining comment has its id |
| `EntityStore.Store.DeleteTweetAt` | src/controllers/tweet.controller.js:136 | the row is removed and no remaining tweet has its id |
| `VideoController.VideoFeed` | src/controllers/video.controller.js:42-84 | exactly the listed (search hit, owner filter, published) videos whose owner exists, with their multiplicities, sorted on the field |
| `VideoController.GetAllVideos` | src/controllers/video.controller.js:11-118 | an invalid `userId` yields 500 "Invalid userId format", and that is the only failure; otherwise 200 with only published videos (of `userId` when given), sorted on `createdAt` by default, ascending exactly when `sortType` is "asc" |
| `VideoController.PagesListWholeFeed` | src/controllers/video.controller.js:101-107 | paging through the feed lists all of it once, in order, for the model's fixed order of rows with equal sort keys |
| `VideoController.PublishAVideo` | src/controllers/video.controller.js:120-165 | checks title/description, then file paths, then uploads; on success appends one published video with no views, owned by the caller; any failure creates nothing |
| `VideoController.VideoDetailAsWritten` | src/controllers/video.controller.js:176-244 | owner block present exactly when the owner exists, with the channel's subscription count; `isSubscribed` always false; no like count; `isLiked` exactly when the viewer likes the video |
| `VideoController.VideoDetailIntended` | src/controllers/video.controller.js:196-200 | as above, but with the like count and `isSubscribed` true exactly when the viewer subscribes to the owner |
| `VideoController.DetailAsWrittenLosesFields` | src/controllers/video.controller.js:199 | a concrete store where the view as written reports no subscription and no count, and the intended view reports both |
| `VideoController.AddToSet` | src/controllers/video.controller.js:252-254 | the list grows by `x` only when `x` was absent, keeps its prefix, and its members are the old ones plus `x` |
| `VideoController.AddToSetKeepsDistinct` | src/controllers/video.controller.js:252-254 | a history without repeats stays without repeats |
| `VideoController.AddToHistory` | src/controllers/video.controller.js:252-254 | only the viewer's history changes, gains the video, and an unknown viewer changes nothing |
| `VideoController.RepeatViewAddsNothing` | src/controllers/video.controller.js:252-254 | viewing the same video again leaves the history unchanged |
| `VideoController.Viewed` | src/controllers/video.controller.js:251 | one more view and no other field changed |
| `VideoController.GetVideoById` | src/controllers/video.controller.js:167-260 | 400 for a bad video id, then 400 for a bad caller id, then 404; on success the detail view is computed before the update, views rise by one on that video only, and the video is added to the caller's history as a set |
| `VideoController.UpdateVideo` | src/controllers/video.controller.js:262-323 | 400, 400, 404, 403, 500 (failed thumbnail upload) in that order, each leaving the store unchanged; otherwise only title, description and (when sent) thumbnail change |
| `VideoController.DeleteVideo` | src/controllers/video.controller.js:325-356 | 400, 404, 403 in that order; otherwise the video, the likes on it and its comments are removed, and nothing else (likes on the removed comments stay) |
| `VideoController.TogglePublishStatus` | src/controllers/video.controller.js:358-393 | 400, 404, 403 in that order; otherwise only the flag of that video is negated and the new value reported |
| `VideoController.TogglePublishTwice` | src/controllers/video.controller.js:374-390 | two toggles restore the collection exactly and report opposite values |
| `SubscriptionController.SubscriptionToggle` | src/controllers/subscription.controller.js:22-38 | creates a row exactly when the pair had none; otherwise removes one row and adds nothing |
| `SubscriptionController.RemovedPairIsGone` | src/controllers/subscription.controller.js:26-27 | with unique pairs, after the delete no row of that pair remains |
| `SubscriptionController.ToggleKeepsInvariants` | src/controllers/subscription.controller.js:18-38 | a toggle keeps pairs unique and no self-subscription, and its flag equals the pair's new state |
| `SubscriptionController.ToggleKeepsOtherPairs` | src/controllers/subscription.controller.js:22-38 | rows of every other pair are kept and none are added |
| `SubscriptionController.ToggleTwiceRestores` | src/controllers/subscription.controller.js:22-38 | two toggles report opposite flags and restore the pair's state, and from an unsubscribed pair restore the rows exactly |
| `SubscriptionController.ToggleSubscription` | src/controllers/subscription.controller.js:7-45 | 400 for a bad channel id, then 401 without a caller, then 400 for one's own channel, none changing the store; otherwise deletes with 200 `subscribed:false` or creates with 201 `subscribed:true`, and keeps the pair invariants |
| `SubscriptionController.ChannelSubscriptionRows` | src/controllers/subscription.controller.js:57-101 | exactly the subscriptions to the channel whose subscriber exists, each as often as in the store; one row per pair stays one row per pair |
| `SubscriptionController.ChannelSubscribers` | src/controllers/subscription.controller.js:57-109 | one entry per such subscription, in store order, naming exactly the existing subscribers; each entry carries the subscriber's own subscriber count and whether the channel subscribes back |
| `SubscriptionController.ChannelSubscribersDistinct` | src/controllers/subscription.controller.js:57-101 | with unique pairs no subscriber is listed twice |
| `SubscriptionController.GetUserChannelSubscribers` | src/controllers/subscription.controller.js:48-126 | 400 exactly for a bad id; for every other id the join stage is rejected and the request fails, so no list is ever returned |
| `SubscriptionController.GetUserChannelSubscribersIntended` | src/controllers/subscription.controller.js:48-126 | with the sub-pipeline key spelled `pipeline`: 400 exactly for a bad id, otherwise 200 with the subscriber list |
| `SubscriptionController.SubscriberListedOnlyWhenIntended` | src/controllers/subscription.controller.js:67 | a channel with one subscriber: the intended handler lists exactly that subscriber, the handler as written fails |
| `SubscriptionController.LatestVideo` | src/controllers/subscription.controller.js:152-159 | none exactly when the channel has no video; otherwise one of its videos with the greatest `createdAt`, published or not |
| `SubscriptionController.SubscriptionRowsOf` | src/controllers/subscription.controller.js:136-194 | exactly the user's subscriptions whose channel exists, each as often as in the store |
| `SubscriptionController.SubscribedChannels` | src/controllers/subscription.controller.js:136-199 | one entry per such subscription, in store order, covering every existing channel the user subscribes to and only those, each carrying that channel's latest video |
| `SubscriptionController.GetSubscribedChannels` | src/controllers/subscription.controller.js:129-210 | 400 exactly for a bad id; otherwise 200 with the list |
| `CommentController.CommentViewOf` | src/controllers/comment.controller.js:50-63 | like count is the number of likes on the comment; `isLiked` false for an anonymous viewer, otherwise exactly when the viewer likes it |
| `CommentController.CommentThread` | src/controllers/comment.controller.js:26-76 | exactly the comments on the video whose owner exists, each with its view and as often as in the store, newest first |
| `CommentController.GetVideoComments` | src/controllers/comment.controller.js:9-89 | 400 exactly for a bad id, then 404 for a missing video; otherwise one page of the thread, newest first, only comments of that video |
| `CommentController.AddComment` | src/controllers/comment.controller.js:91-118 | 400, 400 (blank content), 404 in that order, creating nothing; otherwise appends the caller's comment with the trimmed, non-blank content |
| `CommentController.UpdateComment` | src/controllers/comment.controller.js:120-148 | 400, 400, 404, 403 in that order, changing nothing; otherwise only the content changes, to the trimmed input |
| `CommentController.DeleteComment` | src/controllers/comment.controller.js:150-176 | 400, 404, 403 in that order; otherwise removes the comment and exactly the likes on it |
| `LikeController.RemoveAtKeepsPairsUnique` | src/controllers/like.controller.js:19 | deleting a like keeps like pairs unique |
| `LikeController.FlipRemovesPair` | src/controllers/like.controller.js:13-25 | when the toggled pair has at most one row, an unlike leaves no row of it behind, and keeps all like pairs unique when they were |
| `LikeController.FlipKeepsPairsUnique` | src/controllers/like.controller.js:13-33 | a toggle that looks up and inserts on the same field keeps like pairs unique |
| `LikeController.FlipTwiceRestores` | src/controllers/like.controller.js:13-33 | when the toggled pair has at most one row, two toggles report opposite flags and restore whether the user likes the target, and from an unliked state restore the rows exactly |
| `LikeController.RemoveAtKeepsPairUnique` | src/controllers/like.controller.js:19 | deleting a like keeps a pair with at most one row so |
| `LikeController.AppendKeepsPairUnique` | src/controllers/like.controller.js:26-29 | inserting a like keeps a pair with at most one row so, unless the insert adds a second row of that pair |
| `LikeController.FlipKeepsFieldPairsUnique` | src/controllers/like.controller.js:13-33 | a toggle keeps one field's pairs unique unless it inserts on that field at a target other than the one it looked up |
| `LikeController.FlipKeepsOtherRows` | src/controllers/like.controller.js:13-33 | every row not of the toggled pair stays, and no other row appears |
| `LikeController.FlipLike` | src/controllers/like.controller.js:13-29 | deletes a row of the pair, whichever the lookup returns, and reports false, or appends one new row and reports true |
| `LikeController.ToggleVideoLike` | src/controllers/like.controller.js:7-34 | 400 for a bad id, changing nothing; otherwise 200 with the flip on the `video` field, keeping like pairs unique, overall and on each of the three fields |
| `LikeController.ToggleCommentLike` | src/controllers/like.controller.js:36-67 | the same over the `comment` field |
| `LikeController.ToggleTweetLike` | src/controllers/like.controller.js:69-98 | 400 for a bad id; otherwise looks up on `tweet` and inserts on `comment`, keeping the pairs on `video` and on `tweet` targets unique |
| `LikeController.ToggleTweetLikeIntended` | src/controllers/like.controller.js:76-93 | the flip on the `tweet` field for both lookup and insert, keeping like pairs unique |
| `LikeController.TweetLikeNeverUnlikes` | src/controllers/like.controller.js:76-97 | as written, two calls both report liked, add two rows, never create a `tweet` like, and break pair uniqueness on `comment` targets |
| `LikeController.VideoLikesBy` | src/controllers/like.controller.js:109 | exactly the caller's likes that carry a video id, each as often as in the store |
| `LikeController.LikedVideosAsWritten` | src/controllers/like.controller.js:107-160 | only the caller's video likes whose video id names a published user document survive |
| `LikeController.LikedVideosAsWrittenIsEmpty` | src/controllers/like.controller.js:112-119 | as written the list is always empty |
| `LikeController.JoinLikedVideo` | src/controllers/like.controller.js:117-138 | a like joins a video only when that video exists, is published and its owner exists; with unique video ids it joins exactly such a video whenever there is one |
| `LikeController.LikedVideos` | src/controllers/like.controller.js:107-160 | the caller's likes with their published videos, each joinable like listed as often as it is stored and no other, newest like first |
| `LikeController.LikedVideosDifferFromAsWritten` | src/controllers/like.controller.js:112-119 | a store with one published video and one like of it: the intended list holds that like, the list as written is empty |
| `LikeController.GetLikedVideos` | src/controllers/like.controller.js:100-173 | 401 exactly without a caller; otherwise 200 with the list as written |
| `LikeController.GetLikedVideosIntended` | src/controllers/like.controller.js:100-173 | 401 exactly without a caller; otherwise 200 with the liked videos |
| `TweetController.CreateTweet` | src/controllers/tweet.controller.js:7-25 | 400 for content that trims to nothing, creating nothing; otherwise appends the caller's tweet with the trimmed content |
| `TweetController.TweetViewOf` | src/controllers/tweet.controller.js:39-74 | owner block present exactly when the owner exists; like count is the likes on the tweet; `isLiked` exactly when the caller likes it |
| `TweetController.UserTweets` | src/controllers/tweet.controller.js:34-86 | exactly the user's tweets, each with its view and as often as in the store, newest first |
| `TweetController.GetUserTweets` | src/controllers/tweet.controller.js:27-91 | 400 exactly for a bad id; otherwise 200 with the list |
| `TweetController.UpdateTweet` | src/controllers/tweet.controller.js:93-119 | 400, 400, 404, 403 in that order, changing nothing; otherwise only the content changes, to the trimmed input |
| `TweetController.DeleteTweet` | src/controllers/tweet.controller.js:121-141 | 400, 404, 403 in that order; otherwise only the tweet row is removed, and its likes stay |
| `DashboardController.GetChannelStats` | src/controllers/dashboard.controller.js:7-60 | 400 exactly without a caller; otherwise the subscriptions to the channel, the likes on its videos, their views and their count |
| `DashboardController.EmptyChannelHasZeroStats` | src/controllers/dashboard.controller.js:48-53 | a channel with no videos and no subscribers gets four zeros |
| `DashboardController.NoOwnedVideosNoTotals` | src/controllers/dashboard.controller.js:50-51 | with no owned videos the like and view totals are zero |
| `DashboardController.ViewRaisesChannelViews` | src/controllers/dashboard.controller.js:41 | the view that getVideoById records raises its owner's total views by exactly one and no other owner's |
| `DashboardController.ChannelLikesCountsLikesOnChannel` | src/controllers/dashboard.controller.js:29-40 | with unique video ids the like total counts every like on one of the channel's videos exactly once |
| `DashboardController.ChannelVideoOf` | src/controllers/dashboard.controller.js:75-86 | the joined like count equals the number of likes whose `video` is this video's id, counted independently of the join |
| `DashboardController.ChannelVideos` | src/controllers/dashboard.controller.js:70-101 | every video of the caller, published or not, with its like count, one entry per stored video row, newest first |
| `DashboardController.GetChannelVideos` | src/controllers/dashboard.controller.js:62-106 | 400 exactly without a caller; otherwise 200 with the list |

## Left out

- **External services.** These are parameters of the model:
  - the media host (`src/utils/cloudinary.js`): an upload outcome is an optional url, and deleting old media is not modelled;
  - full-text search (`$search`): a set of matching ids, used as a pre-filter;
  - the wall clock: a `now` timestamp.
- **ObjectId generation and format.** New ids come from a counter, and the format test is uninterpreted.
- **`parseInt` of query strings.** Page and limit are positive integers, and pagination is offset slicing. The internals of the pagination library are not part of this model.
- **Concurrency.** `Promise.all`, `Promise.allSettled` and concurrent toggles are out. Each handler is one atomic step.
- **Response formatting.** Field projections beyond the fields the model carries are out, as are the response envelope and messages on success. Also out: `updatedAt`, `duration`, `public_id`, and owner name and avatar.
- **Wiring.** Application setup, middleware and the health check are out. `req.user` is the caller parameter.
- **Request bodies.** A missing content field in `createTweet` (a type error in the source) and non-string body fields are not modelled.
- **Unreachable branches.** These are left out:
  - "No valid fields provided for update" and "Failed to update video" in `updateVideo`;
  - "Failed to toggle publish status" in `togglePublishStatus`;
  - "failed to create tweet" in `createTweet`.
- GetAllVideos: sorts only on `createdAt` or `views`; sorting on other or string fields is not modelled.
- GetVideoById: both side effects are applied; a failure of either, which `Promise.allSettled` ignores, is not modelled.
- GetUserChannelSubscribers: the failure's status and message come from the error middleware and the store, which are not part of this model; the model reports status 500 with the store's parse message.
- ChannelSubscribers: entries carry the subscriber's id, subscriber count and back-subscription flag, not the username, full name or avatar.
- GetAllVideos: rows with equal sort keys come out in store order, because the model's sort is stable; the source's `$sort` has no tie-break, so the store may order them differently from one page request to the next.
- PagesListWholeFeed: holds for the model's fixed order of rows with equal sort keys; across separate page requests the store does not promise that order, so equal-key rows may repeat or be skipped.
- GetVideoComments: comments with equal `createdAt` keep store order, for the same reason as GetAllVideos.
- GetUserTweets: takes the caller as given; without a caller the source fails with a type error at `src/controllers/tweet.controller.js:70`, and that failure is not modelled.
- LikedVideosAsWritten: returns the like rows that survive the join rather than joined user documents, since none survive.
- ToggleTweetLike: states no pair-uniqueness preservation, because the handler breaks it (see Findings).

## Findings

| source | as written | input that shows it | evidently intended | confidence | as-written member | corrected member |
|---|---|---|---|---|---|---|
| src/controllers/like.controller.js:90-93 | the like is created with `comment: tweetId`, but the lookup is on `tweet` | two calls by a user who has no tweet like: both report liked, and two `comment` rows are added | the insert uses the `tweet` field, so a second call unlikes | not executed | `LikeController.TweetLikeNeverUnlikes` | `LikeController.ToggleTweetLikeIntended` |
| src/controllers/like.controller.js:112-119 | the liked-video join reads from `users`, then matches `isPublished` | one published video and one like of it: the list is empty (`LikeController.LikedVideosDifferFromAsWritten`) | the join reads from `videos` | not executed | `LikeController.LikedVideosAsWrittenIsEmpty` | `LikeController.GetLikedVideosIntended` |
| src/controllers/subscription.controller.js:67 | the subscriber join's sub-pipeline key is spelled `pipeLine`, which `$lookup` rejects as an unknown argument | any well-formed channel id, for instance a channel with one subscriber (`SubscriptionController.SubscriberListedOnlyWhenIntended`): the request fails | the key is `pipeline`, and each subscriber is listed with its own subscriber count and whether the channel subscribes back | not executed | `SubscriptionController.GetUserChannelSubscribers` | `SubscriptionController.GetUserChannelSubscribersIntended` |
| src/controllers/video.controller.js:225,240 | `likeCount` is computed, `likesCount` is projected | a video with one like: the detail view has no count | the like count is returned | not executed | `VideoController.DetailAsWrittenLosesFields` | `VideoController.VideoDetailIntended` |
| src/controllers/video.controller.js:199 | `isSubscribed` tests the path `$subscribers.subscribers` | a viewer subscribed to the owner: `isSubscribed` is false | the test is on `$subscribers.subscriber` | not executed | `VideoController.DetailAsWrittenLosesFields` | `VideoController.VideoDetailIntended` |
