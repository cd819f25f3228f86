/**
 * comment.controller.js: a video's comment thread, and adding, editing and
 * deleting comments.
 */
module CommentController {
  import opened Wrappers
  import opened Entities
  import opened EntityStore
  import Rows
  import Text

  /** A comment as the thread lists it: its like count and whether the viewer likes it. */
  datatype CommentView = CommentView(comment: Comment, likesCount: nat, isLiked: bool)

  function ViewCreatedAt(x: CommentView): int { x.comment.createdAt }

  /** The like join and the `isLiked` field, which is false for an anonymous viewer. */
  function CommentViewOf(db: Db, viewer: Option<Id>, c: Comment): (x: CommentView)
    ensures x.comment == c
    ensures x.likesCount == |LikesOn(db.likes, OnComment(c.id))|
    ensures x.isLiked <==> viewer.Some? && HasLike(db.likes, OnComment(c.id), viewer.value)
  {
    var likes := LikesOn(db.likes, OnComment(c.id));
    CommentView(c, |likes|, viewer.Some? && LikedIn(likes, viewer.value))
  }

  /** The comments on the video whose owner joins a user row (`$unwind` drops the rest). */
  predicate InThread(db: Db, videoId: Id, c: Comment) {
    c.video == videoId && c.owner in db.watchHistory
  }

  /** getVideoComments's pipeline before pagination: the thread's views, newest first. */
  function CommentThread(db: Db, videoId: Id, viewer: Option<Id>): (r: seq<CommentView>)
    ensures forall x :: x in r ==> x.comment in db.comments && InThread(db, videoId, x.comment)
                                   && x == CommentViewOf(db, viewer, x.comment)
    ensures forall c :: c in db.comments && InThread(db, videoId, c) ==> CommentViewOf(db, viewer, c) in r
    ensures forall c :: multiset(r)[CommentViewOf(db, viewer, c)] ==
                        if InThread(db, videoId, c) then multiset(db.comments)[c] else 0
    ensures Rows.SortedBy(r, ViewCreatedAt, false)
  {
    var joined := Rows.Filter(db.comments, (c: Comment) => InThread(db, videoId, c));
    var view := (c: Comment) => CommentViewOf(db, viewer, c);
    var views := Rows.Map(joined, view);
    Rows.SortKeepsRows(views, ViewCreatedAt, false);
    forall c ensures multiset(views)[view(c)] == multiset(joined)[c] {
      Rows.MapInjectiveCount(joined, view, c);
    }
    forall c | c in db.comments && InThread(db, videoId, c) ensures CommentViewOf(db, viewer, c) in views {
      assert c in joined;
    }
    Rows.Sort(views, ViewCreatedAt, false)
  }

  /**
   * getVideoComments: 400 on a malformed id, 404 when the video does not
   * exist, otherwise one page of the thread, newest first.
   */
  function GetVideoComments(db: Db, isValidObjectId: Id -> bool, videoId: Id, viewer: Option<Id>,
                            page: Rows.Pos, limit: Rows.Pos): (r: Response<Rows.Page<CommentView>>)
    ensures !isValidObjectId(videoId) <==> r == Failure(400, "Invalid video ID")
    ensures isValidObjectId(videoId) && VideoIndex(db.videos, videoId).None? ==> r == Failure(404, "Video not found")
    ensures isValidObjectId(videoId) && VideoIndex(db.videos, videoId).Some? ==>
      && r.Success? && r.status == 200
      && r.data.totalDocs == |CommentThread(db, videoId, viewer)|
      && r.data.docs == Rows.Paginate(CommentThread(db, videoId, viewer), page, limit)
      && Rows.SortedBy(r.data.docs, ViewCreatedAt, false)
      && forall x :: x in r.data.docs ==> x.comment in db.comments && x.comment.video == videoId
  {
    if !isValidObjectId(videoId) then Failure(400, "Invalid video ID")
    else if VideoIndex(db.videos, videoId).None? then Failure(404, "Video not found")
    else
      var thread := CommentThread(db, videoId, viewer);
      Rows.PageKeepsSorted(thread, page, limit, ViewCreatedAt, false);
      Success(200, Rows.Page(Rows.Paginate(thread, page, limit), |thread|, page, limit))
  }

  /**
   * addComment: 400 on a malformed id or blank content, 404 when the video
   * does not exist; otherwise the caller's comment with the trimmed content.
   */
  method AddComment(s: Store, videoId: Id, caller: Id, content: string, now: int) returns (r: Response<Comment>)
    requires s.Valid()
    modifies s`comments, s`nextId
    ensures s.Valid()
    ensures r.Failure? <==> s.comments == old(s.comments) && s.nextId == old(s.nextId)
    ensures !s.isValidObjectId(videoId) ==> r == Failure(400, "Invalid video ID")
    ensures s.isValidObjectId(videoId) && Text.Trim(content) == [] ==> r == Failure(400, "Comment content is required")
    ensures s.isValidObjectId(videoId) && Text.Trim(content) != [] && VideoIndex(s.videos, videoId).None? ==>
      r == Failure(404, "Video not found")
    ensures s.isValidObjectId(videoId) && Text.Trim(content) != [] && VideoIndex(s.videos, videoId).Some? ==>
      && r == Success(201, Comment(old(s.nextId), videoId, caller, Text.Trim(content), now))
      && s.comments == old(s.comments) + [r.data]
      && s.nextId == old(s.nextId) + 1
    ensures r.Success? ==> Text.Trim(r.data.content) == r.data.content && !Text.AllBlank(r.data.content)
  {
    if !s.isValidObjectId(videoId) {
      return Failure(400, "Invalid video ID");
    }
    var trimmed := Text.Trim(content);
    if trimmed == [] {
      return Failure(400, "Comment content is required");
    }
    if VideoIndex(s.videos, videoId).None? {
      return Failure(404, "Video not found");
    }
    Text.TrimIdempotent(content);
    Text.TrimmedContentNotBlank(content);
    var c := Comment(s.nextId, videoId, caller, trimmed, now);
    Rows.AppendKeepsDistinct(s.comments, c, CommentKey);
    s.comments := s.comments + [c];
    s.nextId := s.nextId + 1;
    return Success(201, c);
  }

  /**
   * updateComment: 400 on a malformed id or blank content, 404 when the
   * comment does not exist, 403 unless the caller wrote it; otherwise only
   * its content changes, to the trimmed text.
   */
  method UpdateComment(s: Store, commentId: Id, caller: Id, content: string) returns (r: Response<Comment>)
    requires s.Valid()
    modifies s`comments
    ensures s.Valid()
    ensures r.Failure? ==> s.comments == old(s.comments)
    ensures !s.isValidObjectId(commentId) ==> r == Failure(400, "Invalid comment ID")
    ensures s.isValidObjectId(commentId) && Text.Trim(content) == [] ==> r == Failure(400, "Comment content is required")
    ensures s.isValidObjectId(commentId) && Text.Trim(content) != [] ==>
      match CommentIndex(old(s.comments), commentId)
      case None => r == Failure(404, "Comment not found")
      case Some(i) =>
        if old(s.comments)[i].owner != caller then r == Failure(403, "You are not authorized to edit this comment")
        else
          && r == Success(200, old(s.comments)[i].(content := Text.Trim(content)))
          && s.comments == old(s.comments)[i := r.data]
    ensures r.Success? ==> Text.Trim(r.data.content) == r.data.content && !Text.AllBlank(r.data.content)
  {
    if !s.isValidObjectId(commentId) {
      return Failure(400, "Invalid comment ID");
    }
    var trimmed := Text.Trim(content);
    if trimmed == [] {
      return Failure(400, "Comment content is required");
    }
    var found := CommentIndex(s.comments, commentId);
    if found.None? {
      return Failure(404, "Comment not found");
    }
    var i := found.value;
    if s.comments[i].owner != caller {
      return Failure(403, "You are not authorized to edit this comment");
    }
    Text.TrimIdempotent(content);
    Text.TrimmedContentNotBlank(content);
    var edited := s.comments[i].(content := trimmed);
    Rows.UpdateKeepsDistinct(s.comments, i, edited, CommentKey);
    s.comments := s.comments[i := edited];
    return Success(200, edited);
  }

  /**
   * deleteComment: 400 on a malformed id, 404 when the comment does not
   * exist, 403 unless the caller wrote it; otherwise the comment and the likes
   * on it are deleted.
   */
  method DeleteComment(s: Store, commentId: Id, caller: Id) returns (r: Response<Id>)
    requires s.Valid()
    modifies s`comments, s`likes
    ensures s.Valid()
    ensures r.Failure? ==> s.comments == old(s.comments) && s.likes == old(s.likes)
    ensures !s.isValidObjectId(commentId) ==> r == Failure(400, "Invalid comment ID")
    ensures s.isValidObjectId(commentId) ==>
      match CommentIndex(old(s.comments), commentId)
      case None => r == Failure(404, "Comment not found")
      case Some(i) =>
        if old(s.comments)[i].owner != caller then r == Failure(403, "You are not authorized to delete this comment")
        else
          && r == Success(200, commentId)
          && s.comments == Rows.RemoveAt(old(s.comments), i)
          && s.likes == LikesNotOn(old(s.likes), OnComment(commentId))
          && CommentIndex(s.comments, commentId).None?
  {
    if !s.isValidObjectId(commentId) {
      return Failure(400, "Invalid comment ID");
    }
    var found := CommentIndex(s.comments, commentId);
    if found.None? {
      return Failure(404, "Comment not found");
    }
    var i := found.value;
    if s.comments[i].owner != caller {
      return Failure(403, "You are not authorized to delete this comment");
    }
    s.DeleteCommentAt(i);
    s.DeleteLikesOn(OnComment(commentId));
    return Success(200, commentId);
  }
}
