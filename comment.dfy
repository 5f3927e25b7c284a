/**
 * The comment handlers: one page of a video's comments, newest first, and
 * adding, editing and deleting a comment. As written, an edit or a delete
 * reaches the store before the ownership check, so a request that fails
 * with 408 for another user's comment has already changed it.
 */
module CommentController {
  import opened Tables
  import opened Records
  import opened Store

  /** The comments of one video. */
  function OfVideo(video: Id): Comment -> bool
  {
    (c: Comment) => c.video == video
  }

  /** The comments of `video`, newest first: the `$match` and `$sort` stages of getVideoComments. */
  function Thread(comments: Table<Comment>, video: Id): Table<Comment>
  {
    NewestFirst(Where(comments, OfVideo(video)))
  }

  /**
   * The thread of a video holds exactly that video's comments, each once,
   * newest first.
   */
  lemma ThreadSpec(comments: Table<Comment>, video: Id)
    requires Chronological(comments)
    ensures forall k :: 0 <= k < |Thread(comments, video)| ==>
      Thread(comments, video)[k] in comments && Thread(comments, video)[k].doc.video == video
    ensures forall k :: 0 <= k < |comments| && comments[k].doc.video == video ==> comments[k] in Thread(comments, video)
    ensures forall i, j :: 0 <= i < j < |Thread(comments, video)| ==>
      Thread(comments, video)[i].createdAt > Thread(comments, video)[j].createdAt
  {
    NewestFirstWhere(comments, OfVideo(video));
  }

  /** `const { page = 1, limit = 10 } = req.query` followed by `parseInt`: the default when absent, nothing for NaN. */
  function ParsedOr(q: QueryNum, default: int): (r: Option<int>)
    ensures q.Missing? ==> r == Some(default)
    ensures q.NotANumber? <==> r.None?
    ensures q.Num? ==> r == Some(q.n)
  {
    match q
    case Missing => Some(default)
    case NotANumber => None
    case Num(n) => Some(n)
  }

  /**
   * getVideoComments: the video id is validated; then `$skip` receives
   * (page - 1) * limit and `$limit` receives limit. The database refuses a
   * NaN, a negative skip and a limit that is not positive, which the catch
   * reports as 500.
   */
  function GetVideoComments(comments: Table<Comment>, videoId: Option<Id>, page: QueryNum, limit: QueryNum): (r: Response<Table<Comment>>)
    ensures videoId.None? <==> r == Err(400, "Invalid video id")
    ensures r.Ok? <==>
      && videoId.Some? && !page.NotANumber? && !limit.NotANumber?
      && ParsedOr(page, 1).value >= 1 && ParsedOr(limit, 10).value >= 1
    ensures videoId.Some? && !r.Ok? ==> r == Err(500, "Error fetching comments")
    ensures r.Ok? ==>
      var p, l := ParsedOr(page, 1).value, ParsedOr(limit, 10).value;
      var thread := Thread(comments, videoId.value);
      && |r.value| <= l
      && |r.value| == (if Skip(p, l) >= |thread| then 0 else if |thread| - Skip(p, l) < l then |thread| - Skip(p, l) else l)
      && forall k :: 0 <= k < |r.value| ==> r.value[k] == thread[Skip(p, l) + k]
  {
    if videoId.None? then Err(400, "Invalid video id")
    else if page.NotANumber? || limit.NotANumber? then Err(500, "Error fetching comments")
    else
      var p, l := ParsedOr(page, 1).value, ParsedOr(limit, 10).value;
      if l <= 0 || Skip(p, l) < 0 then Err(500, "Error fetching comments")
      else
        var thread := Thread(comments, videoId.value);
        var r := Page(thread, Skip(p, l), l);
        assert |r| == (if Skip(p, l) >= |thread| then 0 else if |thread| - Skip(p, l) < l then |thread| - Skip(p, l) else l);
        Ok(r)
  }

  /**
   * addComment: the video id, the presence of the content, its length and
   * the caller are checked in that order; then the comment is created, or
   * a failed write (`createOk` false) replies 408. The video itself is not
   * looked up.
   */
  method AddComment(db: Db, videoId: Option<Id>, content: Option<string>, user: Option<Id>, createOk: bool)
    returns (r: Response<Row<Comment>>)
    requires db.Valid()
    modifies db`comments, db`clock
    ensures db.Valid()
    ensures videoId.None? ==> r == Err(400, "Invalid video id")
    ensures videoId.Some? && !Given(content) ==> r == Err(400, "Content is required")
    ensures videoId.Some? && Given(content) && |content.value| > MaxCommentLength ==>
      r == Err(400, "Comment exceeds 280 character limit")
    ensures videoId.Some? && Given(content) && |content.value| <= MaxCommentLength && user.None? ==>
      r == Err(400, "Invalid user id")
    ensures videoId.Some? && Given(content) && |content.value| <= MaxCommentLength && user.Some? && !createOk ==>
      r == Err(408, "Error creating comment")
    ensures r.Err? ==> db.comments == old(db.comments) && db.clock == old(db.clock)
    ensures r.Ok? ==>
      && r.value == Row(old(db.clock), old(db.clock), Comment(videoId.value, user.value, content.value))
      && db.comments == old(db.comments) + [r.value]
      && db.clock == old(db.clock) + 1
  {
    if videoId.None? {
      return Err(400, "Invalid video id");
    }
    if !Given(content) {
      return Err(400, "Content is required");
    }
    if |content.value| > MaxCommentLength {
      return Err(400, "Comment exceeds 280 character limit");
    }
    if user.None? {
      return Err(400, "Invalid user id");
    }
    if !createOk {
      return Err(408, "Error creating comment");
    }
    var c := Comment(videoId.value, user.value, content.value);
    InsertWellFormed(db.comments, db.clock, c);
    db.comments := Insert(db.comments, db.clock, c);
    r := Ok(db.comments[|db.comments| - 1]);
    db.clock := db.clock + 1;
  }

  /**
   * updateComment: the comment id, the content and the caller are checked as
   * in addComment. The content is then written by `findByIdAndUpdate`; only
   * afterwards is the owner compared, so another user's edit persists while
   * the reply is 408. A missing comment makes reading its owner throw, which
   * the catch also reports as 408.
   */
  method UpdateComment(db: Db, commentId: Option<Id>, content: Option<string>, user: Option<Id>)
    returns (r: Response<Row<Comment>>)
    requires db.Valid()
    modifies db`comments
    ensures db.Valid()
    ensures commentId.None? ==> r == Err(400, "Invalid comment id")
    ensures commentId.Some? && !Given(content) ==> r == Err(400, "Content is required")
    ensures commentId.Some? && Given(content) && |content.value| > MaxCommentLength ==>
      r == Err(400, "Comment exceeds 280 character limit")
    ensures commentId.Some? && Given(content) && |content.value| <= MaxCommentLength && user.None? ==>
      r == Err(400, "Invalid user id")
    ensures r.Err? && r.status == 400 ==> db.comments == old(db.comments)
    ensures commentId.Some? && Given(content) && |content.value| <= MaxCommentLength && user.Some? ==>
      match Find(old(db.comments), commentId.value)
      case None =>
        db.comments == old(db.comments) && r == Err(408, "Error updating comment")
      case Some(k) =>
        var c := old(db.comments)[k];
        && db.comments == old(db.comments)[k := c.(doc := c.doc.(content := content.value))]
        && r == if c.doc.owner == user.value then Ok(db.comments[k]) else Err(408, "Error updating comment")
  {
    if commentId.None? {
      return Err(400, "Invalid comment id");
    }
    if !Given(content) {
      return Err(400, "Content is required");
    }
    if |content.value| > MaxCommentLength {
      return Err(400, "Comment exceeds 280 character limit");
    }
    if user.None? {
      return Err(400, "Invalid user id");
    }
    var found := Find(db.comments, commentId.value);
    if found.None? {
      return Err(408, "Error updating comment");
    }
    var k := found.value;
    var c := db.comments[k];
    ReplaceWellFormed(db.comments, db.clock, k, c.doc.(content := content.value));
    db.comments := db.comments[k := c.(doc := c.doc.(content := content.value))];
    if c.doc.owner != user.value {
      return Err(408, "Error updating comment");
    }
    r := Ok(db.comments[k]);
  }

  /**
   * deleteComment: only the comment id is validated. `findByIdAndDelete`
   * removes the comment; a missing one replies 408, and so does a caller who
   * is absent or not the owner, after the deletion has happened.
   */
  method DeleteComment(db: Db, commentId: Option<Id>, user: Option<Id>) returns (r: Response<Row<Comment>>)
    requires db.Valid()
    modifies db`comments
    ensures db.Valid()
    ensures commentId.None? ==> r == Err(400, "Invalid comment id") && db.comments == old(db.comments)
    ensures commentId.Some? ==>
      match Find(old(db.comments), commentId.value)
      case None =>
        db.comments == old(db.comments) && r == Err(408, "Error deleting comment")
      case Some(k) =>
        && db.comments == RemoveAt(old(db.comments), k)
        && r == if user == Some(old(db.comments)[k].doc.owner) then Ok(old(db.comments)[k]) else Err(408, "Error deleting comment")
  {
    if commentId.None? {
      return Err(400, "Invalid comment id");
    }
    var found := Find(db.comments, commentId.value);
    if found.None? {
      return Err(408, "Error deleting comment");
    }
    var k := found.value;
    var c := db.comments[k];
    RemoveWellFormed(db.comments, db.clock, k);
    db.comments := RemoveAt(db.comments, k);
    if user != Some(c.doc.owner) {
      return Err(408, "Error deleting comment");
    }
    r := Ok(c);
  }
}
