/**
 * The like handlers: toggling a like on a video, a comment or a tweet, and
 * listing the videos a user liked.
 */
module LikeController {
  import opened Tables
  import opened Records
  import opened Store

  /**
   * The store phase shared by the toggles: find the like of this pair, delete
   * it if there is one, create it otherwise. `existed` tells which.
   */
  method ToggleLike(db: Db, like: Like) returns (existed: bool)
    requires db.Valid()
    modifies db`likes, db`clock
    ensures db.Valid()
    ensures (db.likes, existed) == Toggle(old(db.likes), old(db.clock), like)
    ensures db.clock == ClockAfterToggle(old(db.clock), existed)
  {
    ToggleFlips(db.likes, db.clock, like);
    var (t, found) := Toggle(db.likes, db.clock, like);
    db.likes, db.clock, existed := t, ClockAfterToggle(db.clock, found), found;
  }

  /** toggleVideoLike: validate the video id, then the user, then flip the (video, user) like. */
  method ToggleVideoLike(db: Db, videoId: Option<Id>, user: Option<Id>) returns (r: Response<string>)
    requires db.Valid()
    modifies db`likes, db`clock
    ensures db.Valid()
    ensures videoId.None? ==> r == Err(400, "videoId is not defined or not valid")
    ensures videoId.Some? && user.None? ==> r == Err(400, "userId is not defined or not valid")
    ensures r.Err? ==> db.likes == old(db.likes) && db.clock == old(db.clock)
    ensures videoId.Some? && user.Some? ==>
      var (t, existed) := Toggle(old(db.likes), old(db.clock), Like(OnVideo(videoId.value), user.value));
      && db.likes == t
      && db.clock == ClockAfterToggle(old(db.clock), existed)
      && r == Ok(if existed then "Video unliked successfully" else "Video liked successfully")
  {
    if videoId.None? {
      return Err(400, "videoId is not defined or not valid");
    }
    if user.None? {
      return Err(400, "userId is not defined or not valid");
    }
    var existed := ToggleLike(db, Like(OnVideo(videoId.value), user.value));
    r := Ok(if existed then "Video unliked successfully" else "Video liked successfully");
  }

  /**
   * toggleCommentLike as written: after the two checks it reads `existingLike`,
   * a name declared only inside the later `try` block, so a ReferenceError
   * always leaves the handler before the likes are looked at.
   */
  method ToggleCommentLike(db: Db, commentId: Option<Id>, user: Option<Id>) returns (r: Response<string>)
    requires db.Valid()
    ensures commentId.None? ==> r == Err(400, "commentId is not defined or not valid")
    ensures commentId.Some? && user.None? ==> r == Err(400, "userId is not defined or not valid")
    ensures commentId.Some? && user.Some? ==> r == Uncaught
  {
    if commentId.None? {
      return Err(400, "commentId is not defined or not valid");
    }
    if user.None? {
      return Err(400, "userId is not defined or not valid");
    }
    r := Uncaught;
  }

  /** toggleTweetLike: validate the tweet id, then the user, then flip the (tweet, user) like. */
  method ToggleTweetLike(db: Db, tweetId: Option<Id>, user: Option<Id>) returns (r: Response<string>)
    requires db.Valid()
    modifies db`likes, db`clock
    ensures db.Valid()
    ensures tweetId.None? ==> r == Err(400, "tweetId is not defined or not valid")
    ensures tweetId.Some? && user.None? ==> r == Err(400, "userId is not defined or not valid")
    ensures r.Err? ==> db.likes == old(db.likes) && db.clock == old(db.clock)
    ensures tweetId.Some? && user.Some? ==>
      var (t, existed) := Toggle(old(db.likes), old(db.clock), Like(OnTweet(tweetId.value), user.value));
      && db.likes == t
      && db.clock == ClockAfterToggle(old(db.clock), existed)
      && r == Ok(if existed then "Tweet unliked successfully" else "Tweet liked successfully")
  {
    if tweetId.None? {
      return Err(400, "tweetId is not defined or not valid");
    }
    if user.None? {
      return Err(400, "userId is not defined or not valid");
    }
    var existed := ToggleLike(db, Like(OnTweet(tweetId.value), user.value));
    r := Ok(if existed then "Tweet unliked successfully" else "Tweet liked successfully");
  }

  /**
   * The reply of toggleVideoLike says "unliked" exactly when the pair was
   * liked before the call, and the pair is liked afterwards exactly when it
   * was not before; likes of every other pair stay as they were.
   */
  lemma VideoLikeToggles(likes: Table<Like>, clock: nat, video: Id, user: Id, other: Row<Like>)
    requires WellFormed(likes, clock) && DistinctDocs(likes)
    requires other.doc != Like(OnVideo(video), user)
    ensures var (t, existed) := Toggle(likes, clock, Like(OnVideo(video), user));
            && (existed <==> exists k :: 0 <= k < |likes| && likes[k].doc == Like(OnVideo(video), user))
            && (HasDoc(t, Like(OnVideo(video), user)) <==> !existed)
            && (other in t <==> other in likes)
  {
    ToggleFlips(likes, clock, Like(OnVideo(video), user));
    ToggleKeepsOthers(likes, clock, Like(OnVideo(video), user), other);
  }

  /** Two toggleVideoLike calls by the same user on the same video restore the likes. */
  lemma VideoLikeTwice(likes: Table<Like>, clock: nat, video: Id, user: Id)
    requires WellFormed(likes, clock) && DistinctDocs(likes)
    ensures var (t1, b1) := Toggle(likes, clock, Like(OnVideo(video), user));
            var (t2, b2) := Toggle(t1, ClockAfterToggle(clock, b1), Like(OnVideo(video), user));
            && b2 == !b1
            && (!b1 ==> t2 == likes)
            && (b1 ==> |t2| == |likes| && HasDoc(t2, Like(OnVideo(video), user)))
  {
    var d := Like(OnVideo(video), user);
    ToggleTwice(likes, clock, d);
    var (t1, b1) := Toggle(likes, clock, d);
    if b1 {
      var t2 := Insert(t1, clock, d);
      assert t2[|t1|].doc == d;
    }
  }

  /** One row of the liked-videos listing: the like joined with the video it names. */
  datatype LikedVideo = LikedVideo(
    likeId: Id,
    videoId: Id,
    title: string,
    description: string,
    thumbnailFile: string,
    views: int,
    duration: int,
    isPublished: bool,
    likedAt: nat)

  /**
   * The `$lookup` of a like's `video` field followed by `$unwind`: a like of a
   * comment or a tweet, or of a video that no longer exists, yields nothing.
   */
  function Resolve(l: Row<Like>, videos: Table<Video>): (e: Option<LikedVideo>)
    ensures e.Some? <==> l.doc.target.OnVideo? && Lookup(videos, l.doc.target.video).Some?
    ensures e.Some? ==> e.value.likeId == l.id && e.value.videoId == l.doc.target.video && e.value.likedAt == l.createdAt
  {
    if !l.doc.target.OnVideo? then None
    else match Lookup(videos, l.doc.target.video)
      case None => None
      case Some(v) =>
        Some(LikedVideo(l.id, v.id, v.doc.title, v.doc.description, v.doc.thumbnailFile,
                        v.doc.views, v.doc.duration, v.doc.isPublished, l.createdAt))
  }

  /** The aggregation of getLikedVideos: match `likedBy`, join the video, project. */
  function LikedVideos(likes: Table<Like>, videos: Table<Video>, user: Id): (r: seq<LikedVideo>)
    ensures |r| <= |likes|
    ensures forall k :: 0 <= k < |likes| && likes[k].doc.likedBy == user && Resolve(likes[k], videos).Some? ==>
      Resolve(likes[k], videos).value in r
    ensures forall i :: 0 <= i < |r| ==>
      exists k :: 0 <= k < |likes| && likes[k].doc.likedBy == user && Resolve(likes[k], videos) == Some(r[i])
  {
    if |likes| == 0 then []
    else
      var rest := LikedVideos(likes[1..], videos, user);
      assert forall k :: 0 <= k < |likes| - 1 ==> likes[1..][k] == likes[k + 1];
      var e := Resolve(likes[0], videos);
      if likes[0].doc.likedBy == user && e.Some? then
        var r := [e.value] + rest;
        assert forall i :: 0 < i < |r| ==> r[i] == rest[i - 1];
        r
      else rest
  }

  /** Every entry of the listing comes from a like that is newer than any bound all the likes are above. */
  lemma LikedVideosAbove(likes: Table<Like>, videos: Table<Video>, user: Id, id: nat, at: nat)
    requires forall k :: 0 <= k < |likes| ==> id < likes[k].id && at < likes[k].createdAt
    ensures forall i :: 0 <= i < |LikedVideos(likes, videos, user)| ==>
      id < LikedVideos(likes, videos, user)[i].likeId && at < LikedVideos(likes, videos, user)[i].likedAt
  {
    var r := LikedVideos(likes, videos, user);
    forall i | 0 <= i < |r| ensures id < r[i].likeId && at < r[i].likedAt {
      var k :| 0 <= k < |likes| && likes[k].doc.likedBy == user && Resolve(likes[k], videos) == Some(r[i]);
    }
  }

  /** Like ids and like times strictly increase along the listing: one entry per like, oldest first. */
  ghost predicate OldestFirst(s: seq<LikedVideo>)
  {
    forall i, j :: 0 <= i < j < |s| ==> s[i].likeId < s[j].likeId && s[i].likedAt < s[j].likedAt
  }

  /** An entry older than every entry of an oldest-first listing can head it. */
  lemma OldestFirstCons(x: LikedVideo, rest: seq<LikedVideo>)
    requires OldestFirst(rest)
    requires forall i :: 0 <= i < |rest| ==> x.likeId < rest[i].likeId && x.likedAt < rest[i].likedAt
    ensures OldestFirst([x] + rest)
  {
    var r := [x] + rest;
    forall i, j | 0 <= i < j < |r|
      ensures r[i].likeId < r[j].likeId && r[i].likedAt < r[j].likedAt
    {
      assert r[j] == rest[j - 1];
      if i > 0 {
        assert r[i] == rest[i - 1];
      }
    }
  }

  /**
   * On a table in creation order the listing holds one entry per matching
   * like, oldest like first.
   */
  lemma {:induction false} LikedVideosInOrder(likes: Table<Like>, videos: Table<Video>, user: Id)
    requires Chronological(likes)
    ensures OldestFirst(LikedVideos(likes, videos, user))
  {
    if |likes| > 0 {
      var tail := likes[1..];
      ChronologicalTail(likes);
      LikedVideosInOrder(tail, videos, user);
      LikedVideosAbove(tail, videos, user, likes[0].id, likes[0].createdAt);
      var e := Resolve(likes[0], videos);
      if likes[0].doc.likedBy == user && e.Some? {
        OldestFirstCons(e.value, LikedVideos(tail, videos, user));
      }
    }
  }

  /** getLikedVideos: validate the user id, then list the user's liked videos. */
  function GetLikedVideos(likes: Table<Like>, videos: Table<Video>, userId: Option<Id>): (r: Response<seq<LikedVideo>>)
    ensures userId.None? ==> r == Err(400, "userId is not defined or not valid")
    ensures userId.Some? ==> r.Ok?
    ensures r.Ok? ==> forall i :: 0 <= i < |r.value| ==>
      exists k :: 0 <= k < |likes| && likes[k] == Row(r.value[i].likeId, r.value[i].likedAt, Like(OnVideo(r.value[i].videoId), userId.value))
    ensures r.Ok? ==> forall i :: 0 <= i < |r.value| ==> Lookup(videos, r.value[i].videoId).Some?
    ensures r.Ok? ==> forall k :: 0 <= k < |likes| && likes[k].doc.likedBy == userId.value && Resolve(likes[k], videos).Some? ==>
      Resolve(likes[k], videos).value in r.value
  {
    if userId.None? then Err(400, "userId is not defined or not valid")
    else Ok(LikedVideos(likes, videos, userId.value))
  }

  /** On a table in creation order getLikedVideos lists each like at most once, oldest first. */
  lemma LikedVideosOncePerLike(likes: Table<Like>, videos: Table<Video>, userId: Option<Id>)
    requires Chronological(likes)
    ensures GetLikedVideos(likes, videos, userId).Ok? ==> OldestFirst(GetLikedVideos(likes, videos, userId).value)
  {
    if userId.Some? {
      LikedVideosInOrder(likes, videos, userId.value);
    }
  }
}
