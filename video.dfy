/**
 * The video handlers: searching a user's videos, publishing a video,
 * reading a video (which counts a view and records it in the viewer's
 * watch history), and patching a video's title, description and thumbnail.
 * Deleting a video and toggling its publication have empty bodies.
 */
module VideoController {
  import opened Tables
  import opened Records
  import opened Store

  /**
   * `.skip(n).limit(m)` on a cursor: the first n elements are skipped, and
   * at most m of the rest returned, where m = 0 means no limit and a
   * negative m returns at most -m.
   */
  function Window<T>(s: seq<T>, skip: nat, limit: int): (r: seq<T>)
    ensures limit != 0 ==> |r| <= if limit < 0 then -limit else limit
    ensures limit != 0 ==>
      var left, m := if skip >= |s| then 0 else |s| - skip, if limit < 0 then -limit else limit;
      |r| == if m < left then m else left
    ensures limit == 0 ==> |r| == if skip >= |s| then 0 else |s| - skip
    ensures forall i :: 0 <= i < |r| ==> skip + i < |s| && r[i] == s[skip + i]
  {
    var rest := if skip >= |s| then [] else s[skip..];
    var m := if limit < 0 then -limit else limit;
    if limit == 0 || m >= |rest| then rest else rest[..m]
  }

  /** A reordering holds only elements of what it reorders. */
  lemma ReorderedFrom<T>(s: seq<T>, t: seq<T>)
    requires multiset(t) == multiset(s)
    ensures forall j :: 0 <= j < |t| ==> t[j] in s
  {
    forall j | 0 <= j < |t| ensures t[j] in s {
      assert t[j] in multiset(t);
    }
  }

  /** The filter of getAllVideos: owned by `owner`, and the title matches the query as a case-insensitive pattern. */
  function Search(owner: Id, query: string, titleMatches: (string, string) -> bool): Video -> bool
  {
    (v: Video) => v.owner == owner && titleMatches(v.title, query)
  }

  /** `.sort(sort)`: the database's sort when both sortBy and sortType are given, the table order otherwise. */
  function Ordered(matched: Table<Video>, sortBy: Option<string>, sortType: Option<string>,
                   sorter: (string, string, Table<Video>) -> Table<Video>): (r: Table<Video>)
    requires forall key, dir, t :: multiset(sorter(key, dir, t)) == multiset(t)
    ensures multiset(r) == multiset(matched)
    ensures !(Given(sortBy) && Given(sortType)) ==> r == matched
  {
    if Given(sortBy) && Given(sortType) then sorter(sortBy.value, sortType.value, matched) else matched
  }

  /** The reply of getAllVideos: one page, the number of all matching videos, and the page and limit used. */
  datatype VideoPage = VideoPage(videos: Table<Video>, totalVideos: nat, page: int, limit: int)

  /**
   * The query the database refuses, which the catch reports as 408: a title
   * pattern that is not a valid regular expression, a sort it cannot run
   * (a field path or a direction it does not accept; only when both sort
   * keys are given, since only then is the sort built), or a negative skip.
   */
  predicate FindRefused(query: string, sortBy: Option<string>, sortType: Option<string>, skip: int,
                        validPattern: string -> bool, validSort: (string, string) -> bool)
  {
    || !validPattern(query)
    || (Given(sortBy) && Given(sortType) && !validSort(sortBy.value, sortType.value))
    || skip < 0
  }

  /**
   * getAllVideos: a query is required, then a valid user id. The matching
   * videos are sorted by `sorter` only when both sortBy and sortType are
   * given; then (page - 1) * limit of them are skipped and the cursor limit
   * applies. A query the database refuses (FindRefused) is reported as 408.
   * The total counts every match, not just the page. The database's regular
   * expressions and its sort on an arbitrary field are parameters: of
   * `sorter` only that it reorders is known, and `validPattern` and
   * `validSort` say which patterns and which (field, direction) sorts it
   * accepts.
   */
  function GetAllVideos(videos: Table<Video>, query: Option<string>, userId: Option<Id>,
                        sortBy: Option<string>, sortType: Option<string>, page: Option<int>, limit: Option<int>,
                        titleMatches: (string, string) -> bool, validPattern: string -> bool,
                        validSort: (string, string) -> bool,
                        sorter: (string, string, Table<Video>) -> Table<Video>): (r: Response<VideoPage>)
    requires forall key, dir, t :: multiset(sorter(key, dir, t)) == multiset(t)
    ensures !Given(query) <==> r == Err(400, "Query is required")
    ensures Given(query) && userId.None? ==> r == Err(400, "Invalid user id")
    ensures r.Ok? <==>
      && Given(query) && userId.Some?
      && !FindRefused(query.value, sortBy, sortType,
                      Skip(if page.None? then 1 else page.value, if limit.None? then 10 else limit.value),
                      validPattern, validSort)
    ensures Given(query) && userId.Some? && !r.Ok? ==> r == Err(408, "Error fetching videos")
    ensures r.Ok? ==>
      var p, l := if page.None? then 1 else page.value, if limit.None? then 10 else limit.value;
      var matched := Where(videos, Search(userId.value, query.value, titleMatches));
      var left := |matched| - Skip(p, l);
      && r.value.page == p && r.value.limit == l
      && r.value.totalVideos == |matched|
      && (l != 0 ==> |r.value.videos| == if left <= 0 then 0 else if l < 0 && -l < left then -l else if l > 0 && l < left then l else left)
      && (l == 0 ==> |r.value.videos| == if left <= 0 then 0 else left)
      && (forall i :: 0 <= i < |r.value.videos| ==>
            && r.value.videos[i] in videos
            && r.value.videos[i].doc.owner == userId.value
            && titleMatches(r.value.videos[i].doc.title, query.value))
      && r.value.videos == Window(Ordered(matched, sortBy, sortType, sorter), Skip(p, l), l)
  {
    if !Given(query) then Err(400, "Query is required")
    else if userId.None? then Err(400, "Invalid user id")
    else
      var p, l := if page.None? then 1 else page.value, if limit.None? then 10 else limit.value;
      var keep := Search(userId.value, query.value, titleMatches);
      var matched := Where(videos, keep);
      var ordered := Ordered(matched, sortBy, sortType, sorter);
      if FindRefused(query.value, sortBy, sortType, Skip(p, l), validPattern, validSort) then
        Err(408, "Error fetching videos")
      else
        ReorderedFrom(matched, ordered);
        assert |ordered| == |matched| by { assert |multiset(ordered)| == |multiset(matched)|; }
        Ok(VideoPage(Window(ordered, Skip(p, l), l), |matched|, p, l))
  }

  /**
   * The page getAllVideos returns is the run of the ordered matches that
   * starts at (page - 1) * limit: in table order without both sort keys,
   * in the database's order with them.
   */
  lemma AllVideosPage(videos: Table<Video>, query: Option<string>, userId: Option<Id>,
                      sortBy: Option<string>, sortType: Option<string>, page: Option<int>, limit: Option<int>,
                      titleMatches: (string, string) -> bool, validPattern: string -> bool,
                      validSort: (string, string) -> bool,
                      sorter: (string, string, Table<Video>) -> Table<Video>)
    requires forall key, dir, t :: multiset(sorter(key, dir, t)) == multiset(t)
    ensures var r := GetAllVideos(videos, query, userId, sortBy, sortType, page, limit, titleMatches,
                                  validPattern, validSort, sorter);
      r.Ok? ==>
        var p, l := if page.None? then 1 else page.value, if limit.None? then 10 else limit.value;
        var matched := Where(videos, Search(userId.value, query.value, titleMatches));
        && (!(Given(sortBy) && Given(sortType)) ==>
              forall i :: 0 <= i < |r.value.videos| ==> r.value.videos[i] == matched[Skip(p, l) + i])
        && (Given(sortBy) && Given(sortType) ==>
              forall i :: 0 <= i < |r.value.videos| ==>
                r.value.videos[i] == sorter(sortBy.value, sortType.value, matched)[Skip(p, l) + i])
  {
  }

  /** Without both sort keys the listing does not depend on the sort at all. */
  lemma SortOnlyWithBothKeys(videos: Table<Video>, query: Option<string>, userId: Option<Id>,
                             sortBy: Option<string>, sortType: Option<string>, page: Option<int>, limit: Option<int>,
                             titleMatches: (string, string) -> bool, validPattern: string -> bool,
                             validSort: (string, string) -> bool,
                             sorter1: (string, string, Table<Video>) -> Table<Video>,
                             sorter2: (string, string, Table<Video>) -> Table<Video>)
    requires forall key, dir, t :: multiset(sorter1(key, dir, t)) == multiset(t)
    requires forall key, dir, t :: multiset(sorter2(key, dir, t)) == multiset(t)
    requires !Given(sortBy) || !Given(sortType)
    ensures GetAllVideos(videos, query, userId, sortBy, sortType, page, limit, titleMatches, validPattern, validSort, sorter1)
         == GetAllVideos(videos, query, userId, sortBy, sortType, page, limit, titleMatches, validPattern, validSort, sorter2)
  {
  }

  /**
   * publishAVideo: both files, then title and description, are required;
   * the video is uploaded, then the thumbnail, and an upload that throws is
   * reported as 500 with its message. The record is created with no views,
   * no duration, published, owned by the caller. When the creation throws
   * (no caller, a failed write, or an empty URL refused by the schema), the
   * catch calls a cleanup function the file never imports, so the request
   * ends with a ReferenceError and nothing stored. `uploads` lists the
   * local paths sent to the media service, in order.
   */
  method PublishAVideo(db: Db, title: Option<string>, description: Option<string>,
                       videoPath: Option<string>, thumbnailPath: Option<string>, user: Option<Id>,
                       videoUpload: Upload, thumbnailUpload: Upload, createOk: bool)
    returns (r: Response<Row<Video>>, uploads: seq<string>)
    requires db.Valid()
    modifies db`videos, db`clock
    ensures db.Valid()
    ensures !Given(videoPath) || !Given(thumbnailPath) ==> r == Err(400, "Video and thumbnail are required") && uploads == []
    ensures Given(videoPath) && Given(thumbnailPath) && (!Given(title) || !Given(description)) ==>
      r == Err(400, "Title and description are required") && uploads == []
    ensures Given(videoPath) && Given(thumbnailPath) && Given(title) && Given(description) ==>
      && (videoUpload.UploadFailed? ==>
            r == Err(500, "Error uploading video/thumbnail to Cloudinary: " + videoUpload.reason) && uploads == [videoPath.value])
      && (videoUpload.Uploaded? ==> uploads == [videoPath.value, thumbnailPath.value])
      && (videoUpload.Uploaded? && thumbnailUpload.UploadFailed? ==>
            r == Err(500, "Error uploading video/thumbnail to Cloudinary: " + thumbnailUpload.reason))
    ensures !r.Ok? ==> db.videos == old(db.videos) && db.clock == old(db.clock)
    ensures r.Ok? <==>
      && Given(videoPath) && Given(thumbnailPath) && Given(title) && Given(description)
      && videoUpload.Uploaded? && thumbnailUpload.Uploaded? && user.Some? && createOk
      && videoUpload.asset.url != "" && thumbnailUpload.asset.url != ""
    ensures r.Ok? ==>
      && r.value == Row(old(db.clock), old(db.clock),
                        Video(user.value, videoUpload.asset.url, thumbnailUpload.asset.url, title.value, description.value, 0, 0, true))
      && db.videos == old(db.videos) + [r.value]
      && db.clock == old(db.clock) + 1
    ensures r.Uncaught? <==>
      && Given(videoPath) && Given(thumbnailPath) && Given(title) && Given(description)
      && videoUpload.Uploaded? && thumbnailUpload.Uploaded? && !r.Ok?
  {
    uploads := [];
    if !Given(videoPath) || !Given(thumbnailPath) {
      return Err(400, "Video and thumbnail are required"), uploads;
    }
    if !Given(title) || !Given(description) {
      return Err(400, "Title and description are required"), uploads;
    }
    uploads := uploads + [videoPath.value];
    if videoUpload.UploadFailed? {
      return Err(500, "Error uploading video/thumbnail to Cloudinary: " + videoUpload.reason), uploads;
    }
    uploads := uploads + [thumbnailPath.value];
    if thumbnailUpload.UploadFailed? {
      return Err(500, "Error uploading video/thumbnail to Cloudinary: " + thumbnailUpload.reason), uploads;
    }
    var videoUrl, thumbnailUrl := videoUpload.asset.url, thumbnailUpload.asset.url;
    if user.None? || !createOk || videoUrl == "" || thumbnailUrl == "" {
      return Uncaught, uploads;
    }
    var v := Video(user.value, videoUrl, thumbnailUrl, title.value, description.value, 0, 0, true);
    InsertWellFormed(db.videos, db.clock, v);
    db.videos := Insert(db.videos, db.clock, v);
    r := Ok(db.videos[|db.videos| - 1]);
    db.clock := db.clock + 1;
  }

  /** `$addToSet`: the value is appended unless it is already there. */
  function AddToSet(s: seq<Id>, v: Id): (r: seq<Id>)
    ensures v in r
    ensures forall x :: x in r <==> x in s || x == v
    ensures v in s ==> r == s
    ensures v !in s ==> r == s + [v]
  {
    if v in s then s else s + [v]
  }

  /** `$addToSet` keeps a list free of duplicates, and a second identical call changes nothing. */
  lemma AddToSetKeepsSet(s: seq<Id>, v: Id)
    requires NoDuplicates(s)
    ensures NoDuplicates(AddToSet(s, v))
    ensures AddToSet(AddToSet(s, v), v) == AddToSet(s, v)
  {
    if v !in s {
      var r := s + [v];
      forall i, j | 0 <= i < j < |r| ensures r[i] != r[j] {
        if j == |s| {
          assert r[i] == s[i];
        } else {
          assert r[i] == s[i] && r[j] == s[j];
        }
      }
    }
  }

  /** `User.updateOne({ _id: user }, { $addToSet: { watchHistory: video } })`: nothing happens when there is no such user. */
  function RecordWatch(users: Table<User>, user: Id, video: Id): (r: Table<User>)
    ensures |r| == |users|
    ensures forall k :: 0 <= k < |users| ==> r[k].id == users[k].id && r[k].createdAt == users[k].createdAt
    ensures forall k :: 0 <= k < |users| && users[k].id != user ==> r[k] == users[k]
    ensures Find(users, user).Some? ==>
      var k := Find(users, user).value;
      r[k].doc == users[k].doc.(watchHistory := AddToSet(users[k].doc.watchHistory, video))
    ensures Find(users, user).None? ==> r == users
  {
    match Find(users, user)
    case None => users
    case Some(k) => users[k := users[k].(doc := users[k].doc.(watchHistory := AddToSet(users[k].doc.watchHistory, video)))]
  }

  /** Recording a watch keeps the users table well formed, every watch history a set and every account unique. */
  lemma RecordWatchValid(users: Table<User>, clock: nat, user: Id, video: Id)
    requires WellFormed(users, clock) && HistoriesAreSets(users) && AccountsUnique(users)
    ensures WellFormed(RecordWatch(users, user, video), clock) && HistoriesAreSets(RecordWatch(users, user, video))
    ensures AccountsUnique(RecordWatch(users, user, video))
  {
    var r := RecordWatch(users, user, video);
    if Find(users, user).Some? {
      var k := Find(users, user).value;
      AddToSetKeepsSet(users[k].doc.watchHistory, video);
    }
    assert Chronological(r) by {
      forall i, j | 0 <= i < j < |r| ensures r[i].id < r[j].id && r[i].createdAt < r[j].createdAt {
      }
    }
  }

  /** The owner fields getVideoById projects. */
  datatype OwnerDetails = OwnerDetails(id: Id, username: string, email: string, avatar: string)

  /** The reply of getVideoById: the video's fields and its owner's. */
  datatype VideoDetails = VideoDetails(
    id: Id,
    title: string,
    description: string,
    videoFile: string,
    thumbnailFile: string,
    duration: int,
    views: int,
    createdAt: nat,
    isPublished: bool,
    owner: OwnerDetails)

  /**
   * The aggregation of getVideoById: the video joined with its owner. When
   * the owner no longer exists `$unwind` drops the row and the reply carries
   * no data.
   */
  function Details(v: Row<Video>, users: Table<User>): (d: Option<VideoDetails>)
    ensures d.Some? <==> Lookup(users, v.doc.owner).Some?
    ensures d.Some? ==> d.value.id == v.id && d.value.views == v.doc.views && d.value.owner.id == v.doc.owner
  {
    match Lookup(users, v.doc.owner)
    case None => None
    case Some(u) =>
      Some(VideoDetails(v.id, v.doc.title, v.doc.description, v.doc.videoFile, v.doc.thumbnailFile,
                        v.doc.duration, v.doc.views, v.createdAt, v.doc.isPublished,
                        OwnerDetails(u.id, u.doc.username, u.doc.email, u.doc.avatar)))
  }

  /** A view is counted only for a signed-in viewer who does not own the video. */
  predicate CountsView(viewer: Option<Id>, v: Video)
  {
    viewer.Some? && viewer.value != v.owner
  }

  /**
   * getVideoById: an invalid id is refused with 408, an unknown video with
   * 404 and no change. A signed-in viewer other than the owner adds exactly
   * one view and the video to their watch history, once; the owner and an
   * anonymous viewer change nothing. The reply is read after the update.
   */
  method GetVideoById(db: Db, videoId: Option<Id>, viewer: Option<Id>) returns (r: Response<Option<VideoDetails>>)
    requires db.Valid()
    modifies db`videos, db`users
    ensures db.Valid()
    ensures videoId.None? ==> r == Err(408, "Invalid video id")
    ensures videoId.Some? && Find(old(db.videos), videoId.value).None? ==> r == Err(404, "Video not found")
    ensures r.Err? ==> db.videos == old(db.videos) && db.users == old(db.users)
    ensures videoId.Some? && Find(old(db.videos), videoId.value).Some? ==>
      var k := Find(old(db.videos), videoId.value).value;
      var v := old(db.videos)[k];
      && (CountsView(viewer, v.doc) ==>
            && db.videos == old(db.videos)[k := v.(doc := v.doc.(views := v.doc.views + 1))]
            && db.users == RecordWatch(old(db.users), viewer.value, videoId.value))
      && (!CountsView(viewer, v.doc) ==> db.videos == old(db.videos) && db.users == old(db.users))
      && r == Ok(Details(db.videos[k], db.users))
  {
    if videoId.None? {
      return Err(408, "Invalid video id");
    }
    var found := Find(db.videos, videoId.value);
    if found.None? {
      return Err(404, "Video not found");
    }
    var k := found.value;
    var v := db.videos[k];
    if CountsView(viewer, v.doc) {
      ReplaceWellFormed(db.videos, db.clock, k, v.doc.(views := v.doc.views + 1));
      db.videos := db.videos[k := v.(doc := v.doc.(views := v.doc.views + 1))];
      RecordWatchValid(db.users, db.clock, viewer.value, videoId.value);
      db.users := RecordWatch(db.users, viewer.value, videoId.value);
    }
    r := Ok(Details(db.videos[k], db.users));
  }

  /** The fields updateVideo `$set`s: only those that were given. */
  datatype VideoPatch = VideoPatch(title: Option<string>, description: Option<string>, thumbnailFile: Option<string>)

  predicate IsEmpty(p: VideoPatch)
  {
    p.title.None? && p.description.None? && p.thumbnailFile.None?
  }

  /** `$set` of a patch: the given fields are replaced and every other field is kept. */
  function Apply(v: Video, p: VideoPatch): (r: Video)
    ensures r.title == (if p.title.Some? then p.title.value else v.title)
    ensures r.description == (if p.description.Some? then p.description.value else v.description)
    ensures r.thumbnailFile == (if p.thumbnailFile.Some? then p.thumbnailFile.value else v.thumbnailFile)
    ensures r.owner == v.owner && r.videoFile == v.videoFile && r.duration == v.duration
    ensures r.views == v.views && r.isPublished == v.isPublished
  {
    var v1 := if p.title.Some? then v.(title := p.title.value) else v;
    var v2 := if p.description.Some? then v1.(description := p.description.value) else v1;
    if p.thumbnailFile.Some? then v2.(thumbnailFile := p.thumbnailFile.value) else v2
  }

  /** Applying the same patch twice is applying it once, and the empty patch changes nothing. */
  lemma ApplyIdempotent(v: Video, p: VideoPatch)
    ensures Apply(Apply(v, p), p) == Apply(v, p)
    ensures IsEmpty(p) ==> Apply(v, p) == v
  {
  }

  /**
   * updateVideo: the patch takes the truthy title and description; when a
   * thumbnail file is sent it is uploaded first (an upload that throws ends
   * the request outside any ApiError; an empty URL is refused with 500). An
   * empty patch is refused with 400. The video id is not validated: one the
   * database cannot cast makes the update throw, and the catch replies 408
   * unless the body carries a `thumbnailFile` field, in which case it calls
   * a cleanup function the file never imports. An unknown video is answered
   * with no data. There is no ownership check.
   */
  method UpdateVideo(db: Db, videoId: Option<Id>, title: Option<string>, description: Option<string>,
                     bodyThumbnail: Option<string>, thumbnailSent: bool, upload: Upload)
    returns (r: Response<Option<Row<Video>>>)
    requires db.Valid()
    modifies db`videos
    ensures db.Valid()
    ensures !r.Ok? ==> db.videos == old(db.videos)
    ensures thumbnailSent && upload.UploadFailed? ==> r == Uncaught
    ensures thumbnailSent && upload.Uploaded? && upload.asset.url == "" ==> r == Err(500, "Failed to upload thumbnail")
    ensures !Given(title) && !Given(description) && !thumbnailSent ==>
      r == Err(400, "No Valid fields to update, please give valid fields")
    ensures (Given(title) || Given(description) || thumbnailSent) && (thumbnailSent ==> upload.Uploaded? && upload.asset.url != "") ==>
      var patch := VideoPatch(if Given(title) then title else None, if Given(description) then description else None,
                              if thumbnailSent then Some(upload.asset.url) else None);
      && !IsEmpty(patch)
      && (videoId.None? ==> r == (if Given(bodyThumbnail) then Uncaught else Err(408, "Error updating video")))
      && (videoId.Some? ==>
            match Find(old(db.videos), videoId.value)
            case None => r == Ok(None) && db.videos == old(db.videos)
            case Some(k) =>
              var v := old(db.videos)[k];
              && db.videos == old(db.videos)[k := v.(doc := Apply(v.doc, patch))]
              && r == Ok(Some(db.videos[k])))
  {
    var patch := VideoPatch(if Given(title) then title else None, if Given(description) then description else None, None);
    if thumbnailSent {
      if upload.UploadFailed? {
        return Uncaught;
      }
      if upload.asset.url == "" {
        return Err(500, "Failed to upload thumbnail");
      }
      patch := patch.(thumbnailFile := Some(upload.asset.url));
    }
    if IsEmpty(patch) {
      return Err(400, "No Valid fields to update, please give valid fields");
    }
    if videoId.None? {
      return if Given(bodyThumbnail) then Uncaught else Err(408, "Error updating video");
    }
    var found := Find(db.videos, videoId.value);
    if found.None? {
      return Ok(None);
    }
    var k := found.value;
    var v := db.videos[k];
    ReplaceWellFormed(db.videos, db.clock, k, Apply(v.doc, patch));
    db.videos := db.videos[k := v.(doc := Apply(v.doc, patch))];
    r := Ok(Some(db.videos[k]));
  }

  /** deleteVideo: the handler body is empty; it answers nothing and changes nothing. */
  method DeleteVideo(db: Db, videoId: Option<Id>) returns (r: Response<Row<Video>>)
    requires db.Valid()
    ensures r == NoReply
  {
    r := NoReply;
  }

  /** togglePublishStatus: the handler body is empty; it answers nothing and changes nothing. */
  method TogglePublishStatus(db: Db, videoId: Option<Id>) returns (r: Response<Row<Video>>)
    requires db.Valid()
    ensures r == NoReply
  {
    r := NoReply;
  }
}
