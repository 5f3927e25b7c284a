/**
 * The playlist handlers: creating a playlist, listing a user's playlists,
 * reading one, adding and removing a video, deleting and renaming.
 * Only the owner of a playlist may change it. A playlist lists each video
 * once only as long as requests spell video ids the way the database prints
 * them: the duplicate test of addVideoToPlaylist compares spellings.
 */
module PlaylistController {
  import opened Tables
  import opened Records
  import opened Store

  /** `$pull`: every occurrence of `v` removed, the other entries kept in order. */
  function Pull(s: seq<Id>, v: Id): (r: seq<Id>)
    ensures |r| <= |s|
    ensures forall x :: x in r <==> x in s && x != v
  {
    if |s| == 0 then []
    else if s[0] == v then Pull(s[1..], v)
    else [s[0]] + Pull(s[1..], v)
  }

  /** Pulling from a concatenation pulls from each part: the survivors keep their order. */
  lemma {:induction false} PullConcat(a: seq<Id>, b: seq<Id>, v: Id)
    ensures Pull(a + b, v) == Pull(a, v) + Pull(b, v)
  {
    if |a| > 0 {
      assert (a + b)[1..] == a[1..] + b;
      PullConcat(a[1..], b, v);
    } else {
      assert a + b == b;
    }
  }

  /** Pulling a value that does not occur changes nothing. */
  lemma {:induction false} PullAbsent(s: seq<Id>, v: Id)
    requires v !in s
    ensures Pull(s, v) == s
  {
    if |s| > 0 {
      assert v !in s[1..];
      PullAbsent(s[1..], v);
      assert s == [s[0]] + s[1..];
    }
  }

  /** Pulling keeps a list free of duplicates. */
  lemma {:induction false} PullKeepsSet(s: seq<Id>, v: Id)
    requires NoDuplicates(s)
    ensures NoDuplicates(Pull(s, v))
  {
    if |s| > 0 {
      assert NoDuplicates(s[1..]) by {
        forall i, j | 0 <= i < j < |s[1..]| ensures s[1..][i] != s[1..][j] {
          assert s[1..][i] == s[i + 1] && s[1..][j] == s[j + 1];
        }
      }
      PullKeepsSet(s[1..], v);
      if s[0] != v {
        var rest := Pull(s[1..], v);
        assert s[0] !in s[1..];
        assert s[0] !in rest;
        var r := [s[0]] + rest;
        forall i, j | 0 <= i < j < |r| ensures r[i] != r[j] {
          assert r[j] == rest[j - 1];
          if i > 0 { assert r[i] == rest[i - 1]; }
        }
      }
    }
  }

  /** Appending a value that is absent keeps a list free of duplicates. */
  lemma AppendKeepsSet(s: seq<Id>, v: Id)
    requires NoDuplicates(s) && v !in s
    ensures NoDuplicates(s + [v])
  {
    var r := s + [v];
    forall i, j | 0 <= i < j < |r| ensures r[i] != r[j] {
      if j == |s| {
        assert r[i] == s[i];
      } else {
        assert r[i] == s[i] && r[j] == s[j];
      }
    }
  }

  /**
   * Removing a video right after adding it restores the playlist:
   * addVideoToPlaylist only appends an absent video, and `$pull` then takes
   * out exactly that one occurrence.
   */
  lemma AddThenRemove(s: seq<Id>, v: Id)
    requires v !in s
    ensures Pull(s + [v], v) == s
  {
    PullConcat(s, [v], v);
    PullAbsent(s, v);
    assert Pull([v], v) == [];
  }

  /** The playlist row at `k` with its document replaced by `p`. */
  function Replace(t: Table<Playlist>, k: nat, p: Playlist): (r: Table<Playlist>)
    requires k < |t|
    ensures |r| == |t| && r[k] == Row(t[k].id, t[k].createdAt, p)
    ensures forall i :: 0 <= i < |t| && i != k ==> r[i] == t[i]
  {
    t[k := t[k].(doc := p)]
  }

  /** Replacing the document of a playlist keeps every playlist duplicate-free when the new video list is. */
  lemma ReplaceKeepsSets(t: Table<Playlist>, k: nat, p: Playlist)
    requires k < |t| && PlaylistsAreSets(t) && NoDuplicates(p.videos)
    ensures PlaylistsAreSets(Replace(t, k, p))
  {
  }

  /** Deleting a playlist keeps every other playlist as it was. */
  lemma RemoveKeepsSets(t: Table<Playlist>, k: nat)
    requires k < |t| && PlaylistsAreSets(t)
    ensures PlaylistsAreSets(RemoveAt(t, k))
  {
    var r := RemoveAt(t, k);
    forall i | 0 <= i < |r| ensures NoDuplicates(r[i].doc.videos) {
      if i < k { assert r[i] == t[i]; } else { assert r[i] == t[i + 1]; }
    }
  }

  /**
   * createPlaylist: name, then description, then the caller, are required in
   * that order; the store phase either creates the playlist or, on any
   * failure (`createOk` false), replies 408.
   */
  method CreatePlaylist(db: Db, name: Option<string>, description: Option<string>, user: Option<Id>, createOk: bool)
    returns (r: Response<Row<Playlist>>)
    requires db.Valid()
    modifies db`playlists, db`clock
    ensures db.Valid()
    ensures !Given(name) ==> r == Err(400, "Name is required")
    ensures Given(name) && !Given(description) ==> r == Err(400, "Description is required")
    ensures Given(name) && Given(description) && user.None? ==> r == Err(400, "Invalid user id")
    ensures Given(name) && Given(description) && user.Some? && !createOk ==> r == Err(408, "Error creating playlist")
    ensures r.Err? ==> db.playlists == old(db.playlists) && db.clock == old(db.clock)
    ensures r.Ok? <==> Given(name) && Given(description) && user.Some? && createOk
    ensures r.Ok? ==>
      && r.value == Row(old(db.clock), old(db.clock), Playlist(name.value, description.value, user.value, []))
      && db.playlists == old(db.playlists) + [r.value]
      && db.clock == old(db.clock) + 1
    ensures PlaylistsAreSets(old(db.playlists)) ==> PlaylistsAreSets(db.playlists)
  {
    if !Given(name) {
      return Err(400, "Name is required");
    }
    if !Given(description) {
      return Err(400, "Description is required");
    }
    if user.None? {
      return Err(400, "Invalid user id");
    }
    if !createOk {
      return Err(408, "Error creating playlist");
    }
    var p := Playlist(name.value, description.value, user.value, []);
    InsertWellFormed(db.playlists, db.clock, p);
    db.playlists := Insert(db.playlists, db.clock, p);
    r := Ok(db.playlists[|db.playlists| - 1]);
    db.clock := db.clock + 1;
  }

  /** The owner fields getUserPlaylists projects from the joined user. */
  datatype OwnerCard = OwnerCard(id: Id, username: string, fullname: string, email: string, avatar: string)

  /** One entry of getUserPlaylists: the playlist without its videos, and its owner. */
  datatype PlaylistSummary = PlaylistSummary(id: Id, name: string, description: string, createdAt: nat, owner: OwnerCard)

  function Summary(p: Row<Playlist>, owner: Row<User>): PlaylistSummary
  {
    PlaylistSummary(p.id, p.doc.name, p.doc.description, p.createdAt,
                    OwnerCard(owner.id, owner.doc.username, owner.doc.fullname, owner.doc.email, owner.doc.avatar))
  }

  /** The playlists owned by one user. */
  function OwnedBy(owner: Id): Playlist -> bool
  {
    (p: Playlist) => p.owner == owner
  }

  /** `s` summarises one of the playlists of `t` that `owner` owns. */
  ghost predicate SummaryOfOwned(t: Table<Playlist>, owner: Row<User>, s: PlaylistSummary)
  {
    exists k :: 0 <= k < |t| && t[k].doc.owner == owner.id && s == Summary(t[k], owner)
  }

  /** The playlists of `t` owned by `owner`, summarised, in table order. */
  function OwnedSummaries(t: Table<Playlist>, owner: Row<User>): (r: seq<PlaylistSummary>)
    ensures forall i :: 0 <= i < |r| ==> SummaryOfOwned(t, owner, r[i])
    ensures |r| == Count(t, OwnedBy(owner.id))
    ensures forall k :: 0 <= k < |t| && t[k].doc.owner == owner.id ==> Summary(t[k], owner) in r
  {
    var w := Where(t, OwnedBy(owner.id));
    var r := seq(|w|, i requires 0 <= i < |w| => Summary(w[i], owner));
    CountWhere(t, OwnedBy(owner.id));
    forall i | 0 <= i < |r|
      ensures SummaryOfOwned(t, owner, r[i])
    {
      assert w[i] in t && OwnedBy(owner.id)(w[i].doc);
      var k :| 0 <= k < |t| && t[k] == w[i];
      assert r[i] == Summary(t[k], owner);
    }
    forall k | 0 <= k < |t| && t[k].doc.owner == owner.id
      ensures Summary(t[k], owner) in r
    {
      assert OwnedBy(owner.id)(t[k].doc);
      var i :| 0 <= i < |w| && w[i] == t[k];
      assert r[i] == Summary(t[k], owner);
    }
    r
  }

  /**
   * getUserPlaylists: `$match` on the owner, `$lookup` and `$unwind` of the
   * owning user (so nothing is listed when that user does not exist), and the
   * projection without the video list.
   */
  function GetUserPlaylists(playlists: Table<Playlist>, users: Table<User>, userId: Option<Id>): (r: Response<seq<PlaylistSummary>>)
    ensures userId.None? <==> r == Err(400, "Invalid user id")
    ensures userId.Some? ==> r.Ok?
    ensures r.Ok? && Lookup(users, userId.value).None? ==> r.value == []
    ensures r.Ok? && Lookup(users, userId.value).Some? ==> forall i :: 0 <= i < |r.value| ==>
      SummaryOfOwned(playlists, Lookup(users, userId.value).value, r.value[i])
    ensures r.Ok? && Lookup(users, userId.value).Some? ==> |r.value| == Count(playlists, OwnedBy(userId.value))
    ensures r.Ok? && Lookup(users, userId.value).Some? ==>
      forall k :: 0 <= k < |playlists| && playlists[k].doc.owner == userId.value ==>
        Summary(playlists[k], Lookup(users, userId.value).value) in r.value
  {
    if userId.None? then Err(400, "Invalid user id")
    else match Lookup(users, userId.value)
      case None => Ok([])
      case Some(u) =>
        var r := OwnedSummaries(playlists, u);
        Ok(r)
  }

  /** getPlaylistById: the playlist with that id; a missing one ends in the catch as 408. */
  function GetPlaylistById(playlists: Table<Playlist>, playlistId: Option<Id>): (r: Response<Row<Playlist>>)
    ensures playlistId.None? <==> r == Err(400, "Invalid playlist id")
    ensures playlistId.Some? && (forall k :: 0 <= k < |playlists| ==> playlists[k].id != playlistId.value) ==>
      r == Err(408, "Error getting playlist")
    ensures r.Ok? ==> r.value in playlists && r.value.id == playlistId.value
    ensures r.Err? ==> r.status == 400 || r.status == 408
  {
    if playlistId.None? then Err(400, "Invalid playlist id")
    else match Lookup(playlists, playlistId.value)
      case None => Err(408, "Error getting playlist")
      case Some(p) => Ok(p)
  }

  /**
   * The test addVideoToPlaylist makes inside its `try`: the playlist exists,
   * the caller owns it, the video exists and is not already listed. Its
   * value is the playlist's position. The "already listed" test compares
   * each listed id, printed as 24 lowercase hex digits, with the request's
   * string, so it can only fire when `asPrinted` says the request spelled
   * the id that way; another spelling of a valid id (upper-case hex, or the
   * 12-byte form) finds the same video but never matches.
   */
  function AddTarget(playlists: Table<Playlist>, videos: Table<Video>, playlistId: Id, videoId: Id, asPrinted: bool, user: Id): (r: Option<nat>)
    ensures r.Some? ==> r.value < |playlists| && playlists[r.value].id == playlistId
    ensures r.Some? <==>
      && Find(playlists, playlistId).Some?
      && playlists[Find(playlists, playlistId).value].doc.owner == user
      && Lookup(videos, videoId).Some?
      && !(asPrinted && videoId in playlists[Find(playlists, playlistId).value].doc.videos)
  {
    match Find(playlists, playlistId)
    case None => None
    case Some(k) =>
      if playlists[k].doc.owner != user then None
      else if Lookup(videos, videoId).None? then None
      else if asPrinted && videoId in playlists[k].doc.videos then None
      else Some(k)
  }

  /**
   * The duplicate test is about spelling: a video already in the caller's
   * playlist, requested under another spelling of its id, passes the test
   * and is appended a second time.
   */
  lemma RespelledVideoIsListedTwice(playlists: Table<Playlist>, videos: Table<Video>, k: nat, videoId: Id, user: Id)
    requires k < |playlists| && Find(playlists, playlists[k].id) == Some(k)
    requires playlists[k].doc.owner == user && Lookup(videos, videoId).Some?
    requires videoId in playlists[k].doc.videos
    ensures AddTarget(playlists, videos, playlists[k].id, videoId, false, user) == Some(k)
    ensures AddTarget(playlists, videos, playlists[k].id, videoId, true, user).None?
    ensures !NoDuplicates(playlists[k].doc.videos + [videoId])
  {
    var s := playlists[k].doc.videos;
    var i :| 0 <= i < |s| && s[i] == videoId;
    assert (s + [videoId])[i] == (s + [videoId])[|s|];
  }

  /**
   * addVideoToPlaylist: the three ids are validated in order; then the video
   * is appended only when AddTarget allows it. Every failure inside the
   * `try` (missing playlist, other owner, missing video, video already
   * listed) is rewritten by the catch to 500 and changes nothing.
   * `asPrinted` says whether the request spelled the video id as the
   * database prints it; only then is a repeat refused, so only then is a
   * duplicate-free playlist kept duplicate-free.
   */
  method AddVideoToPlaylist(db: Db, playlistId: Option<Id>, videoId: Option<Id>, asPrinted: bool, user: Option<Id>)
    returns (r: Response<Row<Playlist>>)
    requires db.Valid()
    modifies db`playlists
    ensures db.Valid()
    ensures playlistId.None? ==> r == Err(400, "Invalid playlist id")
    ensures playlistId.Some? && videoId.None? ==> r == Err(400, "Invalid video id")
    ensures playlistId.Some? && videoId.Some? && user.None? ==> r == Err(400, "Invalid user id")
    ensures r.Err? ==> db.playlists == old(db.playlists)
    ensures playlistId.Some? && videoId.Some? && user.Some? ==>
      match AddTarget(old(db.playlists), db.videos, playlistId.value, videoId.value, asPrinted, user.value)
      case None =>
        r == Err(500, "Error adding video to playlist")
      case Some(k) =>
        var p := old(db.playlists)[k].doc;
        && db.playlists == Replace(old(db.playlists), k, p.(videos := p.videos + [videoId.value]))
        && r == Ok(db.playlists[k])
    ensures asPrinted && PlaylistsAreSets(old(db.playlists)) ==> PlaylistsAreSets(db.playlists)
  {
    if playlistId.None? {
      return Err(400, "Invalid playlist id");
    }
    if videoId.None? {
      return Err(400, "Invalid video id");
    }
    if user.None? {
      return Err(400, "Invalid user id");
    }
    var target := AddTarget(db.playlists, db.videos, playlistId.value, videoId.value, asPrinted, user.value);
    if target.None? {
      return Err(500, "Error adding video to playlist");
    }
    var k := target.value;
    var p := db.playlists[k].doc;
    ReplaceWellFormed(db.playlists, db.clock, k, p.(videos := p.videos + [videoId.value]));
    if asPrinted && PlaylistsAreSets(db.playlists) {
      AppendKeepsSet(p.videos, videoId.value);
      ReplaceKeepsSets(db.playlists, k, p.(videos := p.videos + [videoId.value]));
    }
    db.playlists := Replace(db.playlists, k, p.(videos := p.videos + [videoId.value]));
    r := Ok(db.playlists[k]);
  }

  /**
   * The filter `{ _id, owner }` that removeVideoFromPlaylist, updatePlaylist
   * share: the position of the playlist when it exists and the caller owns it.
   */
  function OwnedPlaylist(playlists: Table<Playlist>, playlistId: Id, user: Id): (r: Option<nat>)
    ensures r.Some? ==> r.value < |playlists| && playlists[r.value].id == playlistId && playlists[r.value].doc.owner == user
    ensures r.None? ==> forall k :: 0 <= k < |playlists| && playlists[k].id == playlistId ==> playlists[k].doc.owner != user
  {
    if |playlists| == 0 then None
    else if playlists[0].id == playlistId && playlists[0].doc.owner == user then Some(0)
    else match OwnedPlaylist(playlists[1..], playlistId, user)
      case None =>
        assert forall k :: 1 <= k < |playlists| ==> playlists[k] == playlists[1..][k - 1];
        None
      case Some(k) =>
        assert playlists[1..][k] == playlists[k + 1];
        Some(k + 1)
  }

  /**
   * removeVideoFromPlaylist: the three ids are validated in order; then, on
   * the caller's own playlist, every occurrence of the video is pulled.
   * A missing playlist or another owner's playlist ends as 408 with no change.
   */
  method RemoveVideoFromPlaylist(db: Db, playlistId: Option<Id>, videoId: Option<Id>, user: Option<Id>)
    returns (r: Response<Row<Playlist>>)
    requires db.Valid()
    modifies db`playlists
    ensures db.Valid()
    ensures playlistId.None? ==> r == Err(400, "Invalid playlist id")
    ensures playlistId.Some? && videoId.None? ==> r == Err(400, "Invalid video id")
    ensures playlistId.Some? && videoId.Some? && user.None? ==> r == Err(400, "Invalid user id")
    ensures r.Err? ==> db.playlists == old(db.playlists)
    ensures playlistId.Some? && videoId.Some? && user.Some? ==>
      match OwnedPlaylist(old(db.playlists), playlistId.value, user.value)
      case None =>
        r == Err(408, "Error removing video from playlist")
      case Some(k) =>
        var p := old(db.playlists)[k].doc;
        && db.playlists == Replace(old(db.playlists), k, p.(videos := Pull(p.videos, videoId.value)))
        && r == Ok(db.playlists[k])
    ensures PlaylistsAreSets(old(db.playlists)) ==> PlaylistsAreSets(db.playlists)
  {
    if playlistId.None? {
      return Err(400, "Invalid playlist id");
    }
    if videoId.None? {
      return Err(400, "Invalid video id");
    }
    if user.None? {
      return Err(400, "Invalid user id");
    }
    var found := OwnedPlaylist(db.playlists, playlistId.value, user.value);
    if found.None? {
      return Err(408, "Error removing video from playlist");
    }
    var k := found.value;
    var p := db.playlists[k].doc;
    ReplaceWellFormed(db.playlists, db.clock, k, p.(videos := Pull(p.videos, videoId.value)));
    if PlaylistsAreSets(db.playlists) {
      PullKeepsSet(p.videos, videoId.value);
      ReplaceKeepsSets(db.playlists, k, p.(videos := Pull(p.videos, videoId.value)));
    }
    db.playlists := Replace(db.playlists, k, p.(videos := Pull(p.videos, videoId.value)));
    r := Ok(db.playlists[k]);
  }

  /**
   * deletePlaylist: the playlist id and the caller are validated; a missing
   * playlist or another owner's ends as 408 with no change; otherwise the
   * playlist is deleted and returned as it was.
   */
  method DeletePlaylist(db: Db, playlistId: Option<Id>, user: Option<Id>) returns (r: Response<Row<Playlist>>)
    requires db.Valid()
    modifies db`playlists
    ensures db.Valid()
    ensures playlistId.None? ==> r == Err(400, "Invalid playlist id")
    ensures playlistId.Some? && user.None? ==> r == Err(400, "Invalid user id")
    ensures r.Err? ==> db.playlists == old(db.playlists)
    ensures playlistId.Some? && user.Some? ==>
      match Find(old(db.playlists), playlistId.value)
      case None =>
        r == Err(408, "Error deleting playlist")
      case Some(k) =>
        if old(db.playlists)[k].doc.owner != user.value then r == Err(408, "Error deleting playlist")
        else db.playlists == RemoveAt(old(db.playlists), k) && r == Ok(old(db.playlists)[k])
    ensures PlaylistsAreSets(old(db.playlists)) ==> PlaylistsAreSets(db.playlists)
  {
    if playlistId.None? {
      return Err(400, "Invalid playlist id");
    }
    if user.None? {
      return Err(400, "Invalid user id");
    }
    var found := Find(db.playlists, playlistId.value);
    if found.None? || db.playlists[found.value].doc.owner != user.value {
      return Err(408, "Error deleting playlist");
    }
    var k := found.value;
    r := Ok(db.playlists[k]);
    RemoveWellFormed(db.playlists, db.clock, k);
    if PlaylistsAreSets(db.playlists) {
      RemoveKeepsSets(db.playlists, k);
    }
    db.playlists := RemoveAt(db.playlists, k);
  }

  /**
   * updatePlaylist: the playlist id, the caller, the name and the
   * description are validated in that order; on the caller's own playlist
   * exactly the name and the description are replaced.
   */
  method UpdatePlaylist(db: Db, playlistId: Option<Id>, user: Option<Id>, name: Option<string>, description: Option<string>)
    returns (r: Response<Row<Playlist>>)
    requires db.Valid()
    modifies db`playlists
    ensures db.Valid()
    ensures playlistId.None? ==> r == Err(400, "Invalid playlist id")
    ensures playlistId.Some? && user.None? ==> r == Err(400, "Invalid user id")
    ensures playlistId.Some? && user.Some? && !Given(name) ==> r == Err(400, "Name is required")
    ensures playlistId.Some? && user.Some? && Given(name) && !Given(description) ==> r == Err(400, "Description is required")
    ensures r.Err? ==> db.playlists == old(db.playlists)
    ensures playlistId.Some? && user.Some? && Given(name) && Given(description) ==>
      match OwnedPlaylist(old(db.playlists), playlistId.value, user.value)
      case None =>
        r == Err(408, "Error updating playlist")
      case Some(k) =>
        var p := old(db.playlists)[k].doc;
        && db.playlists == Replace(old(db.playlists), k, p.(name := name.value, description := description.value))
        && r == Ok(db.playlists[k])
    ensures PlaylistsAreSets(old(db.playlists)) ==> PlaylistsAreSets(db.playlists)
  {
    if playlistId.None? {
      return Err(400, "Invalid playlist id");
    }
    if user.None? {
      return Err(400, "Invalid user id");
    }
    if !Given(name) {
      return Err(400, "Name is required");
    }
    if !Given(description) {
      return Err(400, "Description is required");
    }
    var found := OwnedPlaylist(db.playlists, playlistId.value, user.value);
    if found.None? {
      return Err(408, "Error updating playlist");
    }
    var k := found.value;
    var p := db.playlists[k].doc;
    ReplaceWellFormed(db.playlists, db.clock, k, p.(name := name.value, description := description.value));
    if PlaylistsAreSets(db.playlists) {
      ReplaceKeepsSets(db.playlists, k, p.(name := name.value, description := description.value));
    }
    db.playlists := Replace(db.playlists, k, p.(name := name.value, description := description.value));
    r := Ok(db.playlists[k]);
  }
}
