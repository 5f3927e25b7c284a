/**
 * The documents of the seven collections (users, videos, playlists, likes,
 * subscriptions, comments, tweets), the request-level notions the handlers
 * share (truthy strings, numeric query parameters) and the outcome of a
 * handler.
 */
module Records {
  import opened Tables

  /** A user account. `watchHistory` is only ever extended with `$addToSet`. */
  datatype User = User(
    username: string,
    email: string,
    fullname: string,
    password: string,
    avatar: string,
    banner: string,
    refreshToken: string,
    watchHistory: seq<Id>)

  /** A user record read with `select("-password -refreshToken")`. */
  datatype PublicUser = PublicUser(
    id: Id,
    createdAt: nat,
    username: string,
    email: string,
    fullname: string,
    avatar: string,
    banner: string,
    watchHistory: seq<Id>)

  function Public(u: Row<User>): (p: PublicUser)
  {
    PublicUser(u.id, u.createdAt, u.doc.username, u.doc.email, u.doc.fullname,
               u.doc.avatar, u.doc.banner, u.doc.watchHistory)
  }

  datatype Video = Video(
    owner: Id,
    videoFile: string,
    thumbnailFile: string,
    title: string,
    description: string,
    duration: int,
    views: int,
    isPublished: bool)

  datatype Playlist = Playlist(name: string, description: string, owner: Id, videos: seq<Id>)

  /** A like names exactly one liked document: a video, a comment or a tweet. */
  datatype Target = OnVideo(video: Id) | OnComment(comment: Id) | OnTweet(tweet: Id)

  datatype Like = Like(target: Target, likedBy: Id)

  datatype Subscription = Subscription(subscriber: Id, channel: Id)

  datatype Comment = Comment(video: Id, owner: Id, content: string)

  datatype Tweet = Tweet(owner: Id, content: string)

  /** A file stored by the media service: its public URL and its id there. */
  datatype Asset = Asset(url: string, publicId: string)

  /** What a call to the media upload returned: the stored file, or the error it threw. */
  datatype Upload = Uploaded(asset: Asset) | UploadFailed(reason: string)

  /**
   * The outcome of a handler.
   *   Ok       - a 2xx reply carrying this payload;
   *   Err      - an ApiError with this status and message reached the error middleware;
   *   Uncaught - some other exception (TypeError, ReferenceError) left the handler;
   *   NoReply  - the handler finished without answering.
   */
  datatype Response<+T> = Ok(value: T) | Err(status: nat, message: string) | Uncaught | NoReply

  /** A string request field that JavaScript treats as true: present and not empty. */
  predicate Given(s: Option<string>)
  {
    s.Some? && s.value != ""
  }

  /** A query-string number after `parseInt`: absent, not a number (NaN), or an integer. */
  datatype QueryNum = Missing | NotANumber | Num(n: int)

  /** A tweet longer than this many characters is refused. */
  const MaxTweetLength := 280

  /** A comment longer than this many characters is refused (the message says 280). */
  const MaxCommentLength := 500

  /** No value occurs twice. */
  ghost predicate NoDuplicates(s: seq<Id>)
  {
    forall i, j :: 0 <= i < j < |s| ==> s[i] != s[j]
  }
}
