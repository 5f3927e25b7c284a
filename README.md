# Video platform backend: a Dafny model of its request handlers

This project models the request handlers of a video-sharing backend. The
backend is an Express application over MongoDB. It covers:

- users and registration;
- videos: search, publish, watch, edit;
- playlists;
- likes on videos, comments and tweets;
- channel subscriptions;
- comments and tweets;
- the channel dashboard;
- the JWT gate in front of the protected routes.

The store is modelled as one object (`Store.Db`). It holds each collection
as a table of rows in insertion order. Every row carries its `_id` and its
`createdAt`, and both are taken from a single clock. That makes a newer
document always have a larger id and a later creation time.

Handlers take one of two forms:

- A handler that writes to the store is a module-level method taking
  `db: Db`. Its `modifies` clause names exactly the fields of `db` it may
  write. It keeps the store's invariant `Valid()`, which says:
  - every table is chronological and below the clock;
  - likes and subscriptions are never duplicated;
  - watch histories hold no repeated video;
  - no two accounts share a username or an email;
  - stored tweets and comments respect their length limits.

  Playlists without repeated videos (`PlaylistsAreSets`) are not part of
  the invariant, because `addVideoToPlaylist` compares id spellings. Each
  playlist writer states when it keeps that property.
- A handler that only reads is a function of the tables it reads.

Each handler returns a `Response`, which is one of:

- the success payload;
- an `ApiError` with its status and message;
- `Uncaught`: an exception that is not an `ApiError` escapes the handler;
- `NoReply`: the handler's body is empty.

Request parameters that the source checks with `!x || !isValidObjectId(x)`
are `Option<Id>`, where `None` stands for both missing and malformed. A
valid id can be spelled several ways: 24 hex digits in either case, or 12
raw characters. The database prints it as 24 lowercase hex digits. Two
handlers compare the request's string with that printed form. For them a
flag `asPrinted` says whether the request used the printed spelling.
JavaScript truthiness of a string is `Given`.

Collaborators whose behaviour lies outside these files are parameters:

- the outcome of an upload to the media service (`Upload`);
- the outcome of a database write in the create handlers (`createOk`);
- the email format check;
- the case-insensitive title regex, and which patterns the database accepts;
- the database's sort on a caller-chosen field, and which fields and directions it accepts;
- the JWT verifier.

Modules:

- `Tables`: generic rows and tables, filtering, paging, ordering and the toggle (insert-or-delete) step.
- `Records`: the documents and the `Response` type.
- `Store`: the `Db` class and its invariant.
- `LikeController`, `SubscriptionController`, `PlaylistController`,
  `CommentController`, `TweetController`, `VideoController`,
  `DashboardController` and `UserController`: one module per controller
  file.
- `AuthMiddleware`: the JWT gate.

## Model

| member | source | states |
|---|---|---|
| Tables.Find | src/controllers/playlist.controller.js:137 | `findById`: the index of the first row with that id, or none exactly when no row has it |
| Tables.Lookup | src/controllers/video.controller.js:140 | `findById` as a document: a row of the table with that id, or none exactly when no row has it |
| Tables.FindDoc | src/controllers/like.controller.js:23-26 | `findOne` on a whole document: the index of a row holding exactly that document, or none exactly when no row does |
| Tables.RemoveAt | src/controllers/playlist.controller.js:249 | deleting one row removes exactly that row and keeps the others in order |
| Tables.Where | src/controllers/comment.controller.js:22-25 | `$match`: the result holds exactly the rows the filter keeps, each from the table |
| Tables.WhereChronological | src/controllers/tweet.controller.js:51-64 | a filtered chronological table is still chronological |
| Tables.WhereAbove | src/controllers/comment.controller.js:22-25 | when every row's id and time are above a bound, so are those of every row a filter keeps |
| Tables.Count | src/controllers/dashboard.controller.js:47-48 | `$count` after `$match`: at most the table's size, and zero exactly when no row matches |
| Tables.CountWhere | src/controllers/dashboard.controller.js:47-48 | the count of matching rows equals the length of the filtered table |
| Tables.Reverse | src/controllers/comment.controller.js:27-29 | the reversed table has the same length and element k is element n-1-k |
| Tables.Page | src/controllers/comment.controller.js:31-36 | `$skip` then `$limit`: at most `limit` rows, exactly the rows from `skip` on, in order |
| Tables.Skip | src/controllers/comment.controller.js:32 | `(page - 1) * limit` with a positive limit is non-negative exactly when the page is at least 1 |
| Tables.InsertWellFormed | src/controllers/tweet.controller.js:26-29 | a `create` stamped with the clock keeps the table chronological and below the advanced clock |
| Tables.RemoveWellFormed | src/controllers/comment.controller.js:149 | deleting a row keeps a table well formed |
| Tables.RemoveDistinct | src/controllers/like.controller.js:30 | deleting a row keeps the documents distinct |
| Tables.ReplaceWellFormed | src/controllers/tweet.controller.js:110-114 | rewriting a row's document in place keeps ids and timestamps, so the table stays well formed |
| Tables.NewestFirstSorted | src/controllers/comment.controller.js:27-29 | `$sort: { createdAt: -1 }` over a chronological table yields strictly decreasing creation times |
| Tables.ReverseRows | src/controllers/comment.controller.js:27-29 | reversing keeps the rows: each row of the result is one of the input and every input row is in the result |
| Tables.NewestFirstWhere | src/controllers/dashboard.controller.js:81-89 | `$match` then `$sort: { createdAt: -1 }` over a chronological table: exactly the kept rows, each from the table, in strictly decreasing creation time |
| Tables.ReverseMultiset | src/controllers/comment.controller.js:27-29 | sorting newest first neither adds nor drops a row |
| Tables.Toggle | src/controllers/like.controller.js:23-40 | `findOne` then `deleteOne` or `create`: reports whether the document was present and, if it was, removes it, otherwise appends it with a fresh id |
| Tables.ToggleFlips | src/controllers/like.controller.js:23-40 | after a toggle the document is present exactly when it was absent before, and the table stays well formed with distinct documents |
| Tables.ToggleKeepsOthers | src/controllers/like.controller.js:23-40 | a toggle leaves the presence of every other document unchanged |
| Tables.ToggleTwice | src/controllers/subscription.controller.js:27-41 | a second toggle of the same document undoes the first: an added row is removed again, restoring the table exactly, and a removed document is stored again as a new last row |
| LikeController.ToggleLike | src/controllers/like.controller.js:23-40 | the store's likes become the toggle of the old likes, and the clock advances only on a create |
| LikeController.ToggleVideoLike | src/controllers/like.controller.js:7-53 | 400 for a bad video id or caller; otherwise the like on that video by the caller is flipped and the message says liked or unliked |
| LikeController.ToggleCommentLike | src/controllers/like.controller.js:55-102 | 400 for a bad comment id or caller; otherwise the handler reads `existingLike` outside the `try` block that declares it, so it always throws and nothing is stored |
| LikeController.ToggleTweetLike | src/controllers/like.controller.js:104-148 | 400 for a bad tweet id or caller; otherwise the like on that tweet by the caller is flipped |
| LikeController.VideoLikeToggles | src/controllers/like.controller.js:23-40 | the toggle reports whether the caller had liked the video; afterwards the like is present exactly when it was absent, and every other like is kept or absent as before |
| LikeController.VideoLikeTwice | src/controllers/like.controller.js:7-53 | a second toggle undoes the first: liking then unliking restores the likes exactly, unliking then liking stores the like again |
| LikeController.Resolve | src/controllers/like.controller.js:166-188 | `$lookup` and `$unwind` on a like: an entry exactly when the like is on a video that exists, carrying the like's id, the video id and the like time |
| LikeController.LikedVideos | src/controllers/like.controller.js:159-189 | no more entries than likes; every like of the user on an existing video appears, and every entry comes from such a like |
| LikeController.LikedVideosAbove | src/controllers/like.controller.js:159-189 | when every like is newer than a bound, so is every listed entry |
| LikeController.OldestFirstCons | src/controllers/like.controller.js:159-189 | an entry older than every entry of an oldest-first listing can be put in front of it |
| LikeController.LikedVideosInOrder | src/controllers/like.controller.js:159-189 | over a chronological likes table the listing has strictly increasing like ids and like times, so each like appears at most once |
| LikeController.GetLikedVideos | src/controllers/like.controller.js:150-204 | 400 for a bad user id; otherwise every entry is a like by that user, with its id and time, on a video that exists, and every such like appears |
| LikeController.LikedVideosOncePerLike | src/controllers/like.controller.js:150-204 | over a chronological likes table the reply lists each like at most once, oldest first |
| SubscriptionController.ToggleSubscription | src/controllers/subscription.controller.js:8-55 | 400 for a bad channel id or caller, and for the caller's own id spelled as the database prints it; otherwise (including the caller's own id spelled differently) the subscription is flipped |
| SubscriptionController.SelfSubscriptionUnderOtherSpelling | src/controllers/subscription.controller.js:22-41 | when the caller's own id gets past the self test, a caller not yet subscribed to themself gets that subscription appended |
| SubscriptionController.SubscriptionTwice | src/controllers/subscription.controller.js:27-41 | a second toggle undoes the first: subscribing then unsubscribing restores the subscriptions exactly, and the reverse stores the subscription again |
| SubscriptionController.Joined | src/controllers/subscription.controller.js:78-98 | `$lookup` of a subscription's user and `$unwind`: an entry exactly when that user exists, carrying the subscription's id, time and the user's public card |
| SubscriptionController.JoinUsers | src/controllers/subscription.controller.js:78-98 | joining never yields more entries than subscriptions |
| SubscriptionController.JoinSound | src/controllers/subscription.controller.js:78-98 | every joined entry comes from some subscription whose user exists |
| SubscriptionController.JoinComplete | src/controllers/subscription.controller.js:78-98 | every subscription whose user exists contributes its entry |
| SubscriptionController.JoinBelow | src/controllers/subscription.controller.js:78-98 | when every subscription's time is below a bound, so is every joined entry's time |
| SubscriptionController.JoinKeepsOrder | src/controllers/subscription.controller.js:73-98 | joining a newest-first list of subscriptions keeps the entries newest first |
| SubscriptionController.SubscribersSound | src/controllers/subscription.controller.js:66-100 | every entry of the subscribers join is a subscription to the channel joined with its existing subscriber |
| SubscriptionController.SubscribersComplete | src/controllers/subscription.controller.js:66-100 | every subscription to the channel whose subscriber exists has its entry in the join |
| SubscriptionController.Subscribers | src/controllers/subscription.controller.js:66-100 | exactly the channel's subscriptions whose subscriber exists, each with the subscriber's card |
| SubscriptionController.JoinAbove | src/controllers/subscription.controller.js:122-152 | when every subscription's time is above a bound, so is every joined entry's time |
| SubscriptionController.JoinKeepsAscending | src/controllers/subscription.controller.js:122-152 | joining a chronological table lists entries in strictly increasing time |
| SubscriptionController.GetUserChannelSubscribers | src/controllers/subscription.controller.js:58-111 | 400 for a bad channel id, otherwise Ok with the channel's subscribers as `Subscribers` lists them |
| SubscriptionController.SubscribersNewestFirst | src/controllers/subscription.controller.js:73-76 | the subscriber list is in strictly decreasing subscription time |
| SubscriptionController.Channels | src/controllers/subscription.controller.js:122-152 | exactly the user's subscriptions whose channel exists, each with the channel's card |
| SubscriptionController.GetSubscribedChannels | src/controllers/subscription.controller.js:114-163 | 400 for a bad subscriber id, otherwise Ok with the subscribed channels as `Channels` lists them |
| SubscriptionController.ChannelsOldestFirst | src/controllers/subscription.controller.js:122-152 | over a chronological table the channels listing has strictly increasing subscription times, so each subscription appears at most once |
| SubscriptionController.SubscribedChannelsOldestFirst | src/controllers/subscription.controller.js:114-163 | over a chronological table the reply lists each subscription at most once, oldest first |
| PlaylistController.Pull | src/controllers/playlist.controller.js:203-205 | `$pull`: the result holds every video of the list except the pulled one, and no more |
| PlaylistController.PullConcat | src/controllers/playlist.controller.js:203-205 | pulling from a concatenation pulls from each part |
| PlaylistController.PullAbsent | src/controllers/playlist.controller.js:203-205 | pulling a video that is not in the list leaves the list unchanged |
| PlaylistController.PullKeepsSet | src/controllers/playlist.controller.js:203-205 | pulling from a list without repeats gives a list without repeats |
| PlaylistController.AppendKeepsSet | src/controllers/playlist.controller.js:153-164 | appending a video not yet in the list keeps it free of repeats |
| PlaylistController.AddThenRemove | src/controllers/playlist.controller.js:164-205 | adding a new video and then removing it restores the playlist |
| PlaylistController.Replace | src/controllers/playlist.controller.js:283-290 | rewriting one playlist's document keeps its id and time and leaves the other rows alone |
| PlaylistController.ReplaceKeepsSets | src/controllers/playlist.controller.js:283-290 | such a rewrite keeps every playlist free of repeated videos when the new list is |
| PlaylistController.RemoveKeepsSets | src/controllers/playlist.controller.js:249 | deleting a playlist keeps the others free of repeated videos |
| PlaylistController.CreatePlaylist | src/controllers/playlist.controller.js:8-42 | name, description and caller are required in that order; a failed write replies 408; otherwise an empty playlist owned by the caller is appended |
| PlaylistController.OwnedSummaries | src/controllers/playlist.controller.js:53-86 | every entry summarises one of the user's playlists, every such playlist is summarised, and there are exactly as many entries as the user has playlists, so each appears once |
| PlaylistController.GetUserPlaylists | src/controllers/playlist.controller.js:44-96 | 400 for a bad user id; nothing for an unknown user; otherwise each of the user's playlists once (as many entries as playlists, every one present), summarised with the owner's card |
| PlaylistController.GetPlaylistById | src/controllers/playlist.controller.js:98-117 | 400 for a bad id, 408 when the playlist is missing, otherwise that playlist |
| PlaylistController.AddTarget | src/controllers/playlist.controller.js:136-161 | the checks inside the `try`: a missing playlist, another owner and a missing video each fail; a video already present fails only when the request spells its id as the database prints it; otherwise the playlist's index |
| PlaylistController.RespelledVideoIsListedTwice | src/controllers/playlist.controller.js:153-163 | a video already in the caller's playlist, requested under another spelling, passes the duplicate test and the appended list repeats it |
| PlaylistController.AddVideoToPlaylist | src/controllers/playlist.controller.js:119-176 | 400 for bad ids or caller; any failure inside the `try` becomes 500; otherwise the video is appended to the playlist and nothing else changes; playlists stay free of repeats when the id is spelled as printed |
| PlaylistController.OwnedPlaylist | src/controllers/playlist.controller.js:197-200 | `findOneAndUpdate({ _id, owner })`: the index of the playlist with that id and owner, or none exactly when there is none |
| PlaylistController.RemoveVideoFromPlaylist | src/controllers/playlist.controller.js:178-222 | 400 for bad ids or caller; a playlist not owned by the caller replies 408; otherwise the video is pulled from it |
| PlaylistController.DeletePlaylist | src/controllers/playlist.controller.js:224-257 | 400 for a bad id or caller; a missing playlist or another owner replies 408 and nothing is deleted; otherwise exactly that playlist is deleted |
| PlaylistController.UpdatePlaylist | src/controllers/playlist.controller.js:259-307 | 400 for a bad id, caller, name or description in that order; a playlist not owned by the caller replies 408; otherwise its name and description are replaced |
| CommentController.ThreadSpec | src/controllers/comment.controller.js:20-30 | a video's thread holds exactly that video's comments, newest first |
| CommentController.ParsedOr | src/controllers/comment.controller.js:10-17 | a missing query value defaults, a non-numeric one is NaN, a number is kept |
| CommentController.GetVideoComments | src/controllers/comment.controller.js:7-50 | 400 for a bad video id; 500 when the page or limit is NaN, the limit is not positive or the page is below 1; otherwise the window of the thread starting at (page - 1) * limit |
| CommentController.AddComment | src/controllers/comment.controller.js:52-88 | video id, content, length and caller are checked in that order; a failed write replies 408; otherwise the comment is appended |
| CommentController.UpdateComment | src/controllers/comment.controller.js:90-135 | after the same checks, the content is written to the comment; the reply is the comment for its owner, and 408 for anyone else even though the edit persists |
| CommentController.DeleteComment | src/controllers/comment.controller.js:137-166 | the comment is deleted when it exists; the reply is the comment for its owner, and 408 for anyone else even though the delete persists |
| TweetController.CreateTweet | src/controllers/tweet.controller.js:8-38 | content, length and caller are checked in that order; a failed write replies 408; otherwise the tweet is appended |
| TweetController.GetUserTweets | src/controllers/tweet.controller.js:40-91 | 400 for a bad id, 408 for an unknown user, otherwise the user's id, username, fullname, email and avatar, and exactly the user's tweets |
| TweetController.UserTweetsInOrder | src/controllers/tweet.controller.js:56-62 | the listed tweets are in posting order |
| TweetController.UpdateTweet | src/controllers/tweet.controller.js:93-131 | 400 for a bad id, content or length; an existing tweet is rewritten whoever asks; the reply is the tweet for its owner and 500 otherwise |
| TweetController.DeleteTweet | src/controllers/tweet.controller.js:133-135 | the handler never replies |
| VideoController.Window | src/controllers/video.controller.js:40-42 | a cursor's `skip` and `limit`: the elements from `skip` on; exactly the smaller of the limit's magnitude and the number left, and all of them for limit 0 |
| VideoController.ReorderedFrom | src/controllers/video.controller.js:41 | a reordering holds only elements of what it reorders |
| VideoController.Ordered | src/controllers/video.controller.js:26-29 | a sort happens only when both sortBy and sortType are given, and it is a permutation |
| VideoController.FindRefused | src/controllers/video.controller.js:18-42 | the query is refused when the title pattern is invalid, when both sort keys are given and the database does not accept that field and direction (a malformed field path such as `a..b`, or an unknown direction), or when the skip is negative |
| VideoController.GetAllVideos | src/controllers/video.controller.js:9-65 | query and user id are required; a refused query replies 408; otherwise the page of the user's matching videos, of exactly the length the window leaves, and the total number of matches |
| VideoController.AllVideosPage | src/controllers/video.controller.js:38-42 | the page is the run of the ordered matches starting at (page - 1) * limit |
| VideoController.SortOnlyWithBothKeys | src/controllers/video.controller.js:26-29 | without both sort keys the result does not depend on the database's sort |
| VideoController.PublishAVideo | src/controllers/video.controller.js:67-128 | both files, then title and description, are required; a failed upload replies 500 with its reason; otherwise the video is created, or the catch's missing cleanup function throws and nothing is stored |
| VideoController.AddToSet | src/controllers/video.controller.js:149-152 | `$addToSet`: the video is in the history afterwards, nothing else is added, and an existing entry is not repeated |
| VideoController.AddToSetKeepsSet | src/controllers/video.controller.js:149-152 | a history without repeats stays without repeats |
| VideoController.RecordWatch | src/controllers/video.controller.js:149-152 | only the viewer's watch history changes, and it gains the video |
| VideoController.RecordWatchValid | src/controllers/video.controller.js:149-152 | recording a watch keeps the users table well formed, histories free of repeats and accounts unique |
| VideoController.Details | src/controllers/video.controller.js:161-200 | the video's details joined with its owner's card, present exactly when the video's owner exists (the `$unwind`) |
| VideoController.GetVideoById | src/controllers/video.controller.js:130-209 | 408 for a bad id, 404 for a missing video; a caller other than the owner adds one view and records the watch; the reply holds the video's details |
| VideoController.Apply | src/controllers/video.controller.js:244-248 | `$set` of the given fields: exactly those fields change |
| VideoController.ApplyIdempotent | src/controllers/video.controller.js:244-248 | applying the same patch twice is the same as applying it once |
| VideoController.UpdateVideo | src/controllers/video.controller.js:211-257 | a failed thumbnail upload throws, an empty URL replies 500, an empty patch replies 400; otherwise the patch is applied to the video, which may be missing |
| VideoController.DeleteVideo | src/controllers/video.controller.js:259-262 | the handler never replies |
| VideoController.TogglePublishStatus | src/controllers/video.controller.js:264-266 | the handler never replies |
| DashboardController.VideoGroup | src/controllers/dashboard.controller.js:21-30 | `$group` over the owner's videos: the count never exceeds the table, and a channel without videos gets (0, 0) |
| DashboardController.VideoGroupIsMatch | src/controllers/dashboard.controller.js:21-30 | the group's count is the number of the owner's videos and its sum their total views |
| DashboardController.VideoGroupAfterView | src/controllers/dashboard.controller.js:21-30 | one more view on one of the owner's videos raises the total views by one and leaves the count |
| DashboardController.GetChannelStats | src/controllers/dashboard.controller.js:9-67 | 400 for a bad channel id; otherwise the channel's video count, total views, likes on its videos and subscribers |
| DashboardController.StatsDefaultToZero | src/controllers/dashboard.controller.js:51-56 | a channel with no videos, likes or subscribers reports zeros |
| DashboardController.OrDefault | src/controllers/dashboard.controller.js:72-74 | `parseInt(x) \|\| d`: the default for a missing, non-numeric or zero value, the number otherwise |
| DashboardController.UploadsSpec | src/controllers/dashboard.controller.js:80-96 | exactly the channel's published videos, newest first |
| DashboardController.GetChannelVideos | src/controllers/dashboard.controller.js:69-121 | 400 for a bad channel id; a negative limit or a page below 1 replies 500; otherwise the window of the channel's published videos, newest first, starting at (page - 1) * limit, projected |
| UserController.SchemaErrors | src/controllers/user.controller.js:8-13 | each field is rejected exactly when it is missing, too short or, for the email, ill formed |
| UserController.SchemaAccepts | src/controllers/user.controller.js:16-21 | the body passes exactly when every field is present, long enough and the email is well formed |
| UserController.Taken | src/controllers/user.controller.js:25-27 | some account already has the username or the email |
| UserController.RegisteredIsTaken | src/controllers/user.controller.js:25-31 | once an account is registered, the same registration is refused as taken |
| UserController.FreshAccountUnique | src/controllers/user.controller.js:25-31 | a registration that passed the taken check keeps every username and email unique |
| UserController.RegisterUser | src/controllers/user.controller.js:15-91 | schema, taken account, both images, avatar upload, banner upload and creation, in that order, each with its status; a failed creation deletes both images; otherwise the account is appended and returned without its secrets |
| AuthMiddleware.IndexOf | src/middleware/auth.middlewares.js:7 | the first position at which the pattern occurs, or none when it occurs nowhere |
| AuthMiddleware.RemoveFirst | src/middleware/auth.middlewares.js:7 | `String.replace` with a string pattern removes only the first occurrence, and nothing when there is none |
| AuthMiddleware.Token | src/middleware/auth.middlewares.js:7 | the cookie when it is non-empty, otherwise the Authorization header with "Bearer " removed |
| AuthMiddleware.BearerRoundTrip | src/middleware/auth.middlewares.js:7 | a header "Bearer <token>" yields exactly the token |
| AuthMiddleware.HeaderWithoutBearer | src/middleware/auth.middlewares.js:7 | a header without "Bearer " is used as it is |
| AuthMiddleware.VerifyJwt | src/middleware/auth.middlewares.js:6-27 | no token, a rejected token or an unknown account replies 401 (with the verifier's message when it has one); otherwise the account without its secrets |

## Left out

- Validity of ObjectIds: `isValidObjectId` is folded into the request values; a missing or malformed id is `None`. The spelling of a valid id matters only where the source compares strings (the `asPrinted` flags). Elsewhere the database casts the id.
- String lengths: lengths are counted in characters, not UTF-16 code units as in JavaScript.
- Database failures: a failing read or write is modelled only in the create handlers (`createOk`). Elsewhere the store is assumed to answer.
- Media service: uploads are outcomes passed in. `src/util/cloudinary.js` is not part of this model; an upload either yields an asset or throws.
- Password hashing: the `pre("save")` hook of `src/models/users.model.js` is not part of this model, so the password is stored as given.
- Foreign behaviour as parameters: the zod email check, the title regex, the sort on a caller-chosen field and `jwt.verify` are parameters; only that the sort reorders is assumed of it.
- Error middleware: the JSON body of an error reply is not modelled. `Uncaught` stands for any non-`ApiError` exception escaping a handler.
- Login, logout, token refresh and the other user routes: they are not among the handlers modelled.
- Timestamps: `updatedAt` is not kept; only `createdAt` is.
- Request logging: `console.error` calls are not modelled.
- AuthMiddleware.VerifyJwt: an `_id` claim that is not a valid ObjectId makes `findById` throw a cast error, whose message would be the reply; the model replies "Unauthorized" for it.
- VideoController.GetAllVideos: page and limit are numbers or absent; a non-numeric string, which the source passes through unparsed, is not modelled.
- VideoController.UpdateVideo: the update is modelled as failing only for an id the database cannot cast; other write failures are not modelled. The never-imported cleanup its catch calls is modelled as `Uncaught`.
- VideoController.PublishAVideo: the cleanup function the catch calls is never imported. The model reports that path as `Uncaught` and does not model the uploads left behind.
- UserController.RegisterUser: the 404 "User not found" after a successful creation cannot happen in the model, since the created account is always found. A failed banner upload leaves the avatar on the media service, as in the source.
- CommentController.AddComment: the limit is 500 characters while the message says 280, as in the source.
- Integer width: page, limit and skip are unbounded integers here. The database refuses a `$skip` or `$limit` outside the 64-bit integer range, and JavaScript numbers are doubles. Neither is modelled.
- CommentController.GetVideoComments: a page or limit so large that the skip leaves the 64-bit range is `Ok` here; the source replies 500.
- DashboardController.GetChannelVideos: a page or limit so large that the skip leaves the 64-bit range is `Ok` here; the source replies 500.
- VideoController.GetAllVideos: a page or limit so large that the skip leaves the 64-bit range is `Ok` here; the source replies 408.
- Ties in creation time: the model stamps rows from a strictly increasing clock, so no two rows share a `createdAt`. The source's millisecond timestamps can tie, and a `$sort` leaves tied rows in no fixed order. A `$match` or `$lookup` without a `$sort` is taken to return rows in insertion order, which the database does not promise.
- Tables.NewestFirstSorted: strict order holds only without timestamp ties.
- Tables.NewestFirstWhere: strict order holds only without timestamp ties.
- CommentController.ThreadSpec: the newest-first order is fixed only without timestamp ties.
- DashboardController.UploadsSpec: the newest-first order is fixed only without timestamp ties.
- SubscriptionController.SubscribersNewestFirst: the newest-first order is fixed only without timestamp ties.
- TweetController.UserTweetsInOrder: assumes the `$lookup` returns tweets in insertion order.
- LikeController.LikedVideosInOrder: assumes the `$match` returns likes in insertion order.
- SubscriptionController.ChannelsOldestFirst: assumes the `$match` returns subscriptions in insertion order.
- Healthcheck: `src/controllers/healthcheck.controller.js` is not part of this model.
