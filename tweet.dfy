/**
 * The tweet handlers: creating a tweet, a user's profile with all their
 * tweets, and editing a tweet. As written, an edit reaches the store before
 * the ownership check, and deleting a tweet does nothing at all.
 */
module TweetController {
  import opened Tables
  import opened Records
  import opened Store

  /**
   * createTweet: the presence of the content, its length and the caller are
   * checked in that order; then the tweet is created, or a failed write
   * (`createOk` false) replies 408.
   */
  method CreateTweet(db: Db, content: Option<string>, user: Option<Id>, createOk: bool) returns (r: Response<Row<Tweet>>)
    requires db.Valid()
    modifies db`tweets, db`clock
    ensures db.Valid()
    ensures !Given(content) ==> r == Err(400, "Content is required")
    ensures Given(content) && |content.value| > MaxTweetLength ==> r == Err(400, "Tweet exceeds 280 character limit")
    ensures Given(content) && |content.value| <= MaxTweetLength && user.None? ==> r == Err(400, "Invalid user id")
    ensures Given(content) && |content.value| <= MaxTweetLength && user.Some? && !createOk ==> r == Err(408, "Error creating tweet")
    ensures r.Err? ==> db.tweets == old(db.tweets) && db.clock == old(db.clock)
    ensures r.Ok? ==>
      && r.value == Row(old(db.clock), old(db.clock), Tweet(user.value, content.value))
      && db.tweets == old(db.tweets) + [r.value]
      && db.clock == old(db.clock) + 1
  {
    if !Given(content) {
      return Err(400, "Content is required");
    }
    if |content.value| > MaxTweetLength {
      return Err(400, "Tweet exceeds 280 character limit");
    }
    if user.None? {
      return Err(400, "Invalid user id");
    }
    if !createOk {
      return Err(408, "Error creating tweet");
    }
    var t := Tweet(user.value, content.value);
    InsertWellFormed(db.tweets, db.clock, t);
    db.tweets := Insert(db.tweets, db.clock, t);
    r := Ok(db.tweets[|db.tweets| - 1]);
    db.clock := db.clock + 1;
  }

  /** The tweets of one owner. */
  function ByOwner(owner: Id): Tweet -> bool
  {
    (t: Tweet) => t.owner == owner
  }

  /** The reply of getUserTweets: the user's public fields and all of their tweets. */
  datatype UserTweets = UserTweets(id: Id, username: string, fullname: string, email: string, avatar: string, allTweets: Table<Tweet>)

  /**
   * getUserTweets: `$match` on the user, `$lookup` of the tweets it owns,
   * `$project`. An unknown user yields no row, which raises 404 inside the
   * `try` and is reported by the catch as 408; a user without tweets is
   * answered with an empty list.
   */
  function GetUserTweets(users: Table<User>, tweets: Table<Tweet>, userId: Option<Id>): (r: Response<UserTweets>)
    ensures userId.None? <==> r == Err(400, "Invalid user id")
    ensures userId.Some? && Lookup(users, userId.value).None? ==> r == Err(408, "Error getting user tweets")
    ensures r.Ok? <==> userId.Some? && Lookup(users, userId.value).Some?
    ensures r.Ok? ==>
      var u := Lookup(users, userId.value).value;
      && r.value.id == userId.value
      && r.value.username == u.doc.username && r.value.fullname == u.doc.fullname
      && r.value.email == u.doc.email && r.value.avatar == u.doc.avatar
      && (forall k :: 0 <= k < |r.value.allTweets| ==> r.value.allTweets[k] in tweets && r.value.allTweets[k].doc.owner == userId.value)
      && (forall k :: 0 <= k < |tweets| && tweets[k].doc.owner == userId.value ==> tweets[k] in r.value.allTweets)
  {
    if userId.None? then Err(400, "Invalid user id")
    else match Lookup(users, userId.value)
      case None => Err(408, "Error getting user tweets")
      case Some(u) =>
        var mine := Where(tweets, ByOwner(u.id));
        assert forall k :: 0 <= k < |tweets| && tweets[k].doc.owner == u.id ==> ByOwner(u.id)(tweets[k].doc);
        Ok(UserTweets(u.id, u.doc.username, u.doc.fullname, u.doc.email, u.doc.avatar, mine))
  }

  /** The tweets getUserTweets lists are in the order they were posted. */
  lemma UserTweetsInOrder(users: Table<User>, tweets: Table<Tweet>, userId: Option<Id>)
    requires Chronological(tweets)
    ensures GetUserTweets(users, tweets, userId).Ok? ==>
      forall i, j :: 0 <= i < j < |GetUserTweets(users, tweets, userId).value.allTweets| ==>
        GetUserTweets(users, tweets, userId).value.allTweets[i].createdAt < GetUserTweets(users, tweets, userId).value.allTweets[j].createdAt
  {
    if GetUserTweets(users, tweets, userId).Ok? {
      WhereChronological(tweets, ByOwner(userId.value));
    }
  }

  /**
   * updateTweet: the tweet id, the presence of the content and its length
   * are checked; the caller is not. `findByIdAndUpdate` writes the content
   * first; the owner is compared afterwards against `req.user._id`, which
   * throws when there is no caller. Every failure in the `try` (missing
   * tweet, other owner, no caller) is reported as 500, and only a missing
   * tweet leaves the store as it was.
   */
  method UpdateTweet(db: Db, tweetId: Option<Id>, content: Option<string>, user: Option<Id>) returns (r: Response<Row<Tweet>>)
    requires db.Valid()
    modifies db`tweets
    ensures db.Valid()
    ensures tweetId.None? ==> r == Err(400, "Invalid tweet id")
    ensures tweetId.Some? && !Given(content) ==> r == Err(400, "Content is required")
    ensures tweetId.Some? && Given(content) && |content.value| > MaxTweetLength ==> r == Err(400, "Tweet exceeds 280 character limit")
    ensures r.Err? && r.status == 400 ==> db.tweets == old(db.tweets)
    ensures tweetId.Some? && Given(content) && |content.value| <= MaxTweetLength ==>
      match Find(old(db.tweets), tweetId.value)
      case None =>
        db.tweets == old(db.tweets) && r == Err(500, "Error updating the Tweet")
      case Some(k) =>
        var t := old(db.tweets)[k];
        && db.tweets == old(db.tweets)[k := t.(doc := t.doc.(content := content.value))]
        && r == if user == Some(t.doc.owner) then Ok(db.tweets[k]) else Err(500, "Error updating the Tweet")
  {
    if tweetId.None? {
      return Err(400, "Invalid tweet id");
    }
    if !Given(content) {
      return Err(400, "Content is required");
    }
    if |content.value| > MaxTweetLength {
      return Err(400, "Tweet exceeds 280 character limit");
    }
    var found := Find(db.tweets, tweetId.value);
    if found.None? {
      return Err(500, "Error updating the Tweet");
    }
    var k := found.value;
    var t := db.tweets[k];
    ReplaceWellFormed(db.tweets, db.clock, k, t.doc.(content := content.value));
    db.tweets := db.tweets[k := t.(doc := t.doc.(content := content.value))];
    if user != Some(t.doc.owner) {
      return Err(500, "Error updating the Tweet");
    }
    r := Ok(db.tweets[k]);
  }

  /** deleteTweet: the handler body is empty; it answers nothing and changes nothing. */
  method DeleteTweet(db: Db, tweetId: Option<Id>) returns (r: Response<Row<Tweet>>)
    requires db.Valid()
    ensures r == NoReply
  {
    r := NoReply;
  }
}
