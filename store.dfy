/**
 * The database the handlers share: one table per collection, and a clock that
 * hands out the `_id` and the `createdAt` of every created document, so that
 * each table is stored oldest first.
 */
module Store {
  import opened Tables
  import opened Records

  /**
   * Every playlist lists each of its videos once. Not part of the store's
   * invariant: addVideoToPlaylist keeps it only for requests that spell the
   * video id as the database prints it.
   */
  ghost predicate PlaylistsAreSets(t: Table<Playlist>)
  {
    forall k :: 0 <= k < |t| ==> NoDuplicates(t[k].doc.videos)
  }

  /** Every watch history lists each video once. */
  ghost predicate HistoriesAreSets(t: Table<User>)
  {
    forall k :: 0 <= k < |t| ==> NoDuplicates(t[k].doc.watchHistory)
  }

  /** No two accounts share a username or an email. */
  ghost predicate AccountsUnique(t: Table<User>)
  {
    forall i, j :: 0 <= i < j < |t| ==> t[i].doc.username != t[j].doc.username && t[i].doc.email != t[j].doc.email
  }

  /** Every tweet is non-empty and at most 280 characters long. */
  ghost predicate TweetsWithinLimit(t: Table<Tweet>)
  {
    forall k :: 0 <= k < |t| ==> 0 < |t[k].doc.content| <= MaxTweetLength
  }

  /** Every comment is non-empty and at most 500 characters long. */
  ghost predicate CommentsWithinLimit(t: Table<Comment>)
  {
    forall k :: 0 <= k < |t| ==> 0 < |t[k].doc.content| <= MaxCommentLength
  }

  class Db {
    var users: Table<User>
    var videos: Table<Video>
    var playlists: Table<Playlist>
    var likes: Table<Like>
    var subscriptions: Table<Subscription>
    var comments: Table<Comment>
    var tweets: Table<Tweet>
    var clock: nat

    /**
     * The invariant every handler keeps: each table is in creation order with
     * ids below the clock, no (target, user) pair is liked twice, no
     * (subscriber, channel) pair is subscribed twice, watch histories hold
     * no duplicates, no two accounts share a username or an email, and every
     * tweet and comment is within its length limit.
     */
    ghost predicate Valid()
      reads this
    {
      && WellFormed(users, clock)
      && WellFormed(videos, clock)
      && WellFormed(playlists, clock)
      && WellFormed(likes, clock)
      && WellFormed(subscriptions, clock)
      && WellFormed(comments, clock)
      && WellFormed(tweets, clock)
      && DistinctDocs(likes)
      && DistinctDocs(subscriptions)
      && HistoriesAreSets(users)
      && AccountsUnique(users)
      && TweetsWithinLimit(tweets)
      && CommentsWithinLimit(comments)
    }

    /** An empty database. */
    constructor ()
      ensures Valid()
      ensures users == [] && videos == [] && playlists == [] && likes == []
      ensures subscriptions == [] && comments == [] && tweets == [] && clock == 0
    {
      users, videos, playlists, likes := [], [], [], [];
      subscriptions, comments, tweets := [], [], [];
      clock := 0;
    }
  }
}
