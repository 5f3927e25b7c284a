/**
 * The subscription handlers: toggling a subscription to a channel, the
 * subscribers of a channel, and the channels a user subscribed to.
 */
module SubscriptionController {
  import opened Tables
  import opened Records
  import opened Store

  /**
   * toggleSubscription: validate both ids, refuse a self-subscription, then
   * flip the pair. The self test compares the channel id as the request
   * spelled it with the caller's id as the database prints it (24 lowercase
   * hex digits); `asPrinted` says whether the request used that spelling.
   * Under any other spelling of the caller's own id the test passes and the
   * pair (caller, caller) is flipped like any other.
   */
  method ToggleSubscription(db: Db, channelId: Option<Id>, asPrinted: bool, user: Option<Id>) returns (r: Response<string>)
    requires db.Valid()
    modifies db`subscriptions, db`clock
    ensures db.Valid()
    ensures channelId.None? ==> r == Err(400, "channelId is not defined or not valid")
    ensures channelId.Some? && user.None? ==> r == Err(400, "userId is not defined or not valid")
    ensures channelId.Some? && user == channelId && asPrinted ==> r == Err(400, "You cannot subscribe to your own channel")
    ensures r.Err? ==> db.subscriptions == old(db.subscriptions) && db.clock == old(db.clock)
    ensures channelId.Some? && user.Some? && !(user == channelId && asPrinted) ==>
      var (t, existed) := Toggle(old(db.subscriptions), old(db.clock), Subscription(user.value, channelId.value));
      && db.subscriptions == t
      && db.clock == ClockAfterToggle(old(db.clock), existed)
      && r == Ok(if existed then "Successfully unsubscribed" else "Successfully subscribed")
  {
    if channelId.None? {
      return Err(400, "channelId is not defined or not valid");
    }
    if user.None? {
      return Err(400, "userId is not defined or not valid");
    }
    if asPrinted && channelId.value == user.value {
      return Err(400, "You cannot subscribe to your own channel");
    }
    var sub := Subscription(user.value, channelId.value);
    ToggleFlips(db.subscriptions, db.clock, sub);
    var (t, existed) := Toggle(db.subscriptions, db.clock, sub);
    db.subscriptions, db.clock := t, ClockAfterToggle(db.clock, existed);
    r := Ok(if existed then "Successfully unsubscribed" else "Successfully subscribed");
  }

  /**
   * Spelling the caller's own id differently gets past the self test: on a
   * store where the caller is not subscribed to themself, the handler
   * creates that subscription.
   */
  lemma SelfSubscriptionUnderOtherSpelling(subs: Table<Subscription>, clock: nat, user: Id)
    requires WellFormed(subs, clock) && DistinctDocs(subs)
    requires !HasDoc(subs, Subscription(user, user))
    ensures var (t, existed) := Toggle(subs, clock, Subscription(user, user));
            && !existed
            && HasDoc(t, Subscription(user, user))
            && t == subs + [Row(clock, clock, Subscription(user, user))]
  {
    ToggleFlips(subs, clock, Subscription(user, user));
  }

  /**
   * Two calls on the same pair undo each other: the first flips whether the
   * pair is stored, the second flips it back; when the first call created
   * the subscription, the second restores the table exactly.
   */
  lemma SubscriptionTwice(subs: Table<Subscription>, clock: nat, channel: Id, user: Id)
    requires WellFormed(subs, clock) && DistinctDocs(subs)
    ensures var (t1, b1) := Toggle(subs, clock, Subscription(user, channel));
            var (t2, b2) := Toggle(t1, ClockAfterToggle(clock, b1), Subscription(user, channel));
            && (HasDoc(t1, Subscription(user, channel)) <==> !b1)
            && b2 == !b1
            && (!b1 ==> t2 == subs)
            && (b1 ==> |t2| == |subs| && HasDoc(t2, Subscription(user, channel)))
  {
    var d := Subscription(user, channel);
    ToggleFlips(subs, clock, d);
    ToggleTwice(subs, clock, d);
    var (t1, b1) := Toggle(subs, clock, d);
    if b1 {
      assert Insert(t1, clock, d)[|t1|].doc == d;
    }
  }

  /** The user fields the two listings project. */
  datatype UserCard = UserCard(id: Id, username: string, avatar: string, email: string)

  /** One row of a listing: the subscription and the user it was joined with. */
  datatype SubscriptionEntry = SubscriptionEntry(id: Id, createdAt: nat, details: UserCard)

  /** The user a listing joins: the subscriber, or the channel. */
  function Party(s: Subscription, subscriberSide: bool): Id
  {
    if subscriberSide then s.subscriber else s.channel
  }

  /** `$lookup` of that user, `$unwind` (which drops a subscription whose user is gone) and `$project`. */
  function Joined(s: Row<Subscription>, users: Table<User>, subscriberSide: bool): (e: Option<SubscriptionEntry>)
    ensures e.Some? <==> Lookup(users, Party(s.doc, subscriberSide)).Some?
    ensures e.Some? ==> e.value.id == s.id && e.value.createdAt == s.createdAt
    ensures e.Some? ==> e.value.details.id == Party(s.doc, subscriberSide)
  {
    match Lookup(users, Party(s.doc, subscriberSide))
    case None => None
    case Some(u) => Some(SubscriptionEntry(s.id, s.createdAt, UserCard(u.id, u.doc.username, u.doc.avatar, u.doc.email)))
  }

  /** The join over a whole list of subscriptions, in list order. */
  function JoinUsers(subs: Table<Subscription>, users: Table<User>, subscriberSide: bool): (r: seq<SubscriptionEntry>)
    ensures |r| <= |subs|
  {
    if |subs| == 0 then []
    else
      var rest := JoinUsers(subs[1..], users, subscriberSide);
      match Joined(subs[0], users, subscriberSide)
      case None => rest
      case Some(e) => [e] + rest
  }

  /** Every entry of the join comes from one of the subscriptions. */
  lemma {:induction false} JoinSound(subs: Table<Subscription>, users: Table<User>, subscriberSide: bool)
    ensures forall i :: 0 <= i < |JoinUsers(subs, users, subscriberSide)| ==>
      exists k :: 0 <= k < |subs| && Joined(subs[k], users, subscriberSide) == Some(JoinUsers(subs, users, subscriberSide)[i])
  {
    if |subs| > 0 {
      JoinSound(subs[1..], users, subscriberSide);
      var rest := JoinUsers(subs[1..], users, subscriberSide);
      var r := JoinUsers(subs, users, subscriberSide);
      forall i | 0 <= i < |r|
        ensures exists k :: 0 <= k < |subs| && Joined(subs[k], users, subscriberSide) == Some(r[i])
      {
        match Joined(subs[0], users, subscriberSide)
        case None =>
          assert r == rest;
          var k :| 0 <= k < |subs[1..]| && Joined(subs[1..][k], users, subscriberSide) == Some(rest[i]);
          assert subs[1..][k] == subs[k + 1];
        case Some(e) =>
          assert r == [e] + rest;
          if i > 0 {
            var k :| 0 <= k < |subs[1..]| && Joined(subs[1..][k], users, subscriberSide) == Some(rest[i - 1]);
            assert subs[1..][k] == subs[k + 1];
          }
      }
    } else {
      assert JoinUsers(subs, users, subscriberSide) == [];
    }
  }

  /** Every subscription whose user exists has its entry in the join. */
  lemma {:induction false} JoinComplete(subs: Table<Subscription>, users: Table<User>, subscriberSide: bool)
    ensures forall k :: 0 <= k < |subs| && Joined(subs[k], users, subscriberSide).Some? ==>
      Joined(subs[k], users, subscriberSide).value in JoinUsers(subs, users, subscriberSide)
  {
    if |subs| > 0 {
      JoinComplete(subs[1..], users, subscriberSide);
      var rest := JoinUsers(subs[1..], users, subscriberSide);
      var r := JoinUsers(subs, users, subscriberSide);
      assert forall x :: x in rest ==> x in r;
      forall k | 0 < k < |subs| && Joined(subs[k], users, subscriberSide).Some?
        ensures Joined(subs[k], users, subscriberSide).value in r
      {
        assert subs[1..][k - 1] == subs[k];
      }
    }
  }

  /** Strictly decreasing creation times. */
  ghost predicate Descending(s: seq<SubscriptionEntry>)
  {
    forall i, j :: 0 <= i < j < |s| ==> s[i].createdAt > s[j].createdAt
  }

  ghost predicate DescendingRows(t: Table<Subscription>)
  {
    forall i, j :: 0 <= i < j < |t| ==> t[i].createdAt > t[j].createdAt
  }

  /** When every subscription's time is below `bound`, so is every joined entry's time. */
  lemma {:induction false} JoinBelow(subs: Table<Subscription>, users: Table<User>, subscriberSide: bool, bound: nat)
    requires forall k :: 0 <= k < |subs| ==> subs[k].createdAt < bound
    ensures forall i :: 0 <= i < |JoinUsers(subs, users, subscriberSide)| ==>
      JoinUsers(subs, users, subscriberSide)[i].createdAt < bound
  {
    if |subs| > 0 {
      JoinBelow(subs[1..], users, subscriberSide, bound);
    }
  }

  /** The join keeps the order of its input. */
  lemma {:induction false} JoinKeepsOrder(subs: Table<Subscription>, users: Table<User>, subscriberSide: bool)
    requires DescendingRows(subs)
    ensures Descending(JoinUsers(subs, users, subscriberSide))
  {
    if |subs| > 0 {
      var rest := JoinUsers(subs[1..], users, subscriberSide);
      JoinKeepsOrder(subs[1..], users, subscriberSide);
      JoinBelow(subs[1..], users, subscriberSide, subs[0].createdAt);
      var r := JoinUsers(subs, users, subscriberSide);
      if Joined(subs[0], users, subscriberSide).Some? {
        forall i, j | 0 <= i < j < |r|
          ensures r[i].createdAt > r[j].createdAt
        {
          assert r[j] == rest[j - 1];
          if i > 0 { assert r[i] == rest[i - 1]; }
        }
      }
    }
  }

  /** Strictly increasing creation times: each subscription at most once, oldest first. */
  ghost predicate Ascending(s: seq<SubscriptionEntry>)
  {
    forall i, j :: 0 <= i < j < |s| ==> s[i].createdAt < s[j].createdAt
  }

  /** When every subscription's time is above `bound`, so is every joined entry's time. */
  lemma {:induction false} JoinAbove(subs: Table<Subscription>, users: Table<User>, subscriberSide: bool, bound: nat)
    requires forall k :: 0 <= k < |subs| ==> bound < subs[k].createdAt
    ensures forall i :: 0 <= i < |JoinUsers(subs, users, subscriberSide)| ==>
      bound < JoinUsers(subs, users, subscriberSide)[i].createdAt
  {
    if |subs| > 0 {
      JoinAbove(subs[1..], users, subscriberSide, bound);
    }
  }

  /** Joining a table in creation order lists the entries oldest first. */
  lemma {:induction false} JoinKeepsAscending(subs: Table<Subscription>, users: Table<User>, subscriberSide: bool)
    requires Chronological(subs)
    ensures Ascending(JoinUsers(subs, users, subscriberSide))
  {
    if |subs| > 0 {
      ChronologicalTail(subs);
      var rest := JoinUsers(subs[1..], users, subscriberSide);
      JoinKeepsAscending(subs[1..], users, subscriberSide);
      JoinAbove(subs[1..], users, subscriberSide, subs[0].createdAt);
      var r := JoinUsers(subs, users, subscriberSide);
      if Joined(subs[0], users, subscriberSide).Some? {
        forall i, j | 0 <= i < j < |r|
          ensures r[i].createdAt < r[j].createdAt
        {
          assert r[j] == rest[j - 1];
          if i > 0 { assert r[i] == rest[i - 1]; }
        }
      }
    }
  }

  function ToChannel(channel: Id): Subscription -> bool
  {
    (s: Subscription) => s.channel == channel
  }

  function BySubscriber(subscriber: Id): Subscription -> bool
  {
    (s: Subscription) => s.subscriber == subscriber
  }

  /** The entry is a subscription of the table whose `side` party is `who`, joined with an existing user. */
  ghost predicate EntryOf(e: SubscriptionEntry, subs: Table<Subscription>, users: Table<User>, subscriberSide: bool, who: Id)
  {
    exists k :: 0 <= k < |subs| && Party(subs[k].doc, !subscriberSide) == who && Joined(subs[k], users, subscriberSide) == Some(e)
  }

  /** Every entry of the subscribers join is a subscription to `channel` joined with its existing subscriber. */
  lemma SubscribersSound(subs: Table<Subscription>, users: Table<User>, channel: Id)
    ensures forall i :: 0 <= i < |JoinUsers(NewestFirst(Where(subs, ToChannel(channel))), users, true)| ==>
      EntryOf(JoinUsers(NewestFirst(Where(subs, ToChannel(channel))), users, true)[i], subs, users, true, channel)
  {
    var matched := Where(subs, ToChannel(channel));
    var n := NewestFirst(matched);
    var r := JoinUsers(n, users, true);
    JoinSound(n, users, true);
    forall i | 0 <= i < |r|
      ensures EntryOf(r[i], subs, users, true, channel)
    {
      var k1 :| 0 <= k1 < |n| && Joined(n[k1], users, true) == Some(r[i]);
      assert n[k1] == matched[|matched| - 1 - k1];
      var k :| 0 <= k < |subs| && subs[k] == n[k1];
    }
  }

  /** Every subscription to `channel` whose subscriber exists has its entry in the subscribers join. */
  lemma SubscribersComplete(subs: Table<Subscription>, users: Table<User>, channel: Id)
    ensures forall k :: 0 <= k < |subs| && subs[k].doc.channel == channel && Joined(subs[k], users, true).Some? ==>
      Joined(subs[k], users, true).value in JoinUsers(NewestFirst(Where(subs, ToChannel(channel))), users, true)
  {
    var matched := Where(subs, ToChannel(channel));
    var n := NewestFirst(matched);
    JoinComplete(n, users, true);
    forall k | 0 <= k < |subs| && subs[k].doc.channel == channel && Joined(subs[k], users, true).Some?
      ensures Joined(subs[k], users, true).value in JoinUsers(n, users, true)
    {
      assert ToChannel(channel)(subs[k].doc);
      var k1 :| 0 <= k1 < |matched| && matched[k1] == subs[k];
      assert n[|matched| - 1 - k1] == subs[k];
    }
  }

  /** The subscribers of `channel` whose user exists, newest first. */
  function Subscribers(subs: Table<Subscription>, users: Table<User>, channel: Id): (r: seq<SubscriptionEntry>)
    ensures forall i :: 0 <= i < |r| ==> EntryOf(r[i], subs, users, true, channel)
    ensures forall k :: 0 <= k < |subs| && subs[k].doc.channel == channel && Joined(subs[k], users, true).Some? ==>
      Joined(subs[k], users, true).value in r
  {
    SubscribersSound(subs, users, channel);
    SubscribersComplete(subs, users, channel);
    JoinUsers(NewestFirst(Where(subs, ToChannel(channel))), users, true)
  }

  /** getUserChannelSubscribers: validate the channel id, then list its subscribers. */
  function GetUserChannelSubscribers(subs: Table<Subscription>, users: Table<User>, channelId: Option<Id>): (r: Response<seq<SubscriptionEntry>>)
    ensures channelId.None? ==> r == Err(400, "channelId is not defined or not valid")
    ensures channelId.Some? ==> r.Ok?
    ensures r.Ok? ==> r.value == Subscribers(subs, users, channelId.value)
  {
    if channelId.None? then Err(400, "channelId is not defined or not valid")
    else Ok(Subscribers(subs, users, channelId.value))
  }

  /** The subscribers listing is newest first whenever the table is in creation order. */
  lemma SubscribersNewestFirst(subs: Table<Subscription>, users: Table<User>, channel: Id)
    requires Chronological(subs)
    ensures Descending(Subscribers(subs, users, channel))
  {
    var matched := Where(subs, ToChannel(channel));
    WhereChronological(subs, ToChannel(channel));
    NewestFirstSorted(matched);
    JoinKeepsOrder(NewestFirst(matched), users, true);
  }

  /** The channels `subscriber` subscribed to whose user exists, in table order. */
  function Channels(subs: Table<Subscription>, users: Table<User>, subscriber: Id): (r: seq<SubscriptionEntry>)
    ensures forall i :: 0 <= i < |r| ==> EntryOf(r[i], subs, users, false, subscriber)
    ensures forall k :: 0 <= k < |subs| && subs[k].doc.subscriber == subscriber && Joined(subs[k], users, false).Some? ==>
      Joined(subs[k], users, false).value in r
  {
    var matched := Where(subs, BySubscriber(subscriber));
    var r := JoinUsers(matched, users, false);
    JoinSound(matched, users, false);
    JoinComplete(matched, users, false);
    assert forall i :: 0 <= i < |r| ==> EntryOf(r[i], subs, users, false, subscriber) by {
      forall i | 0 <= i < |r|
        ensures EntryOf(r[i], subs, users, false, subscriber)
      {
        var k1 :| 0 <= k1 < |matched| && Joined(matched[k1], users, false) == Some(r[i]);
        var k :| 0 <= k < |subs| && subs[k] == matched[k1];
      }
    }
    assert forall k :: 0 <= k < |subs| && subs[k].doc.subscriber == subscriber && Joined(subs[k], users, false).Some? ==>
      Joined(subs[k], users, false).value in r by {
      forall k | 0 <= k < |subs| && subs[k].doc.subscriber == subscriber && Joined(subs[k], users, false).Some?
        ensures Joined(subs[k], users, false).value in r
      {
        assert BySubscriber(subscriber)(subs[k].doc);
        var k1 :| 0 <= k1 < |matched| && matched[k1] == subs[k];
      }
    }
    r
  }

  /** getSubscribedChannels: validate the subscriber id, then list the channels. */
  function GetSubscribedChannels(subs: Table<Subscription>, users: Table<User>, subscriberId: Option<Id>): (r: Response<seq<SubscriptionEntry>>)
    ensures subscriberId.None? ==> r == Err(400, "subscriberId is not defined or not valid")
    ensures subscriberId.Some? ==> r.Ok?
    ensures r.Ok? ==> r.value == Channels(subs, users, subscriberId.value)
  {
    if subscriberId.None? then Err(400, "subscriberId is not defined or not valid")
    else Ok(Channels(subs, users, subscriberId.value))
  }

  /**
   * With no `$sort`, the channels listing keeps the table's order: on a table
   * in creation order it lists each subscription at most once, oldest first.
   */
  lemma ChannelsOldestFirst(subs: Table<Subscription>, users: Table<User>, subscriber: Id)
    requires Chronological(subs)
    ensures Ascending(Channels(subs, users, subscriber))
  {
    WhereChronological(subs, BySubscriber(subscriber));
    JoinKeepsAscending(Where(subs, BySubscriber(subscriber)), users, false);
  }

  /** The reply of getSubscribedChannels lists each subscription at most once, oldest first. */
  lemma SubscribedChannelsOldestFirst(subs: Table<Subscription>, users: Table<User>, subscriberId: Option<Id>)
    requires Chronological(subs)
    ensures GetSubscribedChannels(subs, users, subscriberId).Ok? ==>
      Ascending(GetSubscribedChannels(subs, users, subscriberId).value)
  {
    if subscriberId.Some? {
      ChannelsOldestFirst(subs, users, subscriberId.value);
    }
  }
}
