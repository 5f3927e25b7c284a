/**
 * The dashboard handlers: the statistics of a channel (its videos, their
 * views, the likes they received and its subscribers) and one page of the
 * channel's published videos, newest first. Neither writes to the store.
 */
module DashboardController {
  import opened Tables
  import opened Records

  /** The videos of one channel. */
  function OwnedBy(channel: Id): Video -> bool
  {
    (v: Video) => v.owner == channel
  }

  /** The likes of a video that exists and belongs to `channel`: the `$lookup`, `$unwind` and `$match` of the likes pipeline. */
  function LikesOfChannel(videos: Table<Video>, channel: Id): Like -> bool
  {
    (l: Like) => l.target.OnVideo? && Lookup(videos, l.target.video).Some? && Lookup(videos, l.target.video).value.doc.owner == channel
  }

  /** The subscriptions to one channel. */
  function SubscribesTo(channel: Id): Subscription -> bool
  {
    (s: Subscription) => s.channel == channel
  }

  /** The total of the views of a list of videos. */
  function SumViews(t: Table<Video>): int
  {
    if |t| == 0 then 0 else t[0].doc.views + SumViews(t[1..])
  }

  /**
   * The `$group` stage of the video statistics: one pass that counts the
   * channel's videos and adds up their views. No group at all comes out as
   * (0, 0), which is also what the `|| 0` defaults give.
   */
  function VideoGroup(t: Table<Video>, channel: Id): (g: (nat, int))
    ensures g.0 <= |t|
    ensures (forall k :: 0 <= k < |t| ==> t[k].doc.owner != channel) ==> g == (0, 0)
  {
    if |t| == 0 then (0, 0)
    else
      var rest := VideoGroup(t[1..], channel);
      assert forall k :: 0 <= k < |t| - 1 ==> t[1..][k] == t[k + 1];
      if t[0].doc.owner == channel then (rest.0 + 1, rest.1 + t[0].doc.views) else rest
  }

  /** The group stage computes the number and the total views of exactly the channel's videos. */
  lemma {:induction false} VideoGroupIsMatch(t: Table<Video>, channel: Id)
    ensures VideoGroup(t, channel) == (|Where(t, OwnedBy(channel))|, SumViews(Where(t, OwnedBy(channel))))
  {
    if |t| > 0 {
      VideoGroupIsMatch(t[1..], channel);
      WhereCons(t, OwnedBy(channel));
      var w, rest := Where(t, OwnedBy(channel)), Where(t[1..], OwnedBy(channel));
      var g, g' := VideoGroup(t, channel), VideoGroup(t[1..], channel);
      if t[0].doc.owner == channel {
        assert w == [t[0]] + rest;
        assert w[1..] == rest;
        assert SumViews(w) == t[0].doc.views + SumViews(rest);
        assert g == (g'.0 + 1, g'.1 + t[0].doc.views);
      } else {
        assert w == rest;
        assert g == g';
      }
    }
  }

  /** One more view on a video of the channel adds one to its total views, and nothing else changes. */
  lemma {:induction false} VideoGroupAfterView(t: Table<Video>, channel: Id, k: nat)
    requires k < |t|
    ensures var counted := t[k := t[k].(doc := t[k].doc.(views := t[k].doc.views + 1))];
      VideoGroup(counted, channel) ==
        (VideoGroup(t, channel).0, VideoGroup(t, channel).1 + if t[k].doc.owner == channel then 1 else 0)
  {
    var counted := t[k := t[k].(doc := t[k].doc.(views := t[k].doc.views + 1))];
    if k == 0 {
      assert counted[1..] == t[1..];
    } else {
      assert counted[1..] == t[1..][k - 1 := t[k].(doc := t[k].doc.(views := t[k].doc.views + 1))];
      VideoGroupAfterView(t[1..], channel, k - 1);
    }
  }

  /** The reply of getChannelStats. */
  datatype ChannelStats = ChannelStats(totalVideos: nat, totalViews: int, totalLikes: nat, totalSubscribers: nat)

  /** getChannelStats: validate the channel id, then run the three pipelines. */
  function GetChannelStats(videos: Table<Video>, likes: Table<Like>, subscriptions: Table<Subscription>, channelId: Option<Id>): (r: Response<ChannelStats>)
    ensures channelId.None? <==> r == Err(400, "channelId is not defined or not valid")
    ensures channelId.Some? ==> r.Ok?
    ensures r.Ok? ==>
      && r.value.totalVideos == |Where(videos, OwnedBy(channelId.value))|
      && r.value.totalViews == SumViews(Where(videos, OwnedBy(channelId.value)))
      && r.value.totalLikes == |Where(likes, LikesOfChannel(videos, channelId.value))|
      && r.value.totalSubscribers == |Where(subscriptions, SubscribesTo(channelId.value))|
  {
    if channelId.None? then Err(400, "channelId is not defined or not valid")
    else
      var ch := channelId.value;
      var g := VideoGroup(videos, ch);
      VideoGroupIsMatch(videos, ch);
      CountWhere(likes, LikesOfChannel(videos, ch));
      CountWhere(subscriptions, SubscribesTo(ch));
      Ok(ChannelStats(g.0, g.1, Count(likes, LikesOfChannel(videos, ch)), Count(subscriptions, SubscribesTo(ch))))
  }

  /** A channel with no videos, no likes on them and no subscribers gets four zeros. */
  lemma StatsDefaultToZero(videos: Table<Video>, likes: Table<Like>, subscriptions: Table<Subscription>, channel: Id)
    requires forall k :: 0 <= k < |videos| ==> videos[k].doc.owner != channel
    requires forall k :: 0 <= k < |subscriptions| ==> subscriptions[k].doc.channel != channel
    ensures GetChannelStats(videos, likes, subscriptions, Some(channel)) == Ok(ChannelStats(0, 0, 0, 0))
  {
    assert forall k :: 0 <= k < |likes| ==> !LikesOfChannel(videos, channel)(likes[k].doc);
    assert forall k :: 0 <= k < |subscriptions| ==> !SubscribesTo(channel)(subscriptions[k].doc);
  }

  /** `parseInt(x) || d`: a missing, unparseable or zero value gives the default. */
  function OrDefault(q: QueryNum, default: int): (n: int)
    ensures q.Num? && q.n != 0 ==> n == q.n
    ensures !(q.Num? && q.n != 0) ==> n == default
  {
    if q.Num? && q.n != 0 then q.n else default
  }

  /** The published videos of one channel. */
  function PublishedBy(channel: Id): Video -> bool
  {
    (v: Video) => v.owner == channel && v.isPublished
  }

  /** The fields getChannelVideos projects. */
  datatype ChannelVideo = ChannelVideo(
    id: Id,
    title: string,
    description: string,
    thumbnailFile: string,
    views: int,
    duration: int,
    createdAt: nat,
    isPublished: bool)

  function Project(v: Row<Video>): ChannelVideo
  {
    ChannelVideo(v.id, v.doc.title, v.doc.description, v.doc.thumbnailFile, v.doc.views, v.doc.duration, v.createdAt, v.doc.isPublished)
  }

  /** The channel's published videos, newest first: the `$match` and `$sort` stages. */
  function Uploads(videos: Table<Video>, channel: Id): Table<Video>
  {
    NewestFirst(Where(videos, PublishedBy(channel)))
  }

  /** The uploads of a channel are exactly its published videos, newest first. */
  lemma UploadsSpec(videos: Table<Video>, channel: Id)
    requires Chronological(videos)
    ensures forall k :: 0 <= k < |Uploads(videos, channel)| ==>
      && Uploads(videos, channel)[k] in videos
      && Uploads(videos, channel)[k].doc.owner == channel
      && Uploads(videos, channel)[k].doc.isPublished
    ensures forall k :: 0 <= k < |videos| && videos[k].doc.owner == channel && videos[k].doc.isPublished ==>
      videos[k] in Uploads(videos, channel)
    ensures forall i, j :: 0 <= i < j < |Uploads(videos, channel)| ==>
      Uploads(videos, channel)[i].createdAt > Uploads(videos, channel)[j].createdAt
  {
    NewestFirstWhere(videos, PublishedBy(channel));
  }

  /**
   * getChannelVideos: page and limit default to 1 and 10; the channel id is
   * validated; a negative limit or a negative skip is refused by the
   * database, which the catch reports as 500. Otherwise the page of the
   * channel's uploads starting at (page - 1) * limit, projected.
   */
  function GetChannelVideos(videos: Table<Video>, channelId: Option<Id>, page: QueryNum, limit: QueryNum): (r: Response<seq<ChannelVideo>>)
    ensures channelId.None? <==> r == Err(400, "channelId is not defined or not valid")
    ensures r.Ok? <==> channelId.Some? && OrDefault(limit, 10) > 0 && OrDefault(page, 1) >= 1
    ensures channelId.Some? && !r.Ok? ==> r == Err(500, "Error fetching channel videos")
    ensures r.Ok? ==>
      var p, l := OrDefault(page, 1), OrDefault(limit, 10);
      var uploads := Uploads(videos, channelId.value);
      && |r.value| <= l
      && |r.value| == (if Skip(p, l) >= |uploads| then 0 else if |uploads| - Skip(p, l) < l then |uploads| - Skip(p, l) else l)
      && forall k :: 0 <= k < |r.value| ==> r.value[k] == Project(uploads[Skip(p, l) + k])
  {
    var p, l := OrDefault(page, 1), OrDefault(limit, 10);
    if channelId.None? then Err(400, "channelId is not defined or not valid")
    else if l < 0 || Skip(p, l) < 0 then Err(500, "Error fetching channel videos")
    else
      var rows := Page(Uploads(videos, channelId.value), Skip(p, l), l);
      Ok(seq(|rows|, i requires 0 <= i < |rows| => Project(rows[i])))
  }
}
