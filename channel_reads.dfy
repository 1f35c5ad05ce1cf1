/**
  The two read-only aggregations of `src/controllers/user.controller.js`: the channel profile
  (`getUserChannelprofile`) and the watch history (`getWatchHistory`). Collections are sequences in
  their natural order; `$lookup`, `$size`, `$in` and `$first` are written out as recursive functions
  over them. Nothing here changes any collection.
*/
module ChannelReads {
  import opened Wrappers
  import opened Text
  import opened Errors
  import opened UserModel

  /** A document of `src/models/subscription.model.js`: `subscriber` follows `channel`. Nothing
      stops the same pair from being stored twice. */
  datatype Subscription = Subscription(subscriber: Id, channel: Id)

  /** A document of `src/models/video.model.js`; `publisher` is optional in the schema. */
  datatype Video = Video(
    id: Id,
    videoFile: string,
    thumbnail: string,
    duration: real,
    title: string,
    description: string,
    views: int,
    isPublished: bool,
    publisher: Option<Id>)

  // ----- Edges -----

  /** Edges into channel `u`: the `foreignField: "channel"` lookup. */
  function Into(u: Id): Subscription -> bool {
    (e: Subscription) => e.channel == u
  }

  /** Edges out of user `u`: the `foreignField: "subscriber"` lookup. */
  function OutOf(u: Id): Subscription -> bool {
    (e: Subscription) => e.subscriber == u
  }

  /** The edges satisfying `p`, in collection order: a `$lookup` on subscriptions. */
  function EdgesWhere(edges: seq<Subscription>, p: Subscription -> bool): (r: seq<Subscription>)
    ensures |r| <= |edges|
  {
    if edges == [] then []
    else
      var rest := EdgesWhere(edges[..|edges| - 1], p);
      if p(edges[|edges| - 1]) then rest + [edges[|edges| - 1]] else rest
  }

  /** The positions of the edges satisfying `p`. */
  function EdgeIndices(edges: seq<Subscription>, p: Subscription -> bool): set<nat> {
    set i: nat | i < |edges| && p(edges[i])
  }

  /** The lookup keeps exactly the edges satisfying `p`. */
  lemma {:induction false} EdgesWhereMembers(edges: seq<Subscription>, p: Subscription -> bool, e: Subscription)
    ensures e in EdgesWhere(edges, p) <==> e in edges && p(e)
    decreases |edges|
  {
    if edges != [] {
      var init := edges[..|edges| - 1];
      EdgesWhereMembers(init, p, e);
      assert edges == init + [edges[|edges| - 1]];
    }
  }

  /** `$size` of the lookup is the number of edges satisfying `p`, duplicates included. */
  lemma {:induction false} EdgesWhereCount(edges: seq<Subscription>, p: Subscription -> bool)
    ensures |EdgesWhere(edges, p)| == |EdgeIndices(edges, p)|
    decreases |edges|
  {
    if edges != [] {
      var n := |edges| - 1;
      var init := edges[..n];
      EdgesWhereCount(init, p);
      if p(edges[n]) {
        assert EdgeIndices(edges, p) == EdgeIndices(init, p) + {n};
      } else {
        assert EdgeIndices(edges, p) == EdgeIndices(init, p);
      }
    }
  }

  /** `"$subscribers.subscriber"`: the subscriber of each edge. An id is in it, as `$in` asks,
      exactly when it is the subscriber of one of the edges. */
  function SubscriberIds(es: seq<Subscription>): (ids: seq<Id>)
    ensures forall x :: x in ids <==> exists e :: e in es && e.subscriber == x
  {
    var ids := seq(|es|, i requires 0 <= i < |es| => es[i].subscriber);
    assert forall x :: x in ids ==> exists e :: e in es && e.subscriber == x by {
      forall x | x in ids ensures exists e :: e in es && e.subscriber == x {
        var i :| 0 <= i < |ids| && ids[i] == x;
        assert es[i] in es;
      }
    }
    assert forall e :: e in es ==> e.subscriber in ids by {
      forall e | e in es ensures e.subscriber in ids {
        var i :| 0 <= i < |es| && es[i] == e;
        assert ids[i] == e.subscriber;
      }
    }
    ids
  }

  /** The distinct users following `u`. */
  function DistinctSubscribers(edges: seq<Subscription>, u: Id): set<Id> {
    set e | e in edges && e.channel == u :: e.subscriber
  }

  /** No (subscriber, channel) pair is stored twice. */
  predicate NoDuplicateEdges(edges: seq<Subscription>) {
    forall i, j :: 0 <= i < j < |edges| ==> edges[i] != edges[j]
  }

  /** `subscribersCount` counts edges, not people: it is at least the number of distinct
      subscribers, and equal to it when no pair is stored twice. */
  lemma {:induction false} SubscriberCountBounds(edges: seq<Subscription>, u: Id)
    ensures |DistinctSubscribers(edges, u)| <= |EdgesWhere(edges, Into(u))|
    ensures NoDuplicateEdges(edges) ==> |DistinctSubscribers(edges, u)| == |EdgesWhere(edges, Into(u))|
    decreases |edges|
  {
    if edges != [] {
      var n := |edges| - 1;
      var init := edges[..n];
      var last := edges[n];
      assert NoDuplicateEdges(edges) ==> NoDuplicateEdges(init);
      SubscriberCountBounds(init, u);
      assert edges == init + [last];
      if last.channel == u {
        assert DistinctSubscribers(edges, u) == DistinctSubscribers(init, u) + {last.subscriber};
      } else {
        assert DistinctSubscribers(edges, u) == DistinctSubscribers(init, u);
      }
    }
  }

  /** Two copies of one subscription are counted twice although one user subscribes. */
  lemma DuplicateSubscriptionCountsTwice(a: Id, c: Id)
    ensures var edges := [Subscription(a, c), Subscription(a, c)];
            |EdgesWhere(edges, Into(c))| == 2 && DistinctSubscribers(edges, c) == {a}
  {
    var edges := [Subscription(a, c), Subscription(a, c)];
    assert edges[..1] == [Subscription(a, c)];
    assert edges[..1][..0] == [];
  }

  // ----- getUserChannelprofile -----

  /** The projected profile: no password, no refresh token. */
  datatype ChannelProfile = ChannelProfile(
    id: Id,
    fullName: string,
    username: string,
    subscribersCount: nat,
    subscribedToCount: nat,
    isSubscribed: bool,
    avatar: string,
    coverImage: Option<string>,
    email: string)

  /** The `$lookup`s, `$addFields` and `$project` stages for one matched user `u`. `isSubscribed`
      compares ids by identity; the handler compares the caller's id as a string with ObjectIds,
      which this model does not reproduce. */
  function Profile(u: User, edges: seq<Subscription>, viewer: Id): (p: ChannelProfile) {
    var subscribers := EdgesWhere(edges, Into(u.id));
    var subscribedTo := EdgesWhere(edges, OutOf(u.id));
    ChannelProfile(u.id, u.fullName, u.username, |subscribers|, |subscribedTo|,
                   viewer in SubscriberIds(subscribers), u.avatar, u.coverImage, u.email)
  }

  /** The profile's counts are the numbers of edges into and out of the channel, and `isSubscribed`
      says whether the edge from the viewer to the channel exists. */
  lemma ProfileCounts(u: User, edges: seq<Subscription>, viewer: Id)
    ensures var p := Profile(u, edges, viewer);
            && p.subscribersCount == |EdgeIndices(edges, Into(u.id))|
            && p.subscribedToCount == |EdgeIndices(edges, OutOf(u.id))|
            && (p.isSubscribed <==> Subscription(viewer, u.id) in edges)
            && p.id == u.id && p.username == u.username && p.email == u.email
  {
    var inbound := Into(u.id);
    EdgesWhereCount(edges, inbound);
    EdgesWhereCount(edges, OutOf(u.id));
    var subscribers := EdgesWhere(edges, inbound);
    var ids := SubscriberIds(subscribers);
    if viewer in ids {
      var i :| 0 <= i < |ids| && ids[i] == viewer;
      EdgesWhereMembers(edges, inbound, subscribers[i]);
      assert subscribers[i] == Subscription(viewer, u.id);
    }
    if Subscription(viewer, u.id) in edges {
      EdgesWhereMembers(edges, inbound, Subscription(viewer, u.id));
      var i :| 0 <= i < |subscribers| && subscribers[i] == Subscription(viewer, u.id);
      assert ids[i] == viewer;
    }
  }

  /** `$match: {username}`: the users with exactly this username, in collection order. */
  function UsersNamed(users: seq<User>, name: string): (r: seq<User>)
    ensures forall v :: v in r <==> v in users && v.username == name
  {
    if users == [] then []
    else if users[0].username == name then [users[0]] + UsersNamed(users[1..], name)
    else
      assert forall v :: v in users <==> v == users[0] || v in users[1..];
      UsersNamed(users[1..], name)
  }

  /** `getUserChannelprofile`: a blank username is a 400; the username is lower-cased (not
      trimmed) and looked up; no match is a 404; otherwise the first match's profile. */
  function GetUserChannelProfile(users: seq<User>, edges: seq<Subscription>, viewer: Id, username: string)
    : (r: Result<ChannelProfile, Error>)
    ensures IsBlank(Some(username)) <==> r == Err(UsernameRequired)
    ensures !IsBlank(Some(username)) ==>
              (r == Err(ChannelNotFound) <==> forall v :: v in users ==> v.username != Lower(username))
    ensures r.Ok? ==> exists v :: v in users && v.username == Lower(username) && r.value == Profile(v, edges, viewer)
    ensures r.Err? ==> Status(r.error) in {400, 404}
  {
    if IsBlank(Some(username)) then Err(UsernameRequired)
    else
      var channel := UsersNamed(users, Lower(username));
      if |channel| == 0 then Err(ChannelNotFound)
      else Ok(Profile(channel[0], edges, viewer))
  }

  /** A profile found for a username reports the edge counts of the user with that lower-cased
      username and whether the viewer follows it. */
  lemma ChannelProfileFacts(users: seq<User>, edges: seq<Subscription>, viewer: Id, username: string)
    requires GetUserChannelProfile(users, edges, viewer, username).Ok?
    ensures var p := GetUserChannelProfile(users, edges, viewer, username).value;
            && p.username == Lower(username)
            && p.subscribersCount == |EdgeIndices(edges, Into(p.id))|
            && p.subscribedToCount == |EdgeIndices(edges, OutOf(p.id))|
            && (p.isSubscribed <==> Subscription(viewer, p.id) in edges)
  {
    var v := UsersNamed(users, Lower(username))[0];
    ProfileCounts(v, edges, viewer);
  }

  // ----- getWatchHistory -----

  /** The inner `$project`: the publisher's name, username and avatar (and its id). */
  datatype PublisherView = PublisherView(id: Id, fullName: string, username: string, avatar: string)

  /** A watched video with its `publisher` field replaced by the publisher's projection, or None
      when no user has the publisher's id (or the video has none). */
  datatype WatchedVideo = WatchedVideo(video: Video, publisher: Option<PublisherView>)

  /** The first user with this id, if any. */
  function FindById(users: seq<User>, id: Id): (r: Option<User>)
    ensures r.Some? <==> exists v :: v in users && v.id == id
    ensures r.Some? ==> r.value in users && r.value.id == id
  {
    if users == [] then None
    else if users[0].id == id then Some(users[0])
    else
      assert forall v :: v in users <==> v == users[0] || v in users[1..];
      FindById(users[1..], id)
  }

  /** The inner `$lookup` on users followed by `$first`. */
  function PublisherOf(users: seq<User>, publisher: Option<Id>): (view: Option<PublisherView>) {
    match publisher
    case None => None
    case Some(p) =>
      match FindById(users, p)
      case None => None
      case Some(u) => Some(PublisherView(u.id, u.fullName, u.username, u.avatar))
  }

  function Enrich(users: seq<User>, v: Video): WatchedVideo {
    WatchedVideo(v, PublisherOf(users, v.publisher))
  }

  /** The outer `$lookup` on videos: the videos whose id is in `history`, each once, each with its
      publisher. The database promises no order; the model lists them in the videos collection's
      order, which is not the history's. */
  function HistoryEntries(users: seq<User>, videos: seq<Video>, history: seq<Id>): (r: seq<WatchedVideo>)
    ensures |r| <= |videos|
  {
    if videos == [] then []
    else
      var rest := HistoryEntries(users, videos[1..], history);
      if videos[0].id in history then [Enrich(users, videos[0])] + rest else rest
  }

  /** An entry is in the history exactly when it is a stored video named in the history list,
      paired with its publisher's projection. */
  lemma {:induction false} HistoryEntriesMembers(users: seq<User>, videos: seq<Video>, history: seq<Id>, w: WatchedVideo)
    ensures w in HistoryEntries(users, videos, history)
            <==> w.video in videos && w.video.id in history && w.publisher == PublisherOf(users, w.video.publisher)
    decreases |videos|
  {
    if videos != [] {
      HistoryEntriesMembers(users, videos[1..], history, w);
      assert forall v :: v in videos <==> v == videos[0] || v in videos[1..];
    }
  }

  /** An empty history list gives an empty result. */
  lemma {:induction false} EmptyHistory(users: seq<User>, videos: seq<Video>)
    ensures HistoryEntries(users, videos, []) == []
    decreases |videos|
  {
    if videos != [] {
      EmptyHistory(users, videos[1..]);
    }
  }

  /** The publisher projection is present exactly when the video names a publisher that is a
      stored user, and then it is that user's public name, username and avatar. */
  lemma PublisherPresent(users: seq<User>, publisher: Option<Id>)
    ensures PublisherOf(users, publisher).Some?
            <==> publisher.Some? && exists u :: u in users && u.id == publisher.value
    ensures PublisherOf(users, publisher).Some? ==>
              exists u :: u in users && u.id == publisher.value
                          && PublisherOf(users, publisher).value == PublisherView(u.id, u.fullName, u.username, u.avatar)
  {
  }

  /** `getWatchHistory`: the caller's history entries, each a stored video the caller's history
      names together with its publisher's projection; a caller with no record gets `[]`. The
      handler builds the `$match` id with `mongoose.Types.ObjectId`, but the controller never
      imports `mongoose`, so as written every call throws; this is the result the pipeline is
      written to give. */
  function GetWatchHistory(users: seq<User>, videos: seq<Video>, caller: Id): (r: seq<WatchedVideo>)
    ensures (forall u :: u in users ==> u.id != caller) ==> r == []
    ensures FindById(users, caller).Some? ==>
              forall w :: w in r <==>
                && w.video in videos
                && w.video.id in FindById(users, caller).value.watchHistory
                && w.publisher == PublisherOf(users, w.video.publisher)
  {
    match FindById(users, caller)
    case None => []
    case Some(u) =>
      var r := HistoryEntries(users, videos, u.watchHistory);
      forall w ensures w in r <==> w.video in videos && w.video.id in u.watchHistory
                                   && w.publisher == PublisherOf(users, w.video.publisher) {
        HistoryEntriesMembers(users, videos, u.watchHistory, w);
      }
      r
  }

  /** A caller whose history is empty gets an empty sequence, not an error. */
  lemma NoHistoryNoEntries(users: seq<User>, videos: seq<Video>, caller: Id)
    requires forall u :: u in users && u.id == caller ==> u.watchHistory == []
    ensures GetWatchHistory(users, videos, caller) == []
  {
    EmptyHistory(users, videos);
  }

  /** Two watched videos published by a stored user come back as two entries, each carrying the
      publisher's projection. */
  lemma TwoWatchedVideos(viewer: User, publisher: User, v1: Video, v2: Video)
    requires viewer.id != publisher.id && v1.id != v2.id
    requires viewer.watchHistory == [v1.id, v2.id]
    requires v1.publisher == Some(publisher.id) && v2.publisher == Some(publisher.id)
    ensures var view := Some(PublisherView(publisher.id, publisher.fullName, publisher.username, publisher.avatar));
            GetWatchHistory([viewer, publisher], [v1, v2], viewer.id) == [WatchedVideo(v1, view), WatchedVideo(v2, view)]
  {
    var users := [viewer, publisher];
    var view := Some(PublisherView(publisher.id, publisher.fullName, publisher.username, publisher.avatar));
    assert users[1..] == [publisher];
    assert FindById(users, viewer.id) == Some(viewer);
    assert FindById(users, publisher.id) == Some(publisher);
    assert PublisherOf(users, v1.publisher) == view && PublisherOf(users, v2.publisher) == view;
    assert [v1, v2][1..] == [v2];
    assert [v1, v2][1..][1..] == [];
    assert HistoryEntries(users, [v2], viewer.watchHistory) == [WatchedVideo(v2, view)];
  }
}
