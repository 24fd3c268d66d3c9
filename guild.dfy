/** The guild page: the guild's forums the bot may read, each with its posts,
    their total message count and the time of the latest activity, newest first. */
module GuildPage {
  import opened Results
  import opened Seqs
  import opened Discord
  import opened ForumPage

  /** The zero time.Time. Times are integers on a scale where it is 0. */
  const ZeroTime: int := 0

  /** A forum as the guild page lists it. */
  datatype ForumChannel = ForumChannel(forum: Channel, posts: seq<Channel>, totalMessageCount: int, lastActive: int)

  // ---------------------------------------------------------------------------
  // publicActiveThreads

  function IsKind(kind: nat): Channel -> bool {
    (c: Channel) => c.kind == kind
  }

  /** The guild's public threads, in channel order. */
  function PublicThreads(channels: seq<Channel>): seq<Channel> {
    Filter(channels, IsKind(GuildPublicThread))
  }

  /** publicActiveThreads: the public threads of what the channel cabinet
      returns, or the cabinet's error unchanged. */
  method PublicActiveThreads(lookup: Result<seq<Channel>>) returns (r: Result<seq<Channel>>)
    ensures lookup.Err? ==> r == Err(lookup.failure)
    ensures lookup.Ok? ==> r == Ok(PublicThreads(lookup.value))
  {
    if lookup.Err? {
      return Err(lookup.failure);
    }
    var channels := lookup.value;
    var threads: seq<Channel> := [];
    for i := 0 to |channels|
      invariant threads == PublicThreads(channels[..i])
    {
      FilterSnoc(channels, i, IsKind(GuildPublicThread));
      if channels[i].kind != GuildPublicThread {
        continue;
      }
      threads := threads + [channels[i]];
    }
    assert channels[..|channels|] == channels;
    r := Ok(threads);
  }

  function ParentIs(forumID: Snowflake): Channel -> bool {
    (c: Channel) => c.parentID == forumID
  }

  /** A forum's posts are exactly the public threads whose parent it is, in the same order. */
  lemma ForumPostsArePublicThreads(channels: seq<Channel>, forumID: Snowflake)
    ensures ThreadsOf(channels, forumID) == Filter(PublicThreads(channels), ParentIs(forumID))
  {
    FilterFilter(channels, IsKind(GuildPublicThread), ParentIs(forumID), PostOf(forumID));
  }

  // ---------------------------------------------------------------------------
  // One forum's summary

  /** The sum of the posts' message counts. */
  function TotalMessages(posts: seq<Channel>): int {
    if posts == [] then 0 else TotalMessages(posts[..|posts| - 1]) + posts[|posts| - 1].messageCount
  }

  /** The total of a + b is the total of a plus the total of b. */
  lemma {:induction false} TotalMessagesConcat(a: seq<Channel>, b: seq<Channel>)
    ensures TotalMessages(a + b) == TotalMessages(a) + TotalMessages(b)
  {
    if b == [] {
      assert a + b == a;
    } else {
      assert (a + b)[..|a + b| - 1] == a + b[..|b| - 1];
      TotalMessagesConcat(a, b[..|b| - 1]);
    }
  }

  /** The latest of base and the times of the posts' last messages. */
  function Latest(base: int, posts: seq<Channel>, time: Snowflake -> int): (r: int)
    ensures r >= base
    ensures forall p :: p in posts ==> r >= time(p.lastMessageID)
    ensures r == base || exists p :: p in posts && r == time(p.lastMessageID)
  {
    if posts == [] then base
    else
      var init, last := posts[..|posts| - 1], posts[|posts| - 1];
      assert posts == init + [last];
      var r0 := Latest(base, init, time);
      if time(last.lastMessageID) > r0 then time(last.lastMessageID) else r0
  }

  /** Where the forum's activity starts: its own last message's time when that ID is valid. */
  function ForumBaseTime(forum: Channel, time: Snowflake -> int, valid: Snowflake -> bool): int {
    if valid(forum.lastMessageID) then time(forum.lastMessageID) else ZeroTime
  }

  /** One forum's entry on the guild page. */
  function Summary(forum: Channel, channels: seq<Channel>, time: Snowflake -> int, valid: Snowflake -> bool)
    : (f: ForumChannel)
    ensures f.forum == forum && f.posts == ThreadsOf(channels, forum.id)
    ensures f.totalMessageCount == TotalMessages(f.posts)
    ensures valid(forum.lastMessageID) ==> f.lastActive >= time(forum.lastMessageID)
    ensures forall p :: p in f.posts ==> f.lastActive >= time(p.lastMessageID)
    ensures || f.lastActive == ForumBaseTime(forum, time, valid)
            || exists p :: p in f.posts && f.lastActive == time(p.lastMessageID)
  {
    var posts := ThreadsOf(channels, forum.id);
    ForumChannel(forum, posts, TotalMessages(posts), Latest(ForumBaseTime(forum, time, valid), posts, time))
  }

  /** The loop of getGuild that collects a forum's posts. */
  method CollectThreads(forumID: Snowflake, channels: seq<Channel>) returns (posts: seq<Channel>)
    ensures posts == ThreadsOf(channels, forumID)
  {
    posts := [];
    for j := 0 to |channels|
      invariant posts == ThreadsOf(channels[..j], forumID)
    {
      ThreadsOfSnoc(channels, j, forumID);
      var t := channels[j];
      if t.parentID == forumID && t.kind == GuildPublicThread {
        posts := posts + [t];
      }
    }
    assert channels[..|channels|] == channels;
  }

  /** The loop of getGuild that adds up the posts' message counts. */
  method CountMessages(posts: seq<Channel>) returns (msgcount: int)
    ensures msgcount == TotalMessages(posts)
  {
    msgcount := 0;
    for k := 0 to |posts|
      invariant msgcount == TotalMessages(posts[..k])
    {
      assert posts[..k + 1][..k] == posts[..k];
      msgcount := msgcount + posts[k].messageCount;
    }
    assert posts[..|posts|] == posts;
  }

  /** The loop of getGuild that finds the latest activity, starting from the
      forum's own last message when its ID is valid. */
  method LastActivity(forum: Channel, posts: seq<Channel>, time: Snowflake -> int, valid: Snowflake -> bool)
    returns (lastactive: int)
    ensures lastactive == Latest(ForumBaseTime(forum, time, valid), posts, time)
  {
    lastactive := ZeroTime;
    if valid(forum.lastMessageID) {
      lastactive := time(forum.lastMessageID);
    }
    for k := 0 to |posts|
      invariant lastactive == Latest(ForumBaseTime(forum, time, valid), posts[..k], time)
    {
      assert posts[..k + 1][..k] == posts[..k];
      if time(posts[k].lastMessageID) > lastactive {
        lastactive := time(posts[k].lastMessageID);
      }
    }
    assert posts[..|posts|] == posts;
  }

  /** The body of getGuild's loop for one forum. */
  method SummarizeForum(forum: Channel, channels: seq<Channel>, time: Snowflake -> int, valid: Snowflake -> bool)
    returns (f: ForumChannel)
    ensures f == Summary(forum, channels, time, valid)
  {
    var posts := CollectThreads(forum.id, channels);
    var msgcount := CountMessages(posts);
    var lastactive := LastActivity(forum, posts, time, valid);
    f := ForumChannel(forum, posts, msgcount, lastactive);
  }

  // ---------------------------------------------------------------------------
  // Which forums are listed

  /** A channel is listed when it is a forum and the bot may view it and read its history. */
  function Listed(canRead: Channel -> bool): Channel -> bool {
    (c: Channel) => c.kind == GuildForum && canRead(c)
  }

  function ListedForums(channels: seq<Channel>, canRead: Channel -> bool): seq<Channel> {
    Filter(channels, Listed(canRead))
  }

  function SummariesOf(forums: seq<Channel>, channels: seq<Channel>, time: Snowflake -> int,
                       valid: Snowflake -> bool): seq<ForumChannel> {
    seq(|forums|, k requires 0 <= k < |forums| => Summary(forums[k], channels, time, valid))
  }

  lemma SummariesOfSnoc(forums: seq<Channel>, x: Channel, channels: seq<Channel>, time: Snowflake -> int,
                        valid: Snowflake -> bool)
    ensures SummariesOf(forums + [x], channels, time, valid)
         == SummariesOf(forums, channels, time, valid) + [Summary(x, channels, time, valid)]
  {
  }

  /** The guild page's forums before sorting, in channel order. */
  function Summaries(channels: seq<Channel>, canRead: Channel -> bool, time: Snowflake -> int,
                     valid: Snowflake -> bool): seq<ForumChannel> {
    SummariesOf(ListedForums(channels, canRead), channels, time, valid)
  }

  // ---------------------------------------------------------------------------
  // Stable sort, newest first

  predicate NewestFirst(s: seq<ForumChannel>) {
    forall i, j :: 0 <= i < j < |s| ==> s[i].lastActive >= s[j].lastActive
  }

  function ActiveAt(t: int): ForumChannel -> bool {
    (f: ForumChannel) => f.lastActive == t
  }

  /** Puts x in front of the first entry that is not newer than it. */
  function Insert(x: ForumChannel, s: seq<ForumChannel>): seq<ForumChannel> {
    if s == [] || x.lastActive >= s[0].lastActive then [x] + s
    else [s[0]] + Insert(x, s[1..])
  }

  /** What sort.SliceStable with "LastActive of i is after LastActive of j" leaves. */
  function SortByActivity(s: seq<ForumChannel>): (r: seq<ForumChannel>)
    ensures NewestFirstAdjacent(r)
    ensures multiset(r) == multiset(s)
  {
    if s == [] then []
    else
      var sorted := SortByActivity(s[1..]);
      InsertSorted(s[0], sorted);
      InsertPermutes(s[0], sorted);
      assert s == [s[0]] + s[1..];
      Insert(s[0], sorted)
  }

  lemma {:induction false} InsertPermutes(x: ForumChannel, s: seq<ForumChannel>)
    ensures multiset(Insert(x, s)) == multiset(s) + multiset{x}
  {
    if s != [] && x.lastActive < s[0].lastActive {
      InsertPermutes(x, s[1..]);
      assert s == [s[0]] + s[1..];
    }
  }

  /** Neighbouring entries are in order; the form the insertion proofs work with. */
  predicate NewestFirstAdjacent(s: seq<ForumChannel>) {
    forall i :: 0 < i < |s| ==> s[i - 1].lastActive >= s[i].lastActive
  }

  lemma {:induction false} InsertSorted(x: ForumChannel, s: seq<ForumChannel>)
    requires NewestFirstAdjacent(s)
    ensures NewestFirstAdjacent(Insert(x, s))
    ensures Insert(x, s)[0] == x || (s != [] && Insert(x, s)[0] == s[0])
  {
    if s != [] && x.lastActive < s[0].lastActive {
      var tail := s[1..];
      assert forall i :: 0 < i < |tail| ==> tail[i - 1] == s[i] && tail[i] == s[i + 1];
      InsertSorted(x, tail);
      var rest := Insert(x, tail);
      var r := [s[0]] + rest;
      assert Insert(x, s) == r;
      forall i | 0 < i < |r|
        ensures r[i - 1].lastActive >= r[i].lastActive
      {
        if i > 1 {
          assert r[i - 1] == rest[i - 2] && r[i] == rest[i - 1];
        }
      }
    } else {
      var r := [x] + s;
      assert Insert(x, s) == r;
      forall i | 0 < i < |r|
        ensures r[i - 1].lastActive >= r[i].lastActive
      {
        if i > 1 {
          assert r[i - 1] == s[i - 2] && r[i] == s[i - 1];
        }
      }
    }
  }

  /** Neighbours in order means every pair in order. */
  lemma {:induction false} AdjacentIsPairwise(s: seq<ForumChannel>)
    requires NewestFirstAdjacent(s)
    ensures NewestFirst(s)
  {
    if |s| > 1 {
      var tail := s[1..];
      assert forall i :: 0 < i < |tail| ==> tail[i - 1] == s[i] && tail[i] == s[i + 1];
      AdjacentIsPairwise(tail);
      forall i, j | 0 <= i < j < |s|
        ensures s[i].lastActive >= s[j].lastActive
      {
        assert s[j] == tail[j - 1];
        if i > 0 {
          assert s[i] == tail[i - 1];
        } else if j > 1 {
          assert s[1] == tail[0];
        }
      }
    }
  }

  /** Inserting x puts it before every entry as old as it, and leaves the
      order of those entries alone. */
  lemma {:induction false} InsertKeepsTies(x: ForumChannel, s: seq<ForumChannel>, t: int)
    ensures Filter(Insert(x, s), ActiveAt(t)) == (if x.lastActive == t then [x] else []) + Filter(s, ActiveAt(t))
  {
    var p := ActiveAt(t);
    var r := Insert(x, s);
    if s != [] && x.lastActive < s[0].lastActive {
      var rest := Insert(x, s[1..]);
      InsertKeepsTies(x, s[1..], t);
      assert r[0] == s[0] && r[1..] == rest;
      assert Filter(r, p) == (if s[0].lastActive == t then [s[0]] else []) + Filter(rest, p);
      assert Filter(s, p) == (if s[0].lastActive == t then [s[0]] else []) + Filter(s[1..], p);
      if x.lastActive == t {
        assert Filter(r, p) == [x] + Filter(s[1..], p);
      }
    } else {
      assert r[0] == x && r[1..] == s;
    }
  }

  /** The sorted list is newest first and holds the same entries. */
  lemma SortSortsAndPermutes(s: seq<ForumChannel>)
    ensures NewestFirst(SortByActivity(s))
    ensures multiset(SortByActivity(s)) == multiset(s)
  {
    AdjacentIsPairwise(SortByActivity(s));
  }

  /** The sort is stable: the entries with any one LastActive keep their order. */
  lemma {:induction false} SortIsStable(s: seq<ForumChannel>, t: int)
    ensures Filter(SortByActivity(s), ActiveAt(t)) == Filter(s, ActiveAt(t))
  {
    if s != [] {
      SortIsStable(s[1..], t);
      InsertKeepsTies(s[0], SortByActivity(s[1..]), t);
    }
  }

  // ---------------------------------------------------------------------------
  // The handler

  /** getGuild after the guild is fetched. lookup is what s.channels
      answered for the guild, selfMemberFound whether the bot's own member
      record could be fetched; canRead stands for the permission check (view
      channel and read message history) made with that member, time for
      Snowflake.Time and valid for Snowflake.IsValid. */
  method GetGuild(lookup: Result<seq<Channel>>, selfMemberFound: bool, canRead: Channel -> bool,
                  time: Snowflake -> int, valid: Snowflake -> bool)
    returns (r: Result<seq<ForumChannel>>)
    ensures lookup.Err? || !selfMemberFound ==> r == Err(Status(StatusInternalServerError))
    ensures lookup.Ok? && selfMemberFound ==>
      && r.Ok?
      && r.value == SortByActivity(Summaries(lookup.value, canRead, time, valid))
      && NewestFirst(r.value)
      && multiset(r.value) == multiset(Summaries(lookup.value, canRead, time, valid))
      && forall t :: Filter(r.value, ActiveAt(t)) == Filter(Summaries(lookup.value, canRead, time, valid), ActiveAt(t))
  {
    if lookup.Err? || !selfMemberFound {
      return Err(Status(StatusInternalServerError));
    }
    var channels := lookup.value;
    var listed: seq<ForumChannel> := [];
    for i := 0 to |channels|
      invariant listed == SummariesOf(ListedForums(channels[..i], canRead), channels, time, valid)
    {
      FilterSnoc(channels, i, Listed(canRead));
      var forum := channels[i];
      SummariesOfSnoc(ListedForums(channels[..i], canRead), forum, channels, time, valid);
      if forum.kind != GuildForum {
        continue;
      }
      if !canRead(forum) {
        continue;
      }
      var f := SummarizeForum(forum, channels, time, valid);
      listed := listed + [f];
    }
    assert channels[..|channels|] == channels;
    var forums := SortByActivity(listed);
    SortSortsAndPermutes(listed);
    forall t
      ensures Filter(forums, ActiveAt(t)) == Filter(listed, ActiveAt(t))
    {
      SortIsStable(listed, t);
    }
    r := Ok(forums);
  }

  /** A channel is among the listed forums exactly when it is a readable forum. */
  lemma ListedForumsExactly(channels: seq<Channel>, canRead: Channel -> bool, c: Channel)
    ensures c in ListedForums(channels, canRead) <==> c in channels && c.kind == GuildForum && canRead(c)
  {
    FilterExactly(channels, Listed(canRead), c);
  }

  /** Sorting neither adds nor drops an entry. */
  lemma SortKeepsEntries(s: seq<ForumChannel>, f: ForumChannel)
    ensures f in SortByActivity(s) <==> f in s
  {
    SortSortsAndPermutes(s);
    assert f in SortByActivity(s) <==> f in multiset(SortByActivity(s));
  }

  /** A forum's summary is on the guild page exactly when the forum is a
      readable forum of the guild. */
  lemma GuildListsReadableForums(channels: seq<Channel>, canRead: Channel -> bool, time: Snowflake -> int,
                                 valid: Snowflake -> bool, forum: Channel)
    ensures Summary(forum, channels, time, valid) in SortByActivity(Summaries(channels, canRead, time, valid))
        <==> forum in channels && forum.kind == GuildForum && canRead(forum)
  {
    var all := Summaries(channels, canRead, time, valid);
    var fs := ListedForums(channels, canRead);
    var me := Summary(forum, channels, time, valid);
    SortKeepsEntries(all, me);
    ListedForumsExactly(channels, canRead, forum);
    if forum in fs {
      var k :| 0 <= k < |fs| && fs[k] == forum;
      assert all[k] == me;
    }
    if me in all {
      var k :| 0 <= k < |all| && all[k] == me;
      assert fs[k] == forum;
    }
  }

  /** Every entry of the guild page is the summary of a readable forum of the guild. */
  lemma GuildEntriesAreSummaries(channels: seq<Channel>, canRead: Channel -> bool, time: Snowflake -> int,
                                 valid: Snowflake -> bool, f: ForumChannel)
    requires f in SortByActivity(Summaries(channels, canRead, time, valid))
    ensures f == Summary(f.forum, channels, time, valid)
    ensures f.forum in channels && f.forum.kind == GuildForum && canRead(f.forum)
  {
    var all := Summaries(channels, canRead, time, valid);
    var fs := ListedForums(channels, canRead);
    SortKeepsEntries(all, f);
    var k :| 0 <= k < |all| && all[k] == f;
    assert f.forum == fs[k];
    ListedForumsExactly(channels, canRead, fs[k]);
  }
}
