/** The forum page: which channels of a guild are listed as a forum's posts,
    which tags each post shows, and which slice of 25 posts a page number selects. */
module ForumPage {
  import opened Results
  import opened Seqs
  import opened GoInt
  import opened Discord

  /** Posts shown on one forum page. */
  const PageSize: nat := 25

  /** The largest page number whose post offsets fit in a Go int. */
  const MaxSafePage: int := MaxInt64 / PageSize

  /** A forum thread as the page lists it, with the forum tags it carries. */
  datatype Post = Post(channel: Channel, tags: seq<Tag>)

  datatype ForumView = ForumView(posts: seq<Post>, prev: int, next: int)

  /** The posts `lo..hi` of the forum's list, and the page numbers the Prev and
      Next links point to (0 when there is no such link). */
  datatype Window = Window(lo: nat, hi: nat, prev: int, next: int)

  // ---------------------------------------------------------------------------
  // Pinned posts

  /** A post is pinned when bit 1 of its channel flags (the pinned-thread flag) is set. */
  predicate IsPinned(p: Post)
    ensures IsPinned(p) <==> (p.channel.flags >> 1) & 1 == 1
  {
    p.channel.flags & PinnedThread != 0
  }

  /** Only the pin flag decides whether a post is pinned ... */
  lemma PinnedReadsOnlyPinFlag(p: Post)
    ensures IsPinned(p) == IsPinned(p.(channel := p.channel.(flags := p.channel.flags & PinnedThread)))
  {
  }

  /** ... and setting or clearing it pins or unpins the post, whatever the other flags are. */
  lemma PinFlagDecides(p: Post)
    ensures IsPinned(p.(channel := p.channel.(flags := p.channel.flags | PinnedThread)))
    ensures !IsPinned(p.(channel := p.channel.(flags := p.channel.flags & !PinnedThread)))
  {
  }

  // ---------------------------------------------------------------------------
  // Which threads are a forum's posts

  /** A forum's posts are the public threads whose parent is that forum. */
  predicate IsPostOf(t: Channel, forumID: Snowflake) {
    t.parentID == forumID && t.kind == GuildPublicThread
  }

  function PostOf(forumID: Snowflake): Channel -> bool {
    (t: Channel) => IsPostOf(t, forumID)
  }

  /** The forum's posts among the guild's channels, in channel order. */
  function ThreadsOf(channels: seq<Channel>, forumID: Snowflake): seq<Channel> {
    Filter(channels, PostOf(forumID))
  }

  lemma ThreadsOfExactly(channels: seq<Channel>, forumID: Snowflake, t: Channel)
    ensures t in ThreadsOf(channels, forumID) <==> t in channels && IsPostOf(t, forumID)
  {
    FilterExactly(channels, PostOf(forumID), t);
  }

  /** The list is built channel by channel: each step adds the channel iff it is a post. */
  lemma ThreadsOfSnoc(channels: seq<Channel>, i: nat, forumID: Snowflake)
    requires i < |channels|
    ensures ThreadsOf(channels[..i + 1], forumID)
         == ThreadsOf(channels[..i], forumID) + (if IsPostOf(channels[i], forumID) then [channels[i]] else [])
  {
    FilterSnoc(channels, i, PostOf(forumID));
  }

  // ---------------------------------------------------------------------------
  // Tags

  function IdIs(tag: Snowflake): Tag -> bool {
    (t: Tag) => t.id == tag
  }

  /** The forum's available tags whose ID is tag, in the forum's order. */
  function MatchingTags(available: seq<Tag>, tag: Snowflake): seq<Tag> {
    Filter(available, IdIs(tag))
  }

  lemma MatchingTagsSnoc(available: seq<Tag>, k: nat, tag: Snowflake)
    requires k < |available|
    ensures MatchingTags(available[..k + 1], tag)
         == MatchingTags(available[..k], tag) + (if available[k].id == tag then [available[k]] else [])
  {
    FilterSnoc(available, k, IdIs(tag));
  }

  function TagsWithID(available: seq<Tag>): Snowflake -> seq<Tag> {
    (tag: Snowflake) => MatchingTags(available, tag)
  }

  /** The tags a post shows: for each applied tag in turn, the available tags with that ID. */
  function TagsFor(applied: seq<Snowflake>, available: seq<Tag>): seq<Tag> {
    FlatMap(applied, TagsWithID(available))
  }

  /** A tag is shown exactly when the forum offers it and the post applies its ID. */
  lemma {:induction false} TagsForExactly(applied: seq<Snowflake>, available: seq<Tag>, t: Tag)
    ensures t in TagsFor(applied, available) <==> t in available && t.id in applied
  {
    if applied != [] {
      assert applied == [applied[0]] + applied[1..];
      TagsForExactly(applied[1..], available, t);
      FilterExactly(available, IdIs(applied[0]), t);
    }
  }

  /** Tags are ordered by applied tag first: the tags of a + b are those of a, then those of b. */
  lemma TagsForConcat(a: seq<Snowflake>, b: seq<Snowflake>, available: seq<Tag>)
    ensures TagsFor(a + b, available) == TagsFor(a, available) + TagsFor(b, available)
  {
    FlatMapConcat(a, b, TagsWithID(available));
  }

  /** The outer tag loop adds, for one more applied tag, its matching available tags. */
  lemma TagsForSnoc(applied: seq<Snowflake>, j: nat, available: seq<Tag>)
    requires j < |applied|
    ensures TagsFor(applied[..j + 1], available) == TagsFor(applied[..j], available) + MatchingTags(available, applied[j])
  {
    FlatMapSnoc(applied, j, TagsWithID(available));
  }

  function WithTags(thread: Channel, forum: Channel): Post {
    Post(thread, TagsFor(thread.appliedTags, forum.availableTags))
  }

  /** Every post of the forum, in channel order, with its tags. */
  function ForumPosts(channels: seq<Channel>, forum: Channel): seq<Post> {
    var threads := ThreadsOf(channels, forum.id);
    seq(|threads|, k requires 0 <= k < |threads| => WithTags(threads[k], forum))
  }

  /** The nested loop over a thread's applied tags and the forum's available tags. */
  method CollectTags(thread: Channel, forum: Channel) returns (tags: seq<Tag>)
    ensures tags == TagsFor(thread.appliedTags, forum.availableTags)
  {
    var applied, available := thread.appliedTags, forum.availableTags;
    tags := [];
    for j := 0 to |applied|
      invariant tags == TagsFor(applied[..j], available)
    {
      for k := 0 to |available|
        invariant tags == TagsFor(applied[..j], available) + MatchingTags(available[..k], applied[j])
      {
        MatchingTagsSnoc(available, k, applied[j]);
        if available[k].id == applied[j] {
          tags := tags + [available[k]];
        }
      }
      assert available[..|available|] == available;
      TagsForSnoc(applied, j, available);
    }
    assert applied[..|applied|] == applied;
  }

  // ---------------------------------------------------------------------------
  // Page number and window

  /** The page asked for; a value that did not parse, or one below 1, means page 1. */
  function PageNumber(parsed: Option<int64>): (page: int64)
    ensures page >= 1
    ensures parsed.Some? && parsed.value >= 1 ==> page == parsed.value
    ensures parsed.None? || parsed.value < 1 ==> page == 1
  {
    if parsed.None? || parsed.value < 1 then 1 else parsed.value
  }

  /** The window of page `page` over a list of n posts, in exact arithmetic. */
  function PageWindow(n: nat, page: int): (w: Window)
    requires page >= 1
    ensures w.lo <= w.hi <= n
    ensures forall i :: 0 <= i < n ==> (w.lo <= i < w.hi <==> i / PageSize == page - 1)
    ensures w.prev == (if page > 1 then page - 1 else 0)
    ensures w.next != 0 <==> n > page * PageSize
    ensures w.next != 0 ==> w.next == page + 1
  {
    var prev := if page > 1 then page - 1 else 0;
    if n > page * PageSize then
      Window((page - 1) * PageSize, page * PageSize, prev, page + 1)
    else if n >= (page - 1) * PageSize then
      Window((page - 1) * PageSize, n, prev, 0)
    else
      Window(0, 0, prev, 0)
  }

  /** The three cases of the window: a full page with a Next link, the last
      (possibly short) page, or a page past the end that shows nothing. */
  lemma PageWindowCases(n: nat, page: int)
    requires page >= 1
    ensures var w := PageWindow(n, page);
      && (n > page * PageSize ==> w.lo == (page - 1) * PageSize && w.hi - w.lo == PageSize)
      && ((page - 1) * PageSize <= n <= page * PageSize ==> w.lo == (page - 1) * PageSize && w.hi == n && w.hi - w.lo <= PageSize)
      && (n < (page - 1) * PageSize ==> w.lo == w.hi)
  {
  }

  /** Following the Next link shows the posts right after this page's. */
  lemma NextPageContinues(n: nat, page: int)
    requires page >= 1
    requires PageWindow(n, page).next != 0
    ensures PageWindow(n, PageWindow(n, page).next).lo == PageWindow(n, page).hi
    ensures PageWindow(n, PageWindow(n, page).next).prev == page
  {
  }

  /** Following the Prev link of a non-empty page shows the posts right before
      this page's, and that page links back here. */
  lemma PrevPagePrecedes(n: nat, page: int)
    requires page > 1
    requires PageWindow(n, page).lo < PageWindow(n, page).hi
    ensures PageWindow(n, page - 1).hi == PageWindow(n, page).lo
    ensures PageWindow(n, page - 1).next == page
  {
  }

  /** Every post appears on exactly one page: page i / 25 + 1. */
  lemma EveryPostOnOnePage(n: nat, i: nat, page: int)
    requires i < n && page >= 1
    ensures PageWindow(n, page).lo <= i < PageWindow(n, page).hi <==> page == i / PageSize + 1
  {
  }

  /** The window as server.go computes it, in Go's 64-bit `int`: the products
      may wrap around, and a slice with a negative or decreasing bound panics. */
  function PageWindowAsWritten(n: nat, page: int64): (r: Result<Window>)
    requires n <= MaxInt64
    requires page >= 1
    ensures r.Ok? ==> r.value.lo <= r.value.hi <= n
    ensures r.Ok? ==> r.value.prev == if page > 1 then page as int - 1 else 0
    ensures r.Err? ==> page as int > MaxSafePage
  {
    var prev := if page > 1 then page - 1 else 0;
    var hi := Wrap(page as int * PageSize);
    var lo := Wrap((page as int - 1) * PageSize);
    if n > hi as int then
      if 0 <= lo <= hi then Ok(Window(lo as nat, hi as nat, prev as int, Wrap(page as int + 1) as int))
      else Err(Panic)
    else if n >= lo as int then
      if 0 <= lo then Ok(Window(lo as nat, n, prev as int, 0))
      else Err(Panic)
    else
      Ok(Window(0, 0, prev as int, 0))
  }

  /** Up to page 368934881474191032 nothing wraps, and the code as written
      computes the window of exact arithmetic. */
  lemma AsWrittenAgreesBelowOverflow(n: nat, page: int64)
    requires n <= MaxInt64
    requires 1 <= page as int <= MaxSafePage
    ensures PageWindowAsWritten(n, page) == Ok(PageWindow(n, page as int))
  {
  }

  /** Page 368934881474191033 makes page*25 wrap to a negative bound: the
      handler panics, even for a forum without posts. */
  lemma AsWrittenPanicsPastOverflow()
    ensures PageWindowAsWritten(0, 368934881474191033) == Err(Panic)
  {
  }

  /** Page 737869762948382066 makes both bounds wrap to small positive values:
      with 40 posts the page shows posts 9..34, where it should show none. */
  lemma AsWrittenShowsWrongPosts()
    ensures PageWindowAsWritten(40, 737869762948382066)
         == Ok(Window(9, 34, 737869762948382065, 737869762948382067))
    ensures PageWindow(40, 737869762948382066).lo == PageWindow(40, 737869762948382066).hi
  {
  }

  /** Some pages past the overflow wrap both bounds to large positive values,
      and the code as written then shows the same empty page as exact arithmetic. */
  lemma AsWrittenEmptyPastOverflowToo()
    ensures PageWindowAsWritten(40, 922337203685477581) == Ok(PageWindow(40, 922337203685477581))
    ensures PageWindowAsWritten(40, 0x7FFF_FFFF_FFFF_FFFF) == Ok(PageWindow(40, 0x7FFF_FFFF_FFFF_FFFF))
  {
  }

  // ---------------------------------------------------------------------------
  // The handler

  /** getForum after the guild and the forum are fetched. lookup is what
      s.channels answered for the guild; parsedPage is what strconv.Atoi
      made of the page parameter (None on error). The handler collects the
      forum's posts with their tags, then cuts out the requested page. */
  method GetForum(lookup: Result<seq<Channel>>, forum: Channel, parsedPage: Option<int64>)
    returns (r: Result<ForumView>)
    ensures lookup.Err? ==> r == Err(Status(StatusInternalServerError))
    ensures lookup.Ok? ==>
      var all := ForumPosts(lookup.value, forum);
      var w := PageWindow(|all|, PageNumber(parsedPage) as int);
      r == Ok(ForumView(all[w.lo..w.hi], w.prev, w.next))
  {
    if lookup.Err? {
      return Err(Status(StatusInternalServerError));
    }
    var channels := lookup.value;
    var posts: seq<Post> := [];
    for i := 0 to |channels|
      invariant posts == ForumPosts(channels[..i], forum)
    {
      var thread := channels[i];
      ThreadsOfSnoc(channels, i, forum.id);
      if thread.parentID != forum.id || thread.kind != GuildPublicThread {
        continue;
      }
      var tags := CollectTags(thread, forum);
      posts := posts + [Post(thread, tags)];
    }
    assert channels[..|channels|] == channels;
    // The stable sort by pin flag and activity runs on the view's post list
    // while that list is still empty, so the posts stay in channel order.
    var page := PageNumber(parsedPage);
    var w := PageWindow(|posts|, page as int);
    r := Ok(ForumView(posts[w.lo..w.hi], w.prev, w.next));
  }
}
