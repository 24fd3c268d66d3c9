/** The post page: which cursor a request pages from, the Prev/Next cursors
    of the page it gets back, and the grouping of its messages by author. */
module PostPage {
  import opened Results
  import opened Discord

  /** What s.author makes of a message: the author's display record. */
  datatype Author = Author(id: Snowflake, name: string)

  /** A run of consecutive messages shown under one author heading. */
  datatype MessageGroup = MessageGroup(author: Author, messages: seq<Message>)

  /** A request to the message cache: ascending (MessagesAfter) or descending
      (MessagesBefore), from a cursor (0 when the page starts at the channel's start). */
  datatype Request = Request(ascending: bool, cursor: Snowflake)

  /** What the message cache answers with: the page of messages, whether more
      exist before or after it, and whether the fetch failed. */
  datatype CacheReply = CacheReply(messages: seq<Message>, hasBefore: bool, hasAfter: bool, failed: bool)

  /** The message IDs the Prev and Next links carry (0 when there is no link). */
  datatype Links = Links(prev: Snowflake, next: Snowflake)

  datatype PostView = PostView(prev: Snowflake, next: Snowflake, groups: seq<MessageGroup>)

  // ---------------------------------------------------------------------------
  // Cursor choice

  /** Picks the direction and cursor from the `after` and `before` query values;
      parse stands for ParseSnowflake. A cursor that does not parse is a bad request. */
  function ChooseCursor(after: string, before: string, parse: string -> Option<Snowflake>): (r: Result<Request>)
    ensures r.Err? ==> r.failure == Status(StatusBadRequest)
    ensures after != "" ==>
      (r.Ok? <==> parse(after).Some?) && (r.Ok? ==> r.value == Request(true, parse(after).value))
    ensures after == "" && before != "" ==>
      (r.Ok? <==> parse(before).Some?) && (r.Ok? ==> r.value == Request(false, parse(before).value))
    ensures after == "" && before == "" ==> r == Ok(Request(true, 0))
  {
    var curstr := if after != "" then after else before;
    var ascending := after != "" || before == "";
    if curstr == "" then
      Ok(Request(ascending, 0))
    else
      match parse(curstr)
      case None => Err(Status(StatusBadRequest))
      case Some(id) => Ok(Request(ascending, id))
  }

  /** A non-empty `after` wins: the `before` value is then never looked at. */
  lemma AfterTakesPrecedence(after: string, before1: string, before2: string, parse: string -> Option<Snowflake>)
    requires after != ""
    ensures ChooseCursor(after, before1, parse) == ChooseCursor(after, before2, parse)
  {
  }

  /** The cursors of the Prev and Next links. Prev reads the first message
      whenever the cache says there is more before, without checking that the
      page has one: on an empty page that is an index out of range. */
  function PageLinks(msgs: seq<Message>, hasBefore: bool, hasAfter: bool): (r: Result<Links>)
    ensures r.Err? <==> hasBefore && |msgs| == 0
    ensures r.Err? ==> r.failure == Panic
    ensures r.Ok? ==> (r.value.prev == if hasBefore then msgs[0].id else 0)
    ensures r.Ok? ==> (r.value.next == if hasAfter && |msgs| > 0 then msgs[|msgs| - 1].id else 0)
  {
    if hasBefore && |msgs| == 0 then Err(Panic)
    else
      var next := if hasAfter && |msgs| > 0 then msgs[|msgs| - 1].id else 0;
      var prev := if hasBefore then msgs[0].id else 0;
      Ok(Links(prev, next))
  }

  /** Following the links: a request whose `after` value is the Next cursor
      (written out by fmt, which parse reads back) pages forward from the
      page's last message, and one whose `before` value is the Prev cursor
      pages backward from its first message. */
  lemma LinksContinuePaging(msgs: seq<Message>, hasBefore: bool, hasAfter: bool,
                            parse: string -> Option<Snowflake>, fmt: Snowflake -> string)
    requires |msgs| > 0
    requires forall id: Snowflake :: fmt(id) != "" && parse(fmt(id)) == Some(id)
    ensures var links := PageLinks(msgs, hasBefore, hasAfter).value;
      && (hasAfter ==> ChooseCursor(fmt(links.next), "", parse) == Ok(Request(true, msgs[|msgs| - 1].id)))
      && (hasBefore ==> ChooseCursor("", fmt(links.prev), parse) == Ok(Request(false, msgs[0].id)))
  {
    var links := PageLinks(msgs, hasBefore, hasAfter).value;
    assert fmt(links.next) != "" && parse(fmt(links.next)) == Some(links.next);
    assert fmt(links.prev) != "" && parse(fmt(links.prev)) == Some(links.prev);
  }

  // ---------------------------------------------------------------------------
  // Author groups

  /** The messages of the groups, in order. */
  function Flatten(groups: seq<MessageGroup>): seq<Message> {
    if groups == [] then [] else groups[0].messages + Flatten(groups[1..])
  }

  lemma {:induction false} FlattenConcat(a: seq<MessageGroup>, b: seq<MessageGroup>)
    ensures Flatten(a + b) == Flatten(a) + Flatten(b)
  {
    if a == [] {
      assert a + b == b;
    } else {
      assert (a + b)[1..] == a[1..] + b;
      FlattenConcat(a[1..], b);
    }
  }

  /** A group is a non-empty run headed by the author record of its first
      message, and every later message has that author's ID. */
  predicate IsRun(g: MessageGroup, author: Message -> Author) {
    && g.messages != []
    && g.author == author(g.messages[0])
    && forall j :: 0 < j < |g.messages| ==> g.messages[j].authorID == g.author.id
  }

  /** groups split ms into maximal author runs: they concatenate back to ms,
      each is a run, and each group starts with a message by another author
      than the group before it. */
  predicate IsAuthorRuns(groups: seq<MessageGroup>, ms: seq<Message>, author: Message -> Author) {
    && Flatten(groups) == ms
    && (forall k :: 0 <= k < |groups| ==> IsRun(groups[k], author))
    && (forall k :: 0 <= k < |groups| - 1 ==> groups[k + 1].messages[0].authorID != groups[k].author.id)
  }

  /** The page's messages with the guild's ID set, as the handler sets it on each one. */
  function InGuild(msgs: seq<Message>, guildID: Snowflake): seq<Message> {
    seq(|msgs|, k requires 0 <= k < |msgs| => msgs[k].(guildID := guildID))
  }

  /** The first group of a split, and the split of what follows it. */
  lemma RunsSplit(groups: seq<MessageGroup>, ms: seq<Message>, author: Message -> Author)
    requires IsAuthorRuns(groups, ms, author) && groups != []
    ensures |groups[0].messages| <= |ms| && ms[..|groups[0].messages|] == groups[0].messages
    ensures IsAuthorRuns(groups[1..], ms[|groups[0].messages|..], author)
  {
  }

  /** The first message of a non-empty split heads its first group. */
  lemma RunsHead(groups: seq<MessageGroup>, ms: seq<Message>, author: Message -> Author)
    requires IsAuthorRuns(groups, ms, author) && ms != []
    ensures groups != [] && ms[0] == groups[0].messages[0]
  {
  }

  /** There is only one split into maximal author runs. */
  lemma {:induction false} AuthorRunsUnique(a: seq<MessageGroup>, b: seq<MessageGroup>, ms: seq<Message>,
                                            author: Message -> Author)
    requires IsAuthorRuns(a, ms, author) && IsAuthorRuns(b, ms, author)
    ensures a == b
    decreases |ms|
  {
    if ms != [] {
      RunsHead(a, ms, author);
      RunsHead(b, ms, author);
      RunsSplit(a, ms, author);
      RunsSplit(b, ms, author);
      var p, q := |a[0].messages|, |b[0].messages|;
      assert a[0].author == b[0].author;
      if p < q {
        RunsHead(a[1..], ms[p..], author);
        assert false;
      }
      if q < p {
        RunsHead(b[1..], ms[q..], author);
        assert false;
      }
      AuthorRunsUnique(a[1..], b[1..], ms[p..], author);
      assert a == [a[0]] + a[1..];
      assert b == [b[0]] + b[1..];
    }
  }

  /** When the author record carries the message's author ID, every message of
      a group has the group's author ID and neighbouring groups have different authors. */
  lemma RunsShareAuthor(groups: seq<MessageGroup>, ms: seq<Message>, author: Message -> Author)
    requires IsAuthorRuns(groups, ms, author)
    requires forall m :: author(m).id == m.authorID
    ensures forall k, j :: 0 <= k < |groups| && 0 <= j < |groups[k].messages| ==>
      groups[k].messages[j].authorID == groups[k].author.id
    ensures forall k :: 0 <= k < |groups| - 1 ==> groups[k + 1].author.id != groups[k].author.id
  {
  }

  /** A message whose author ID differs from the last group's author opens a new group. */
  lemma RunsOpenGroup(groups: seq<MessageGroup>, ms: seq<Message>, m: Message, author: Message -> Author)
    requires IsAuthorRuns(groups, ms, author)
    requires groups == [] || groups[|groups| - 1].author.id != m.authorID
    ensures IsAuthorRuns(groups + [MessageGroup(author(m), [m])], ms + [m], author)
  {
    var g := MessageGroup(author(m), [m]);
    FlattenConcat(groups, [g]);
    assert Flatten([g]) == [m];
    var gs := groups + [g];
    forall k | 0 <= k < |gs| - 1
      ensures gs[k + 1].messages[0].authorID != gs[k].author.id
    {
      if k + 1 < |groups| {
        assert gs[k + 1] == groups[k + 1] && gs[k] == groups[k];
      }
    }
  }

  /** Appending a message to the last group appends it to the flattened messages. */
  lemma FlattenExtendLast(groups: seq<MessageGroup>, m: Message)
    requires groups != []
    ensures var i := |groups| - 1;
      Flatten(groups[i := groups[i].(messages := groups[i].messages + [m])]) == Flatten(groups) + [m]
  {
    var i := |groups| - 1;
    var last := groups[i];
    var g := last.(messages := last.messages + [m]);
    assert groups == groups[..i] + [last];
    FlattenConcat(groups[..i], [last]);
    assert Flatten([last]) == last.messages;
    assert groups[i := g] == groups[..i] + [g];
    FlattenConcat(groups[..i], [g]);
    assert Flatten([g]) == g.messages;
  }

  /** A message with the last group's author ID joins that group. */
  lemma RunsExtendGroup(groups: seq<MessageGroup>, ms: seq<Message>, m: Message, author: Message -> Author)
    requires IsAuthorRuns(groups, ms, author)
    requires groups != [] && groups[|groups| - 1].author.id == m.authorID
    ensures var i := |groups| - 1;
      IsAuthorRuns(groups[i := groups[i].(messages := groups[i].messages + [m])], ms + [m], author)
  {
    var i := |groups| - 1;
    var last := groups[i];
    var g := last.(messages := last.messages + [m]);
    var gs := groups[i := g];
    FlattenExtendLast(groups, m);
    assert IsRun(g, author) by {
      forall j | 0 < j < |g.messages|
        ensures g.messages[j].authorID == g.author.id
      {
        if j < |last.messages| {
          assert g.messages[j] == last.messages[j];
        }
      }
    }
    forall k | 0 <= k < |gs|
      ensures IsRun(gs[k], author)
    {
      if k < i {
        assert gs[k] == groups[k];
      }
    }
    forall k | 0 <= k < |gs| - 1
      ensures gs[k + 1].messages[0].authorID != gs[k].author.id
    {
      assert gs[k] == groups[k];
      assert gs[k + 1].messages[0] == groups[k + 1].messages[0];
    }
  }

  /** The grouping loop of getPost: each message, with the guild's ID set,
      joins the last group when that group's author has its author ID, and
      otherwise opens a new group under author(m). */
  method GroupByAuthor(msgs: seq<Message>, guildID: Snowflake, author: Message -> Author)
    returns (groups: seq<MessageGroup>)
    ensures IsAuthorRuns(groups, InGuild(msgs, guildID), author)
    ensures |groups| <= |msgs|
  {
    ghost var ms := InGuild(msgs, guildID);
    groups := [];
    var i := -1;
    for n := 0 to |msgs|
      invariant i == |groups| - 1
      invariant |groups| <= n
      invariant IsAuthorRuns(groups, ms[..n], author)
    {
      var m := msgs[n].(guildID := guildID);
      assert ms[..n + 1] == ms[..n] + [m];
      if i == -1 || groups[i].author.id != m.authorID {
        RunsOpenGroup(groups, ms[..n], m, author);
        groups := groups + [MessageGroup(author(m), [m])];
        i := i + 1;
      } else {
        RunsExtendGroup(groups, ms[..n], m, author);
        groups := groups[i := groups[i].(messages := groups[i].messages + [m])];
      }
    }
    assert ms[..|msgs|] == ms;
  }
  // ---------------------------------------------------------------------------
  // The handler

  /** getPost after the guild, forum and post are fetched. fetch stands for
      the message cache (MessagesAfter or MessagesBefore with a limit of 25),
      ensureMembers for the member resolution (true when it succeeds), author
      for s.author. */
  method GetPost(after: string, before: string, parse: string -> Option<Snowflake>,
                 fetch: Request -> CacheReply, ensureMembers: seq<Message> -> bool,
                 guildID: Snowflake, author: Message -> Author)
    returns (r: Result<PostView>)
    ensures ChooseCursor(after, before, parse).Err? ==> r == Err(Status(StatusBadRequest))
    ensures ChooseCursor(after, before, parse).Ok? ==>
      var reply := fetch(ChooseCursor(after, before, parse).value);
      var links := PageLinks(reply.messages, reply.hasBefore, reply.hasAfter);
      if links.Err? then r == Err(Panic)
      else if reply.failed || !ensureMembers(reply.messages) then r == Err(Status(StatusInternalServerError))
      else
        && r.Ok?
        && r.value.prev == links.value.prev
        && r.value.next == links.value.next
        && IsAuthorRuns(r.value.groups, InGuild(reply.messages, guildID), author)
  {
    var request := ChooseCursor(after, before, parse);
    if request.Err? {
      return Err(request.failure);
    }
    var reply := fetch(request.value);
    var links := PageLinks(reply.messages, reply.hasBefore, reply.hasAfter);
    if links.Err? {
      return Err(links.failure);
    }
    if reply.failed || !ensureMembers(reply.messages) {
      return Err(Status(StatusInternalServerError));
    }
    var groups := GroupByAuthor(reply.messages, guildID, author);
    r := Ok(PostView(links.value.prev, links.value.next, groups));
  }
}
