# Forum archive pages: a verified model

The service renders a read-only web archive of the forum channels of a
Discord guild. Each guild's archive has three kinds of page.

- The guild page lists every forum channel the bot can read, with its posts,
  their total message count and the time of the latest activity, newest first.
- The forum page shows one forum's public threads (its "posts") 25 at a
  time, each with the forum tags applied to it, and Prev/Next page numbers.
- The post page shows up to 25 messages of one thread, picked by an `after` or
  `before` message cursor and grouped into runs by the same author, with
  Prev/Next cursors.

This project models the request handlers' own logic in Dafny and proves what
that logic promises. How a thread is kept as a forum post, how the tags are
resolved, the page window, how the cursor is chosen, the author grouping, and
the guild summary and its stable sort are all covered. The Discord state and
the collaborators the handlers call are parameters of the model.

Modules:

- `Results`: `Option`, the `Result` of a handler and its failures (an HTTP
  status, an upstream error, a Go runtime panic).
- `Seqs`: `Filter`, with its concatenation, snoc, membership and composition
  lemmas, and `FlatMap`, with its concatenation and snoc lemmas.
- `GoInt`: `int64` and two's-complement wrap-around (`Wrap`), for Go's `int`.
  Go's `int` is 64 bits wide on 64-bit builds, which the model and the
  overflow page numbers below assume.
- `Discord`: the channel, tag and message records the handlers read.
- `ForumPage`: `getForum` and `Post.IsPinned`.
- `PostPage`: `getPost`.
- `GuildPage`: `publicActiveThreads` and `getGuild`.

Collaborators that are parameters:

- the channel lookup (`s.channels`, the cabinet), as a `Result<seq<Channel>>`;
- `strconv.Atoi`, as its outcome `Option<int64>`;
- `discord.ParseSnowflake`, as `parse`;
- `Snowflake.Time` and `Snowflake.IsValid`, as `time` and `valid`;
- the permission test `CalcOverwrites(...).Has(ReadMessageHistory | ViewChannel)`,
  as `canRead`;
- the message cache, as `fetch`, which returns the messages with the hasBefore
  and hasAfter flags and whether the fetch failed;
- `ensureMembers`, as a success flag;
- `s.author`, as `author`.

## Model

| member | source | states |
|---|---|---|
| GuildPage.PublicActiveThreads | server.go:138-151 | A failed channel lookup is passed on unchanged. Otherwise the result is the guild's channels of kind public thread (11), in their original order. |
| GuildPage.ForumPostsArePublicThreads | server.go:138-151 | A forum's posts are exactly the public threads whose parent is that forum, in order. This ties the forum filters to publicActiveThreads. |
| ForumPage.IsPinned | server.go:241-243 | A post is pinned exactly when bit 1 of its channel flags, the pinned-thread flag (2), is set. |
| ForumPage.PinnedReadsOnlyPinFlag | server.go:241-243 | Whether a post is pinned depends on no flag bit other than the pinned-thread bit. |
| ForumPage.PinFlagDecides | server.go:241-243 | Setting the pinned-thread bit makes a post pinned and clearing it makes a post unpinned, whatever the other bits are. |
| ForumPage.ThreadsOfExactly | server.go:272-276 | A channel is among a forum's posts exactly when it is in the guild's channels, its parent is the forum and it is a public thread. |
| ForumPage.TagsForExactly | server.go:278-284 | A tag is attached to a post exactly when it is one of the forum's available tags and its ID is among the thread's applied tag IDs. |
| ForumPage.TagsForConcat | server.go:278-284 | The tags of a list of applied IDs are the tags of its first part followed by those of its second part: the order follows the applied IDs. |
| ForumPage.CollectTags | server.go:278-284 | The nested tag loop produces `TagsFor`: for each applied ID in order, the available tags with that ID in forum order. |
| ForumPage.PageNumber | server.go:293-296 | The page is at least 1. It is the parsed value when parsing succeeded with a value of at least 1, and 1 in every other case. |
| ForumPage.PageWindow | server.go:297-307 | The window lies inside the post list. Index i is shown exactly when i / 25 == page - 1. Prev is page - 1 on pages after the first and 0 otherwise. Next is non-zero exactly when posts remain beyond this page, and it is then page + 1. |
| ForumPage.PageWindowCases | server.go:300-307 | The three branches: a full page of 25 with more after it, the final partial page running to the end, and an empty page past the end. |
| ForumPage.NextPageContinues | server.go:297-302 | Following Next gives the page that starts where this one ends, and its Prev leads back to this page. |
| ForumPage.PrevPagePrecedes | server.go:297-302 | On a non-empty page after the first, the page Prev names ends where this one starts, and its Next is this page. |
| ForumPage.EveryPostOnOnePage | server.go:300-307 | Every post appears on exactly one page, namely i / 25 + 1. |
| ForumPage.PageWindowAsWritten | server.go:297-307 | The window as Go computes it in 64-bit `int`. Whenever it does not panic, it is a valid slice of the post list, and Prev is page - 1 after the first page and 0 otherwise. It panics only for pages beyond MaxInt64 / 25. |
| ForumPage.AsWrittenAgreesBelowOverflow | server.go:300-307 | With Go's 64-bit arithmetic, the window equals the exact one for every page up to MaxInt64 / 25. |
| ForumPage.AsWrittenPanicsPastOverflow | server.go:300-304 | Page 368934881474191033 wraps `page*25` to a negative value, and the slice bounds panic. |
| ForumPage.AsWrittenShowsWrongPosts | server.go:300-304 | With 40 posts, page 737869762948382066 wraps `page*25` to 34 and shows posts 9 to 33, where the exact window is empty. |
| ForumPage.AsWrittenEmptyPastOverflowToo | server.go:300-306 | Not every page above MaxInt64 / 25 goes wrong: pages 922337203685477581 and MaxInt64 wrap both bounds to large positive values, and the code as written then gives the same empty page as the exact window. |
| ForumPage.GetForum | server.go:265-308 | A failed lookup gives 500. Otherwise the view holds the window of the page number over the forum's posts with their tags, in channel order, plus Prev and Next from `PageWindow`. |
| PostPage.ChooseCursor | server.go:338-355 | A non-empty `after` gives an ascending request from that cursor. Otherwise a non-empty `before` gives a descending one. With neither, the request is ascending from 0. A cursor that does not parse gives 400, and every error is 400. |
| PostPage.AfterTakesPrecedence | server.go:340-345 | When `after` is non-empty, the `before` value has no influence. |
| PostPage.PageLinks | server.go:364-369 | Next is the last message's ID when there are more messages after and the page is non-empty, and 0 otherwise. Prev is the first message's ID when there are more before. It is a panic exactly when there are more before but the page is empty. |
| PostPage.LinksContinuePaging | server.go:340-369 | On a non-empty page, a request with `after` set to the Next cursor pages forward from the last message shown. A request with `before` set to the Prev cursor pages backward from the first. |
| PostPage.FlattenConcat | server.go:384-396 | The messages of concatenated group lists are the concatenated messages. |
| PostPage.AuthorRunsUnique | server.go:384-396 | At most one list of groups splits a message list into maximal author runs. |
| PostPage.GroupByAuthor | server.go:384-396 | The groups concatenate back to the messages, with the guild ID set. Each group is non-empty and carries the author record `author` gives for its first message. Every later message in the group has that record's ID as its author ID. Each group's first message has an author ID different from the record ID of the group before it, which is the comparison server.go:389 makes. When `author(m).id` is `m.authorID`, as `RunsShareAuthor` assumes, the groups are runs of one author. There are no more groups than messages. |
| PostPage.RunsShareAuthor | server.go:389-394 | When every author record's ID is the message's author ID, every message of a group has the group's author ID, and consecutive groups have different authors. |
| PostPage.GetPost | server.go:338-397 | The errors come in the handler's order: 400 for a bad cursor, then a panic from the Prev link on an empty page, then 500 for a failed fetch or failed member resolution. Otherwise the view carries the links and the author runs of the fetched messages. |
| GuildPage.TotalMessagesConcat | server.go:213-216 | The message total of concatenated post lists is the sum of their totals. |
| GuildPage.CountMessages | server.go:213-216 | The loop computes `TotalMessages` of the posts. |
| GuildPage.Latest | server.go:217-225 | The latest time is at least the starting time and at least every post's last-message time, and it is one of those values. |
| GuildPage.LastActivity | server.go:217-225 | The loop starts at the zero time, or at the forum's own last message time when that ID is valid, and computes `Latest` over the posts. |
| GuildPage.CollectThreads | server.go:206-212 | The loop collects exactly the forum's posts (`ThreadsOf`). |
| GuildPage.Summary | server.go:206-228 | A forum summary holds the forum and its posts, and its total is the posts' message total. Its last activity is at least the forum's own time when valid and at least every post's time. It equals either the start time (the forum's own time when valid, the zero time otherwise) or one post's time. |
| GuildPage.SummarizeForum | server.go:206-228 | The three loops together produce `Summary`. |
| GuildPage.ListedForumsExactly | server.go:196-205 | A channel is listed exactly when it is in the guild's channels, is a forum (15) and grants read-history and view permission. |
| GuildPage.InsertPermutes | server.go:230-232 | Inserting an entry adds exactly that entry to the multiset. |
| GuildPage.InsertSorted | server.go:230-232 | Inserting into a list in order by descending activity keeps it in order. |
| GuildPage.AdjacentIsPairwise | server.go:230-232 | Neighbours in order means every pair is in order. |
| GuildPage.InsertKeepsTies | server.go:230-232 | Among entries with the same activity time, the inserted entry comes first and the others keep their order. |
| GuildPage.SortByActivity | server.go:230-232 | The sort performed by `sort.SliceStable` with the "LastActive of i is after LastActive of j" comparator, as stable insertion. Every neighbouring pair of the result is in descending activity order, and the result is a permutation of the input. |
| GuildPage.SortSortsAndPermutes | server.go:230-232 | The sorted list is newest first and is a permutation of the input. |
| GuildPage.SortIsStable | server.go:230-232 | For every activity time, the entries with that time keep their original relative order. This is the stability `sort.SliceStable` promises. |
| GuildPage.SortKeepsEntries | server.go:230-232 | An entry is in the sorted list exactly when it was in the input. |
| GuildPage.GetGuild | server.go:183-232 | A failed channel lookup or self-member lookup gives 500. Otherwise the result is newest first, a permutation of the readable forums' summaries in channel order, and stable for every activity time. |
| GuildPage.GuildListsReadableForums | server.go:196-232 | A forum's summary is on the guild page exactly when the forum is a forum channel of the guild that the bot can read. |
| GuildPage.GuildEntriesAreSummaries | server.go:196-232 | Every entry on the guild page is the summary of a readable forum channel of the guild. |

## Left out

- main.go (configuration, gateway connection, routing and the templates) is not part of this model. Neither are rendering, ETags, the response buffer and the sitemap. They are I/O.
- guildFromReq, forumFromReq (including its NSFW check), postFromReq, getIndex, the privacy and terms pages, and displayErr are not modelled. They only fetch state or write responses. The handlers start after them, with the fetched guild, forum and post as inputs.
- The message cache, ensureMembers, s.author, the permission computation and the snowflake parser and clock are external code. The model takes them as function parameters, as listed above.
- PostPage.GroupByAuthor: the groups hold each fetched message with its guild ID set, where the handler holds `s.message(m)`, the page's own rendering of that message. The code of `s.message` is not part of this model, and the grouping never reads its result: the test at server.go:389 reads the raw message's author ID. So `Flatten(groups)` is stated over the guild-stamped messages, not over their rendered form.
- PostPage.GetPost: the view's groups are those of `GroupByAuthor`, so like it they hold the guild-stamped messages where the handler holds `s.message(m)`.
- The 5-second member-resolution deadline and all concurrency are left out. ensureMembers is modelled only by its success or failure.
- GuildPage.GetGuild: the stable sort is modelled on values, as insertion into a sequence, not as `sort.SliceStable` rearranging the slice in place.
- ForumPage.GetForum: the handler cuts the page with the corrected `PageWindow` in exact arithmetic. For every page beyond the last one, this gives an empty page with no Next. Above MaxInt64 / 25, the code as written panics or shows the wrong posts for some pages, 368934881474191033 and 737869762948382066 among them (see Findings). For other pages there, such as 922337203685477581 and MaxInt64, it gives the same empty page. The code as written is `PageWindowAsWritten`, which `AsWrittenAgreesBelowOverflow` proves equal to `PageWindow` for every page up to MaxInt64 / 25.
- GuildPage.GetGuild: the error return of `Cabinet.Me()` at server.go:189 is discarded. When it fails, `me` is nil and `me.ID` panics before `Member` is called. The model folds this into `selfMemberFound` being false and so answers 500 instead of panicking.
- GuildPage.CountMessages: the sum of message counts is exact, without Go's int wrap-around. A realistic guild cannot reach 2^63 messages.
- GuildPage.Latest: times are the integers `time` returns, and the zero time is 0. `time.Time` ordering is modelled as integer order.
- ForumPage.GetForum: the `sort.SliceStable` call at server.go:287-292 sorts `ctx.Posts` while it is still empty, so it has no effect and the model leaves it out. In Go `&` binds tighter than `^`, so its first test reads `Flags_i ^ (Flags_j & PinnedThread) != 0` rather than comparing the two pin bits. Because the call sorts an empty slice, that never matters.
- In getPost, the messages are still used when fetch reports an error, because the links are computed first. The model follows that order, and `GetPost` panics on an empty page with hasBefore even when the fetch itself failed.

## Findings

| source | as written | input that shows it | evidently intended | confidence | as-written member | corrected member |
|---|---|---|---|---|---|---|
| server.go:300-304 | `page*25` and `(page-1)*25` are computed in Go's 64-bit `int`, and `page` comes unbounded from the URL | page 368934881474191033: the product wraps negative, and the slice expression panics | an empty page past the end, with no Next | not executed | ForumPage.AsWrittenPanicsPastOverflow | ForumPage.PageWindow |
| server.go:300-304 | the same wrap-around can land inside the list | 40 posts, page 737869762948382066: shows posts 9 to 33 with Next set | an empty page, because every post's page is i / 25 + 1 | not executed | ForumPage.AsWrittenShowsWrongPosts | ForumPage.PageWindow |
