/** The chat platform's records that the handlers read, reduced to the fields they use. */
module Discord {
  /** A snowflake identifier (a channel, message, tag, user or guild ID). */
  type Snowflake = nat

  /** Channel types the handlers distinguish. */
  const GuildPublicThread: nat := 11
  const GuildForum: nat := 15

  /** The channel flag that marks a forum post as pinned. */
  const PinnedThread: bv64 := 2

  datatype Tag = Tag(id: Snowflake, name: string)

  /** A guild channel: a forum, a thread (forum post) or any other kind. */
  datatype Channel = Channel(
    id: Snowflake,
    kind: nat,
    parentID: Snowflake,
    flags: bv64,
    messageCount: int,
    lastMessageID: Snowflake,
    appliedTags: seq<Snowflake>,
    availableTags: seq<Tag>)

  datatype Message = Message(id: Snowflake, authorID: Snowflake, guildID: Snowflake, content: string)
}
