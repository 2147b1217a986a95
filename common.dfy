/** Identifiers, table keys and the Option/Result wrappers shared by the model. */
module Common {

  /** Discord snowflakes are non-negative integers. */
  type GuildId = nat
  type UserId = nat
  type RoleId = nat
  type ChannelId = nat

  /** Unix time in whole seconds. */
  type Timestamp = int

  datatype Option<+T> = None | Some(value: T)

  datatype Result<+T, +E> = Success(value: T) | Failure(error: E)

  /** The (guild_id, user_id) key of the jailed_members, tempban, hardbanned and forcenick tables. */
  datatype MemberKey = MemberKey(guild: GuildId, user: UserId)

  /** The (guild_id, channel_id) key of the stickymessage table. */
  datatype ChannelKey = ChannelKey(guild: GuildId, channel: ChannelId)
}
