/**
 * The donator cog's two tables: personal command shortcuts (selfaliases) and locked
 * nicknames (forcenick), with the two event handlers that act on them.
 *
 * Whether a command exists, whether a message already parses as a command, and whether a
 * nickname edit raises `Forbidden` are parameters.
 */
module Donator {
  import opened Common
  import opened Text

  /** The key of a selfaliases row: the user and the shortcut. */
  datatype AliasKey = AliasKey(user: UserId, alias: string)

  /** A forcenick row: the forced nickname, and the nickname the member had when the row was
      first written (`None` for no nickname). */
  datatype ForceNick = ForceNick(nickname: string, previousNick: Option<string>)

  /** The member a forcenickname command targets. */
  datatype NickMember = NickMember(id: UserId, nick: Option<string>)

  datatype AliasResult = AliasAdded | CommandMissing | ShortcutTooLong | AliasExists

  const MaxShortcutLength: nat := 10

  /** The content `selfalias_check` re-dispatches: the prefix, the aliased command, a space,
      and what followed the invoked name, stripped. */
  function ExpandAlias(prefix: string, command: string, invoked: string, content: string): (r: string)
    ensures IsStripped(r)
    ensures |r| <= |prefix| + |command| + 1 + |Tail(content, |prefix| + |invoked|)|
  {
    Strip(prefix + command + " " + Tail(content, |prefix| + |invoked|))
  }

  /** A message `prefix + shortcut + rest` becomes the aliased command with the same
      arguments. */
  lemma ExpandAliasReplacesShortcut(prefix: string, command: string, invoked: string, rest: string)
    ensures ExpandAlias(prefix, command, invoked, prefix + invoked + rest) == Strip(prefix + command + " " + rest)
  {
    var content := prefix + invoked + rest;
    assert content[..|prefix| + |invoked|] == prefix + invoked;
  }

  /** When the prefix starts and the command name ends with a visible character, stripping
      keeps `prefix + command` whole at the front, so the bot reads the aliased command. */
  lemma ExpandAliasInvokesCommand(prefix: string, command: string, invoked: string, content: string)
    requires prefix != [] && !IsSpace(prefix[0])
    requires command != [] && !IsSpace(command[|command| - 1])
    ensures var r := ExpandAlias(prefix, command, invoked, content);
            |prefix| + |command| <= |r| && r[..|prefix| + |command|] == prefix + command
  {
    var head := prefix + command;
    var tail := Tail(content, |prefix| + |invoked|);
    assert prefix + command + " " + tail == head + (" " + tail);
    assert head[0] == prefix[0] && head[|head| - 1] == command[|command| - 1];
    StripKeepsVisibleHead(head, " " + tail);
  }

  class DonatorDb {
    var selfaliases: map<AliasKey, string>
    var forcenick: map<MemberKey, ForceNick>

    /** Stored shortcuts are at most ten characters long. */
    ghost predicate Valid()
      reads this
    {
      forall k :: k in selfaliases ==> |k.alias| <= MaxShortcutLength
    }

    constructor Empty()
      ensures Valid()
      ensures selfaliases == map[] && forcenick == map[]
    {
      selfaliases, forcenick := map[], map[];
    }

    /** `selfalias add`: `command` is the qualified name of the command `bot.get_command`
        found, `None` when there is none. Refused, writing nothing, for a missing command, a
        shortcut over ten characters or a shortcut the user already has. */
    method SelfaliasAdd(user: UserId, shortcut: string, command: Option<string>) returns (res: AliasResult)
      requires Valid()
      modifies this`selfaliases
      ensures Valid()
      ensures res == (if command.None? then CommandMissing
                      else if |shortcut| > MaxShortcutLength then ShortcutTooLong
                      else if AliasKey(user, shortcut) in old(selfaliases) then AliasExists
                      else AliasAdded)
      ensures selfaliases == if res == AliasAdded then old(selfaliases)[AliasKey(user, shortcut) := command.value]
                             else old(selfaliases)
    {
      if command.None? {
        return CommandMissing;
      }
      if |shortcut| > MaxShortcutLength {
        return ShortcutTooLong;
      }
      var key := AliasKey(user, shortcut);
      if key in selfaliases {
        return AliasExists;
      }
      selfaliases := selfaliases[key := command.value];
      res := AliasAdded;
    }

    /** `selfalias remove`: refused when the user has no such shortcut; otherwise exactly that
        row is deleted and the command it stood for is reported. */
    method SelfaliasRemove(user: UserId, shortcut: string) returns (removed: Option<string>)
      requires Valid()
      modifies this`selfaliases
      ensures Valid()
      ensures removed == if AliasKey(user, shortcut) in old(selfaliases) then Some(old(selfaliases)[AliasKey(user, shortcut)]) else None
      ensures selfaliases == old(selfaliases) - {AliasKey(user, shortcut)}
    {
      var key := AliasKey(user, shortcut);
      if key !in selfaliases {
        return None;
      }
      removed := Some(selfaliases[key]);
      selfaliases := selfaliases - {key};
    }

    /** `selfalias list`: the caller's shortcuts and their commands, and no one else's. */
    function SelfaliasList(user: UserId): (aliases: map<string, string>)
      reads this
      ensures forall a :: a in aliases <==> AliasKey(user, a) in selfaliases
      ensures forall a :: a in aliases ==> aliases[a] == selfaliases[AliasKey(user, a)]
    {
      map k | k in selfaliases && k.user == user :: k.alias := selfaliases[k]
    }

    /** `selfalias reset`: the caller's shortcuts go; other users' are unchanged. */
    method SelfaliasReset(user: UserId)
      requires Valid()
      modifies this`selfaliases
      ensures Valid()
      ensures selfaliases == map k | k in old(selfaliases) && k.user != user :: old(selfaliases)[k]
    {
      selfaliases := map k | k in selfaliases && k.user != user :: selfaliases[k];
    }

    /** `get_selfaliases`: the command stored for the user's shortcut, or `None`. */
    function GetSelfalias(user: UserId, alias: string): (r: Option<string>)
      reads this
      ensures r.Some? <==> AliasKey(user, alias) in selfaliases
      ensures r.Some? ==> r.value == selfaliases[AliasKey(user, alias)]
    {
      if AliasKey(user, alias) in selfaliases then Some(selfaliases[AliasKey(user, alias)]) else None
    }

    /** `selfalias_check`: the new content to re-dispatch, or `None` when the message is left
        alone: the author is a bot, the message already is a command, nothing was invoked, or
        the invoked name is not one of the author's shortcuts. */
    function SelfaliasCheck(authorBot: bool, isCommand: bool, user: UserId, prefix: string,
                            invoked: string, content: string): (r: Option<string>)
      reads this
      ensures r.Some? ==> !authorBot && !isCommand && invoked != [] && AliasKey(user, invoked) in selfaliases
      ensures r.Some? ==> selfaliases[AliasKey(user, invoked)] != []
      ensures r.Some? ==> r.value == ExpandAlias(prefix, selfaliases[AliasKey(user, invoked)], invoked, content)
      ensures (!authorBot && !isCommand && invoked != [] && AliasKey(user, invoked) in selfaliases
               && selfaliases[AliasKey(user, invoked)] != []) ==> r.Some?
    {
      if authorBot || isCommand || invoked == [] then None
      else
        match GetSelfalias(user, invoked)
        case None => None
        case Some(command) => if command == [] then None else Some(ExpandAlias(prefix, command, invoked, content))
    }

    /** `forcenickname add`: on an existing row only the nickname changes and the saved
        previous nickname stays; a new row saves the member's current nickname. The row is
        written whether or not the nickname edit raises `Forbidden`; `nick` is the member's
        nickname afterwards. `nickname` is the already shortened name. */
    method ForcenicknameAdd(guild: GuildId, member: NickMember, nickname: string, editOk: bool)
      returns (updated: bool, nick: Option<string>)
      requires Valid()
      modifies this`forcenick
      ensures Valid()
      ensures updated <==> MemberKey(guild, member.id) in old(forcenick)
      ensures forcenick == old(forcenick)[MemberKey(guild, member.id) :=
                if updated then ForceNick(nickname, old(forcenick)[MemberKey(guild, member.id)].previousNick)
                else ForceNick(nickname, member.nick)]
      ensures nick == if editOk then Some(nickname) else member.nick
    {
      var key := MemberKey(guild, member.id);
      updated := key in forcenick;
      if updated {
        forcenick := forcenick[key := forcenick[key].(nickname := nickname)];
      } else {
        forcenick := forcenick[key := ForceNick(nickname, member.nick)];
      }
      nick := if editOk then Some(nickname) else member.nick;
    }

    /** `forcenickname remove`: refused when there is no row; otherwise the row is deleted and
        the member's nickname is set back to the saved one. The row stays deleted when that
        edit raises `Forbidden`. */
    method ForcenicknameRemove(guild: GuildId, member: NickMember, editOk: bool)
      returns (found: bool, nick: Option<string>)
      requires Valid()
      modifies this`forcenick
      ensures Valid()
      ensures found <==> MemberKey(guild, member.id) in old(forcenick)
      ensures forcenick == old(forcenick) - {MemberKey(guild, member.id)}
      ensures nick == if found && editOk then old(forcenick)[MemberKey(guild, member.id)].previousNick else member.nick
    {
      var key := MemberKey(guild, member.id);
      nick := member.nick;
      if key !in forcenick {
        return false, nick;
      }
      var previous := forcenick[key].previousNick;
      forcenick := forcenick - {key};
      found := true;
      if editOk {
        nick := previous;
      }
    }

    /** `forcenickname reset`: every row of the guild goes, and only those. */
    method ForcenicknameReset(guild: GuildId)
      requires Valid()
      modifies this`forcenick
      ensures Valid()
      ensures forcenick == map k | k in old(forcenick) && k.guild != guild :: old(forcenick)[k]
    {
      forcenick := map k | k in forcenick && k.guild != guild :: forcenick[k];
    }

    /** `Forcenickname_check`: the nickname to put back after a member update, or `None` when
        the member has no row or already wears the forced nickname. */
    function ForcenicknameCheck(guild: GuildId, user: UserId, afterNick: Option<string>): (r: Option<string>)
      reads this
      ensures r.Some? <==> MemberKey(guild, user) in forcenick && afterNick != Some(forcenick[MemberKey(guild, user)].nickname)
      ensures r.Some? ==> r.value == forcenick[MemberKey(guild, user)].nickname
    {
      var key := MemberKey(guild, user);
      if key in forcenick && afterNick != Some(forcenick[key].nickname) then Some(forcenick[key].nickname) else None
    }
  }

  /** The update the check's own edit causes triggers nothing more: the handler settles after
      one edit instead of looping. */
  lemma ForcenicknameCheckSettles(db: DonatorDb, guild: GuildId, user: UserId, afterNick: Option<string>)
    ensures var r := db.ForcenicknameCheck(guild, user, afterNick);
            r.Some? ==> db.ForcenicknameCheck(guild, user, r) == None
  {
  }

  // ---------------------------------------------------------------------------------------
  // End-to-end scenarios over a fresh database

  /** The nickname saved by the first `forcenickname add` is the one `remove` hands back, even
      after the forced nickname was changed by a second `add`. */
  method ForcenickRoundTrip(guild: GuildId, member: NickMember, first: string, second: string)
    returns (restored: Option<string>)
    ensures restored == member.nick
  {
    var db := new DonatorDb.Empty();
    var updated, nick := db.ForcenicknameAdd(guild, member, first, true);
    updated, nick := db.ForcenicknameAdd(guild, member.(nick := nick), second, true);
    var found;
    found, restored := db.ForcenicknameRemove(guild, member.(nick := nick), true);
  }

  /** A shortcut added for a command is expanded in the author's next message. */
  method AliasAddThenRewrite(user: UserId, shortcut: string, command: string, prefix: string, rest: string)
    returns (added: AliasResult, rewritten: Option<string>)
    requires shortcut != [] && |shortcut| <= MaxShortcutLength && command != []
    ensures added == AliasAdded
    ensures rewritten == Some(Strip(prefix + command + " " + rest))
  {
    var db := new DonatorDb.Empty();
    added := db.SelfaliasAdd(user, shortcut, Some(command));
    ExpandAliasReplacesShortcut(prefix, command, shortcut, rest);
    rewritten := db.SelfaliasCheck(false, false, user, prefix, shortcut, prefix + shortcut + rest);
  }

  /** `selfalias reset` empties the caller's list and leaves another user's shortcut alone. */
  method AliasResetKeepsOthers(user: UserId, other: UserId, shortcut: string, command: string)
    returns (mine: map<string, string>, theirs: Option<string>)
    requires user != other && |shortcut| <= MaxShortcutLength
    ensures mine == map[]
    ensures theirs == Some(command)
  {
    var db := new DonatorDb.Empty();
    var added := db.SelfaliasAdd(user, shortcut, Some(command));
    added := db.SelfaliasAdd(other, shortcut, Some(command));
    db.SelfaliasReset(user);
    mine := db.SelfaliasList(user);
    theirs := db.GetSelfalias(other, shortcut);
  }
}
