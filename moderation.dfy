/**
 * The moderation cog's own tables and the two per-minute ticks that end timed punishments.
 *
 * Each table is a map from its key to its row; `ModerationDb` holds them and its methods are
 * the commands. Everything the commands learn from Discord (whether a guild or member
 * resolves, the guild's roles, whether a role edit, ban or unban call raises) arrives as a
 * parameter, and so does the current time.
 */
module Moderation {
  import opened Common
  import opened Text
  import opened Roles
  import opened Autoresponder

  /** A jail_config row: the jail channel and jail role of a guild. */
  datatype JailConfig = JailConfig(channel: ChannelId, role: RoleId)

  /** A jailed_members row: the role snapshot, when the member was jailed and for how many
      seconds. */
  datatype JailRecord = JailRecord(roles: seq<RoleId>, jailedAt: Timestamp, duration: nat)

  /** An autoresponder row, keyed by guild and lower-cased trigger. */
  datatype Response = Response(response: string, notStrict: bool, deleteTrigger: bool, reply: bool)
  datatype TriggerKey = TriggerKey(guild: GuildId, trigger: string)

  /** The member a jail command targets. */
  datatype Member = Member(id: UserId, bot: bool, roles: seq<Role>)

  /** A guild as the bot sees it during a tick: its roles and, for each member it can resolve,
      that member's role ids. A guild it cannot resolve is absent from the tick's map. */
  datatype Guild = Guild(roles: map<RoleId, Role>, members: map<UserId, set<RoleId>>)

  datatype JailResult = Jailed | IsBot | NotConfigured | AlreadyJailed | InvalidDuration | JailRoleMissing | EditRejected
  datatype UnjailResult = Unjailed | UnjailNotConfigured | NotJailed | UnjailRoleMissing | RestoreRejected
  /** `InsertFailed`: the ban went through, but the plain `INSERT` raised because the member
      already has a tempban row. */
  datatype TempbanResult = Tempbanned | TempbanInvalidDuration | BanRejected | InsertFailed
  /** `NotAMember`: the target resolved to a `User` rather than a `Member`, which has no
      `premium_since`, so the command raises before touching the table. */
  datatype HardbanResult = Hardbanned | NotAMember | AlreadyHardbanned

  /** What the jail tick did with one expired row; the first four are its `continue`s, in the
      order the source tests them. The role ids are the member's roles afterwards. */
  datatype TickAction = GuildMissing | MemberMissing | ConfigMissing | JailRoleGone
                      | CallsRejected(roles: set<RoleId>) | Restored(roles: set<RoleId>)

  /** How `guild.unban` ended: normally, with `NotFound` (the user was not banned), or with
      any other exception (printed and otherwise ignored). */
  datatype UnbanOutcome = UnbanOk | UnbanNotFound | UnbanError

  /** What the tempban tick did with one expired row. */
  datatype TempbanAction = TempbanGuildMissing | Lifted(outcome: UnbanOutcome)

  /** `if not delta`: the duration text parsed to nothing or to a zero span. */
  predicate ValidDelta(delta: Option<nat>) {
    delta.Some? && delta.value > 0
  }

  // ---------------------------------------------------------------------------------------
  // The jail tick, as a function of the table and of what Discord answers

  predicate JailExpired(rec: JailRecord, now: Timestamp) {
    rec.jailedAt + rec.duration <= now
  }

  /** The rows `SELECT ... WHERE jail_timestamp + duration <= now` returns. */
  function ExpiredJail(jailed: map<MemberKey, JailRecord>, now: Timestamp): set<MemberKey> {
    set k | k in jailed && JailExpired(jailed[k], now)
  }

  /** The branch the tick takes for one expired row: the role calls are made only once the
      guild, the member, the configuration and the jail role all resolve, and the release
      counts only when they all went through, handing back every role that still exists. */
  function JailTickAction(k: MemberKey, rec: JailRecord, configs: map<GuildId, JailConfig>,
                          guilds: map<GuildId, Guild>, calls: RoleCalls): (r: TickAction)
    ensures r.Restored? <==> CanRelease(k, configs, guilds, calls)
    ensures (r.Restored? || r.CallsRejected?) ==>
              && k.guild in guilds && k.user in guilds[k.guild].members
              && k.guild in configs && configs[k.guild].role in guilds[k.guild].roles
    ensures r.Restored? ==> IdSet(RolesToRestore(guilds[k.guild].roles, rec.roles)) <= r.roles
  {
    if k.guild !in guilds then GuildMissing
    else if k.user !in guilds[k.guild].members then MemberMissing
    else if k.guild !in configs then ConfigMissing
    else if configs[k.guild].role !in guilds[k.guild].roles then JailRoleGone
    else
      var g := guilds[k.guild];
      var after := AfterRestore(g.members[k.user], configs[k.guild].role, RolesToRestore(g.roles, rec.roles), calls);
      if calls == BothSucceeded then Restored(after) else CallsRejected(after)
  }

  /** The jailed_members table after one tick: exactly the expired rows whose release went
      through are gone. */
  function JailTick(jailed: map<MemberKey, JailRecord>, configs: map<GuildId, JailConfig>,
                    guilds: map<GuildId, Guild>, calls: MemberKey -> RoleCalls, now: Timestamp): map<MemberKey, JailRecord>
  {
    map k | k in jailed && !(JailExpired(jailed[k], now) && JailTickAction(k, jailed[k], configs, guilds, calls(k)).Restored?)
          :: jailed[k]
  }

  /** The release succeeds exactly when the guild, the member, the configuration and the jail
      role all resolve and both role calls go through. */
  predicate CanRelease(k: MemberKey, configs: map<GuildId, JailConfig>, guilds: map<GuildId, Guild>, calls: RoleCalls) {
    && k.guild in guilds
    && k.user in guilds[k.guild].members
    && k.guild in configs
    && configs[k.guild].role in guilds[k.guild].roles
    && calls == BothSucceeded
  }

  /** No row is deleted without a successful release, and every expired row whose release
      succeeds is deleted. */
  lemma JailTickDeletesExactlyReleased(jailed: map<MemberKey, JailRecord>, configs: map<GuildId, JailConfig>,
                                       guilds: map<GuildId, Guild>, calls: MemberKey -> RoleCalls, now: Timestamp, k: MemberKey)
    requires k in jailed
    ensures k !in JailTick(jailed, configs, guilds, calls, now)
            <==> JailExpired(jailed[k], now) && CanRelease(k, configs, guilds, calls(k))
  {
  }

  /** Rows the tick keeps are kept unchanged, and it adds none. */
  lemma JailTickKeepsRowsIntact(jailed: map<MemberKey, JailRecord>, configs: map<GuildId, JailConfig>,
                                guilds: map<GuildId, Guild>, calls: MemberKey -> RoleCalls, now: Timestamp)
    ensures var after := JailTick(jailed, configs, guilds, calls, now);
            forall k :: k in after ==> k in jailed && after[k] == jailed[k]
  {
  }

  /** A second tick against the same answers from Discord deletes nothing more: a row that
      could not be released stays for a later tick. */
  lemma JailTickIdempotent(jailed: map<MemberKey, JailRecord>, configs: map<GuildId, JailConfig>,
                           guilds: map<GuildId, Guild>, calls: MemberKey -> RoleCalls, now: Timestamp)
    ensures var once := JailTick(jailed, configs, guilds, calls, now);
            JailTick(once, configs, guilds, calls, now) == once
  {
  }

  /** The rows a tick has not released yet, given what it did to the rows it visited. */
  ghost function Unreleased(start: map<MemberKey, JailRecord>, actions: map<MemberKey, TickAction>): map<MemberKey, JailRecord> {
    map k | k in start && !(k in actions && actions[k].Restored?) :: start[k]
  }

  lemma UnreleasedHas(start: map<MemberKey, JailRecord>, actions: map<MemberKey, TickAction>, k: MemberKey)
    requires k in start && k !in actions
    ensures k in Unreleased(start, actions) && Unreleased(start, actions)[k] == start[k]
  {
  }

  /** Visiting one more row removes it exactly when it was released. */
  lemma UnreleasedStep(start: map<MemberKey, JailRecord>, actions: map<MemberKey, TickAction>, k: MemberKey, a: TickAction)
    requires k in start && k !in actions
    ensures Unreleased(start, actions[k := a])
            == if a.Restored? then Unreleased(start, actions) - {k} else Unreleased(start, actions)
  {
    var before := Unreleased(start, actions);
    var after := Unreleased(start, actions[k := a]);
    if a.Restored? {
      assert after.Keys == before.Keys - {k};
    } else {
      assert after.Keys == before.Keys;
    }
  }

  /** Once every expired row was visited with the tick's own branch, what is left is the
      table `JailTick` describes. */
  lemma UnreleasedIsJailTick(start: map<MemberKey, JailRecord>, configs: map<GuildId, JailConfig>,
                             guilds: map<GuildId, Guild>, calls: MemberKey -> RoleCalls, now: Timestamp,
                             actions: map<MemberKey, TickAction>)
    requires actions.Keys == ExpiredJail(start, now)
    requires forall k :: k in actions ==> actions[k] == JailTickAction(k, start[k], configs, guilds, calls(k))
    ensures Unreleased(start, actions) == JailTick(start, configs, guilds, calls, now)
  {
    assert Unreleased(start, actions).Keys == JailTick(start, configs, guilds, calls, now).Keys;
  }

  // ---------------------------------------------------------------------------------------
  // The tempban tick

  /** The branch the tempban tick takes for one expired row. */
  function TempbanTickAction(k: MemberKey, visible: set<GuildId>, unban: MemberKey -> UnbanOutcome): TempbanAction {
    if k.guild !in visible then TempbanGuildMissing else Lifted(unban(k))
  }

  /** The tempban table after one tick: an expired row of a guild the bot can see is deleted
      after the unban attempt, whatever that attempt raised; a row of a guild it cannot see is
      kept for a later tick. */
  function TempbanTick(tempbans: map<MemberKey, Timestamp>, visible: set<GuildId>, now: Timestamp): map<MemberKey, Timestamp> {
    map k | k in tempbans && !(tempbans[k] <= now && k.guild in visible) :: tempbans[k]
  }

  /** The tempban tick as the source has it: when `get_guild` gives `None` for an expired row,
      the `DELETE` still reads `guild.id` and raises, so the tick raises before it reaches its
      commit (`None`). Otherwise every expired row is deleted, and only those. */
  function TempbanTickAsWritten(tempbans: map<MemberKey, Timestamp>, visible: set<GuildId>, now: Timestamp): (r: Option<map<MemberKey, Timestamp>>)
    ensures r.None? <==> exists k :: k in tempbans && tempbans[k] <= now && k.guild !in visible
    ensures r.Some? ==> forall k :: k in r.value <==> k in tempbans && now < tempbans[k]
  {
    if exists k :: k in tempbans && tempbans[k] <= now && k.guild !in visible then None
    else Some(map k | k in tempbans && !(tempbans[k] <= now) :: tempbans[k])
  }

  /** Rows ending later than now are untouched; an expired row goes exactly when its guild
      resolves. */
  lemma TempbanTickDeletesExpiredVisible(tempbans: map<MemberKey, Timestamp>, visible: set<GuildId>, now: Timestamp, k: MemberKey)
    requires k in tempbans
    ensures now < tempbans[k] ==> k in TempbanTick(tempbans, visible, now) && TempbanTick(tempbans, visible, now)[k] == tempbans[k]
    ensures k !in TempbanTick(tempbans, visible, now) <==> tempbans[k] <= now && k.guild in visible
  {
  }

  /** Where no expired row belongs to a vanished guild, the source's tick and the corrected
      one agree. */
  lemma TempbanTickAgreesWhenGuildsResolve(tempbans: map<MemberKey, Timestamp>, visible: set<GuildId>, now: Timestamp)
    requires forall k :: k in tempbans && tempbans[k] <= now ==> k.guild in visible
    ensures TempbanTickAsWritten(tempbans, visible, now) == Some(TempbanTick(tempbans, visible, now))
  {
    var expiredGone := map k | k in tempbans && !(tempbans[k] <= now) :: tempbans[k];
    assert expiredGone.Keys == TempbanTick(tempbans, visible, now).Keys;
  }

  /** One expired row of a guild the bot has left makes the source's tick raise before its
      commit, even though another expired row could be lifted; the corrected tick lifts that
      other row and keeps the first. */
  lemma TempbanTickAsWrittenStalls()
    ensures var tempbans := map[MemberKey(1, 10) := 0, MemberKey(2, 20) := 0];
            && TempbanTickAsWritten(tempbans, {1}, 60) == None
            && TempbanTick(tempbans, {1}, 60) == map[MemberKey(2, 20) := 0]
  {
    var tempbans := map[MemberKey(1, 10) := 0, MemberKey(2, 20) := 0];
    assert MemberKey(2, 20) in tempbans && MemberKey(2, 20).guild !in {1};
    var after := TempbanTick(tempbans, {1}, 60);
    assert MemberKey(1, 10) !in after;
    assert MemberKey(2, 20) in after;
    assert after.Keys == {MemberKey(2, 20)};
  }

  // ---------------------------------------------------------------------------------------
  // The tables and the commands

  class ModerationDb {
    var jailConfig: map<GuildId, JailConfig>
    var jailed: map<MemberKey, JailRecord>
    var tempbans: map<MemberKey, Timestamp>
    var hardbanned: map<MemberKey, string>
    var stickyMessages: map<ChannelKey, string>
    var autoresponders: map<TriggerKey, Response>

    /** Every jailed member belongs to a guild with a jail configuration (unsetjail removes a
        guild's jailed rows with its configuration), every jail lasts a positive time, and
        autoresponder triggers are stored lower-cased. */
    ghost predicate Valid()
      reads this
    {
      && (forall k :: k in jailed ==> k.guild in jailConfig && jailed[k].duration > 0)
      && (forall t :: t in autoresponders ==> Lower(t.trigger) == t.trigger)
    }

    constructor Empty()
      ensures Valid()
      ensures jailConfig == map[] && jailed == map[] && tempbans == map[]
      ensures hardbanned == map[] && stickyMessages == map[] && autoresponders == map[]
    {
      jailConfig, jailed, tempbans := map[], map[], map[];
      hardbanned, stickyMessages, autoresponders := map[], map[], map[];
    }

    /** `setjail`: refused when the guild is configured; `created` is the jail role and channel
        Discord created, `None` when a creation call raised. */
    method SetJail(guild: GuildId, created: Option<JailConfig>) returns (ok: bool)
      requires Valid()
      modifies this`jailConfig
      ensures Valid()
      ensures ok <==> guild !in old(jailConfig) && created.Some?
      ensures jailConfig == if ok then old(jailConfig)[guild := created.value] else old(jailConfig)
    {
      if guild in jailConfig {
        return false;
      }
      if created.None? {
        return false;
      }
      jailConfig := jailConfig[guild := created.value];
      ok := true;
    }

    /** `unsetjail`: refused when the guild is not configured; otherwise the configuration and
        every jailed row of the guild are deleted (deleting the role and channel is best
        effort and touches no table). */
    method UnsetJail(guild: GuildId) returns (ok: bool)
      requires Valid()
      modifies this`jailConfig, this`jailed
      ensures Valid()
      ensures ok <==> guild in old(jailConfig)
      ensures jailConfig == old(jailConfig) - {guild}
      ensures jailed == if ok then map k | k in old(jailed) && k.guild != guild :: old(jailed)[k] else old(jailed)
    {
      if guild !in jailConfig {
        return false;
      }
      jailConfig := jailConfig - {guild};
      jailed := map k | k in jailed && k.guild != guild :: jailed[k];
      ok := true;
    }

    /** `jail`: the checks run in the source's order and a refusal writes nothing. The row is
        inserted before `member.edit`; when the edit raises it is rolled back, so it is kept
        only when the member's roles became the jail role plus the managed ones. `roles` is the
        member's role list afterwards. */
    method Jail(guild: GuildId, guildRoles: map<RoleId, Role>, member: Member, delta: Option<nat>,
                now: Timestamp, editOk: bool)
      returns (res: JailResult, roles: seq<Role>)
      requires Valid()
      modifies this`jailed
      ensures Valid()
      ensures res == (if member.bot then IsBot
                      else if guild !in jailConfig then NotConfigured
                      else if MemberKey(guild, member.id) in old(jailed) then AlreadyJailed
                      else if !ValidDelta(delta) then InvalidDuration
                      else if jailConfig[guild].role !in guildRoles then JailRoleMissing
                      else if !editOk then EditRejected
                      else Jailed)
      ensures res == Jailed ==>
                && jailed == old(jailed)[MemberKey(guild, member.id) := JailRecord(Snapshot(member.roles), now, delta.value)]
                && roles == IsolatedRoles(guildRoles[jailConfig[guild].role], member.roles)
      ensures res != Jailed ==> jailed == old(jailed) && roles == member.roles
    {
      var key := MemberKey(guild, member.id);
      roles := member.roles;
      if member.bot {
        return IsBot, roles;
      }
      if guild !in jailConfig {
        return NotConfigured, roles;
      }
      if key in jailed {
        return AlreadyJailed, roles;
      }
      if !ValidDelta(delta) {
        return InvalidDuration, roles;
      }
      var snapshot := Snapshot(member.roles);
      var jailRole := jailConfig[guild].role;
      if jailRole !in guildRoles {
        return JailRoleMissing, roles;
      }
      var committed := jailed;
      jailed := jailed[key := JailRecord(snapshot, now, delta.value)];
      if !editOk {
        jailed := committed;
        return EditRejected, roles;
      }
      roles := IsolatedRoles(guildRoles[jailRole], member.roles);
      res := Jailed;
    }

    /** `unjail`: refused when the guild is not configured or the member is not jailed. The
        jail role is removed, then the snapshot roles that still exist are added; the row is
        deleted only when both calls went through. `roles` is the member's role ids afterwards. */
    method Unjail(guild: GuildId, guildRoles: map<RoleId, Role>, member: Member, calls: RoleCalls)
      returns (res: UnjailResult, roles: set<RoleId>)
      requires Valid()
      modifies this`jailed
      ensures Valid()
      ensures var key := MemberKey(guild, member.id);
              res == (if guild !in jailConfig then UnjailNotConfigured
                      else if key !in old(jailed) then NotJailed
                      else if jailConfig[guild].role !in guildRoles then UnjailRoleMissing
                      else if calls != BothSucceeded then RestoreRejected
                      else Unjailed)
      ensures jailed == if res == Unjailed then old(jailed) - {MemberKey(guild, member.id)} else old(jailed)
      ensures roles == if res == Unjailed || res == RestoreRejected
                       then AfterRestore(IdSet(member.roles), jailConfig[guild].role,
                                         RolesToRestore(guildRoles, old(jailed)[MemberKey(guild, member.id)].roles), calls)
                       else IdSet(member.roles)
    {
      var key := MemberKey(guild, member.id);
      roles := IdSet(member.roles);
      if guild !in jailConfig {
        return UnjailNotConfigured, roles;
      }
      if key !in jailed {
        return NotJailed, roles;
      }
      var jailRole := jailConfig[guild].role;
      var restore := RolesToRestore(guildRoles, jailed[key].roles);
      if jailRole !in guildRoles {
        return UnjailRoleMissing, roles;
      }
      roles := AfterRestore(roles, jailRole, restore, calls);
      if calls != BothSucceeded {
        return RestoreRejected, roles;
      }
      jailed := jailed - {key};
      res := Unjailed;
    }

    /** `tempban`: refused for an unusable duration; the ban is made first and, when it does not
        raise, the row ending `delta` seconds from now is written. */
    method Tempban(guild: GuildId, user: UserId, delta: Option<nat>, now: Timestamp, banOk: bool)
      returns (res: TempbanResult)
      requires Valid()
      modifies this`tempbans
      ensures Valid()
      ensures res == (if !ValidDelta(delta) then TempbanInvalidDuration
                      else if !banOk then BanRejected
                      else if MemberKey(guild, user) in old(tempbans) then InsertFailed
                      else Tempbanned)
      ensures tempbans == if res == Tempbanned then old(tempbans)[MemberKey(guild, user) := now + delta.value] else old(tempbans)
    {
      if !ValidDelta(delta) {
        return TempbanInvalidDuration;
      }
      if !banOk {
        return BanRejected;
      }
      // the ban has been made; only now does the insert meet the existing row
      if MemberKey(guild, user) in tempbans {
        return InsertFailed;
      }
      tempbans := tempbans[MemberKey(guild, user) := now + delta.value];
      res := Tempbanned;
    }

    /** `hardban`: refused when the user is already hardbanned; the row is written before the
        ban call, whose failure is suppressed. */
    method Hardban(guild: GuildId, user: UserId, isMember: bool, reason: string) returns (res: HardbanResult)
      requires Valid()
      modifies this`hardbanned
      ensures Valid()
      ensures res == (if !isMember then NotAMember
                      else if MemberKey(guild, user) in old(hardbanned) then AlreadyHardbanned
                      else Hardbanned)
      ensures hardbanned == if res == Hardbanned then old(hardbanned)[MemberKey(guild, user) := reason] else old(hardbanned)
    {
      if !isMember {
        return NotAMember;
      }
      var key := MemberKey(guild, user);
      if key in hardbanned {
        return AlreadyHardbanned;
      }
      hardbanned := hardbanned[key := reason];
      res := Hardbanned;
    }

    /** `unhardban`: refused when the user is not hardbanned; otherwise exactly that row goes. */
    method Unhardban(guild: GuildId, user: UserId) returns (ok: bool)
      requires Valid()
      modifies this`hardbanned
      ensures Valid()
      ensures ok <==> MemberKey(guild, user) in old(hardbanned)
      ensures hardbanned == old(hardbanned) - {MemberKey(guild, user)}
    {
      var key := MemberKey(guild, user);
      if key !in hardbanned {
        return false;
      }
      hardbanned := hardbanned - {key};
      ok := true;
    }

    /** `stickymessage add`: refused when the channel already has one. */
    method StickyAdd(guild: GuildId, channel: ChannelId, message: string) returns (ok: bool)
      requires Valid()
      modifies this`stickyMessages
      ensures Valid()
      ensures ok <==> ChannelKey(guild, channel) !in old(stickyMessages)
      ensures stickyMessages == if ok then old(stickyMessages)[ChannelKey(guild, channel) := message] else old(stickyMessages)
    {
      var key := ChannelKey(guild, channel);
      if key in stickyMessages {
        return false;
      }
      stickyMessages := stickyMessages[key := message];
      ok := true;
    }

    /** `stickymessage remove`: refused when the channel has none. */
    method StickyRemove(guild: GuildId, channel: ChannelId) returns (ok: bool)
      requires Valid()
      modifies this`stickyMessages
      ensures Valid()
      ensures ok <==> ChannelKey(guild, channel) in old(stickyMessages)
      ensures stickyMessages == old(stickyMessages) - {ChannelKey(guild, channel)}
    {
      var key := ChannelKey(guild, channel);
      if key !in stickyMessages {
        return false;
      }
      stickyMessages := stickyMessages - {key};
      ok := true;
    }

    /** `stickymessage reset`: every sticky message of the guild goes, and only those. */
    method StickyReset(guild: GuildId)
      requires Valid()
      modifies this`stickyMessages
      ensures Valid()
      ensures stickyMessages == map k | k in old(stickyMessages) && k.guild != guild :: old(stickyMessages)[k]
    {
      stickyMessages := map k | k in stickyMessages && k.guild != guild :: stickyMessages[k];
    }

    /** `autoresponder add`: a parse failure writes nothing; otherwise the row keyed by the
        lower-cased trigger is inserted or replaced. */
    method AutoresponderAdd(guild: GuildId, code: string) returns (r: Result<Autoresponse, ParseError>)
      requires Valid()
      modifies this`autoresponders
      ensures Valid()
      ensures r == Parse(code)
      ensures autoresponders == if r.Failure? then old(autoresponders)
                                else old(autoresponders)[TriggerKey(guild, Lower(r.value.trigger)) :=
                                       Response(r.value.response, r.value.notStrict, r.value.deleteTrigger, r.value.reply)]
    {
      r := Parse(code);
      if r.Failure? {
        return;
      }
      var a := r.value;
      LowerIdempotent(a.trigger);
      autoresponders := autoresponders[TriggerKey(guild, Lower(a.trigger)) := Response(a.response, a.notStrict, a.deleteTrigger, a.reply)];
    }

    /** `autoresponder remove`: deletes the row of the lower-cased trigger and reports whether
        there was one. */
    method AutoresponderRemove(guild: GuildId, trigger: string) returns (removed: bool)
      requires Valid()
      modifies this`autoresponders
      ensures Valid()
      ensures removed <==> TriggerKey(guild, Lower(trigger)) in old(autoresponders)
      ensures autoresponders == old(autoresponders) - {TriggerKey(guild, Lower(trigger))}
    {
      var key := TriggerKey(guild, Lower(trigger));
      removed := key in autoresponders;
      autoresponders := autoresponders - {key};
    }

    /** `check_jail_duration`, one tick: every expired row is visited once, in any order; each
        `continue` keeps its row, and a row is deleted only after the jail role was removed and
        the saved roles were added back. */
    method CheckJailDuration(now: Timestamp, guilds: map<GuildId, Guild>, calls: MemberKey -> RoleCalls)
      returns (actions: map<MemberKey, TickAction>)
      requires Valid()
      modifies this`jailed
      ensures Valid()
      ensures actions.Keys == ExpiredJail(old(jailed), now)
      ensures forall k :: k in actions ==> actions[k] == JailTickAction(k, old(jailed)[k], jailConfig, guilds, calls(k))
      ensures jailed == JailTick(old(jailed), jailConfig, guilds, calls, now)
      ensures forall k :: k in actions ==> !actions[k].ConfigMissing?
    {
      ghost var start := jailed;
      var due := ExpiredJail(jailed, now);
      var todo := due;
      actions := map[];
      while todo != {}
        invariant todo <= due
        invariant actions.Keys == due - todo
        invariant forall k :: k in actions ==> actions[k] == JailTickAction(k, start[k], jailConfig, guilds, calls(k))
        invariant jailed == Unreleased(start, actions)
        decreases todo
      {
        var k :| k in todo;
        todo := todo - {k};
        UnreleasedHas(start, actions, k);
        var rec := jailed[k];
        var action;
        if k.guild !in guilds {
          action := GuildMissing;
        } else if k.user !in guilds[k.guild].members {
          action := MemberMissing;
        } else if k.guild !in jailConfig {
          action := ConfigMissing;
        } else if jailConfig[k.guild].role !in guilds[k.guild].roles {
          action := JailRoleGone;
        } else {
          var guild := guilds[k.guild];
          var jailRole := jailConfig[k.guild].role;
          var after := AfterRestore(guild.members[k.user], jailRole, RolesToRestore(guild.roles, rec.roles), calls(k));
          if calls(k) != BothSucceeded {
            action := CallsRejected(after);
          } else {
            jailed := jailed - {k};
            action := Restored(after);
          }
        }
        UnreleasedStep(start, actions, k, action);
        actions := actions[k := action];
      }
      UnreleasedIsJailTick(start, jailConfig, guilds, calls, now, actions);
    }

    /** `tempban_check`, one tick, with the unresolved guild treated as transient: rows ending
        later than now are untouched; an expired row of a visible guild is deleted after the
        unban attempt, whatever it raised; an expired row of a vanished guild is kept. */
    method TempbanCheck(now: Timestamp, visible: set<GuildId>, unban: MemberKey -> UnbanOutcome)
      returns (actions: map<MemberKey, TempbanAction>)
      requires Valid()
      modifies this`tempbans
      ensures Valid()
      ensures actions.Keys == set k | k in old(tempbans) && old(tempbans)[k] <= now
      ensures forall k :: k in actions ==> actions[k] == TempbanTickAction(k, visible, unban)
      ensures tempbans == TempbanTick(old(tempbans), visible, now)
    {
      ghost var start := tempbans;
      var due := set k | k in tempbans && tempbans[k] <= now;
      var todo := due;
      actions := map[];
      while todo != {}
        invariant todo <= due
        invariant actions.Keys == due - todo
        invariant forall k :: k in actions ==> actions[k] == TempbanTickAction(k, visible, unban)
        invariant tempbans == map k | k in start && !(k in actions && actions[k].Lifted?) :: start[k]
        decreases todo
      {
        var k :| k in todo;
        todo := todo - {k};
        if k.guild !in visible {
          actions := actions[k := TempbanGuildMissing];
          continue;
        }
        var outcome := unban(k);
        tempbans := tempbans - {k};
        actions := actions[k := Lifted(outcome)];
      }
      assert tempbans == TempbanTick(start, visible, now);
    }
  }

  // ---------------------------------------------------------------------------------------
  // End-to-end scenarios over a fresh database

  /** A member jailed for `delta` seconds is released by the tick `delta` seconds later: the
      tick restores every role but the default one and the row is gone. */
  method JailThenExpire(guild: GuildId, config: JailConfig, guildRoles: map<RoleId, Role>, member: Member,
                        delta: nat, now: Timestamp)
    returns (jailResult: JailResult, action: TickAction, stillJailed: bool)
    requires !member.bot && delta > 0
    requires config.role in guildRoles && guildRoles[config.role].id == config.role && Assignable(guildRoles[config.role])
    requires forall r :: r in member.roles && r.managed ==> r.id != config.role && !r.isDefault
    requires forall r :: r in member.roles && Assignable(r) ==> r.id != 0 && r.id in guildRoles && guildRoles[r.id].id == r.id
    ensures jailResult == Jailed
    ensures action == Restored(set r | r in member.roles && !r.isDefault :: r.id)
    ensures !stillJailed
  {
    var db := new ModerationDb.Empty();
    var configured := db.SetJail(guild, Some(config));
    var roles;
    jailResult, roles := db.Jail(guild, guildRoles, member, Some(delta), now, true);
    var key := MemberKey(guild, member.id);
    var rec := JailRecord(Snapshot(member.roles), now, delta);
    assert db.jailConfig == map[guild := config];
    assert db.jailed == map[key := rec];
    assert roles == IsolatedRoles(guildRoles[config.role], member.roles);
    var seen := Guild(guildRoles, map[member.id := IdSet(roles)]);
    var guilds := map[guild := seen];
    JailRoundTrip(member.roles, guildRoles[config.role], guildRoles);
    ghost var expected := Restored(set r | r in member.roles && !r.isDefault :: r.id);
    assert JailTickAction(key, rec, db.jailConfig, guilds, BothSucceeded) == expected;
    assert ExpiredJail(db.jailed, now + delta) == {key};
    var actions := db.CheckJailDuration(now + delta, guilds, k => BothSucceeded);
    action := actions[key];
    stillJailed := key in db.jailed;
  }

  /** When the guild cannot be resolved at expiry the row survives the tick untouched, and the
      next tick that sees the guild releases the member. */
  method JailRetriedUntilGuildResolves(guild: GuildId, config: JailConfig, guildRoles: map<RoleId, Role>,
                                       member: Member, delta: nat, now: Timestamp)
    returns (first: TickAction, keptAfterFirst: bool, second: TickAction, keptAfterSecond: bool)
    requires !member.bot && delta > 0 && config.role in guildRoles
    ensures first == GuildMissing && keptAfterFirst
    ensures second.Restored? && !keptAfterSecond
  {
    var db := new ModerationDb.Empty();
    var configured := db.SetJail(guild, Some(config));
    var jailResult, roles := db.Jail(guild, guildRoles, member, Some(delta), now, true);
    var key := MemberKey(guild, member.id);
    var actions := db.CheckJailDuration(now + delta, map[], k => BothSucceeded);
    first := actions[key];
    keptAfterFirst := key in db.jailed;
    var seen := Guild(guildRoles, map[member.id := IdSet(roles)]);
    actions := db.CheckJailDuration(now + delta + 60, map[guild := seen], k => BothSucceeded);
    second := actions[key];
    keptAfterSecond := key in db.jailed;
  }

  /** An autoresponder created from its rendered argument is stored under its lower-cased
      trigger, and `autoresponder remove` with the trigger as typed deletes it again. */
  method AutoresponderAddThenRemove(guild: GuildId, a: Autoresponse)
    returns (added: Result<Autoresponse, ParseError>, removed: bool, left: map<TriggerKey, Response>)
    requires Renderable(a)
    ensures added == Success(a)
    ensures removed && left == map[]
  {
    var db := new ModerationDb.Empty();
    ParseRender(a);
    added := db.AutoresponderAdd(guild, Render(a));
    removed := db.AutoresponderRemove(guild, a.trigger);
    left := db.autoresponders;
  }

  /** A tempban is lifted by the first tick at or after its end time once its guild is
      visible, and not by an earlier one. */
  method TempbanThenExpire(guild: GuildId, user: UserId, delta: nat, now: Timestamp, unban: MemberKey -> UnbanOutcome)
    returns (early: bool, late: TempbanAction, kept: bool)
    requires delta > 0
    ensures early && late.Lifted? && !kept
  {
    var db := new ModerationDb.Empty();
    var res := db.Tempban(guild, user, Some(delta), now, true);
    var key := MemberKey(guild, user);
    var actions := db.TempbanCheck(now + delta - 1, {guild}, unban);
    early := key in db.tempbans;
    actions := db.TempbanCheck(now + delta, {guild}, unban);
    late := actions[key];
    kept := key in db.tempbans;
  }

  /** A second tempban of a member who still has a row bans again but fails on the insert,
      so the member stays banned only until the first end time. */
  method TempbanTwiceKeepsFirst(guild: GuildId, user: UserId, first: nat, second: nat, now: Timestamp)
    returns (res1: TempbanResult, res2: TempbanResult, end: Timestamp)
    requires first > 0 && second > 0
    ensures res1 == Tempbanned && res2 == InsertFailed
    ensures end == now + first
  {
    var db := new ModerationDb.Empty();
    res1 := db.Tempban(guild, user, Some(first), now, true);
    res2 := db.Tempban(guild, user, Some(second), now, true);
    end := db.tempbans[MemberKey(guild, user)];
  }
}
