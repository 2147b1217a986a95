# Timed suspensions, keyed moderation tables and donator tables

This project models the state-keeping core of a Discord moderation bot and proves properties of it.

**`moderation1.py`** keeps these tables:
- `jail_config`: per guild, the jail role and the jail channel;
- `jailed_members`: per guild and member, the role snapshot, the jail time and the duration;
- `tempban`: per guild and user, the end time;
- `hardbanned`: per guild and user, the reason;
- `stickymessage`: per guild and channel, the message;
- `autoresponder`: per guild and lower-cased trigger, the response and three flags.

Its commands add rows to these tables and remove them. Two per-minute ticks end timed punishments:
- `check_jail_duration` hands expired prisoners their roles back;
- `tempban_check` lifts expired bans.

**`donator.py`** keeps two tables:
- `selfaliases`: per user, command shortcuts. A message listener expands them.
- `forcenick`: per guild and member, a locked nickname plus the nickname the member had before. A member-update listener puts the locked nickname back.

Each table is a Dafny `map` from its key to its row, held in a class whose methods are the commands:
- `Moderation.ModerationDb` for the moderation tables;
- `Donator.DonatorDb` for the donator tables.

Everything a command learns from Discord arrives as a parameter:
- whether a guild or member resolves;
- the guild's roles;
- whether a role edit, ban, unban or nickname edit raises.

The current time is a parameter too. The duration parser `humanize_duration` is modelled by its result `Option<nat>`.

Each tick is a method with a loop over the expired rows. It is proved equal to a specification function of the table (`JailTick`, `TempbanTick`), and the lemmas about those functions carry the tick's promises:
- no jail row is deleted without a successful release;
- kept rows are unchanged;
- a second tick deletes nothing more.

Pure parts are functions with lemmas:
- the role snapshot, the isolation role list and the restore list (module `Roles`);
- the parsing of `autoresponder add` (module `Autoresponder`, with a parse-after-render round trip);
- the selfalias rewrite;
- Python's `strip`, `split` and `lower` (module `Text`).

Scenario methods run the commands on a fresh database:
- jail, then release by the tick;
- a release retried after the guild comes back;
- tempban, then expiry;
- autoresponder add, then remove;
- forcenickname add, add again, then remove;
- selfalias add, then rewrite;
- selfalias reset.

Three points of the code's behaviour shape the model:
- **Order of the jail write.** `jail` inserts the `jailed_members` row first, then calls `member.edit`, and rolls the insert back when the edit raises `HTTPException` (moderation1.py:1987-2000). `ModerationDb.Jail` does the same.
- **Repeated tempbans.** `tempban` does not look for an existing row before its plain `INSERT` (moderation1.py:826-836), and the ban is made before the insert. The model keeps one row per (guild, user), so a second `tempban` of the same member bans again, the insert fails, and the first end time stays.
- **Ending a tempban.** No command removes a `tempban` row; only the tick does.

## Model

| member | source | states |
|---|---|---|
| Text.Strip | moderation1.py:921 | `str.strip`: the result is a slice of the input with only whitespace (Python's `isspace` set) dropped before and after it, and it neither starts nor ends with whitespace |
| Text.StripEmptyIff | moderation1.py:921-924 | a field strips to the empty string exactly when it is all whitespace, which is when `not trigger or not response` refuses it |
| Text.StripCharacterized | moderation1.py:921 | any infix with only whitespace before and after it, which neither starts nor ends with whitespace, is the strip |
| Text.StripKeepsVisibleHead | donator.py:699 | stripping keeps a head that starts and ends with a visible character whole at the front |
| Text.StripKeepsAbsent | moderation1.py:921 | a character missing from a field is missing from its strip, so a trigger cut before the first comma has no comma |
| Text.StripOfStripped | moderation1.py:921 | a string that is already stripped is its own strip |
| Text.StripLeadingSpace | moderation1.py:921 | leading whitespace, such as the space after the comma, does not survive the strip |
| Text.Lower | moderation1.py:938 | `trigger.lower()` keeps the length and lower-cases each character |
| Text.LowerIdempotent | moderation1.py:938 | lower-casing a stored (already lower-cased) trigger changes nothing |
| Text.Tail | donator.py:697 | `content[n:]` is what follows the first n characters, and is empty once n runs past the end |
| Text.SplitOn | moderation1.py:920 | `code.split(" --")` gives at least one piece, joining the pieces with the separator gives the input back, and no piece contains the separator |
| Text.SplitOnce | moderation1.py:921 | `split(",", 1)` fails to give two parts exactly when there is no comma; otherwise the parts are the text before the first comma and everything after it |
| Text.FirstCutUnique | moderation1.py:921 | the cut at the first comma is the only cut whose left part has no comma |
| Roles.Snapshot | moderation1.py:1981 | the stored snapshot holds exactly the ids of the member's roles that are neither the default role nor managed |
| Roles.ManagedRoles | moderation1.py:1995 | exactly the member's managed roles |
| Roles.IsolatedRoles | moderation1.py:1995 | the jailed member's new role list starts with the jail role, and a role is in it exactly when it is the jail role or one of the member's managed roles |
| Roles.RolesToRestore | moderation1.py:2065-2069 | the roles added back are exactly the roles that non-zero snapshot ids still name in the guild; ids of deleted roles are skipped |
| Roles.AfterRestore | moderation1.py:2068-2069 | when the jail-role removal raises, the roles are unchanged; otherwise the jail role goes, and `add_roles`, which sends one request per role, leaves the first roles it managed to add: all of the restore list when every request succeeded, never a role outside the member's roles and the restore list |
| Roles.RetryAfterFailedRestore | moderation1.py:2068-2069 | a release that fails partway and is retried with both calls succeeding ends with the same roles as one successful release |
| Roles.RestoreAllIds | moderation1.py:2065 | when every snapshot id still names its role, the restored ids are exactly the snapshot ids |
| Roles.JailRoundTrip | moderation1.py:1981-2069 | jailing and then releasing, with both role calls succeeding, gives back exactly the member's non-default roles |
| Autoresponder.Parse | moderation1.py:920-928 | a successful parse has a non-empty, stripped trigger without a comma and a non-empty, stripped response; the parse fails with `ValueError` exactly when the text before the first `" --"` has no comma |
| Autoresponder.ParseJoin | moderation1.py:920-928 | for every argument whose head has a comma: the trigger is the text before the first comma, stripped; the response is the rest of the head, stripped; each flag is set exactly when its name is one of the later pieces, whatever their order, repetitions or other pieces; a blank trigger or response is refused |
| Autoresponder.ParseEmptyFieldIff | moderation1.py:921-924 | once the head has a comma, the parse fails exactly when the text before the first comma or the text after it is blank, and then with the empty-field refusal |
| Autoresponder.RejectsWithoutComma | moderation1.py:920-959 | an argument without a comma is refused as `ValueError`, whatever its flags |
| Autoresponder.SplitJoin | moderation1.py:920 | splitting on `" --"` undoes joining pieces that do not contain it |
| Autoresponder.ParseRender | moderation1.py:920-928 | parsing `trigger, response --flag ...` gives back that trigger, response and exactly those flags |
| Moderation.JailTickDeletesExactlyReleased | moderation1.py:2331-2383 | after a tick, a row is gone exactly when it had expired and the guild, member, configuration and jail role resolved and both role calls succeeded |
| Moderation.JailTickKeepsRowsIntact | moderation1.py:2342-2383 | the tick adds no row and leaves every row it keeps unchanged |
| Moderation.JailTickIdempotent | moderation1.py:2331-2396 | a second tick with the same answers from Discord deletes nothing more |
| Moderation.TempbanTickDeletesExpiredVisible | moderation1.py:2410-2430 | rows ending later than now stay unchanged, and an expired row is deleted exactly when its guild resolves, whatever the unban raised |
| Moderation.TempbanTickAgreesWhenGuildsResolve | moderation1.py:2410-2432 | when every expired row's guild resolves, the tick as written and the corrected tick give the same table |
| Moderation.JailTickAction | moderation1.py:2343-2374 | the release succeeds exactly when the guild, the member, the configuration and the jail role resolve and both role calls succeed; the role calls are made only once all four resolve; a success hands back every snapshot role that still exists |
| Moderation.TempbanTickAsWritten | moderation1.py:2410-2432 | the tick as written raises exactly when some expired row's guild does not resolve; otherwise the rows left are exactly those ending later than now |
| Moderation.TempbanTickAsWrittenStalls | moderation1.py:2414-2432 | one expired row of a guild the bot has left makes the tick as written raise before its commit at moderation1.py:2432, while the corrected tick lifts the other expired row |
| Moderation.ModerationDb.SetJail | moderation1.py:1814-1856 | refused when the guild is configured or a creation call raised; otherwise exactly the guild's configuration is written |
| Moderation.ModerationDb.UnsetJail | moderation1.py:1878-1919 | refused when the guild is not configured; otherwise the configuration and every jailed row of that guild go, and nothing else does |
| Moderation.ModerationDb.Jail | moderation1.py:1944-2000 | the refusals happen in the source's order (bot, not configured, already jailed, no usable duration, jail role missing) and write nothing; a failed role edit rolls the insert back; on success the row holds the snapshot, the time and the duration, and the roles become the jail role plus the managed ones |
| Moderation.ModerationDb.Unjail | moderation1.py:2041-2080 | refused when not configured or not jailed; the row goes only when both role calls succeed; the member's roles after a release attempt are `AfterRestore` of the role calls' outcome, including a partial `add_roles` |
| Moderation.ModerationDb.Tempban | moderation1.py:817-836 | an unusable duration or a ban that raises writes nothing; a member who already has a row is banned again but the insert fails and the row keeps its end time; otherwise the new row ends `delta` seconds from now |
| Moderation.ModerationDb.Hardban | moderation1.py:674-698 | a target that is not a guild member raises at `premium_since` and writes nothing; refused when the user is already hardbanned; otherwise exactly that row is written |
| Moderation.ModerationDb.Unhardban | moderation1.py:724-745 | refused when the user is not hardbanned; otherwise exactly that row goes |
| Moderation.ModerationDb.StickyAdd | moderation1.py:2141-2159 | refused when the channel already has a sticky message; otherwise exactly that row is written |
| Moderation.ModerationDb.StickyRemove | moderation1.py:2184-2204 | refused when the channel has none; otherwise exactly that row goes |
| Moderation.ModerationDb.StickyReset | moderation1.py:2298-2303 | every sticky message of the guild goes, and only those |
| Moderation.ModerationDb.AutoresponderAdd | moderation1.py:920-945 | a parse failure writes nothing; otherwise the row of the lower-cased trigger is inserted or replaced, and stored triggers stay lower-case |
| Moderation.ModerationDb.AutoresponderRemove | moderation1.py:981-991 | deletes the row of the lower-cased trigger and reports whether there was one |
| Moderation.ModerationDb.CheckJailDuration | moderation1.py:2331-2396 | visits exactly the expired rows, takes for each the branch the source takes, and leaves the table as `JailTick` says |
| Moderation.ModerationDb.TempbanCheck | moderation1.py:2400-2432 | visits exactly the expired rows and leaves the table as the corrected `TempbanTick` says |
| Moderation.JailThenExpire | moderation1.py:1981-2383 | a member jailed for `delta` seconds is released by the tick `delta` seconds later, gets back every non-default role, and their row is gone |
| Moderation.JailRetriedUntilGuildResolves | moderation1.py:2343-2383 | a tick that cannot resolve the guild keeps the row; a later tick that can resolve it releases the member |
| Moderation.AutoresponderAddThenRemove | moderation1.py:920-991 | an autoresponder added from its rendered argument parses back to itself, and removing it by its trigger as typed empties the table |
| Moderation.TempbanThenExpire | moderation1.py:2410-2430 | a tempban survives a tick before its end time and is lifted by the tick at its end time |
| Moderation.TempbanTwiceKeepsFirst | moderation1.py:826-836 | a second tempban of a member who still has a row fails on the insert, and the row keeps the first end time |
| Donator.ExpandAlias | donator.py:697-699 | the re-dispatched content is stripped and no longer than the prefix, the command, a space and what followed the invoked name |
| Donator.ExpandAliasReplacesShortcut | donator.py:697-699 | a message made of the prefix, the shortcut and the rest becomes the prefix, the aliased command, a space and the same rest, stripped |
| Donator.ExpandAliasInvokesCommand | donator.py:697-699 | when the prefix starts with a visible character and the command name ends with one, the rewritten message starts with the prefix followed by the whole command name |
| Donator.DonatorDb.SelfaliasAdd | donator.py:323-350 | refused, writing nothing, for an unknown command, a shortcut over 10 characters, or a shortcut the user already has (checked in that order); otherwise stores the command's qualified name |
| Donator.DonatorDb.SelfaliasRemove | donator.py:369-395 | refused when the user has no such shortcut; otherwise exactly that row goes and the command it stood for is reported |
| Donator.DonatorDb.SelfaliasList | donator.py:409-417 | exactly the caller's shortcuts and their commands |
| Donator.DonatorDb.SelfaliasReset | donator.py:446-453 | exactly the caller's rows go; other users' rows are unchanged |
| Donator.DonatorDb.GetSelfalias | donator.py:669-681 | the stored command when the user has the shortcut, otherwise `None` |
| Donator.DonatorDb.SelfaliasCheck | donator.py:685-700 | a rewrite happens exactly when the author is not a bot, the message is not a valid command, a name was invoked, and it is one of the author's shortcuts with a non-empty command; the rewrite is the expansion |
| Donator.DonatorDb.ForcenicknameAdd | donator.py:504-549 | on an existing row only the nickname changes and the saved previous nickname stays; a new row saves the member's current nickname; the row is written even when the nickname edit is refused |
| Donator.DonatorDb.ForcenicknameRemove | donator.py:568-597 | refused when there is no row; otherwise the row goes, even when the edit back to the saved nickname is refused |
| Donator.DonatorDb.ForcenicknameReset | donator.py:655-663 | every row of the guild goes, and only those |
| Donator.DonatorDb.ForcenicknameCheck | donator.py:704-722 | the member is renamed exactly when they have a row and their nickname differs from the locked one, and then to the locked one |
| Donator.ForcenicknameCheckSettles | donator.py:720-722 | the member update caused by the check's own rename triggers no further rename |
| Donator.ForcenickRoundTrip | donator.py:516-593 | after add, a second add and remove, the member has their original nickname again |
| Donator.AliasAddThenRewrite | donator.py:323-699 | a shortcut just added is expanded to its command in the author's next message |
| Donator.AliasResetKeepsOthers | donator.py:446-453 | a reset empties the caller's list and keeps another user's row with the same shortcut |

## Left out

- Discord and SQLite I/O: messages, embeds, DMs (except as noted for the jail tick below), pagination, the `Invoke` templates, cursors and connection handling. A commit is the end of a method, and a rollback puts the old map back.
- `ctx.prompt` confirmations (booster warnings, `unsetjail`, the resets): the model follows the confirmed path.
- Scheduling (`tasks.loop(minutes=1)`) and interleaving of commands with ticks: one tick is one method call, and concurrency is out of scope.
- `humanize_duration`, `shorten` and `human_timedelta` are not part of this model. A duration is its parsed `Option<nat>` of seconds. `forcenickname add` receives the already shortened nickname.
- `setjail`'s channel permission overwrites and the creation of the role and channel are one parameter: the created configuration, or `None` when a creation call raised. `unsetjail`'s best-effort deletion of the role and channel touches no table and is not modelled.
- Tempban end times are integer seconds rather than ISO-8601 strings compared as datetimes.
- Moderation.ModerationDb.CheckJailDuration: `fetch_user` and `fetch_member` (moderation1.py:2344, 2348) raise rather than return `None` for an unknown user. The model treats such a member as unresolved and takes the `continue` branch; the source raises before its commit at moderation1.py:2396. The unjail DM (moderation1.py:2384-2394) catches only `Forbidden`: any other exception from `member.send`, such as a Discord server error, also ends the tick after the `DELETE` and before that commit, so the tick's deletions are not committed. The model has no DM outcome and ignores this.
- Moderation.ModerationDb.TempbanCheck: the tick assumes that `fetch_user` (moderation1.py:2414) resolves every user. A `fetch_user` that raises has no `continue` branch in the source and is not modelled.
- Moderation.ModerationDb.Tempban: the table schema is not part of this model. The model reads `(guild_id, user_id)` as the table's unique key, so the second `INSERT` fails. Without that key the insert would add a second row, and the tick would delete both rows once the earlier one expires.
- Text.Lower: only ASCII letters are lower-cased; Python's full Unicode case mapping is not modelled.
- Moderation.ModerationDb.Unjail: a jail role that no longer exists is reported as a refusal that writes nothing. In the source, `remove_roles(None)` raises an error that is not `HTTPException`, so the command also ends without deleting the row.
- Donator.DonatorDb.SelfaliasList: the warning for an empty list and the embed text are display only.
- Listing commands (`hardbanned`, `tempbanned`, `autoresponder list/view/reset`, `stickymessage view/list`, `forcenickname list`) are display, or not part of this model.
- `information.py`, image, purge and mute commands, and `makemp3`, `videotogif`, `impersonate` and `speak` in `donator.py` are not part of this model.

## Findings

| source | as written | input that shows it | evidently intended | confidence | as-written member | corrected member |
|---|---|---|---|---|---|---|
| moderation1.py:2414-2432 | for an expired tempban whose guild `get_guild` no longer returns, the `DELETE` reads `guild.id` on `None` and raises, so the tick raises before its commit at moderation1.py:2432 | two rows ending at 0, one in guild 1 (visible) and one in guild 2 (not visible), ticked at 60 | skip the row whose guild is unresolved, keeping it for a later tick, and commit the rest | not executed | Moderation.TempbanTickAsWritten (shown by Moderation.TempbanTickAsWrittenStalls) | Moderation.TempbanTick (run by Moderation.ModerationDb.TempbanCheck) |
