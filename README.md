# Snitch and Nuke cogs, modelled in Dafny

This project models two cogs of a Red chat bot.

**Snitch** keeps, per guild, a dictionary of *notification groups*. Each group holds
trigger words, stored targets and an optional message template. A target is a member,
role or channel, keyed by the token that named it. The model covers:

- the commands that edit the dictionary (`snitch to`, `notto`, `on`, `noton`, `with`,
  `clear`);
- the text of the `snitch list` report;
- the resolver that turns a token into a member, role or channel;
- the message pipeline: the filter chain of `on_message`, the word matcher of
  `_check_words`, the template renderer, and the attempts `_notify_words` schedules
  for each stored target.

**Nuke** kicks members: `nuke_not` kicks everyone except the members of the named
roles, and refuses to run when a name matches no role.

Modules:

| module | file | content |
|---|---|---|
| `Wrappers`, `Seqs` | wrappers.dfy | `Option`; first-match selection, comprehensions, de-duplication |
| `Text` | text.dfy | `lower`, `strip`, `isnumeric`, `int`, `startswith`, `join`, `replace` |
| `Discord` | discord.dfy | a snapshot of the guild (members, roles, channels), messages, host answers |
| `Resolver` | resolver.dfy | `_identify_target` |
| `Groups` | groups.dfy | a group value and the edits the commands make to it |
| `Matcher` | matcher.dfy | the `\b…\b` alternation, `findall` and the match set |
| `Dispatch` | dispatch.dfy | template rendering and the delivery attempts per target |
| `Snitch` | snitch.dfy | class `SnitchConfig` (one guild's `notifygroups`), commands, listing, pipeline |
| `Nuke` | nuke.dfy | `nuke_not`, `_remove_users`, `nuke` |

Python dictionaries keep insertion order, and the order is visible: it is the order of
the `list` report and of the notifications. A dictionary is therefore modelled as a
`seq` of keys plus a `map`:

- `Group.targetKeys` and `Group.targets`, tied together by `WellFormed`;
- `SnitchConfig.order` and `SnitchConfig.groups`, tied together by `Valid`.

The model follows the code where it differs from what its help texts suggest:

- **Words are stored exactly as typed.** Duplicates are detected case-sensitively
  (`Groups.AddWordsKeepsCase`).
- **Id tokens never fall back to names.** A token that is all digits after stripping
  `!<#>@&` is looked up by id only. If no member, role or channel has that id, it
  resolves to nothing, even when something is named after it.
- **The stored type can be any channel class.** It is the class name of whatever
  resolved, so a voice channel found by id is stored as `VoiceChannel`. The dispatcher
  then ignores it.
- **`snitch notto` on a missing group raises.** It replies that the group does not
  exist, then raises `TypeError` on the first token.
- **`snitch noton` stops at the first word not in the list.** `list.remove` raises
  there. The removals made before persist in an existing group, and a missing group is
  not created.
- **A member target always yields an attempt.** The attempt is made even when the
  guild no longer has that member (the call then fails inside `_send_to_member`). A
  channel or role target whose lookup gives nothing yields no attempt, and the later
  targets are still handled.
- **`nuke_not` raises when nobody is left to kick.** `_remove_users` awaits
  `asyncio.wait` on its waitlist without checking that it is non-empty (the snitch cog
  checks first). When every member is protected, for example by naming the default role,
  the wait raises `ValueError`. The model's outcome is then `EmptyWait`, not an empty
  kick list.

## Model

| member | source | states |
|---|---|---|
| Seqs.FirstIndex | snitch/snitch.py:59-63 | the index picked satisfies the filter and no earlier element does; None exactly when no element does |
| Seqs.Filter | nuke/nuke.py:58 | a list comprehension keeps exactly the elements satisfying the condition, and no more of them than the input has |
| Seqs.FilterHeadIsFirst | nuke/nuke.py:45-47 | `role_filter` is non-empty exactly when some role has the name, and `role_filter[0]` is the first such role |
| Seqs.FilterKeepsAll | nuke/nuke.py:58 | a comprehension whose condition holds for every element returns the list unchanged |
| Seqs.FilterAppend | nuke/nuke.py:58 | filtering keeps the relative order of the elements |
| Seqs.Dedup | snitch/snitch.py:372 | the match set holds exactly the matches found, each once |
| Text.Strip | snitch/snitch.py:48 | the stripped token is an infix of the token that neither starts nor ends with a mention character, and only mention characters are dropped, all of them from the two ends |
| Text.EqualsIgnoreCaseKeepsNonLetters | snitch/snitch.py:365 | comparing ignoring case never equates a non-letter with anything but itself |
| Text.JoinShowsItem | snitch/snitch.py:252-253 | every joined item appears in the joined text |
| Text.ReplaceAbsent | snitch/snitch.py:313-317 | `replace` of a pattern that does not occur returns the string unchanged |
| Text.ReplaceSkipsPrefix | snitch/snitch.py:313-317 | `replace` copies a leading part that cannot start the pattern and goes on after it |
| Text.ReplaceBetween | snitch/snitch.py:313-314 | one occurrence of the token between token-free parts is replaced by the value |
| Discord.RoleMembersCarryRole | nuke/nuke.py:48 | `role.members` holds exactly the guild's members carrying the role, or every member for the default role |
| Discord.RoleMembers | nuke/nuke.py:48 | `role.members` (characterised by `RoleMembersCarryRole`) |
| Resolver.FirstRoleNamed | snitch/snitch.py:59-63 | the role picked has the token as its name ignoring case and no earlier role does; None when no role does |
| Resolver.FirstMemberNamed | snitch/snitch.py:66-72 | the member picked has the token as user name or display name ignoring case, and no earlier member does |
| Resolver.FirstTextChannelNamed | snitch/snitch.py:74-81 | the channel picked is a text channel named by the token ignoring case, and no earlier text channel is; None when no text channel is |
| Resolver.IdentifyTarget | snitch/snitch.py:31-82 | whatever a token resolves to is a member, role or channel of the guild |
| Resolver.NumericTokenResolvesById | snitch/snitch.py:48-55 | an all-digit token resolves exactly when a member, role or channel has that id, to one with that id; members before roles |
| Resolver.NameTokenResolvesByName | snitch/snitch.py:57-81 | any other token resolves exactly when some role, member or text channel carries the name ignoring case |
| Resolver.NameTokenPrefersRoles | snitch/snitch.py:59-63 | a name carried by a role resolves to the first such role, even if members or channels carry it too |
| Resolver.NameTokenThenMembers | snitch/snitch.py:65-72 | when no role carries the name, it resolves to the first member carrying it |
| Resolver.NameTokenThenChannels | snitch/snitch.py:74-81 | when no role and no member carries the name, it resolves to the first text channel with that name, stored with the class `TextChannel` |
| Resolver.ById | snitch/snitch.py:49-55 | lookup by id: member, else role, else channel (characterised by `NumericTokenResolvesById`) |
| Resolver.ByName | snitch/snitch.py:57-81 | lookup by name: first role, else first member, else first text channel (characterised by the three `NameToken…` lemmas) |
| Groups.PutTargetWellFormed | snitch/snitch.py:109-112 | storing a target keeps keys and entries in step |
| Groups.AttachWellFormed | snitch/snitch.py:107-112 | handling one token keeps the group well formed |
| Groups.AddTargetsStep | snitch/snitch.py:104-112 | proof step: the tokens are handled one after the other, in the order given |
| Groups.AddTargetsWellFormed | snitch/snitch.py:104-112 | `snitch to` keeps the group well formed |
| Groups.AddTargetsStoresResolved | snitch/snitch.py:104-112 | every resolved token is stored under its text with its id and class, overwriting; other keys are kept; words and message untouched |
| Groups.AddTargetsUnresolved | snitch/snitch.py:104-115 | tokens that resolve to nothing leave the group as it was |
| Groups.Resolve | snitch/snitch.py:107-112 | a token's stored id and class, or nothing (characterised by the `Resolver` lemmas) |
| Groups.AddTargets | snitch/snitch.py:104-112 | the target loop of `snitch to` (characterised by `AddTargetsStoresResolved`, `AddTargetsUnresolved`, `AddTargetsWellFormed`) |
| Groups.DropTargets | snitch/snitch.py:137-139 | the pop loop of `snitch notto` (characterised by `DropTargetsRemovesNamed`) |
| Groups.AddWords | snitch/snitch.py:163-165 | the append loop of `snitch on` (characterised by `AddWordsExtends`, `AddWordsIdempotent`) |
| Groups.RemoveWords | snitch/snitch.py:188-189 | the remove loop of `snitch noton`, stopping at the first missing word (characterised by `RemoveWordsSpec`, `RemoveWordsStops`) |
| Groups.DropTargetWellFormed | snitch/snitch.py:138-139 | popping a key keeps the group well formed |
| Groups.FilterDistinct | snitch/snitch.py:139 | the remaining keys stay distinct after a pop |
| Groups.DropTargetsRemovesNamed | snitch/snitch.py:137-140 | `snitch notto` removes exactly the named keys that are present, nothing else |
| Groups.ToThenNotTo | snitch/snitch.py:104-140 | `notto` with the tokens just given to `to` leaves exactly the entries under other keys |
| Groups.RemoveFirst | snitch/snitch.py:189 | `list.remove` takes away exactly one occurrence of the word |
| Groups.AddWordsExtends | snitch/snitch.py:163-165 | `snitch on` keeps the old words in order at the front, stores every new word, adds nothing else, and keeps the list duplicate-free |
| Groups.AddWordsPresent | snitch/snitch.py:164 | words already stored are not added again |
| Groups.AddWordsIdempotent | snitch/snitch.py:159-167 | adding the same words twice gives the same list as adding them once |
| Groups.AddWordsKeepsCase | snitch/snitch.py:164 | "Wifi" and "wifi" are two different words |
| Groups.AddWordsFresh | snitch/snitch.py:163-165 | new distinct words are appended in the order given |
| Groups.RemoveWordsSpec | snitch/snitch.py:188-189 | `snitch noton` succeeds exactly when every word is present as often as it is given, and then removes exactly those words |
| Groups.RemoveWordsStops | snitch/snitch.py:188-190 | after the first missing word nothing more is removed |
| Groups.RemoveWordsStep | snitch/snitch.py:188-189 | proof step: one more present word removes its first occurrence |
| Groups.RemoveCountStep | snitch/snitch.py:188-189 | proof step: one more word is still present exactly when the words so far plus it are all in the original list, and removing it leaves the original minus all of them |
| Groups.MissingCountStays | snitch/snitch.py:188-190 | proof step: once the words so far are not all present, adding one more does not make them so |
| Groups.RemoveWordsOfSuffix | snitch/snitch.py:188-189 | removing just-appended words one by one takes them off the end |
| Groups.RemoveFirstSkips | snitch/snitch.py:189 | `remove` takes the first occurrence of the word |
| Groups.OnThenNotOn | snitch/snitch.py:163-189 | `noton` of the new words just given to `on` succeeds and restores the word list |
| Dispatch.RenderWithoutTokens | snitch/snitch.py:312-317 | a template holding none of the four tokens is sent unchanged |
| Dispatch.RenderDefault | snitch/snitch.py:310-317 | without a template (or with an empty one) the text is "Snitching on <author> for saying <w1 and w2…>", when the author name and the words hold no `{` |
| Dispatch.Render | snitch/snitch.py:310-317 | the template, or the default one, with the four tokens replaced in order (characterised by `RenderDefault` and `RenderWithoutTokens`) |
| Dispatch.DefaultRender | snitch/snitch.py:311 | proof step: a None or empty template is replaced by the default one |
| Dispatch.DefaultAuthorStep | snitch/snitch.py:313 | proof step: the author replacement on the default template puts the author's name in place |
| Dispatch.DefaultWordsStep | snitch/snitch.py:314 | proof step: the words replacement puts the joined words in place |
| Dispatch.LastTokensAbsent | snitch/snitch.py:315-316 | text without `{` is left alone by the server and channel replacements |
| Dispatch.Deliveries | snitch/snitch.py:282-285 | no direct message is ever delivered to a bot |
| Dispatch.Delivered | snitch/snitch.py:282-285 | what one attempt sends: nothing to a bot or a missing member (characterised by `OneMemberReached` and `MemberTargetReachesHuman`) |
| Dispatch.MessageAll | snitch/snitch.py:341-342 | one `_send_to_member` call per member, in order (characterised by `MessageAllReachesHumans`) |
| Dispatch.DeliveriesAppend | snitch/snitch.py:282-285 | deliveries of consecutive attempts are consecutive |
| Dispatch.OneMemberReached | snitch/snitch.py:283-285 | one member is messaged exactly when it is not a bot |
| Dispatch.MessageAllReachesHumans | snitch/snitch.py:341-342 | messaging members makes one attempt each and delivers to exactly the non-bots, in order |
| Dispatch.DirectMessagesAppend | snitch/snitch.py:341-342 | messages to consecutive members are consecutive |
| Dispatch.TargetAttempts | snitch/snitch.py:329-346 | a text-channel target yields an "@everyone " post exactly when the guild still has the channel, and at most one; a member target yields one `_send_to_member` call with the member the guild returns for the id; another channel class yields nothing |
| Dispatch.ChannelAttempts | snitch/snitch.py:332-334 | a channel target yields at most one post, none exactly when the guild has no channel with the id, and the post goes to the guild's channel with that id |
| Dispatch.TextChannelTargetPosts | snitch/snitch.py:332-334 | a text-channel target the guild still has gets exactly one post, "@everyone " followed by the text, to that channel, and it is delivered |
| Dispatch.MissingChannelTargetSkipped | snitch/snitch.py:329-334 | a text-channel target the guild no longer has gets nothing |
| Dispatch.RoleAttempts | snitch/snitch.py:339-342 | a role target: one call per member of the role, nothing when the role is gone (characterised by `RoleTargetReachesHumanMembers`) |
| Dispatch.Plan | snitch/snitch.py:328-346 | the attempts for all targets, target after target (characterised by `PlanAppend` and `StaleTargetSkipped`) |
| Dispatch.PlanAppend | snitch/snitch.py:328-346 | targets are handled one after another, in order |
| Dispatch.PlanStep | snitch/snitch.py:328-346 | proof step: one more target appends its attempts |
| Dispatch.PlanSingle | snitch/snitch.py:328-346 | proof step: a single target's plan is its own attempts |
| Dispatch.StaleTargetSkipped | snitch/snitch.py:329-346 | a channel or role the guild no longer has adds nothing, and later targets are still handled |
| Dispatch.RoleTargetReachesHumanMembers | snitch/snitch.py:339-342 | a role target delivers one direct message to each non-bot member of the role |
| Dispatch.MemberTargetReachesHuman | snitch/snitch.py:336-338 | a member target delivers one direct message when the member exists and is not a bot, nothing otherwise |
| Dispatch.MessageMembers | snitch/snitch.py:341-342 | the role loop makes exactly the attempts of `MessageAll` |
| Dispatch.ScheduleAttempts | snitch/snitch.py:327-346 | the target loop makes exactly the planned attempts |
| Dispatch.NotifyWords | snitch/snitch.py:310-346 | `_notify_words` renders the template and makes the planned attempts with that text |
| Matcher.Alternative | snitch/snitch.py:364-366 | the alternative taken matches at the position and no earlier word's alternative does |
| Matcher.MatchedWords | snitch/snitch.py:363-372 | a group without words has no matches; the matches are distinct |
| Matcher.FindAll | snitch/snitch.py:372 | `findall` of the alternation, Python 3.7 empty-match rule (characterised by `FindAllSound` and `FindAllFinds`) |
| Matcher.IsMatch | snitch/snitch.py:364-366 | text some word's `\b…\b` alternative matches |
| Matcher.FindAllSound | snitch/snitch.py:372 | everything `findall` returns is text matched by some word's alternative |
| Matcher.MatchAtIsMatch | snitch/snitch.py:365 | proof step: a word occurring at a position gives a match |
| Matcher.FindAllAfterMatch | snitch/snitch.py:372 | proof step: after a non-empty match the scan goes on after it |
| Matcher.FindAllAfterEmptyMatch | snitch/snitch.py:372 | proof step: after an empty match the scan retries the same place for a non-empty match |
| Matcher.FindAllFinds | snitch/snitch.py:372 | the scan finds something when a word occurs at or after where it starts |
| Matcher.MatchesAreConfiguredWords | snitch/snitch.py:363-372 | every match equals a configured word ignoring case and sits between word boundaries |
| Matcher.NotifiesIffSomeWordOccurs | snitch/snitch.py:363-373 | a group has matches exactly when one of its words occurs on word boundaries, ignoring case |
| Matcher.MetacharactersAreLiteral | snitch/snitch.py:365 | a match agrees with its word at every non-letter position: metacharacters are literal |
| Matcher.DotIsNotAWildcard | snitch/snitch.py:365 | the word "a.b" does not match "axb" |
| Snitch.TargetRepliesStep | snitch/snitch.py:113-115 | proof step: one more token appends its reply |
| Snitch.TargetStep | snitch/snitch.py:104-115 | proof step: one more token extends the group and the replies by that token |
| Snitch.ApplyTargets | snitch/snitch.py:104-115 | the token loop of `snitch to` produces `AddTargets` and one reply per token |
| Snitch.DropReplies | snitch/snitch.py:137-142 | one reply per token: "Removed" exactly when the group had the key and it was not named earlier, else "Couldn't find" |
| Snitch.WordReplies | snitch/snitch.py:166 | one reply per word, in order |
| Snitch.WordRepliesStep | snitch/snitch.py:190 | proof step: one more word appends its reply |
| Snitch.AddEach | snitch/snitch.py:163-166 | the word loop of `snitch on` produces `AddWords` and one reply per word |
| Snitch.RemoveEach | snitch/snitch.py:188-190 | the word loop of `snitch noton` removes words until the first missing one, which raises `ValueError`, and replies for each removal |
| Snitch.LinesShowGroup | snitch/snitch.py:251-254 | every group's line is part of the report |
| Snitch.LineShowsParts | snitch/snitch.py:252-254 | a group's line shows its name, every target key and every word |
| Snitch.ListingShowsEverything | snitch/snitch.py:244-254 | with groups the report names each group, each of its target keys and each of its words |
| Snitch.GroupLine | snitch/snitch.py:252-254 | one group's report line (characterised by `LineShowsParts`) |
| Snitch.ListingOf | snitch/snitch.py:244-254 | the `snitch list` text (characterised by `ListingShowsEverything`) |
| Snitch.Base | snitch/snitch.py:159-161 | the stored group, or a fresh empty one |
| Snitch.Admit | snitch/snitch.py:390-412 | a message is checked exactly when it has a guild, the cog is enabled, it is not a command, its author is a non-bot member, and it is not automod-immune |
| Snitch.Refs | snitch/snitch.py:377 | the stored targets, in insertion order |
| Snitch.NotificationsStep | snitch/snitch.py:360-380 | proof step: each group is judged on its own, in order |
| Snitch.NotifiesExactlyMatchingGroups | snitch/snitch.py:359-380 | a group notifies exactly when one of its words occurs in the message, and then once, with its matched words and the planned attempts for the text rendered from them |
| Snitch.NotificationsCarryPlan | snitch/snitch.py:359-380 | proof step: every notification belongs to a stored group, has non-empty matched words, and carries the attempts planned for its rendered text |
| Snitch.NotificationsInOrder | snitch/snitch.py:360 | proof step: every notification names a group of the stored order |
| Snitch.GroupNotificationShape | snitch/snitch.py:361-380 | proof step: one group gives at most one notification, exactly when it has matched words, and it names that group |
| Snitch.NotificationsOncePerGroup | snitch/snitch.py:360-380 | no group is notified twice for one message |
| Snitch.GroupsStayDistinct | snitch/snitch.py:360 | proof step: a group not seen before keeps the notified groups distinct |
| Snitch.NotifiesIffWordOccurs | snitch/snitch.py:360-380 | a group is notified exactly when it is stored and one of its words occurs on word boundaries, ignoring case |
| Snitch.GroupNotification | snitch/snitch.py:361-380 | one group's notification when its words match (characterised by `NotifiesExactlyMatchingGroups`) |
| Snitch.Notifications | snitch/snitch.py:360-380 | the notifications of all groups, in stored order (characterised by `NotifiesExactlyMatchingGroups`) |
| Snitch.SnitchConfig.constructor | snitch/snitch.py:21-22 | a guild starts with no groups |
| Snitch.SnitchConfig.Store | snitch/snitch.py:116 | storing a group keeps the dictionary valid; a new name goes to the end of the order |
| Snitch.SnitchConfig.SnitchTo | snitch/snitch.py:99-116 | the group (created if missing) becomes `AddTargets` of the tokens; one reply per token |
| Snitch.SnitchConfig.SnitchNotTo | snitch/snitch.py:132-142 | an existing group loses the named keys; a missing group is reported and then raises on the first token |
| Snitch.SnitchConfig.SnitchOn | snitch/snitch.py:158-167 | the group (created if missing) gets `AddWords` of the words; one reply per word |
| Snitch.SnitchConfig.SnitchNotOn | snitch/snitch.py:183-191 | words are removed until the first missing one; the result is stored unless a missing group raised |
| Snitch.SnitchConfig.SnitchWith | snitch/snitch.py:210-217 | the group (created if missing) gets the template |
| Snitch.SnitchConfig.SnitchClear | snitch/snitch.py:229-230 | every group is forgotten |
| Snitch.SnitchConfig.SnitchList | snitch/snitch.py:242-254 | the listing is the notice when there are no groups, the report otherwise |
| Snitch.SnitchConfig.CheckWords | snitch/snitch.py:357-380 | the notifications are exactly those of the groups whose words match, in order |
| Snitch.SnitchConfig.OnMessage | snitch/snitch.py:383-414 | a filtered message notifies nobody; an admitted one gets the word check |
| Snitch.SnitchConfig.OnMessageEdit | snitch/snitch.py:417-425 | an edit runs the same pipeline on the new message |
| Nuke.MissesAreUnknownNames | nuke/nuke.py:44-50 | the misses are the names matching no role, in the order given |
| Nuke.MissIffNoRole | nuke/nuke.py:45-50 | a name misses exactly when no role has exactly that name |
| Nuke.AnyMissKicksNobody | nuke/nuke.py:51-56 | one unknown name means nobody is kicked, and the refusal names it |
| Nuke.AllKnownRuns | nuke/nuke.py:44-59 | when every name is a role, nothing is refused: the kicks go ahead, and the empty wait raises exactly when every member is protected |
| Nuke.ExcludedIffCarriesNamedRole | nuke/nuke.py:44-48 | an id is excluded exactly when a member with that id carries the first role of some given name |
| Nuke.Misses | nuke/nuke.py:44-50 | the names no role carries (characterised by `MissesAreUnknownNames`, `MissIffNoRole`) |
| Nuke.Excluded | nuke/nuke.py:44-48 | `exclude_people` (characterised by `ExcludedIffCarriesNamedRole`) |
| Nuke.Kickable | nuke/nuke.py:57-58 | the members not excluded, compared by id (characterised by `KickableIsUnprotected`) |
| Nuke.Decide | nuke/nuke.py:44-59 | what `nuke_not` does in a guild (characterised by the lemmas above) |
| Nuke.KickableIsUnprotected | nuke/nuke.py:57-58 | the members left to kick are the guild's members, in guild order, carrying none of the named roles |
| Nuke.KickedExactlyTheUnprotected | nuke/nuke.py:57-59 | the kicks are one per guild member carrying none of the named roles, in guild order; a member is kicked exactly when it carries none |
| Nuke.NoNamesKicksEveryone | nuke/nuke.py:57-59 | with no names every member is kicked, in guild order; a guild without members makes the empty wait raise |
| Nuke.EveryoneRoleRaises | nuke/nuke.py:44-59 | naming the default role protects everyone: once every name is known, nobody is kicked and the empty wait raises |
| Nuke.RemoveUsers | nuke/nuke.py:17-23 | one kick per user, in the order given; the wait raises `ValueError` exactly when there are no users |
| Nuke.NukeCommand | nuke/nuke.py:27-31 | `nuke` kicks nobody, whatever names it is given |
| Nuke.NukeNot | nuke/nuke.py:35-59 | nothing outside a guild; otherwise a refusal listing the misses, the kicks of every member not excluded, or the raise of the empty wait |

## Left out

- The recorder cog: it appends a line to a file and logs it. That is file I/O only.
- Concurrency. `asyncio.create_task` and `asyncio.wait` run the sends and kicks at the same time. The model produces the list of attempts in the order they are created.
- Failures of sends and kicks (permissions, privacy settings) and the logging around them.
- The embed built for a notification (title, link, thumbnail).
- `pagify`, which splits the report into pages, and the reply when a page cannot be sent. `SnitchList` stops at the report text.
- Config persistence. A guild's `notifygroups` is the in-memory state of `SnitchConfig`. The `async with` block is assumed to write its value back even when the body raised. This is why partial `noton` removals persist.
- The permission checks and guild-only decorators on the commands.
- The `require_var_positional` flag of `on`, `noton` and `with`. The model accepts empty word lists.
- Other guilds. Each guild's settings are separate, and the model holds one guild.
- Discord and host calls become inputs: `fetch_roles`, `get_prefix`, `cog_disabled_in_guild` and `is_automod_immune`.
- Resolver.IdentifyTarget: case folding and `isnumeric` cover ASCII only. Non-ASCII letters have no case, and non-ASCII digits are not numeric.
- Matcher.MatchedWords: `\w` is taken to be an ASCII letter, an ASCII digit or `_`, and case is ASCII case.
- Matcher.MatchedWords: the matches are in first-occurrence order. Python's set order, which decides how `" and ".join(matches)` lists the words, depends on string hashing.
- Class names: only the class names of members, roles and the five channel classes. Other objects `get_channel` can return, such as threads, are not modelled.
- Snitch.SnitchConfig.SnitchNotOn: the body of `noton` as written removes nothing. Its parameter is annotated `*words: List[str]`, and the command framework converts each argument by that annotation before the body runs. If the conversion fails (calling `typing.List[str]` on a word raises `TypeError`), the command stops with a bad-argument error before changing anything. If it succeeds, each word arrives as a list, which never equals a stored string, so the first `remove` raises `ValueError` and nothing is removed. The model runs the body with each word as the string typed, which is the behaviour the command evidently intends.
