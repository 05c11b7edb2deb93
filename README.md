# prefix-bot, modelled in Dafny

prefix-bot is a Discord bot. It keeps a table from role ids to display-name
prefixes. It rewrites a member's nickname to `"{prefix} | {name}"` for the
member's highest prefixed role. It also offers a `!tag` menu where members pick
one of their prefixes themselves. This project models the bot's logic from
`bot.py` and proves properties of it. Below, "the separator" is the three characters space, bar, space.

- **Prefix resolution.** `get_display_roles` and `get_highest_display_role` live in module `Roles`.
- **Nickname composition.** The `" | "` split and the f-string of `apply_prefix` and `TagSelect.callback` live in module `Nickname`.
- **The prefix table.** The global `role_prefixes` dict and the file it is saved to are the class `Store.PrefixStore`. `setprefix` and `removeprefix` are methods that update it in place.
- **Command handlers.** The `updateall` counting loop, `updateuser` and the `on_member_update` guard live in module `Commands`.
- **The `!tag` menu.** The option list built by `TagSelect.__init__` and the checks `TagSelect.callback` makes when a choice arrives live in module `TagMenu`.
- **Id text.** `str(role.id)` and `int(choice)` are modelled in module `Decimal`.

Calls to the platform become values. `member.edit(nick=...)` becomes the
nickname it would request (`Option<string>`, a `NickRequest`, or a
`Selection` outcome). The environment variable and the file's contents become
parameters of the store's constructor.

Points of the code's behaviour that the proofs make explicit:

- Ties go to the first eligible role in the member's list, because Python's `max` keeps the earliest maximum.
- Re-prefixing does not always produce a single prefix segment. `Nickname.NoStacking` holds exactly for prefixes with no `" | "` that do not end in `" |"`. `Nickname.TrailingBarPrefixStacks` shows the prefix `"A |"` leading to `"B | | Bob"`.
- `updateall` counts every member who holds a prefixed role. That includes members whose prefix is the empty string, for whom `apply_prefix` requests nothing (`Commands.EditsMatchCount`).
- "clear" requests `nick=None`, that is, a reset to the default name.
- When `ROLE_PREFIXES` is set and parses, `load_prefixes` ignores the file. So changes saved by `setprefix` do not survive a restart (`Store.EnvironmentShadowsFile`).

Python `==` on discord roles compares ids. So "the user holds the role"
(`TagMenu.HoldsRole`) and "the roles are unchanged" (`Commands.RoleIds`) compare ids.

## Model

| member | source | states |
|---|---|---|
| `Decimal.ToDecimal` | bot.py:57 | `str(id)` is a non-empty digit string whose first digit is 0 only for id 0 |
| `Decimal.ParseDecimal` | bot.py:246 | `int(choice)` yields a number exactly for non-empty digit strings |
| `Decimal.ParseToDecimal` | bot.py:189-246 | `int(str(id)) == id`: an option value built from a role id parses back to that id |
| `Decimal.ToDecimalInjective` | bot.py:96 | distinct role ids have distinct table keys |
| `Roles.DisplayRoles` | bot.py:55-57 | a role is in the result iff it is one of the member's roles and its `str(id)` is a table key; the result is no longer than the role list |
| `Roles.DisplayRolesAppend` | bot.py:55-57 | the filter distributes over concatenation, so it keeps the member's order (a subsequence) |
| `Roles.DisplayRolesSingle` | bot.py:57 | a single role is kept exactly when it has a table entry |
| `Roles.FirstMaxIndex` | bot.py:64 | `max(..., key=position)` picks an index of greatest position with every earlier position strictly smaller |
| `Roles.HighestDisplayRoleSpec` | bot.py:59-64 | None iff no role has a table entry; otherwise an eligible role of the member whose position is at least every eligible role's |
| `Roles.HighestDisplayRoleSnoc` | bot.py:64 | appending a role changes the active role only if the new role is eligible and strictly higher |
| `Roles.HighestDisplayRoleIsFirst` | bot.py:59-64 | the active role is the first one of its height among the eligible roles in list order |
| `Roles.ActiveRoleIgnoresUnprefixedRole` | bot.py:55-64 | a higher role without a prefix entry never wins over a prefixed one |
| `Nickname.FindSeparator` | bot.py:76-77 | finds the first separator at or after a given index, or reports that there is none |
| `Nickname.StripPrefixSegment` | bot.py:76-77 | a name without the separator is kept whole; otherwise the result is exactly the text after the first occurrence of the separator |
| `Nickname.ComposeNickname` | bot.py:73-79 | the nickname always begins with the prefix followed by the separator |
| `Nickname.ComposeWithoutSeparator` | bot.py:76-79 | a name without the separator is kept whole: the prefix, the separator and the whole name |
| `Nickname.ComposeAfterFirstSeparator` | bot.py:76-79 | a name with the separator keeps only the text after its first occurrence |
| `Nickname.FirstSeparatorOfComposed` | bot.py:76-79 | in a nickname composed with a clean prefix, the first separator is the one composition added |
| `Nickname.NoStacking` | bot.py:75-79 | re-prefixing a nickname composed with a clean prefix equals prefixing the original name |
| `Nickname.ComposeIdempotent` | bot.py:75-79 | applying the same clean prefix twice equals applying it once |
| `Nickname.TrailingBarPrefixStacks` | bot.py:75-79 | the prefix "A" followed by a space and a bar contains no separator, yet re-prefixing its nickname yields a nickname with two separators |
| `Nickname.ReplacesEarlierPrefix` | bot.py:73-79 | the name "💎", separator, "Alice" re-prefixed with "👑" becomes "👑", separator, "Alice" |
| `Nickname.ApplyPrefix` | bot.py:66-82 | no nickname is requested iff the role has no entry or an empty prefix; otherwise the composed nickname is |
| `Store.LoadPrefixes` | bot.py:29-42 | a set and parseable environment table wins, else the file's table, else the empty table; the two are never merged |
| `Store.EnvironmentShadowsFile` | bot.py:31-36 | with a parseable environment table, the file's content does not affect what is loaded |
| `Store.PrefixStore.Load` | bot.py:49 | the in-memory table is what `load_prefixes` returns and the file is left as found |
| `Store.PrefixStore.Save` | bot.py:44-47 | the file is overwritten with the whole table, and the table is unchanged |
| `Store.PrefixStore.SetPrefix` | bot.py:94-97 | afterwards the role's key maps to the prefix, every other key and value is unchanged, and the file holds the new table |
| `Store.PrefixStore.RemovePrefix` | bot.py:102-109 | reports removal iff the key was present; the key is then absent and nothing else changes; when the key was absent, neither the table nor the file changes |
| `Store.StoreScenario` | bot.py:94-109 | on a fresh store: set then overwrite leaves only the second prefix, the first removal succeeds, the second reports no prefix, and the saved file is empty |
| `Store.SetPrefixKeepsOtherRoles` | bot.py:96 | setting one role's prefix leaves every other role's entry as it was |
| `Store.RemovePrefixKeepsOtherRoles` | bot.py:104-105 | removing one role's prefix leaves every other role's entry present or absent as before |
| `Commands.CountWithDisplayRole` | bot.py:131-136 | the number of members with a prefixed role is at most the number of members |
| `Commands.EditForActiveRole` | bot.py:133-135 | a member is edited iff their active role's prefix is non-empty, and the edit composes that prefix with the display name |
| `Commands.PlannedEditsSound` | bot.py:132-136 | every edit names a guild member and carries exactly that member's edit; there are no more edits than counted members |
| `Commands.PlannedEditsComplete` | bot.py:132-136 | a member gets an edit iff their active role has a non-empty prefix |
| `Commands.PlannedEditsOrdered` | bot.py:132 | edits follow the guild's member order, and no member is edited twice |
| `Commands.UpdateAll` | bot.py:129-138 | the reported count is the number of members with a prefixed role, and the edits requested are exactly the planned ones |
| `Commands.EditsMatchCount` | bot.py:131-136 | when no configured prefix is empty, every counted member gets exactly one edit |
| `Commands.UpdateAllScenario` | bot.py:131-138 | three members, two of them holding the prefixed role: the count is 2 |
| `Commands.UpdateUser` | bot.py:142-149 | "no roles with prefixes" iff no role has an entry; otherwise the request is `apply_prefix` for the active role, the same as `updateall` makes for that member |
| `Commands.RoleIds` | bot.py:158 | the ids of a role list, one per role, in order, which is what role-list equality compares |
| `Commands.OnMemberUpdate` | bot.py:156-163 | nothing is requested when the role lists are equal; when they differ, the request is exactly the member's edit for the active role of the new roles |
| `Commands.OnMemberUpdateAgreesWithUpdateUser` | bot.py:142-163 | after a role change, the event requests exactly what `updateuser` would |
| `TagMenu.Insert` | bot.py:184 | inserting lengthens the list by one |
| `TagMenu.InsertPermutes` | bot.py:184 | inserting adds the role and drops nothing (multiset) |
| `TagMenu.InsertSorted` | bot.py:184 | inserting into a list sorted by descending position keeps it sorted |
| `TagMenu.NonIncreasingCons` | bot.py:184 | a role no lower than a sorted list may go in front of it |
| `TagMenu.SortByPositionDesc` | bot.py:184 | `sorted(..., reverse=True)` gives a permutation of its input by non-increasing position |
| `TagMenu.AtPositionCons` | bot.py:184 | selecting the roles of one position distributes over a leading role |
| `TagMenu.InsertAtPosition` | bot.py:184 | an insertion places the new role before the roles of equal position |
| `TagMenu.SortIsStable` | bot.py:184 | the sort keeps roles of equal position in their original order |
| `TagMenu.MenuRoles` | bot.py:184 | the menu lists as many roles as the member has prefixed roles, each with a table entry |
| `TagMenu.MenuRolesOrdered` | bot.py:184 | the listed roles are the member's prefixed roles, by non-increasing position, with ties in the member's order |
| `TagMenu.BuildTagOptions` | bot.py:170-197 | a lone "none" option when no role is prefixed; otherwise "clear" first, then per listed role an option whose label is its prefix, description its name and value `str(id)` |
| `TagMenu.RoleOption` | bot.py:185-190 | a role's option has its prefix as label and its name as description, and its value parses back to the role's id and is neither "clear" nor "none" |
| `TagMenu.RoleKeyIsNoKeyword` | bot.py:189 | a role's option value is never "clear" or "none" |
| `TagMenu.GetRole` | bot.py:246 | `guild.get_role(id)` returns a guild role with that id, or None iff there is none |
| `TagMenu.HoldsRole` | bot.py:249 | a role that is one of the member's roles is held; holding compares ids |
| `TagMenu.TagCallback` | bot.py:206-269 | each outcome holds exactly under its condition: outside a server; "none"; "clear" (`nick=None`); a choice `int` rejects; for a parsed id, "no longer held" iff the server has no such role or the user does not hold it, "not configured" iff the held role's prefix is missing or empty, and otherwise the nickname is `apply_prefix`'s |
| `TagMenu.SelectingRoleOption` | bot.py:184-269 | choosing a role's option, while the role exists, is held and still has a prefix, requests the composed nickname |
| `TagMenu.SelectingUnconfiguredRole` | bot.py:245-262 | choosing a stale option whose prefix was removed or emptied requests nothing ("not configured") |
| `TagMenu.SelectingRoleNoLongerHeld` | bot.py:245-254 | choosing a stale option for a role the user no longer holds requests nothing ("no longer held") |

## Left out

- Client setup, intents, `bot.run` and `on_ready` (bot.py:1-21, 353-362): framework plumbing and I/O.
- `async`/`await` and the replies sent with `ctx.send` / `interaction.response`: each handler returns the outcome it would report. Message texts are not modelled.
- `discord.Forbidden` / `HTTPException` from `member.edit`: they only log or report, with no state change. The model yields the requested nickname, not whether the platform accepted it.
- JSON encoding and decoding and file access in `load_prefixes` / `save_prefixes`: the parsed environment table and the file's table are given as values. A malformed file, which makes `json.load` raise at start-up, is not modelled.
- `json.loads` / `json.load` (bot.py:34, 42) may return a JSON value that is not an object (`[]`, `0`, `null`), and the bot installs it as `role_prefixes` anyway. Later lookups would then raise or behave as on an empty table. The model's table is always a map from strings to strings.
- Values in the table are modelled as strings. JSON could hold other types there, which `if not prefix` would judge by Python truthiness.
- The `has_permissions(administrator=True)` check: it is enforced by the framework.
- `listprefixes` (bot.py:111-125): formatting only. Ids the server no longer knows are shown as "Unknown Role (id)".
- `help`, the `tag` command and `TagView` (bot.py:288-347): UI text, the 60-second view timeout and `delete_after`.
- Decimal.ParseDecimal: accepts only non-empty ASCII digit strings. Python's `int` also takes signs, surrounding whitespace, underscores and other Unicode digits. Menu values are always "clear", "none" or `str(id)`, so those cases never arrive from the menu.
- Decimal.ToDecimal: role ids are modelled as non-negative, as Discord ids are, so `str` of a negative number is not modelled.
