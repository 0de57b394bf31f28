# Kingdoms role assignment, in Dafny

A model of the role-assignment core of the Kingdoms chat bot (`bot.py`).
Kingdoms is a hidden-role game for 5 or 6 players. A `!kingdoms new`
command lists the players. It may contain one `--` token. Players before
the `--` may become King; players after it may not. The bot draws the King
from the eligible players. It then shuffles a fixed role list and deals it
to everyone else.

The project has five modules:

- `Wrappers` (`wrappers.dfy`): `Option` and `Result`. A `Failure` stands for
  a Python exception.
- `Roles` (`roles.dfy`): the `Role` datatype and the fixed role lists
  (`OtherRoles`). `Expected` is an independent reference for how many copies
  of each role a game deals. It is read off the goal texts: one King, one
  Knight, two Bandits, one Assassin, and a Usurper only with 6 players.
  `RoleCount` counts the keys of a map that hold a role.
- `Shuffling` (`shuffling.dfy`): Python's `random.shuffle`. It walks from
  the last index down to 1 and swaps each entry with a random entry at or
  before it.
- `Engine` (`engine.dfy`): `get_index_of`, `separate_king_and_others`,
  `assign_other_roles` and `assign_users`. The list the engine receives
  mixes resolved members and the `--` string. It is a `seq<Slot>`, where
  `Slot = Separator | Player(id)` and a member is known by its user id.
- `Commands` (`commands.dfy`): the validation gate of `new_game` and the
  top-level `kingdoms` dispatch.

Randomness is an explicit input. The King draw `randrange(0, n)` is the
entry at `pick % n`. The swap target of the t-th shuffle step,
`randbelow(i + 1)`, is `draws(t) % (i + 1)`. So every outcome Python could
produce is an outcome of some `pick` or `draws`. Every property below holds
for all of them.

Member resolution is an oracle `resolve: string -> Option<UserId>`. A token names
a member exactly when it resolves to `Some`. The oracle stands for both
`is_valid_user` and the later `MemberConverter.convert` pass.

The Python exceptions on the engine path are modelled as
`Failure(EmptyRange)` and `Failure(InvalidUserCount(n))`. `EmptyRange` is
`randrange(0, 0)`, raised when the command starts with `--`. `new_game`
does not catch either exception, so `NewGame` reports them as
`Crashed(error)`. The model keeps two behaviours of the code as written:

- A command that starts with `--` passes every check in `new_game` and then
  crashes in the King draw (`NewGameCrashes`).
- A second `--` is not a separator. It stays in the pool and is dealt a role
  like a player (`SecondSeparatorIsDealtARole`). With 6 players it makes the
  pool too large (`SecondSeparatorOverfillsSixPlayers`), so `new_game` ends
  in `Crashed(InvalidUserCount(6))`.

The strong guarantees hold only for a well-formed command. Its resolved
entries must be pairwise distinct, and at most one `--` may occur. If two
entries were equal, `dict(zip(...))` would merge them.

## Model

| member | source | states |
|---|---|---|
| `Roles.OtherRoles` | bot.py:218-221 | The list for a pool of 4 or 5 has one role per pool member and never contains King. |
| `Roles.RulesRoles` | bot.py:59-63 | The rules summary lists King first, always lists Knight, Bandit and Assassin, and lists Usurper exactly for a game that does not have 5 players. It has 4 roles for 5 players and 5 otherwise. |
| `Roles.DealtRolesMatchGoals` | bot.py:218-221 | The 4-entry and 5-entry role lists, plus the King, deal each role exactly as often as the goal texts announce for a game of 5 or 6 players. |
| `Roles.RulesListTheDealtRoles` | bot.py:59-63 | The rules summary for 5 or 6 players names a role exactly when that game deals it. |
| `Roles.RoleCountInsert` | bot.py:196 | Giving a new key a role adds one to that role's count and leaves every other count unchanged. |
| `Shuffling.Shuffle` | bot.py:223 | For every sequence of random draws, the shuffled list has the same length and the same elements with the same multiplicities. |
| `Engine.IndexOf` | bot.py:227-231 | The result is `-1` exactly when the target is absent. Otherwise it is an index holding the target with no earlier occurrence. |
| `Engine.EligibleShape` | bot.py:187-198 | Describes the King-eligible part and the excluded part. The eligible part is the longest prefix without `--`, and the entry after it, if any, is `--`. It is empty exactly when the list is empty or starts with `--`. With a `--`, the list is the eligible part, then that `--`, then the excluded part. Without one, everybody is eligible and nobody is excluded. |
| `Engine.SeparateKingAndOthers` | bot.py:205-210 | An empty list raises `EmptyRange`. Otherwise the King is some entry `k`, the others are the list without position `k` in the same order, there is one fewer of them, and others plus King equal the input as multisets. |
| `Engine.AssignOtherRoles` | bot.py:213-224 | A pool of size other than 4 or 5 raises `InvalidUserCount` with that size and deals nothing. Otherwise the keys are exactly the pool and no one is King. |
| `Engine.AssignOtherRolesDeals` | bot.py:218-224 | For a pool of distinct users, user i gets the i-th entry of the shuffled list, and each role is dealt exactly as often as in the fixed list. |
| `Engine.ZipMap` | bot.py:224 | `dict(zip(ks, vs))` has exactly the keys listed in `ks`, and every value it holds comes from `vs`. |
| `Engine.ZipMapAt` | bot.py:224 | For distinct keys, `dict(zip(ks, vs))` maps each key to the value at its own position. |
| `Engine.ZipMapRoleCount` | bot.py:224 | For distinct keys, the zipped map holds each role as often as the value list does. |
| `Engine.AssignUsers` | bot.py:187-202 | Fails with `EmptyRange` exactly when the list is empty or starts with the separator. Succeeds exactly when, in addition, the pool has 4 or 5 entries. Any other failure reports the pool size. |
| `Engine.AssignUsersCrownsOneEligibleKing` | bot.py:188-200 | For every random choice, a successful assignment has exactly one King. He is a member listed before any separator. |
| `Engine.EveryEligibleUserCanBeKing` | bot.py:191-193 | Converse of the eligibility rule: every member listed before every separator becomes the sole King for some outcome of the King draw. |
| `Engine.AssignUsersKeepsPoolRoles` | bot.py:194-200 | For distinct entries, the King is not in the pool, and the result is `assign_other_roles`' map for the pool plus the King. No pool entry is changed. |
| `Engine.AssignUsersKeys` | bot.py:187-202 | For distinct entries, the map's keys are exactly the listed members. Every player gets a role and the separator does not. |
| `Engine.AssignUsersRoleCounts` | bot.py:187-202 | For distinct entries, each role is dealt exactly as the goal texts announce for that many players. |
| `Engine.AssignUsersExcludedNeverKing` | bot.py:190-196 | For distinct entries, everyone listed after the separator is dealt a role, and that role is not King. |
| `Engine.SecondSeparatorIsDealtARole` | bot.py:188-195 | For any list with a player first, a `--` at a later position than another `--`, and a pool of 4 or 5, the assignment succeeds and the second `--` is dealt a role. |
| `Engine.SecondSeparatorOverfillsSixPlayers` | bot.py:188-195 | For any list of six players and two `--` with a player first, the pool holds six entries and the assignment fails with `InvalidUserCount(6)`. |
| `Commands.NewGame` | bot.py:101-128 | The player count is checked first. A count outside 5..6 gives `WrongPlayerCount(count)`, whatever the resolver says. Otherwise any unresolved token gives `UnknownUsers` with exactly the failing tokens, and nothing is dealt. A started game reports the player count and a King who holds the King role and is the only one who does. |
| `Commands.CollectInvalidUsers` | bot.py:109-119 | The lookup loop collects exactly the tokens `InvalidTokens` reports, in command order. |
| `Commands.KingOf` | bot.py:128 | In a map with exactly one King, the search over the keys finds a key that holds the King role. |
| `Commands.OneKingIsUnique` | bot.py:128 | A map with one King has a King, and any two keys holding the role are the same key, so `next(...)` has only one answer. |
| `Commands.NewGameCrashes` | bot.py:125-127 | Once the count and the lookups pass, the engine crashes in the King draw exactly when the command starts with `--`. A wrong pool size can only happen when there is a second `--`. |
| `Commands.NewGameKingIsEligible` | bot.py:125-128 | A command with the right count, only known members, at most one `--` and a player first always starts a game. Its King is the member of a token listed before any `--`. |
| `Commands.NewGameDealsWellFormed` | bot.py:101-128 | A well-formed command starts a game in which exactly the named members are dealt roles, each role as often as the goal texts announce for that many players. |
| `Commands.InvalidTokens` | bot.py:110-115 | The report is no longer than the command, and every token in it is a player token that does not resolve. |
| `Commands.ResolveTokens` | bot.py:125 | The engine's list has one entry per token. An entry is the separator exactly where the token is `--`. Every other entry is the member that the token resolves to. |
| `Commands.InvalidTokensExact` | bot.py:110-115 | A token is reported exactly when it occurs in the command, is not `--`, and does not resolve. |
| `Commands.InvalidTokensInOrder` | bot.py:110-115 | The report keeps the command's order. The report for a + b is the report for a followed by the report for b. |
| `Commands.NoInvalidTokens` | bot.py:121-123 | The report is empty exactly when every player token resolves. |
| `Commands.CountPlayersSkipsSeparators` | bot.py:102 | The player count is the number of tokens less the number of `--` tokens. |
| `Commands.CountWithOneSeparator` | bot.py:102 | With at most one `--`, the player count is the number of tokens minus the `--` if there is one. |
| `Commands.Kingdoms` | bot.py:155-171 | No arguments gives `ERROR_MESSAGE`. A first token spelling `about` in any case sends the about text. One spelling `new` in any case starts a game with the remaining tokens. Otherwise a first token that names a member starts a game with all tokens, and any other first token gives `ERROR_MESSAGE`. |
| `Commands.Lower` | bot.py:161-164 | Lower-casing keeps the length, leaves no ASCII capital, and leaves every character that is not an ASCII capital unchanged. |
| `Commands.LowerIsCaseBlindMatch` | bot.py:161-164 | Lower-casing a token gives a lower-case word exactly when the token spells that word in some mix of upper and lower case. |

## Left out

- Discord I/O is not modelled: `client.run`, `on_ready`, `send_roles`, `send_about`, the embeds and thumbnails, and the per-player sends and King announcement (bot.py:74-98, 129-140). `Started` records the roles, the King and the player count those messages are built from.
- The members' direct messages are not modelled. A game where a second `--` was dealt a role would fail at `user.send` on the string `--`. The model stops at the assignment.
- `is_valid_user` and `MemberConverter` internals (bot.py:106, 125, 143-149) are an external lookup. They are the `resolve` oracle. It is deterministic, so the model does not cover the existence check and the conversion pass disagreeing.
- Environment and token loading (bot.py:8-15) is configuration I/O.
- The `ROLES` and `GOALS` text tables, the rules embed text and `create_roles_output` (bot.py:17-71, 179-184) are display strings. Only the role names, the per-role counts the goal texts state, and the role list of `create_rules_embed` are modelled.
- `Shuffling.Shuffle`: proves that the result is a permutation of the role list. It does not prove that every permutation is reachable or equally likely.
- `EveryEligibleUserCanBeKing` shows every eligible player can be King. Uniformity of the King draw is probabilistic and is not stated.
- `Lower` lower-cases only ASCII capitals, while Python's `str.lower` is Unicode-aware. For comparison with `about` and `new` the difference is assumed irrelevant. The only non-ASCII capitals whose lower case contains an ASCII letter map to `k` or to `i` with a combining dot, and neither word contains those letters.
- `HELP_MESSAGE` as the command's docstring (bot.py:173) is framework metadata.
