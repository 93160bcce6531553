# CurfewBot scheduler, config update and target-role list, in Dafny

CurfewBot is a Discord bot that locks down a server, hiding its channels from a set of
target roles, and reopens it later. This project models three parts of it:

- **The calendar poll** (`calendar.dfy`, module `Calendar`). Every 600 seconds the bot
  picks the most recent calendar entry that is due and not completed. It runs that
  entry's action (LOCKDOWN or REOPEN) on every guild that opted into the calendar, can be
  resolved, and is not already in the target state. The calendar is a class `Poller`
  holding `entries: seq<Entry>`. Its method `Tick` holds the loop over guild rows. A run
  on a guild is recorded as a `Call` value, because the lockdown engine is not part of
  this model. `Tick` models the poll with line 51 of
  `Cogs/AutoLockdown/autolockdown.py` passing `meta=report_meta`, as the reopen branch
  does. That poll marks the entry completed and also marks any older, still-open entries
  completed without running them. As written, line 51 raises before the calendar is
  updated whenever a guild is to be locked down. `CallsAsWritten` models that code, and
  "## Findings" below gives the details.
- **The config update** (`config.dfy`, module `Config`). When the template config has a
  higher `Metadata.VERSION` than the user's file, the user's values are written over the
  template by a recursive merge. Otherwise the user's file is kept as it is. A loaded
  YAML document is a `Tree`. Mappings are `Node`s and all other values are `Leaf`s.
  A value the merge copies whole without looking inside, such as a float, a timestamp
  or a list that holds mappings, is an `Opaque` leaf. The
  merge is the pure function `Overlay`. Its failures (KeyError, TypeError) return `None`.
  The module also models reading a configured colour with `int('0x' + s, base=16)`.
- **The target-role list** (`roles.dfy`, module `Roles`). `/config roles add` and
  `/config roles remove` edit the list of role ids that lockdowns apply to. Each
  accepted change is written back as the ids in decimal, joined by commas. The list is a
  class `RoleSettings` with a `seq` field that the two methods reassign.

`outcomes.dfy` holds the `Option` type the three modules share.

Points of the calendar poll that the model follows as the code has them:

- The poll selects entries scheduled strictly before `now` (`<` at
  `Cogs/AutoLockdown/autolockdown.py:33`).
- The comment at `Cogs/AutoLockdown/autolockdown.py:27` says "oldest", but the query at
  line 33 picks the newest due entry.
- A scheduled reopen hands the guild's stored report (`guild_row[3]`, line 60) to the
  reopen engine with no check for a missing report.
- The first completion update (line 66) overwrites the completion time of every entry
  scheduled at the selected time, including entries already completed.

## Model

| member | source | states |
|---|---|---|
| `Calendar.Latest` | Cogs/AutoLockdown/autolockdown.py:33-35 | The selected entry is uncompleted and scheduled strictly before `now`. No other due entry is scheduled later. The result is None exactly when no entry is due. |
| `Calendar.SkipRule` | Cogs/AutoLockdown/autolockdown.py:44-60 | A lockdown skips a guild exactly when its last lockdown is later than its last reopening. A reopening skips exactly when the last lockdown is earlier. With equal times both act, no guild is skipped by both, and a reopening passes the stored report. |
| `Calendar.CallFor` | Cogs/AutoLockdown/autolockdown.py:44-60 | A call on a guild names that guild and carries the poll's provenance (automatic, scheduled time). |
| `Calendar.CalendarGuilds` | Cogs/AutoLockdown/autolockdown.py:38 | The rows read are exactly the STATE_INFO rows of guilds with USE_CALENDAR on. |
| `Calendar.Planned` | Cogs/AutoLockdown/autolockdown.py:39-62 | The calls of the guild loop. Every call carries the entry's provenance, there are no more calls than rows, and an unrecognised action makes no call. `PlannedRow` and `PlannedSplit` state the row order and at most one call per row, and `PlannedCalls` states which calls are made. |
| `Calendar.PlannedCalls` | Cogs/AutoLockdown/autolockdown.py:39-62 | A call is made if and only if some resolvable guild row calls for it under the skip rule. |
| `Calendar.PlannedRow` | Cogs/AutoLockdown/autolockdown.py:40-60 | A single row gives no call when its guild cannot be resolved or the skip rule excludes it, and otherwise exactly the one call for that guild. |
| `Calendar.PlannedSplit` | Cogs/AutoLockdown/autolockdown.py:39-62 | The calls follow the row order: the calls for the whole table are the calls for any leading part of it followed by the calls for the rest. |
| `Calendar.OnlyOptedInGuilds` | Cogs/AutoLockdown/autolockdown.py:38-42 | Every call is for a guild that opted into the calendar and that the bot resolves, with the selected entry's provenance. |
| `Calendar.MarkScheduled` | Cogs/AutoLockdown/autolockdown.py:66 | Every entry at the selected time is completed at the given clock reading, whether or not it already was. Every other entry is unchanged. No action or scheduled time changes. |
| `Calendar.Backfill` | Cogs/AutoLockdown/autolockdown.py:69 | No entry older than the selected time is left uncompleted. Those that were open get the given clock reading. Completed entries and entries at or after the selected time are unchanged. |
| `Calendar.Settle` | Cogs/AutoLockdown/autolockdown.py:66-69 | After both updates every entry at or before the selected time is completed, and every later entry is unchanged. `SettleEffect` gives each entry's fate. |
| `Calendar.SettleEffect` | Cogs/AutoLockdown/autolockdown.py:66-69 | After a poll, every entry at the selected time is completed at the first clock reading. Every older uncompleted entry is completed at the second reading. Later entries and older completed entries are unchanged. No action or scheduled time changes. |
| `Calendar.TickClearsBacklog` | Cogs/AutoLockdown/autolockdown.py:33-69 | Every entry that was due when the poll started is completed afterwards. |
| `Calendar.TickIdempotent` | Cogs/AutoLockdown/autolockdown.py:33-69 | A second poll at the same time, with no new entries, finds nothing due. |
| `Calendar.Poller.constructor` | Cogs/AutoLockdown/autolockdown.py:30 | The poller starts from the calendar as stored. |
| `Calendar.Poller.Tick` | Cogs/AutoLockdown/autolockdown.py:25-75 | The poll with line 51 corrected to pass `meta=report_meta`, the corrected member of "## Findings". With nothing due, a poll makes no call and leaves the calendar alone. Otherwise its calls are those planned for the latest due entry over the opted-in guilds, in table order, and the calendar is the settled one. |
| `Calendar.CallsAsWritten` | Cogs/AutoLockdown/autolockdown.py:44-51 | The guild loop as written. It raises only for a lockdown, and when it does not raise its calls are the planned ones. |
| `Calendar.AsWrittenRaises` | Cogs/AutoLockdown/autolockdown.py:44-51 | As written, a poll raises if and only if it is a lockdown that would make at least one lockdown call. |
| `Calendar.LockdownNeverCompletesAsWritten` | Cogs/AutoLockdown/autolockdown.py:44-71 | As written, a lockdown entry with any guild to lock down leaves the calendar uncommitted. Any later poll that runs selects an entry at least as recent. |
| `Calendar.StuckEntrySettled` | Cogs/AutoLockdown/autolockdown.py:33-69 | A poll that gets past a stuck entry settles it. If it selects a newer entry, the second update completes the stuck entry without running it. If it selects an entry at the same time, the first update completes it. |
| `Calendar.LockdownOvertakenExample` | Cogs/AutoLockdown/autolockdown.py:33-69 | A lockdown at 100 and a reopening at 1000: as written the poll at 700 raises, and the poll at 1300 selects the reopening and completes the lockdown entry, which never ran. |
| `Calendar.LockdownStuckExample` | Cogs/AutoLockdown/autolockdown.py:51-71 | One lockdown entry and one open guild: as written the entry is selected again at the next poll. As corrected it is run once and the next poll is idle. |
| `Config.Overlay` | utils.py:43-50 | A non-empty mapping over a plain value fails. A successful merge of a mapping into a mapping keeps the keys of both, so nested mappings are merged key by key and not replaced. `OverlayFailsIff`, `OverlayKeepsOverLeaves` and `OverlayKeepsBaseOnly` state when it fails and what it keeps. |
| `Config.OverlayFailsIff` | utils.py:43-50 | The merge fails if and only if, along some path through mappings of both trees, the user's file has a mapping under a key the template lacks, or a non-empty mapping where the template has a plain value. |
| `Config.ClashOf` | utils.py:43-50 | A failed merge has a clash path. |
| `Config.ClashFails` | utils.py:43-50 | A clash path makes the merge fail. |
| `Config.MissingKeyFails` | utils.py:48 | A mapping in the user's file under a key the template lacks makes the merge fail (KeyError). |
| `Config.OverlayKeepsOverLeaves` | utils.py:44-46 | Every non-mapping value of the user's file appears at the same path of the merged result. |
| `Config.OverlayKeepsBaseOnly` | utils.py:39-48 | At a path the user's file does not set (a missing key, or an empty mapping, over which the loop at line 44 does nothing), the merged result holds the template's value. |
| `Config.Version` | utils.py:37 | The version is present exactly when `Metadata.VERSION` holds an integer, and then it is that integer. |
| `Config.WithVersion` | utils.py:41 | Setting the user's version gives a tree whose version is the template's, with the same top-level keys. |
| `Config.WithVersionElsewhere` | utils.py:41 | Setting the version changes no other value. |
| `Config.UpdateConfig` | utils.py:31-59 | A result exists only when both versions can be read, and it carries the greater of the two versions. `NotOutdatedUnchanged`, `UpdatedFile` and `UpdateFails` state the rest. |
| `Config.NotOutdatedUnchanged` | utils.py:37-59 | If the template's version is not greater, the user's file is returned unchanged. |
| `Config.UpdatedFile` | utils.py:37-55 | An updated file has the template's version. It keeps every other plain value the user set, and keeps the template's value where the user set none. |
| `Config.UpdateFails` | utils.py:31-59 | The update fails if and only if a version is unreadable, or the template is newer and the user's file clashes with it. |
| `Config.TrimEnd` | utils.py:79 | Python's `int()` removes trailing whitespace and nothing else. |
| `Config.ParseHexColor` | utils.py:79 | A string that parses starts with a hex digit or an underscore, never with whitespace, since whitespace there follows the `0x` prefix. It holds only hex digits, underscores and whitespace. `ParseHexRoundTrip` and `SixDigitColor` state which strings parse and to what. |
| `Config.GetColor` | utils.py:78-79 | A colour is read only from a string stored under `Colors` at the key, and it is that string's parsed value. |
| `Config.ParseHexRoundTrip` | utils.py:78-79 | The lower-case numeral of any number, without leading zeros and followed by any whitespace, parses back to that number. |
| `Config.Numeral` | utils.py:79 | The reference encoder for every way of writing a colour: as many hex digits as asked for, leading zeros included, each in the case asked for. |
| `Config.HexValueOfNumeral` | utils.py:79 | A numeral with enough digits for a number has that number as its value. |
| `Config.ParseNumeral` | utils.py:78-79 | A number written in hex digits of either case, with or without leading zeros, and followed by any whitespace, parses back to that number. |
| `Config.NumeralOf` | utils.py:79 | Every non-empty string of hex digits is the numeral of its value for some choice of case, so `ParseNumeral` covers every such string. |
| `Config.LeadingZeroColor` | utils.py:79 | A colour written with leading zeros and upper case, "00FF00", reads as 0xFF00. |
| `Config.HexValueBound` | utils.py:79 | A value with k hex digits is below 16^k. |
| `Config.SixDigitColor` | utils.py:79 | Six hex digits always parse, to a 24-bit colour. |
| `Config.ConfiguredColor` | utils.py:78-79 | `getColor` returns the value of the lower-case hex string stored under `Colors`, with trailing whitespace allowed. A missing key or a non-string value gives no colour. `ConfiguredNumeral` covers the other ways of writing a colour. |
| `Config.ConfiguredNumeral` | utils.py:78-79 | `getColor` returns the value of a hex string stored under `Colors` whether it is written in upper or lower case, with or without leading zeros, and with trailing whitespace. |
| `Roles.FirstIndex` | Cogs/ServerConfig/serverconfig.py:65 | The index found holds the role, and no earlier index does. |
| `Roles.RemoveFirst` | Cogs/ServerConfig/serverconfig.py:62-65 | Removing an absent role changes nothing. Removing a present role shortens the list by one and adds no role. |
| `Roles.RemoveFirstAt` | Cogs/ServerConfig/serverconfig.py:65 | Removing deletes the first occurrence and keeps the other roles in order. |
| `Roles.RemoveFirstMultiset` | Cogs/ServerConfig/serverconfig.py:65 | Removing takes away exactly one copy of the role. |
| `Roles.AppendKeepsNoDuplicates` | Cogs/ServerConfig/serverconfig.py:47-50 | Appending a role not yet listed keeps the list free of duplicates. |
| `Roles.RemoveKeepsNoDuplicates` | Cogs/ServerConfig/serverconfig.py:62-65 | Removing keeps a duplicate-free list duplicate-free, and the role is then gone. |
| `Roles.AddThenRemove` | Cogs/ServerConfig/serverconfig.py:47-65 | Adding a role not in the list and then removing it restores the original list. |
| `Roles.Decimal` | Cogs/ServerConfig/serverconfig.py:51 | `str(id)` is a non-empty string of decimal digits with no leading zero. |
| `Roles.DecimalRoundTrip` | Cogs/ServerConfig/serverconfig.py:51 | The decimal string of an id has that id as its value. |
| `Roles.Join` | Cogs/ServerConfig/serverconfig.py:51-66 | The stored value is empty exactly for the empty list, and holds only digits and commas. |
| `Roles.JoinCommas` | Cogs/ServerConfig/serverconfig.py:51-66 | A stored non-empty list has one comma fewer than it has ids. |
| `Roles.JoinRoundTrip` | Cogs/ServerConfig/serverconfig.py:51-66 | Splitting the stored value at commas and reading each field as decimal gives back the list. |
| `Roles.JoinInjective` | Cogs/ServerConfig/serverconfig.py:51-66 | Different lists are stored as different strings. |
| `Roles.RoleSettings.constructor` | Cogs/ServerConfig/serverconfig.py:46 | Editing starts from the loaded list and the stored value. |
| `Roles.RoleSettings.AddRole` | Cogs/ServerConfig/serverconfig.py:43-55 | A role already listed is rejected and nothing changes. Otherwise the role is appended, the list is stored comma-joined, and a duplicate-free list stays duplicate-free. |
| `Roles.RoleSettings.RemoveRole` | Cogs/ServerConfig/serverconfig.py:58-70 | A role not listed is rejected and nothing is stored. Otherwise its first occurrence is removed, the list is stored comma-joined, and a duplicate-free list stays duplicate-free without the role. |

## Findings

| source | as written | input that shows it | evidently intended | confidence | as-written member | corrected member |
|---|---|---|---|---|---|---|
| Cogs/AutoLockdown/autolockdown.py:51 | The scheduled lockdown passes `meta=get_meta(ctx)`. Neither name exists in the module, so building the first lockdown call raises NameError. The calendar commit at line 71 is never reached. The entry stays uncompleted. The poll runs as a `tasks.loop` (line 25). In the `discord.ext.tasks` library, which is not part of this model, an exception the loop body does not catch stops the loop, so no further poll runs until the cog is started again. If polling is restarted, every poll selects the entry again and fails the same way, until a newer entry falls due. That entry's poll completes the stuck one by the update at line 69 without ever running it. | One LOCKDOWN entry scheduled at 100, a poll at 700, and one opted-in, resolvable guild whose last lockdown and last reopening are both 0. | Pass `meta=report_meta`, as the reopen branch does at line 60. The guild is locked down once, the entry is completed, and the next poll finds nothing due. | high; not executed | `Calendar.LockdownStuckExample` | `Calendar.Poller.Tick` |

## Left out

- The lockdown and reopen engine (`server_lockdown`, `server_reopen`) and the settings getters (`get_target_roles`, `get_ignored_roles`, `get_ignored_channel_ids`, `get_ignore_overwrites_preference`) are not part of this model. A poll records the calls it would make as `Call` values, and the role commands take the loaded list as input.
- `connect_calendar` and `CALENDAR_PATH` are not part of this model. The calendar is an in-memory `seq<Entry>`.
- SQLite and aiosqlite queries, commits and connection handling are left out. The tables are sequences and sets in memory.
- Discord API calls, `wait_until_ready`, the `tasks.loop` timer, the two-second pacing sleep and all other asynchronous concurrency are left out. The poll is one sequential call.
- `datetime.now().timestamp()` floats are left out. Timestamps are integers, and the three clock readings of one poll are parameters.
- `json.loads` of the stored report is left out as a library call. The report is opaque text, and a report that fails to parse is not modelled.
- NULL timestamps in STATE_INFO are left out. Comparing them raises in Python. The model's timestamps are always integers.
- Logging, the operator responses of the role commands, and the embed of `list_roles` are left out.
- Parsing the stored role string back into ids happens in `get_target_roles`, which is not part of this model. `ParseIds` is the model's own decoder. It only shows that the stored form is unambiguous.
- Role equality: Discord roles compare by id, so a role is its id.
- `genFromTemplate`, `getConfig`, YAML loading and dumping, `getRootPath`, `connect_db`, `getPrefix`, `main.py`, `Cogs/LogMessages/logmessages.py` and `Cogs/AdminCommands/admincommands.py` are left out. They do file I/O, process set-up, message formatting, or nothing.
- Calendar.Latest: SQLite leaves the choice among entries with the same greatest time open. The model takes the first in table order.
- Config.Version: a VERSION that is not an integer counts as an error. Python would compare floats, booleans or two strings.
- Config.Overlay: shared (anchored) nodes are modelled as independent copies. YAML anchors and aliases are loaded as one shared mapping, and the in-place merge at lines 46 and 48 of `utils.py` writes through every alias of it.
- Config.Overlay: the order of keys in the dumped file is not modelled. KeyError and TypeError are one failure, since which one is raised depends on key order.
- Config.ParseHexColor: non-ASCII decimal digits, which Python's `int()` also accepts, are rejected.
