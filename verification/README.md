# ProspectiveDespairBot: a Dafny model of its scheduling and ledger logic

This project models the pure logic inside three parts of a Discord bot that
runs a role-play game:

- **The day/night announcement cog** (`cogs/auto_announcements.py`). A
  background loop reads the US/Eastern wall-clock time. It sleeps until the
  next 08:00 or 22:00 boundary, wakes, and posts the day or night payload
  through a webhook. It then sleeps a flat hour and starts again. Two slash
  commands post either payload by hand.
- **The interaction-point ledger** (`cogs/interactions.py`). Owner-only
  commands add, subtract and reset per-user point balances. They also list the
  balances and add or remove a player.
- **The bot's entry point** (`main.py`). This covers the global command check,
  the command prefixes, the hyphen-to-underscore command lookup and the
  connect message.

Modules:

| file | module | contents |
|---|---|---|
| `wrappers.dfy` | `Wrappers` | `Option` and `Result` |
| `wall_clock.dfy` | `WallClock` | A local date-time as a day index plus hour, minute, second and microsecond. Includes the conversion to and from microseconds and its injectivity on valid date-times. |
| `auto_announcements.dfy` | `AutoAnnouncements` | The payload, the wake-time rule, one loop iteration, the trace of many iterations and the manual commands |
| `decimal_text.dfy` | `DecimalText` | Decimal digit strings: rendering a user id, and reading plain decimal literals |
| `interactions.dfy` | `Interactions` | The ledger as `map<int, real>` and every ledger command |
| `bot_main.dfy` | `BotMain` | `global_checks`, `pd_prefixes`, the `get_context` fallback and the `on_ready` message |

Time is abstract. The calendar is a day index, so there are no months or
years, and there is no timezone offset or daylight-saving change. Sleeping
advances a simulated clock. Each sleep may overshoot its target by a
`Lateness` given as a parameter; punctual sleeps have lateness zero. The
webhook is an append-only log of posted payloads. Balances are decimals,
modelled as exact `real` values, without the 28-digit rounding of Python's
`Decimal` (see "Left out"). The database table is modelled as a map from user id to
balance.

Two details of the loop as the code has them:

- A failed webhook send is not caught inside the loop. There is no handler
  around the loop's send, so a delivery error would end the background task.
  The model does not model delivery or its failures (see "Left out").
- The phase announced is recomputed after waking, not carried over from the
  boundary the loop slept until. The loop re-reads the clock and announces
  day exactly when the hour is before noon. The model follows the code, and `StepAlternates` proves
  that the two agree whenever each sleep overshoots by less than an hour.

## Model

| member | source | states |
|---|---|---|
| AutoAnnouncements.GenEmbed | cogs/auto_announcements.py:33-54 | Every payload has the title "Announcement from Monokuma", colour 13632027 and the fixed image. The description is the day text when the flag is set and the night text otherwise. |
| AutoAnnouncements.GenEmbedInjective | cogs/auto_announcements.py:33-54 | Title, colour and image are the same for both flags. The two payloads are equal only when the flags are equal, so a posted payload identifies its phase. |
| AutoAnnouncements.NextWake | cogs/auto_announcements.py:78-92 | Hour >= 22 gives the next day at 08:00:00.000000. Hour < 8 gives the same day at 08:00. Any other hour, including exactly 08:00:00, gives the same day at 22:00. The wake time is strictly after now and at most 14 hours after it. |
| AutoAnnouncements.NextWakeIsEarliestBoundary | cogs/auto_announcements.py:80-92 | No 08:00 or 22:00 boundary lies strictly between now and the computed wake time, so none is skipped and none fires twice. |
| AutoAnnouncements.NextWakeExamples | cogs/auto_announcements.py:81-92 | 21:59 wakes at 22:00 the same day. Exactly 22:00 wakes at 08:00 the next day. 03:00 wakes at 08:00 the same day. Exactly 08:00 wakes at 22:00 the same day. |
| AutoAnnouncements.PhaseAfterWake | cogs/auto_announcements.py:95-97 | Waking less than an hour after 08:00 announces day. Waking less than an hour after 22:00 announces night. |
| AutoAnnouncements.Step | cogs/auto_announcements.py:77-99 | One iteration sleeps until the computed boundary and wakes after the sleep's overshoot. It announces day iff the waking hour is before noon. It next reads the clock 3600 s (plus overshoot) after waking. |
| AutoAnnouncements.Run | cogs/auto_announcements.py:77-99 | n iterations send exactly n announcements. Each is sent strictly after the start, the send times strictly increase, and each is day iff sent before noon. |
| AutoAnnouncements.StepAlternates | cogs/auto_announcements.py:77-99 | Suppose both sleeps overshoot by under an hour. Then an iteration announces the phase of the boundary it slept until, and the next iteration sleeps until the other boundary. |
| AutoAnnouncements.RunAlternates | cogs/auto_announcements.py:77-99 | From any start time, with every sleep under an hour late, announcements alternate day and night. Each is sent in the 08:xx hour (day) or the 22:xx hour (night). |
| AutoAnnouncements.PunctualRunHitsBoundaries | cogs/auto_announcements.py:77-99 | From any start time, with punctual wake-ups, every announcement is sent exactly at 08:00:00.000000 (day) or 22:00:00.000000 (night). The phases alternate. |
| AutoAnnouncements.StartBeforeDawn | cogs/auto_announcements.py:77-99 | Started at 07:59:59 with punctual sleeps, one iteration sends exactly one day announcement at 08:00:00. The next iteration then sleeps until 22:00, so the loop does not spin. |
| AutoAnnouncements.LoopIteration | cogs/auto_announcements.py:94-99 | An iteration posts exactly one payload and keeps the earlier posts. The task next reads the clock strictly later than before. |
| AutoAnnouncements.Announce | cogs/auto_announcements.py:62-74 | A manual announcement posts exactly the chosen payload after the earlier posts and leaves the loop's clock unchanged. |
| AutoAnnouncements.RunNightAnnouncement | cogs/auto_announcements.py:62-64 | Posts the night payload once, replies "Done!", and leaves the loop's clock untouched. |
| AutoAnnouncements.RunDayAnnouncement | cogs/auto_announcements.py:72-74 | Posts the day payload once, replies "Done!", and leaves the loop's clock untouched. |
| AutoAnnouncements.ManualCommutesWithLoop | cogs/auto_announcements.py:62-99 | A manual announcement may be sent before or after a loop iteration. Either way the loop resumes at the same time and the same payloads are posted, only in a different order. |
| Interactions.AddDecimalValue | cogs/interactions.py:22-26 | Adding a decimal gives the sum. Adding text gives the sum with the value the text spells. Unreadable text fails with InvalidOperation. |
| Interactions.AddDecimalValueTextAgrees | cogs/interactions.py:22-26 | A numeric string and the decimal it spells give the same result. |
| DecimalText.ParseHalf | cogs/interactions.py:105 | The text "0.5" that the event command adds denotes exactly one half. |
| Interactions.UpdateSelected | cogs/interactions.py:42-47 | Every listed member who has a row gets the addend added once, however often they are listed. Other rows are unchanged and no row is created. It fails only if the addend is unreadable and some row is selected. |
| Interactions.AddInteraction | cogs/interactions.py:35-47 | Existing rows of listed members gain `count` (default 1). All other rows are unchanged and no keys are added or removed. |
| Interactions.RemoveInteraction | cogs/interactions.py:66-80 | Existing rows of listed members lose `count`, with no clamp at zero. All other rows and the key set are unchanged. |
| Interactions.RemoveInteractionGoesNegative | cogs/interactions.py:76-80 | Removing one point from a balance of 0.5 leaves -0.5. |
| Interactions.RemoveInteractionClamped | cogs/interactions.py:76-80 | The intended command never leaves a selected balance below zero. It subtracts exactly `count` when that stays non-negative, sets the balance to exactly 0 when it would fall below zero, and changes nothing else. |
| Interactions.ClampedRemoveKeepsBalancesNonNegative | cogs/interactions.py:76-80 | With the intended clamp, a ledger whose balances are all non-negative stays that way. |
| Interactions.AddEvent | cogs/interactions.py:97-106 | Existing rows of listed members gain exactly 0.5. Nothing else changes. |
| Interactions.ResetInteractions | cogs/interactions.py:120-131 | Afterwards the ledger's keys are exactly the user ids of alive participants, each with balance 0. Earlier entries play no part. |
| Interactions.InsertDesc | cogs/interactions.py:140 | Inserting a row into a non-increasing list keeps it non-increasing and adds exactly that row. |
| Interactions.ListInteractions | cogs/interactions.py:139-142 | The listing is a permutation of the rows, in non-increasing balance order. |
| Interactions.ListingShowsLedger | cogs/interactions.py:139-142 | Listing the whole table shows each user of the ledger exactly once, with that user's balance, in non-increasing order. |
| Interactions.RemovePlayer | cogs/interactions.py:161-175 | Deletes exactly the user's row. It raises "does not exist" iff the user had no row, and then the ledger is unchanged. |
| Interactions.AddPlayer | cogs/interactions.py:181-195 | Raises "already in interactions" iff the user has a row, leaving the ledger unchanged. Otherwise it adds the user with balance 0 and changes no other row. |
| Interactions.AddThenRemoveRestores | cogs/interactions.py:165-195 | Adding a new player and then removing them restores the original ledger. |
| Interactions.RemoveThenAddResets | cogs/interactions.py:165-195 | Removing a player and adding them back resets only that player's balance to 0. |
| Interactions.ViewInteractions | cogs/interactions.py:202-220 | A user with a row sees their own balance. Any other user gets "You aren't in the KG!". |
| BotMain.GlobalChecks | main.py:37-47 | False when the bot is not ready, while the initial load runs, or outside a guild. Otherwise true iff the guild is 786609181855318047 or the author is the owner. |
| DecimalText.NatToDigits | main.py:32 | A user id is rendered as at least one digit with no leading zero, and the digits denote the id. |
| BotMain.PdPrefixes | main.py:31-34 | Exactly three distinct prefixes: the bot's mention plus a space, its `<@!id>` mention plus a space, and "p!". |
| BotMain.HyphensToUnderscores | main.py:141 | Same length, and every `-` becomes `_` with all other characters kept. |
| BotMain.HyphensToUnderscoresIdempotent | main.py:141 | The rewritten name has no hyphen, and rewriting it again changes nothing. |
| BotMain.GetContext | main.py:139-143 | A resolved command is kept. With no command and an empty or missing invoking word, none is found. Otherwise the lookup is retried with hyphens made underscores, and succeeds iff that name is registered. |
| BotMain.HyphenatedNameFindsCommand | main.py:139-143 | A command registered under an underscore name is found from its hyphenated spelling. |
| BotMain.ConnectMessage | main.py:94-98 | "Logged in at <time>!" during the initial load, otherwise "Reconnected at <time>!". |
| BotMain.ConnectMessagesDiffer | main.py:94-98 | The first-connection message starts "Logged in" and the reconnection message starts "Reconnected", so they never coincide. |

## Findings

| source | as written | input that shows it | evidently intended | confidence | as-written member | corrected member |
|---|---|---|---|---|---|---|
| cogs/interactions.py:78-79 | A balance below zero is compared with "0" and the result is discarded, so the negative balance is saved | Balance 0.5, remove 1 point: -0.5 is stored | The balance is set to "0" | high; not executed | Interactions.RemoveInteractionGoesNegative | Interactions.RemoveInteractionClamped |

The command model `Interactions.RemoveInteraction` keeps the as-written
behaviour, because that is what the bot does.

## Left out

- Interactions.AddDecimalValue: reads only plain literals of the form `[+|-]digits[.digits]`. Python's `Decimal` also accepts exponents, `NaN`, `Infinity`, surrounding whitespace, `_` digit separators and non-ASCII Unicode decimal digits; the model reports these as `InvalidOperation`. Every addend the commands actually pass (`Decimal` values and "0.5") is covered.
- Interactions.AddDecimalValue: does not model the 28-significant-digit rounding of Python's default `Decimal` context. The model adds exact `real` values, so sums that need more than 28 significant digits (1 plus `1E-30`, say) differ from what the bot stores.
- Interactions.ListInteractions: does not state that equal balances keep the database's row order. The insertion does place earlier rows first, but stability is not proved.
- Interactions.ResetInteractions: `cards.participants` and `cards.Status` are not part of this model. Only `ALIVE` matters to the command, so every other status is modelled as one `Dead` status. If a user id appears twice, the model keeps one zero entry; the database's behaviour on a duplicate insert is not modelled.
- Suspension and cancellation: `sleep_until` and `asyncio.sleep` are modelled only as advancing the simulated clock. Cancellation in `cog_unload` and concurrent interleaving of commands with the loop are runtime behaviour. `ManualCommutesWithLoop` covers the only shared state, the posted-payload log.
- Early wake-ups: every sleep is assumed to end at or after its target (`Lateness` is a non-negative overshoot). A timer that fires slightly early, before the 08:00 or 22:00 boundary, is not modelled; `RunAlternates`' claim that each announcement falls in its boundary's own hour relies on this.
- Timezone and calendar: pytz US/Eastern offsets, daylight-saving shifts and month/year rollover. The calendar is a day index. `relativedelta` is modelled as replacing the time fields and then adding whole days.
- Delivery: webhook sends and their failures, the aiohttp session, message deletion, replies, embed colours and descriptions of the interaction commands (including the "an interaction" vs "{count} interactions" wording), `ctx.typing`, and mention rendering in replies. These are external I/O.
- Decimal formatting: the ledger stores `real` values, not the strings the database holds, so `str(Decimal)` formatting is not modelled. `DecimalConverter` is argument parsing by the command framework.
- Database: the ORM queries are modelled as map operations. Each user is assumed to have at most one row; `common/models.py` is not part of this model.
- Bootstrap and other events: `on_init_load`, extension loading, logging, `git pull`, `bot.run`, `on_disconnect`, `on_resumed`, `on_error` and `close` are start-up or connection glue. So are waiting for `owner` and changing presence in `on_ready`. `GlobalChecks` takes the owner's id as given.
- Command registration: slash-command guild ids, permissions and command aliases are framework configuration.
- `cogs/cast_reveal.py`: a random shuffle followed by timed sends and role changes, with no stateable logic of its own.
