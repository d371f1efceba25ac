# Mercury reminder bookkeeping in Dafny

Mercury is a chat bot for one community server. A member opens a form, types
a time of day as `HH:MM` and a message, and confirms. At that time the bot
posts the message and repeats a notification sound every 20 seconds until
someone confirms it. Active reminders live in one process-wide table, a
dictionary from integer id to `(time text, message)`. The `/all` command
lists that table after dropping past-due entries, and offers a cancel button
per entry.

This project models the part of `mercury.py` that is logic rather than chat
SDK calls:

- `clock.dfy`, module `Clock` (pure): the form's time check
  (`str.split(':')` then `int` on both parts, hour below 24, minute below
  60); the `%H:%M` reading that `/all` applies to stored times; and the wait
  from "now" to the next moment the clock shows the requested time. A moment
  of the day is an integer number of microseconds since midnight. That is
  the resolution of the clock the bot reads.
- `reminders.dfy`, module `Reminders`: the table as a class
  `ReminderTable` with a `map<Key, Entry>` field, which its methods reassign
  the way the source mutates its dictionary. The methods are:
  - id allocation `max(keys, default=0) + 1`, as a loop over the keys;
  - removal by key, used by the list's cancel button, by the confirm button
    of a fired reminder, and by the routine's final clean-up;
  - the `/all` prune loop over a copy of the table;
  - one reminder's whole routine (`schedule_reminder`);
  - the form's confirm button, which awaits that routine and then writes the
    entry back.

Python's `None` can become a key of the table. `schedule_reminder` returns
nothing when the reminder was cancelled before its time, and the confirm
button then stores the entry under that `None`. The model therefore has
`Key = Id(n) | NoneKey`. Once `None` is a key, `max(keys, default=0) + 1`
raises `TypeError`. With other keys present, comparing `None` with an
integer raises. When `None` is the only key, `max` returns `None`, and
`None + 1` raises.

The awaits are abstract steps given as parameters. `removedDuringWait` says
whether another handler removed the new id while the routine slept until its
slot. `removedDuringSend` says whether it was removed while the notification
message was being posted. Each `Round` of the notification loop says whether the id was removed
during the 20-second sleep and whether the posted message was gone when
fetched again. A routine whose supplied rounds run out before the loop exits
is reported as `StillNotifying`.

## Model

| member | source | states |
|---|---|---|
| `Clock.ParseTime` | mercury.py:99-108 | an accepted text always yields an hour in 0..23 and a minute in 0..59; `None` is the "wrong time format" reply, and no reminder is offered |
| `Clock.ParseTimeOfNumerals` | mercury.py:102-108 | two digit strings around one `:` are read as hour and minute, accepted exactly when both are in range and rejected otherwise |
| `Clock.ParseTimeAccepted` | mercury.py:102-108 | conversely, every accepted text is exactly two digit strings around a single `:`, and the result is their values |
| `Clock.SplitJoin` | mercury.py:103 | the split loses nothing: joining the parts with `:` gives the text back, and no part contains `:` |
| `Clock.ParseFormatTime` | mercury.py:92-105 | every valid time has an `HH:MM` text (the form's label); the form check, the `%H:%M` reading and the corrected check all read it back as that time |
| `Clock.ReadClockTime` | mercury.py:161 | the `%H:%M` reading of a stored time yields only in-range hours and minutes |
| `Clock.ReadClockTimeAgrees` | mercury.py:161 | every text the `%H:%M` reading accepts is also accepted by the form check, with the same hour and minute |
| `Clock.FormAcceptsUnreadableTime` | mercury.py:103-105 | the form accepts `007:5` as 07:05, but the `%H:%M` reading rejects it |
| `Clock.CheckTimeCorrected` | mercury.py:102-108 | the corrected form check (the form's check plus a two-digit limit per field) accepts exactly the texts the `%H:%M` reading accepts, with the same value, and agrees with the form check on each of them |
| `Clock.SlotOf` | mercury.py:256 | today's slot for a valid time lies within the day |
| `Clock.SlotFields` | mercury.py:256 | reading the clock fields back off a slot gives the requested hour and minute, with zero seconds and microseconds |
| `Clock.Delay` | mercury.py:254-259 | the wait is at least 0 and less than one day, and it ends on the requested slot. It crosses midnight exactly when today's slot is strictly before now, and it is 0 exactly when the slot is now |
| `Clock.DelayIsEarliest` | mercury.py:257-258 | no shorter wait reaches the requested slot: the wait leads to the next occurrence, not a later one |
| `Clock.DelayLandsOnTime` | mercury.py:256-259 | the moment the wait ends shows the requested hour and minute, with seconds and microseconds zero |
| `Reminders.MaxOrZero` | mercury.py:261 | the result is 0 for no ids; otherwise it is one of the ids and no id exceeds it |
| `Reminders.NextIdOf` | mercury.py:261 | allocation fails exactly when `None` is a key. Otherwise the new id is not in the table and is greater than every id; it is 1 for a table without ids, and otherwise it is one more than an id in the table |
| `Reminders.IdReusedAfterRemoval` | mercury.py:261-262 | a reminder removed before any other is scheduled gets its id handed out again |
| `Reminders.NoneKeyBlocksAllocation` | mercury.py:123 | once an entry is stored under `None`, every later allocation raises |
| `Reminders.UnexpiredExactly` | mercury.py:156-163 | pruning keeps entries unchanged and drops exactly those whose slot today is strictly before now; each survivor's slot is at or after now |
| `Reminders.UnexpiredLater` | mercury.py:156-163 | pruning at a later moment subsumes pruning earlier, so pruning twice at once is pruning once |
| `Reminders.FirstExit` | mercury.py:286-292 | the result is the first round in which the id was removed or the message was gone; no earlier round ends the loop |
| `Reminders.ReminderTable.constructor` | mercury.py:25 | the table starts empty |
| `Reminders.ReminderTable.NextId` | mercury.py:261 | the loop over the keys computes `NextIdOf` of the table: the `TypeError` on `None`, or the largest id plus 1 (1 when there are none) |
| `Reminders.ReminderTable.Remove` | mercury.py:185-210 | reports whether the key was present (false is the "no longer active" reply); afterwards the key is absent and every other entry is unchanged |
| `Reminders.ReminderTable.ShowAllReminders` | mercury.py:156-167 | when every stored time reads back, the table becomes its pruned version, and the reply is "no active reminders" exactly when that is empty. Otherwise the command raises, having removed only past-due entries and kept every entry that is not past due |
| `Reminders.ReminderTable.ScheduleReminder` | mercury.py:253-297 | the wait is `Delay`. Allocation raises exactly when `None` is a key, and then nothing changes. If the id is gone at wake-up, no notification plays, it returns nothing and the table is as before. If the id is removed while the message is posted, the loop never runs: it returns the id with no notification played. Otherwise it plays one notification per round up to and including the first exiting round, then returns the id with the id absent from the table. If no round exits, the entry is still stored under its fresh id |
| `Reminders.ReminderTable.ConfirmCallback` | mercury.py:116-123 | as written: the outcome follows from the steps. A removal during the wait gives the entry stored under `None`. A removal while posting, or an exiting round, gives a finished routine whose entry is back under its fresh id. A raising allocation leaves the table unchanged |
| `Reminders.ReminderTable.ConfirmCallbackCorrected` | mercury.py:116-123 | corrected: a removal during the wait leaves the table as before; a finished routine's entry is back under its id. The table stays free of `None` and every stored time stays readable, so the next allocation succeeds |

## Findings

| source | as written | input that shows it | evidently intended | confidence | as-written member | corrected member |
|---|---|---|---|---|---|---|
| mercury.py:122-123 | `schedule_reminder` returns `None` for a reminder cancelled before its time (line 267). The confirm button then stores the entry under key `None`, after which `max(keys)` raises `TypeError` and no new reminder can be confirmed until that entry is pruned or cancelled | confirm a reminder, then cancel it from `/all` before it fires | a cancelled reminder leaves no entry, and ids keep being handed out | high, not executed | `Reminders.ReminderTable.ConfirmCallback` | `Reminders.ReminderTable.ConfirmCallbackCorrected` |
| mercury.py:103-105 | the form reads the time with `int`, which accepts leading zeros, so `007:5` (five characters, within the field's limit) is accepted as 07:05. `/all` reads stored times with `%H:%M`, which takes at most two digits per field. So `/all` raises for every caller while that entry is in the table | `007:5` | the form accepts only times that `/all` can read back | high, not executed | `Clock.FormAcceptsUnreadableTime` | `Clock.CheckTimeCorrected` |

## Left out

- The chat SDK: bot start-up, command registration and sync, channel and
  voice-membership checks, forms, buttons, embeds, and sending, editing,
  fetching and deleting messages. These are foreign calls. Where they steer
  the bookkeeping (a fetched message that is gone), they are parameters.
- The voice connection and its five-attempt reconnect loop (`connect_to_voice_channel`,
  `attempt_reconnect`): network I/O.
- Sound playback and stopping (`play_sound`, `stop_current_sound`): audio
  and file-system I/O. The model counts the notification plays and does not
  play anything.
- The wall clock: `now` is a parameter, in microseconds since midnight of
  the current day.
- `Clock.Delay`: the source sleeps for a floating-point number of seconds.
  The model gives the wait as an exact integer number of microseconds.
- Sleep durations and the interleaving of concurrent handlers over the
  shared table. The sleep until the slot, the posting of the message and
  each 20-second sleep are abstract steps. The only effect modelled is
  whether this reminder's own id was removed. Edits that other handlers
  make to other keys during the waits are not modelled. The sound playback
  awaits are not steps of their own; a removal during them is counted in
  the round's `removed`.
- `Reminders.ReminderTable.ScheduleReminder`: does not model an id that is
  removed during the sleep and then handed out again to a new reminder.
  The wake-up check then finds the id present and notifies with this
  reminder's message, and the final clean-up deletes the new reminder's
  entry. The parameters can only say that the id is present or absent.
- `Reminders.ReminderTable.ScheduleReminder`: the notification loop can
  run forever. The model runs it over a finite list of rounds and reports
  `StillNotifying` when they run out.
- `Reminders.ReminderTable.ShowAllReminders`: on a stored time the
  `%H:%M` reading rejects, the source stops partway through its walk over
  the dictionary in insertion order. The model walks the keys in an
  unspecified order, so it bounds the remaining table from both sides and
  does not pin it down.
- `Clock.ParseTime`: Python's `int` also accepts surrounding whitespace, a
  sign, `_` separators and non-ASCII digits. The model accepts only
  non-empty runs of ASCII digits `0`–`9`.
- `Clock.ParseTime`: the form's time field takes at most five characters.
  That limit is enforced by the chat client, so the model's check accepts
  texts of any length. The `007:5` finding depends on that limit only in
  that the text fits in it.
