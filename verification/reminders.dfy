/**
 * The bot's table of active reminders and every operation that reads or
 * edits it: handing out ids, cancelling from the reminder list, pruning
 * past-due entries, the life of one scheduled reminder, and the confirm
 * button of the reminder form that starts that life.
 */
module Reminders {
  import opened Clock

  /**
   * A key of the table. Ids are integers; NoneKey is the key the confirm
   * button writes when the scheduling routine returned nothing at all.
   */
  datatype Key = Id(n: int) | NoneKey

  /** What the table stores per reminder: the time text as typed and the message. */
  datatype Entry = Entry(time: string, message: string)

  /** The result of `max(keys, default=0) + 1`: an id, or the type error a NoneKey causes. */
  datatype Allocation = Allocated(id: int) | TypeError

  /**
   * How one scheduled reminder's routine ended: it raised while taking an
   * id, it returned (nothing when the reminder was gone at wake-up time,
   * otherwise its id), or it is still repeating its notification after the
   * rounds the caller supplied.
   */
  datatype Outcome = Raised | Returned(result: Option<int>) | StillNotifying(pending: int)

  /**
   * What happened during one 20-second round of the notification loop:
   * whether some other handler removed this reminder's id while it slept,
   * and whether the notification message was gone when fetched again.
   */
  datatype Round = Round(removed: bool, messageGone: bool)
  {
    predicate Exits() { removed || messageGone }
  }

  /** Every stored time passed the form's check, so it reads as a time of day. */
  predicate WellFormed(m: map<Key, Entry>)
  {
    forall k :: k in m ==> ParseTime(m[k].time).Some?
  }

  /** The integer ids in use. */
  function IntIds(m: map<Key, Entry>): set<int>
  {
    set k | k in m && k.Id? :: k.n
  }

  /** Helper for MaxOrZero: a set without members is the empty set. */
  lemma EmptyWithoutMembers(s: set<int>)
    requires forall y :: y !in s
    ensures s == {}
  {
    assert forall y :: y in s <==> y in {};
  }

  /** Helper for MaxOrZero: a non-empty set has a member to pick. */
  lemma NonEmptyHasMember(s: set<int>)
    requires s != {}
    ensures exists y :: y in s
  {
    if forall y :: y !in s {
      EmptyWithoutMembers(s);
      assert false;
    }
  }

  /** The largest of a set of integers, or 0 for the empty set. */
  ghost function MaxOrZero(ids: set<int>): (top: int)
    ensures ids == {} ==> top == 0
    ensures ids != {} ==> top in ids
    ensures forall i :: i in ids ==> i <= top
    decreases ids
  {
    if ids == {} then 0
    else
      NonEmptyHasMember(ids);
      var x :| x in ids;
      var rest := ids - {x};
      assert forall i :: i in ids ==> i == x || i in rest;
      if rest == {} then x
      else
        var r := MaxOrZero(rest);
        if x < r then r else x
  }

  /**
   * The next id: one above the largest id in use, 1 for an empty table.
   * A NoneKey in the table makes it raise instead: comparing None with an
   * id raises, and when None is the only key, max returns None and adding
   * 1 to it raises.
   */
  ghost function NextIdOf(m: map<Key, Entry>): (a: Allocation)
    ensures a.Allocated? <==> NoneKey !in m
    ensures a.Allocated? ==> Id(a.id) !in m
    ensures a.Allocated? ==> forall i :: i in IntIds(m) ==> i < a.id
    ensures a.Allocated? ==> (if IntIds(m) == {} then a.id == 1 else Id(a.id - 1) in m)
  {
    if NoneKey in m then TypeError
    else
      var a := Allocated(MaxOrZero(IntIds(m)) + 1);
      assert Id(a.id) in m ==> a.id in IntIds(m);
      a
  }

  /**
   * Ids are not unique over time: a reminder removed before any other is
   * scheduled leaves the table as it found it, so the next reminder gets
   * the same id.
   */
  lemma IdReusedAfterRemoval(m: map<Key, Entry>, e: Entry)
    requires NextIdOf(m).Allocated?
    ensures var id := NextIdOf(m).id;
            NextIdOf(m[Id(id) := e] - {Id(id)}) == Allocated(id)
  {
    var id := NextIdOf(m).id;
    assert m[Id(id) := e] - {Id(id)} == m;
  }

  /** Writing an entry under NoneKey makes every later id allocation raise. */
  lemma NoneKeyBlocksAllocation(m: map<Key, Entry>, e: Entry)
    ensures NextIdOf(m[NoneKey := e]) == TypeError
  {
  }

  /**
   * An entry is past due when the list reads its time and today's slot for
   * it is strictly before `now`.
   */
  predicate IsPast(e: Entry, now: int)
  {
    ReadClockTime(e.time).Some? && SlotOf(ReadClockTime(e.time).value) < now
  }

  /** The list can read every stored time back. */
  predicate Readable(m: map<Key, Entry>)
  {
    forall k :: k in m ==> ReadClockTime(m[k].time).Some?
  }

  /** The table with its past-due entries dropped. */
  function Unexpired(m: map<Key, Entry>, now: int): map<Key, Entry>
  {
    map k | k in m && !IsPast(m[k], now) :: m[k]
  }

  /** `small` holds some of the entries of `big`, each unchanged. */
  predicate SubTable(small: map<Key, Entry>, big: map<Key, Entry>)
  {
    forall k :: k in small ==> k in big && small[k] == big[k]
  }

  /**
   * Pruning drops exactly the past-due entries: what is left is an unchanged
   * entry of the table whose slot today is not before `now`, and what is
   * gone was past due.
   */
  lemma UnexpiredExactly(m: map<Key, Entry>, now: int, k: Key)
    requires Readable(m)
    ensures SubTable(Unexpired(m, now), m)
    ensures k in Unexpired(m, now) ==> now <= SlotOf(ReadClockTime(m[k].time).value)
    ensures k in m && k !in Unexpired(m, now) ==> SlotOf(ReadClockTime(m[k].time).value) < now
  {
  }

  /** Pruning later subsumes pruning earlier; in particular pruning twice at once is pruning once. */
  lemma UnexpiredLater(m: map<Key, Entry>, earlier: int, later: int)
    requires earlier <= later
    ensures Unexpired(Unexpired(m, earlier), later) == Unexpired(m, later)
  {
  }

  /** The reply of the reminder list command after its prune. */
  datatype ListReply = NoActiveReminders | ShowList | ListRaised

  /** The index of the first notification round that ends the loop, or the number of rounds when none does. */
  function FirstExit(rounds: seq<Round>): (k: nat)
    ensures k <= |rounds|
    ensures forall j :: 0 <= j < k ==> !rounds[j].Exits()
    ensures k < |rounds| ==> rounds[k].Exits()
  {
    if rounds == [] then 0
    else if rounds[0].Exits() then 0
    else 1 + FirstExit(rounds[1..])
  }

  /** The process-wide table of active reminders. */
  class ReminderTable {
    var entries: map<Key, Entry>

    ghost predicate Valid()
      reads this
    {
      WellFormed(entries)
    }

    /** The table starts empty when the bot starts. */
    constructor ()
      ensures Valid() && entries == map[]
    {
      entries := map[];
    }

    /**
     * `max(active_reminders.keys(), default=0) + 1`: one pass over the keys
     * that raises on meeting NoneKey, keeping the largest id seen.
     */
    method NextId() returns (a: Allocation)
      ensures a == NextIdOf(entries)
    {
      var todo := entries.Keys;
      ghost var seen: set<int> := {};
      var top, found := 0, false;
      while todo != {}
        invariant todo <= entries.Keys
        invariant NoneKey !in entries.Keys - todo
        invariant seen == IntIds(map k | k in entries && k !in todo :: entries[k])
        invariant found <==> seen != {}
        invariant seen == {} ==> top == 0
        invariant seen != {} ==> top in seen
        invariant forall i :: i in seen ==> i <= top
        decreases todo
      {
        var k :| k in todo;
        if k == NoneKey {
          return TypeError;
        }
        top := if !found || top < k.n then k.n else top;
        found := true;
        seen := seen + {k.n};
        todo := todo - {k};
      }
      assert seen == IntIds(entries);
      a := Allocated(top + 1);
    }

    /**
     * Removes `key` if it is present, and says whether it was. This is the
     * cancel button of the reminder list (false is its "no longer active"
     * reply), the confirm button of a fired reminder, and the clean-up at
     * the end of a reminder's routine.
     */
    method Remove(key: Key) returns (removed: bool)
      requires Valid()
      modifies this
      ensures Valid()
      ensures removed == (key in old(entries))
      ensures entries == old(entries) - {key}
    {
      removed := key in entries;
      if removed {
        entries := entries - {key};
      }
    }

    /**
     * The reminder list command up to its reply: walks a copy of the table
     * and deletes from the table every entry whose time today is already
     * past, then replies that nothing is active or shows what is left. A
     * stored time the clock format cannot read raises in the middle of the
     * walk, leaving the entries not yet walked in place.
     */
    method ShowAllReminders(now: int) returns (reply: ListReply)
      requires Valid()
      modifies this
      ensures Valid()
      ensures Readable(old(entries)) ==> entries == Unexpired(old(entries), now)
      ensures Readable(old(entries)) ==> (reply == NoActiveReminders <==> entries == map[])
      ensures Readable(old(entries)) ==> reply != ListRaised
      ensures !Readable(old(entries)) ==> reply == ListRaised
      ensures !Readable(old(entries)) ==>
                SubTable(Unexpired(old(entries), now), entries) && SubTable(entries, old(entries))
    {
      var copy := entries;
      var todo := copy.Keys;
      while todo != {}
        invariant todo <= copy.Keys
        invariant WellFormed(entries)
        invariant entries == map k | k in copy && (k in todo || !IsPast(copy[k], now)) :: copy[k]
        invariant forall k :: k in copy && k !in todo ==> ReadClockTime(copy[k].time).Some?
        decreases todo
      {
        var k :| k in todo;
        if ReadClockTime(copy[k].time).None? {
          return ListRaised;
        }
        if IsPast(copy[k], now) {
          entries := entries - {k};
        }
        todo := todo - {k};
      }
      assert Readable(copy);
      reply := if entries == map[] then NoActiveReminders else ShowList;
    }

    /**
     * One reminder's routine, from computing the wait to returning. The
     * awaits are abstract steps: `removedDuringWait` says whether another
     * handler removed the new id while the routine slept until the slot,
     * `removedDuringSend` whether it was removed while the notification
     * message was being posted, and `rounds` what happened in each round
     * of the notification loop. `notifications` counts the notification
     * sounds played.
     */
    method ScheduleReminder(time: string, message: string, now: int,
                            removedDuringWait: bool, removedDuringSend: bool, rounds: seq<Round>)
      returns (outcome: Outcome, wait: int, notifications: nat)
      requires Valid() && ParseTime(time).Some? && 0 <= now < MicrosPerDay
      modifies this
      ensures Valid()
      ensures wait == Delay(now, ParseTime(time).value)
      ensures outcome.Raised? <==> NoneKey in old(entries)
      ensures outcome.Raised? ==> entries == old(entries) && notifications == 0
      ensures !outcome.Raised? && removedDuringWait ==>
                outcome == Returned(None) && notifications == 0 && entries == old(entries)
      ensures !outcome.Raised? && !removedDuringWait && removedDuringSend ==>
                outcome == Returned(Some(NextIdOf(old(entries)).id))
                && notifications == 0 && entries == old(entries)
      ensures !outcome.Raised? && !removedDuringWait && !removedDuringSend ==>
                var id := NextIdOf(old(entries)).id;
                var k := FirstExit(rounds);
                if k < |rounds| then
                  outcome == Returned(Some(id)) && notifications == k + 1 && entries == old(entries)
                else
                  outcome == StillNotifying(id) && notifications == |rounds|
                  && entries == old(entries)[Id(id) := Entry(time, message)]
    {
      wait := Delay(now, ParseTime(time).value);
      notifications := 0;
      var allocation := NextId();
      if allocation.TypeError? {
        return Raised, wait, notifications;
      }
      var id := allocation.id;
      entries := entries[Id(id) := Entry(time, message)];
      ghost var scheduled := entries;
      assert scheduled - {Id(id)} == old(entries);

      // the sleep until the slot
      if removedDuringWait {
        var _ := Remove(Id(id));
      }
      if Id(id) !in entries {
        return Returned(None), wait, notifications;
      }

      // posting the notification message
      if removedDuringSend {
        var _ := Remove(Id(id));
      }

      // the notification loop
      var i := 0;
      var gone := false;
      while !gone && Id(id) in entries && i < |rounds|
        invariant Valid()
        invariant 0 <= i <= |rounds| && notifications == i
        invariant entries == scheduled || entries == scheduled - {Id(id)}
        invariant !gone && Id(id) in entries <==> !removedDuringSend && i <= FirstExit(rounds)
        invariant !(!gone && Id(id) in entries) ==>
                    if removedDuringSend then i == 0 else i == FirstExit(rounds) + 1
        decreases |rounds| - i
      {
        notifications := notifications + 1;
        if rounds[i].removed {
          var _ := Remove(Id(id));
        }
        gone := rounds[i].messageGone;
        i := i + 1;
      }
      if !gone && Id(id) in entries {
        return StillNotifying(id), wait, notifications;
      }
      var _ := Remove(Id(id));
      outcome := Returned(Some(id));
    }

    /**
     * The confirm button of the reminder form, as written: it awaits the
     * whole routine and then writes the entry back under whatever the
     * routine returned, an id or nothing (NoneKey).
     */
    method ConfirmCallback(time: string, message: string, now: int,
                           removedDuringWait: bool, removedDuringSend: bool, rounds: seq<Round>)
      returns (outcome: Outcome)
      requires Valid() && ParseTime(time).Some? && 0 <= now < MicrosPerDay
      modifies this
      ensures Valid()
      ensures outcome.Raised? <==> NoneKey in old(entries)
      ensures NoneKey !in old(entries) && removedDuringWait ==> outcome == Returned(None)
      ensures NoneKey !in old(entries) && !removedDuringWait ==>
                var id := NextIdOf(old(entries)).id;
                outcome == if removedDuringSend || FirstExit(rounds) < |rounds|
                           then Returned(Some(id)) else StillNotifying(id)
      ensures outcome.Raised? ==> entries == old(entries)
      ensures outcome.Returned? && outcome.result.Some? ==>
                outcome.result.value == NextIdOf(old(entries)).id
                && entries == old(entries)[Id(outcome.result.value) := Entry(time, message)]
      ensures outcome.Returned? && outcome.result.None? ==>
                entries == old(entries)[NoneKey := Entry(time, message)]
      ensures outcome.StillNotifying? ==>
                entries == old(entries)[Id(outcome.pending) := Entry(time, message)]
    {
      var wait, notifications;
      outcome, wait, notifications :=
        ScheduleReminder(time, message, now, removedDuringWait, removedDuringSend, rounds);
      if outcome.Returned? {
        var key := if outcome.result.Some? then Id(outcome.result.value) else NoneKey;
        entries := entries[key := Entry(time, message)];
      }
    }

    /**
     * The confirm button as evidently meant: the form check takes only
     * times the reminder list can read back, and the write-back happens
     * only for a routine that returned an id, so a reminder cancelled before
     * its slot leaves no entry. A table without NoneKey whose times all read
     * back stays so: ids keep being handed out and the list never raises.
     */
    method ConfirmCallbackCorrected(time: string, message: string, now: int,
                                    removedDuringWait: bool, removedDuringSend: bool, rounds: seq<Round>)
      returns (outcome: Outcome)
      requires Valid() && CheckTimeCorrected(time).Some? && 0 <= now < MicrosPerDay
      requires NoneKey !in entries && Readable(entries)
      modifies this
      ensures Valid() && Readable(entries)
      ensures NoneKey !in entries && NextIdOf(entries).Allocated?
      ensures removedDuringWait ==> outcome == Returned(None)
      ensures !removedDuringWait ==>
                var id := NextIdOf(old(entries)).id;
                outcome == if removedDuringSend || FirstExit(rounds) < |rounds|
                           then Returned(Some(id)) else StillNotifying(id)
      ensures outcome.Returned? && outcome.result.Some? ==>
                outcome.result.value == NextIdOf(old(entries)).id
                && entries == old(entries)[Id(outcome.result.value) := Entry(time, message)]
      ensures outcome.Returned? && outcome.result.None? ==> entries == old(entries)
      ensures outcome.StillNotifying? ==>
                entries == old(entries)[Id(outcome.pending) := Entry(time, message)]
    {
      var wait, notifications;
      outcome, wait, notifications :=
        ScheduleReminder(time, message, now, removedDuringWait, removedDuringSend, rounds);
      if outcome.Returned? && outcome.result.Some? {
        entries := entries[Id(outcome.result.value) := Entry(time, message)];
      }
    }
  }
}
