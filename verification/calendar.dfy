/**
 * The automatic lockdown scheduler: every poll picks the most recent due calendar
 * entry, runs its action (lock down or reopen) on every guild that opted into the
 * calendar and is not already in the target state, marks the entry completed and
 * discards any older backlog as completed without running it.
 *
 * The calendar and the guild tables are in-memory values; the three clock readings the
 * poll takes are parameters; the lockdown engine itself is outside the model, so a run
 * of an action on a guild is recorded as a `Call`.
 */
module Calendar {
  import opened Outcomes

  /** The ACTION column of a calendar entry. */
  datatype Action = Lockdown | Reopen | Unrecognised(name: string)

  /** A CALENDAR row. */
  datatype Entry = Entry(action: Action, scheduled: int, completed: bool, completedAt: Option<int>)

  /** A STATE_INFO row: the guild, when it was last locked down and last reopened, and the
      stored report of its last lockdown (JSON text, opaque here). */
  datatype GuildRow = GuildRow(guild: nat, lastLockdown: int, lastReopen: int, report: string)

  /** `report_meta`: the provenance handed to the lockdown engine by a scheduled run. */
  datatype Meta = Meta(auto: bool, scheduled: int)

  /** "Acted on this guild with this action". */
  datatype Call =
    | LockdownCall(guild: nat, meta: Meta)
    | ReopenCall(guild: nat, report: string, meta: Meta)

  // ---------------------------------------------------------------------------
  // Selecting the entry to run
  // ---------------------------------------------------------------------------

  /** An entry the poll at time `now` may pick: not completed and strictly in the past. */
  predicate IsDue(e: Entry, now: int) {
    !e.completed && e.scheduled < now
  }

  /** The SELECT of one poll: the index of a due entry with the greatest scheduled time, or
      None when nothing is due. Among entries sharing that time the first is taken. */
  function Latest(es: seq<Entry>, now: int): (r: Option<nat>)
    ensures r.Some? ==> r.value < |es| && IsDue(es[r.value], now)
    ensures r.Some? ==> forall j :: 0 <= j < |es| && IsDue(es[j], now) ==> es[j].scheduled <= es[r.value].scheduled
    ensures r.None? <==> forall j :: 0 <= j < |es| ==> !IsDue(es[j], now)
  {
    if es == [] then None
    else
      var rest := Latest(es[1..], now);
      assert forall j :: 1 <= j < |es| ==> es[j] == es[1..][j - 1];
      if !IsDue(es[0], now) then
        (if rest.Some? then Some(rest.value + 1) else None)
      else if rest.Some? && es[rest.value + 1].scheduled > es[0].scheduled then
        Some(rest.value + 1)
      else
        Some(0)
  }

  // ---------------------------------------------------------------------------
  // Which guilds the poll acts on
  // ---------------------------------------------------------------------------

  /** The guild was locked down more recently than it was reopened. */
  predicate LockedDown(row: GuildRow) {
    row.lastLockdown > row.lastReopen
  }

  /** The guild was reopened more recently than it was locked down. */
  predicate Reopened(row: GuildRow) {
    row.lastLockdown < row.lastReopen
  }

  /** What the poll does with one resolved guild: the call it makes, or None for a skip. */
  function CallFor(action: Action, meta: Meta, row: GuildRow): (c: Option<Call>)
    ensures c.Some? ==> c.value.guild == row.guild && c.value.meta == meta
  {
    match action
    case Lockdown => if LockedDown(row) then None else Some(LockdownCall(row.guild, meta))
    case Reopen => if Reopened(row) then None else Some(ReopenCall(row.guild, row.report, meta))
    case Unrecognised(_) => None
  }

  /** The skip rule: a lockdown skips exactly the guilds already locked down, a reopening
      exactly the guilds already reopened; a guild with equal timestamps is acted on by both,
      and no guild is skipped by both. */
  lemma SkipRule(meta: Meta, row: GuildRow)
    ensures CallFor(Lockdown, meta, row).None? <==> row.lastLockdown > row.lastReopen
    ensures CallFor(Reopen, meta, row).None? <==> row.lastLockdown < row.lastReopen
    ensures row.lastLockdown == row.lastReopen ==>
      CallFor(Lockdown, meta, row).Some? && CallFor(Reopen, meta, row).Some?
    ensures CallFor(Lockdown, meta, row).Some? || CallFor(Reopen, meta, row).Some?
    ensures CallFor(Reopen, meta, row) == Some(ReopenCall(row.guild, row.report, meta)) ||
            CallFor(Reopen, meta, row).None?
  {
  }

  /** The guild rows the poll reads: those of guilds whose USE_CALENDAR setting is on, in
      table order. */
  function CalendarGuilds(states: seq<GuildRow>, useCalendar: set<nat>): (r: seq<GuildRow>)
    ensures |r| <= |states|
    ensures forall row :: row in r <==> row in states && row.guild in useCalendar
  {
    if states == [] then []
    else
      var rest := CalendarGuilds(states[1..], useCalendar);
      assert states == [states[0]] + states[1..];
      if states[0].guild in useCalendar then [states[0]] + rest else rest
  }

  /** The calls of one poll, in the order of `rows`: guilds the bot cannot resolve are
      skipped, and so are guilds the skip rule excludes. */
  function Planned(action: Action, meta: Meta, rows: seq<GuildRow>, resolvable: set<nat>): (r: seq<Call>)
    ensures |r| <= |rows|
    ensures forall c :: c in r ==> c.meta == meta
    ensures action.Unrecognised? ==> r == []
    decreases |rows|
  {
    if rows == [] then []
    else
      var init := Planned(action, meta, rows[..|rows| - 1], resolvable);
      var row := rows[|rows| - 1];
      if row.guild !in resolvable then init
      else match CallFor(action, meta, row)
        case None => init
        case Some(c) => init + [c]
  }

  /** A call is made exactly when some resolved guild row calls for it. */
  lemma {:induction false} PlannedCalls(action: Action, meta: Meta, rows: seq<GuildRow>, resolvable: set<nat>, c: Call)
    ensures c in Planned(action, meta, rows, resolvable) <==>
      exists row :: row in rows && row.guild in resolvable && CallFor(action, meta, row) == Some(c)
  {
    if rows != [] {
      var init := rows[..|rows| - 1];
      var row := rows[|rows| - 1];
      assert rows == init + [row];
      PlannedCalls(action, meta, init, resolvable, c);
      if exists r :: r in rows && r.guild in resolvable && CallFor(action, meta, r) == Some(c) {
        var r :| r in rows && r.guild in resolvable && CallFor(action, meta, r) == Some(c);
        if r != row {
          assert r in init;
        }
      }
    }
  }

  /** The calls for a single row: none for a guild the bot cannot resolve or that the
      skip rule excludes, otherwise exactly the call `CallFor` makes. */
  lemma PlannedRow(action: Action, meta: Meta, row: GuildRow, resolvable: set<nat>)
    ensures Planned(action, meta, [row], resolvable) ==
      if row.guild in resolvable && CallFor(action, meta, row).Some? then [CallFor(action, meta, row).value] else []
  {
    assert [row][..0] == [];
  }

  /** The calls for a table are those for all rows but the last, then those for the last. */
  lemma PlannedLast(action: Action, meta: Meta, rows: seq<GuildRow>, resolvable: set<nat>)
    requires rows != []
    ensures Planned(action, meta, rows, resolvable) ==
      Planned(action, meta, rows[..|rows| - 1], resolvable) + Planned(action, meta, [rows[|rows| - 1]], resolvable)
  {
    PlannedRow(action, meta, rows[|rows| - 1], resolvable);
  }

  /** The calls follow the row order: the calls for a table are the calls for any prefix
      followed by the calls for the rest. With `PlannedRow`, the calls are those of each
      row in turn, one at most per row. */
  lemma {:induction false} PlannedSplit(action: Action, meta: Meta, rows: seq<GuildRow>, resolvable: set<nat>, k: nat)
    requires k <= |rows|
    ensures Planned(action, meta, rows, resolvable) ==
      Planned(action, meta, rows[..k], resolvable) + Planned(action, meta, rows[k..], resolvable)
    decreases |rows|
  {
    if k == |rows| {
      assert rows[..k] == rows;
      assert rows[k..] == [];
    } else {
      var init, last := rows[..|rows| - 1], rows[|rows| - 1];
      var rest := rows[k..];
      PlannedSplit(action, meta, init, resolvable, k);
      PlannedLast(action, meta, rows, resolvable);
      PlannedLast(action, meta, rest, resolvable);
      assert init[..k] == rows[..k];
      assert rest[..|rest| - 1] == init[k..];
      assert rest[|rest| - 1] == last;
      var a, b, c := Planned(action, meta, rows[..k], resolvable), Planned(action, meta, init[k..], resolvable), Planned(action, meta, [last], resolvable);
      assert Planned(action, meta, rows, resolvable) == (a + b) + c;
      assert Planned(action, meta, rest, resolvable) == b + c;
    }
  }

  /** Only guilds that opted into the calendar and that the bot can resolve are acted on,
      and each is acted on with the entry's own provenance. */
  lemma OnlyOptedInGuilds(action: Action, meta: Meta, states: seq<GuildRow>, useCalendar: set<nat>, resolvable: set<nat>, c: Call)
    requires c in Planned(action, meta, CalendarGuilds(states, useCalendar), resolvable)
    ensures c.guild in useCalendar && c.guild in resolvable && c.meta == meta
  {
    PlannedCalls(action, meta, CalendarGuilds(states, useCalendar), resolvable, c);
  }

  // ---------------------------------------------------------------------------
  // Completion marking
  // ---------------------------------------------------------------------------

  function Completed(e: Entry, at: int): Entry {
    e.(completed := true, completedAt := Some(at))
  }

  /** The first UPDATE: every entry scheduled at `t`, completed or not, is marked completed
      at `at`. */
  function MarkScheduled(es: seq<Entry>, t: int, at: int): (r: seq<Entry>)
    ensures |r| == |es|
    ensures forall i :: 0 <= i < |es| && es[i].scheduled == t ==> r[i].completed && r[i].completedAt == Some(at)
    ensures forall i :: 0 <= i < |es| && es[i].scheduled != t ==> r[i] == es[i]
    ensures forall i :: 0 <= i < |es| ==> r[i].action == es[i].action && r[i].scheduled == es[i].scheduled
  {
    seq(|es|, i requires 0 <= i < |es| => if es[i].scheduled == t then Completed(es[i], at) else es[i])
  }

  /** The second UPDATE: every entry still uncompleted and scheduled before `t` is marked
      completed at `at`, without its action being run. */
  function Backfill(es: seq<Entry>, t: int, at: int): (r: seq<Entry>)
    ensures |r| == |es|
    ensures forall i :: 0 <= i < |r| && r[i].scheduled < t ==> r[i].completed
    ensures forall i :: 0 <= i < |es| && !es[i].completed && es[i].scheduled < t ==> r[i].completedAt == Some(at)
    ensures forall i :: 0 <= i < |es| && (es[i].completed || es[i].scheduled >= t) ==> r[i] == es[i]
    ensures forall i :: 0 <= i < |es| ==> r[i].action == es[i].action && r[i].scheduled == es[i].scheduled
  {
    seq(|es|, i requires 0 <= i < |es| => if !es[i].completed && es[i].scheduled < t then Completed(es[i], at) else es[i])
  }

  /** The calendar after a poll that ran the entry scheduled at `t`. */
  function Settle(es: seq<Entry>, t: int, markedAt: int, backfilledAt: int): (r: seq<Entry>)
    ensures |r| == |es|
    ensures forall i :: 0 <= i < |r| && r[i].scheduled <= t ==> r[i].completed
    ensures forall i :: 0 <= i < |es| && es[i].scheduled > t ==> r[i] == es[i]
  {
    Backfill(MarkScheduled(es, t, markedAt), t, backfilledAt)
  }

  /** What the two UPDATEs do to each entry: entries at the run time are completed at the
      first clock reading, older uncompleted ones at the second, and every other entry
      (later ones, older ones already completed) is left as it was. */
  lemma SettleEffect(es: seq<Entry>, t: int, markedAt: int, backfilledAt: int, i: nat)
    requires i < |es|
    ensures |Settle(es, t, markedAt, backfilledAt)| == |es|
    ensures es[i].scheduled == t ==>
      Settle(es, t, markedAt, backfilledAt)[i] == es[i].(completed := true, completedAt := Some(markedAt))
    ensures !es[i].completed && es[i].scheduled < t ==>
      Settle(es, t, markedAt, backfilledAt)[i] == es[i].(completed := true, completedAt := Some(backfilledAt))
    ensures (es[i].scheduled > t || (es[i].completed && es[i].scheduled < t)) ==>
      Settle(es, t, markedAt, backfilledAt)[i] == es[i]
    ensures Settle(es, t, markedAt, backfilledAt)[i].action == es[i].action
    ensures Settle(es, t, markedAt, backfilledAt)[i].scheduled == es[i].scheduled
  {
  }

  /** After running the latest due entry nothing is due any more at the same time: the
      whole backlog up to `now` has been completed. */
  lemma {:induction false} TickClearsBacklog(es: seq<Entry>, now: int, markedAt: int, backfilledAt: int)
    requires Latest(es, now).Some?
    ensures var after := Settle(es, es[Latest(es, now).value].scheduled, markedAt, backfilledAt);
      forall i :: 0 <= i < |es| && IsDue(es[i], now) ==> after[i].completed
  {
    var t := es[Latest(es, now).value].scheduled;
    forall i | 0 <= i < |es| && IsDue(es[i], now)
      ensures Settle(es, t, markedAt, backfilledAt)[i].completed
    {
      SettleEffect(es, t, markedAt, backfilledAt, i);
    }
  }

  /** Idempotence: a second poll at the same time, with no new entries, finds nothing due
      and therefore acts on no guild and changes nothing. */
  lemma {:induction false} TickIdempotent(es: seq<Entry>, now: int, markedAt: int, backfilledAt: int)
    requires Latest(es, now).Some?
    ensures Latest(Settle(es, es[Latest(es, now).value].scheduled, markedAt, backfilledAt), now).None?
  {
    var t := es[Latest(es, now).value].scheduled;
    var after := Settle(es, t, markedAt, backfilledAt);
    forall i | 0 <= i < |after| ensures !IsDue(after[i], now) {
      SettleEffect(es, t, markedAt, backfilledAt, i);
    }
  }

  // ---------------------------------------------------------------------------
  // The poller
  // ---------------------------------------------------------------------------

  /** The calendar, as the poll loop sees and updates it. */
  class Poller {
    var entries: seq<Entry>

    constructor (calendar: seq<Entry>)
      ensures entries == calendar
    {
      entries := calendar;
    }

    /**
     * One poll at time `now`. `markedAt` and `backfilledAt` are the clock readings taken
     * by the two completion updates; `states` is the STATE_INFO table, `useCalendar` the
     * guilds whose USE_CALENDAR setting is on and `resolvable` the guilds the bot can
     * resolve. Returns the calls made, in order.
     */
    method Tick(now: int, markedAt: int, backfilledAt: int, states: seq<GuildRow>,
                useCalendar: set<nat>, resolvable: set<nat>) returns (calls: seq<Call>)
      modifies this
      ensures Latest(old(entries), now).None? ==> calls == [] && entries == old(entries)
      ensures Latest(old(entries), now).Some? ==>
        var e := old(entries)[Latest(old(entries), now).value];
        && calls == Planned(e.action, Meta(true, e.scheduled), CalendarGuilds(states, useCalendar), resolvable)
        && entries == Settle(old(entries), e.scheduled, markedAt, backfilledAt)
    {
      var selected := Latest(entries, now);
      if selected.None? {
        return [];
      }
      var e := entries[selected.value];
      var meta := Meta(true, e.scheduled);
      var rows := CalendarGuilds(states, useCalendar);
      calls := [];
      for i := 0 to |rows|
        invariant calls == Planned(e.action, meta, rows[..i], resolvable)
      {
        assert rows[..i + 1][..i] == rows[..i];
        var row := rows[i];
        if row.guild !in resolvable {
          continue;
        }
        match e.action {
          case Lockdown =>
            if LockedDown(row) {
              continue;
            }
            calls := calls + [LockdownCall(row.guild, meta)];
          case Reopen =>
            if Reopened(row) {
              continue;
            }
            calls := calls + [ReopenCall(row.guild, row.report, meta)];
          case Unrecognised(_) =>
        }
      }
      assert rows[..|rows|] == rows;
      entries := MarkScheduled(entries, e.scheduled, markedAt);
      entries := Backfill(entries, e.scheduled, backfilledAt);
    }
  }

  /** A client: with three overdue entries, one poll runs only the newest and completes all
      three; the next poll at the same time does nothing. */
  method CatchUpAfterDowntime(states: seq<GuildRow>, useCalendar: set<nat>, resolvable: set<nat>)
  {
    var es := [Entry(Reopen, 10, false, None), Entry(Lockdown, 20, false, None), Entry(Reopen, 30, false, None)];
    var poller := new Poller(es);
    var calls := poller.Tick(100, 101, 102, states, useCalendar, resolvable);
    assert Latest(es, 100) == Some(2);
    assert calls == Planned(Reopen, Meta(true, 30), CalendarGuilds(states, useCalendar), resolvable);
    assert forall i :: 0 <= i < 3 ==> poller.entries[i].completed;
    var again := poller.Tick(100, 103, 104, states, useCalendar, resolvable);
    TickIdempotent(es, 100, 101, 102);
    assert again == [];
  }

  // ---------------------------------------------------------------------------
  // The lockdown branch as written
  // ---------------------------------------------------------------------------

  /**
   * The guild loop of one poll as the code is written: the lockdown branch passes
   * `get_meta(ctx)`, two names that are defined nowhere in the module, so evaluating the
   * first lockdown call raises a NameError. The poll then ends before the calendar commit
   * and no entry is marked completed. None stands for that raise.
   */
  function CallsAsWritten(action: Action, meta: Meta, rows: seq<GuildRow>, resolvable: set<nat>): (r: Option<seq<Call>>)
    ensures r.None? ==> action.Lockdown?
    ensures r.Some? ==> r.value == Planned(action, meta, rows, resolvable)
  {
    if action.Lockdown? && exists row :: row in rows && row.guild in resolvable && !LockedDown(row) then None
    else Some(Planned(action, meta, rows, resolvable))
  }

  /** As written, a lockdown poll raises exactly when the corrected poll would lock down at
      least one guild; a reopening never raises. */
  lemma {:induction false} AsWrittenRaises(action: Action, meta: Meta, rows: seq<GuildRow>, resolvable: set<nat>)
    ensures CallsAsWritten(action, meta, rows, resolvable).None? <==>
      action.Lockdown? && Planned(action, meta, rows, resolvable) != []
  {
    var planned := Planned(action, meta, rows, resolvable);
    if action.Lockdown? && exists row :: row in rows && row.guild in resolvable && !LockedDown(row) {
      var row :| row in rows && row.guild in resolvable && !LockedDown(row);
      PlannedCalls(action, meta, rows, resolvable, LockdownCall(row.guild, meta));
    } else if action.Lockdown? && planned != [] {
      PlannedCalls(action, meta, rows, resolvable, planned[0]);
      assert false;
    }
  }

  /** As written, a scheduled lockdown with any guild to lock down does not complete: the
      poll raises, the calendar is left as it was, and any later poll selects an entry at
      least as recent again instead of finding nothing due. */
  lemma LockdownNeverCompletesAsWritten(es: seq<Entry>, now: int, later: int, rows: seq<GuildRow>, resolvable: set<nat>, row: GuildRow)
    requires Latest(es, now).Some? && es[Latest(es, now).value].action == Lockdown
    requires row in rows && row.guild in resolvable && !LockedDown(row)
    requires now <= later
    ensures CallsAsWritten(Lockdown, Meta(true, es[Latest(es, now).value].scheduled), rows, resolvable).None?
    ensures Latest(es, later).Some?
    ensures es[Latest(es, later).value].scheduled >= es[Latest(es, now).value].scheduled
  {
    var k := Latest(es, now).value;
    assert IsDue(es[k], later);
  }

  /** What becomes of a stuck entry when a later poll gets past the raise: if that poll
      selects a newer entry, the second UPDATE completes the stuck one without running it;
      if it selects an entry at the same time, the first UPDATE completes it. */
  lemma {:induction false} StuckEntrySettled(es: seq<Entry>, k: nat, later: int, markedAt: int, backfilledAt: int)
    requires k < |es| && IsDue(es[k], later)
    ensures Latest(es, later).Some?
    ensures var t := es[Latest(es, later).value].scheduled;
      && (t > es[k].scheduled ==> Settle(es, t, markedAt, backfilledAt)[k] == Completed(es[k], backfilledAt))
      && (t == es[k].scheduled ==> Settle(es, t, markedAt, backfilledAt)[k] == Completed(es[k], markedAt))
  {
    var t := es[Latest(es, later).value].scheduled;
    SettleEffect(es, t, markedAt, backfilledAt, k);
  }

  /** The concrete overtaking case: a lockdown at 100 and a reopening at 1000. As written
      the poll at 700 raises on the lockdown; the poll at 1300 selects the reopening, whose
      second UPDATE completes the lockdown entry that never ran. */
  lemma LockdownOvertakenExample()
    ensures var es := [Entry(Lockdown, 100, false, None), Entry(Reopen, 1000, false, None)];
      var rows := [GuildRow(7, 0, 0, "")];
      && Latest(es, 700) == Some(0)
      && CallsAsWritten(Lockdown, Meta(true, 100), CalendarGuilds(rows, {7}), {7}) == None
      && Latest(es, 1300) == Some(1)
      && Settle(es, 1000, 1300, 1300)[0] == Completed(es[0], 1300)
  {
    var es := [Entry(Lockdown, 100, false, None), Entry(Reopen, 1000, false, None)];
    var rows := [GuildRow(7, 0, 0, "")];
    assert CalendarGuilds(rows, {7}) == rows;
    assert rows[0] in CalendarGuilds(rows, {7});
  }

  /** The concrete case: one lockdown entry, one open guild. As written the poll at 700
      raises and the poll at 1300 picks the same entry again; the corrected poll runs it
      once, and the poll at 1300 finds nothing due. */
  lemma LockdownStuckExample()
    ensures var es := [Entry(Lockdown, 100, false, None)];
      var rows := [GuildRow(7, 0, 0, "")];
      && Latest(es, 700) == Some(0)
      && CallsAsWritten(Lockdown, Meta(true, 100), CalendarGuilds(rows, {7}), {7}) == None
      && Latest(es, 1300) == Some(0)
      && Planned(Lockdown, Meta(true, 100), CalendarGuilds(rows, {7}), {7}) == [LockdownCall(7, Meta(true, 100))]
      && Latest(Settle(es, 100, 700, 700), 1300) == None
  {
    var es := [Entry(Lockdown, 100, false, None)];
    var rows := [GuildRow(7, 0, 0, "")];
    assert CalendarGuilds(rows, {7}) == rows;
    assert rows[0] in CalendarGuilds(rows, {7});
    assert rows[..0] == [];
    assert Settle(es, 100, 700, 700)[0].completed;
  }
}
