/** The heartbeat monitor over time (server.rs, heartbeat_monitor). Times are in milliseconds. */
module Reaper {
  import opened Wrappers
  import opened Registry

  // The clock the registry reads has whole seconds.
  function Second(t: nat): nat { t / 1000 }

  function ReapedAt(reg: Entries, ticks: seq<nat>): Entries {
    if ticks == [] then reg else Reaped(ReapedAt(reg, ticks[..|ticks| - 1]), Second(ticks[|ticks| - 1]), REAP_AFTER)
  }

  // The monitor's loop, for as many ticks as it has lived.
  method HeartbeatMonitor(registry: DaemonRegistry, ticks: seq<nat>)
    requires registry.Valid()
    modifies registry
    ensures registry.Valid() && registry.View() == ReapedAt(old(registry.View()), ticks)
  {
    for i := 0 to |ticks|
      invariant registry.Valid() && registry.View() == ReapedAt(old(registry.View()), ticks[..i])
    {
      var removed := registry.CleanupStale(REAP_AFTER, Second(ticks[i]));
      assert ticks[..i + 1][..i] == ticks[..i];
    }
    assert ticks[..|ticks|] == ticks;
  }

  // ------------------------------------------------------------ one entry

  datatype Event = Beat(t: nat) | Check(t: nat)

  // The entry's last heartbeat second, or None once it is removed.
  function After(last: Option<nat>, e: Event): Option<nat> {
    match e
    case Beat(t) => if last.Some? then Some(Second(t)) else None
    case Check(t) => if last.Some? && Stale(last.value, Second(t), REAP_AFTER) then None else last
  }

  function AfterAll(last: Option<nat>, events: seq<Event>): Option<nat>
    decreases |events|
  {
    if events == [] then last else AfterAll(After(last, events[0]), events[1..])
  }

  function LastOf(reg: Entries, id: string): Option<nat> {
    if id in reg then Some(reg[id].last) else None
  }

  // That is what the registry does to each of its entries.
  lemma EntryFollows(reg: Entries, id: string, t: nat)
    ensures LastOf(Reaped(reg, Second(t), REAP_AFTER), id) == After(LastOf(reg, id), Check(t))
    ensures LastOf(Beaten(reg, id, Second(t)), id) == After(LastOf(reg, id), Beat(t))
  {}

  // Nothing happens more than 30 seconds after the latest heartbeat (the first was at `since`).
  ghost predicate Lively(since: nat, events: seq<Event>)
    decreases |events|
  {
    events == [] ||
    (since <= events[0].t <= since + 30_000 && Lively(if events[0].Beat? then events[0].t else since, events[1..]))
  }

  // Heartbeats never more than 30 seconds apart keep an entry forever, whenever the checks come.
  lemma {:induction false} LivelyNeverReaped(since: nat, events: seq<Event>)
    requires Lively(since, events)
    ensures AfterAll(Some(Second(since)), events).Some?
    decreases |events|
  {
    if events != [] {
      LivelyNeverReaped(if events[0].Beat? then events[0].t else since, events[1..]);
    }
  }

  // One millisecond more is not enough to promise that.
  lemma ThirtySecondsIsTight()
    ensures !Lively(999, [Check(31_000)]) && 31_000 == 999 + 30_001
    ensures AfterAll(Some(Second(999)), [Check(31_000)]).None?
  {
    assert [Check(31_000)][1..] == [];
    assert After(Some(Second(999)), Check(31_000)) == None;
  }

  ghost predicate Ticking(ticks: seq<nat>) {
    forall i | 0 < i < |ticks| :: ticks[i - 1] <= ticks[i] <= ticks[i - 1] + 5_000
  }

  // The first tick at or past a bound comes less than one tick after it.
  lemma {:induction false} FirstTick(bound: nat, ticks: seq<nat>) returns (k: nat)
    requires Ticking(ticks) && ticks != [] && ticks[0] < bound <= ticks[|ticks| - 1]
    ensures 0 < k < |ticks| && ticks[k - 1] < bound <= ticks[k] < bound + 5_000
    decreases |ticks|
  {
    var n := |ticks| - 1;
    if ticks[n - 1] < bound {
      k := n;
    } else {
      k := FirstTick(bound, ticks[..n]);
    }
  }

  lemma ReapedNext(reg: Entries, id: string, ticks: seq<nat>, k: nat)
    requires k < |ticks|
    ensures LastOf(ReapedAt(reg, ticks[..k + 1]), id) == After(LastOf(ReapedAt(reg, ticks[..k]), id), Check(ticks[k]))
  {
    assert ticks[..k + 1][..k] == ticks[..k];
    EntryFollows(ReapedAt(reg, ticks[..k]), id, ticks[k]);
  }

  // An entry last heard of in second `last` is removed at a tick between last+31 and last+35:
  // it is still there after tick k-1 and gone after tick k.
  lemma SilentIsReaped(last: nat, reg: Entries, id: string, ticks: seq<nat>) returns (k: nat)
    requires Ticking(ticks) && LastOf(reg, id) == Some(last)
    requires ticks != [] && ticks[0] < (last + 31) * 1000 <= ticks[|ticks| - 1]
    ensures k < |ticks| && last + 31 <= Second(ticks[k]) <= last + 35
    ensures LastOf(ReapedAt(reg, ticks[..k]), id) == Some(last)
    ensures LastOf(ReapedAt(reg, ticks[..k + 1]), id) == None
  {
    k := FirstTick((last + 31) * 1000, ticks);
    StillThere(last, reg, id, ticks[..k]);
    ReapedNext(reg, id, ticks, k);
  }

  lemma {:induction false} StillThere(last: nat, reg: Entries, id: string, ticks: seq<nat>)
    requires Ticking(ticks) && LastOf(reg, id) == Some(last)
    requires ticks != [] ==> ticks[|ticks| - 1] < (last + 31) * 1000
    ensures LastOf(ReapedAt(reg, ticks), id) == Some(last)
    decreases |ticks|
  {
    if ticks != [] {
      var n := |ticks| - 1;
      StillThere(last, reg, id, ticks[..n]);
      ReapedNext(reg, id, ticks, n);
      assert ticks[..n + 1] == ticks;
    }
  }
}
