/** Who stays registered, over every interleaving (server.rs, registry.rs). */
module Heartbeats {
  import opened Wrappers
  import opened Registry
  import opened Protocol

  // The server reads a heartbeat on a socket bound to i, or a Register of i.
  ghost predicate Hears(st: State, step: Step, i: string) {
    && step.ServerRecv? && step.s in st.socks && st.socks[step.s].phase.Open?
    && var k := st.socks[step.s];
       && k.upRead < |k.up|
       && match k.up[k.upRead]
          case Heartbeat => k.bound == Some(i)
          case Register(id) => id == i && i != ""
  }

  // A socket bound to i cleans up.
  ghost predicate Cleans(st: State, step: Step, i: string) {
    && step.CleanUp? && step.s in st.socks && st.socks[step.s].phase.Closing?
    && st.socks[step.s].bound == Some(i)
  }

  // An entry goes by the cleanup of a socket bound to it, or by a reap more than 30 seconds after
  // it was last heard of; hearing of it sets its time, and nothing else does.
  lemma StepOnEntry(st: State, step: Step, i: string)
    requires i in st.reg
    ensures i in Apply(st, step).reg <==> !Cleans(st, step, i) && (step.Reap? ==> st.now <= st.reg[i].last + 30)
    ensures i in Apply(st, step).reg ==>
              Apply(st, step).reg[i].last == if Hears(st, step, i) then st.now else st.reg[i].last
  {}

  // An absent entry comes back only by the reading of a Register.
  lemma StepOnAbsent(st: State, step: Step, i: string)
    requires i !in st.reg
    ensures i in Apply(st, step).reg <==>
              && Hears(st, step, i)
              && st.socks[step.s].up[st.socks[step.s].upRead].Register?
    ensures i in Apply(st, step).reg ==> Apply(st, step).reg[i] == Entry(step.s, st.now)
  {}

  // No cleanup under i, and no reap more than 30 seconds after i was last heard of (at `since`, at first).
  ghost predicate Attended(st: State, since: nat, steps: seq<Step>, i: string)
    decreases |steps|
  {
    steps == [] ||
    (&& !Cleans(st, steps[0], i) && (steps[0].Reap? ==> st.now <= since + 30)
     && Attended(Apply(st, steps[0]), if Hears(st, steps[0], i) then st.now else since, steps[1..], i))
  }

  ghost predicate StaysFiled(st: State, steps: seq<Step>, i: string)
    decreases |steps|
  {
    i in st.reg && (steps == [] || StaysFiled(Apply(st, steps[0]), steps[1..], i))
  }

  // A daemon stays registered through a run if and only if no socket bound to it cleans up and its
  // heartbeats are read often enough: at every reap the last one is at most 30 seconds old.
  lemma {:induction false} StaysFiledIff(st: State, steps: seq<Step>, i: string)
    requires i in st.reg
    ensures StaysFiled(st, steps, i) <==> Attended(st, st.reg[i].last, steps, i)
    decreases |steps|
  {
    if steps != [] {
      StepOnEntry(st, steps[0], i);
      if i in Apply(st, steps[0]).reg {
        StaysFiledIff(Apply(st, steps[0]), steps[1..], i);
      }
    }
  }

  // The eviction counts count exactly the entries that go, and the reaper's count those it takes.
  lemma EvictionCounted(st: State, step: Step, i: string)
    ensures var st' := Apply(st, step);
            var gone := if i in st.reg && i !in st'.reg then 1 else 0;
            && st'.evictions[i] == st.evictions[i] + gone
            && st'.reaps[i] == st.reaps[i] + if step.Reap? then gone else 0
  {
    match step
    case Reap => assert multiset(st.reg.Keys - Reaped(st.reg, st.now, REAP_AFTER).Keys)[i] <= 1;
    case CleanUp(_) =>
    case _ => assert i in st.reg ==> i in Apply(st, step).reg;
  }
}
