/** A live daemon evicted by a dying socket recovers by one heartbeat round trip (server.rs). */
module Recovery {
  import opened Wrappers
  import opened Registry
  import opened Protocol

  ghost predicate Routed(st: State, i: string, c: nat) {
    i in st.reg && st.reg[i].sock == c
  }

  // Once every other socket bound to i has finished cleaning up, i routes to c or nowhere.
  lemma OnlyRemainingSocket(st: State, i: string, c: nat)
    requires Inv(st)
    requires forall s | s in st.socks && s != c && st.socks[s].bound == Some(i) :: st.socks[s].phase.Finished?
    ensures i in st.reg ==> Routed(st, i, c)
  {
    assert i in st.reg ==> RoutesSoundly(st, i);
  }

  // c is the open socket of daemon i, and every other socket of that daemon is finished.
  ghost predicate Alone(st: State, i: string, c: nat) {
    && Inv(st) && c in st.socks
    && st.socks[c].owner == i && st.socks[c].bound == Some(i) && st.socks[c].phase.Open?
    && forall s | s in st.socks && s != c && st.socks[s].owner == i :: st.socks[s].phase.Finished?
  }

  // No close of c, no reap of i, no new socket of that daemon; anything else may happen.
  ghost predicate Calm(st: State, step: Step, i: string, c: nat) {
    match step
    case Break(s) => s != c
    case Connect(_, owner) => owner != i
    case Reap => i in st.reg ==> i in Reaped(st.reg, st.now, REAP_AFTER)
    case Rogue(_, _) => false
    case _ => true
  }

  ghost predicate CalmRun(st: State, steps: seq<Step>, i: string, c: nat)
    decreases |steps|
  {
    steps == [] || (Calm(st, steps[0], i, c) && CalmRun(Apply(st, steps[0]), steps[1..], i, c))
  }

  lemma RoutedStays(st: State, step: Step, i: string, c: nat)
    requires Alone(st, i, c) && Calm(st, step, i, c) && Routed(st, i, c)
    ensures Routed(Apply(st, step), i, c)
  {
    match step
    case ServerRecv(s) =>
      if s in st.socks && st.socks[s].phase.Open? && st.socks[s].upRead < |st.socks[s].up| {
        assert SockInv(st.socks[s]);
      }
    case CleanUp(s) =>
      if s in st.socks && st.socks[s].phase.Closing? {
        assert SockInv(st.socks[s]);
      }
    case _ =>
  }

  lemma CalmKeepsAlone(st: State, step: Step, i: string, c: nat)
    requires Alone(st, i, c) && Calm(st, step, i, c)
    ensures Alone(Apply(st, step), i, c)
  {
    StepKeepsInv(st, step);
    SocketMoves(st, step, c);
    forall s | s in Apply(st, step).socks && s != c && Apply(st, step).socks[s].owner == i
      ensures Apply(st, step).socks[s].phase.Finished?
    {
      if s in st.socks {
        SocketMoves(st, step, s);
      } else {
        SocketBegins(st, step, s);
      }
    }
  }

  // ------------------------------------------------------------ the message that brings c back

  ghost predicate RegisterWaits(k: Sock, limit: nat) {
    exists r :: k.upRead <= r < limit && r < |k.up| && k.up[r].Register?
  }

  ghost predicate NackWaits(k: Sock, limit: nat) {
    exists d :: k.downRead <= d < limit && d < |k.down| && k.down[d] == HeartbeatAck(false)
  }

  ghost predicate BeatWaits(k: Sock, h: nat) {
    k.upRead <= h < |k.up| && k.up[h].Heartbeat?
  }

  // Stage 3: routed, or a Register waits among the first `limit` messages.
  ghost predicate Stage3(st: State, i: string, c: nat, limit: nat) {
    c in st.socks && (Routed(st, i, c) || RegisterWaits(st.socks[c], limit))
  }

  ghost predicate Stage2(st: State, i: string, c: nat, limit: nat) {
    c in st.socks && (Stage3(st, i, c, |st.socks[c].up|) || NackWaits(st.socks[c], limit))
  }

  ghost predicate Stage1(st: State, i: string, c: nat, h: nat) {
    c in st.socks && (Stage2(st, i, c, |st.socks[c].down|) || BeatWaits(st.socks[c], h))
  }

  // The channels of c only grow, and what is read of them is a prefix.
  lemma ChannelsGrow(st: State, step: Step, c: nat)
    requires c in st.socks
    ensures var k := st.socks[c];
            c in Apply(st, step).socks
            && var k' := Apply(st, step).socks[c];
               && k.up <= k'.up && k.down <= k'.down && k.upRead <= k'.upRead && k.downRead <= k'.downRead
               && (k'.upRead > k.upRead ==> step == ServerRecv(c) && k'.upRead == k.upRead + 1)
               && (k'.downRead > k.downRead ==> step == DaemonRecv(c) && k'.downRead == k.downRead + 1)
  {}

  lemma RegisterRoutes(st: State, i: string, c: nat)
    requires Alone(st, i, c) && st.socks[c].upRead < |st.socks[c].up| && st.socks[c].up[st.socks[c].upRead].Register?
    ensures Routed(Apply(st, ServerRecv(c)), i, c)
  {
    assert SockInv(st.socks[c]);
  }

  lemma RegisterArrives(st: State, step: Step, i: string, c: nat, limit: nat)
    requires Alone(st, i, c) && Calm(st, step, i, c) && Stage3(st, i, c, limit)
    ensures Stage3(Apply(st, step), i, c, limit)
  {
    ChannelsGrow(st, step, c);
    if Routed(st, i, c) {
      RoutedStays(st, step, i, c);
    } else {
      var k := st.socks[c];
      var r :| k.upRead <= r < limit && r < |k.up| && k.up[r].Register?;
      if step == ServerRecv(c) && r == k.upRead {
        RegisterRoutes(st, i, c);
      } else {
        assert Apply(st, step).socks[c].up[r] == k.up[r];
      }
    }
  }

  lemma NackArrives(st: State, step: Step, i: string, c: nat, limit: nat)
    requires Alone(st, i, c) && Calm(st, step, i, c) && Stage2(st, i, c, limit)
    ensures Stage2(Apply(st, step), i, c, limit)
  {
    ChannelsGrow(st, step, c);
    var k, k' := st.socks[c], Apply(st, step).socks[c];
    if Stage3(st, i, c, |k.up|) {
      RegisterArrives(st, step, i, c, |k.up|);
      assert RegisterWaits(k', |k.up|) ==> RegisterWaits(k', |k'.up|);
    } else {
      var d :| k.downRead <= d < limit && d < |k.down| && k.down[d] == HeartbeatAck(false);
      if step == DaemonRecv(c) && d == k.downRead {
        assert k'.up[|k.up|] == Register(i) && k'.upRead <= |k.up| by {
          assert SockInv(k);
        }
        assert RegisterWaits(k', |k'.up|);
      } else {
        assert k'.down[d] == k.down[d];
      }
    }
  }

  lemma BeatArrives(st: State, step: Step, i: string, c: nat, h: nat)
    requires Alone(st, i, c) && Calm(st, step, i, c) && Stage1(st, i, c, h)
    ensures Stage1(Apply(st, step), i, c, h)
  {
    ChannelsGrow(st, step, c);
    var k, k' := st.socks[c], Apply(st, step).socks[c];
    if Stage2(st, i, c, |k.down|) {
      NackArrives(st, step, i, c, |k.down|);
      assert NackWaits(k', |k.down|) ==> NackWaits(k', |k'.down|);
    } else if step == ServerRecv(c) && h == k.upRead {
      // i is absent: this heartbeat is rejected.
      OnlyRemainingSocket(st, i, c) by {
        forall s | s in st.socks && s != c && st.socks[s].bound == Some(i) ensures st.socks[s].phase.Finished? {
          assert SockInv(st.socks[s]);
        }
      }
      assert k'.down[|k.down|] == HeartbeatAck(false) && SockInv(k);
      assert NackWaits(k', |k'.down|);
    } else {
      assert k'.up[h] == k.up[h];
    }
  }

  lemma {:induction false} RunRegister(st: State, steps: seq<Step>, i: string, c: nat, limit: nat)
    requires Alone(st, i, c) && CalmRun(st, steps, i, c) && Stage3(st, i, c, limit)
    ensures Alone(ApplyAll(st, steps), i, c) && Stage3(ApplyAll(st, steps), i, c, limit)
    decreases |steps|
  {
    if steps != [] {
      CalmKeepsAlone(st, steps[0], i, c);
      RegisterArrives(st, steps[0], i, c, limit);
      RunRegister(Apply(st, steps[0]), steps[1..], i, c, limit);
    }
  }

  lemma {:induction false} RunNack(st: State, steps: seq<Step>, i: string, c: nat, limit: nat)
    requires Alone(st, i, c) && CalmRun(st, steps, i, c) && Stage2(st, i, c, limit)
    ensures Alone(ApplyAll(st, steps), i, c) && Stage2(ApplyAll(st, steps), i, c, limit)
    decreases |steps|
  {
    if steps != [] {
      CalmKeepsAlone(st, steps[0], i, c);
      NackArrives(st, steps[0], i, c, limit);
      RunNack(Apply(st, steps[0]), steps[1..], i, c, limit);
    }
  }

  lemma {:induction false} RunBeat(st: State, steps: seq<Step>, i: string, c: nat, h: nat)
    requires Alone(st, i, c) && CalmRun(st, steps, i, c) && Stage1(st, i, c, h)
    ensures Alone(ApplyAll(st, steps), i, c) && Stage1(ApplyAll(st, steps), i, c, h)
    decreases |steps|
  {
    if steps != [] {
      CalmKeepsAlone(st, steps[0], i, c);
      BeatArrives(st, steps[0], i, c, h);
      RunBeat(Apply(st, steps[0]), steps[1..], i, c, h);
    }
  }

  // Heartbeat h waits on c. When the server has read it (after run `a`), the daemon everything
  // the server had sent by then (after `b`), and the server everything the daemon had sent by
  // then (after `d`), i routes to c: however the three runs interleave with all else.
  lemma RoundTripRecovers(st: State, a: seq<Step>, b: seq<Step>, d: seq<Step>, i: string, c: nat, h: nat)
    requires Alone(st, i, c) && BeatWaits(st.socks[c], h) && CalmRun(st, a, i, c)
    requires var s1 := ApplyAll(st, a);
             c in s1.socks && s1.socks[c].upRead > h && CalmRun(s1, b, i, c)
    requires var s1 := ApplyAll(st, a);
             var s2 := ApplyAll(s1, b);
             c in s2.socks && s2.socks[c].downRead >= |s1.socks[c].down| && CalmRun(s2, d, i, c)
    requires var s2 := ApplyAll(ApplyAll(st, a), b);
             var s3 := ApplyAll(s2, d);
             c in s3.socks && s3.socks[c].upRead >= |s2.socks[c].up|
    ensures Routed(ApplyAll(ApplyAll(ApplyAll(st, a), b), d), i, c)
  {
    RunBeat(st, a, i, c, h);
    var s1 := ApplyAll(st, a);
    RunNack(s1, b, i, c, |s1.socks[c].down|);
    var s2 := ApplyAll(s1, b);
    RunRegister(s2, d, i, c, |s2.socks[c].up|);
  }

  // With idle channels, four steps on c alone are enough.
  lemma FourStepsRecover(st: State, i: string, c: nat)
    requires Alone(st, i, c) && i !in st.reg
    requires st.socks[c].upRead == |st.socks[c].up| && st.socks[c].downRead == |st.socks[c].down|
    ensures Routed(Apply(Apply(Apply(Apply(st, Beat(c)), ServerRecv(c)), DaemonRecv(c)), ServerRecv(c)), i, c)
  {
    var s1 := Apply(st, Beat(c));
    var s2 := Apply(s1, ServerRecv(c));
    var s3 := Apply(s2, DaemonRecv(c));
    assert s2.socks[c].down == st.socks[c].down + [HeartbeatAck(false)];
    assert s3.socks[c].up == s2.socks[c].up + [Register(i)];
    assert SockInv(st.socks[c]);
  }

  lemma StepOff(st: State, steps: seq<Step>, n: nat)
    requires n < |steps|
    ensures ApplyAll(st, steps[n..]) == ApplyAll(Apply(st, steps[n]), steps[n + 1..])
  {
    assert steps[n..][1..] == steps[n + 1..];
  }

  // A socket of `a` that has registered; its daemon has read `read` messages.
  function Registered(a: string, phase: Phase, read: nat): Sock {
    Sock(a, Some(a), phase, [Register(a)], 1, [RegisterAck(true)], read)
  }

  lemma RegisterRead(a: string, reg: Entries, s: nat, now: nat)
    requires a != ""
    ensures var k := Sock(a, None, Open, [Register(a)], 0, [], 0);
            var h := Handle(k.bound, reg, k.up[0], s, now);
            ServerReads(k, h) == Registered(a, Open, 0) && h.reg == reg[a := Entry(s, now)]
  {
    assert [] + [RegisterAck(true)] == [RegisterAck(true)];
  }

  lemma OldSocketRegisters(a: string)
    requires a != ""
    ensures Apply(Apply(INIT, Connect(0, a)), ServerRecv(0))
            == State(0, map[0 := Registered(a, Open, 0)], map[a := Entry(0, 0)], multiset{}, multiset{})
  {
    RegisterRead(a, INIT.reg, 0, INIT.now);
  }

  lemma NewSocketRegisters(a: string, st: State)
    requires a != "" && st.socks == map[0 := Registered(a, Open, 0)] && st.now == 0
    ensures Apply(Apply(st, Connect(1, a)), ServerRecv(1))
            == st.(socks := map[0 := Registered(a, Open, 0), 1 := Registered(a, Open, 0)],
                   reg := st.reg[a := Entry(1, 0)])
  {
    RegisterRead(a, st.reg, 1, st.now);
  }

  lemma OldSocketDies(a: string, st: State)
    requires st.socks == map[0 := Registered(a, Open, 0), 1 := Registered(a, Open, 0)]
    requires st.reg == map[a := Entry(1, 0)]
    ensures Apply(Apply(Apply(st, DaemonRecv(1)), Break(0)), CleanUp(0))
            == st.(socks := map[0 := Registered(a, Finished, 0), 1 := Registered(a, Open, 1)], reg := map[],
                   evictions := st.evictions + multiset{a})
  {}

  function Race(a: string): seq<Step> {
    [Connect(0, a), ServerRecv(0), Connect(1, a), ServerRecv(1), DaemonRecv(1), Break(0), CleanUp(0)]
  }

  lemma RaceEnds(a: string)
    requires a != ""
    ensures ApplyAll(INIT, Race(a))
            == State(0, map[0 := Registered(a, Finished, 0), 1 := Registered(a, Open, 1)], map[],
                     multiset{a}, multiset{})
  {
    var race := Race(a);
    OldSocketRegisters(a);
    var s2 := Apply(Apply(INIT, race[0]), race[1]);
    NewSocketRegisters(a, s2);
    var s4 := Apply(Apply(s2, race[2]), race[3]);
    OldSocketDies(a, s4);
    StepOff(INIT, race, 0);
    StepOff(Apply(INIT, race[0]), race, 1);
    StepOff(s2, race, 2);
    StepOff(Apply(s2, race[2]), race, 3);
    StepOff(s4, race, 4);
    StepOff(Apply(s4, race[4]), race, 5);
    StepOff(Apply(Apply(s4, race[4]), race[5]), race, 6);
    assert race[0..] == race;
  }

  // The race itself, and its repair: daemon a connects again before its old socket dies; the old
  // socket's cleanup evicts the live one; the next heartbeat brings it back.
  lemma RaceAndRepair(a: string)
    requires a != ""
    ensures var st := ApplyAll(INIT, Race(a));
            && Alone(st, a, 1) && a !in st.reg
            && Routed(Apply(Apply(Apply(Apply(st, Beat(1)), ServerRecv(1)), DaemonRecv(1)), ServerRecv(1)), a, 1)
  {
    RaceEnds(a);
    InitSound();
    EveryRunSound(INIT, Race(a));
    FourStepsRecover(ApplyAll(INIT, Race(a)), a, 1);
  }
}
