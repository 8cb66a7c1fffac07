/** Every interleaving of daemons, sockets, the registry and the reaper (server.rs, main.rs). */
module Protocol {
  import opened Wrappers
  import opened Registry

  // ------------------------------------------------------------ the step system

  // Open: the server's loop runs. Closing: it has ended, the removal is still to come.
  datatype Phase = Open | Closing | Finished

  // One WebSocket. `owner` is the id of the daemon that opened it; `bound` is the server task's
  // daemon id. The channels keep all messages ever sent, and how many the receiver has read.
  datatype Sock = Sock(
    owner: string, bound: Option<string>, phase: Phase,
    up: seq<Up>, upRead: nat, down: seq<Down>, downRead: nat)

  datatype State = State(
    now: nat, socks: map<nat, Sock>, reg: Entries,
    evictions: multiset<string>, reaps: multiset<string>)  // ids removed, in all and by the reaper

  datatype Step =
    | Tick
    | Connect(s: nat, owner: string)
    | Beat(s: nat)                 // the daemon's heartbeat task
    | DaemonRecv(s: nat)           // the daemon reads one message
    | ServerRecv(s: nat)           // the server task reads one message
    | Break(s: nat)                // close frame, socket error or failed send
    | CleanUp(s: nat)
    | Reap
    | Rogue(s: nat, id: string)    // a client registers a second id on its socket; the daemon never does

  const INIT := State(0, map[], map[], multiset{}, multiset{})

  function Say(k: Sock, msg: Up): Sock { k.(up := k.up + [msg]) }

  function Apply(st: State, step: Step): State {
    match step
    case Tick => st.(now := st.now + 1)
    case Connect(s, owner) =>
      if s in st.socks then st
      else st.(socks := st.socks[s := Sock(owner, None, Open, [Register(owner)], 0, [], 0)])
    case Beat(s) =>
      if s !in st.socks then st else st.(socks := st.socks[s := Say(st.socks[s], Heartbeat)])
    case Rogue(s, id) =>
      if s !in st.socks then st else st.(socks := st.socks[s := Say(st.socks[s], Register(id))])
    case DaemonRecv(s) =>
      if s !in st.socks || st.socks[s].downRead >= |st.socks[s].down| then st
      else st.(socks := st.socks[s := DaemonReads(st.socks[s])])
    case ServerRecv(s) =>
      if s !in st.socks || !st.socks[s].phase.Open? || st.socks[s].upRead >= |st.socks[s].up| then st
      else
        var k := st.socks[s];
        var h := Handle(k.bound, st.reg, k.up[k.upRead], s, st.now);
        st.(socks := st.socks[s := ServerReads(k, h)], reg := h.reg)
    case Break(s) =>
      if s !in st.socks || !st.socks[s].phase.Open? then st
      else st.(socks := st.socks[s := st.socks[s].(phase := Closing)])
    case CleanUp(s) =>
      if s !in st.socks || !st.socks[s].phase.Closing? then st
      else
        var done := st.(socks := st.socks[s := st.socks[s].(phase := Finished)]);
        var bound := st.socks[s].bound;
        if bound.Some? && bound.value in st.reg then
          done.(reg := st.reg - {bound.value}, evictions := st.evictions + multiset{bound.value})
        else done
    case Reap =>
      var kept := Reaped(st.reg, st.now, REAP_AFTER);
      var gone := multiset(st.reg.Keys - kept.Keys);
      st.(reg := kept, evictions := st.evictions + gone, reaps := st.reaps + gone)
  }

  function DaemonReads(k: Sock): Sock
    requires k.downRead < |k.down|
  {
    var read := k.(downRead := k.downRead + 1);
    if k.down[k.downRead] == HeartbeatAck(false) then Say(read, Register(k.owner)) else read
  }

  function ServerReads(k: Sock, h: Handled): Sock {
    k.(bound := h.bound, upRead := k.upRead + 1, down := if h.reply.Some? then k.down + [h.reply.value] else k.down)
  }

  function ApplyAll(st: State, steps: seq<Step>): State
    decreases |steps|
  {
    if steps == [] then st else ApplyAll(Apply(st, steps[0]), steps[1..])
  }

  // ------------------------------------------------------------ what every run keeps

  function Registers(up: seq<Up>): nat {
    if up == [] then 0 else Registers(up[..|up| - 1]) + if up[|up| - 1].Register? then 1 else 0
  }

  function Nacks(down: seq<Down>): nat {
    if down == [] then 0 else Nacks(down[..|down| - 1]) + if down[|down| - 1] == HeartbeatAck(false) then 1 else 0
  }

  // A socket carries one id only, and its daemon registers once plus once per rejecting ack read.
  ghost predicate SockInv(k: Sock) {
    && k.upRead <= |k.up| && k.downRead <= |k.down|
    && (forall r | 0 <= r < |k.up| && k.up[r].Register? :: k.up[r].id == k.owner)
    && (k.bound.Some? ==> k.bound.value == k.owner && k.owner != "")
    && Registers(k.up) == 1 + Nacks(k.down[..k.downRead])
  }

  // Every entry routes to a socket bound to its id that has not finished cleaning up.
  ghost predicate RouteInv(st: State) {
    forall i | i in st.reg :: RoutesSoundly(st, i)
  }

  ghost predicate RoutesSoundly(st: State, i: string)
    requires i in st.reg
  {
    var s := st.reg[i].sock;
    s in st.socks && st.socks[s].bound == Some(i) && !st.socks[s].phase.Finished?
  }

  function FinishedOf(socks: map<nat, Sock>, i: string): set<nat> {
    set s | s in socks && socks[s].phase.Finished? && socks[s].bound == Some(i)
  }

  ghost predicate EvictInv(st: State) {
    forall i :: st.evictions[i] <= |FinishedOf(st.socks, i)| + st.reaps[i]
  }

  ghost predicate Inv(st: State) {
    (forall s | s in st.socks :: SockInv(st.socks[s])) && RouteInv(st) && EvictInv(st)
  }

  lemma SaidInv(k: Sock, msg: Up)
    requires SockInv(k) && msg.Heartbeat?
    ensures SockInv(Say(k, msg))
  {
    assert (k.up + [msg])[..|k.up|] == k.up;
  }

  lemma DaemonReadsInv(k: Sock)
    requires SockInv(k) && k.downRead < |k.down|
    ensures SockInv(DaemonReads(k))
  {
    var n := k.downRead;
    assert k.down[..n + 1][..n] == k.down[..n] && k.down[..n + 1][n] == k.down[n];
    assert (k.up + [Register(k.owner)])[..|k.up|] == k.up;
  }

  lemma ServerReadsInv(k: Sock, reg: Entries, s: nat, now: nat)
    requires SockInv(k) && k.upRead < |k.up|
    ensures SockInv(ServerReads(k, Handle(k.bound, reg, k.up[k.upRead], s, now)))
  {
    var k' := ServerReads(k, Handle(k.bound, reg, k.up[k.upRead], s, now));
    assert k'.down[..k.downRead] == k.down[..k.downRead];
  }

  lemma StepKeepsSocks(st: State, step: Step, s: nat)
    requires (forall s | s in st.socks :: SockInv(st.socks[s])) && !step.Rogue?
    requires s in Apply(st, step).socks
    ensures SockInv(Apply(st, step).socks[s])
  {
    match step
    case Connect(_, owner) => assert [Register(owner)][..0] == [];
    case Beat(t) => if t in st.socks { SaidInv(st.socks[t], Heartbeat); }
    case DaemonRecv(t) =>
      if t in st.socks && st.socks[t].downRead < |st.socks[t].down| { DaemonReadsInv(st.socks[t]); }
    case ServerRecv(t) =>
      if t in st.socks && st.socks[t].upRead < |st.socks[t].up| { ServerReadsInv(st.socks[t], st.reg, t, st.now); }
    case _ =>
  }

  ghost predicate Closes(st: State, step: Step, s: nat) {
    step == CleanUp(s) && s in st.socks && st.socks[s].phase.Closing?
  }

  // Sockets stay, keep the id they are bound to, and finish only by their own cleanup.
  lemma SocketMoves(st: State, step: Step, s: nat)
    requires s in st.socks && SockInv(st.socks[s])
    ensures s in Apply(st, step).socks
            && var k, k' := st.socks[s], Apply(st, step).socks[s];
               && k'.owner == k.owner
               && (k.bound.Some? && !step.Rogue? ==> k'.bound == k.bound)
               && (k'.bound != k.bound ==> k'.phase.Open?)
               && (k.phase.Open? && step != Break(s) ==> k'.phase.Open?)
               && (k'.phase.Finished? <==> k.phase.Finished? || Closes(st, step, s))
  {
    PhaseMoves(st, step, s);
  }

  lemma PhaseMoves(st: State, step: Step, s: nat)
    requires s in st.socks
    ensures s in Apply(st, step).socks
            && var p, p' := st.socks[s].phase, Apply(st, step).socks[s].phase;
               && (p.Open? && step != Break(s) ==> p'.Open?)
               && (p'.Finished? <==> p.Finished? || Closes(st, step, s))
  {
    match step
    case Tick =>
    case Reap =>
    case ServerRecv(t) => assert Apply(st, step).socks.Keys == st.socks.Keys;
    case _ =>
  }

  lemma SocketBegins(st: State, step: Step, s: nat)
    requires s !in st.socks && s in Apply(st, step).socks
    ensures var k := Apply(st, step).socks[s]; step == Connect(s, k.owner) && k.phase.Open? && k.bound == None
  {}

  // An entry is an old one, not of an id whose cleanup just ran, or of a socket that is registering.
  lemma EntryMoves(st: State, step: Step, i: string)
    requires i in Apply(st, step).reg
    ensures var st' := Apply(st, step);
            var s' := st'.reg[i].sock;
            || (i in st.reg && s' == st.reg[i].sock && (Closes(st, step, s') ==> st.socks[s'].bound != Some(i)))
            || (s' in st'.socks && st'.socks[s'].bound == Some(i) && st'.socks[s'].phase.Open?)
  {}

  // The server reads a Register under a second id while the first is still routed to this socket.
  ghost predicate Rebinds(st: State, step: Step) {
    && step.ServerRecv? && step.s in st.socks && st.socks[step.s].phase.Open?
    && var k := st.socks[step.s];
       && k.upRead < |k.up| && k.up[k.upRead].Register? && k.up[k.upRead].id != ""
       && k.bound.Some? && k.bound.value != k.up[k.upRead].id
       && k.bound.value in st.reg && st.reg[k.bound.value].sock == step.s
  }

  lemma RebindingBreaks(st: State, step: Step)
    requires Rebinds(st, step)
    ensures !RouteInv(Apply(st, step))
  {
    var i := st.socks[step.s].bound.value;
    assert i in Apply(st, step).reg && !RoutesSoundly(Apply(st, step), i);
  }

  // Any step of any client keeps routing sound if and only if it is not such a Register.
  lemma StepRoutesIff(st: State, step: Step)
    requires RouteInv(st)
    ensures RouteInv(Apply(st, step)) <==> !Rebinds(st, step)
  {
    if Rebinds(st, step) {
      RebindingBreaks(st, step);
    } else {
      forall i | i in Apply(st, step).reg
        ensures RoutesSoundly(Apply(st, step), i)
      {
        EntryMoves(st, step, i);
        if i in st.reg && Apply(st, step).reg[i].sock == st.reg[i].sock {
          assert RoutesSoundly(st, i);
          if !Closes(st, step, st.reg[i].sock) {
            BoundStays(st, step, i);
          }
        }
      }
    }
  }

  lemma BoundStays(st: State, step: Step, i: string)
    requires i in st.reg && RoutesSoundly(st, i) && !Rebinds(st, step)
    requires i in Apply(st, step).reg && Apply(st, step).reg[i].sock == st.reg[i].sock
    requires !Closes(st, step, st.reg[i].sock)
    ensures RoutesSoundly(Apply(st, step), i)
  {}

  ghost predicate AlwaysRoutes(st: State, steps: seq<Step>)
    decreases |steps|
  {
    RouteInv(st) && (steps == [] || AlwaysRoutes(Apply(st, steps[0]), steps[1..]))
  }

  ghost predicate NeverRebinds(st: State, steps: seq<Step>)
    decreases |steps|
  {
    steps == [] || (!Rebinds(st, steps[0]) && NeverRebinds(Apply(st, steps[0]), steps[1..]))
  }

  // So in any run, whatever the clients send, routing is sound throughout if and only if no such
  // Register is ever read.
  lemma {:induction false} EveryRunRoutesIff(st: State, steps: seq<Step>)
    requires RouteInv(st)
    ensures AlwaysRoutes(st, steps) <==> NeverRebinds(st, steps)
    decreases |steps|
  {
    if steps != [] {
      StepRoutesIff(st, steps[0]);
      if !Rebinds(st, steps[0]) {
        EveryRunRoutesIff(Apply(st, steps[0]), steps[1..]);
      }
    }
  }

  lemma StepKeepsRoutes(st: State, step: Step)
    requires (forall s | s in st.socks :: SockInv(st.socks[s])) && RouteInv(st)
    ensures RouteInv(Apply(st, step))
  {
    if step.ServerRecv? && step.s in st.socks {
      assert SockInv(st.socks[step.s]);
    }
    StepRoutesIff(st, step);
  }

  // Only its own cleanup adds a socket to the finished ones; nothing takes one from them.
  lemma StepKeepsFinished(st: State, step: Step, i: string)
    requires forall s | s in st.socks :: SockInv(st.socks[s])
    ensures FinishedOf(Apply(st, step).socks, i) ==
            FinishedOf(st.socks, i)
            + if step.CleanUp? && Closes(st, step, step.s) && st.socks[step.s].bound == Some(i) then {step.s} else {}
  {
    forall s ensures s in FinishedOf(Apply(st, step).socks, i) <==>
                     s in FinishedOf(st.socks, i) || (Closes(st, step, s) && st.socks[s].bound == Some(i))
    {
      if s in st.socks {
        SocketMoves(st, step, s);
      } else if s in Apply(st, step).socks {
        SocketBegins(st, step, s);
      }
    }
  }

  lemma StepKeepsEvictions(st: State, step: Step)
    requires (forall s | s in st.socks :: SockInv(st.socks[s])) && EvictInv(st) && !step.Rogue?
    ensures EvictInv(Apply(st, step))
  {
    forall i
      ensures Apply(st, step).evictions[i] <= |FinishedOf(Apply(st, step).socks, i)| + Apply(st, step).reaps[i]
    {
      StepKeepsFinished(st, step, i);
      assert step.CleanUp? && Closes(st, step, step.s) ==> step.s !in FinishedOf(st.socks, i);
    }
  }

  lemma StepKeepsInv(st: State, step: Step)
    requires Inv(st) && !step.Rogue?
    ensures Inv(Apply(st, step))
  {
    forall s | s in Apply(st, step).socks ensures SockInv(Apply(st, step).socks[s]) {
      StepKeepsSocks(st, step, s);
    }
    StepKeepsRoutes(st, step);
    StepKeepsEvictions(st, step);
  }

  // Routing soundness, eviction and registration accounting, over all runs of such daemons.
  lemma {:induction false} EveryRunSound(st: State, steps: seq<Step>)
    requires Inv(st) && forall n | 0 <= n < |steps| :: !steps[n].Rogue?
    ensures Inv(ApplyAll(st, steps))
    decreases |steps|
  {
    if steps != [] {
      StepKeepsInv(st, steps[0]);
      EveryRunSound(Apply(st, steps[0]), steps[1..]);
    }
  }

  lemma InitSound()
    ensures Inv(INIT)
  {}

  // Cleaning up leaves no entry of the socket behind exactly when all its entries are under
  // the id it is bound to.
  lemma CleanUpCompleteIff(st: State, s: nat)
    requires s in st.socks && st.socks[s].phase.Closing?
    ensures var st' := Apply(st, CleanUp(s));
            (forall i | i in st'.reg :: st'.reg[i].sock != s)
            <==> (forall i | i in st.reg && st.reg[i].sock == s :: st.socks[s].bound == Some(i))
  {
    var st' := Apply(st, CleanUp(s));
    assert forall i | i in st.reg && st.socks[s].bound != Some(i) :: i in st'.reg && st'.reg[i] == st.reg[i];
  }

  // A client that registers two ids on one socket leaves the first routed to a dead socket.
  lemma TwoIdsDangle(a: string, b: string)
    requires a != "" && b != "" && a != b
    ensures var st := ApplyAll(INIT, [Connect(0, a), ServerRecv(0), Rogue(0, b), ServerRecv(0), Break(0), CleanUp(0)]);
            a in st.reg && st.reg[a].sock == 0 && 0 in st.socks && st.socks[0].phase.Finished?
  {
    var s1 := Apply(INIT, Connect(0, a));
    var s2 := Apply(s1, ServerRecv(0));
    var s3 := Apply(s2, Rogue(0, b));
    var s4 := Apply(s3, ServerRecv(0));
    var s5 := Apply(s4, Break(0));
    var s6 := Apply(s5, CleanUp(0));
    var steps := [Connect(0, a), ServerRecv(0), Rogue(0, b), ServerRecv(0), Break(0), CleanUp(0)];
    assert s2.reg == map[a := Entry(0, 0)];
    assert s3.socks[0].up == [Register(a), Register(b)];
    assert s4.reg[a] == Entry(0, 0) && s4.socks[0].bound == Some(b);
    calc {
      ApplyAll(INIT, steps);
      ApplyAll(s1, steps[1..]);
      { assert steps[1..][1..] == steps[2..]; }
      ApplyAll(s2, steps[2..]);
      { assert steps[2..][1..] == steps[3..]; }
      ApplyAll(s3, steps[3..]);
      { assert steps[3..][1..] == steps[4..]; }
      ApplyAll(s4, steps[4..]);
      { assert steps[4..][1..] == steps[5..]; }
      ApplyAll(s5, steps[5..]);
      { assert steps[5..][1..] == []; }
      s6;
    }
  }
}
