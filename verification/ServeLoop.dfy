/** The daemon's session loop and reconnect loop (sandd main.rs). Times are in milliseconds. */
module ServeLoop {
  import opened Wrappers

  const CHECK_EVERY: nat := 1000
  const U64_MAX: nat := 0xFFFF_FFFF_FFFF_FFFF

  // `heartbeat_interval.saturating_mul(6).max(30)`, in seconds.
  function AckTimeout(heartbeatInterval: nat): nat {
    var six := if heartbeatInterval * 6 > U64_MAX then U64_MAX else heartbeatInterval * 6;
    if six > 30 then six else 30
  }

  // What becomes readable on the socket, and when. Work is a message handled inline that keeps
  // the loop busy; Junk is anything ignored; Close also stands for errors and the stream's end.
  // `sends`: whether the Register that answers a rejecting ack can be sent.
  datatype Kind = Ack(success: bool, sends: bool) | Work(took: nat) | Junk | Close
  datatype Arrival = Arrival(time: nat, kind: Kind)

  datatype Exit = OnShutdown | OnDeadHeartbeat | OnDeadline | OnPeer | OnFailedSend

  datatype ServeOutcome = Disconnected | Shutdown

  function OutcomeOf(e: Exit): ServeOutcome {
    if e.OnShutdown? then Shutdown else Disconnected
  }

  ghost predicate InOrder(arrivals: seq<Arrival>) {
    forall i, j | 0 <= i < j < |arrivals| :: arrivals[i].time <= arrivals[j].time
  }

  predicate Ends(a: Arrival) { a.kind.Close? || a.kind == Ack(false, false) }

  predicate Active(a: Arrival) { a.kind.Ack? || a.kind.Work? }

  function Later(s: nat, t: nat): nat { if s < t then t else s }

  // When a loop begun at `start` is done with the first n arrivals, taking each as soon as it can.
  function DoneWith(start: nat, arrivals: seq<Arrival>, n: nat): nat
    requires n <= |arrivals|
  {
    if n == 0 then start
    else
      var a := arrivals[n - 1];
      Later(DoneWith(start, arrivals, n - 1), a.time) + if a.kind.Work? then a.kind.took else 0
  }

  // When it is done with the last ack or handled message among them.
  function LastActive(start: nat, arrivals: seq<Arrival>, n: nat): nat
    requires n <= |arrivals|
  {
    if n == 0 then start
    else if Active(arrivals[n - 1]) then DoneWith(start, arrivals, n)
    else LastActive(start, arrivals, n - 1)
  }

  function Rejections(arrivals: seq<Arrival>, n: nat): nat
    requires n <= |arrivals|
  {
    if n == 0 then 0
    else Rejections(arrivals, n - 1) + if arrivals[n - 1].kind == Ack(false, true) then 1 else 0
  }

  lemma {:induction false} ActiveInTime(start: nat, arrivals: seq<Arrival>, n: nat)
    requires n <= |arrivals|
    ensures start <= LastActive(start, arrivals, n) <= DoneWith(start, arrivals, n)
    ensures forall k | 0 <= k < n :: arrivals[k].time <= DoneWith(start, arrivals, n)
    ensures forall k | 0 <= k < n && Active(arrivals[k]) :: arrivals[k].time <= LastActive(start, arrivals, n)
  {
    if n > 0 {
      ActiveInTime(start, arrivals, n - 1);
    }
  }

  // Inline handling from the j-th arrival on.
  function Took(arrivals: seq<Arrival>, j: nat, n: nat): nat
    requires j <= n <= |arrivals|
    decreases n
  {
    if j == n then 0
    else Took(arrivals, j, n - 1) + if arrivals[n - 1].kind.Work? then arrivals[n - 1].kind.took else 0
  }

  // The loop is done when the last busy stretch is: one that begins at `start` or when a message
  // becomes readable, and lasts as long as the handling from there on.
  lemma {:induction false} DoneWithIs(start: nat, arrivals: seq<Arrival>, n: nat)
    requires n <= |arrivals|
    ensures start + Took(arrivals, 0, n) <= DoneWith(start, arrivals, n)
    ensures forall j | 0 <= j < n :: arrivals[j].time + Took(arrivals, j, n) <= DoneWith(start, arrivals, n)
    ensures || DoneWith(start, arrivals, n) == start + Took(arrivals, 0, n)
            || exists j :: 0 <= j < n && DoneWith(start, arrivals, n) == arrivals[j].time + Took(arrivals, j, n)
  {
    if n > 0 {
      DoneWithIs(start, arrivals, n - 1);
      assert Took(arrivals, n - 1, n) == if arrivals[n - 1].kind.Work? then arrivals[n - 1].kind.took else 0;
    }
  }

  // The loop was last active when it was done with the last ack or inline message.
  lemma {:induction false} LastActiveIs(start: nat, arrivals: seq<Arrival>, n: nat)
    requires n <= |arrivals|
    ensures LastActive(start, arrivals, n) <= DoneWith(start, arrivals, n)
    ensures forall k | 0 <= k < n && arrivals[k].kind.Ack? :: arrivals[k].time <= LastActive(start, arrivals, n)
    ensures forall k | 0 <= k < n && arrivals[k].kind.Work? ::
              arrivals[k].time + arrivals[k].kind.took <= LastActive(start, arrivals, n)
    ensures || LastActive(start, arrivals, n) == start
            || exists k :: 0 <= k < n && (arrivals[k].kind.Ack? || arrivals[k].kind.Work?)
                 && LastActive(start, arrivals, n) == DoneWith(start, arrivals, k + 1)
                 && forall j | k < j < n :: arrivals[j].kind.Junk? || arrivals[j].kind.Close?
    ensures (forall k | 0 <= k < n :: arrivals[k].kind.Junk? || arrivals[k].kind.Close?) ==>
              LastActive(start, arrivals, n) == start
  {
    if n > 0 {
      LastActiveIs(start, arrivals, n - 1);
    }
  }

  lemma {:induction false} RejectionsAre(arrivals: seq<Arrival>, n: nat)
    requires n <= |arrivals|
    ensures Rejections(arrivals, n) == |set k: nat | k < n && arrivals[k].kind == Ack(false, true)|
  {
    var all := set k: nat | k < n && arrivals[k].kind == Ack(false, true);
    if n == 0 {
      assert all == {};
    } else {
      RejectionsAre(arrivals, n - 1);
      var before := set k: nat | k < n - 1 && arrivals[k].kind == Ack(false, true);
      assert all == before + if arrivals[n - 1].kind == Ack(false, true) then {n - 1} else {};
    }
  }

  // Only acks and handled messages keep the loop busy past what comes next.
  lemma {:induction false} IdleAfterActive(start: nat, arrivals: seq<Arrival>, n: nat)
    requires n <= |arrivals| && InOrder(arrivals)
    ensures n < |arrivals| ==> DoneWith(start, arrivals, n) <= Later(LastActive(start, arrivals, n), arrivals[n].time)
  {
    if n > 0 {
      IdleAfterActive(start, arrivals, n - 1);
      ActiveInTime(start, arrivals, n);
    }
  }

  function Sooner(t: nat, other: Option<nat>): nat {
    if other.Some? && other.value < t then other.value else t
  }

  predicate Due(t: Option<nat>, at: nat) { t.Some? && t.value <= at }

  // The loop's variables after it has taken `read` arrivals.
  ghost predicate OnCourse(start: nat, arrivals: seq<Arrival>, read: nat, at: nat, lastAck: nat, registers: nat) {
    && read <= |arrivals| && lastAck == LastActive(start, arrivals, read)
    && lastAck <= DoneWith(start, arrivals, read) <= at
    && (at == DoneWith(start, arrivals, read) || read == |arrivals| || at <= arrivals[read].time)
    && registers == 1 + Rejections(arrivals, read)
  }

  // The branch that takes a message: how the session ends, if it does, and the loop's variables.
  method Take(ghost start: nat, arrivals: seq<Arrival>, read: nat, now: nat, acked: nat, sent: nat)
    returns (exit: Option<Exit>, at: nat, lastAck: nat, registers: nat)
    requires read < |arrivals| && arrivals[read].time <= now && OnCourse(start, arrivals, read, now, acked, sent)
    ensures OnCourse(start, arrivals, read + 1, at, lastAck, registers) && at >= now
    ensures at == now + if arrivals[read].kind.Work? then arrivals[read].kind.took else 0
    ensures lastAck == if arrivals[read].kind.Ack? || arrivals[read].kind.Work? then at else acked
    ensures registers == sent + if arrivals[read].kind == Ack(false, true) then 1 else 0
    ensures exit == if arrivals[read].kind.Close? then Some(OnPeer)
                    else if arrivals[read].kind == Ack(false, false) then Some(OnFailedSend)
                    else None
  {
    var message := arrivals[read];
    exit, at, lastAck, registers := None, now, acked, sent;
    match message.kind {
      case Close =>
        exit := Some(OnPeer);
      case Junk =>
      case Ack(success, sends) =>
        lastAck := at;
        if !success {
          if !sends {
            return Some(OnFailedSend), at, lastAck, registers;
          }
          registers := registers + 1;
        }
      case Work(took) =>
        at := at + took;
        lastAck := at;
    }
  }

  // Nothing is ready: sleep until something is.
  method Sleep(at: nat, check: nat, next: Option<nat>, shutdown: Option<nat>, dead: Option<nat>) returns (woken: nat)
    requires at < check && !Due(next, at) && !Due(shutdown, at) && !Due(dead, at)
    ensures at < woken <= check && (next.Some? ==> woken <= next.value)
    ensures (shutdown.Some? ==> woken <= shutdown.value) && (dead.Some? ==> woken <= dead.value)
    ensures woken == check || Due(next, woken) || Due(shutdown, woken) || Due(dead, woken)
  {
    woken := Sooner(Sooner(Sooner(check, next), shutdown), dead);
  }

  // The biased select loop: shutdown, dead heartbeat, deadline check, message, in this order.
  method SelectLoop(timeout: nat, start: nat, arrivals: seq<Arrival>, shutdown: Option<nat>, dead: Option<nat>)
    returns (exit: Exit, at: nat, lastAck: nat, read: nat, registers: nat)
    requires timeout > 0
    ensures OnCourse(start, arrivals, read, at, lastAck, registers)
    ensures exit.OnDeadline? ==> lastAck + timeout <= at
    ensures at < lastAck + timeout + CHECK_EVERY
    ensures exit.OnShutdown? <==> Due(shutdown, at)
    ensures exit.OnDeadHeartbeat? <==> Due(dead, at) && !Due(shutdown, at)
    ensures read > 0 ==> !Due(shutdown, arrivals[read - 1].time)
    ensures exit.OnPeer? <==> read > 0 && arrivals[read - 1].kind.Close?
    ensures exit.OnFailedSend? <==> read > 0 && arrivals[read - 1].kind == Ack(false, false)
  {
    var nextCheck := start;
    at, lastAck, read, registers := start, start, 0, 1;
    while true
      invariant OnCourse(start, arrivals, read, at, lastAck, registers)
      invariant at <= nextCheck || at == lastAck
      invariant nextCheck < lastAck + timeout + CHECK_EVERY
      invariant read > 0 ==> !Ends(arrivals[read - 1]) && !Due(shutdown, arrivals[read - 1].time)
      decreases |arrivals| - read, lastAck + timeout + CHECK_EVERY - nextCheck,
                if at < nextCheck then nextCheck - at else 0
    {
      if Due(shutdown, at) {
        exit := OnShutdown;
        return;
      }
      if Due(dead, at) {
        exit := OnDeadHeartbeat;
        return;
      }
      if nextCheck <= at {
        if at - lastAck >= timeout {
          exit := OnDeadline;
          return;
        }
        nextCheck := nextCheck + CHECK_EVERY;
      } else if read < |arrivals| && arrivals[read].time <= at {
        var ended;
        ended, at, lastAck, registers := Take(start, arrivals, read, at, lastAck, registers);
        read := read + 1;
        if ended.Some? {
          exit := ended.value;
          return;
        }
      } else {
        var next := if read < |arrivals| then Some(arrivals[read].time) else None;
        at := Sleep(at, nextCheck, next, shutdown, dead);
      }
    }
  }

  // A session after its registration. It has taken the first `read` arrivals when it leaves;
  // `lastAck` is the code's last_ack.
  method Serve(heartbeatInterval: nat, start: nat, arrivals: seq<Arrival>, shutdown: Option<nat>, dead: Option<nat>)
    returns (exit: Exit, at: nat, lastAck: nat, read: nat, registers: nat)
    ensures read <= |arrivals| && lastAck == LastActive(start, arrivals, read) && lastAck <= at
    // Left on the deadline only after six heartbeat intervals (capped at 64 bits of seconds) or 30
    // seconds without an ack or a handled message, and never a second later than that.
    ensures var six := if 6 * heartbeatInterval < 0xFFFF_FFFF_FFFF_FFFF then 6 * heartbeatInterval
                       else 0xFFFF_FFFF_FFFF_FFFF;
            && (exit.OnDeadline? ==> at >= lastAck + 30_000 && at >= lastAck + 1000 * six)
            && (at < lastAck + 30_000 + 1000 || at < lastAck + 1000 * six + 1000)
    // Acks count when they become readable or later, inline messages when they have been handled.
    ensures forall k | 0 <= k < read && arrivals[k].kind.Ack? :: arrivals[k].time <= lastAck
    ensures forall k | 0 <= k < read && arrivals[k].kind.Work? :: arrivals[k].time + arrivals[k].kind.took <= lastAck
    ensures (forall k | 0 <= k < read :: arrivals[k].kind.Junk? || arrivals[k].kind.Close?) ==> lastAck == start
    // What is not taken by then was not readable before, unless the loop was busy until now.
    ensures at == DoneWith(start, arrivals, read) || read == |arrivals| || at <= arrivals[read].time
    // Shutdown comes first, then the dead heartbeat; no message readable after a shutdown is taken.
    ensures exit.OnShutdown? <==> shutdown.Some? && shutdown.value <= at
    ensures exit.OnDeadHeartbeat? <==> dead.Some? && dead.value <= at && !exit.OnShutdown?
    ensures read > 0 && shutdown.Some? ==> arrivals[read - 1].time < shutdown.value
    ensures exit.OnPeer? <==> read > 0 && arrivals[read - 1].kind.Close?
    ensures exit.OnFailedSend? <==> read > 0 && arrivals[read - 1].kind == Ack(false, false)
    // One Register per session and one per rejecting ack it can answer.
    ensures registers == 1 + |set k: nat | k < read && arrivals[k].kind == Ack(false, true)|
  {
    var timeout := AckTimeout(heartbeatInterval) * 1000;
    exit, at, lastAck, read, registers := SelectLoop(timeout, start, arrivals, shutdown, dead);
    LastActiveIs(start, arrivals, read);
    RejectionsAre(arrivals, read);
  }

  // No ack became readable in the timeout before a deadline exit, however long messages kept
  // the loop busy: what `Serve` promises of such an exit is a real silence.
  lemma DeadlineMeansSilence(timeout: nat, start: nat, arrivals: seq<Arrival>, read: nat, at: nat)
    requires InOrder(arrivals) && read <= |arrivals| && 0 < timeout
    requires LastActive(start, arrivals, read) + timeout <= at
    requires at == DoneWith(start, arrivals, read) || read == |arrivals| || at <= arrivals[read].time
    ensures start + timeout <= at
    ensures forall k | 0 <= k < |arrivals| && (arrivals[k].kind.Ack? || arrivals[k].kind.Work?) ::
              arrivals[k].time + timeout <= at || at <= arrivals[k].time
  {
    ActiveInTime(start, arrivals, read);
    IdleAfterActive(start, arrivals, read);
  }

  // The session's first moment, then the times its acks become readable.
  function AckTimes(start: nat, arrivals: seq<Arrival>): (acks: seq<nat>)
    ensures acks != [] && acks[0] == start
    ensures forall i | 0 < i < |acks| ::
              exists k | 0 <= k < |arrivals| :: arrivals[k].kind.Ack? && arrivals[k].time == acks[i]
  {
    if arrivals == [] then [start]
    else
      var n := |arrivals| - 1;
      AckTimes(start, arrivals[..n]) + if arrivals[n].kind.Ack? then [arrivals[n].time] else []
  }

  // While acks keep coming at gaps below the timeout the loop cannot be at its deadline: it can
  // only be there a full timeout after the last of them.
  lemma {:induction false} AcksKeepAlive(timeout: nat, start: nat, arrivals: seq<Arrival>, read: nat, at: nat)
    requires InOrder(arrivals) && read <= |arrivals| && 0 < timeout
    requires LastActive(start, arrivals, read) + timeout <= at
    requires at == DoneWith(start, arrivals, read) || read == |arrivals| || at <= arrivals[read].time
    requires var acks := AckTimes(start, arrivals); forall i | 0 < i < |acks| :: acks[i] < acks[i - 1] + timeout
    ensures var acks := AckTimes(start, arrivals); acks[|acks| - 1] + timeout <= at
  {
    DeadlineMeansSilence(timeout, start, arrivals, read, at);
    var acks := AckTimes(start, arrivals);
    var n := 1;
    while n < |acks|
      invariant 1 <= n <= |acks| && acks[n - 1] + timeout <= at
    {
      n := n + 1;
    }
  }

  // ------------------------------------------------------------ reconnecting

  // How one established session ended; `Failed` is an error after the handshake.
  datatype Session = Ended(exit: Exit) | Failed

  function SessionOutcome(s: Session): ServeOutcome {
    match s
    case Ended(exit) => OutcomeOf(exit)
    case Failed => Disconnected
  }

  datatype Dial = Unreachable | Connected(session: Session)

  // What one pass of the loop would meet: whether setup_tunnel works, and how the dial goes.
  datatype Pass = Pass(setupOk: bool, dial: Dial)

  ghost predicate Dialled(tunnel: bool, p: Pass) { !tunnel || p.setupOk }

  // The latest pass before `n` that got to dial could not reach the controller.
  ghost predicate LastDialFailed(tunnel: bool, passes: seq<Pass>, n: nat)
    requires n <= |passes|
  {
    exists j :: 0 <= j < n && Dialled(tunnel, passes[j]) && passes[j].dial.Unreachable?
                && forall k | j < k < n :: !Dialled(tunnel, passes[k])
  }

  ghost predicate Stops(tunnel: bool, p: Pass) {
    Dialled(tunnel, p) && p.dial.Connected? && SessionOutcome(p.dial.session).Shutdown?
  }

  lemma LastDialNext(tunnel: bool, passes: seq<Pass>, n: nat)
    requires n < |passes|
    ensures LastDialFailed(tunnel, passes, n + 1) <==>
            if Dialled(tunnel, passes[n]) then passes[n].dial.Unreachable? else LastDialFailed(tunnel, passes, n)
  {
    if !Dialled(tunnel, passes[n]) && LastDialFailed(tunnel, passes, n) {
      var j :| 0 <= j < n && Dialled(tunnel, passes[j]) && passes[j].dial.Unreachable?
               && forall k | j < k < n :: !Dialled(tunnel, passes[k]);
      assert forall k | j < k < n + 1 :: !Dialled(tunnel, passes[k]);
    }
  }

  // main's loop over the passes it makes. `refreshes[i]` is the force flag of the i-th call of
  // setup_tunnel: forced exactly when the last dial attempted could not reach the controller.
  method Reconnect(tunnel: bool, passes: seq<Pass>) returns (stopped: bool, made: nat, refreshes: seq<bool>)
    ensures made <= |passes| && |refreshes| == if tunnel then made else 0
    ensures forall i | 0 <= i < |refreshes| ::
              refreshes[i] <==> exists j :: 0 <= j < i && passes[j].setupOk && passes[j].dial.Unreachable?
                                            && forall k | j < k < i :: !passes[k].setupOk
    // It stops exactly when a pass dials, connects, and ends by a shutdown.
    ensures stopped ==>
              && made > 0 && (tunnel ==> passes[made - 1].setupOk)
              && passes[made - 1].dial == Connected(Ended(OnShutdown))
    ensures !stopped ==> made == |passes|
    ensures forall i | 0 <= i < made - (if stopped then 1 else 0) ::
              (tunnel && !passes[i].setupOk) || passes[i].dial != Connected(Ended(OnShutdown))
  {
    var staleNetmap := false;
    made, refreshes := 0, [];
    while made < |passes|
      invariant 0 <= made <= |passes| && |refreshes| == if tunnel then made else 0
      invariant forall i | 0 <= i < |refreshes| :: refreshes[i] <==> LastDialFailed(tunnel, passes, i)
      invariant staleNetmap <==> LastDialFailed(tunnel, passes, made)
      invariant forall i | 0 <= i < made :: !Stops(tunnel, passes[i])
    {
      var p := passes[made];
      LastDialNext(tunnel, passes, made);
      made := made + 1;
      if tunnel {
        refreshes := refreshes + [staleNetmap];
        if !p.setupOk {
          continue;
        }
      }
      match p.dial {
        case Connected(session) =>
          if SessionOutcome(session).Shutdown? {
            return true, made, refreshes;
          }
          staleNetmap := false;
        case Unreachable =>
          staleNetmap := true;
      }
    }
    stopped := false;
  }
}
