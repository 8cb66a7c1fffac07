/** How long a live daemon stays unrouted after an eviction (server.rs). */
module RecoveryTime {
  import opened Registry
  import opened Protocol
  import opened Recovery

  // The state after the first `n` steps of a run.
  function At(st: State, steps: seq<Step>, n: nat): State
    requires n <= |steps|
  {
    ApplyAll(st, steps[..n])
  }

  function End(st: State, steps: seq<Step>): nat { ApplyAll(st, steps).now }

  ghost predicate BeatsBy(st: State, steps: seq<Step>, n: nat, c: nat, period: nat)
    requires n <= |steps|
  {
    At(st, steps, n).now + period < End(st, steps) ==>
      exists m: nat :: n <= m < |steps| && steps[m] == Beat(c) && At(st, steps, m).now <= At(st, steps, n).now + period
  }

  // The daemon's heartbeat task sends on c at least every `period` seconds.
  ghost predicate Beating(st: State, steps: seq<Step>, c: nat, period: nat) {
    forall n: nat | n <= |steps| :: BeatsBy(st, steps, n, c, period)
  }

  // By step m, at most `delay` seconds after step n, all that was sent up on c by step n is read.
  ghost predicate UpReadAt(st: State, steps: seq<Step>, n: nat, m: nat, c: nat, delay: nat)
    requires n <= |steps|
  {
    && n <= m <= |steps| && At(st, steps, m).now <= At(st, steps, n).now + delay
    && c in At(st, steps, n).socks && c in At(st, steps, m).socks
    && At(st, steps, m).socks[c].upRead >= |At(st, steps, n).socks[c].up|
  }

  ghost predicate DownReadAt(st: State, steps: seq<Step>, n: nat, m: nat, c: nat, delay: nat)
    requires n <= |steps|
  {
    && n <= m <= |steps| && At(st, steps, m).now <= At(st, steps, n).now + delay
    && c in At(st, steps, n).socks && c in At(st, steps, m).socks
    && At(st, steps, m).socks[c].downRead >= |At(st, steps, n).socks[c].down|
  }

  ghost predicate ReadBy(st: State, steps: seq<Step>, n: nat, c: nat, delay: nat)
    requires n <= |steps|
  {
    c in At(st, steps, n).socks && At(st, steps, n).now + delay < End(st, steps) ==>
      && (exists m: nat :: UpReadAt(st, steps, n, m, c, delay))
      && (exists m: nat :: DownReadAt(st, steps, n, m, c, delay))
  }

  // What is sent on c is read at most `delay` seconds later, in both directions.
  ghost predicate ReadInTime(st: State, steps: seq<Step>, c: nat, delay: nat) {
    forall n: nat | n <= |steps| :: ReadBy(st, steps, n, c, delay)
  }

  lemma {:induction false} RunSplit(st: State, a: seq<Step>, b: seq<Step>, i: string, c: nat)
    ensures ApplyAll(st, a + b) == ApplyAll(ApplyAll(st, a), b)
    ensures CalmRun(st, a + b, i, c) <==> CalmRun(st, a, i, c) && CalmRun(ApplyAll(st, a), b, i, c)
    decreases |a|
  {
    if a == [] {
      assert a + b == b;
    } else {
      assert (a + b)[0] == a[0] && (a + b)[1..] == a[1..] + b;
      RunSplit(Apply(st, a[0]), a[1..], b, i, c);
    }
  }

  lemma {:induction false} RunAlone(st: State, steps: seq<Step>, i: string, c: nat)
    requires Alone(st, i, c) && CalmRun(st, steps, i, c)
    ensures Alone(ApplyAll(st, steps), i, c)
    ensures Routed(st, i, c) ==> Routed(ApplyAll(st, steps), i, c)
    decreases |steps|
  {
    if steps != [] {
      CalmKeepsAlone(st, steps[0], i, c);
      if Routed(st, i, c) {
        RoutedStays(st, steps[0], i, c);
      }
      RunAlone(Apply(st, steps[0]), steps[1..], i, c);
    }
  }

  lemma Segment(st: State, steps: seq<Step>, n: nat, m: nat, i: string, c: nat)
    requires Alone(st, i, c) && CalmRun(st, steps, i, c) && n <= m <= |steps|
    ensures Alone(At(st, steps, n), i, c) && CalmRun(At(st, steps, n), steps[n..m], i, c)
    ensures ApplyAll(At(st, steps, n), steps[n..m]) == At(st, steps, m)
  {
    assert steps == steps[..m] + steps[m..] && steps[..m] == steps[..n] + steps[n..m];
    RunSplit(st, steps[..m], steps[m..], i, c);
    RunSplit(st, steps[..n], steps[n..m], i, c);
    RunAlone(st, steps[..n], i, c);
  }

  lemma BeatSent(st: State, steps: seq<Step>, m: nat, i: string, c: nat)
    requires Alone(st, i, c) && CalmRun(st, steps, i, c) && m < |steps| && steps[m] == Beat(c)
    ensures var st' := At(st, steps, m + 1);
            && Alone(st', i, c) && st'.now == At(st, steps, m).now
            && |st'.socks[c].up| > 0 && BeatWaits(st'.socks[c], |st'.socks[c].up| - 1)
  {
    Segment(st, steps, m, m + 1, i, c);
    Segment(st, steps, m + 1, m + 1, i, c);
    var beat := steps[m..m + 1];
    assert beat[0] == Beat(c) && beat[1..] == [];
    assert ApplyAll(At(st, steps, m), beat) == Apply(At(st, steps, m), Beat(c));
    assert SockInv(At(st, steps, m).socks[c]);
  }

  // A heartbeat that waits after step n1 has made its round trip by step k.
  lemma TripMade(st: State, steps: seq<Step>, n1: nat, n2: nat, n3: nat, k: nat, i: string, c: nat, h: nat)
    requires Alone(st, i, c) && CalmRun(st, steps, i, c) && n1 <= n2 <= n3 <= k <= |steps|
    requires c in At(st, steps, n1).socks && BeatWaits(At(st, steps, n1).socks[c], h)
    requires c in At(st, steps, n2).socks && At(st, steps, n2).socks[c].upRead > h
    requires c in At(st, steps, n3).socks
             && At(st, steps, n3).socks[c].downRead >= |At(st, steps, n2).socks[c].down|
    requires c in At(st, steps, k).socks
             && At(st, steps, k).socks[c].upRead >= |At(st, steps, n3).socks[c].up|
    ensures Routed(At(st, steps, k), i, c)
  {
    Segment(st, steps, n1, n2, i, c);
    Segment(st, steps, n2, n3, i, c);
    Segment(st, steps, n3, k, i, c);
    RoundTripRecovers(At(st, steps, n1), steps[n1..n2], steps[n2..n3], steps[n3..k], i, c, h);
  }

  lemma RoutedOn(st: State, steps: seq<Step>, k: nat, i: string, c: nat)
    requires Alone(st, i, c) && CalmRun(st, steps, i, c) && k <= |steps| && Routed(At(st, steps, k), i, c)
    ensures forall n | k <= n <= |steps| :: Routed(At(st, steps, n), i, c)
  {
    forall n | k <= n <= |steps| ensures Routed(At(st, steps, n), i, c) {
      Segment(st, steps, k, n, i, c);
      RunAlone(At(st, steps, k), steps[k..n], i, c);
    }
  }

  // Where the round trip of what waits after step n1 ends.
  lemma TripInTime(st: State, steps: seq<Step>, n1: nat, c: nat, delay: nat) returns (n2: nat, n3: nat, k: nat)
    requires ReadInTime(st, steps, c, delay) && n1 <= |steps| && c in At(st, steps, n1).socks
    requires At(st, steps, n1).now + 3 * delay < End(st, steps)
    ensures UpReadAt(st, steps, n1, n2, c, delay) && n2 <= |steps|
    ensures DownReadAt(st, steps, n2, n3, c, delay) && n3 <= |steps|
    ensures UpReadAt(st, steps, n3, k, c, delay)
  {
    assert ReadBy(st, steps, n1, c, delay);
    n2 :| UpReadAt(st, steps, n1, n2, c, delay);
    assert ReadBy(st, steps, n2, c, delay);
    n3 :| DownReadAt(st, steps, n2, n3, c, delay);
    assert ReadBy(st, steps, n3, c, delay);
    k :| UpReadAt(st, steps, n3, k, c, delay);
  }

  lemma NextBeat(st: State, steps: seq<Step>, i: string, c: nat, period: nat) returns (n: nat)
    requires Alone(st, i, c) && CalmRun(st, steps, i, c)
    requires Beating(st, steps, c, period) && st.now + period < End(st, steps)
    ensures n <= |steps| && At(st, steps, n).now <= st.now + period
    ensures var st' := At(st, steps, n);
            Alone(st', i, c) && |st'.socks[c].up| > 0 && BeatWaits(st'.socks[c], |st'.socks[c].up| - 1)
  {
    assert At(st, steps, 0) == st && BeatsBy(st, steps, 0, c, period);
    var m: nat :| m < |steps| && steps[m] == Beat(c) && At(st, steps, m).now <= st.now + period;
    n := m + 1;
    BeatSent(st, steps, m, i, c);
  }

  // With heartbeats every `period` and messages read within `delay`, an evicted daemon whose last
  // socket is c routes to c again within a period and three delays, and stays so.
  lemma RecoversInTime(st: State, steps: seq<Step>, i: string, c: nat, period: nat, delay: nat) returns (k: nat)
    requires Alone(st, i, c) && CalmRun(st, steps, i, c)
    requires Beating(st, steps, c, period) && ReadInTime(st, steps, c, delay)
    requires st.now + period + 3 * delay < End(st, steps)
    ensures k <= |steps| && At(st, steps, k).now <= st.now + period + 3 * delay
    ensures forall n | k <= n <= |steps| :: Routed(At(st, steps, n), i, c)
  {
    var n1 := NextBeat(st, steps, i, c, period);
    var n2, n3;
    n2, n3, k := TripInTime(st, steps, n1, c, delay);
    TripMade(st, steps, n1, n2, n3, k, i, c, |At(st, steps, n1).socks[c].up| - 1);
    RoutedOn(st, steps, k, i, c);
  }
}
