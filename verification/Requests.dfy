/** Matching responses to the requests waiting for them (registry.rs, server.rs, python.rs). */
module Requests {
  import opened Wrappers

  datatype Reply = Reply(requestId: string, body: int)

  // ------------------------------------------------------------ one connection object

  // A connection object; the set is of request ids.
  datatype Conn = Conn(owner: string, pending: set<string>, registered: nat, completed: nat)

  // Registered equals completed plus pending.
  ghost predicate BalancedAt(k: Conn) { k.registered == k.completed + |k.pending| }

  function Issued(k: Conn, id: string): Conn {
    k.(pending := k.pending + {id}, registered := k.registered + 1)
  }

  function Complete(k: Conn, id: string): Conn {
    if id in k.pending then k.(pending := k.pending - {id}, completed := k.completed + 1) else k
  }

  /** The receiving end of a oneshot channel. */
  class Waiter {
    var got: Option<Reply>
    var dropped: bool  // the caller timed out

    constructor ()
      ensures got == None && !dropped
    {
      got, dropped := None, false;
    }
  }

  /** `pending_requests` of a DaemonConnection. */
  class PendingRequests {
    const owner: string
    var waiters: map<string, Waiter>
    ghost var registered: nat
    ghost var completed: nat

    ghost predicate Valid()
      reads this
    {
      BalancedAt(View())
    }

    ghost function View(): Conn
      reads this
    {
      Conn(owner, waiters.Keys, registered, completed)
    }

    constructor (owner: string)
      ensures Valid() && waiters == map[] && View() == Conn(owner, {}, 0, 0)
    {
      this.owner := owner;
      waiters := map[];
      registered, completed := 0, 0;
    }

    // Request ids are new UUIDs.
    method RegisterRequest(id: string, w: Waiter)
      requires Valid() && id !in waiters
      modifies this
      ensures Valid() && View() == Issued(old(View()), id) && waiters == old(waiters)[id := w]
    {
      waiters := waiters[id := w];
      registered := registered + 1;
      assert waiters.Keys == old(waiters).Keys + {id};
    }

    method CompleteRequest(id: string, response: Reply)
      requires Valid()
      modifies this, waiters.Values
      ensures Valid() && View() == Complete(old(View()), id) && waiters == old(waiters) - {id}
      ensures id in old(waiters) && !old(waiters[id].dropped) ==> old(waiters)[id].got == Some(response)
      ensures forall w | w in old(waiters).Values && (id !in old(waiters) || w != old(waiters)[id] || old(w.dropped)) ::
                unchanged(w)
    {
      if id in waiters {
        var w := waiters[id];
        waiters := waiters - {id};
        assert waiters.Keys == old(waiters).Keys - {id};
        completed := completed + 1;
        if !w.dropped {
          w.got := Some(response);
        }
      } else {
        assert waiters - {id} == waiters;
      }
    }

    method IsBusy() returns (busy: bool)
      ensures busy <==> exists id :: id in waiters
    {
      busy := |waiters| > 0;
      if busy {
        assert waiters.Keys != {};
        var id :| id in waiters;
      }
    }
  }

  // ------------------------------------------------------------ all interleavings

  // `reg`: the current connection object of each daemon. `issued`: the object each request was
  // registered with. `inbox`: what each waiter received. `gone`: waiters that timed out.
  datatype State = State(
    conns: map<nat, Conn>, reg: map<string, nat>, issued: map<string, nat>,
    inbox: map<string, seq<Reply>>, gone: set<string>)

  datatype Step =
    | Register(c: nat, owner: string)      // a Register message: a new object replaces the current one
    | Evict(owner: string)                 // cleanup or reaper
    | Issue(c: nat, id: string)            // a caller that got object c earlier registers a request
    | TimeOut(id: string)
    | Respond(owner: string, reply: Reply) // a response arrives on a socket bound to `owner`

  const INIT := State(map[], map[], map[], map[], {})

  predicate Delivers(st: State, step: Step, id: string) {
    && step.Respond? && step.reply.requestId == id && step.owner in st.reg && st.reg[step.owner] in st.conns
    && id in st.conns[st.reg[step.owner]].pending
  }

  function Inbox(st: State, id: string): seq<Reply> {
    if id in st.inbox then st.inbox[id] else []
  }

  function Apply(st: State, step: Step): State {
    match step
    case Register(c, owner) =>
      if c in st.conns then st
      else st.(conns := st.conns[c := Conn(owner, {}, 0, 0)], reg := st.reg[owner := c])
    case Evict(owner) => st.(reg := st.reg - {owner})
    case Issue(c, id) =>
      if c !in st.conns || id in st.issued then st
      else
        st.(conns := st.conns[c := Issued(st.conns[c], id)], issued := st.issued[id := c])
    case TimeOut(id) => st.(gone := st.gone + {id})
    case Respond(owner, reply) =>
      var id := reply.requestId;
      if !Delivers(st, step, id) then st
      else
        var c := st.reg[owner];
        var done := st.(conns := st.conns[c := Complete(st.conns[c], id)]);
        if id in st.gone then done else done.(inbox := st.inbox[id := Inbox(st, id) + [reply]])
  }

  function ApplyAll(st: State, steps: seq<Step>): State
    decreases |steps|
  {
    if steps == [] then st else ApplyAll(Apply(st, steps[0]), steps[1..])
  }

  ghost predicate Balanced(st: State) {
    forall c | c in st.conns :: BalancedAt(st.conns[c])
  }

  // A waiting request waits on one object and has received nothing.
  ghost predicate Waiting(st: State) {
    forall c, id | c in st.conns && id in st.conns[c].pending ::
      id in st.issued && st.issued[id] == c && Inbox(st, id) == []
  }

  // Nobody receives more than one message, nor one for another request.
  ghost predicate Inboxes(st: State) {
    forall id | id in st.inbox ::
      id in st.issued && |st.inbox[id]| <= 1 && forall m | m in st.inbox[id] :: m.requestId == id
  }

  ghost predicate Current(st: State) {
    forall i | i in st.reg :: st.reg[i] in st.conns && st.conns[st.reg[i]].owner == i
  }

  ghost predicate Inv(st: State) {
    Balanced(st) && Waiting(st) && Inboxes(st) && Current(st)
  }

  lemma StepKeepsBalance(st: State, step: Step, c: nat)
    requires Waiting(st) && c in Apply(st, step).conns && (c in st.conns ==> BalancedAt(st.conns[c]))
    ensures BalancedAt(Apply(st, step).conns[c])
  {
    if step.Issue? && c in st.conns && step.id !in st.issued {
      assert step.id !in st.conns[c].pending;
    }
  }

  lemma StepKeepsBalanced(st: State, step: Step)
    requires Balanced(st) && Waiting(st)
    ensures Balanced(Apply(st, step))
  {
    forall c | c in Apply(st, step).conns ensures BalancedAt(Apply(st, step).conns[c]) {
      StepKeepsBalance(st, step, c);
    }
  }

  lemma StepKeepsWaiting(st: State, step: Step)
    requires Waiting(st) && Inboxes(st)
    ensures Waiting(Apply(st, step))
  {
    var st' := Apply(st, step);
    forall c, id | c in st'.conns && id in st'.conns[c].pending
      ensures id in st'.issued && st'.issued[id] == c && Inbox(st', id) == []
    {
      if c in st.conns && id in st.conns[c].pending {
        assert st.issued[id] == c;
      }
    }
  }

  lemma StepKeepsInboxes(st: State, step: Step)
    requires Waiting(st) && Inboxes(st)
    ensures Inboxes(Apply(st, step))
  {}

  lemma StepKeepsInv(st: State, step: Step)
    requires Inv(st)
    ensures Inv(Apply(st, step))
  {
    StepKeepsBalanced(st, step);
    StepKeepsWaiting(st, step);
    StepKeepsInboxes(st, step);
  }

  lemma {:induction false} EveryRunMatches(st: State, steps: seq<Step>)
    requires Inv(st)
    ensures Inv(ApplyAll(st, steps))
    decreases |steps|
  {
    if steps != [] {
      StepKeepsInv(st, steps[0]);
      EveryRunMatches(Apply(st, steps[0]), steps[1..]);
    }
  }

  // A message reaches the waiter of `id` exactly when it answers that request, the waiter has not
  // gone, and the object current for the sender's daemon is the one the request was registered with.
  lemma DeliveredIff(st: State, step: Step, id: string)
    requires Inv(st)
    ensures Inbox(Apply(st, step), id) != Inbox(st, id) <==>
            && id !in st.gone && step.Respond? && step.reply.requestId == id
            && id in st.issued && step.owner in st.reg && st.reg[step.owner] == st.issued[id]
            && id in st.conns[st.issued[id]].pending
    ensures Inbox(Apply(st, step), id) != Inbox(st, id) ==> Inbox(Apply(st, step), id) == [step.reply]
  {
    if Delivers(st, step, id) {
      assert st.issued[id] == st.reg[step.owner];
    }
  }

  // Object c is current for nobody and `id` waits on it.
  ghost predicate Orphaned(st: State, c: nat, id: string) {
    && c in st.conns && id in st.conns[c].pending
    && forall i | i in st.reg :: st.reg[i] != c
  }

  // A request whose connection object was replaced or evicted is never answered, even when the
  // same daemon registers again and responds.
  lemma {:induction false} OrphanNeverAnswered(st: State, steps: seq<Step>, c: nat, id: string)
    requires Inv(st) && Orphaned(st, c, id)
    ensures Orphaned(ApplyAll(st, steps), c, id) && Inbox(ApplyAll(st, steps), id) == []
    decreases |steps|
  {
    if steps != [] {
      StepKeepsInv(st, steps[0]);
      OrphanNeverAnswered(Apply(st, steps[0]), steps[1..], c, id);
    }
  }

  // Nor is one whose caller has timed out.
  lemma {:induction false} GoneNeverAnswered(st: State, steps: seq<Step>, id: string)
    requires Inv(st) && id in st.gone
    ensures id in ApplyAll(st, steps).gone && Inbox(ApplyAll(st, steps), id) == Inbox(st, id)
    decreases |steps|
  {
    if steps != [] {
      StepKeepsInv(st, steps[0]);
      DeliveredIff(st, steps[0], id);
      GoneNeverAnswered(Apply(st, steps[0]), steps[1..], id);
    }
  }

  lemma TimedOutNeverAnswered(st: State, steps: seq<Step>, id: string)
    requires Inv(st)
    ensures Inbox(ApplyAll(Apply(st, TimeOut(id)), steps), id) == Inbox(st, id)
  {
    StepKeepsInv(st, TimeOut(id));
    GoneNeverAnswered(Apply(st, TimeOut(id)), steps, id);
  }

  // These are exactly the conditions: any other waiting request can still be answered.
  lemma AnswerableIff(st: State, c: nat, id: string)
    requires Inv(st) && c in st.conns && id in st.conns[c].pending
    ensures (exists steps: seq<Step> :: Inbox(ApplyAll(st, steps), id) != [])
            <==> !Orphaned(st, c, id) && id !in st.gone
  {
    if Orphaned(st, c, id) {
      forall steps: seq<Step> ensures Inbox(ApplyAll(st, steps), id) == [] {
        OrphanNeverAnswered(st, steps, c, id);
      }
    } else if id in st.gone {
      forall steps: seq<Step> ensures Inbox(ApplyAll(st, steps), id) == [] {
        GoneNeverAnswered(st, steps, id);
      }
    } else {
      var i :| i in st.reg && st.reg[i] == c;
      var answer := Respond(i, Reply(id, 0));
      assert Delivers(st, answer, id);
      var steps := [answer];
      assert steps[1..] == [] && ApplyAll(st, steps) == Apply(st, answer);
      assert Inbox(ApplyAll(st, steps), id) != [];
    }
  }

  // What makes an orphan: the next Register of its daemon, or the daemon's eviction.
  lemma OrphanedBy(st: State, c: nat, id: string, i: string, step: Step)
    requires Inv(st) && c in st.conns && id in st.conns[c].pending && i in st.reg && st.reg[i] == c
    ensures Orphaned(Apply(st, step), c, id) <==>
            step == Evict(i) || (step.Register? && step.owner == i && step.c !in st.conns)
  {
    var st' := Apply(st, step);
    assert forall j | j in st.reg && st.reg[j] == c :: j == st.conns[c].owner == i;
    if step == Evict(i) || (step.Register? && step.owner == i && step.c !in st.conns) {
      assert forall j | j in st'.reg :: st'.reg[j] != c;
    } else {
      assert i in st'.reg && st'.reg[i] == c;
    }
  }

  // A daemon registers, gets a request, and registers again: from then on the request is an
  // orphan, and the daemon's answer to it is dropped.
  lemma ReconnectOrphans(a: string, id: string, body: int)
    ensures var st := ApplyAll(INIT, [Register(0, a), Issue(0, id), Register(1, a)]);
            && Inv(st) && Orphaned(st, 0, id)
            && Inbox(Apply(st, Respond(a, Reply(id, body))), id) == []
  {
    var s1 := Apply(INIT, Register(0, a));
    var s2 := Apply(s1, Issue(0, id));
    var s3 := Apply(s2, Register(1, a));
    var steps := [Register(0, a), Issue(0, id), Register(1, a)];
    EveryRunMatches(INIT, steps);
    assert steps[1..][1..] == [steps[2]] && [steps[2]][1..] == [];
    assert ApplyAll(INIT, steps) == ApplyAll(s1, steps[1..]) == ApplyAll(s2, [steps[2]]) == s3;
    assert s3.conns[0].pending == {id} && s3.reg == map[a := 1];
  }
}
