/** The registry of daemon connections and the per-socket message handler (registry.rs, server.rs). */
module Registry {
  import opened Wrappers

  const REAP_AFTER: nat := 30  // seconds

  // ------------------------------------------------------------ on values

  // A registry entry: the socket its channel feeds, and the second of its last heartbeat.
  datatype Entry = Entry(sock: nat, last: nat)
  type Entries = map<string, Entry>

  datatype Up = Register(id: string) | Heartbeat
  datatype Down = RegisterAck(success: bool) | HeartbeatAck(success: bool)

  function Since(last: nat, now: nat): nat {
    if now >= last then now - last else 0
  }

  predicate Stale(last: nat, now: nat, timeout: nat) {
    Since(last, now) > timeout
  }

  function Reaped(reg: Entries, now: nat, timeout: nat): Entries {
    map id | id in reg && !Stale(reg[id].last, now, timeout) :: reg[id]
  }

  function Beaten(reg: Entries, id: string, now: nat): Entries {
    if id in reg then reg[id := reg[id].(last := now)] else reg
  }

  // What a socket's task does with one message: its daemon id, the registry and the reply afterwards.
  datatype Handled = Handled(bound: Option<string>, reg: Entries, reply: Option<Down>)

  function Handle(bound: Option<string>, reg: Entries, msg: Up, sock: nat, now: nat): Handled {
    match msg
    case Register(id) =>
      if id == "" then Handled(bound, reg, Some(RegisterAck(false)))
      else Handled(Some(id), reg[id := Entry(sock, now)], Some(RegisterAck(true)))
    case Heartbeat =>
      if bound.None? then Handled(bound, reg, None)
      else Handled(bound, Beaten(reg, bound.value, now), Some(HeartbeatAck(bound.value in reg)))
  }

  lemma OneLess<V>(m: map<string, V>, id: string)
    requires id in m
    ensures |m - {id}| == |m| - 1
  {
    assert (m - {id}).Keys == m.Keys - {id};
    assert |m - {id}| == |(m - {id}).Keys| && |m| == |m.Keys|;
  }

  // ------------------------------------------------------------ the classes

  class DaemonConnection {
    const id: string
    const sock: nat
    var lastHeartbeat: nat

    constructor (id: string, sock: nat, now: nat)
      ensures this.id == id && this.sock == sock && lastHeartbeat == now
    {
      this.id, this.sock, lastHeartbeat := id, sock, now;
    }

    method UpdateHeartbeat(now: nat)
      modifies this
      ensures lastHeartbeat == now
    {
      lastHeartbeat := now;
    }

    function SecondsSinceHeartbeat(now: nat): nat
      reads this
    {
      Since(lastHeartbeat, now)
    }
  }

  class DaemonRegistry {
    var connections: map<string, DaemonConnection>

    // Entries are filed under their own id, so no connection is filed twice.
    ghost predicate Valid()
      reads this, connections.Values
    {
      forall id | id in connections :: connections[id].id == id
    }

    ghost function View(): Entries
      reads this, connections.Values
    {
      map id | id in connections :: Entry(connections[id].sock, connections[id].lastHeartbeat)
    }

    constructor ()
      ensures Valid() && View() == map[]
    {
      connections := map[];
    }

    method Register(conn: DaemonConnection)
      requires Valid()
      modifies this
      ensures Valid() && View() == old(View())[conn.id := Entry(conn.sock, conn.lastHeartbeat)]
      ensures connections == old(connections)[conn.id := conn]
    {
      connections := connections[conn.id := conn];
    }

    method Get(id: string) returns (conn: Option<DaemonConnection>)
      ensures conn.Some? <==> id in connections
      ensures conn.Some? ==> conn.value == connections[id]
    {
      conn := if id in connections then Some(connections[id]) else None;
    }

    method Remove(id: string)
      requires Valid()
      modifies this
      ensures Valid() && View() == old(View()) - {id} && connections == old(connections) - {id}
    {
      connections := connections - {id};
    }

    method CleanupStale(timeout: nat, now: nat) returns (removed: nat)
      requires Valid()
      modifies this
      ensures Valid() && View() == Reaped(old(View()), now, timeout)
      ensures forall id :: id in connections <==>
                id in old(connections) && now <= old(connections)[id].lastHeartbeat + timeout
      ensures removed == |old(connections)| - |connections|
      ensures connections == map id | id in old(connections) && !Stale(old(connections)[id].lastHeartbeat, now, timeout)
                             :: old(connections)[id]
    {
      removed := Retain(timeout, now);
    }

    // `DashMap::retain`, visiting the entries in any order.
    method Retain(timeout: nat, now: nat) returns (removed: nat)
      modifies this
      ensures removed == |old(connections)| - |connections|
      ensures connections == map id | id in old(connections) && !Stale(old(connections)[id].lastHeartbeat, now, timeout)
                             :: old(connections)[id]
    {
      removed := 0;
      var todo := connections.Keys;
      ghost var before := connections;
      while todo != {}
        invariant todo <= connections.Keys <= before.Keys
        invariant forall id | id in connections :: connections[id] == before[id]
        invariant forall id | id in before ::
                    id in connections <==> id in todo || !Stale(before[id].lastHeartbeat, now, timeout)
        invariant removed == |before| - |connections|
        decreases todo
      {
        var id :| id in todo;
        todo := todo - {id};
        if connections[id].SecondsSinceHeartbeat(now) > timeout {
          OneLess(connections, id);
          connections := connections - {id};
          removed := removed + 1;
        }
      }
    }

    method HandleHeartbeat(id: string, now: nat) returns (registered: bool)
      requires Valid()
      modifies connections.Values
      ensures Valid() && connections == old(connections)
      ensures View() == Beaten(old(View()), id, now)
      ensures forall other | other in connections ::
                connections[other].lastHeartbeat == if other == id then now else old(connections[other].lastHeartbeat)
      ensures registered <==> id in old(View())
    {
      var conn := Get(id);
      if conn.None? {
        return false;
      }
      conn.value.UpdateHeartbeat(now);
      registered := true;
    }
  }

  /** The task serving one WebSocket; `sock` stands for its request channel. */
  class SocketTask {
    const sock: nat
    const registry: DaemonRegistry
    var daemonId: Option<string>

    constructor (sock: nat, registry: DaemonRegistry)
      ensures this.sock == sock && this.registry == registry && daemonId == None
    {
      this.sock, this.registry, daemonId := sock, registry, None;
    }

    method HandleMessage(msg: Up, now: nat) returns (reply: Option<Down>)
      requires registry.Valid()
      modifies this, registry, registry.connections.Values
      ensures registry.Valid()
      ensures Handled(daemonId, registry.View(), reply) == Handle(old(daemonId), old(registry.View()), msg, sock, now)
      // A heartbeat of a registered daemon refreshes its entry and is acked; of another, it is rejected.
      ensures msg.Heartbeat? ==> daemonId == old(daemonId) && registry.connections == old(registry.connections)
      ensures msg.Heartbeat? ==> forall id | id in registry.connections ::
                registry.connections[id].lastHeartbeat
                == if daemonId == Some(id) then now else old(registry.connections[id].lastHeartbeat)
      ensures msg.Heartbeat? ==>
                reply == if daemonId.None? then None
                         else Some(HeartbeatAck(daemonId.value in old(registry.connections)))
      // A Register binds the socket and files a connection of its own under the id, unless that is empty.
      ensures msg.Register? ==> reply == Some(RegisterAck(msg.id != ""))
      ensures msg.Register? && msg.id == "" ==>
                daemonId == old(daemonId) && registry.connections == old(registry.connections)
      ensures msg.Register? && msg.id != "" ==>
                && daemonId == Some(msg.id) && registry.connections.Keys == old(registry.connections).Keys + {msg.id}
                && registry.connections[msg.id].sock == sock && registry.connections[msg.id].lastHeartbeat == now
                && forall id | id in old(registry.connections) && id != msg.id ::
                     registry.connections[id] == old(registry.connections)[id]
      ensures msg.Register? ==> forall conn | conn in old(registry.connections).Values :: unchanged(conn)
    {
      match msg {
        case Register(id) =>
          if id == "" {
            return Some(RegisterAck(false));
          }
          daemonId := Some(id);
          var conn := new DaemonConnection(id, sock, now);
          registry.Register(conn);
          reply := Some(RegisterAck(true));
        case Heartbeat =>
          if daemonId.None? {
            return None;
          }
          var registered := registry.HandleHeartbeat(daemonId.value, now);
          reply := Some(HeartbeatAck(registered));
      }
    }

    // After the loop ends: removal by id, whatever connection is filed there.
    method CleanUp()
      requires registry.Valid()
      modifies registry
      ensures registry.Valid()
      ensures registry.View()
              == if daemonId.Some? then old(registry.View()) - {daemonId.value} else old(registry.View())
    {
      if daemonId.Some? {
        registry.Remove(daemonId.value);
      }
    }
  }
}
