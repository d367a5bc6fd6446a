/** The endpoint object whose handlers are the steps of PingPong, and the connection objects it reaches through its
    current handle. */
module PingPongEndpoint {
  import opened Options
  import opened PingPong

  class Connection {
    var state: ConnectionState

    constructor (state: ConnectionState)
      ensures this.state == state
    {
      this.state := state;
    }
  }

  class Endpoint {
    /** The connections the library still knows, by handle. */
    var connections: map<nat, Connection>
    var connectionHandler: Option<nat>
    /** The ping timers the library holds, and the pings whose pong it waits for. */
    var timers: nat
    var outstanding: multiset<nat>
    ghost var opens: nat
    ghost var unsolicited: nat
    ghost var ended: nat

    constructor ()
      ensures Valid() && fresh(connections.Values) && View() == INIT
    {
      connections, connectionHandler, timers, outstanding := map[], None, 0, multiset{};
      opens, unsolicited, ended := 0, 0, 0;
      new;
      assert States() == map[];
    }

    /** Different handles give different connections. */
    ghost predicate Valid()
      reads this`connections
    {
      forall h, g :: h in connections && g in connections && h != g ==> connections[h] != connections[g]
    }

    ghost function States(): map<nat, ConnectionState>
      reads this`connections, connections.Values
    {
      map h | h in connections :: connections[h].state
    }

    ghost function View(): State
      reads this, connections.Values
    {
      State(States(), connectionHandler, timers, outstanding, opens, unsolicited, ended)
    }

    function GetConnection(h: Option<nat>): (connection: Connection?)
      reads this
      ensures connection != null <==> h.Some? && h.value in connections
      ensures connection != null ==> connection == connections[h.value]
    {
      if h.Some? && h.value in connections then connections[h.value] else null
    }

    /** The library has a new connection under this handle, or one changes or goes by itself. */
    method Put(h: nat, state: ConnectionState)
      requires Valid()
      modifies this`connections
      ensures Valid() && fresh(connections.Values - old(connections.Values))
      ensures h in connections && States() == old(States())[h := state]
    {
      var connection := new Connection(state);
      connections := connections[h := connection];
    }

    method Change(h: nat, state: ConnectionState)
      requires Valid() && h in connections
      modifies connections.Values
      ensures Valid() && States() == old(States())[h := state]
      ensures connections[h].state == state
      ensures forall g :: g in connections && g != h ==> connections[g].state == old(connections[g].state)
    {
      connections[h].state := state;
      assert States() == old(States())[h := state];
    }

    method Vanish(h: nat)
      requires Valid()
      modifies this`connections
      ensures Valid() && connections.Values <= old(connections.Values) && States() == old(States()) - {h}
    {
      connections := connections - {h};
      assert States() == old(States()) - {h};
    }

    method Schedule()
      modifies this`timers
      ensures timers == old(timers) + 1
    {
      timers := timers + 1;
    }

    method StartPing(h: nat)
      modifies this`timers, this`opens
      ensures if h in connections then timers == old(timers) + 1 && opens == old(opens) + 1
              else timers == old(timers) && opens == old(opens)
    {
      var connection := GetConnection(Some(h));
      if connection == null {
        return;
      }
      Schedule();
      opens := opens + 1;
    }

    /** The library reports connection h open. */
    method HandleOpen(h: nat)
      requires Valid()
      modifies this
      ensures Valid() && fresh(connections.Values - old(connections.Values))
      ensures View() == Do(old(View()), OnOpen(h))
      ensures connectionHandler == Some(h) && timers == old(timers) + 1 && opens == old(opens) + 1
    {
      Put(h, Open);
      connectionHandler := Some(h);
      StartPing(h);
    }

    /** Pings the current connection, if there is one and it is open; sendOk is whether the library takes the ping. */
    method PingCurrent(sendOk: bool) returns (sent: bool)
      modifies this`outstanding
      ensures sent <==>
              && connectionHandler.Some? && connectionHandler.value in connections
              && connections[connectionHandler.value].state == Open && sendOk
      ensures outstanding == if sent then old(outstanding) + multiset{connectionHandler.value} else old(outstanding)
    {
      var connection := GetConnection(connectionHandler);
      if connection == null {
        return false;
      }
      if connection.state != Open {
        return false;
      }
      if !sendOk {
        return false;
      }
      outstanding := outstanding + multiset{connectionHandler.value};
      return true;
    }

    /** A ping timer fires. */
    method HandlePing(sendOk: bool)
      requires Valid() && timers > 0
      modifies this`timers, this`outstanding, this`ended
      ensures Valid() && View() == Do(old(View()), Ping(sendOk))
      ensures timers == old(timers) - 1
      ensures if connectionHandler.Some? && connectionHandler.value in connections
                 && connections[connectionHandler.value].state == Open && sendOk
              then outstanding == old(outstanding) + multiset{connectionHandler.value} && ended == old(ended)
              else outstanding == old(outstanding) && ended == old(ended) + 1
    {
      timers := timers - 1;
      var sent := PingCurrent(sendOk);
      if !sent {
        ended := ended + 1;
      }
    }

    method HandlePong(h: nat)
      requires Valid() && (h in connections || h in outstanding)
      modifies this`timers, this`outstanding, this`unsolicited
      ensures Valid() && View() == Do(old(View()), OnPong(h))
      ensures timers == old(timers) + 1 && outstanding == old(outstanding) - multiset{h}
      ensures unsolicited == old(unsolicited) + if h in old(outstanding) then 0 else 1
    {
      if h in outstanding {
        outstanding := outstanding - multiset{h};
      } else {
        unsolicited := unsolicited + 1;
      }
      Schedule();
    }

    method CloseConnection(closeOk: bool)
      requires Valid()
      modifies connections.Values
      ensures Valid() && View() == Close(old(View()), closeOk)
      ensures forall h :: h in connections ==>
                connections[h].state ==
                if Some(h) == connectionHandler && old(connections[h].state) == Open && closeOk then Closing
                else old(connections[h].state)
    {
      var conn := GetConnection(connectionHandler);
      if conn == null {
        return;
      }
      if conn.state != Open {
        return;
      }
      if closeOk {
        Change(connectionHandler.value, Closing);
      }
    }

    method GiveUp(h: nat)
      modifies this`outstanding, this`ended
      ensures View() == old(View()).(outstanding := old(outstanding) - multiset{h}, ended := old(ended) + 1)
    {
      outstanding := outstanding - multiset{h};
      ended := ended + 1;
    }

    method HandlePongTimeout(h: nat, closeOk: bool)
      requires Valid() && h in outstanding
      modifies this`outstanding, this`ended, connections.Values
      ensures Valid() && View() == Do(old(View()), OnPongTimeout(h, closeOk))
      ensures outstanding == old(outstanding) - multiset{h} && ended == old(ended) + 1
      ensures forall g :: g in connections ==>
                connections[g].state ==
                if Some(g) == connectionHandler && old(connections[g].state) == Open && closeOk then Closing
                else old(connections[g].state)
    {
      GiveUp(h);
      CloseConnection(closeOk);
    }
  }

  lemma AfterPrefix(trace: seq<Event>, i: nat)
    requires i < |trace| && After(trace).Some?
    ensures After(trace[..i]).Some? && After(trace[..i + 1]).Some? && Enabled(After(trace[..i]).value, trace[i])
    ensures After(trace[..i + 1]).value == Do(After(trace[..i]).value, trace[i])
    decreases |trace|
  {
    var n := |trace| - 1;
    if i < n {
      assert trace[..n][..i] == trace[..i] && trace[..n][..i + 1] == trace[..i + 1];
      AfterPrefix(trace[..n], i);
    } else {
      assert trace[..i + 1] == trace;
      assert trace[..i + 1][..i] == trace[..i];
    }
  }

  /** The handlers, and what connections do by themselves. */
  method Take(endpoint: Endpoint, e: Event)
    requires endpoint.Valid() && Enabled(endpoint.View(), e)
    modifies endpoint, endpoint.connections.Values
    ensures endpoint.Valid() && fresh(endpoint.connections.Values - old(endpoint.connections.Values))
    ensures endpoint.View() == Do(old(endpoint.View()), e)
  {
    match e {
      case OnOpen(h) => endpoint.HandleOpen(h);
      case Ping(sendOk) => endpoint.HandlePing(sendOk);
      case OnPong(h) => endpoint.HandlePong(h);
      case OnPongTimeout(h, closeOk) => endpoint.HandlePongTimeout(h, closeOk);
      case Change(h, state) => endpoint.Change(h, state);
      case Vanish(h) => endpoint.Vanish(h);
    }
  }

  /** Any run, handled by the endpoint; connections change and vanish by themselves. However it goes, the timers
      and pings of the endpoint never outnumber the connections opened and the pongs nobody asked for. */
  method RunAll(trace: seq<Event>) returns (endpoint: Endpoint)
    requires After(trace).Some?
    ensures fresh(endpoint) && endpoint.Valid() && endpoint.View() == After(trace).value
    ensures endpoint.timers + |endpoint.outstanding| <= endpoint.opens + endpoint.unsolicited
  {
    endpoint := new Endpoint();
    var i := 0;
    while i < |trace|
      invariant 0 <= i <= |trace| && fresh(endpoint) && fresh(endpoint.connections.Values) && endpoint.Valid()
      invariant After(trace[..i]) == Some(endpoint.View())
    {
      AfterPrefix(trace, i);
      Take(endpoint, trace[i]);
      i := i + 1;
    }
    assert trace[..i] == trace;
    TokensConserved(trace);
  }
}
