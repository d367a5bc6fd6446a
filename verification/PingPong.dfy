/** The keepalive of a websocket endpoint (helpers/WebSockets/PingPong/PingPongEnabled.h, with onOpen and
    closeConnection of helpers/WebSockets/WSEndpoint.cpp). Pings and pongs are the control frames of sections
    5.5.2 and 5.5.3 of RFC 6455. Every handler runs on the event loop thread, so a run is a sequence of handler
    calls. */
module PingPong {
  import opened Options

  datatype ConnectionState = Connecting | Open | Closing | Closed

  /** `current` is connectionHandler_; a handle that is not in `connections` no longer gives a connection.
      `timers` counts the timers that will call ping, `outstanding` holds the handle of every ping sent whose
      pong has neither come nor timed out. The last three are history variables: chains started by onOpen, pongs
      nobody asked for, and chains that ended. */
  datatype State = State(connections: map<nat, ConnectionState>, current: Option<nat>, timers: nat,
                         outstanding: multiset<nat>, opens: nat, unsolicited: nat, ended: nat)

  const INIT := State(map[], None, 0, multiset{}, 0, 0, 0)

  datatype Event =
    | OnOpen(h: nat)
    | Ping(sendOk: bool)                    // a ping timer fires
    | OnPong(h: nat)
    | OnPongTimeout(h: nat, closeOk: bool)
    | Change(h: nat, state: ConnectionState) // the connection moves on by itself
    | Vanish(h: nat)                        // and is cleaned up

  predicate CurrentOpen(s: State) {
    s.current.Some? && s.current.value in s.connections && s.connections[s.current.value].Open?
  }

  predicate Enabled(s: State, e: Event) {
    match e
    case Ping(_) => s.timers > 0
    case OnPong(h) => h in s.connections || h in s.outstanding
    case OnPongTimeout(h, _) => h in s.outstanding
    case Change(h, _) => h in s.connections
    case _ => true
  }

  /** closeConnection: asks for the current connection to be closed, if it is open. */
  function Close(s: State, closeOk: bool): State {
    if CurrentOpen(s) && closeOk then s.(connections := s.connections[s.current.value := Closing]) else s
  }

  function Do(s: State, e: Event): State
    requires Enabled(s, e)
  {
    match e
    case OnOpen(h) =>
      s.(connections := s.connections[h := Open], current := Some(h), timers := s.timers + 1, opens := s.opens + 1)
    case Ping(sendOk) =>
      if CurrentOpen(s) && sendOk then
        s.(timers := s.timers - 1, outstanding := s.outstanding + multiset{s.current.value})
      else
        s.(timers := s.timers - 1, ended := s.ended + 1)
    case OnPong(h) =>
      if h in s.outstanding then s.(outstanding := s.outstanding - multiset{h}, timers := s.timers + 1)
      else s.(unsolicited := s.unsolicited + 1, timers := s.timers + 1)
    case OnPongTimeout(h, closeOk) =>
      Close(s.(outstanding := s.outstanding - multiset{h}, ended := s.ended + 1), closeOk)
    case Change(h, state) => s.(connections := s.connections[h := state])
    case Vanish(h) => s.(connections := s.connections - {h})
  }

  function From(s: State, trace: seq<Event>): Option<State>
    decreases |trace|
  {
    if trace == [] then Some(s)
    else
      var r := From(s, trace[..|trace| - 1]);
      var e := trace[|trace| - 1];
      if r.Some? && Enabled(r.value, e) then Some(Do(r.value, e)) else None
  }

  function After(trace: seq<Event>): Option<State> {
    From(INIT, trace)
  }

  // ---- tokens ----

  /** Every chain that was started is a pending timer, an outstanding ping, or has ended. */
  predicate Conserved(s: State) {
    s.timers + |s.outstanding| + s.ended == s.opens + s.unsolicited
  }

  lemma {:induction false} TokensConserved(trace: seq<Event>)
    requires After(trace).Some?
    ensures Conserved(After(trace).value)
    decreases |trace|
  {
    if trace != [] {
      var init, e := trace[..|trace| - 1], trace[|trace| - 1];
      TokensConserved(init);
      var s := After(init).value;
      if e.OnPong? || e.OnPongTimeout? {
        assert e.h in s.outstanding ==> |s.outstanding - multiset{e.h}| == |s.outstanding| - 1;
      }
    }
  }

  /** The step puts a ping on the wire. */
  predicate Sends(s: State, e: Event) {
    e.Ping? && e.sendOk && CurrentOpen(s)
  }

  /** The step ends a chain: a failed ping, a ping timer that finds no open connection, or a pong timeout. */
  predicate Ends(s: State, e: Event) {
    e.OnPongTimeout? || (e.Ping? && !Sends(s, e))
  }

  /** The step starts a chain. */
  predicate Starts(s: State, e: Event) {
    e.OnOpen? || (e.OnPong? && e.h !in s.outstanding)
  }

  predicate StartsNothing(s: State, trace: seq<Event>)
    decreases |trace|
  {
    trace == [] ||
    var init := trace[..|trace| - 1];
    StartsNothing(s, init) && (From(s, init).Some? ==> !Starts(From(s, init).value, trace[|trace| - 1]))
  }

  /** No chain, no ping: with all chains ended nothing is sent any more until a new chain starts. */
  lemma {:induction false} NoChainNoPing(s: State, trace: seq<Event>)
    requires s.timers == 0 && s.outstanding == multiset{}
    requires From(s, trace).Some? && StartsNothing(s, trace)
    ensures From(s, trace).value.timers == 0 && From(s, trace).value.outstanding == multiset{}
    decreases |trace|
  {
    if trace != [] {
      NoChainNoPing(s, trace[..|trace| - 1]);
    }
  }

  /** One connection was opened, and every pong so far answered a ping: then there is one chain. A timer is
      pending, or one ping is in flight, or the chain has ended; and once it has ended no ping can be sent until
      a chain starts anew. */
  lemma SingleChain(trace: seq<Event>)
    requires After(trace).Some? && After(trace).value.opens == 1 && After(trace).value.unsolicited == 0
    ensures var s := After(trace).value;
            && s.timers + |s.outstanding| <= 1
            && (s.ended > 0 <==> s.timers == 0 && s.outstanding == multiset{})
  {
    TokensConserved(trace);
  }

  lemma FromNext(s: State, trace: seq<Event>, e: Event)
    ensures From(s, trace + [e]) ==
            if From(s, trace).Some? && Enabled(From(s, trace).value, e) then Some(Do(From(s, trace).value, e)) else None
  {
    assert (trace + [e])[..|trace|] == trace;
  }

  /** After a failed ping, a non-open connection or a pong timeout, a run with one onOpen and no unsolicited
      pong sends no further ping. */
  lemma NoPingAfterEnd(before: seq<Event>, end: Event, after: seq<Event>, e: Event)
    requires After(before + [end] + after).Some? && Enabled(After(before + [end] + after).value, e)
    requires After(before + [end] + after).value.opens == 1 && After(before + [end] + after).value.unsolicited == 0
    requires After(before).Some? && Ends(After(before).value, end)
    ensures !Sends(After(before + [end] + after).value, e)
  {
    TokensConserved(before + [end] + after);
    EndedOnlyGrows(before + [end], after);
    assert (before + [end])[..|before|] == before;
  }

  lemma {:induction false} EndedOnlyGrows(first: seq<Event>, second: seq<Event>)
    requires After(first + second).Some?
    ensures After(first).Some? && After(first).value.ended <= After(first + second).value.ended
    decreases |second|
  {
    if second == [] {
      assert first + second == first;
    } else {
      var n := |second| - 1;
      assert (first + second)[..|first| + n] == first + second[..n];
      EndedOnlyGrows(first, second[..n]);
    }
  }

  // ---- which pings go out, read off the trace ----

  /** The handle onOpen last came with. */
  function LastOpened(trace: seq<Event>): Option<nat>
    decreases |trace|
  {
    if trace == [] then None
    else match trace[|trace| - 1]
      case OnOpen(h) => Some(h)
      case _ => LastOpened(trace[..|trace| - 1])
  }

  /** What connection h was last known to be: a pong timeout on any connection makes the one last opened closing, if
      that is open and can be asked to close. */
  function LastState(trace: seq<Event>, h: nat): Option<ConnectionState>
    decreases |trace|
  {
    if trace == [] then None
    else
      var rest := trace[..|trace| - 1];
      match trace[|trace| - 1]
      case OnOpen(g) => if g == h then Some(Open) else LastState(rest, h)
      case Change(g, state) => if g == h then Some(state) else LastState(rest, h)
      case Vanish(g) => if g == h then None else LastState(rest, h)
      case OnPongTimeout(_, closeOk) =>
        if closeOk && LastOpened(rest) == Some(h) && LastState(rest, h) == Some(Open) then Some(Closing)
        else LastState(rest, h)
      case _ => LastState(rest, h)
  }

  function StateOf(s: State, h: nat): Option<ConnectionState> {
    if h in s.connections then Some(s.connections[h]) else None
  }

  lemma {:induction false} ConnectionsTracked(trace: seq<Event>, h: nat)
    requires After(trace).Some?
    ensures After(trace).value.current == LastOpened(trace)
    ensures StateOf(After(trace).value, h) == LastState(trace, h)
    decreases |trace|
  {
    if trace != [] {
      ConnectionsTracked(trace[..|trace| - 1], h);
    }
  }

  /** When a ping timer fires, a ping goes out if and only if the connection last opened is still there, open, and takes
      it; it then waits for a pong from that connection. Else the chain ends. */
  lemma PingSentExactly(trace: seq<Event>, sendOk: bool, h: nat)
    requires After(trace).Some? && Enabled(After(trace).value, Ping(sendOk))
    ensures var s, s' := After(trace).value, Do(After(trace).value, Ping(sendOk));
            && s'.timers == s.timers - 1
            && (if LastOpened(trace) == Some(h) && LastState(trace, h) == Some(Open) && sendOk then
                  s'.outstanding == s.outstanding + multiset{h} && s'.ended == s.ended
                else s'.outstanding[h] == s.outstanding[h])
            && (s'.ended == s.ended + 1 <==>
                  LastOpened(trace).None? || LastState(trace, LastOpened(trace).value) != Some(Open) || !sendOk)
  {
    ConnectionsTracked(trace, h);
    if LastOpened(trace).Some? {
      ConnectionsTracked(trace, LastOpened(trace).value);
    }
  }

  // ---- reconnecting ----

  predicate AtMostOne(s: State) {
    forall h, g :: h in s.connections && g in s.connections ==> h == g
  }

  /** There is never more than one connection: each is cleaned up before the next one opens. */
  predicate OneAtATime(trace: seq<Event>)
    decreases |trace|
  {
    trace == [] ||
    (OneAtATime(trace[..|trace| - 1]) && After(trace).Some? && AtMostOne(After(trace).value))
  }

  lemma OneMore(trace: seq<Event>, e: Event)
    requires After(trace).Some? && OneAtATime(trace) && Enabled(After(trace).value, e)
    requires AtMostOne(Do(After(trace).value, e))
    ensures After(trace + [e]) == Some(Do(After(trace).value, e)) && OneAtATime(trace + [e])
  {
    FromNext(INIT, trace, e);
    assert (trace + [e])[..|trace|] == trace;
  }

  lemma CleanedUp(trace: seq<Event>, s: State, h: nat) returns (trace': seq<Event>)
    requires After(trace) == Some(s) && OneAtATime(trace) && s.connections == map[h := Open]
    ensures OneAtATime(trace') && After(trace') == Some(s.(connections := map[]))
  {
    var s1 := s.(connections := map[h := Closed]);
    assert Do(s, Change(h, Closed)) == s1;
    OneMore(trace, Change(h, Closed));
    assert Do(s1, Vanish(h)).connections == map[];
    OneMore(trace + [Change(h, Closed)], Vanish(h));
    trace' := trace + [Change(h, Closed)] + [Vanish(h)];
  }

  lemma Opened(trace: seq<Event>, s: State, h: nat) returns (trace': seq<Event>)
    requires After(trace) == Some(s) && OneAtATime(trace) && s.connections == map[]
    ensures OneAtATime(trace')
    ensures After(trace') == Some(s.(connections := map[h := Open], current := Some(h), timers := s.timers + 1,
                                     opens := s.opens + 1))
  {
    OneMore(trace, OnOpen(h));
    assert Do(s, OnOpen(h)).connections == map[h := Open];
    trace' := trace + [OnOpen(h)];
  }

  /** The state after k connections opened, each after the one before was gone, and before any ping. */
  function Reconnected(k: nat): State {
    if k == 0 then INIT else State(map[k - 1 := Open], Some(k - 1), k, multiset{}, k, 0, 0)
  }

  lemma {:induction false} ReconnectsRun(k: nat) returns (trace: seq<Event>)
    ensures After(trace) == Some(Reconnected(k)) && OneAtATime(trace)
  {
    if k == 0 {
      trace := [];
    } else if k == 1 {
      trace := Opened([], INIT, 0);
    } else {
      trace := ReconnectsRun(k - 1);
      trace := CleanedUp(trace, Reconnected(k - 1), k - 2);
      trace := Opened(trace, Reconnected(k - 1).(connections := map[]), k - 1);
    }
  }

  lemma {:induction false} PingsRun(trace: seq<Event>, h: nat, n: nat) returns (trace': seq<Event>)
    requires After(trace).Some? && OneAtATime(trace)
    requires var s := After(trace).value;
             s.connections == map[h := Open] && s.current == Some(h) && s.outstanding == multiset{} && n <= s.timers
    ensures After(trace').Some? && OneAtATime(trace')
    ensures var s, s' := After(trace).value, After(trace').value;
            && s'.timers == s.timers - n && s'.outstanding[h] == n
            && s'.current == s.current && s'.connections == s.connections
            && s'.opens == s.opens && s'.unsolicited == s.unsolicited
  {
    trace' := trace;
    if n > 0 {
      trace' := PingsRun(trace, h, n - 1);
      OneMore(trace', Ping(true));
      trace' := trace' + [Ping(true)];
    }
  }

  /** Every pong nobody asked for starts one more chain. */
  lemma {:induction false} UnaskedRun(trace: seq<Event>, h: nat, u: nat) returns (trace': seq<Event>)
    requires After(trace).Some? && OneAtATime(trace)
    requires After(trace).value.connections == map[h := Open] && After(trace).value.outstanding == multiset{}
    ensures After(trace').Some? && OneAtATime(trace')
    ensures var s := After(trace).value;
            After(trace').value == s.(timers := s.timers + u, unsolicited := s.unsolicited + u)
  {
    trace' := trace;
    if u > 0 {
      trace' := UnaskedRun(trace, h, u - 1);
      OneMore(trace', OnPong(h));
      trace' := trace' + [OnPong(h)];
    }
  }

  /** A run with k connections opened, u unsolicited pongs, and n pings in flight on one connection at once. */
  ghost predicate InFlight(trace: seq<Event>, k: nat, u: nat, h: nat, n: nat) {
    && After(trace).Some?
    && After(trace).value.opens == k && After(trace).value.unsolicited == u
    && After(trace).value.outstanding[h] == n
  }

  ghost predicate NothingWithoutOpen(s: State) {
    s.opens == 0 ==> s.connections == map[] && s.outstanding == multiset{} && s.unsolicited == 0 && s.current.None?
  }

  lemma {:induction false} NoPongWithoutOpen(trace: seq<Event>)
    requires After(trace).Some?
    ensures NothingWithoutOpen(After(trace).value)
    decreases |trace|
  {
    if trace != [] {
      NoPongWithoutOpen(trace[..|trace| - 1]);
    }
  }

  lemma InFlightRun(k: nat, u: nat, n: nat) returns (trace: seq<Event>, h: nat)
    requires n <= k + u && (k == 0 ==> u == 0)
    ensures OneAtATime(trace) && InFlight(trace, k, u, h, n)
  {
    trace := ReconnectsRun(k);
    h := 0;
    if k > 0 {
      h := k - 1;
      trace := UnaskedRun(trace, h, u);
      trace := PingsRun(trace, h, n);
    }
  }

  /** A timer left over from an earlier connection pings the current one, and every pong nobody asked for starts another
      chain. So the number of pings that can be in flight on one connection is not one, but exactly anything up to the
      number of connections opened so far plus that of such pongs, even if each connection was gone before the next
      one opened. */
  lemma PingsInFlightExactly(k: nat, u: nat, n: nat)
    ensures (exists trace, h :: InFlight(trace, k, u, h, n)) <==> n <= k + u && (k == 0 ==> u == 0)
    ensures (exists trace, h :: OneAtATime(trace) && InFlight(trace, k, u, h, n)) <==>
            n <= k + u && (k == 0 ==> u == 0)
  {
    if n <= k + u && (k == 0 ==> u == 0) {
      var trace, h := InFlightRun(k, u, n);
    }
    if trace, h :| InFlight(trace, k, u, h, n) {
      TokensConserved(trace);
      NoPongWithoutOpen(trace);
      MultiplicityAtMostSize(After(trace).value.outstanding, h);
    }
  }

  lemma MultiplicityAtMostSize(m: multiset<nat>, h: nat)
    ensures m[h] <= |m|
  {
    var rest := m[h := 0];
    assert m == rest[h := m[h]];
  }

  // ---- pong timeouts ----

  /** After k connections were opened, a pong timeout on connection h closes another connection, which is open. */
  ghost predicate ClosesOther(trace: seq<Event>, k: nat, h: nat, other: nat) {
    && After(trace).Some? && After(trace).value.opens == k
    && var s := After(trace).value;
       && Enabled(s, OnPongTimeout(h, true)) && h != other
       && other in s.connections && s.connections[other].Open?
       && other in Do(s, OnPongTimeout(h, true)).connections
       && Do(s, OnPongTimeout(h, true)).connections[other].Closing?
  }

  ghost predicate PingsOnCurrent(s: State) {
    forall h :: h in s.outstanding ==> s.current == Some(h)
  }

  ghost predicate FirstOnly(s: State) {
    (s.opens == 0 ==> s.current.None?) && (s.opens <= 1 ==> PingsOnCurrent(s))
  }

  lemma FirstOnlyStep(s: State, e: Event)
    requires FirstOnly(s) && Enabled(s, e)
    ensures FirstOnly(Do(s, e))
  {
    var s' := Do(s, e);
    forall h | s'.opens <= 1 && h in s'.outstanding ensures s'.current == Some(h) {
      assert h in s.outstanding || e.Ping?;
    }
  }

  /** While only one connection was opened, every ping in flight is on it. */
  lemma {:induction false} FirstConnectionOnly(trace: seq<Event>)
    requires After(trace).Some?
    ensures FirstOnly(After(trace).value)
    decreases |trace|
  {
    if trace != [] {
      FirstConnectionOnly(trace[..|trace| - 1]);
      FirstOnlyStep(After(trace[..|trace| - 1]).value, trace[|trace| - 1]);
    }
  }

  /** The state after connection 0 was pinged and did not answer, and k - 1 others opened, each after the one before
      was gone. */
  function Silent(k: nat): State
    requires k > 0
  {
    State(map[k - 1 := Open], Some(k - 1), k - 1, multiset{0}, k, 0, 0)
  }

  lemma {:induction false} SilentRun(k: nat) returns (trace: seq<Event>)
    requires k > 0
    ensures After(trace) == Some(Silent(k)) && OneAtATime(trace)
  {
    if k == 1 {
      trace := PingedFirst();
    } else {
      trace := SilentRun(k - 1);
      trace := CleanedUp(trace, Silent(k - 1), k - 2);
      trace := Opened(trace, Silent(k - 1).(connections := map[]), k - 1);
    }
  }

  lemma PingedFirst() returns (trace: seq<Event>)
    ensures After(trace) == Some(Silent(1)) && OneAtATime(trace)
  {
    var first := Opened([], INIT, 0);
    var s := After(first).value;
    assert Do(s, Ping(true)) == Silent(1);
    OneMore(first, Ping(true));
    trace := first + [Ping(true)];
  }

  lemma SilentCloses(trace: seq<Event>, k: nat)
    requires k >= 2 && After(trace) == Some(Silent(k))
    ensures ClosesOther(trace, k, 0, k - 1)
  {
  }

  lemma OtherNeedsTwo(trace: seq<Event>, k: nat, h: nat, other: nat)
    requires ClosesOther(trace, k, h, other)
    ensures k >= 2
  {
    FirstConnectionOnly(trace);
  }

  /** A pong timeout closes the current connection, whichever connection it was that did not answer. So it can close an
      open connection other than the silent one exactly when there has been more than one; and it can do so even if
      each connection was gone before the next one opened. */
  lemma TimeoutClosesOtherExactly(k: nat)
    ensures (exists trace, h, other :: ClosesOther(trace, k, h, other)) <==> k >= 2
    ensures (exists trace, h, other :: OneAtATime(trace) && ClosesOther(trace, k, h, other)) <==> k >= 2
  {
    if k >= 2 {
      var trace := SilentRun(k);
      SilentCloses(trace, k);
      assert OneAtATime(trace) && ClosesOther(trace, k, 0, k - 1);
    }
    if trace, h, other :| ClosesOther(trace, k, h, other) {
      OtherNeedsTwo(trace, k, h, other);
    }
  }
}
