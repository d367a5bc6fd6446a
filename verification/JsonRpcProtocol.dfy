/** Request/response correlation (helpers/WebSockets/CommunicationInterface/JsonRpcInterface.h) as a state
    machine. Every section the code runs under responseMutex_ is one step, so a run of the machine is one
    interleaving of any number of sendRequest calls, of the receiving thread and of timeouts. */
module JsonRpcProtocol {
  import opened Options
  import opened JsonRpcMessages

  /** What the mutex protects: the map from id to promise, and the shared states behind the promises.
      A promise and the future taken from it are both an index into `cells`; `faulted` is the state
      reached when set_value throws because the promise already holds a value. */
  datatype Shared = Shared(promises: map<uint32, nat>, cells: seq<Option<Message>>, faulted: bool) {
    /** createFutureResponse */
    function Create(id: uint32): Shared {
      if id in promises then this
      else this.(promises := promises[id := |cells|], cells := cells + [None])
    }

    /** removePromise */
    function Remove(id: uint32): Shared {
      this.(promises := promises - {id})
    }

    /** handleResponse */
    function Handle(id: uint32, m: Message): Shared {
      if id !in promises || promises[id] >= |cells| then this
      else if cells[promises[id]].Some? then this.(faulted := true)
      else this.(cells := cells[promises[id] := Some(m)])
    }

    /** onMessage */
    function Receive(m: Message): Shared {
      match Route(m)
      case None => this
      case Some(id) => Handle(id, m)
    }
  }

  /** What onMessage does with a message: only a message with a number for an id and no "method" reaches
      handleResponse, under the lower 32 bits of that number. */
  lemma ReceiveIs(s: Shared, m: Message)
    ensures s.Receive(m) ==
            if m.Json? && !m.hasMethod && m.id.Some? && m.id.value.Number?
            then s.Handle(m.id.value.n % 0x1_0000_0000, m) else s
    ensures forall id: uint32 :: Route(m) == Some(id) <==> RespondsTo(m, id)
  {
  }

  /** Why a call is about to erase its promise. */
  datatype Reason = SendFailed | Ready | TimedOut

  datatype Phase =
    | Checking                             // before isRequestProcessingOngoing
    | Emplacing                            // before createFutureResponse
    | Sending(cell: nat)                   // before send
    | Waiting(cell: nat)                   // in wait_for
    | Erasing(cell: nat, reason: Reason)   // before removePromise
    | Judging(cell: nat)                   // after removePromise, before future.get
    | Done(result: bool)

  /** One call of sendRequest. `serial` tells which Request object it was given: the n-th created one,
      or 0 for one on which create() did not succeed. */
  datatype Call = Call(serial: nat, phase: Phase) {
    function Id(): uint32 { IdOf(serial) }

    predicate Owning() {
      phase.Sending? || phase.Waiting? || phase.Erasing?
    }

    predicate HasCell() {
      Owning() || phase.Judging?
    }

    function Cell(): nat
      requires HasCell()
    {
      phase.cell
    }
  }

  /** generateId pre-increments a 32-bit counter that starts at 0; an id never assigned reads 0. */
  function IdOf(serial: nat): uint32 {
    serial % WRAP
  }

  /** `created` counts the Request objects that were given an id so far. `makers` is a history variable:
      makers[p] is the call whose emplace made promise p. No step reads it. */
  datatype System = System(shared: Shared, calls: map<nat, Call>, created: nat, makers: seq<nat>)

  const INIT := System(Shared(map[], [], false), map[], 0, [])

  /** The labels of a run carry what an observer of the threads and of the wire could log. For Arrive,
      `origin` is the serial of the request the peer is answering. */
  datatype Event =
    | Generate
    | Begin(c: nat, serial: nat)
    | Check(c: nat, ongoing: bool)
    | Emplace(c: nat, won: bool)
    | Send(c: nat, ok: bool)
    | Wake(c: nat)
    | Expire(c: nat)
    | Erase(c: nat)
    | Return(c: nat, result: bool)
    | Arrive(m: Message, origin: nat)

  function CellValue(s: System, cell: nat): Option<Message> {
    if cell < |s.shared.cells| then s.shared.cells[cell] else None
  }

  /** Which steps can be taken. Nothing runs after a fault: the exception leaves the event loop thread. */
  predicate Enabled(s: System, e: Event) {
    && !s.shared.faulted
    && match e
       case Generate => true
       case Begin(c, serial) => c !in s.calls && serial <= s.created
       case Check(c, ongoing) =>
         c in s.calls && s.calls[c].phase.Checking? && ongoing == (s.calls[c].Id() in s.shared.promises)
       case Emplace(c, won) =>
         c in s.calls && s.calls[c].phase.Emplacing? && won == (s.calls[c].Id() !in s.shared.promises)
       case Send(c, ok) => c in s.calls && s.calls[c].phase.Sending?
       case Wake(c) =>
         c in s.calls && s.calls[c].phase.Waiting? && CellValue(s, s.calls[c].phase.cell).Some?
       case Expire(c) =>
         c in s.calls && s.calls[c].phase.Waiting? && CellValue(s, s.calls[c].phase.cell).None?
       case Erase(c) => c in s.calls && s.calls[c].phase.Erasing?
       case Return(c, result) =>
         && c in s.calls && s.calls[c].phase.Judging?
         && var m := CellValue(s, s.calls[c].phase.cell);
            m.Some? && result == ProcessResponse(s.calls[c].Id(), m.value)
       case Arrive(m, origin) => true
  }

  function Goto(s: System, c: nat, p: Phase): System
    requires c in s.calls
  {
    s.(calls := s.calls[c := s.calls[c].(phase := p)])
  }

  function Do(s: System, e: Event): System
    requires Enabled(s, e)
  {
    match e
    case Generate => s.(created := s.created + 1)
    case Begin(c, serial) => s.(calls := s.calls[c := Call(serial, Checking)])
    case Check(c, ongoing) => Goto(s, c, if ongoing then Done(false) else Emplacing)
    case Emplace(c, won) =>
      var s' := s.(shared := s.shared.Create(s.calls[c].Id()));
      if won then
        Goto(s', c, Sending(|s.shared.cells|)).(makers := s.makers + [c])
      else
        Goto(s', c, Done(false))
    case Send(c, ok) =>
      var cell := s.calls[c].phase.cell;
      Goto(s, c, if ok then Waiting(cell) else Erasing(cell, SendFailed))
    case Wake(c) => Goto(s, c, Erasing(s.calls[c].phase.cell, Ready))
    case Expire(c) => Goto(s, c, Erasing(s.calls[c].phase.cell, TimedOut))
    case Erase(c) =>
      var s' := s.(shared := s.shared.Remove(s.calls[c].Id()));
      Goto(s', c, if s.calls[c].phase.reason.Ready? then Judging(s.calls[c].phase.cell) else Done(false))
    case Return(c, result) => Goto(s, c, Done(result))
    case Arrive(m, origin) => s.(shared := s.shared.Receive(m))
  }

  /** The state after a trace, if the trace is a run of the machine. */
  function After(t: seq<Event>): Option<System> {
    if t == [] then Some(INIT)
    else
      var s := After(t[..|t| - 1]);
      if s.Some? && Enabled(s.value, t[|t| - 1]) then Some(Do(s.value, t[|t| - 1])) else None
  }

  // ---------------------------------------------------------------------------------------------------
  // Ownership of the map entries
  // ---------------------------------------------------------------------------------------------------

  /** What holds of every call: an owner finds its own promise under its id, nobody else made that
      promise, and a call that was told its future is ready finds a value in it. */
  ghost predicate CallOk(s: System, c: nat)
    requires c in s.calls
  {
    var call := s.calls[c];
    && call.serial <= s.created
    && (call.HasCell() ==> call.Cell() < |s.makers| && s.makers[call.Cell()] == c)
    && (call.Owning() ==> call.Id() in s.shared.promises && s.shared.promises[call.Id()] == call.Cell())
    && (GotReady(call.phase) ==> CellValue(s, call.phase.cell).Some?)
  }

  /** What holds of every map entry: the call that made the promise is still its owner. */
  ghost predicate EntryOk(s: System, id: uint32)
    requires id in s.shared.promises
  {
    var p := s.shared.promises[id];
    && p < |s.makers|
    && InFlightOwner(s, id, s.makers[p])
    && s.calls[s.makers[p]].Cell() == p
  }

  ghost predicate Inv(s: System) {
    && |s.makers| == |s.shared.cells|
    && (forall c :: c in s.calls ==> CallOk(s, c))
    && (forall id :: id in s.shared.promises ==> EntryOk(s, id))
  }

  predicate GotReady(p: Phase) {
    p.Judging? || (p.Erasing? && p.reason.Ready?)
  }

  predicate InFlightOwner(s: System, id: uint32, c: nat) {
    c in s.calls && s.calls[c].Owning() && s.calls[c].Id() == id
  }

  /** A call's own step. */
  lemma OwnStep(s: System, e: Event, c: nat)
    requires Inv(s) && Enabled(s, e) && !e.Generate? && !e.Arrive? && e.c == c && c in Do(s, e).calls
    ensures CallOk(Do(s, e), c)
  {
    assert c in s.calls ==> CallOk(s, c);
  }

  /** Another call's step: it cannot take this call's promise, which only this call made. */
  lemma OthersStep(s: System, e: Event, c: nat)
    requires Inv(s) && Enabled(s, e) && !e.Generate? && !e.Arrive? && e.c != c && c in Do(s, e).calls
    ensures CallOk(Do(s, e), c)
  {
    assert CallOk(s, c);
    assert Do(s, e).calls[c] == s.calls[c];
    if e.Erase? {
      assert CallOk(s, e.c);
    }
  }

  /** A new id, or a message: promises are only added to. */
  lemma OutsideStep(s: System, e: Event, c: nat)
    requires Inv(s) && Enabled(s, e) && (e.Generate? || e.Arrive?) && c in s.calls
    ensures CallOk(Do(s, e), c)
  {
    assert CallOk(s, c);
  }

  lemma CallStep(s: System, e: Event, c: nat)
    requires Inv(s) && Enabled(s, e) && c in Do(s, e).calls
    ensures CallOk(Do(s, e), c)
  {
    if e.Generate? || e.Arrive? {
      OutsideStep(s, e, c);
    } else if e.c == c {
      OwnStep(s, e, c);
    } else {
      OthersStep(s, e, c);
    }
  }

  lemma EntryStep(s: System, e: Event, id: uint32)
    requires Inv(s) && Enabled(s, e) && id in Do(s, e).shared.promises
    ensures EntryOk(Do(s, e), id)
  {
    assert id in s.shared.promises ==> EntryOk(s, id);
  }

  lemma InvStep(s: System, e: Event)
    requires Inv(s) && Enabled(s, e)
    ensures Inv(Do(s, e))
  {
    var s' := Do(s, e);
    forall c | c in s'.calls ensures CallOk(s', c) {
      CallStep(s, e, c);
    }
    forall id | id in s'.shared.promises ensures EntryOk(s', id) {
      EntryStep(s, e, id);
    }
  }

  lemma {:induction false} InvAlways(t: seq<Event>)
    requires After(t).Some?
    ensures Inv(After(t).value)
  {
    if t != [] {
      InvAlways(t[..|t| - 1]);
      InvStep(After(t[..|t| - 1]).value, t[|t| - 1]);
    }
  }

  /** In every interleaving: an id is in the map exactly when one call in flight that won its emplace
      owns it, and that call is the only one. */
  lemma MapHoldsExactlyTheOwners(t: seq<Event>, id: uint32)
    requires After(t).Some?
    ensures var s := After(t).value;
            && (id in s.shared.promises <==> exists c :: InFlightOwner(s, id, c))
            && (forall c, d :: InFlightOwner(s, id, c) && InFlightOwner(s, id, d) ==> c == d)
  {
    InvAlways(t);
    var s := After(t).value;
    if id in s.shared.promises {
      assert EntryOk(s, id);
    }
    forall c, d | InFlightOwner(s, id, c) && InFlightOwner(s, id, d) ensures c == d {
      assert CallOk(s, c) && CallOk(s, d);
    }
  }

  /** removePromise takes out the caller's own promise and nothing else, although it is keyed by an id
      that other calls may be using. */
  lemma EraseTakesOwnPromiseOnly(t: seq<Event>, c: nat)
    requires After(t).Some? && Enabled(After(t).value, Erase(c))
    ensures var s, s' := After(t).value, Do(After(t).value, Erase(c));
            && s.calls[c].Id() in s.shared.promises
            && s.shared.promises[s.calls[c].Id()] == s.calls[c].phase.cell
            && forall id :: id in s'.shared.promises <==> id in s.shared.promises && !InFlightOwner(s, id, c)
  {
    InvAlways(t);
    assert CallOk(After(t).value, c);
  }

  lemma QuietMapIsEmpty(t: seq<Event>)
    requires After(t).Some?
    requires forall c :: c in After(t).value.calls ==> After(t).value.calls[c].phase.Done?
    ensures After(t).value.shared.promises == map[]
  {
    InvAlways(t);
    var s := After(t).value;
    assert forall id :: id in s.shared.promises ==> EntryOk(s, id);
  }

  // ---------------------------------------------------------------------------------------------------
  // Correlation, read off the trace alone
  // ---------------------------------------------------------------------------------------------------

  /** Call c's promise is in the map: it won its emplace and has not erased since. */
  predicate Registered(t: seq<Event>, c: nat) {
    t != [] &&
    match t[|t| - 1]
    case Emplace(d, won) => if c == d then won else Registered(t[..|t| - 1], c)
    case Erase(d) => c != d && Registered(t[..|t| - 1], c)
    case _ => Registered(t[..|t| - 1], c)
  }

  /** The position of the first message routed to this id while c was registered. */
  function FirstResponse(t: seq<Event>, c: nat, id: uint32): (k: Option<nat>)
    ensures k.Some? ==> k.value < |t| && t[k.value].Arrive? && Route(t[k.value].m) == Some(id)
  {
    if t == [] then None
    else
      var n := |t| - 1;
      var k := FirstResponse(t[..n], c, id);
      if k.None? && t[n].Arrive? && Route(t[n].m) == Some(id) && Registered(t[..n], c) then Some(n) else k
  }

  function MessageAt(t: seq<Event>, k: Option<nat>): Option<Message> {
    if k.Some? && k.value < |t| && t[k.value].Arrive? then Some(t[k.value].m) else None
  }

  predicate Woke(t: seq<Event>, c: nat) {
    Wake(c) in t
  }

  predicate Sent(t: seq<Event>, c: nat) {
    Send(c, true) in t
  }

  /** A call's result, as told by the trace: it was sent and woken, and the first response counts as success. */
  ghost predicate Succeeds(t: seq<Event>, c: nat, id: uint32) {
    && Sent(t, c) && Woke(t, c)
    && FirstResponse(t, c, id).Some?
    && IsSuccessFor(id, t[FirstResponse(t, c, id).value].m)
  }

  ghost predicate CallTraced(t: seq<Event>, s: System, c: nat) {
    if c !in s.calls then
      !Registered(t, c) && !Woke(t, c) && forall id: uint32 :: FirstResponse(t, c, id).None?
    else
      var call := s.calls[c];
      && (Registered(t, c) <==> call.Owning())
      && (call.HasCell() ==> CellValue(s, call.Cell()) == MessageAt(t, FirstResponse(t, c, call.Id())))
      && (call.phase.Checking? || call.phase.Emplacing? ==> FirstResponse(t, c, call.Id()).None?)
      && (call.phase.Waiting? || GotReady(call.phase) ==> Sent(t, c))
      && (!call.phase.Done? ==> (Woke(t, c) <==> GotReady(call.phase)))
      && (call.phase.Done? ==> (call.phase.result <==> Succeeds(t, c, call.Id())))
  }

  /** One event further, FirstResponse and Registered change only as the last event says. */
  lemma Extend(t: seq<Event>, e: Event, c: nat, id: uint32)
    ensures (t + [e])[..|t|] == t
    ensures Woke(t + [e], c) <==> Woke(t, c) || e == Wake(c)
    ensures Sent(t + [e], c) <==> Sent(t, c) || e == Send(c, true)
    ensures var k := FirstResponse(t, c, id);
            FirstResponse(t + [e], c, id) ==
            if k.None? && e.Arrive? && Route(e.m) == Some(id) && Registered(t, c) then Some(|t|) else k
    ensures MessageAt(t + [e], FirstResponse(t, c, id)) == MessageAt(t, FirstResponse(t, c, id))
  {
    assert (t + [e])[..|t|] == t;
  }

  /** A step the call makes itself. */
  lemma TracedOwnStep(t: seq<Event>, s: System, e: Event, c: nat)
    requires Inv(s) && Enabled(s, e) && !e.Arrive? && !e.Generate? && e.c == c && c in s.calls
    requires CallTraced(t, s, c)
    ensures CallTraced(t + [e], Do(s, e), c)
  {
    Extend(t, e, c, s.calls[c].Id());
    assert CallOk(s, c);
    if e.Return? {
      ProcessResponseMeaning(s.calls[c].Id(), CellValue(s, s.calls[c].phase.cell).value);
    }
  }

  /** A step of another call, or a new id. */
  lemma TracedOtherStep(t: seq<Event>, s: System, e: Event, c: nat)
    requires Inv(s) && Enabled(s, e) && !e.Arrive? && (e.Generate? || e.c != c) && c in s.calls
    requires CallTraced(t, s, c)
    ensures CallTraced(t + [e], Do(s, e), c)
  {
    Extend(t, e, c, s.calls[c].Id());
    assert CallOk(s, c);
    assert Do(s, e).calls[c] == s.calls[c];
    assert Registered(t + [e], c) == Registered(t, c);
  }

  lemma TracedArrival(t: seq<Event>, s: System, e: Event, c: nat)
    requires Inv(s) && Enabled(s, e) && e.Arrive? && c in s.calls
    requires CallTraced(t, s, c)
    ensures CallTraced(t + [e], Do(s, e), c)
  {
    Extend(t, e, c, s.calls[c].Id());
    assert CallOk(s, c);
    if Route(e.m).Some? && Route(e.m).value in s.shared.promises {
      assert EntryOk(s, Route(e.m).value);
    }
  }

  lemma TracedNewCall(t: seq<Event>, s: System, e: Event, c: nat)
    requires Enabled(s, e) && c !in s.calls
    requires CallTraced(t, s, c)
    ensures CallTraced(t + [e], Do(s, e), c)
  {
    forall id: uint32 ensures FirstResponse(t + [e], c, id).None? {
      Extend(t, e, c, id);
    }
    Extend(t, e, c, 0);
  }

  lemma TracedStep(t: seq<Event>, s: System, e: Event, c: nat)
    requires Inv(s) && Enabled(s, e)
    requires CallTraced(t, s, c)
    ensures CallTraced(t + [e], Do(s, e), c)
  {
    if c !in s.calls {
      TracedNewCall(t, s, e, c);
    } else if e.Arrive? {
      TracedArrival(t, s, e, c);
    } else if !e.Generate? && e.c == c {
      TracedOwnStep(t, s, e, c);
    } else {
      TracedOtherStep(t, s, e, c);
    }
  }

  lemma {:induction false} TracedAlways(t: seq<Event>, c: nat)
    requires After(t).Some?
    ensures CallTraced(t, After(t).value, c)
  {
    if t != [] {
      var init := t[..|t| - 1];
      TracedAlways(init, c);
      InvAlways(init);
      TracedStep(init, After(init).value, t[|t| - 1], c);
      assert init + [t[|t| - 1]] == t;
    }
  }

  /** Event k is a response to this id, and it comes while call c is registered. */
  ghost predicate ResponseAt(t: seq<Event>, k: nat, c: nat, id: uint32)
    requires k < |t|
  {
    t[k].Arrive? && RespondsTo(t[k].m, id) && Registered(t[..k], c)
  }

  /** FirstResponse is the first response to the id in the call's registration, and there is one if there is any. */
  lemma {:induction false} FirstResponseIs(t: seq<Event>, c: nat, id: uint32)
    ensures var first := FirstResponse(t, c, id);
            && (first.Some? ==> ResponseAt(t, first.value, c, id))
            && (forall k: nat :: k < |t| && ResponseAt(t, k, c, id) ==> first.Some? && first.value <= k)
  {
    if t != [] {
      var n := |t| - 1;
      FirstResponseIs(t[..n], c, id);
      var first := FirstResponse(t, c, id);
      forall k: nat | k < n ensures t[..n][k] == t[k] && t[..n][..k] == t[..k] {
      }
      if t[n].Arrive? {
        ReceiveIs(INIT.shared, t[n].m);
      }
      assert forall k: nat :: k < n ==> (ResponseAt(t, k, c, id) <==> ResponseAt(t[..n], k, c, id));
    }
  }

  /** Correlation, over whole runs: the future of a call holds exactly the first message routed to its id
      while its promise was in the map. */
  lemma FutureHoldsFirstResponse(t: seq<Event>, c: nat)
    requires After(t).Some? && c in After(t).value.calls
    ensures var call := After(t).value.calls[c];
            call.HasCell() ==>
              CellValue(After(t).value, call.Cell()) == MessageAt(t, FirstResponse(t, c, call.Id()))
  {
    TracedAlways(t, c);
  }

  /** sendRequest returns true exactly when the call was woken by a response and the first response to
      its id is a valid answer whose "success" reads true. A lost emplace race, a failed send, a timeout,
      an error response and a response for another id all return false. */
  lemma ResultMeaning(t: seq<Event>, c: nat)
    requires After(t).Some? && c in After(t).value.calls
    ensures var call := After(t).value.calls[c];
            call.phase.Done? ==> (call.phase.result <==> Succeeds(t, c, call.Id()))
  {
    TracedAlways(t, c);
  }

  // ---------------------------------------------------------------------------------------------------
  // Which way a call goes, read off the trace and the other calls
  // ---------------------------------------------------------------------------------------------------

  ghost predicate InFlight(s: System, id: uint32) {
    exists c :: InFlightOwner(s, id, c)
  }

  ghost predicate HasResponse(t: seq<Event>, c: nat, id: uint32) {
    exists k: nat :: k < |t| && ResponseAt(t, k, c, id)
  }

  /** A waiting call wakes if and only if a response came in its registration, and can time out if and only if
      none did. Woken, it goes on to judge the first response; timed out or not sent, it fails. */
  lemma WaitExactly(t: seq<Event>, c: nat)
    requires After(t).Some? && !After(t).value.shared.faulted && c in After(t).value.calls
    requires After(t).value.calls[c].phase.Waiting?
    ensures var s := After(t).value;
            && (Enabled(s, Wake(c)) <==> HasResponse(t, c, s.calls[c].Id()))
            && (Enabled(s, Expire(c)) <==> !HasResponse(t, c, s.calls[c].Id()))
  {
    TracedAlways(t, c);
    FirstResponseIs(t, c, After(t).value.calls[c].Id());
  }

  /** A call passes the check, and wins its emplace, if and only if no other call with its id is in flight; else
      it returns false. */
  lemma EntryExactly(t: seq<Event>, c: nat, clear: bool)
    requires After(t).Some? && !After(t).value.shared.faulted && c in After(t).value.calls
    ensures var s, call := After(t).value, After(t).value.calls[c];
            && (Enabled(s, Check(c, !clear)) <==> call.phase.Checking? && (clear <==> !InFlight(s, call.Id())))
            && (Enabled(s, Emplace(c, clear)) <==> call.phase.Emplacing? && (clear <==> !InFlight(s, call.Id())))
            && (Enabled(s, Check(c, !clear)) ==>
                  Do(s, Check(c, !clear)).calls[c].phase == if clear then Emplacing else Done(false))
            && (Enabled(s, Emplace(c, clear)) ==>
                  var phase := Do(s, Emplace(c, clear)).calls[c].phase;
                  if clear then phase.Sending? else phase == Done(false))
  {
    MapHoldsExactlyTheOwners(t, After(t).value.calls[c].Id());
  }

  /** The way out: every call that won its emplace erases its promise, and then returns false at once unless it
      was woken. */
  lemma EraseExactly(t: seq<Event>, c: nat, ok: bool)
    requires After(t).Some? && !After(t).value.shared.faulted && c in After(t).value.calls
    ensures var s, call := After(t).value, After(t).value.calls[c];
            && (Enabled(s, Send(c, ok)) <==> call.phase.Sending?)
            && (Enabled(s, Send(c, ok)) ==>
                  var phase := Do(s, Send(c, ok)).calls[c].phase;
                  if ok then phase.Waiting? else phase.Erasing?)
            && (Enabled(s, Wake(c)) ==> Do(s, Wake(c)).calls[c].phase.Erasing?)
            && (Enabled(s, Expire(c)) ==> Do(s, Expire(c)).calls[c].phase.Erasing?)
            && (Enabled(s, Erase(c)) <==> call.phase.Erasing?)
            && (Enabled(s, Erase(c)) ==>
                  var phase := Do(s, Erase(c)).calls[c].phase;
                  if Woke(t, c) then phase.Judging? else phase == Done(false))
  {
    TracedAlways(t, c);
  }

  /** Event k is the first response to this id in call c's registration. */
  ghost predicate FirstResponseAt(t: seq<Event>, k: nat, c: nat, id: uint32) {
    && k < |t| && ResponseAt(t, k, c, id)
    && forall j: nat :: j < k ==> !ResponseAt(t, j, c, id)
  }

  lemma JudgesFirstResponse(t: seq<Event>, c: nat)
    requires After(t).Some? && c in After(t).value.calls && After(t).value.calls[c].phase.Judging?
    ensures var s, call := After(t).value, After(t).value.calls[c];
            var first := FirstResponse(t, c, call.Id());
            && first.Some? && CellValue(s, call.phase.cell) == Some(t[first.value].m)
            && (forall k: nat :: FirstResponseAt(t, k, c, call.Id()) <==> k == first.value)
  {
    TracedAlways(t, c);
    InvAlways(t);
    assert CallOk(After(t).value, c);
    FirstResponseIs(t, c, After(t).value.calls[c].Id());
  }

  /** A woken call returns whether the first response is its success. */
  lemma ReturnExactly(t: seq<Event>, c: nat, result: bool)
    requires After(t).Some? && !After(t).value.shared.faulted && c in After(t).value.calls
    ensures var s, call := After(t).value, After(t).value.calls[c];
            Enabled(s, Return(c, result)) <==>
            && call.phase.Judging?
            && exists k: nat :: FirstResponseAt(t, k, c, call.Id()) && (result <==> IsSuccessFor(call.Id(), t[k].m))
  {
    var s, call := After(t).value, After(t).value.calls[c];
    if call.phase.Judging? {
      JudgesFirstResponse(t, c);
      var first := FirstResponse(t, c, call.Id());
      ProcessResponseMeaning(call.Id(), t[first.value].m);
    }
  }

  // ---------------------------------------------------------------------------------------------------
  // When set_value throws
  // ---------------------------------------------------------------------------------------------------

  ghost predicate Answered(t: seq<Event>, s: System, c: nat, id: uint32) {
    c in s.calls && s.calls[c].Id() == id && Registered(t, c) && FirstResponse(t, c, id).Some?
  }

  /** A message faults the receiver exactly when it is a further response for a call that is still
      registered and has had one. */
  lemma FaultExactly(t: seq<Event>, m: Message, origin: nat)
    requires After(t).Some? && !After(t).value.shared.faulted
    ensures var s := After(t).value;
            Do(s, Arrive(m, origin)).shared.faulted <==>
            Route(m).Some? && exists c :: Answered(t, s, c, Route(m).value)
  {
    var s := After(t).value;
    InvAlways(t);
    if Route(m).Some? {
      var id := Route(m).value;
      if id in s.shared.promises {
        assert EntryOk(s, id);
        var c := s.makers[s.shared.promises[id]];
        TracedAlways(t, c);
        assert Answered(t, s, c, id) <==> Do(s, Arrive(m, origin)).shared.faulted;
      }
      forall c | Answered(t, s, c, id) ensures Do(s, Arrive(m, origin)).shared.faulted {
        TracedAlways(t, c);
        assert CallOk(s, c);
      }
    }
  }

  /** The peer sends at most one response per id. */
  ghost predicate OneResponsePerId(t: seq<Event>) {
    forall i, j :: 0 <= i < j < |t| && t[i].Arrive? && t[j].Arrive? && Route(t[i].m).Some?
      ==> Route(t[i].m) != Route(t[j].m)
  }

  lemma {:induction false} NoFaultWithOneResponsePerId(t: seq<Event>)
    requires After(t).Some? && OneResponsePerId(t)
    ensures !After(t).value.shared.faulted
  {
    if t != [] {
      var init, e := t[..|t| - 1], t[|t| - 1];
      NoFaultWithOneResponsePerId(init);
      if e.Arrive? {
        FaultExactly(init, e.m, e.origin);
      }
    }
  }
}
