/** What the request/response correlation makes of different peers: which answers can reach which request, and which
    peers can make the receiver fault. */
module JsonRpcPeer {
  import opened Options
  import opened JsonRpcMessages
  import opened JsonRpcProtocol

  // ---------------------------------------------------------------------------------------------------
  // Parts of runs
  // ---------------------------------------------------------------------------------------------------

  lemma Step(t: seq<Event>, s: System, e: Event)
    requires After(t) == Some(s) && Enabled(s, e)
    ensures After(t + [e]) == Some(Do(s, e))
  {
    assert (t + [e])[..|t|] == t;
  }

  /** How often a request with this id was sent: a Request object can be given to sendRequest again. */
  function SendCount(t: seq<Event>, id: uint32): nat
    decreases |t|
  {
    if t == [] then 0
    else
      var init, e := t[..|t| - 1], t[|t| - 1];
      SendCount(init, id) + if e.Send? && e.ok && SenderHasId(init, e.c, id) then 1 else 0
  }

  predicate SenderHasId(t: seq<Event>, c: nat, id: uint32) {
    After(t).Some? && c in After(t).value.calls && After(t).value.calls[c].Id() == id
  }

  function ResponseCount(t: seq<Event>, id: uint32): nat
    decreases |t|
  {
    if t == [] then 0
    else
      var init, e := t[..|t| - 1], t[|t| - 1];
      ResponseCount(init, id) + if e.Arrive? && Route(e.m) == Some(id) then 1 else 0
  }

  lemma CountNext(t: seq<Event>, e: Event, id: uint32)
    ensures SendCount(t + [e], id) ==
            SendCount(t, id) + if e.Send? && e.ok && SenderHasId(t, e.c, id) then 1 else 0
    ensures ResponseCount(t + [e], id) ==
            ResponseCount(t, id) + if e.Arrive? && Route(e.m) == Some(id) then 1 else 0
  {
    assert (t + [e])[..|t|] == t;
  }

  function SuccessAnswer(id: uint32): Message {
    Json(Some(Number(id)), false, Some("2.0"), Some(id), Some(Some(Boolean(true))), None)
  }

  lemma QuietStep(t: seq<Event>, s: System, e: Event)
    requires After(t) == Some(s) && Enabled(s, e) && !e.Send?
    ensures After(t + [e]) == Some(Do(s, e))
    ensures forall id :: SendCount(t + [e], id) == SendCount(t, id)
  {
    Step(t, s, e);
    forall id ensures SendCount(t + [e], id) == SendCount(t, id) {
      CountNext(t, e, id);
    }
  }

  lemma SendStep(t: seq<Event>, s: System, c: nat)
    requires After(t) == Some(s) && Enabled(s, Send(c, true))
    ensures After(t + [Send(c, true)]) == Some(Do(s, Send(c, true)))
    ensures forall id :: SendCount(t + [Send(c, true)], id) == SendCount(t, id) + if id == s.calls[c].Id() then 1 else 0
  {
    Step(t, s, Send(c, true));
    forall id: uint32
      ensures SendCount(t + [Send(c, true)], id) == SendCount(t, id) + if id == s.calls[c].Id() then 1 else 0
    {
      CountNext(t, Send(c, true), id);
    }
  }

  /** The steps of a new call, with an empty map, up to its wait. */
  function Registered(s: System, d: nat, b: nat): System {
    System(Shared(map[IdOf(b) := |s.shared.cells|], s.shared.cells + [None], s.shared.faulted),
           s.calls[d := Call(b, Waiting(|s.shared.cells|))], s.created, s.makers + [d])
  }

  lemma Registering(s: System, d: nat, b: nat)
    requires d !in s.calls && b <= s.created && s.shared.promises == map[] && !s.shared.faulted
    ensures Enabled(s, Begin(d, b))
    ensures var s1 := Do(s, Begin(d, b));
            && Enabled(s1, Check(d, false))
            && var s2 := Do(s1, Check(d, false));
            && Enabled(s2, Emplace(d, true))
            && var s3 := Do(s2, Emplace(d, true));
            && Enabled(s3, Send(d, true)) && s3.calls[d].Id() == IdOf(b)
            && Do(s3, Send(d, true)) == Registered(s, d, b)
  {
  }

  /** From a state with an empty map, a new call gets as far as waiting. */
  lemma RegisteredCall(t: seq<Event>, s: System, d: nat, b: nat) returns (t': seq<Event>)
    requires After(t) == Some(s) && d !in s.calls && b <= s.created
    requires s.shared.promises == map[] && !s.shared.faulted
    ensures t' == t + [Begin(d, b), Check(d, false), Emplace(d, true), Send(d, true)]
    ensures After(t') == Some(Registered(s, d, b))
    ensures forall id :: SendCount(t', id) == SendCount(t, id) + if id == IdOf(b) then 1 else 0
  {
    Registering(s, d, b);
    QuietStep(t, s, Begin(d, b));
    var t1, s1 := t + [Begin(d, b)], Do(s, Begin(d, b));
    QuietStep(t1, s1, Check(d, false));
    var t2, s2 := t1 + [Check(d, false)], Do(s1, Check(d, false));
    QuietStep(t2, s2, Emplace(d, true));
    var t3, s3 := t2 + [Emplace(d, true)], Do(s2, Emplace(d, true));
    SendStep(t3, s3, d);
    t' := t3 + [Send(d, true)];
  }

  /** The same call after its wait timed out. */
  function TimedOut(s: System, c: nat, a: nat): System {
    System(Shared(map[], s.shared.cells + [None], s.shared.faulted), s.calls[c := Call(a, Done(false))], s.created,
           s.makers + [c])
  }

  lemma TimingOut(s: System, c: nat, a: nat)
    requires c !in s.calls && !s.shared.faulted
    ensures Enabled(Registered(s, c, a), Expire(c))
    ensures var s1 := Do(Registered(s, c, a), Expire(c));
            Enabled(s1, Erase(c)) && Do(s1, Erase(c)) == TimedOut(s, c, a)
  {
    assert map[IdOf(a) := |s.shared.cells|] - {IdOf(a)} == map[];
  }

  /** From such a state: a call for request a is sent and times out. */
  lemma TimedOutCall(t: seq<Event>, s: System, c: nat, a: nat) returns (t': seq<Event>)
    requires After(t) == Some(s) && c !in s.calls && a <= s.created
    requires s.shared.promises == map[] && !s.shared.faulted
    ensures t' == t + [Begin(c, a), Check(c, false), Emplace(c, true), Send(c, true), Expire(c), Erase(c)]
    ensures After(t') == Some(TimedOut(s, c, a))
    ensures forall id :: SendCount(t', id) == SendCount(t, id) + if id == IdOf(a) then 1 else 0
  {
    var t1 := RegisteredCall(t, s, c, a);
    TimingOut(s, c, a);
    QuietStep(t1, Registered(s, c, a), Expire(c));
    QuietStep(t1 + [Expire(c)], Do(Registered(s, c, a), Expire(c)), Erase(c));
    t' := t1 + [Expire(c)] + [Erase(c)];
  }

  // ---------------------------------------------------------------------------------------------------
  // A peer that answers every request it is sent, once
  // ---------------------------------------------------------------------------------------------------

  /** At no time has the peer sent more responses under an id than requests with that id were sent to it. */
  ghost predicate OneResponsePerSend(t: seq<Event>) {
    forall k, id :: 0 <= k <= |t| ==> ResponseCount(t[..k], id) <= SendCount(t[..k], id)
  }

  lemma {:induction false} FirstResponseCounts(t: seq<Event>, c: nat, id: uint32)
    requires FirstResponse(t, c, id).Some?
    ensures ResponseCount(t, id) >= 1
    decreases |t|
  {
    if FirstResponse(t[..|t| - 1], c, id).Some? {
      FirstResponseCounts(t[..|t| - 1], c, id);
    }
  }

  lemma {:induction false} FaultedAtEnd(t: seq<Event>)
    requires After(t).Some? && After(t).value.shared.faulted
    ensures t != [] && After(t[..|t| - 1]).Some? && !After(t[..|t| - 1]).value.shared.faulted && t[|t| - 1].Arrive?
  {
  }

  /** A fault means that two responses came under one id, so a peer of this kind was sent that id twice. */
  lemma FaultNeedsResend(t: seq<Event>) returns (id: uint32)
    requires After(t).Some? && After(t).value.shared.faulted && OneResponsePerSend(t)
    ensures SendCount(t, id) >= 2
  {
    FaultedAtEnd(t);
    var init, e := t[..|t| - 1], t[|t| - 1];
    FaultExactly(init, e.m, e.origin);
    id := Route(e.m).value;
    var c :| Answered(init, After(init).value, c, id);
    FirstResponseCounts(init, c, id);
    assert t[..|t|] == t;
    assert ResponseCount(t[..|t|], id) <= SendCount(t[..|t|], id);
  }

  lemma {:induction false} NoResponses(t: seq<Event>, id: uint32)
    requires forall i :: 0 <= i < |t| ==> !t[i].Arrive?
    ensures ResponseCount(t, id) == 0
    decreases |t|
  {
    if t != [] {
      NoResponses(t[..|t| - 1], id);
    }
  }

  lemma NothingAnswered(t: seq<Event>)
    requires forall i :: 0 <= i < |t| ==> !t[i].Arrive?
    ensures OneResponsePerSend(t)
  {
    forall k, id | 0 <= k <= |t| ensures ResponseCount(t[..k], id) <= SendCount(t[..k], id) {
      NoResponses(t[..k], id);
    }
  }

  lemma OneMoreAnswer(t: seq<Event>, m: Message, origin: nat, id: uint32)
    requires OneResponsePerSend(t) && Route(m) == Some(id) && ResponseCount(t, id) < SendCount(t, id)
    ensures OneResponsePerSend(t + [Arrive(m, origin)])
    ensures ResponseCount(t + [Arrive(m, origin)], id) == ResponseCount(t, id) + 1
    ensures forall i :: SendCount(t + [Arrive(m, origin)], i) == SendCount(t, i)
  {
    var t' := t + [Arrive(m, origin)];
    forall i: uint32
      ensures SendCount(t', i) == SendCount(t, i)
      ensures ResponseCount(t', i) == ResponseCount(t, i) + if i == id then 1 else 0
    {
      CountNext(t, Arrive(m, origin), i);
    }
    forall k, i | 0 <= k <= |t'| ensures ResponseCount(t'[..k], i) <= SendCount(t'[..k], i) {
      if k <= |t| {
        assert t'[..k] == t[..k];
      } else {
        assert t'[..k] == t' && t[..|t|] == t;
        assert ResponseCount(t[..|t|], i) <= SendCount(t[..|t|], i);
      }
    }
  }

  /** Two responses while one call waits. */
  lemma AnsweredTwice(t: seq<Event>, s: System, m: Message, id: uint32) returns (t': seq<Event>)
    requires After(t) == Some(s) && !s.shared.faulted && Route(m) == Some(id)
    requires OneResponsePerSend(t) && ResponseCount(t, id) + 2 <= SendCount(t, id)
    requires id in s.shared.promises && s.shared.promises[id] < |s.shared.cells|
    requires s.shared.cells[s.shared.promises[id]].None?
    ensures After(t').Some? && After(t').value.shared.faulted && OneResponsePerSend(t')
    ensures forall i :: SendCount(t', i) == SendCount(t, i)
  {
    var e := Arrive(m, 1);
    Step(t, s, e);
    OneMoreAnswer(t, m, 1, id);
    Step(t + [e], Do(s, e), e);
    OneMoreAnswer(t + [e], m, 1, id);
    t' := t + [e] + [e];
  }

  /** One request was created, sent and timed out, and is sent again. */
  const RESENT := Registered(TimedOut(INIT.(created := 1), 0, 1), 1, 1)

  lemma ResentRun() returns (t: seq<Event>)
    ensures After(t) == Some(RESENT)
    ensures forall id :: SendCount(t, id) == if id == IdOf(1) then 2 else 0
    ensures forall i :: 0 <= i < |t| ==> !t[i].Arrive?
  {
    var t0 := [] + [Generate];
    QuietStep([], INIT, Generate);
    var t1 := TimedOutCall(t0, INIT.(created := 1), 0, 1);
    t := RegisteredCall(t1, TimedOut(INIT.(created := 1), 0, 1), 1, 1);
  }

  /** Then the peer answers both. */
  lemma ResendFaults() returns (t: seq<Event>)
    ensures After(t).Some? && After(t).value.shared.faulted && OneResponsePerSend(t)
    ensures forall id :: SendCount(t, id) <= 2
  {
    var resent := ResentRun();
    NothingAnswered(resent);
    NoResponses(resent, IdOf(1));
    t := AnsweredTwice(resent, RESENT, SuccessAnswer(IdOf(1)), IdOf(1));
  }

  /** A run that faults although the peer answers every send once, with no id sent more than n times. */
  ghost predicate FaultsWithin(t: seq<Event>, n: nat) {
    && After(t).Some? && After(t).value.shared.faulted
    && OneResponsePerSend(t)
    && forall id :: SendCount(t, id) <= n
  }

  /** A peer that answers every request it is sent once can make the receiver fault exactly if it may be sent the same
      id twice. */
  lemma ResendFaultsExactly(n: nat)
    ensures (exists t :: FaultsWithin(t, n)) <==> n >= 2
  {
    if n >= 2 {
      var t := ResendFaults();
      assert FaultsWithin(t, n);
    }
    if t :| FaultsWithin(t, n) {
      var id := FaultNeedsResend(t);
    }
  }

  // ---------------------------------------------------------------------------------------------------
  // Whose answer a call gets
  // ---------------------------------------------------------------------------------------------------

  /** Among the first k events, call c was begun for the request and its send succeeded. */
  predicate SentBefore(t: seq<Event>, k: nat, c: nat, serial: nat) {
    k <= |t| && Begin(c, serial) in t[..k] && Send(c, true) in t[..k]
  }

  ghost predicate Received(t: seq<Event>, k: nat, serial: nat) {
    exists c :: SentBefore(t, k, c, serial)
  }

  /** The peer only answers requests it has received, each under the id that request carries. */
  ghost predicate HonestPeer(t: seq<Event>) {
    forall k :: 0 <= k < |t| && t[k].Arrive? ==>
      Route(t[k].m) == Some(IdOf(t[k].origin)) && Received(t, k, t[k].origin)
  }

  /** Call c, made for request `serial`, was handed an answer the peer gave to request `origin`. */
  ghost predicate Delivers(t: seq<Event>, c: nat, serial: nat, origin: nat) {
    && After(t).Some? && c in After(t).value.calls
    && After(t).value.calls[c].serial == serial
    && FirstResponse(t, c, IdOf(serial)).Some?
    && t[FirstResponse(t, c, IdOf(serial)).value].origin == origin
  }

  lemma {:induction false} BegunWasCreated(t: seq<Event>, c: nat, serial: nat)
    requires After(t).Some? && Begin(c, serial) in t
    ensures serial <= After(t).value.created
  {
    var init, e := t[..|t| - 1], t[|t| - 1];
    assert t == init + [e];
    if e != Begin(c, serial) {
      BegunWasCreated(init, c, serial);
    }
  }

  /** Answers, early or late, go to calls for requests whose serial agrees modulo 2^32. So as long as
      fewer than 2^32 ids were generated, a late answer to a request that timed out never reaches a
      call made for another request. */
  lemma AnswersStayWithTheirRequest(t: seq<Event>, c: nat, serial: nat, origin: nat)
    requires HonestPeer(t) && Delivers(t, c, serial, origin)
    ensures serial % WRAP == origin % WRAP
    ensures After(t).value.created < WRAP ==> origin == serial
  {
    OwnSerialWasCreated(t, c);
    AnswerCarriesId(t, c, serial, origin);
    SameId(serial, origin, After(t).value.created);
  }

  lemma AnswerCarriesId(t: seq<Event>, c: nat, serial: nat, origin: nat)
    requires HonestPeer(t) && Delivers(t, c, serial, origin)
    ensures IdOf(serial) == IdOf(origin) && origin <= After(t).value.created
  {
    AnsweredWasCreated(t, FirstResponse(t, c, IdOf(serial)).value);
  }

  lemma SameId(a: nat, b: nat, n: nat)
    requires IdOf(a) == IdOf(b) && a <= n && b <= n
    ensures a % WRAP == b % WRAP && (n < WRAP ==> a == b)
  {
  }

  lemma OwnSerialWasCreated(t: seq<Event>, c: nat)
    requires After(t).Some? && c in After(t).value.calls
    ensures After(t).value.calls[c].serial <= After(t).value.created
  {
    InvAlways(t);
    assert CallOk(After(t).value, c);
  }

  lemma AnsweredWasCreated(t: seq<Event>, k: nat)
    requires After(t).Some? && HonestPeer(t) && k < |t| && t[k].Arrive?
    ensures t[k].origin <= After(t).value.created
  {
    var sender :| SentBefore(t, k, sender, t[k].origin);
    assert Begin(sender, t[k].origin) in t;
    BegunWasCreated(t, sender, t[k].origin);
  }

  /** Call c was sent, and then timed out, before position k. */
  ghost predicate TimedOutBefore(t: seq<Event>, c: nat, k: nat) {
    exists i, j :: 0 <= i < j < k <= |t| && t[i] == Send(c, true) && t[j] == Expire(c)
  }

  /** Late delivery: the call made for request `origin` was sent and timed out, and the answer to it that arrived
      afterwards is what the future of another call, made for request `serial`, holds. */
  ghost predicate LateDelivery(t: seq<Event>, c: nat, d: nat, serial: nat, origin: nat) {
    && HonestPeer(t)
    && Delivers(t, d, serial, origin)
    && c in After(t).value.calls && After(t).value.calls[c].serial == origin
    && c != d && After(t).value.calls[c].phase == Done(false)
    && TimedOutBefore(t, c, FirstResponse(t, d, IdOf(serial)).value)
  }

  function Generations(n: nat): seq<Event> {
    seq(n, _ => Generate)
  }

  lemma {:induction false} GenerationsRun(n: nat)
    ensures After(Generations(n)) == Some(INIT.(created := n))
  {
    if n != 0 {
      GenerationsRun(n - 1);
      assert Generations(n)[..n - 1] == Generations(n - 1);
    }
  }

  /** From such a state: a call for request b is waiting when the answer to request a arrives. */
  lemma AnsweredCall(t: seq<Event>, s: System, d: nat, b: nat, a: nat) returns (t': seq<Event>, s': System)
    requires After(t) == Some(s) && d !in s.calls && b <= s.created && IdOf(a) == IdOf(b)
    requires s.shared.promises == map[] && !s.shared.faulted
    ensures t' == t + [Begin(d, b), Check(d, false), Emplace(d, true), Send(d, true),
                       Arrive(SuccessAnswer(IdOf(a)), a)]
    ensures After(t') == Some(s')
    ensures s'.calls == s.calls[d := Call(b, Waiting(|s.shared.cells|))]
    ensures CellValue(s', |s.shared.cells|) == Some(SuccessAnswer(IdOf(a)))
  {
    var m := SuccessAnswer(IdOf(a));
    var t1 := RegisteredCall(t, s, d, b);
    assert Route(m) == Some(IdOf(b));
    Step(t1, Registered(s, d, b), Arrive(m, a));
    t', s' := t1 + [Arrive(m, a)], Do(Registered(s, d, b), Arrive(m, a));
  }

  lemma CollidingIdsMisdeliver(a: nat, b: nat) returns (t: seq<Event>)
    requires a % WRAP == b % WRAP
    ensures LateDelivery(t, 0, 1, b, a)
  {
    var n := if a < b then b else a;
    GenerationsRun(n);
    var s1 := TimedOut(INIT.(created := n), 0, a);
    var t1 := TimedOutCall(Generations(n), INIT.(created := n), 0, a);
    var t2, s2 := AnsweredCall(t1, s1, 1, b, a);
    t := t2;
    OneArrival(Generations(n), a, b);
    DeliveredLate(t, s2, n, a, b, |s1.shared.cells|);
  }

  /** The run's last event is its only message, call 0 has timed out by then, and call 1 is handed the message. */
  lemma DeliveredLate(t: seq<Event>, s: System, n: nat, a: nat, b: nat, cell: nat)
    requires After(t) == Some(s) && HonestPeer(t) && IdOf(a) == IdOf(b)
    requires |t| == n + 11 && t[n + 10] == Arrive(SuccessAnswer(IdOf(a)), a)
    requires t[n + 3] == Send(0, true) && t[n + 4] == Expire(0)
    requires forall i :: 0 <= i < |t| && i != n + 10 ==> !t[i].Arrive?
    requires 0 in s.calls && s.calls[0] == Call(a, Done(false))
    requires 1 in s.calls && s.calls[1] == Call(b, Waiting(cell))
    requires CellValue(s, cell) == Some(SuccessAnswer(IdOf(a)))
    ensures LateDelivery(t, 0, 1, b, a)
  {
    TracedAlways(t, 1);
    OnlyArrival(t, n + 10, 1, IdOf(b));
  }

  /** The only message of that run is its last event, and comes when request a was sent and had timed out. */
  lemma OneArrival(start: seq<Event>, a: nat, b: nat)
    requires forall i :: 0 <= i < |start| ==> start[i] == Generate
    ensures var last := Arrive(SuccessAnswer(IdOf(a)), a);
            var first := [Begin(0, a), Check(0, false), Emplace(0, true), Send(0, true), Expire(0), Erase(0)];
            var t := start + first + [Begin(1, b), Check(1, false), Emplace(1, true), Send(1, true), last];
            && |t| == |start| + 11 && t[|start| + 10] == last
            && t[|start| + 3] == Send(0, true) && t[|start| + 4] == Expire(0)
            && HonestPeer(t)
            && forall i :: 0 <= i < |t| && i != |start| + 10 ==> !t[i].Arrive?
  {
    var last := Arrive(SuccessAnswer(IdOf(a)), a);
    var first := [Begin(0, a), Check(0, false), Emplace(0, true), Send(0, true), Expire(0), Erase(0)];
    var t := start + first + [Begin(1, b), Check(1, false), Emplace(1, true), Send(1, true), last];
    var k := |start| + 10;
    assert t[..k][|start|] == Begin(0, a) && t[..k][|start| + 3] == Send(0, true);
    assert SentBefore(t, k, 0, a);
  }

  lemma OnlyArrival(t: seq<Event>, n: nat, c: nat, id: uint32)
    requires n < |t| && forall i :: 0 <= i < |t| && i != n ==> !t[i].Arrive?
    ensures FirstResponse(t, c, id) in {None, Some(n)}
  {
  }

  /** The exact condition on two requests for one to be handed the other's late answer, over all runs with
      a peer that answers under the right id: their serials agree modulo 2^32. */
  lemma LateAnswerMisdeliveredIff(a: nat, b: nat)
    ensures (exists t, c, d :: LateDelivery(t, c, d, b, a)) <==> a % WRAP == b % WRAP
  {
    if a % WRAP == b % WRAP {
      var t := CollidingIdsMisdeliver(a, b);
      assert LateDelivery(t, 0, 1, b, a);
    }
    if t, c, d :| LateDelivery(t, c, d, b, a) {
      AnswersStayWithTheirRequest(t, d, b, a);
    }
  }
}
