/** The objects behind the protocol: the interface object with its promise map, each of whose lock-protected
    methods is one step of JsonRpcProtocol, and the id counter of Request. */
module JsonRpcInterface {
  import opened Options
  import opened JsonRpcMessages
  import opened JsonRpcProtocol

  /** Message i is the first of these messages that responds to id. */
  ghost predicate FirstAt(messages: seq<Message>, i: nat, id: uint32) {
    && i < |messages| && RespondsTo(messages[i], id)
    && forall k :: 0 <= k < i ==> !RespondsTo(messages[k], id)
  }

  /** While a call waits for id, message i is a further response for another pending request. */
  ghost predicate Repeats(pending: map<uint32, nat>, promises: seq<Option<Message>>, messages: seq<Message>,
                          i: nat, other: uint32)
    requires i < |messages|
  {
    && other in pending && pending[other] < |promises| && RespondsTo(messages[i], other)
    && (promises[pending[other]].Some? || exists k :: 0 <= k < i && RespondsTo(messages[k], other))
  }

  /** While a call waits for id, one of these messages is a further response for another pending request. */
  ghost predicate FaultsAt(pending: map<uint32, nat>, promises: seq<Option<Message>>, messages: seq<Message>,
                           i: nat, id: uint32)
  {
    && i < |messages| && (exists other :: other != id && Repeats(pending, promises, messages, i, other))
    && forall k :: 0 <= k < i ==> !RespondsTo(messages[k], id)
  }

  /** The messages a waiting call sees arrive: none after its promise is set, nor after a fault. */
  function ReceiveUntil(s: Shared, messages: seq<Message>, cell: nat): Shared
    decreases |messages|
  {
    if messages == [] || s.faulted || cell >= |s.cells| || s.cells[cell].Some? then s
    else ReceiveUntil(s.Receive(messages[0]), messages[1..], cell)
  }

  lemma FaultsAtCreate(pending: map<uint32, nat>, promises: seq<Option<Message>>, messages: seq<Message>, i: nat,
                       id: uint32)
    requires forall other :: other in pending ==> pending[other] < |promises|
    ensures FaultsAt(pending[id := |promises|], promises + [None], messages, i, id) <==>
            FaultsAt(pending, promises, messages, i, id)
  {
    if i < |messages| {
      var created, added := pending[id := |promises|], promises + [None];
      if other: uint32 :| other != id && Repeats(pending, promises, messages, i, other) {
        assert Repeats(created, added, messages, i, other);
      }
      if other: uint32 :| other != id && Repeats(created, added, messages, i, other) {
        assert Repeats(pending, promises, messages, i, other);
      }
    }
  }

  predicate Separate(pending: map<uint32, nat>, promises: seq<Option<Message>>) {
    && (forall id :: id in pending ==> pending[id] < |promises|)
    && (forall i, j :: i in pending && j in pending && i != j ==> pending[i] != pending[j])
  }

  /** What the first i messages made of the promises, while a call waited for id. */
  ghost predicate Waited(pending: map<uint32, nat>, before: seq<Option<Message>>, now: seq<Option<Message>>,
                         messages: seq<Message>, i: nat, id: uint32)
    requires id in pending && i <= |messages| && |before| == |now| && Separate(pending, now)
  {
    && (match now[pending[id]]
        case None => forall k :: 0 <= k < i ==> !RespondsTo(messages[k], id)
        case Some(m) => i > 0 && FirstAt(messages, i - 1, id) && m == messages[i - 1])
    && (forall other :: other in pending && other != id ==>
          (now[pending[other]].Some? <==>
           before[pending[other]].Some? || exists k :: 0 <= k < i && RespondsTo(messages[k], other)))
    && (forall k: nat :: k < i ==> !FaultsAt(pending, before, messages, k, id))
  }

  /** A message that responds to nothing pending, or to one request, whose promise it sets if it has no value. */
  lemma WaitedOther(pending: map<uint32, nat>, before: seq<Option<Message>>, now: seq<Option<Message>>,
                    messages: seq<Message>, i: nat, id: uint32, other: uint32)
    requires id in pending && i < |messages| && |before| == |now| && Separate(pending, now)
    requires Waited(pending, before, now, messages, i, id) && now[pending[id]].None?
    requires other in pending && other != id
    ensures Repeats(pending, before, messages, i, other) <==>
            RespondsTo(messages[i], other) && now[pending[other]].Some?
    ensures var s := Shared(pending, now, false).Receive(messages[i]);
            !s.faulted ==>
              (s.cells[pending[other]].Some? <==>
               before[pending[other]].Some? || exists k :: 0 <= k < i + 1 && RespondsTo(messages[k], other))
  {
    ReceiveIs(Shared(pending, now, false), messages[i]);
  }

  lemma WaitedNext(pending: map<uint32, nat>, before: seq<Option<Message>>, now: seq<Option<Message>>,
                   messages: seq<Message>, i: nat, id: uint32)
    requires id in pending && i < |messages| && |before| == |now| && Separate(pending, now)
    requires Waited(pending, before, now, messages, i, id) && now[pending[id]].None?
    ensures var s := Shared(pending, now, false).Receive(messages[i]);
            && |s.cells| == |now| && (s.faulted <==> FaultsAt(pending, before, messages, i, id))
            && (!s.faulted ==> Waited(pending, before, s.cells, messages, i + 1, id))
  {
    forall other | other in pending && other != id
      ensures Repeats(pending, before, messages, i, other) <==>
              RespondsTo(messages[i], other) && now[pending[other]].Some?
      ensures var s := Shared(pending, now, false).Receive(messages[i]);
              !s.faulted ==>
                (s.cells[pending[other]].Some? <==>
                 before[pending[other]].Some? || exists k :: 0 <= k < i + 1 && RespondsTo(messages[k], other))
    {
      WaitedOther(pending, before, now, messages, i, id, other);
    }
    ReceiveIs(Shared(pending, now, false), messages[i]);
    var s := Shared(pending, now, false).Receive(messages[i]);
    if s.faulted {
      assert Repeats(pending, before, messages, i, messages[i].id.value.n % WRAP);
    }
  }

  class Interface {
    var responseToPromise: map<uint32, nat>
    var promises: seq<Option<Message>>
    var faulted: bool

    constructor ()
      ensures View() == INIT.shared
    {
      responseToPromise, promises, faulted := map[], [], false;
    }

    /** The part of the protocol state this object holds. */
    function View(): Shared
      reads this
    {
      Shared(responseToPromise, promises, faulted)
    }

    ghost predicate Valid()
      reads this
    {
      Separate(responseToPromise, promises)
    }

    method IsRequestProcessingOngoing(id: uint32) returns (ongoing: bool)
      ensures ongoing <==> id in responseToPromise
    {
      ongoing := id in responseToPromise;
    }

    method CreateFutureResponse(id: uint32) returns (future: Option<nat>)
      requires Valid()
      modifies this
      ensures Valid() && View() == old(View()).Create(id)
      ensures future.Some? <==> id !in old(responseToPromise)
      ensures future.Some? ==>
                && future.value == |old(promises)|
                && promises == old(promises) + [None]
                && responseToPromise == old(responseToPromise)[id := future.value]
      ensures future.None? ==> promises == old(promises) && responseToPromise == old(responseToPromise)
      ensures faulted == old(faulted)
    {
      if id in responseToPromise {
        return None;
      }
      future := Some(|promises|);
      responseToPromise := responseToPromise[id := |promises|];
      promises := promises + [None];
    }

    method RemovePromise(id: uint32)
      requires Valid()
      modifies this
      ensures Valid() && View() == old(View()).Remove(id)
      ensures forall i :: i in responseToPromise <==> i in old(responseToPromise) && i != id
      ensures forall i :: i in responseToPromise ==> responseToPromise[i] == old(responseToPromise)[i]
      ensures promises == old(promises) && faulted == old(faulted)
    {
      responseToPromise := responseToPromise - {id};
    }

    method HandleResponse(id: uint32, message: Message)
      requires Valid()
      modifies this`promises, this`faulted
      ensures Valid() && View() == old(View()).Handle(id, message)
      ensures id !in responseToPromise ==> promises == old(promises) && faulted == old(faulted)
      ensures id in responseToPromise ==>
                var promise := responseToPromise[id];
                if old(promises)[promise].Some? then faulted && promises == old(promises)
                else faulted == old(faulted) && promises == old(promises)[promise := Some(message)]
    {
      if id !in responseToPromise {
        return;
      }
      var promise := responseToPromise[id];
      if promises[promise].Some? {
        faulted := true;
        return;
      }
      promises := promises[promise := Some(message)];
    }

    /** Only a message with a number for an id and no "method" sets a promise: the one under the lower 32 bits of
        that number, if there is one. */
    method OnMessage(message: Message)
      requires Valid()
      modifies this`promises, this`faulted
      ensures Valid() && View() == old(View()).Receive(message)
      ensures if message.Json? && !message.hasMethod && message.id.Some? && message.id.value.Number?
                 && message.id.value.n % 0x1_0000_0000 in responseToPromise
              then
                var promise := responseToPromise[message.id.value.n % 0x1_0000_0000];
                if old(promises)[promise].Some? then faulted && promises == old(promises)
                else faulted == old(faulted) && promises == old(promises)[promise := Some(message)]
              else promises == old(promises) && faulted == old(faulted)
    {
      if message.Malformed? {
        return;
      }
      if message.id.Some? {
        if !message.hasMethod {
          if message.id.value.NotNumber? {
            return;
          }
          HandleResponse(message.id.value.n % WRAP, message);
          return;
        }
      }
    }

    /** wait_for: the receiver takes in messages until the future is ready or there are no more. */
    method WaitFor(id: uint32, future: nat, arrivals: seq<Message>)
      requires Valid() && !faulted && id in responseToPromise && responseToPromise[id] == future
      requires promises[future].None?
      modifies this`promises, this`faulted
      ensures Valid() && future < |promises|
      ensures View() == ReceiveUntil(old(View()), arrivals, future)
      ensures faulted <==> exists i: nat :: FaultsAt(responseToPromise, old(promises), arrivals, i, id)
      ensures !faulted ==>
                match promises[future]
                case None => forall i :: 0 <= i < |arrivals| ==> !RespondsTo(arrivals[i], id)
                case Some(m) => exists i: nat :: FirstAt(arrivals, i, id) && m == arrivals[i]
    {
      var i := 0;
      assert arrivals[0..] == arrivals;
      while i < |arrivals| && !faulted && promises[future].None?
        invariant 0 <= i <= |arrivals| && Valid() && future < |promises|
        invariant ReceiveUntil(View(), arrivals[i..], future) == ReceiveUntil(old(View()), arrivals, future)
        invariant |promises| == |old(promises)|
        invariant if faulted then i > 0 && FaultsAt(responseToPromise, old(promises), arrivals, i - 1, id)
                  else Waited(responseToPromise, old(promises), promises, arrivals, i, id)
      {
        assert arrivals[i..][1..] == arrivals[i + 1..];
        WaitedNext(responseToPromise, old(promises), promises, arrivals, i, id);
        OnMessage(arrivals[i]);
        i := i + 1;
      }
      assert arrivals[|arrivals|..] == [];
    }

    /** sendRequest on one thread: `arrivals` are the messages the receiver takes in, in order, before the
        wait runs out. The map is given back as it was found, and true means exactly that the request was
        not already pending, was sent, and the first of the messages that responds to it is its success. */
    method SendRequest(id: uint32, sendOk: bool, arrivals: seq<Message>) returns (result: bool)
      requires Valid() && !faulted
      modifies this
      ensures Valid()
      ensures View() == if id in old(responseToPromise) then old(View())
                        else if !sendOk then old(View()).Create(id).Remove(id)
                        else
                          var s := ReceiveUntil(old(View()).Create(id), arrivals, |old(promises)|);
                          if s.faulted then s else s.Remove(id)
      ensures responseToPromise == old(responseToPromise) || faulted
      ensures !faulted ==>
                (result <==>
                 && id !in old(responseToPromise) && sendOk
                 && exists i: nat :: FirstAt(arrivals, i, id) && IsSuccessFor(id, arrivals[i]))
      ensures faulted <==>
              && id !in old(responseToPromise) && sendOk
              && exists i: nat :: FaultsAt(old(responseToPromise), old(promises), arrivals, i, id)
    {
      var ongoing := IsRequestProcessingOngoing(id);
      if ongoing {
        return false;
      }
      var future := CreateFutureResponse(id);
      if future.None? {
        return false;
      }
      if !sendOk {
        RemovePromise(id);
        assert responseToPromise == old(responseToPromise);
        return false;
      }
      forall i: nat ensures FaultsAt(responseToPromise, promises, arrivals, i, id) <==>
                            FaultsAt(old(responseToPromise), old(promises), arrivals, i, id)
      {
        FaultsAtCreate(old(responseToPromise), old(promises), arrivals, i, id);
      }
      WaitFor(id, future.value, arrivals);
      if faulted {
        return false;
      }
      RemovePromise(id);
      assert responseToPromise == old(responseToPromise);
      if promises[future.value].Some? {
        ProcessResponseMeaning(id, promises[future.value].value);
        return ProcessResponse(id, promises[future.value].value);
      }
      return false;
    }
  }

  /** Request::idSequence and generateId; `generated` counts the calls. */
  class IdSequence {
    var idSequence: uint32
    ghost var generated: nat

    ghost predicate Valid()
      reads this
    {
      idSequence == IdOf(generated)
    }

    constructor ()
      ensures Valid() && generated == 0
    {
      idSequence, generated := 0, 0;
    }

    /** The n-th generated id is the id the protocol gives the n-th request. */
    method GenerateId() returns (id: uint32)
      requires Valid()
      modifies this
      ensures Valid() && generated == old(generated) + 1
      ensures id == generated % 0x1_0000_0000
    {
      idSequence := (idSequence + 1) % WRAP;
      generated := generated + 1;
      id := idSequence;
    }
  }
}
