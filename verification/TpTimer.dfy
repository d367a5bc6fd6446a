/** TpTimer (helpers/tptimer.h): a timer whose callback may start, stop or reconfigure the timer it runs on. */
module TpTimer {
  import opened Options

  /** What a callback, or anyone else, can do to the timer. */
  datatype Action = Start | StartWith(msec: int) | Stop | SetSingleShot(on: bool) | SetInterval(msec: int)

  /** `pending` is how far ahead the pending job was scheduled, if there is one. */
  datatype Timer = Timer(active: bool, singleShot: bool, interval: int, pending: Option<int>)

  function Act(t: Timer, a: Action): Timer {
    match a
    case Start => t.(active := true, pending := Some(t.interval))
    case StartWith(msec) => t.(active := true, interval := msec, pending := Some(msec))
    case Stop => t.(active := false, pending := None)
    case SetSingleShot(on) => t.(singleShot := on)
    case SetInterval(msec) => t.(interval := msec)
  }

  function ActAll(t: Timer, actions: seq<Action>): Timer
    decreases |actions|
  {
    if actions == [] then t else Act(ActAll(t, actions[..|actions| - 1]), actions[|actions| - 1])
  }

  /** A tick of a running timer whose callback takes these actions, while its job is no longer pending: left active, a
      single-shot timer is then stopped and any other one started again. */
  function Ticked(t: Timer, callback: seq<Action>): Timer {
    var t' := ActAll(t.(pending := None), callback);
    if !t'.active then t' else Act(t', if t'.singleShot then Stop else Start)
  }

  datatype Event = Do(action: Action) | Tick(callback: seq<Action>)

  function Run(t: Timer, events: seq<Event>): Timer
    decreases |events|
  {
    if events == [] then t
    else
      var before := Run(t, events[..|events| - 1]);
      match events[|events| - 1]
      case Do(a) => Act(before, a)
      case Tick(callback) => if before.pending.Some? then Ticked(before, callback) else before
  }

  class TpTimer {
    var isActive: bool
    var isSingleShot: bool
    var intervalInMs: int
    /** The intervals of this timer's jobs in the queue. */
    var queue: seq<int>

    /** Between calls the flag says whether a job is pending, and there is never more than one. */
    ghost predicate Valid()
      reads this
    {
      |queue| == if isActive then 1 else 0
    }

    /** What holds even inside a callback. */
    ghost predicate Pending()
      reads this
    {
      |queue| <= if isActive then 1 else 0
    }

    function View(): Timer
      reads this
    {
      Timer(isActive, isSingleShot, intervalInMs, if queue == [] then None else Some(queue[0]))
    }

    constructor ()
      ensures Valid() && View() == Timer(false, false, -1, None)
    {
      isActive, isSingleShot, intervalInMs, queue := false, false, -1, [];
    }

    /** Takes every job of this timer out of the queue. */
    method Revoke()
      modifies this`queue
      ensures queue == []
    {
      queue := [];
    }

    method Schedule(msec: int)
      modifies this`queue
      ensures queue == old(queue) + [msec]
    {
      queue := queue + [msec];
    }

    /** Also from inside a callback, where the flag may say active although the job that runs has left the queue. */
    method Stop()
      modifies this`queue, this`isActive
      ensures Valid() && View() == Act(old(View()), Action.Stop)
      ensures !isActive && queue == []
    {
      Revoke();
      isActive := false;
    }

    method Start()
      modifies this`queue, this`isActive
      ensures Valid() && View() == Act(old(View()), Action.Start)
      ensures isActive && queue == [intervalInMs]
    {
      Revoke();
      Schedule(intervalInMs);
      isActive := true;
    }

    method StartWith(msec: int)
      modifies this
      ensures Valid() && View() == Act(old(View()), Action.StartWith(msec))
      ensures isActive && intervalInMs == msec && isSingleShot == old(isSingleShot) && queue == [msec]
    {
      SetInterval(msec);
      Start();
    }

    method SetSingleShot(val: bool)
      modifies this`isSingleShot
      ensures isSingleShot == val
    {
      isSingleShot := val;
    }

    method SetInterval(msec: int)
      modifies this`intervalInMs
      ensures intervalInMs == msec
    {
      intervalInMs := msec;
    }

    method Perform(action: Action)
      modifies this
      ensures View() == Act(old(View()), action)
      ensures old(Pending()) ==> Pending()
      ensures old(Valid()) ==> Valid()
    {
      match action
      case Start => Start();
      case StartWith(msec) => StartWith(msec);
      case Stop => Stop();
      case SetSingleShot(on) => SetSingleShot(on);
      case SetInterval(msec) => SetInterval(msec);
    }

    /** The queue hands out the pending job; `callback` is what the connected function does, nothing if none is
        connected. */
    method Timed(callback: seq<Action>)
      requires Valid() && isActive
      modifies this
      ensures Valid() && View() == Ticked(old(View()), callback)
      ensures isActive ==> queue == [intervalInMs]
    {
      queue := queue[1..];
      var i := 0;
      while i < |callback|
        invariant 0 <= i <= |callback|
        invariant View() == ActAll(old(View()).(pending := None), callback[..i])
        invariant Pending()
      {
        assert callback[..i + 1][..i] == callback[..i];
        Perform(callback[i]);
        i := i + 1;
      }
      assert callback[..i] == callback;
      if isActive {
        if isSingleShot {
          Stop();
        } else {
          Start();
        }
      }
    }
  }

  /** The last action of a kind decides: whether the timer was last started or stopped, and which mode was last set. */
  function LastStarted(initial: bool, actions: seq<Action>): bool
    decreases |actions|
  {
    if actions == [] then initial
    else match actions[|actions| - 1]
      case Start => true
      case StartWith(_) => true
      case Stop => false
      case _ => LastStarted(initial, actions[..|actions| - 1])
  }

  function LastMode(initial: bool, actions: seq<Action>): bool
    decreases |actions|
  {
    if actions == [] then initial
    else match actions[|actions| - 1]
      case SetSingleShot(on) => on
      case _ => LastMode(initial, actions[..|actions| - 1])
  }

  function LastInterval(initial: int, actions: seq<Action>): int
    decreases |actions|
  {
    if actions == [] then initial
    else match actions[|actions| - 1]
      case SetInterval(msec) => msec
      case StartWith(msec) => msec
      case _ => LastInterval(initial, actions[..|actions| - 1])
  }

  /** How far ahead the last start scheduled the job, if it was not stopped after that. */
  function LastScheduled(initial: Option<int>, interval: int, actions: seq<Action>): Option<int>
    decreases |actions|
  {
    if actions == [] then initial
    else
      var rest := actions[..|actions| - 1];
      match actions[|actions| - 1]
      case Start => Some(LastInterval(interval, rest))
      case StartWith(msec) => Some(msec)
      case Stop => None
      case _ => LastScheduled(initial, interval, rest)
  }

  lemma {:induction false} ActAllIs(t: Timer, actions: seq<Action>)
    ensures ActAll(t, actions).active == LastStarted(t.active, actions)
    ensures ActAll(t, actions).singleShot == LastMode(t.singleShot, actions)
    ensures ActAll(t, actions).interval == LastInterval(t.interval, actions)
    ensures ActAll(t, actions).pending == LastScheduled(t.pending, t.interval, actions)
    decreases |actions|
  {
    if actions != [] {
      ActAllIs(t, actions[..|actions| - 1]);
    }
  }

  /** After a tick the timer runs exactly if the callback last started it, or left it running, and the mode it
      is left in is not single-shot: starting the timer from its own callback has no effect in single-shot mode. The
      next tick comes after the interval the callback leaves behind, however it scheduled the job itself. */
  lemma TickExactly(t: Timer, callback: seq<Action>)
    requires t.active
    ensures Ticked(t, callback).active <==> LastStarted(true, callback) && !LastMode(t.singleShot, callback)
    ensures Ticked(t, callback).singleShot == LastMode(t.singleShot, callback)
    ensures Ticked(t, callback).interval == LastInterval(t.interval, callback)
    ensures Ticked(t, callback).pending ==
            if Ticked(t, callback).active then Some(LastInterval(t.interval, callback)) else None
  {
    ActAllIs(t.(pending := None), callback);
    ActiveIfPending(t, callback);
  }

  /** What is not active has nothing pending, even inside a callback. */
  lemma {:induction false} ActiveIfPending(t: Timer, actions: seq<Action>)
    ensures var t' := ActAll(t.(pending := None), actions);
            t'.pending.Some? ==> t'.active
    decreases |actions|
  {
    if actions != [] {
      ActiveIfPending(t, actions[..|actions| - 1]);
    }
  }

  /** A running timer is one with a pending job. */
  predicate Consistent(t: Timer) {
    t.active <==> t.pending.Some?
  }

  lemma {:induction false} RunConsistent(t: Timer, events: seq<Event>)
    requires Consistent(t)
    ensures Consistent(Run(t, events))
    decreases |events|
  {
    if events != [] {
      var before := Run(t, events[..|events| - 1]);
      RunConsistent(t, events[..|events| - 1]);
      match events[|events| - 1] {
        case Do(a) =>
        case Tick(callback) =>
          if before.active {
            TickExactly(before, callback);
          }
      }
    }
  }

  function Idle(k: nat): seq<Event> {
    seq(k, _ => Tick([]))
  }

  /** Whatever was done before: a timer started with an interval, and left alone, comes round at that interval for
      ever, or just once if it is single-shot. */
  lemma {:induction false} StartedExactly(t: Timer, before: seq<Event>, msec: int, k: nat)
    ensures var now, t' := Run(t, before), Run(t, before + [Do(StartWith(msec))] + Idle(k));
            && t'.singleShot == now.singleShot && t'.interval == msec
            && (if now.singleShot && k > 0 then !t'.active && t'.pending.None?
                else t'.active && t'.pending == Some(msec))
    decreases k
  {
    var events := before + [Do(StartWith(msec))];
    if k == 0 {
      assert events + Idle(0) == events && events[..|before|] == before;
    } else {
      StartedExactly(t, before, msec, k - 1);
      assert (events + Idle(k))[..|events| + k - 1] == events + Idle(k - 1);
      assert ActAll(Run(t, events + Idle(k - 1)).(pending := None), []) ==
             Run(t, events + Idle(k - 1)).(pending := None);
    }
  }

  /** Any run of calls and ticks on the object; a tick happens only when a job is pending. */
  method RunAll(timer: TpTimer, events: seq<Event>)
    requires timer.Valid()
    modifies timer
    ensures timer.Valid() && timer.View() == Run(old(timer.View()), events)
  {
    var i := 0;
    while i < |events|
      invariant 0 <= i <= |events| && timer.Valid()
      invariant timer.View() == Run(old(timer.View()), events[..i])
    {
      assert events[..i + 1][..i] == events[..i];
      match events[i] {
        case Do(action) => timer.Perform(action);
        case Tick(callback) =>
          if timer.queue != [] {
            timer.Timed(callback);
          }
      }
      i := i + 1;
    }
    assert events[..i] == events;
  }
}
