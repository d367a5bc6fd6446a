/** The objects of the locked API, updated in place: one recursive mutex object per class, the thread-local flags, and
    the guards, which are scopes of their thread. Each method of Process is one step of LockedApi, taken by thread t. */
module LockedApiObjects {
  import opened LockedApi
  import opened LockedApiGuards
  import Options

  /** std::recursive_mutex */
  class RecursiveMutex {
    var owner: Options.Option<nat>
    var depth: nat

    constructor ()
      ensures Value() == Mutex(Options.None, 0)
    {
      owner, depth := Options.None, 0;
    }

    function Value(): Mutex
      reads this
    {
      Mutex(owner, depth)
    }

    method Lock(t: nat)
      requires owner == Options.None || owner == Options.Some(t)
      modifies this
      ensures Value() == old(Value()).Lock(t)
      ensures owner == Options.Some(t) && depth == old(depth) + 1
    {
      owner, depth := Options.Some(t), depth + 1;
    }

    /** Unlocking a mutex that another thread owns, or none, is undefined. */
    method Unlock(t: nat) returns (defined: bool)
      modifies this
      ensures defined <==> old(owner) == Options.Some(t)
      ensures Value() == if defined then old(Value()).Unlock() else old(Value())
      ensures defined ==>
                if old(depth) > 1 then owner == Options.Some(t) && depth == old(depth) - 1
                else owner == Options.None && depth == 0
    {
      if owner != Options.Some(t) {
        return false;
      }
      if depth <= 1 {
        owner, depth := Options.None, 0;
      } else {
        depth := depth - 1;
      }
      return true;
    }
  }

  class Process {
    var isThreadUsingLockedApi: map<nat, bool>
    /** The mutexes of the classes that have used theirs so far. */
    var mtx: map<nat, RecursiveMutex>
    var scopes: map<nat, Stack>
    var undefined: bool
    ghost var lost: map<(nat, nat), nat>

    constructor ()
      ensures Valid() && fresh(mtx.Values) && View() == INIT
    {
      isThreadUsingLockedApi, mtx, scopes, undefined := map[], map[], map[], false;
      lost := map[];
      new;
      assert Mutexes() == map[];
    }

    /** No two classes share a mutex. */
    ghost predicate Valid()
      reads this`mtx
    {
      forall c, d :: c in mtx && d in mtx && c != d ==> mtx[c] != mtx[d]
    }

    ghost function Mutexes(): map<nat, Mutex>
      reads this`mtx, mtx.Values
    {
      map c | c in mtx :: mtx[c].Value()
    }

    ghost function View(): State
      reads this, mtx.Values
    {
      State(Mutexes(), isThreadUsingLockedApi, scopes, lost, undefined)
    }

    function Flag(t: nat): (b: bool)
      reads this, mtx.Values
      ensures b == View().Flag(t)
    {
      t in isThreadUsingLockedApi && isThreadUsingLockedApi[t]
    }

    function Scopes(t: nat): (stack: Stack)
      reads this, mtx.Values
      ensures stack == View().Scopes(t)
    {
      if t in scopes then scopes[t] else []
    }

    function MutexOf(c: nat): (m: Mutex)
      reads this, mtx.Values
      ensures m == View().Mtx(c)
    {
      if c in mtx then mtx[c].Value() else Mutex(Options.None, 0)
    }

    /** The thread runs code of its innermost scope, if it has one. */
    predicate Runs(t: nat)
      reads this, mtx.Values
    {
      Scopes(t) == [] || !Scopes(t)[0].Frame? || Scopes(t)[0].stage == Running
    }

    /** The innermost scope is a locked frame at this stage. */
    predicate InFrame(t: nat, stage: Stage)
      reads this, mtx.Values
    {
      Scopes(t) != [] && Scopes(t)[0].Frame? && Scopes(t)[0].stage == stage
    }

    /** A std::recursive_mutex lets the thread in: nobody holds it, or this thread does. */
    predicate LetsIn(c: nat, t: nat)
      reads this, mtx.Values
    {
      MutexOf(c).owner == Options.None || MutexOf(c).owner == Options.Some(t)
    }

    method Lock(t: nat, c: nat)
      requires Valid() && LetsIn(c, t)
      modifies this`mtx, mtx.Values
      ensures Valid() && fresh(mtx.Values - old(mtx.Values))
      ensures View() == old(View()).Lock(t, c)
    {
      if c !in mtx {
        var m := new RecursiveMutex();
        mtx := mtx[c := m];
      }
      mtx[c].Lock(t);
      assert Mutexes() == old(View()).Lock(t, c).mutexes;
    }

    method Unlock(t: nat, c: nat)
      requires Valid()
      modifies this`undefined, mtx.Values
      ensures Valid()
      ensures View() == old(View()).Unlock(t, c)
    {
      if c !in mtx {
        undefined := true;
      } else {
        var defined := mtx[c].Unlock(t);
        if !defined {
          undefined := true;
        }
      }
      assert Mutexes() == old(View()).Unlock(t, c).mutexes;
    }

    method SetScopes(t: nat, stack: Stack)
      modifies this`scopes
      ensures View() == old(View()).SetScopes(t, stack)
    {
      scopes := scopes[t := stack];
    }

    /** The wrapper's and the IARM handler's first statement. */
    method Enter(t: nat, c: nat, kind: Kind)
      requires Valid() && !undefined && Runs(t)
      modifies this, mtx.Values
      ensures Valid() && fresh(mtx.Values - old(mtx.Values))
      ensures View() == Do(old(View()), Event.Enter(t, c, kind))
    {
      var stack := Scopes(t);
      isThreadUsingLockedApi := isThreadUsingLockedApi[t := true];
      SetScopes(t, [Frame(c, kind, Entering)] + MarkEntered(stack));
    }

    /** Their lock_guard. */
    method Acquire(t: nat)
      requires Valid() && !undefined && InFrame(t, Entering) && LetsIn(Scopes(t)[0].cls, t)
      modifies this, mtx.Values
      ensures Valid() && fresh(mtx.Values - old(mtx.Values))
      ensures View() == Do(old(View()), Event.Acquire(t))
    {
      var stack := Scopes(t);
      Lock(t, stack[0].cls);
      SetScopes(t, [stack[0].(stage := Running)] + stack[1..]);
    }

    /** Their last statement, and the handler of an exception thrown by the method. */
    method Leave(t: nat)
      requires Valid() && !undefined && InFrame(t, Running)
      modifies this, mtx.Values
      ensures Valid() && fresh(mtx.Values - old(mtx.Values))
      ensures View() == Do(old(View()), Event.Leave(t))
    {
      var stack := Scopes(t);
      isThreadUsingLockedApi := isThreadUsingLockedApi[t := false];
      SetScopes(t, [stack[0].(stage := Leaving)] + stack[1..]);
    }

    method Release(t: nat)
      requires Valid() && !undefined && InFrame(t, Leaving)
      modifies this, mtx.Values
      ensures Valid() && fresh(mtx.Values - old(mtx.Values))
      ensures View() == Do(old(View()), Event.Release(t))
    {
      var stack := Scopes(t);
      Unlock(t, stack[0].cls);
      SetScopes(t, stack[1..]);
    }

    /** UnlockApiGuard() */
    method OpenGuard(t: nat, c: nat)
      requires Valid() && !undefined && Runs(t)
      modifies this, mtx.Values
      ensures Valid() && fresh(mtx.Values - old(mtx.Values))
      ensures View() == Do(old(View()), Event.OpenGuard(t, c))
    {
      var stack, flag := Scopes(t), Flag(t);
      if flag {
        Unlock(t, c);
      }
      SetScopes(t, [Guard(c, flag, false)] + stack);
    }

    /** ~UnlockApiGuard() */
    method CloseGuard(t: nat)
      requires Valid() && !undefined && Scopes(t) != [] && Scopes(t)[0].Guard?
      requires Flag(t) ==> LetsIn(Scopes(t)[0].cls, t)
      modifies this, mtx.Values
      ensures Valid() && fresh(mtx.Values - old(mtx.Values))
      ensures View() == Do(old(View()), Event.CloseGuard(t))
    {
      var stack := Scopes(t);
      if Flag(t) {
        Lock(t, stack[0].cls);
      } else if stack[0].unlocked {
        lost := View().AddLost(t, stack[0].cls).lost;
      }
      SetScopes(t, stack[1..]);
    }

    /** LockApiGuard() */
    method OpenLock(t: nat, c: nat)
      requires Valid() && !undefined && Runs(t) && LetsIn(c, t)
      modifies this, mtx.Values
      ensures Valid() && fresh(mtx.Values - old(mtx.Values))
      ensures View() == Do(old(View()), Event.OpenLock(t, c))
    {
      var stack := Scopes(t);
      Lock(t, c);
      SetScopes(t, [Held(c, true)] + stack);
    }

    /** LockApiGuard::unlock and LockApiGuard::lock on the i-th innermost scope. */
    method UnlockHeld(t: nat, i: nat)
      requires Valid() && !undefined && Runs(t)
      requires i < |Scopes(t)| && Scopes(t)[i].Held? && Scopes(t)[i].locked
      modifies this, mtx.Values
      ensures Valid() && fresh(mtx.Values - old(mtx.Values))
      ensures View() == Do(old(View()), Event.UnlockHeld(t, i))
    {
      var stack := Scopes(t);
      Unlock(t, stack[i].cls);
      SetScopes(t, stack[i := stack[i].(locked := false)]);
    }

    method LockHeld(t: nat, i: nat)
      requires Valid() && !undefined && Runs(t)
      requires i < |Scopes(t)| && Scopes(t)[i].Held? && !Scopes(t)[i].locked && LetsIn(Scopes(t)[i].cls, t)
      modifies this, mtx.Values
      ensures Valid() && fresh(mtx.Values - old(mtx.Values))
      ensures View() == Do(old(View()), Event.LockHeld(t, i))
    {
      var stack := Scopes(t);
      Lock(t, stack[i].cls);
      SetScopes(t, stack[i := stack[i].(locked := true)]);
    }

    /** ~LockApiGuard() */
    method CloseLock(t: nat)
      requires Valid() && !undefined && Scopes(t) != [] && Scopes(t)[0].Held?
      modifies this, mtx.Values
      ensures Valid() && fresh(mtx.Values - old(mtx.Values))
      ensures View() == Do(old(View()), Event.CloseLock(t))
    {
      var stack := Scopes(t);
      if stack[0].locked {
        Unlock(t, stack[0].cls);
      }
      SetScopes(t, stack[1..]);
    }
  }

  lemma Prefixes(trace: seq<Event>, i: nat)
    requires i < |trace|
    ensures trace[..i + 1][..i] == trace[..i] && trace[..i + 1][i] == trace[i]
    ensures i + 1 < |trace| ==>
              trace[..|trace| - 1][..i] == trace[..i] && trace[..|trace| - 1][..i + 1] == trace[..i + 1]
    ensures i + 1 == |trace| ==> trace[..i + 1] == trace
  {
  }

  lemma {:induction false} AfterSome(trace: seq<Event>, i: nat)
    requires i <= |trace| && After(trace).Some?
    ensures After(trace[..i]).Some?
    decreases |trace|
  {
    if i < |trace| {
      Prefixes(trace, i);
      AfterSome(trace[..|trace| - 1], i);
    } else {
      assert trace[..i] == trace;
    }
  }

  lemma AfterPrefix(trace: seq<Event>, i: nat)
    requires i < |trace| && After(trace).Some?
    ensures After(trace[..i]).Some? && After(trace[..i + 1]).Some? && Enabled(After(trace[..i]).value, trace[i])
    ensures After(trace[..i + 1]).value == Do(After(trace[..i]).value, trace[i])
  {
    AfterSome(trace, i);
    AfterSome(trace, i + 1);
    Prefixes(trace, i);
    AfterIs(trace[..i + 1], trace[..i], trace[i]);
  }

  lemma AfterIs(trace: seq<Event>, init: seq<Event>, e: Event)
    requires trace != [] && trace[..|trace| - 1] == init && trace[|trace| - 1] == e && After(trace).Some?
    ensures After(init).Some? && Enabled(After(init).value, e) && After(trace).value == Do(After(init).value, e)
  {
  }

  method Take(process: Process, e: Event)
    requires process.Valid() && Enabled(process.View(), e)
    modifies process, process.mtx.Values
    ensures process.Valid() && fresh(process.mtx.Values - old(process.mtx.Values))
    ensures process.View() == Do(old(process.View()), e)
  {
    match e {
      case Enter(t, c, kind) => process.Enter(t, c, kind);
      case Acquire(t) => process.Acquire(t);
      case Leave(t) => process.Leave(t);
      case Release(t) => process.Release(t);
      case OpenGuard(t, c) => process.OpenGuard(t, c);
      case CloseGuard(t) => process.CloseGuard(t);
      case OpenLock(t, c) => process.OpenLock(t, c);
      case UnlockHeld(t, i) => process.UnlockHeld(t, i);
      case LockHeld(t, i) => process.LockHeld(t, i);
      case CloseLock(t) => process.CloseLock(t);
    }
  }

  /** Any interleaving, run on the objects: where it is safe, no unlock was undefined, and each thread holds each mutex
      as often as its scopes say; and if every thread has come out of its scopes, no run but a safe one gets there
      without an undefined unlock. */
  method RunAll(trace: seq<Event>) returns (process: Process)
    requires After(trace).Some?
    ensures fresh(process) && process.View() == After(trace).value
    ensures Finished(process.View()) && !process.undefined ==> SafeRun(trace)
    ensures SafeRun(trace) && BackedRun(trace) ==>
              && !process.undefined
              && forall t: nat, c: nat :: process.MutexOf(c).DepthOf(t) ==
                   Frames(process.Scopes(t), c) + HeldLocks(process.Scopes(t), c) - OpenGuards(process.Scopes(t), c)
  {
    process := new Process();
    var i := 0;
    while i < |trace|
      invariant 0 <= i <= |trace| && fresh(process) && fresh(process.mtx.Values) && process.Valid()
      invariant After(trace[..i]) == Options.Some(process.View())
    {
      AfterPrefix(trace, i);
      Take(process, trace[i]);
      i := i + 1;
    }
    assert trace[..i] == trace;
    if Finished(process.View()) {
      SafeExactly(trace);
    }
    if SafeRun(trace) && BackedRun(trace) {
      SafeBalance(trace, 0, 0);
      forall t: nat, c: nat
        ensures process.MutexOf(c).DepthOf(t) ==
          Frames(process.Scopes(t), c) + HeldLocks(process.Scopes(t), c) - OpenGuards(process.Scopes(t), c)
      {
        SafeBalance(trace, t, c);
      }
    }
  }
}
