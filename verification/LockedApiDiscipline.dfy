/** The documented use of UnlockApiGuard as a discipline: it implies that a run is safe. And runs that show what goes
    wrong without. */
module LockedApiDiscipline {
  import opened Options
  import opened LockedApi
  import opened LockedApiGuards

  function InnermostFrame(stack: Stack): Option<nat> {
    if stack == [] then None
    else if stack[0].Frame? then Some(stack[0].cls)
    else InnermostFrame(stack[1..])
  }

  /** A guard that gives up a lock is for the class of the innermost locked frame and is not nested in
      another one, and no locked frame is entered inside it. */
  predicate Follows(s: State, e: Event) {
    match e
    case Enter(t, _, _) => NoOpenGuard(s.Scopes(t))
    case OpenGuard(t, c) => s.Flag(t) ==> NoOpenGuard(s.Scopes(t)) && InnermostFrame(s.Scopes(t)) == Some(c)
    case _ => true
  }

  predicate Disciplined(trace: seq<Event>) {
    trace == [] ||
    var init := trace[..|trace| - 1];
    Disciplined(init) && After(init).Some? && Follows(After(init).value, trace[|trace| - 1])
  }

  /** The stacks disciplined runs build. */
  predicate Shape(stack: Stack) {
    if stack == [] then true
    else
      var outer := stack[1..];
      match stack[0]
      case Frame(_, _, _) => NoOpenGuard(outer)
      case Guard(c, unlocked, entered) =>
        if unlocked then NoOpenGuard(outer) && InnermostFrame(outer) == Some(c) && !entered else Shape(outer)
      case Held(_, _) => Shape(outer)
  }

  lemma {:induction false} NoOpenGuardShape(stack: Stack, c: nat)
    requires NoOpenGuard(stack)
    ensures Shape(stack) && OpenGuards(stack, c) == 0
  {
    if stack != [] {
      NoOpenGuardShape(stack[1..], c);
    }
  }

  /** The innermost frame of a thread that runs is one that has the lock. */
  lemma {:induction false} InnermostCounts(stack: Stack, flag: bool, c: nat)
    requires FlagFits(stack, flag) && CanAct(stack) && InnermostFrame(stack) == Some(c)
    ensures Frames(stack, c) >= 1
  {
    if !stack[0].Frame? {
      InnermostCounts(stack[1..], flag, c);
    }
  }

  lemma {:induction false} ShapeCounts(stack: Stack, flag: bool, c: nat)
    requires Shape(stack) && FlagFits(stack, flag)
    ensures OpenGuards(stack, c) <= 1 && OpenGuards(stack, c) <= Frames(stack, c)
  {
    if stack != [] {
      var outer := stack[1..];
      match stack[0]
      case Frame(_, _, _) => NoOpenGuardShape(outer, c);
      case Guard(d, unlocked, _) =>
        if unlocked {
          NoOpenGuardShape(outer, c);
          InnermostCounts(outer, flag, d);
        } else {
          ShapeCounts(outer, flag, c);
        }
      case Held(_, _) => ShapeCounts(outer, flag, c);
    }
  }

  lemma {:induction false} ToggleShape(stack: Stack, i: nat, b: bool)
    requires i < |stack| && stack[i].Held?
    ensures var stack' := stack[i := stack[i].(locked := b)];
            InnermostFrame(stack') == InnermostFrame(stack) && (Shape(stack) ==> Shape(stack'))
  {
    var stack', outer := stack[i := stack[i].(locked := b)], stack[1..];
    if i == 0 {
      assert stack'[1..] == outer;
    } else {
      assert stack'[1..] == outer[i - 1 := outer[i - 1].(locked := b)];
      ToggleShape(outer, i - 1, b);
    }
  }

  lemma ShapeStep(s: State, e: Event)
    requires Enabled(s, e) && Follows(s, e) && Shape(s.Scopes(e.t))
    ensures Shape(Do(s, e).Scopes(e.t))
  {
    var stack, stack' := s.Scopes(e.t), Do(s, e).Scopes(e.t);
    match e
    case Enter(_, _, _) =>
      MarkNoOpenGuard(stack);
      assert stack'[1..] == MarkEntered(stack);
    case Acquire(_) => assert stack'[1..] == stack[1..];
    case Leave(_) => assert stack'[1..] == stack[1..];
    case Release(_) => NoOpenGuardShape(stack', 0);
    case OpenGuard(_, _) => assert stack'[1..] == stack;
    case CloseGuard(_) => if stack[0].unlocked { NoOpenGuardShape(stack', 0); }
    case OpenLock(_, _) => assert stack'[1..] == stack;
    case UnlockHeld(_, i) => ToggleShape(stack, i, false);
    case LockHeld(_, i) => ToggleShape(stack, i, true);
    case CloseLock(_) =>
  }

  lemma {:induction false} HeldCounts(stack: Stack, i: nat)
    requires i < |stack| && stack[i].Held? && stack[i].locked
    ensures HeldLocks(stack, stack[i].cls) >= 1
  {
    if i != 0 {
      HeldCounts(stack[1..], i - 1);
    }
  }

  lemma NetIsHeld(stack: Stack, flag: bool, c: nat)
    requires Shape(stack) && FlagFits(stack, flag)
    ensures Net(stack, c) >= HeldLocks(stack, c)
  {
    NetCounts(stack, c);
    ShapeCounts(stack, flag, c);
  }

  lemma {:induction false} ShapeBacked(stack: Stack, flag: bool, i: nat)
    requires Shape(stack) && FlagFits(stack, flag) && i < |stack| && stack[i].Held? && stack[i].locked
    ensures Backed(stack, i)
  {
    NetIsHeld(stack, flag, stack[i].cls);
    HeldCounts(stack, i);
    var outer := stack[1..];
    if i > 0 {
      if stack[0].Frame? || (stack[0].Guard? && stack[0].unlocked) {
        NoOpenGuardShape(outer, 0);
      }
      ShapeBacked(outer, if stack[0].Frame? then false else flag, i - 1);
    }
    forall j | 0 <= j <= i ensures Net(stack[j..], stack[i].cls) >= 1 {
      if j > 0 {
        assert stack[j..] == outer[j - 1..];
      } else {
        assert stack[j..] == stack;
      }
    }
  }

  /** A disciplined guard is for a lock that the thread holds. */
  lemma FollowingIsSafe(s: State, e: Event)
    requires Inv(s) && Sound(s) && Enabled(s, e) && Follows(s, e) && Shape(s.Scopes(e.t))
    ensures Safe(s, e) && BackedStep(s, e)
  {
    var stack := s.Scopes(e.t);
    assert FlagFits(stack, s.Flag(e.t));
    match e
    case OpenGuard(t, c) =>
      if s.Flag(t) {
        assert Balanced(s, t, c);
        NoOpenGuardShape(stack, c);
        InnermostCounts(stack, s.Flag(t), c);
        NetCounts(stack, c);
      }
    case UnlockHeld(t, i) => ShapeBacked(stack, s.Flag(t), i);
    case _ =>
  }

  ghost predicate Shaped(s: State) {
    forall t :: Shape(s.Scopes(t))
  }

  lemma {:induction false} DisciplinedIsSafe(trace: seq<Event>)
    requires After(trace).Some? && Disciplined(trace)
    ensures SafeRun(trace) && BackedRun(trace) && Shaped(After(trace).value)
  {
    if trace != [] {
      var init, e := trace[..|trace| - 1], trace[|trace| - 1];
      var s, s' := After(init).value, After(trace).value;
      DisciplinedIsSafe(init);
      SafeKeepsSound(init);
      InvAlways(init);
      assert Shape(s.Scopes(e.t));
      FollowingIsSafe(s, e);
      forall t ensures Shape(s'.Scopes(t)) {
        if t == e.t {
          ShapeStep(s, e);
        } else {
          OthersScopes(s, e, t);
          assert Shape(s.Scopes(t));
        }
      }
    }
  }

  /** In a disciplined run nothing faults and no lock is lost, and each thread holds each class's mutex exactly as often
      as it has locked frames and held LockApiGuards for it, less its effective UnlockApiGuards. */
  lemma DisciplinedBalance(trace: seq<Event>, t: nat, c: nat)
    requires After(trace).Some? && Disciplined(trace)
    ensures var s := After(trace).value;
            && !s.faulted && s.lost == map[]
            && s.Mtx(c).DepthOf(t) == Frames(s.Scopes(t), c) + HeldLocks(s.Scopes(t), c) - OpenGuards(s.Scopes(t), c)
  {
    DisciplinedIsSafe(trace);
    SafeKeepsSound(trace);
    SafeBalance(trace, t, c);
  }

  lemma MutualExclusion(trace: seq<Event>, t: nat, u: nat, c: nat)
    requires After(trace).Some? && Disciplined(trace)
    requires InBody(After(trace).value, t, c) && InBody(After(trace).value, u, c)
    ensures t == u
  {
    DisciplinedIsSafe(trace);
    SafeExclusion(trace, t, u, c);
  }

  /** What the guard is for: it sets the class's mutex free exactly when the flag is set and the thread's one
      claim on the mutex is a single locked frame. A nested frame or a held LockApiGuard keeps it locked. */
  lemma GuardFreesMutexExactly(trace: seq<Event>, t: nat, c: nat)
    requires After(trace).Some? && Disciplined(trace)
    requires Enabled(After(trace).value, OpenGuard(t, c)) && Follows(After(trace).value, OpenGuard(t, c))
    requires InnermostFrame(After(trace).value.Scopes(t)) == Some(c)
    requires OpenGuards(After(trace).value.Scopes(t), c) == 0
    ensures var s := After(trace).value;
            Do(s, OpenGuard(t, c)).Mtx(c).owner.None? <==>
            s.Flag(t) && Frames(s.Scopes(t), c) == 1 && HeldLocks(s.Scopes(t), c) == 0
  {
    var s := After(trace).value;
    DisciplinedBalance(trace, t, c);
    InvAlways(trace);
    assert s.Mtx(c).Valid() && FlagFits(s.Scopes(t), s.Flag(t));
    InnermostCounts(s.Scopes(t), s.Flag(t), c);
  }

  // ---- runs that need not, or must not, be ----

  /** The call made inside a guard comes back, on the same thread, into a locked method of the same class. */
  const NESTED: seq<Event> := [Enter(0, 7, ApiWrapper)] + [Acquire(0)] + [OpenGuard(0, 7)]
                              + [Enter(0, 7, ApiWrapper)] + [Acquire(0)] + [Leave(0)] + [Release(0)]

  const REENTRANT: seq<Event> := NESTED + [CloseGuard(0)] + [Enter(1, 7, IarmHandler)] + [Acquire(1)]

  const BODY: Scope := Frame(7, ApiWrapper, Running)

  lemma NestedRun() returns (s: State)
    ensures After(NESTED) == Some(s) && !s.faulted && !s.Flag(0) && s.Mtx(7) == Mutex(None, 0)
    ensures s.Scopes(0) == [Guard(7, true, true), BODY] && s.Scopes(1) == []
  {
    var t, s1 := GuardedRun();
    Step(t, s1, Enter(0, 7, ApiWrapper));
    var s2 := Do(s1, Enter(0, 7, ApiWrapper));
    var inner := [Guard(7, true, false), BODY];
    assert inner[1..] == [BODY] && [BODY][1..] == [];
    assert MarkEntered([BODY]) == [BODY] && MarkEntered(inner) == [Guard(7, true, true), BODY];
    assert s2.Scopes(0) == [Frame(7, ApiWrapper, Entering), Guard(7, true, true), BODY];
    t := t + [Enter(0, 7, ApiWrapper)];
    Step(t, s2, Acquire(0));
    var s3 := Do(s2, Acquire(0));
    Step(t + [Acquire(0)], s3, Leave(0));
    var s4 := Do(s3, Leave(0));
    Step(t + [Acquire(0)] + [Leave(0)], s4, Release(0));
    s := Do(s4, Release(0));
  }

  lemma GuardedRun() returns (t: seq<Event>, s: State)
    ensures t == [Enter(0, 7, ApiWrapper)] + [Acquire(0)] + [OpenGuard(0, 7)]
    ensures After(t) == Some(s) && !s.faulted && s.Flag(0) && s.Mtx(7) == Mutex(None, 0)
    ensures s.Scopes(0) == [Guard(7, true, false), BODY] && s.Scopes(1) == []
  {
    var e := Enter(0, 7, ApiWrapper);
    Step([], INIT, e);
    assert [] + [e] == [e];
    var s1 := Do(INIT, e);
    Step([e], s1, Acquire(0));
    var s2 := Do(s1, Acquire(0));
    Step([e] + [Acquire(0)], s2, OpenGuard(0, 7));
    t, s := [e] + [Acquire(0)] + [OpenGuard(0, 7)], Do(s2, OpenGuard(0, 7));
  }

  lemma ReentrantRun() returns (s: State)
    ensures After(REENTRANT) == Some(s) && !s.faulted && s.Mtx(7) == Mutex(Some(1), 1)
    ensures s.Scopes(0) == [BODY] && s.Scopes(1) == [Frame(7, IarmHandler, Running)]
  {
    var s1 := NestedRun();
    Step(NESTED, s1, CloseGuard(0));
    var s2 := Do(s1, CloseGuard(0));
    Step(NESTED + [CloseGuard(0)], s2, Enter(1, 7, IarmHandler));
    var s3 := Do(s2, Enter(1, 7, IarmHandler));
    Step(NESTED + [CloseGuard(0)] + [Enter(1, 7, IarmHandler)], s3, Acquire(1));
    s := Do(s3, Acquire(1));
  }

  lemma {:induction false} NoneByHand(trace: seq<Event>)
    requires After(trace).Some? && forall i :: 0 <= i < |trace| ==> !trace[i].UnlockHeld?
    ensures BackedRun(trace)
  {
    if trace != [] {
      NoneByHand(trace[..|trace| - 1]);
    }
  }

  /** The discipline is needed: after that run two threads are in the class's body at once, and the first of
      them faults as it leaves. */
  lemma ReentrantCallBreaks()
    ensures After(REENTRANT).Some? && !SafeRun(REENTRANT) && !Disciplined(REENTRANT)
    ensures InBody(After(REENTRANT).value, 0, 7) && InBody(After(REENTRANT).value, 1, 7)
    ensures After(REENTRANT).value.Lost(0, 7) > 0
    ensures var run := REENTRANT + [Leave(0)] + [Release(0)];
            After(run).Some? && After(run).value.faulted
  {
    var s := ReentrantRun();
    Step(REENTRANT, s, Leave(0));
    Step(REENTRANT + [Leave(0)], Do(s, Leave(0)), Release(0));
    assert InBody(s, 0, 7) && InBody(s, 1, 7);
    NoneByHand(REENTRANT);
    if SafeRun(REENTRANT) {
      SafeExclusion(REENTRANT, 0, 1, 7);
    }
    if Disciplined(REENTRANT) {
      DisciplinedIsSafe(REENTRANT);
    }
    DepthLaw(REENTRANT, 0, 7);
    assert Net([BODY], 7) == 1;
  }

  // ---- locked methods that call locked methods of their own class ----

  /** n nested calls. */
  function Calls(t: nat, c: nat, n: nat): seq<Event> {
    if n == 0 then [] else Calls(t, c, n - 1) + [Enter(t, c, ApiWrapper)] + [Acquire(t)]
  }

  function Bodies(c: nat, n: nat): Stack {
    if n == 0 then [] else [Frame(c, ApiWrapper, Running)] + Bodies(c, n - 1)
  }

  lemma {:induction false} BodiesUnmarked(c: nat, n: nat)
    ensures MarkEntered(Bodies(c, n)) == Bodies(c, n) && NoOpenGuard(Bodies(c, n)) && CanAct(Bodies(c, n))
  {
    if n > 0 {
      BodiesUnmarked(c, n - 1);
      assert Bodies(c, n)[1..] == Bodies(c, n - 1);
    }
  }

  predicate Inside(s: State, t: nat, c: nat, n: nat) {
    !s.faulted && s.Scopes(t) == Bodies(c, n) && s.Mtx(c) == Mutex(if n == 0 then None else Some(t), n)
  }

  lemma CallFrom(trace: seq<Event>, s: State, t: nat, c: nat, n: nat) returns (s': State)
    requires After(trace) == Some(s) && Inside(s, t, c, n)
    ensures After(trace + [Enter(t, c, ApiWrapper)] + [Acquire(t)]) == Some(s') && Inside(s', t, c, n + 1)
  {
    BodiesUnmarked(c, n);
    Step(trace, s, Enter(t, c, ApiWrapper));
    var s1 := Do(s, Enter(t, c, ApiWrapper));
    assert s1.Scopes(t)[1..] == Bodies(c, n);
    Step(trace + [Enter(t, c, ApiWrapper)], s1, Acquire(t));
    s' := Do(s1, Acquire(t));
  }

  lemma ReturnFrom(trace: seq<Event>, s: State, t: nat, c: nat, n: nat) returns (s': State)
    requires After(trace) == Some(s) && Inside(s, t, c, n + 1)
    ensures After(trace + [Leave(t)] + [Release(t)]) == Some(s') && Inside(s', t, c, n)
  {
    assert Bodies(c, n + 1)[1..] == Bodies(c, n);
    Step(trace, s, Leave(t));
    var s1 := Do(s, Leave(t));
    assert s1.Scopes(t)[1..] == Bodies(c, n);
    Step(trace + [Leave(t)], s1, Release(t));
    s' := Do(s1, Release(t));
  }

  lemma {:induction false} Called(t: nat, c: nat, n: nat) returns (s: State)
    ensures After(Calls(t, c, n)) == Some(s) && Inside(s, t, c, n)
  {
    if n == 0 {
      s := INIT;
    } else {
      var s0 := Called(t, c, n - 1);
      s := CallFrom(Calls(t, c, n - 1), s0, t, c, n - 1);
    }
  }

  /** A locked method may call locked methods of its own class, n deep: the thread then holds the mutex n times. */
  lemma {:induction false} NestedCallsLockAgain(t: nat, c: nat, n: nat)
    ensures var run := Calls(t, c, n);
            && After(run).Some? && !After(run).value.faulted
            && After(run).value.Mtx(c) == Mutex(if n == 0 then None else Some(t), n)
  {
    var _ := Called(t, c, n);
  }

  /** And each return gives it back once: after the inner of two calls the outer one still holds the mutex, after both
      it is free. */
  lemma NestedReturnsUnlock(t: nat, c: nat)
    ensures var run := Calls(t, c, 2) + [Leave(t)] + [Release(t)];
            After(run).Some? && !After(run).value.faulted && After(run).value.Mtx(c) == Mutex(Some(t), 1)
    ensures var run := Calls(t, c, 2) + [Leave(t)] + [Release(t)] + [Leave(t)] + [Release(t)];
            After(run).Some? && !After(run).value.faulted && After(run).value.Mtx(c) == Mutex(None, 0)
  {
    var s := Called(t, c, 2);
    var s1 := ReturnFrom(Calls(t, c, 2), s, t, c, 1);
    var s2 := ReturnFrom(Calls(t, c, 2) + [Leave(t)] + [Release(t)], s1, t, c, 0);
  }

  // ---- a guard that breaks the discipline and is safe; a lock unlocked by hand under a guard ----

  /** Where thread 0 is, with the lock of class 7 held, and how the mutex of class 8 is. */
  predicate At(s: State, flag: bool, stack: Stack, mutex: Mutex) {
    !s.faulted && s.Flag(0) == flag && s.Scopes(0) == stack && s.Mtx(8) == mutex && s.Mtx(7).owner == Some(0)
  }

  ghost predicate OthersIdle(s: State) {
    forall t :: t != 0 ==> s.Scopes(t) == []
  }

  lemma Next(trace: seq<Event>, s: State, e: Event)
    requires After(trace) == Some(s) && Enabled(s, e)
    ensures After(trace + [e]) == Some(Do(s, e))
    ensures SafeRun(trace + [e]) <==> SafeRun(trace) && Safe(s, e)
    ensures Disciplined(trace + [e]) <==> Disciplined(trace) && Follows(s, e)
    ensures OthersIdle(s) && e.t == 0 ==> OthersIdle(Do(s, e))
  {
    assert (trace + [e])[..|trace|] == trace;
    forall t | OthersIdle(s) && e.t == 0 && t != 0 ensures Do(s, e).Scopes(t) == [] {
      OthersScopes(s, e, t);
    }
  }

  /** In a locked method of class 7, a guard for the lock of a LockApiGuard for class 8. */
  const GUARDED: seq<Event> := [Enter(0, 7, ApiWrapper)] + [Acquire(0)] + [OpenLock(0, 8)] + [OpenGuard(0, 8)]

  const HELD: Scope := Held(8, true)

  lemma HeldRun() returns (trace: seq<Event>, s: State)
    ensures trace == [Enter(0, 7, ApiWrapper)] + [Acquire(0)] + [OpenLock(0, 8)]
    ensures After(trace) == Some(s) && SafeRun(trace) && At(s, true, [HELD, BODY], Mutex(Some(0), 1))
    ensures OthersIdle(s)
  {
    var e := Enter(0, 7, ApiWrapper);
    Next([], INIT, e);
    assert [] + [e] == [e];
    var s1 := Do(INIT, e);
    Next([e], s1, Acquire(0));
    var s2 := Do(s1, Acquire(0));
    assert s2.Scopes(0) == [BODY];
    Next([e] + [Acquire(0)], s2, OpenLock(0, 8));
    s := Do(s2, OpenLock(0, 8));
    trace := [e] + [Acquire(0)] + [OpenLock(0, 8)];
  }

  lemma GuardedHeldRun() returns (s: State)
    ensures After(GUARDED) == Some(s) && SafeRun(GUARDED) && !Disciplined(GUARDED)
    ensures At(s, true, [Guard(8, true, false), HELD, BODY], Mutex(None, 0)) && OthersIdle(s)
  {
    var trace, s1 := HeldRun();
    assert InnermostFrame([HELD, BODY]) == Some(7) by {
      assert [HELD, BODY][1..] == [BODY];
    }
    Next(trace, s1, OpenGuard(0, 8));
    s := Do(s1, OpenGuard(0, 8));
  }

  /** The discipline is more than is needed: this run breaks it, and ends without a fault. */
  lemma UndisciplinedMayBeSafe()
    ensures var run := GUARDED + [CloseGuard(0)] + [CloseLock(0)] + [Leave(0)] + [Release(0)];
            && After(run).Some? && Finished(After(run).value) && !After(run).value.faulted
            && SafeRun(run) && !Disciplined(run)
  {
    var s := GuardedHeldRun();
    Next(GUARDED, s, CloseGuard(0));
    var s1 := Do(s, CloseGuard(0));
    assert At(s1, true, [HELD, BODY], Mutex(Some(0), 1));
    Next(GUARDED + [CloseGuard(0)], s1, CloseLock(0));
    var s2 := Do(s1, CloseLock(0));
    assert At(s2, true, [BODY], Mutex(None, 0));
    Next(GUARDED + [CloseGuard(0)] + [CloseLock(0)], s2, Leave(0));
    var s3 := Do(s2, Leave(0));
    assert At(s3, false, [Frame(7, ApiWrapper, Leaving)], Mutex(None, 0));
    Next(GUARDED + [CloseGuard(0)] + [CloseLock(0)] + [Leave(0)], s3, Release(0));
    assert Do(s3, Release(0)).Scopes(0) == [];
  }

  /** Safe guards are not enough when a lock they have given up is unlocked by hand. */
  lemma UnlockByHandBreaks()
    ensures var run := GUARDED + [OpenLock(0, 8)] + [UnlockHeld(0, 2)] + [CloseLock(0)];
            SafeRun(run) && After(run).Some? && After(run).value.faulted && !BackedRun(run)
  {
    var s := GuardedHeldRun();
    Next(GUARDED, s, OpenLock(0, 8));
    var s1 := Do(s, OpenLock(0, 8));
    assert At(s1, true, [HELD, Guard(8, true, false), HELD, BODY], Mutex(Some(0), 1));
    Next(GUARDED + [OpenLock(0, 8)], s1, UnlockHeld(0, 2));
    var s2 := Do(s1, UnlockHeld(0, 2));
    assert At(s2, true, [HELD, Guard(8, true, false), Held(8, false), BODY], Mutex(None, 0));
    Next(GUARDED + [OpenLock(0, 8)] + [UnlockHeld(0, 2)], s2, CloseLock(0));
    var run := GUARDED + [OpenLock(0, 8)] + [UnlockHeld(0, 2)] + [CloseLock(0)];
    if BackedRun(run) {
      SafeKeepsSound(run);
    }
  }
}
