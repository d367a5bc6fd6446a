/** Which guards are safe: the exact condition, over whole runs of any number of threads, under which every
    UnlockApiGuard gives back what it took and no unlock is undefined. */
module LockedApiGuards {
  import opened Options
  import opened LockedApi

  predicate NoOpenGuard(stack: Stack) {
    forall i :: 0 <= i < |stack| && stack[i].Guard? ==> !stack[i].unlocked
  }

  /** What a thread can see to before the call: no locked frame is entered inside a guard that gave up a lock, and a
      guard gives up only a lock that the thread holds. */
  predicate Safe(s: State, e: Event) {
    match e
    case Enter(t, _, _) => NoOpenGuard(s.Scopes(t))
    case OpenGuard(t, c) => s.Flag(t) ==> s.Mtx(c).owner == Some(t)
    case _ => true
  }

  predicate SafeRun(trace: seq<Event>) {
    trace == [] ||
    var init := trace[..|trace| - 1];
    SafeRun(init) && After(init).Some? && Safe(After(init).value, trace[|trace| - 1])
  }

  /** The lock of the i-th scope is held with or without the scopes further in. */
  predicate Backed(stack: Stack, i: nat)
    requires i < |stack|
  {
    forall j :: 0 <= j <= i ==> Net(stack[j..], stack[i].cls) >= 1
  }

  /** A LockApiGuard that is unlocked by hand does not take away the lock that a guard further in has given up. */
  predicate BackedStep(s: State, e: Event) {
    e.UnlockHeld? && e.i < |s.Scopes(e.t)| ==> Backed(s.Scopes(e.t), e.i)
  }

  predicate BackedRun(trace: seq<Event>) {
    trace == [] ||
    var init := trace[..|trace| - 1];
    BackedRun(init) && After(init).Some? && BackedStep(After(init).value, trace[|trace| - 1])
  }

  // ---------------------------------------------------------------------------------------------------
  // Safe runs stay sound
  // ---------------------------------------------------------------------------------------------------

  /** However many scopes close, no mutex is owed. */
  ghost predicate Supported(stack: Stack) {
    stack == [] || (Supported(stack[1..]) && forall c :: Net(stack, c) >= 0)
  }

  predicate Unentered(stack: Stack) {
    forall i :: 0 <= i < |stack| && stack[i].Guard? && stack[i].unlocked ==> !stack[i].entered
  }

  ghost predicate Sound(s: State) {
    && !s.faulted && s.lost == map[]
    && forall t :: Supported(s.Scopes(t)) && Unentered(s.Scopes(t))
  }

  lemma {:induction false} NoOpenGuardSupported(stack: Stack)
    requires NoOpenGuard(stack)
    ensures Supported(stack) && Unentered(stack)
  {
    if stack != [] {
      NoOpenGuardSupported(stack[1..]);
      forall c ensures Net(stack, c) >= 0 {
        assert stack[1..] != [] ==> Net(stack[1..], c) >= 0;
      }
    }
  }

  lemma {:induction false} MarkNoOpenGuard(stack: Stack)
    requires NoOpenGuard(stack)
    ensures NoOpenGuard(MarkEntered(stack))
  {
    if stack != [] {
      MarkNoOpenGuard(stack[1..]);
    }
  }

  lemma SupportedNet(stack: Stack, c: nat)
    requires Supported(stack)
    ensures Net(stack, c) >= 0
  {
  }

  lemma Pushed(scope: Scope, stack: Stack)
    requires Supported(stack) && forall c :: Weight(scope, c) + Net(stack, c) >= 0
    ensures Supported([scope] + stack)
  {
    assert ([scope] + stack)[1..] == stack;
    forall c ensures Net([scope] + stack, c) >= 0 {
      assert Weight(scope, c) + Net(stack, c) >= 0;
    }
  }

  lemma PushedUnentered(scope: Scope, stack: Stack)
    requires Unentered(stack) && !(scope.Guard? && scope.unlocked && scope.entered)
    ensures Unentered([scope] + stack)
  {
  }

  lemma {:induction false} ToggledSupported(stack: Stack, i: nat, b: bool)
    requires i < |stack| && stack[i].Held? && stack[i].locked != b && Supported(stack)
    requires !b ==> Backed(stack, i)
    ensures Supported(stack[i := stack[i].(locked := b)])
  {
    var stack', outer, cls := stack[i := stack[i].(locked := b)], stack[1..], stack[i].cls;
    assert !b ==> Net(stack[0..], cls) >= 1 && stack[0..] == stack;
    if i == 0 {
      assert stack'[1..] == outer;
    } else {
      assert stack'[1..] == outer[i - 1 := outer[i - 1].(locked := b)];
      forall j | !b && 0 <= j <= i - 1 ensures Net(outer[j..], cls) >= 1 {
        assert outer[j..] == stack[j + 1..];
      }
      ToggledSupported(outer, i - 1, b);
    }
    forall c ensures Net(stack', c) >= 0 {
      NetToggled(stack, i, b, c);
      SupportedNet(stack, c);
    }
  }

  /** Every unlock is by a thread that has a claim on the mutex. */
  lemma UnlockIsOwned(s: State, e: Event, c: nat)
    requires Inv(s) && Sound(s) && Enabled(s, e) && Safe(s, e) && BackedStep(s, e) && Unlocks(s, e, c)
    ensures s.Mtx(c).owner == Some(e.t)
  {
    var stack := s.Scopes(e.t);
    assert Balanced(s, e.t, c) && s.Mtx(c).Valid() && Supported(stack);
    match e
    case UnlockHeld(_, i) => assert Net(stack[0..], c) >= 1 && stack[0..] == stack;
    case Release(_) => SupportedNet(stack[1..], c);
    case CloseLock(_) => SupportedNet(stack[1..], c);
    case _ =>
  }

  lemma HoldsMeansClaim(s: State, t: nat, c: nat)
    requires Inv(s) && !s.faulted && s.lost == map[] && s.Mtx(c).owner == Some(t)
    ensures Net(s.Scopes(t), c) >= 1
  {
    assert Balanced(s, t, c) && s.Mtx(c).Valid();
  }

  lemma SupportedStep(s: State, e: Event)
    requires Inv(s) && Sound(s) && Enabled(s, e) && Safe(s, e) && BackedStep(s, e)
    ensures Supported(Do(s, e).Scopes(e.t))
  {
    var stack := s.Scopes(e.t);
    assert Supported(stack) && Unentered(stack);
    match e
    case Enter(_, c, kind) =>
      MarkNoOpenGuard(stack);
      NoOpenGuardSupported(MarkEntered(stack));
      EnteringSupported(Frame(c, kind, Entering), MarkEntered(stack));
    case Acquire(_) => ReplacedSupported(stack[0].(stage := Running), stack);
    case Leave(_) => ReplacedSupported(stack[0].(stage := Leaving), stack);
    case OpenGuard(t, c) =>
      if s.Flag(t) {
        HoldsMeansClaim(s, t, c);
      }
      GuardSupported(c, s.Flag(t), stack);
    case OpenLock(_, c) => EnteringSupported(Held(c, true), stack);
    case UnlockHeld(_, i) => ToggledSupported(stack, i, false);
    case LockHeld(_, i) => ToggledSupported(stack, i, true);
    case _ =>
  }

  lemma EnteringSupported(scope: Scope, stack: Stack)
    requires Supported(stack) && !scope.Guard?
    ensures Supported([scope] + stack)
  {
    forall c ensures Weight(scope, c) + Net(stack, c) >= 0 {
      SupportedNet(stack, c);
    }
    Pushed(scope, stack);
  }

  lemma ReplacedSupported(scope: Scope, stack: Stack)
    requires stack != [] && Supported(stack) && !scope.Guard?
    ensures Supported([scope] + stack[1..])
  {
    EnteringSupported(scope, stack[1..]);
  }

  lemma GuardSupported(c: nat, unlocked: bool, stack: Stack)
    requires Supported(stack) && (unlocked ==> Net(stack, c) >= 1)
    ensures Supported([Guard(c, unlocked, false)] + stack)
  {
    var guard := Guard(c, unlocked, false);
    forall d ensures Weight(guard, d) + Net(stack, d) >= 0 {
      SupportedNet(stack, d);
    }
    Pushed(guard, stack);
  }

  lemma UnenteredStep(s: State, e: Event)
    requires Enabled(s, e) && Safe(s, e) && Unentered(s.Scopes(e.t))
    ensures Unentered(Do(s, e).Scopes(e.t))
  {
    var stack := s.Scopes(e.t);
    match e
    case Enter(_, c, kind) =>
      MarkNoOpenGuard(stack);
      PushedUnentered(Frame(c, kind, Entering), MarkEntered(stack));
    case Acquire(_) => PushedUnentered(stack[0].(stage := Running), stack[1..]);
    case Leave(_) => PushedUnentered(stack[0].(stage := Leaving), stack[1..]);
    case OpenGuard(t, c) => PushedUnentered(Guard(c, s.Flag(t), false), stack);
    case OpenLock(_, c) => PushedUnentered(Held(c, true), stack);
    case _ =>
  }

  /** A guard that was not entered takes its lock back. */
  lemma NothingLost(s: State, e: Event)
    requires Inv(s) && Sound(s) && Enabled(s, e)
    ensures Do(s, e).lost == map[]
  {
    assert FlagFits(s.Scopes(e.t), s.Flag(e.t)) && Unentered(s.Scopes(e.t));
  }

  lemma SoundStep(s: State, e: Event)
    requires Inv(s) && Sound(s) && Enabled(s, e) && Safe(s, e) && BackedStep(s, e)
    ensures Sound(Do(s, e))
  {
    var s' := Do(s, e);
    NothingLost(s, e);
    forall t ensures Supported(s'.Scopes(t)) && Unentered(s'.Scopes(t)) {
      assert Supported(s.Scopes(t)) && Unentered(s.Scopes(t));
      if t == e.t {
        SupportedStep(s, e);
        UnenteredStep(s, e);
      } else {
        OthersScopes(s, e, t);
      }
    }
    forall c | Unlocks(s, e, c) ensures s.Mtx(c).owner == Some(e.t) {
      UnlockIsOwned(s, e, c);
    }
    FaultMeansUnlock(s, e);
  }

  lemma {:induction false} SafeKeepsSound(trace: seq<Event>)
    requires After(trace).Some? && SafeRun(trace) && BackedRun(trace)
    ensures Sound(After(trace).value)
  {
    if trace != [] {
      var init := trace[..|trace| - 1];
      SafeKeepsSound(init);
      InvAlways(init);
      SoundStep(After(init).value, trace[|trace| - 1]);
    }
  }

  /** In a safe run nothing faults, and each thread holds each class's mutex exactly as often as it has locked
      frames and held LockApiGuards for it, less its effective UnlockApiGuards. */
  lemma SafeBalance(trace: seq<Event>, t: nat, c: nat)
    requires After(trace).Some? && SafeRun(trace) && BackedRun(trace)
    ensures var s := After(trace).value;
            && !s.faulted
            && s.Mtx(c).DepthOf(t) == Frames(s.Scopes(t), c) + HeldLocks(s.Scopes(t), c) - OpenGuards(s.Scopes(t), c)
  {
    SafeKeepsSound(trace);
    DepthLaw(trace, t, c);
    NetCounts(After(trace).value.Scopes(t), c);
  }

  lemma SafeExclusion(trace: seq<Event>, t: nat, u: nat, c: nat)
    requires After(trace).Some? && SafeRun(trace) && BackedRun(trace)
    requires InBody(After(trace).value, t, c) && InBody(After(trace).value, u, c)
    ensures t == u
  {
    SafeKeepsSound(trace);
    ExclusionUnlessLost(trace, t, u, c);
  }

  // ---------------------------------------------------------------------------------------------------
  // Any other run cannot end well
  // ---------------------------------------------------------------------------------------------------

  /** The thread has lost a lock, or is going to. */
  ghost predicate Doomed(s: State, t: nat) {
    !Unentered(s.Scopes(t)) || exists c :: s.Lost(t, c) > 0
  }

  lemma {:induction false} Marked(stack: Stack, i: nat)
    requires i < |stack|
    ensures |MarkEntered(stack)| == |stack|
    ensures MarkEntered(stack)[i] == if stack[i].Guard? then stack[i].(entered := true) else stack[i]
  {
    if i > 0 {
      Marked(stack[1..], i - 1);
    } else if |stack| > 1 {
      Marked(stack[1..], 0);
    }
  }

  ghost predicate EnteredAt(stack: Stack, i: nat) {
    i < |stack| && stack[i].Guard? && stack[i].unlocked && stack[i].entered
  }

  /** Where the guard is after the step, if it has not closed. */
  lemma EnteredStays(s: State, e: Event, i: nat) returns (i': nat)
    requires Enabled(s, e) && EnteredAt(s.Scopes(e.t), i)
    requires !(e.CloseGuard? && i == 0)
    ensures EnteredAt(Do(s, e).Scopes(e.t), i')
  {
    if e.Enter? {
      Marked(s.Scopes(e.t), i);
      i' := i + 1;
    } else if e.OpenGuard? || e.OpenLock? {
      i' := i + 1;
    } else if e.Release? || e.CloseGuard? || e.CloseLock? {
      i' := i - 1;
    } else {
      EnteredKept(s, e, i);
      i' := i;
    }
  }

  lemma EnteredKept(s: State, e: Event, i: nat)
    requires Enabled(s, e) && EnteredAt(s.Scopes(e.t), i)
    requires e.Acquire? || e.Leave? || e.UnlockHeld? || e.LockHeld?
    ensures EnteredAt(Do(s, e).Scopes(e.t), i)
  {
  }

  lemma DoomedStays(s: State, e: Event, t: nat)
    requires Inv(s) && Enabled(s, e) && Doomed(s, t)
    ensures Doomed(Do(s, e), t)
  {
    var stack := s.Scopes(t);
    assert FlagFits(stack, s.Flag(t));
    if c :| s.Lost(t, c) > 0 {
      LostGrows(s, e, t, c);
    } else if t != e.t {
      OthersScopes(s, e, t);
    } else {
      var i :| 0 <= i < |stack| && stack[i].Guard? && stack[i].unlocked && stack[i].entered;
      if e.CloseGuard? && i == 0 {
        EnteredGuardLoses(s, t);
      } else {
        var i' := EnteredStays(s, e, i);
      }
    }
  }

  lemma EnteredGuardLoses(s: State, t: nat)
    requires Enabled(s, CloseGuard(t)) && FlagFits(s.Scopes(t), s.Flag(t)) && EnteredAt(s.Scopes(t), 0)
    ensures Do(s, CloseGuard(t)).Lost(t, s.Scopes(t)[0].cls) > 0
  {
  }

  lemma LostGrows(s: State, e: Event, t: nat, c: nat)
    requires Enabled(s, e)
    ensures Do(s, e).Lost(t, c) >= s.Lost(t, c)
  {
  }

  lemma UnsafeDooms(s: State, e: Event)
    requires Enabled(s, e) && !Safe(s, e)
    ensures Do(s, e).faulted || Doomed(Do(s, e), e.t)
  {
    var stack := s.Scopes(e.t);
    if e.Enter? {
      var i :| 0 <= i < |stack| && stack[i].Guard? && stack[i].unlocked;
      Marked(stack, i);
      assert EnteredAt(Do(s, e).Scopes(e.t), i + 1);
    }
  }

  /** After a step that is not safe, one thread can never finish. */
  lemma {:induction false} UnsafeNeverFinishes(trace: seq<Event>)
    requires After(trace).Some? && !SafeRun(trace)
    ensures After(trace).value.faulted || exists t :: Doomed(After(trace).value, t)
  {
    var init, e := trace[..|trace| - 1], trace[|trace| - 1];
    var s := After(init).value;
    InvAlways(init);
    if SafeRun(init) {
      UnsafeDooms(s, e);
    } else {
      UnsafeNeverFinishes(init);
      var t :| Doomed(s, t);
      DoomedStays(s, e, t);
    }
  }

  ghost predicate Finished(s: State) {
    forall t :: s.Scopes(t) == []
  }

  /** A run in which every thread has come out of all its scopes went without a fault only if each guard that gave up a
      lock gave up one its thread held, and no locked frame was entered inside it; and if no LockApiGuard was unlocked
      by hand under a guard that relied on it, then also if. */
  lemma SafeExactly(trace: seq<Event>)
    requires After(trace).Some? && Finished(After(trace).value)
    ensures !After(trace).value.faulted ==> SafeRun(trace)
    ensures BackedRun(trace) ==> (!After(trace).value.faulted <==> SafeRun(trace))
  {
    var s := After(trace).value;
    if SafeRun(trace) {
      if BackedRun(trace) {
        SafeKeepsSound(trace);
      }
    } else {
      UnsafeNeverFinishes(trace);
      if !s.faulted {
        var t :| Doomed(s, t);
        assert s.Scopes(t) == [];
        var c :| s.Lost(t, c) > 0;
        LostLockIsFatal(trace, t, c);
      }
    }
  }
}
