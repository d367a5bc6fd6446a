/** The locked-API discipline (helpers/UtilsSynchro.hpp, helpers/UtilsSynchroIarm.hpp): one recursive mutex
    per class, one flag per thread, and scopes that lock, unlock and relock. Threads and classes are
    numbered; a run interleaves the steps of any number of threads. */
module LockedApi {
  import opened Options

  datatype Mutex = Mutex(owner: Option<nat>, depth: nat) {
    predicate Valid() { owner.None? <==> depth == 0 }

    predicate Acquirable(t: nat) { owner.None? || owner == Some(t) }

    function Lock(t: nat): Mutex { Mutex(Some(t), depth + 1) }

    function Unlock(): Mutex { if depth <= 1 then Mutex(None, 0) else Mutex(owner, depth - 1) }

    function DepthOf(t: nat): nat { if owner == Some(t) then depth else 0 }
  }

  /** Entering: the flag is set and the thread waits for the mutex. Leaving: the flag is cleared and the
      lock_guard is not destroyed yet. */
  datatype Stage = Entering | Running | Leaving

  datatype Kind = ApiWrapper | IarmHandler

  /** The scopes open on a thread. For a Guard, `unlocked` is what its constructor did; `entered` is a history
      variable: a locked frame was entered since it opened. */
  datatype Scope =
    | Frame(cls: nat, kind: Kind, stage: Stage)
    | Guard(cls: nat, unlocked: bool, entered: bool)
    | Held(cls: nat, locked: bool)

  /** Innermost scope first. */
  type Stack = seq<Scope>

  /** `lost` is a history variable: how often a thread's guards for a class did not take back the lock they
      had given up. `faulted` is reached when a mutex is unlocked by a thread that does not own it. */
  datatype State = State(mutexes: map<nat, Mutex>, flags: map<nat, bool>, stacks: map<nat, Stack>,
                         lost: map<(nat, nat), nat>, faulted: bool)
  {
    function Mtx(c: nat): Mutex { if c in mutexes then mutexes[c] else Mutex(None, 0) }
    function Flag(t: nat): bool { t in flags && flags[t] }
    function Scopes(t: nat): Stack { if t in stacks then stacks[t] else [] }
    function Lost(t: nat, c: nat): nat { if (t, c) in lost then lost[(t, c)] else 0 }

    function Lock(t: nat, c: nat): State { this.(mutexes := mutexes[c := Mtx(c).Lock(t)]) }

    function Unlock(t: nat, c: nat): State {
      if Mtx(c).owner == Some(t) then this.(mutexes := mutexes[c := Mtx(c).Unlock()])
      else this.(faulted := true)
    }

    function SetFlag(t: nat, b: bool): State { this.(flags := flags[t := b]) }
    function SetScopes(t: nat, stack: Stack): State { this.(stacks := stacks[t := stack]) }
    function AddLost(t: nat, c: nat): State { this.(lost := lost[(t, c) := Lost(t, c) + 1]) }
  }

  const INIT := State(map[], map[], map[], map[], false)

  datatype Event =
    | Enter(t: nat, cls: nat, kind: Kind)   // getFunctionToCall wrapper or _generic_iarm_handler: flag := true
    | Acquire(t: nat)                       // its lock_guard
    | Leave(t: nat)                         // flag := false, also on the exception path
    | Release(t: nat)                       // the lock_guard is destroyed
    | OpenGuard(t: nat, cls: nat)           // UnlockApiGuard()
    | CloseGuard(t: nat)                    // ~UnlockApiGuard()
    | OpenLock(t: nat, cls: nat)            // LockApiGuard()
    | UnlockHeld(t: nat, i: nat)            // LockApiGuard::unlock on the i-th scope
    | LockHeld(t: nat, i: nat)              // LockApiGuard::lock
    | CloseLock(t: nat)                     // ~LockApiGuard()

  /** The thread runs code of a scope's body: it is neither waiting for a frame's mutex nor on its way out. */
  predicate CanAct(stack: Stack) {
    stack == [] || !stack[0].Frame? || stack[0].stage.Running?
  }

  function MarkEntered(stack: Stack): (r: Stack) {
    if stack == [] then []
    else [if stack[0].Guard? then stack[0].(entered := true) else stack[0]] + MarkEntered(stack[1..])
  }

  predicate Enabled(s: State, e: Event) {
    var stack := s.Scopes(e.t);
    && !s.faulted
    && match e
       case Enter(_, _, _) => CanAct(stack)
       case Acquire(t) =>
         stack != [] && stack[0].Frame? && stack[0].stage.Entering? && s.Mtx(stack[0].cls).Acquirable(t)
       case Leave(_) => stack != [] && stack[0].Frame? && stack[0].stage.Running?
       case Release(_) => stack != [] && stack[0].Frame? && stack[0].stage.Leaving?
       case OpenGuard(_, _) => CanAct(stack)
       case CloseGuard(t) =>
         stack != [] && stack[0].Guard? && (s.Flag(t) ==> s.Mtx(stack[0].cls).Acquirable(t))
       case OpenLock(t, c) => CanAct(stack) && s.Mtx(c).Acquirable(t)
       case UnlockHeld(_, i) => CanAct(stack) && i < |stack| && stack[i].Held? && stack[i].locked
       case LockHeld(t, i) =>
         CanAct(stack) && i < |stack| && stack[i].Held? && !stack[i].locked && s.Mtx(stack[i].cls).Acquirable(t)
       case CloseLock(_) => stack != [] && stack[0].Held?
  }

  function Do(s: State, e: Event): State
    requires Enabled(s, e)
  {
    var stack := s.Scopes(e.t);
    match e
    case Enter(t, c, kind) => s.SetFlag(t, true).SetScopes(t, [Frame(c, kind, Entering)] + MarkEntered(stack))
    case Acquire(t) => s.Lock(t, stack[0].cls).SetScopes(t, [stack[0].(stage := Running)] + stack[1..])
    case Leave(t) => s.SetFlag(t, false).SetScopes(t, [stack[0].(stage := Leaving)] + stack[1..])
    case Release(t) => s.Unlock(t, stack[0].cls).SetScopes(t, stack[1..])
    case OpenGuard(t, c) =>
      (if s.Flag(t) then s.Unlock(t, c) else s).SetScopes(t, [Guard(c, s.Flag(t), false)] + stack)
    case CloseGuard(t) =>
      var s' := if s.Flag(t) then s.Lock(t, stack[0].cls)
                else if stack[0].unlocked then s.AddLost(t, stack[0].cls)
                else s;
      s'.SetScopes(t, stack[1..])
    case OpenLock(t, c) => s.Lock(t, c).SetScopes(t, [Held(c, true)] + stack)
    case UnlockHeld(t, i) => s.Unlock(t, stack[i].cls).SetScopes(t, stack[i := stack[i].(locked := false)])
    case LockHeld(t, i) => s.Lock(t, stack[i].cls).SetScopes(t, stack[i := stack[i].(locked := true)])
    case CloseLock(t) => (if stack[0].locked then s.Unlock(t, stack[0].cls) else s).SetScopes(t, stack[1..])
  }

  function After(trace: seq<Event>): Option<State> {
    if trace == [] then Some(INIT)
    else
      var s := After(trace[..|trace| - 1]);
      if s.Some? && Enabled(s.value, trace[|trace| - 1]) then Some(Do(s.value, trace[|trace| - 1])) else None
  }

  // ---------------------------------------------------------------------------------------------------
  // What a thread's scopes say it should hold
  // ---------------------------------------------------------------------------------------------------

  function Weight(scope: Scope, c: nat): int {
    if scope.cls != c then 0
    else match scope
      case Frame(_, _, stage) => if stage.Entering? then 0 else 1
      case Guard(_, unlocked, _) => if unlocked then -1 else 0
      case Held(_, locked) => if locked then 1 else 0
  }

  /** Locked frames, plus held LockApiGuards, minus effective UnlockApiGuards, for class c. */
  function Net(stack: Stack, c: nat): int {
    if stack == [] then 0 else Weight(stack[0], c) + Net(stack[1..], c)
  }

  /** The flag is what the scopes say: clear when there is no frame, clear in a guard that a frame was
      entered in, and otherwise in a guard still what it was when the guard opened. */
  predicate FlagFits(stack: Stack, flag: bool) {
    if stack == [] then !flag
    else
      var outer := stack[1..];
      && CanAct(outer)
      && match stack[0]
         case Frame(_, _, stage) =>
           && (stage.Entering? ==> flag) && (stage.Leaving? ==> !flag)
           && MarkEntered(outer) == outer && FlagFits(outer, false)
         case Guard(_, unlocked, entered) =>
           (if entered then !flag else flag == unlocked) && FlagFits(outer, flag)
         case Held(_, _) => FlagFits(outer, flag)
  }

  ghost predicate Balanced(s: State, t: nat, c: nat) {
    s.Mtx(c).DepthOf(t) == Net(s.Scopes(t), c) - s.Lost(t, c)
  }

  ghost predicate Inv(s: State) {
    && (!s.faulted ==> forall c :: s.Mtx(c).Valid())
    && (forall t :: FlagFits(s.Scopes(t), s.Flag(t)))
    && (!s.faulted ==> forall t, c :: Balanced(s, t, c))
  }

  lemma {:induction false} MarkEnteredFits(stack: Stack, flag: bool)
    requires FlagFits(stack, flag) && CanAct(stack)
    ensures MarkEntered(MarkEntered(stack)) == MarkEntered(stack)
    ensures CanAct(MarkEntered(stack)) && FlagFits(MarkEntered(stack), false)
  {
    if stack != [] {
      MarkEnteredFits(stack[1..], if stack[0].Frame? then false else flag);
      assert MarkEntered(stack)[1..] == MarkEntered(stack[1..]);
    }
  }

  lemma {:induction false} MarkEnteredNet(stack: Stack, c: nat)
    ensures Net(MarkEntered(stack), c) == Net(stack, c)
  {
    if stack != [] {
      MarkEnteredNet(stack[1..], c);
      assert MarkEntered(stack)[1..] == MarkEntered(stack[1..]);
    }
  }

  /** Locking or unlocking a LockApiGuard somewhere in the stack. */
  lemma {:induction false} ToggleHeld(stack: Stack, i: nat, b: bool, flag: bool)
    requires i < |stack| && stack[i].Held? && FlagFits(stack, flag)
    ensures var stack' := stack[i := stack[i].(locked := b)];
            && FlagFits(stack', flag)
            && (CanAct(stack) ==> CanAct(stack'))
            && (MarkEntered(stack) == stack ==> MarkEntered(stack') == stack')
  {
    var stack' := stack[i := stack[i].(locked := b)];
    if i == 0 {
      assert stack'[1..] == stack[1..];
    } else {
      var outer := stack[1..];
      assert stack'[1..] == outer[i - 1 := outer[i - 1].(locked := b)];
      ToggleHeld(outer, i - 1, b, if stack[0].Frame? then false else flag);
    }
  }

  lemma {:induction false} NetToggled(stack: Stack, i: nat, b: bool, c: nat)
    requires i < |stack| && stack[i].Held?
    ensures Net(stack[i := stack[i].(locked := b)], c)
            == Net(stack, c) + Weight(stack[i].(locked := b), c) - Weight(stack[i], c)
  {
    var stack', outer := stack[i := stack[i].(locked := b)], stack[1..];
    if i == 0 {
      assert stack'[1..] == outer;
    } else {
      assert stack'[1..] == outer[i - 1 := outer[i - 1].(locked := b)];
      NetToggled(outer, i - 1, b, c);
    }
  }

  lemma FlagStep(s: State, e: Event)
    requires Inv(s) && Enabled(s, e)
    ensures FlagFits(Do(s, e).Scopes(e.t), Do(s, e).Flag(e.t))
  {
    var stack, stack' := s.Scopes(e.t), Do(s, e).Scopes(e.t);
    match e
    case Enter(t, c, kind) =>
      MarkEnteredFits(stack, s.Flag(t));
      assert stack'[1..] == MarkEntered(stack);
    case UnlockHeld(t, i) => ToggleHeld(stack, i, false, s.Flag(t));
    case LockHeld(t, i) => ToggleHeld(stack, i, true, s.Flag(t));
    case OpenGuard(_, _) => assert stack'[1..] == stack;
    case OpenLock(_, _) => assert stack'[1..] == stack;
    case Acquire(_) => assert stack'[1..] == stack[1..];
    case Leave(_) => assert stack'[1..] == stack[1..];
    case _ =>
  }

  function NetChange(s: State, e: Event, c: nat): int
    requires Enabled(s, e)
  {
    var stack := s.Scopes(e.t);
    match e
    case Enter(_, _, _) => 0
    case Leave(_) => 0
    case OpenGuard(t, d) => if c == d && s.Flag(t) then -1 else 0
    case OpenLock(_, d) => if c == d then 1 else 0
    case UnlockHeld(_, i) => if c == stack[i].cls then -1 else 0
    case LockHeld(_, i) => if c == stack[i].cls then 1 else 0
    case Acquire(_) => if c == stack[0].cls then 1 else 0
    case Release(_) => if c == stack[0].cls then -1 else 0
    case CloseGuard(_) => if c == stack[0].cls && stack[0].unlocked then 1 else 0
    case CloseLock(_) => if c == stack[0].cls && stack[0].locked then -1 else 0
  }

  lemma NetOfStack(s: State, e: Event, c: nat)
    requires FlagFits(s.Scopes(e.t), s.Flag(e.t)) && Enabled(s, e)
    ensures Net(Do(s, e).Scopes(e.t), c) == Net(s.Scopes(e.t), c) + NetChange(s, e, c)
  {
    var stack, stack' := s.Scopes(e.t), Do(s, e).Scopes(e.t);
    match e
    case Enter(t, d, kind) =>
      MarkEnteredNet(stack, c);
      assert stack'[1..] == MarkEntered(stack);
    case UnlockHeld(_, i) => NetToggled(stack, i, false, c);
    case LockHeld(_, i) => NetToggled(stack, i, true, c);
    case OpenGuard(_, _) => assert stack'[1..] == stack;
    case OpenLock(_, _) => assert stack'[1..] == stack;
    case Acquire(_) => assert stack'[1..] == stack[1..];
    case Leave(_) => assert stack'[1..] == stack[1..];
    case _ =>
  }

  /** How many times the step locks (1) or unlocks (-1) the mutex of class c. */
  function LockChange(s: State, e: Event, c: nat): int
    requires Enabled(s, e)
  {
    if e.CloseGuard? then (if c == s.Scopes(e.t)[0].cls && s.Flag(e.t) then 1 else 0)
    else NetChange(s, e, c)
  }

  lemma MutexStep(s: State, e: Event, c: nat)
    requires Enabled(s, e) && !Do(s, e).faulted
    ensures var m, m' := s.Mtx(c), Do(s, e).Mtx(c);
            match LockChange(s, e, c)
            case 0 => m' == m
            case 1 => m.Acquirable(e.t) && m' == m.Lock(e.t)
            case _ => LockChange(s, e, c) == -1 && m.owner == Some(e.t) && m' == m.Unlock()
  {
  }

  lemma LostStep(s: State, e: Event, c: nat)
    requires Enabled(s, e) && FlagFits(s.Scopes(e.t), s.Flag(e.t))
    ensures Do(s, e).Lost(e.t, c) == s.Lost(e.t, c) + NetChange(s, e, c) - LockChange(s, e, c)
  {
  }

  /** A step of one thread leaves the others' scopes, flags and holdings alone. */
  lemma OthersKept(s: State, e: Event, t: nat, c: nat)
    requires Enabled(s, e) && t != e.t
    ensures var s' := Do(s, e);
            s'.Scopes(t) == s.Scopes(t) && s'.Flag(t) == s.Flag(t) && s'.Lost(t, c) == s.Lost(t, c)
  {
    OthersScopes(s, e, t);
    OthersLost(s, e, t, c);
  }

  lemma OthersScopes(s: State, e: Event, t: nat)
    requires Enabled(s, e) && t != e.t
    ensures Do(s, e).Scopes(t) == s.Scopes(t) && Do(s, e).Flag(t) == s.Flag(t)
  {
  }

  lemma OthersLost(s: State, e: Event, t: nat, c: nat)
    requires Enabled(s, e) && t != e.t
    ensures Do(s, e).Lost(t, c) == s.Lost(t, c)
  {
  }

  lemma BalanceStep(s: State, e: Event, t: nat, c: nat)
    requires Inv(s) && Enabled(s, e) && !Do(s, e).faulted
    ensures Balanced(Do(s, e), t, c)
  {
    assert s.Mtx(c).Valid() && Balanced(s, t, c);
    MutexStep(s, e, c);
    if t == e.t {
      NetOfStack(s, e, c);
      LostStep(s, e, c);
    } else {
      OthersKept(s, e, t, c);
    }
  }

  lemma InvStep(s: State, e: Event)
    requires Inv(s) && Enabled(s, e)
    ensures Inv(Do(s, e))
  {
    var s' := Do(s, e);
    forall t ensures FlagFits(s'.Scopes(t), s'.Flag(t)) {
      FlagStep(s, e);
      assert FlagFits(s.Scopes(t), s.Flag(t));
      if t != e.t {
        OthersKept(s, e, t, 0);
      }
    }
    forall t, c | !s'.faulted ensures Balanced(s', t, c) {
      BalanceStep(s, e, t, c);
    }
    forall c | !s'.faulted ensures s'.Mtx(c).Valid() {
      assert s.Mtx(c).Valid();
      MutexStep(s, e, c);
    }
  }

  lemma {:induction false} InvAlways(trace: seq<Event>)
    requires After(trace).Some?
    ensures Inv(After(trace).value)
  {
    if trace != [] {
      InvAlways(trace[..|trace| - 1]);
      InvStep(After(trace[..|trace| - 1]).value, trace[|trace| - 1]);
    }
  }

  /** Conservation, over all runs: a thread holds a class's mutex as many times as it has locked frames and
      held LockApiGuards for it, less its effective UnlockApiGuards, less the locks its guards lost. */
  lemma DepthLaw(trace: seq<Event>, t: nat, c: nat)
    requires After(trace).Some? && !After(trace).value.faulted
    ensures var s := After(trace).value;
            s.Mtx(c).DepthOf(t) == Net(s.Scopes(t), c) - s.Lost(t, c)
  {
    InvAlways(trace);
    assert Balanced(After(trace).value, t, c);
  }

  /** When a guard closes, it takes the lock back exactly if it had given it up and no locked frame was
      entered inside it; it never locks what it did not unlock, and a lock is lost in exactly the
      remaining case. */
  lemma GuardTakesBackExactly(trace: seq<Event>, t: nat)
    requires After(trace).Some? && Enabled(After(trace).value, CloseGuard(t))
    ensures var s := After(trace).value;
            var s', guard := Do(s, CloseGuard(t)), s.Scopes(t)[0];
            && (s'.mutexes != s.mutexes <==> guard.unlocked && !guard.entered)
            && (s'.Lost(t, guard.cls) == s.Lost(t, guard.cls) + 1 <==> guard.unlocked && guard.entered)
  {
    InvAlways(trace);
    var s := After(trace).value;
    var s', guard := Do(s, CloseGuard(t)), s.Scopes(t)[0];
    assert FlagFits(s.Scopes(t), s.Flag(t));
    if s.Flag(t) {
      assert s'.Mtx(guard.cls) != s.Mtx(guard.cls);
    }
  }

  /** The thread is where this step locks the mutex of class c. */
  predicate Locks(s: State, e: Event, c: nat) {
    var stack := s.Scopes(e.t);
    var running := stack == [] || !stack[0].Frame? || stack[0].stage == Running;
    match e
    case Acquire(_) => stack != [] && stack[0] in {Frame(c, ApiWrapper, Entering), Frame(c, IarmHandler, Entering)}
    case OpenLock(_, d) => running && c == d
    case LockHeld(_, i) => running && i < |stack| && stack[i] == Held(c, false)
    case CloseGuard(t) => stack != [] && stack[0].Guard? && stack[0].cls == c && s.Flag(t)
    case _ => false
  }

  /** The mutex is recursive: a thread that comes to lock it goes on if and only if no other thread holds it,
      whether or not it holds it itself, and then holds it once more. */
  lemma LocksExactly(trace: seq<Event>, e: Event, c: nat)
    requires After(trace).Some? && !After(trace).value.faulted && Locks(After(trace).value, e, c)
    ensures var s := After(trace).value;
            && (Enabled(s, e) <==> forall t: nat :: t != e.t ==> s.Mtx(c).DepthOf(t) == 0)
            && (Enabled(s, e) ==> Do(s, e).Mtx(c).DepthOf(e.t) == s.Mtx(c).DepthOf(e.t) + 1)
  {
    InvAlways(trace);
    var s := After(trace).value;
    assert s.Mtx(c).Valid();
    if s.Mtx(c).owner.Some? && s.Mtx(c).owner.value != e.t {
      assert s.Mtx(c).DepthOf(s.Mtx(c).owner.value) > 0;
    }
  }

  /** The thread is where its code takes this step. */
  predicate Comes(s: State, e: Event) {
    var stack := s.Scopes(e.t);
    var running := stack == [] || !stack[0].Frame? || stack[0].stage == Running;
    match e
    case Enter(_, _, _) => running
    case Acquire(_) => stack != [] && stack[0].Frame? && stack[0].stage == Entering
    case Leave(_) => stack != [] && stack[0].Frame? && stack[0].stage == Running
    case Release(_) => stack != [] && stack[0].Frame? && stack[0].stage == Leaving
    case OpenGuard(_, _) => running
    case CloseGuard(_) => stack != [] && stack[0].Guard?
    case OpenLock(_, _) => running
    case UnlockHeld(_, i) => running && i < |stack| && stack[i] == Held(stack[i].cls, true)
    case LockHeld(_, i) => running && i < |stack| && stack[i] == Held(stack[i].cls, false)
    case CloseLock(_) => stack != [] && stack[0].Held?
  }

  /** In every run: a thread takes the step it has come to, and waits only to lock a mutex another thread holds. */
  lemma WaitsExactly(trace: seq<Event>, e: Event)
    requires After(trace).Some? && !After(trace).value.faulted
    ensures var s := After(trace).value;
            Enabled(s, e) <==>
            Comes(s, e) && forall c, t :: Locks(s, e, c) && t != e.t ==> s.Mtx(c).DepthOf(t) == 0
  {
    var s := After(trace).value;
    forall c | Locks(s, e, c)
      ensures Enabled(s, e) <==> forall t: nat :: t != e.t ==> s.Mtx(c).DepthOf(t) == 0
    {
      LocksExactly(trace, e, c);
    }
    if Comes(s, e) && !Enabled(s, e) {
      Blocked(s, e);
    }
  }

  /** A step the thread has come to and cannot take locks some mutex. */
  lemma Blocked(s: State, e: Event)
    requires !s.faulted && Comes(s, e) && !Enabled(s, e)
    ensures exists c :: Locks(s, e, c)
  {
    var stack := s.Scopes(e.t);
    match e
    case OpenLock(_, c) => assert Locks(s, e, c);
    case LockHeld(_, i) => assert Locks(s, e, stack[i].cls);
    case Acquire(_) =>
      assert stack[0] == Frame(stack[0].cls, stack[0].kind, stack[0].stage);
      assert stack[0].kind == ApiWrapper || stack[0].kind == IarmHandler;
      assert Locks(s, e, stack[0].cls);
    case CloseGuard(_) => assert Locks(s, e, stack[0].cls);
    case _ =>
  }

  predicate Unlocks(s: State, e: Event, c: nat) {
    var stack := s.Scopes(e.t);
    match e
    case OpenGuard(t, d) => c == d && s.Flag(t)
    case UnlockHeld(_, i) => i < |stack| && c == stack[i].cls
    case Release(_) => stack != [] && c == stack[0].cls
    case CloseLock(_) => stack != [] && c == stack[0].cls && stack[0].Held? && stack[0].locked
    case _ => false
  }

  lemma FaultMeansUnlock(s: State, e: Event)
    requires Enabled(s, e)
    ensures Do(s, e).faulted <==> exists c :: Unlocks(s, e, c) && s.Mtx(c).owner != Some(e.t)
  {
    var stack := s.Scopes(e.t);
    var c := match e
      case OpenGuard(_, d) => d
      case UnlockHeld(_, i) => stack[i].cls
      case _ => if stack != [] then stack[0].cls else 0;
    assert Do(s, e).faulted ==> Unlocks(s, e, c);
  }

  /** The step unlocks a mutex the thread has no claim on: that is when a run faults. */
  lemma FaultExactly(trace: seq<Event>, e: Event)
    requires After(trace).Some? && Enabled(After(trace).value, e)
    ensures var s := After(trace).value;
            Do(s, e).faulted <==>
            exists c :: Unlocks(s, e, c) && Net(s.Scopes(e.t), c) - s.Lost(e.t, c) <= 0
  {
    InvAlways(trace);
    var s := After(trace).value;
    FaultMeansUnlock(s, e);
    forall c | Unlocks(s, e, c)
      ensures s.Mtx(c).owner != Some(e.t) <==> Net(s.Scopes(e.t), c) - s.Lost(e.t, c) <= 0
    {
      assert Balanced(s, e.t, c) && s.Mtx(c).Valid();
    }
  }

  /** A thread that has left all its scopes without a fault never lost a lock. So once a guard has failed to take
      its lock back, the thread cannot finish: some unlock faults first. */
  lemma LostLockIsFatal(trace: seq<Event>, t: nat, c: nat)
    requires After(trace).Some? && !After(trace).value.faulted && After(trace).value.Scopes(t) == []
    ensures After(trace).value.Lost(t, c) == 0
  {
    DepthLaw(trace, t, c);
  }

  // ---------------------------------------------------------------------------------------------------
  // Frames, held locks and guards, counted
  // ---------------------------------------------------------------------------------------------------

  function Frames(stack: Stack, c: nat): nat {
    if stack == [] then 0
    else (if stack[0].Frame? && Weight(stack[0], c) == 1 then 1 else 0) + Frames(stack[1..], c)
  }

  function HeldLocks(stack: Stack, c: nat): nat {
    if stack == [] then 0
    else (if stack[0].Held? && Weight(stack[0], c) == 1 then 1 else 0) + HeldLocks(stack[1..], c)
  }

  function OpenGuards(stack: Stack, c: nat): nat {
    if stack == [] then 0
    else (if Weight(stack[0], c) == -1 then 1 else 0) + OpenGuards(stack[1..], c)
  }

  lemma {:induction false} NetCounts(stack: Stack, c: nat)
    ensures Net(stack, c) == Frames(stack, c) + HeldLocks(stack, c) - OpenGuards(stack, c)
  {
    if stack != [] {
      NetCounts(stack[1..], c);
    }
  }

  /** The thread runs a body of class c: it is in a locked frame of c and outside guard scopes for c. */
  predicate InBody(s: State, t: nat, c: nat) {
    Frames(s.Scopes(t), c) >= 1 && OpenGuards(s.Scopes(t), c) == 0
  }

  /** Over all runs, disciplined or not: as long as nothing has faulted, two threads in a body of the same class
      are one and the same, unless a guard of one of them failed to take its lock back. */
  lemma ExclusionUnlessLost(trace: seq<Event>, t: nat, u: nat, c: nat)
    requires After(trace).Some? && !After(trace).value.faulted
    requires InBody(After(trace).value, t, c) && InBody(After(trace).value, u, c)
    requires After(trace).value.Lost(t, c) == 0 && After(trace).value.Lost(u, c) == 0
    ensures t == u
  {
    DepthLaw(trace, t, c);
    DepthLaw(trace, u, c);
    NetCounts(After(trace).value.Scopes(t), c);
    NetCounts(After(trace).value.Scopes(u), c);
  }

  lemma Step(trace: seq<Event>, s: State, e: Event)
    requires After(trace) == Some(s) && Enabled(s, e)
    ensures After(trace + [e]) == Some(Do(s, e))
  {
    assert (trace + [e])[..|trace|] == trace;
  }
}
