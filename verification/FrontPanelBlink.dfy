/** What the front panel shows of a blink pattern, over whole runs of calls and ticks. */
module FrontPanelBlink {
  import opened Options
  import opened FrontPanelSpec

  /** Calls that do not cancel a running pattern, and ticks. */
  predicate Undisturbed(events: seq<Event>) {
    forall i :: 0 <= i < |events| ==> events[i].Tick? || events[i].SetPowerStatus? || events[i].Start?
  }

  predicate NoStart(events: seq<Event>) {
    Event.Start !in events
  }

  /** A run in which a pattern is set, whatever was done before. */
  function SetIn(s: Panel, before: seq<Event>, p: Pattern, n: int, after: seq<Event>, indicators: seq<string>): Panel {
    Run(s, before + [SetBlink(p, n)] + after, indicators)
  }

  lemma SetInIs(s: Panel, before: seq<Event>, p: Pattern, n: int, after: seq<Event>, indicators: seq<string>)
    ensures SetIn(s, before, p, n, after, indicators) ==
            Run(Blink(Run(s, before, indicators), p, n), after, indicators)
    ensures Run(s, before, indicators).started <==> StartedIn(s, before)
  {
    RunConcat(s, before + [SetBlink(p, n)], after, indicators);
    RunNext(s, before, SetBlink(p, n), indicators);
    StartedExactly(s, before, indicators);
  }

  predicate StartedIn(s: Panel, events: seq<Event>) {
    s.started || !NoStart(events)
  }

  lemma StartedStep(s: Panel, e: Event, indicators: seq<string>)
    ensures Step(s, e, indicators).started <==> s.started || e.Start?
  {
  }

  lemma {:induction false} StartedExactly(s: Panel, events: seq<Event>, indicators: seq<string>)
    ensures Run(s, events, indicators).started <==> StartedIn(s, events)
    decreases |events|
  {
    if events != [] {
      var init, e := events[..|events| - 1], events[|events| - 1];
      StartedExactly(s, init, indicators);
      StartedStep(Run(s, init, indicators), e, indicators);
      assert events == init + [e];
    }
  }

  function TickCount(events: seq<Event>): nat
    decreases |events|
  {
    if events == [] then 0
    else TickCount(events[..|events| - 1]) + if events[|events| - 1].Tick? then 1 else 0
  }

  /** k modulo n. */
  function Phase(k: nat, n: nat): (i: nat)
    requires n > 0
    ensures i < n
  {
    if k < n then k else Phase(k - n, n)
  }

  lemma {:induction false} PhaseNext(k: nat, n: nat)
    requires n > 0
    ensures Phase(k + 1, n) == Next(Phase(k, n), n)
  {
    if k >= n {
      PhaseNext(k - n, n);
    }
  }

  lemma {:induction false} RepeatIs(p: Pattern, n: nat, i: nat)
    requires p != [] && i < |Repeat(p, n)|
    ensures Repeat(p, n)[i] == p[Phase(i, |p|)]
  {
    if i >= |p| {
      RepeatIs(p, n - 1, i - |p|);
    }
  }

  lemma {:induction false} RepeatLength(p: Pattern, n: nat)
    ensures |Repeat(p, n)| == n * |p|
  {
    if n > 0 {
      RepeatLength(p, n - 1);
      assert n * |p| == |p| + (n - 1) * |p|;
    }
  }

  /** The first n steps of the endless repetition of p. */
  function Cyclic(p: Pattern, n: nat): (r: Pattern)
    requires p != []
    ensures |r| == n && forall i :: 0 <= i < n ==> r[i] == p[Phase(i, |p|)]
  {
    seq(n, i requires 0 <= i => p[Phase(i, |p|)])
  }

  lemma RepeatIsCyclic(p: Pattern, n: nat)
    requires p != []
    ensures Repeat(p, n) == Cyclic(p, n * |p|)
  {
    RepeatLength(p, n);
    forall i | 0 <= i < n * |p| ensures Repeat(p, n)[i] == Cyclic(p, n * |p|)[i] {
      RepeatIs(p, n, i);
    }
  }

  lemma {:induction false} PhaseOf(n: nat, m: nat, i: nat)
    requires i < m
    ensures Phase(n * m + i, m) == i
  {
    if n > 0 {
      PhaseOf(n - 1, m, i);
      assert n * m + i - m == (n - 1) * m + i && n * m >= m;
    }
  }

  function Min(a: int, b: int): int { if a <= b then a else b }

  lemma NextTaken(p: Pattern, k: nat)
    requires k < |p|
    ensures p[..k + 1] == p[..k] + [p[k]] && p[k..] != [] && p[k..][0] == p[k] && p[k..][1..] == p[k + 1..]
  {
  }

  /** A list of steps to come comes, one a tick, and then nothing more. */
  lemma {:induction false} StepsShown(s: Panel, p: Pattern, steps: Pattern, events: seq<Event>, indicators: seq<string>)
    requires s.plan == Active(p, Finite(steps)) && Undisturbed(events) && (s.started || NoStart(events))
    ensures var k, s' := TickCount(events), Run(s, events, indicators);
            && (s'.started <==> s.started)
            && (if k <= |steps| then s'.shown == s.shown + steps[..k] && s'.plan == Active(p, Finite(steps[k..]))
                else s'.shown == s.shown + steps && s'.plan.Idle?)
    decreases |events|
  {
    if events == [] {
      assert steps[..0] == [] && steps[0..] == steps;
    } else {
      var init, e := events[..|events| - 1], events[|events| - 1];
      StepsShown(s, p, steps, init, indicators);
      var k := TickCount(init);
      if e.Tick? && k < |steps| {
        NextTaken(steps, k);
      } else if e.Tick? && k == |steps| {
        assert steps[..k] == steps && steps[k..] == [];
      }
    }
  }

  /** A pattern with a repeat count: the first step is shown, the others are to come. */
  lemma BlinkIs(s: Panel, p: Pattern, n: nat)
    requires p != []
    ensures Blink(s, p, n) == s.(plan := Active(p, Finite(Cyclic(p, (n + 1) * |p|)[1..])), shown := s.shown + [p[0]])
    ensures (n + 1) * |p| > 0 && Cyclic(p, (n + 1) * |p|)[0] == p[0]
  {
    RepeatIsCyclic(p, n + 1);
    assert Repeat(p, n + 1) == p + Repeat(p, n);
    assert Repeat(p, n + 1)[1..] == p[1..] + Repeat(p, n);
  }

  lemma FiniteFromBlink(s: Panel, p: Pattern, n: nat, events: seq<Event>, indicators: seq<string>)
    requires p != [] && Undisturbed(events) && (s.started || NoStart(events))
    ensures var count, k, s' := (n + 1) * |p|, TickCount(events), Run(Blink(s, p, n), events, indicators);
            && (s'.started <==> s.started)
            && (if k < count then
                  s'.shown == s.shown + Cyclic(p, k + 1) && s'.plan == Active(p, Finite(Cyclic(p, count)[k + 1..]))
                else s'.shown == s.shown + Cyclic(p, count) && s'.plan == Idle)
  {
    BlinkIs(s, p, n);
    Total(s, p, Cyclic(p, (n + 1) * |p|), Blink(s, p, n), events, indicators);
    if TickCount(events) < (n + 1) * |p| {
      assert Cyclic(p, (n + 1) * |p|)[..TickCount(events) + 1] == Cyclic(p, TickCount(events) + 1);
    }
  }

  /** After every run, what was shown and what is still to come are the two parts of the repeated pattern. */
  lemma FiniteBlink(s: Panel, before: seq<Event>, p: Pattern, n: nat, events: seq<Event>, indicators: seq<string>)
    requires p != [] && Undisturbed(events) && (StartedIn(s, before) || NoStart(events))
    ensures var count, k := (n + 1) * |p|, TickCount(events);
            var earlier, s' := Run(s, before, indicators).shown, SetIn(s, before, p, n, events, indicators);
            if k < count then
              s'.shown == earlier + Cyclic(p, k + 1) && s'.plan == Active(p, Finite(Cyclic(p, count)[k + 1..]))
            else s'.shown == earlier + Cyclic(p, count) && s'.plan == Idle
  {
    SetInIs(s, before, p, n, events, indicators);
    FiniteFromBlink(Run(s, before, indicators), p, n, events, indicators);
  }

  /** An empty pattern shows nothing. */
  lemma EmptyPatternShowsNothing(s: Panel, before: seq<Event>, n: int, events: seq<Event>, indicators: seq<string>)
    requires NoSetBlink(events)
    ensures SetIn(s, before, [], n, events, indicators).shown == Run(s, before, indicators).shown
    ensures SetIn(s, before, [], n, events, indicators).plan.Idle?
  {
    SetInIs(s, before, [], n, events, indicators);
    IdleStaysIdle(Blink(Run(s, before, indicators), [], n), events, indicators);
  }

  /** The same for any list of steps the first of which has been shown. */
  lemma Total(s: Panel, p: Pattern, total: Pattern, s0: Panel, events: seq<Event>, indicators: seq<string>)
    requires total != [] && Undisturbed(events) && (s0.started || NoStart(events))
    requires s0.plan == Active(p, Finite(total[1..])) && s0.shown == s.shown + [total[0]]
    ensures var k, s' := TickCount(events), Run(s0, events, indicators);
            && (s'.started <==> s0.started)
            && (if k < |total| then s'.shown == s.shown + total[..k + 1] && s'.plan == Active(p, Finite(total[k + 1..]))
                else s'.shown == s.shown + total && s'.plan == Idle)
  {
    var k, steps := TickCount(events), total[1..];
    StepsShown(s0, p, steps, events, indicators);
    assert total == [total[0]] + steps;
    FirstAndRest(s.shown, total[0], steps, Min(k, |steps|));
    assert steps[..|steps|] == steps;
  }

  lemma FirstAndRest(shown: Pattern, first: BlinkStep, steps: Pattern, k: nat)
    requires k <= |steps|
    ensures shown + [first] + steps[..k] == shown + ([first] + steps)[..k + 1]
    ensures ([first] + steps)[k + 1..] == steps[k..]
    ensures ([first] + steps)[..|steps| + 1] == [first] + steps
  {
  }

  /** A pattern set with a repeat count of n shows the pattern n + 1 times over, step by step as the ticks come, and
      then nothing more. Calls that do not cancel make no difference to that, unless one of them is the first start. */
  lemma PatternShownExactly(s: Panel, before: seq<Event>, p: Pattern, n: nat, events: seq<Event>,
                            indicators: seq<string>)
    requires p != [] && Undisturbed(events) && (StartedIn(s, before) || NoStart(events))
    ensures var k, total, s' := TickCount(events), (n + 1) * |p|, SetIn(s, before, p, n, events, indicators);
            && s'.shown == Run(s, before, indicators).shown + Cyclic(p, Min(k + 1, total))
            && (s'.plan.Idle? <==> k >= total)
  {
    FiniteBlink(s, before, p, n, events, indicators);
    var k, total := TickCount(events), (n + 1) * |p|;
    if k < total {
      assert Min(k + 1, total) == k + 1;
    } else {
      assert Min(k + 1, total) == total;
    }
  }

  predicate EndsAs(shown: Pattern, p: Pattern) {
    shown != [] && p != [] && shown[|shown| - 1] == p[|p| - 1]
  }

  /** What stays on is the pattern's last step. */
  lemma LastStepStays(s: Panel, before: seq<Event>, p: Pattern, n: nat, events: seq<Event>, indicators: seq<string>)
    requires p != [] && Undisturbed(events) && (StartedIn(s, before) || NoStart(events))
    requires TickCount(events) + 1 >= (n + 1) * |p|
    ensures EndsAs(SetIn(s, before, p, n, events, indicators).shown, p)
  {
    PatternShownExactly(s, before, p, n, events, indicators);
    assert Min(TickCount(events) + 1, (n + 1) * |p|) == (n + 1) * |p|;
    FullEnds(Run(s, before, indicators).shown, p, n);
  }

  lemma FullEnds(shown: Pattern, p: Pattern, n: nat)
    requires p != []
    ensures EndsAs(shown + Cyclic(p, (n + 1) * |p|), p)
  {
    LastPhase(|p|, n);
  }

  lemma LastPhase(m: nat, n: nat)
    requires m > 0
    ensures (n + 1) * m > 0 && Phase((n + 1) * m - 1, m) == m - 1
  {
    PhaseOf(n, m, m - 1);
    assert (n + 1) * m - 1 == n * m + (m - 1);
  }

  lemma {:induction false} EndlessFromBlink(s: Panel, p: Pattern, n: int, events: seq<Event>,
                                            indicators: seq<string>)
    requires p != [] && n < 0 && Undisturbed(events) && (s.started || NoStart(events))
    ensures var k, s' := TickCount(events), Run(Blink(s, p, n), events, indicators);
            && (s'.started <==> s.started)
            && s'.plan == Active(p, Endless(Phase(k + 1, |p|))) && s'.shown == s.shown + Cyclic(p, k + 1)
    decreases |events|
  {
    if events == [] {
      EndlessStart(s, p, n);
    } else {
      var init, e := events[..|events| - 1], events[|events| - 1];
      EndlessFromBlink(s, p, n, init, indicators);
      var s1 := Run(Blink(s, p, n), init, indicators);
      assert Run(Blink(s, p, n), events, indicators) == Step(s1, e, indicators);
      if e.Tick? {
        EndlessTick(s1, s.shown, p, TickCount(init) + 1);
      } else {
        KeepsPlan(s1, e, indicators);
      }
    }
  }

  /** A pattern set with a negative repeat count never ends, unless the first start cuts it: after k ticks the first
      k + 1 steps of its endless repetition have been shown. */
  lemma EndlessPatternShown(s: Panel, before: seq<Event>, p: Pattern, n: int, events: seq<Event>,
                            indicators: seq<string>)
    requires p != [] && n < 0 && Undisturbed(events) && (StartedIn(s, before) || NoStart(events))
    ensures var k, s' := TickCount(events), SetIn(s, before, p, n, events, indicators);
            && s'.shown == Run(s, before, indicators).shown + Cyclic(p, k + 1)
            && s'.plan == Active(p, Endless(Phase(k + 1, |p|)))
  {
    SetInIs(s, before, p, n, events, indicators);
    EndlessFromBlink(Run(s, before, indicators), p, n, events, indicators);
  }

  lemma EndlessStart(s: Panel, p: Pattern, n: int)
    requires p != [] && n < 0
    ensures Blink(s, p, n).plan == Active(p, Endless(Phase(1, |p|)))
    ensures Blink(s, p, n).shown == s.shown + Cyclic(p, 1)
  {
    PhaseNext(0, |p|);
    assert Cyclic(p, 1) == [p[0]];
  }

  lemma EndlessTick(s: Panel, shown: Pattern, p: Pattern, k: nat)
    requires p != [] && s.plan == Active(p, Endless(Phase(k, |p|))) && s.shown == shown + Cyclic(p, k)
    ensures Ticked(s).plan == Active(p, Endless(Phase(k + 1, |p|)))
    ensures Ticked(s).shown == shown + Cyclic(p, k + 1)
  {
    PhaseNext(k, |p|);
  }

  lemma KeepsPlan(s: Panel, e: Event, indicators: seq<string>)
    requires e.SetPowerStatus? || (e.Start? && s.started)
    ensures var s' := Step(s, e, indicators);
            s'.plan == s.plan && s'.shown == s.shown && s'.started == s.started
  {
  }

  // ---- the first start under a running pattern ----

  /** Ticks before the first start. */
  function TicksBeforeStart(events: seq<Event>): Option<nat>
    decreases |events|
  {
    if events == [] then None
    else
      var init := events[..|events| - 1];
      var earlier := TicksBeforeStart(init);
      if earlier.Some? then earlier
      else if events[|events| - 1].Start? then Some(TickCount(init))
      else None
  }

  lemma {:induction false} AtFirstStart(events: seq<Event>) returns (before: seq<Event>, after: seq<Event>)
    requires !NoStart(events) && Undisturbed(events)
    ensures events == before + [Event.Start] + after
    ensures NoStart(before) && Undisturbed(before) && Undisturbed(after)
    ensures TicksBeforeStart(events) == Some(TickCount(before))
    ensures TickCount(events) == TickCount(before) + TickCount(after)
    decreases |events|
  {
    var init, e := events[..|events| - 1], events[|events| - 1];
    assert events == init + [e];
    NoStartNoTicks(init);
    if NoStart(init) {
      before, after := init, [];
      assert e == Event.Start;
      assert before + [Event.Start] + after == events;
    } else {
      var rest;
      before, rest := AtFirstStart(init);
      after := rest + [e];
      Appended(before + [Event.Start], rest, e);
    }
  }

  lemma Appended(first: seq<Event>, rest: seq<Event>, e: Event)
    ensures first + (rest + [e]) == first + rest + [e]
    ensures (rest + [e])[..|rest|] == rest && (rest + [e])[|rest|] == e
  {
  }

  lemma {:induction false} NoStartNoTicks(events: seq<Event>)
    ensures NoStart(events) <==> TicksBeforeStart(events).None?
    decreases |events|
  {
    if events != [] {
      NoStartNoTicks(events[..|events| - 1]);
      assert events == events[..|events| - 1] + [events[|events| - 1]];
    }
  }

  lemma Undisturbing(events: seq<Event>)
    requires Undisturbed(events)
    ensures NoSetBlink(events)
  {
  }

  lemma CutFromBlink(s: Panel, p: Pattern, n: int, first: seq<Event>, rest: seq<Event>, indicators: seq<string>)
    requires !s.started && p != [] && Undisturbed(first) && NoStart(first) && Undisturbed(rest)
    ensures var j, k := TickCount(first), TickCount(rest);
            var s' := Run(Blink(s, p, n), first + [Event.Start] + rest, indicators);
            if n >= 0 && j >= (n + 1) * |p| then
              s'.shown == s.shown + Cyclic(p, (n + 1) * |p|) && s'.plan.Idle?
            else
              && s'.shown == s.shown + Cyclic(p, j + 1) + p[1..][..Min(k, |p| - 1)]
              && (s'.plan.Idle? <==> k >= |p|)
              && (s'.plan.Active? ==> s'.plan.coming.Finite?)
  {
    var s1 := Run(Blink(s, p, n), first, indicators);
    RunConcat(Blink(s, p, n), first + [Event.Start], rest, indicators);
    RunNext(Blink(s, p, n), first, Event.Start, indicators);
    BeforeStart(s, p, n, first, indicators);
    AfterStart(s1, p, rest, indicators);
  }

  /** The first start resets the counters under a running pattern: what has been shown by then is followed by the
      pattern from its second step on, once, whatever the repeat count was. Only a pattern that was already over
      is not cut. */
  lemma FirstStartCuts(s: Panel, before: seq<Event>, p: Pattern, n: int, first: seq<Event>, rest: seq<Event>,
                       indicators: seq<string>)
    requires !StartedIn(s, before) && p != []
    requires Undisturbed(first) && NoStart(first) && Undisturbed(rest)
    ensures var j, k, earlier := TickCount(first), TickCount(rest), Run(s, before, indicators).shown;
            var s' := SetIn(s, before, p, n, first + [Event.Start] + rest, indicators);
            if n >= 0 && j >= (n + 1) * |p| then
              s'.shown == earlier + Cyclic(p, (n + 1) * |p|) && s'.plan.Idle?
            else
              && s'.shown == earlier + Cyclic(p, j + 1) + p[1..][..Min(k, |p| - 1)]
              && (s'.plan.Idle? <==> k >= |p|)
              && (s'.plan.Active? ==> s'.plan.coming.Finite?)
  {
    SetInIs(s, before, p, n, first + [Event.Start] + rest, indicators);
    CutFromBlink(Run(s, before, indicators), p, n, first, rest, indicators);
  }

  /** Up to the first start. */
  lemma BeforeStart(s: Panel, p: Pattern, n: int, before: seq<Event>, indicators: seq<string>)
    requires !s.started && p != [] && Undisturbed(before) && NoStart(before)
    ensures var j, s1 := TickCount(before), Run(Blink(s, p, n), before, indicators);
            && !s1.started
            && (if n >= 0 && j >= (n + 1) * |p| then
                  s1.shown == s.shown + Cyclic(p, (n + 1) * |p|) && s1.plan.Idle?
                else s1.shown == s.shown + Cyclic(p, j + 1) && s1.plan.Active? && s1.plan.pattern == p)
  {
    if n >= 0 {
      FiniteFromBlink(s, p, n, before, indicators);
    } else {
      EndlessFromBlink(s, p, n, before, indicators);
    }
  }

  /** And from it on. */
  lemma AfterStart(s: Panel, p: Pattern, after: seq<Event>, indicators: seq<string>)
    requires !s.started && (s.plan.Active? ==> p != [] && s.plan.pattern == p) && Undisturbed(after)
    ensures var k, s' := TickCount(after), Run(Started(s), after, indicators);
            if s.plan.Idle? then s'.shown == s.shown && s'.plan.Idle?
            else
              && s'.shown == s.shown + p[1..][..Min(k, |p| - 1)]
              && (s'.plan.Idle? <==> k >= |p|)
              && (s'.plan.Active? ==> s'.plan.coming.Finite?)
  {
    if s.plan.Idle? {
      Undisturbing(after);
      IdleStaysIdle(Started(s), after, indicators);
    } else {
      StepsShown(Started(s), p, p[1..], after, indicators);
      assert p[1..][..|p| - 1] == p[1..];
    }
  }

  lemma CutIsFullExactly(s: Panel, before: seq<Event>, p: Pattern, n: nat, first: seq<Event>, rest: seq<Event>,
                         indicators: seq<string>)
    requires !StartedIn(s, before) && p != []
    requires Undisturbed(first) && NoStart(first) && Undisturbed(rest)
    requires SetIn(s, before, p, n, first + [Event.Start] + rest, indicators).plan.Idle?
    ensures SetIn(s, before, p, n, first + [Event.Start] + rest, indicators).shown ==
            Run(s, before, indicators).shown + Cyclic(p, (n + 1) * |p|) <==>
            TickCount(first) >= (n + 1) * |p| || TickCount(first) == n * |p|
  {
    FirstStartCuts(s, before, p, n, first, rest, indicators);
    var j, total, earlier := TickCount(first), (n + 1) * |p|, Run(s, before, indicators).shown;
    if j < total {
      var shown := SetIn(s, before, p, n, first + [Event.Start] + rest, indicators).shown;
      assert shown == earlier + Cyclic(p, j + 1) + p[1..] by {
        assert Min(TickCount(rest), |p| - 1) == |p| - 1 && p[1..][..|p| - 1] == p[1..];
      }
      CutLength(earlier, p, n, j);
    }
  }

  /** Once the pattern is over, it was shown n + 1 times exactly if no first start came while it was running, or
      if that came just when its last repetition had begun. */
  lemma ShownInFullExactly(s: Panel, before: seq<Event>, p: Pattern, n: nat, events: seq<Event>,
                           indicators: seq<string>)
    requires p != [] && Undisturbed(events) && SetIn(s, before, p, n, events, indicators).plan.Idle?
    ensures SetIn(s, before, p, n, events, indicators).shown ==
            Run(s, before, indicators).shown + Repeat(p, n + 1) <==>
            var j := TicksBeforeStart(events);
            StartedIn(s, before) || j.None? || j.value >= (n + 1) * |p| || j.value == n * |p|
  {
    NoStartNoTicks(events);
    RepeatIsCyclic(p, n + 1);
    if StartedIn(s, before) || NoStart(events) {
      FiniteBlink(s, before, p, n, events, indicators);
    } else {
      var first, rest := AtFirstStart(events);
      CutIsFullExactly(s, before, p, n, first, rest, indicators);
    }
  }

  lemma CutLength(shown: Pattern, p: Pattern, n: nat, j: nat)
    requires p != []
    ensures shown + Cyclic(p, j + 1) + p[1..] == shown + Cyclic(p, (n + 1) * |p|) <==> j == n * |p|
  {
    assert (n + 1) * |p| == n * |p| + |p|;
    if j == n * |p| {
      LastRepetition(p, n);
      Regroup(shown, Cyclic(p, j + 1), p[1..]);
    } else {
      assert |shown + Cyclic(p, j + 1) + p[1..]| != |shown + Cyclic(p, (n + 1) * |p|)|;
    }
  }

  lemma Regroup(a: Pattern, b: Pattern, c: Pattern)
    ensures a + b + c == a + (b + c)
  {
  }

  /** When the last repetition has just begun, the rest of the pattern completes it. */
  lemma LastRepetition(p: Pattern, n: nat)
    requires p != []
    ensures Cyclic(p, n * |p| + 1) + p[1..] == Cyclic(p, (n + 1) * |p|)
  {
    assert (n + 1) * |p| == n * |p| + |p|;
    forall i: nat | i < |p| ensures AtPhase(n * |p|, |p|, i) {
      PhaseOf(n, |p|, i);
    }
    Completed(p, n * |p|);
  }

  predicate AtPhase(m: nat, n: nat, i: nat)
    requires n > 0
  {
    Phase(m + i, n) == i
  }

  lemma Completed(p: Pattern, m: nat)
    requires p != [] && forall i: nat :: i < |p| ==> AtPhase(m, |p|, i)
    ensures Cyclic(p, m + 1) + p[1..] == Cyclic(p, m + |p|)
  {
    var whole, parts := Cyclic(p, m + |p|), Cyclic(p, m + 1) + p[1..];
    forall i | 0 <= i < m + |p| ensures whole[i] == parts[i] {
      if i > m {
        assert AtPhase(m, |p|, i - m);
      }
    }
  }

  /** A pattern with a negative repeat count goes on for ever exactly if no first start comes. */
  lemma EndlessExactly(s: Panel, before: seq<Event>, p: Pattern, n: int, events: seq<Event>, indicators: seq<string>)
    requires p != [] && n < 0 && Undisturbed(events)
    ensures var plan := SetIn(s, before, p, n, events, indicators).plan;
            plan.Active? && plan.coming.Endless? <==> StartedIn(s, before) || NoStart(events)
  {
    if StartedIn(s, before) || NoStart(events) {
      EndlessPatternShown(s, before, p, n, events, indicators);
    } else {
      var first, rest := AtFirstStart(events);
      FirstStartCuts(s, before, p, n, first, rest, indicators);
    }
  }

  // ---- cancelling ----

  /** The calls that go through stopBlinkTimer. */
  predicate Cancels(e: Event) {
    e.SetBlink? || e.Stop? || e.SetLed? || e.SetBrightness? || e.PowerOnLed? || e.PowerOffLed?
  }

  /** The step is one of the pattern of one of these calls. */
  ghost predicate FromPatternOf(events: seq<Event>, step: BlinkStep) {
    exists i :: 0 <= i < |events| && events[i].SetBlink? && step in events[i].pattern
  }

  /** A cancelling call forgets the earlier plan. */
  lemma CancelForgets(s: Panel, before: seq<Event>, cancel: Event, after: seq<Event>, indicators: seq<string>)
    requires Cancels(cancel)
    ensures Run(s, before + [cancel] + after, indicators)
            == Run(Run(s, before, indicators).(plan := Idle), [cancel] + after, indicators)
  {
    var now := Run(s, before, indicators);
    RunConcat(s, before + [cancel], after, indicators);
    RunNext(s, before, cancel, indicators);
    RunConcat(now.(plan := Idle), [cancel], after, indicators);
    RunNext(now.(plan := Idle), [], cancel, indicators);
    assert [] + [cancel] == [cancel];
    assert Step(now, cancel, indicators) == Step(now.(plan := Idle), cancel, indicators);
  }

  /** What a plan can still show. */
  ghost predicate PlanFrom(plan: Plan, events: seq<Event>) {
    plan.Active? ==>
      && (forall step :: step in plan.pattern ==> FromPatternOf(events, step))
      && (plan.coming.Finite? ==> forall step :: step in plan.coming.steps ==> FromPatternOf(events, step))
  }

  ghost predicate ShownFrom(shown: Pattern, start: nat, events: seq<Event>) {
    forall i :: start <= i < |shown| ==> FromPatternOf(events, shown[i])
  }

  lemma {:induction false} RepeatFrom(p: Pattern, n: int, step: BlinkStep)
    requires step in Repeat(p, n)
    ensures step in p
    decreases n
  {
    if step !in p {
      RepeatFrom(p, n - 1, step);
    }
  }

  lemma FromLonger(events: seq<Event>, e: Event, step: BlinkStep)
    requires FromPatternOf(events, step)
    ensures FromPatternOf(events + [e], step)
  {
    var i :| 0 <= i < |events| && events[i].SetBlink? && step in events[i].pattern;
    assert (events + [e])[i] == events[i];
  }

  lemma FromLast(events: seq<Event>, e: Event, step: BlinkStep)
    requires e.SetBlink? && step in e.pattern
    ensures FromPatternOf(events + [e], step)
  {
    assert (events + [e])[|events|] == e;
  }

  lemma BlinkFrom(s: Panel, p: Pattern, n: int, start: nat, events: seq<Event>)
    requires ShownFrom(s.shown, start, events) && start <= |s.shown|
    requires forall step :: step in p ==> FromPatternOf(events, step)
    ensures var s' := Blink(s, p, n);
            PlanFrom(s'.plan, events) && ShownFrom(s'.shown, start, events) && s.shown <= s'.shown
  {
    forall step | step in Repeat(p, n) ensures step in p {
      RepeatFrom(p, n, step);
    }
    assert p != [] ==> p[0] in p;
  }

  lemma TickedFrom(s: Panel, start: nat, events: seq<Event>)
    requires PlanFrom(s.plan, events) && ShownFrom(s.shown, start, events) && start <= |s.shown|
    ensures var s' := Ticked(s);
            PlanFrom(s'.plan, events) && ShownFrom(s'.shown, start, events) && s.shown <= s'.shown
  {
    if s.plan.Active? && s.plan.coming.Finite? && s.plan.coming.steps != [] {
      assert s.plan.coming.steps[0] in s.plan.coming.steps;
    }
  }

  lemma CallFrom(s: Panel, e: Event, events: seq<Event>, indicators: seq<string>)
    requires PlanFrom(s.plan, events) && !e.SetBlink? && !e.Tick?
    ensures var s' := Step(s, e, indicators);
            PlanFrom(s'.plan, events) && s'.shown == s.shown
  {
  }

  lemma FromMore(s: Panel, start: nat, events: seq<Event>, e: Event)
    requires PlanFrom(s.plan, events) && ShownFrom(s.shown, start, events)
    ensures PlanFrom(s.plan, events + [e]) && ShownFrom(s.shown, start, events + [e])
  {
    forall step | FromPatternOf(events, step) ensures FromPatternOf(events + [e], step) {
      FromLonger(events, e, step);
    }
  }

  lemma ShownFromStep(s: Panel, start: nat, events: seq<Event>, e: Event, indicators: seq<string>)
    requires PlanFrom(s.plan, events) && ShownFrom(s.shown, start, events) && start <= |s.shown|
    ensures var s' := Step(s, e, indicators);
            && PlanFrom(s'.plan, events + [e]) && ShownFrom(s'.shown, start, events + [e])
            && s.shown <= s'.shown
  {
    FromMore(s, start, events, e);
    if e.SetBlink? {
      forall step | step in e.pattern ensures FromPatternOf(events + [e], step) {
        FromLast(events, e, step);
      }
      BlinkFrom(s, e.pattern, e.iterations, start, events + [e]);
    } else if e.Tick? {
      TickedFrom(s, start, events + [e]);
    } else {
      CallFrom(s, e, events + [e], indicators);
    }
  }

  lemma {:induction false} ShownFromEvents(s: Panel, events: seq<Event>, indicators: seq<string>)
    requires s.plan.Idle?
    ensures var s' := Run(s, events, indicators);
            PlanFrom(s'.plan, events) && ShownFrom(s'.shown, |s.shown|, events) && s.shown <= s'.shown
    decreases |events|
  {
    if events != [] {
      var init, e := events[..|events| - 1], events[|events| - 1];
      ShownFromEvents(s, init, indicators);
      RunNext(s, init, e, indicators);
      assert init + [e] == events;
      ShownFromStep(Run(s, init, indicators), |s.shown|, init, e, indicators);
    }
  }

  /** In any run, whatever comes before and after: every step shown after a call that goes through stopBlinkTimer
      belongs to a pattern set by that call or later. */
  lemma ShownAfterCancel(s: Panel, before: seq<Event>, cancel: Event, after: seq<Event>, indicators: seq<string>)
    requires Cancels(cancel)
    ensures var shown, shown' := Run(s, before, indicators).shown, Run(s, before + [cancel] + after, indicators).shown;
            && shown <= shown'
            && forall i :: |shown| <= i < |shown'| ==> FromPatternOf([cancel] + after, shown'[i])
  {
    CancelForgets(s, before, cancel, after, indicators);
    ShownFromEvents(Run(s, before, indicators).(plan := Idle), [cancel] + after, indicators);
  }

  predicate NoSetBlink(events: seq<Event>) {
    forall i :: 0 <= i < |events| ==> !events[i].SetBlink?
  }

  lemma {:induction false} IdleStaysIdle(s: Panel, events: seq<Event>, indicators: seq<string>)
    requires s.plan.Idle? && NoSetBlink(events)
    ensures Run(s, events, indicators).plan.Idle? && Run(s, events, indicators).shown == s.shown
    decreases |events|
  {
    if events != [] {
      IdleStaysIdle(s, events[..|events| - 1], indicators);
      assert !events[|events| - 1].SetBlink?;
    }
  }

  /** With no pattern set by the call or later, nothing is shown any more. */
  lemma NothingShownAfterCancel(s: Panel, before: seq<Event>, cancel: Event, after: seq<Event>, indicators: seq<string>)
    requires Cancels(cancel) && NoSetBlink([cancel] + after)
    ensures Run(s, before + [cancel] + after, indicators).shown == Run(s, before, indicators).shown
  {
    CancelForgets(s, before, cancel, after, indicators);
    IdleStaysIdle(Run(s, before, indicators).(plan := Idle), [cancel] + after, indicators);
  }
}
