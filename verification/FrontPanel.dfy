/** CFrontPanel (helpers/frontpanel.cpp) with its file-scope statics, the blink timer's queue and the LEDs. Each
    method is one step of FrontPanelSpec: the counters of the blink timer are just a way of keeping the plan. */
module FrontPanel {
  import opened FrontPanelSpec
  import opened FrontPanelBlink

  /** What is still to be shown of a pattern when position i is showing. */
  function ComingAt(p: Pattern, i: nat, blinks: int, maxRepeats: int): Coming
    requires i < |p|
  {
    if maxRepeats < 0 then Endless(Next(i, |p|)) else Finite(p[i + 1..] + Repeat(p, maxRepeats - blinks))
  }

  class CFrontPanel {
    var isBlinking: bool
    var blinkList: Pattern
    var currentBlinkListIndex: int
    var numberOfBlinks: int
    var maxNumberOfBlinkRepeats: int
    var started: bool
    var powerStatus: bool
    var isMessageLedOn: bool
    var isRecordLedOn: bool

    /** The jobs of this panel in the timer's queue, what the LEDs were set to, and the LEDs that are on. */
    var pending: nat
    var shown: Pattern
    var lit: set<string>

    const fpIndicators: seq<string>

    /** At most one job is pending, and then there is a pattern and the position in it is in range. */
    ghost predicate Valid()
      reads this
    {
      && pending <= 1
      && (pending == 1 ==>
            && isBlinking && 0 <= currentBlinkListIndex < |blinkList|
            && (maxNumberOfBlinkRepeats >= 0 ==> 0 <= numberOfBlinks <= maxNumberOfBlinkRepeats))
    }

    ghost function PlanNow(): Plan
      reads this
      requires Valid()
    {
      if pending == 0 then Idle
      else Active(blinkList, ComingAt(blinkList, currentBlinkListIndex, numberOfBlinks, maxNumberOfBlinkRepeats))
    }

    ghost function View(): Panel
      reads this
      requires Valid()
    {
      Panel(started, PlanNow(), shown, powerStatus, isMessageLedOn, isRecordLedOn, lit)
    }

    constructor (fpIndicators: seq<string>, powerStatus: bool)
      ensures Valid() && this.fpIndicators == fpIndicators
      ensures View() == Panel(false, Idle, [], powerStatus, false, false, {}) && ShadowsHold(View())
    {
      this.fpIndicators, this.powerStatus := fpIndicators, powerStatus;
      isBlinking, blinkList, pending, shown, lit := false, [], 0, [], {};
      currentBlinkListIndex, numberOfBlinks, maxNumberOfBlinkRepeats := 0, 0, 0;
      started, isMessageLedOn, isRecordLedOn := false, false, false;
    }

    method Start()
      requires Valid()
      modifies this
      ensures Valid() && View() == Step(old(View()), Event.Start, fpIndicators)
    {
      if powerStatus {
        SetState("Power", true);
      }
      if !started {
        numberOfBlinks := 0;
        maxNumberOfBlinkRepeats := 0;
        currentBlinkListIndex := 0;
        started := true;
        assert pending == 1 ==> blinkList[1..] + Repeat(blinkList, 0) == blinkList[1..];
      }
    }

    /** Revoke takes every job of this panel out of the queue. */
    method StopBlinkTimer()
      modifies this`isBlinking, this`pending
      ensures Valid() && PlanNow() == Idle && !isBlinking && pending == 0
    {
      isBlinking := false;
      pending := 0;
    }

    method Stop()
      requires Valid()
      modifies this
      ensures Valid() && View() == Step(old(View()), Event.Stop, fpIndicators)
    {
      StopBlinkTimer();
    }

    method SetBlinkLed(blinkInfo: BlinkStep)
      modifies this`shown
      ensures shown == old(shown) + [blinkInfo]
    {
      shown := shown + [blinkInfo];
    }

    /** Shows a step and, while blinking, schedules the next tick. */
    method ShowAndSchedule(blinkInfo: BlinkStep)
      modifies this`shown, this`pending
      ensures shown == old(shown) + [blinkInfo]
      ensures pending == old(pending) + if isBlinking then 1 else 0
    {
      SetBlinkLed(blinkInfo);
      if isBlinking {
        pending := pending + 1;
      }
    }

    method StartBlinkTimer(numberOfBlinkRepeats: int)
      requires Valid()
      modifies this
      ensures Valid() && View() == Blink(old(View()), old(blinkList), numberOfBlinkRepeats)
      ensures blinkList == old(blinkList) && maxNumberOfBlinkRepeats == numberOfBlinkRepeats && numberOfBlinks == 0
      ensures blinkList != [] ==> pending == 1 && shown == old(shown) + [blinkList[0]]
      ensures blinkList == [] ==> pending == 0 && shown == old(shown)
    {
      StopBlinkTimer();
      numberOfBlinks := 0;
      isBlinking := true;
      maxNumberOfBlinkRepeats := numberOfBlinkRepeats;
      currentBlinkListIndex := 0;
      if |blinkList| > 0 {
        ShowAndSchedule(blinkList[0]);
      }
    }

    /** setBlink, with the pattern already read from the JSON object. */
    method SetBlink(pattern: Pattern, iterations: int)
      requires Valid()
      modifies this
      ensures Valid() && View() == Step(old(View()), Event.SetBlink(pattern, iterations), fpIndicators)
      ensures blinkList == pattern && maxNumberOfBlinkRepeats == iterations && numberOfBlinks == 0
      ensures pattern != [] ==> pending == 1 && shown == old(shown) + [pattern[0]]
      ensures pattern == [] ==> pending == 0 && shown == old(shown)
    {
      StopBlinkTimer();
      blinkList := pattern;
      StartBlinkTimer(iterations);
    }

    /** The timer takes the pending job out of its queue and runs it. */
    method OnBlinkTimer()
      requires Valid() && pending == 1
      modifies this`pending, this`shown, this`currentBlinkListIndex, this`numberOfBlinks
      ensures Valid() && View() == Ticked(old(View()))
    {
      TickedAt(View(), blinkList, currentBlinkListIndex, numberOfBlinks, maxNumberOfBlinkRepeats);
      pending := 0;
      var blinkAgain := Advance();
      if blinkAgain {
        ShowAndSchedule(blinkList[currentBlinkListIndex]);
      }
    }

    /** Moves on to the next position, or to the next repeat if there is one left. */
    method Advance() returns (blinkAgain: bool)
      requires 0 <= currentBlinkListIndex < |blinkList|
      modifies this`currentBlinkListIndex, this`numberOfBlinks
      ensures old(currentBlinkListIndex) + 1 < |blinkList| ==>
                blinkAgain && currentBlinkListIndex == old(currentBlinkListIndex) + 1
                && numberOfBlinks == old(numberOfBlinks)
      ensures old(currentBlinkListIndex) + 1 >= |blinkList| ==>
                currentBlinkListIndex == 0 && numberOfBlinks == old(numberOfBlinks) + 1
                && (blinkAgain <==> maxNumberOfBlinkRepeats < 0 || numberOfBlinks <= maxNumberOfBlinkRepeats)
    {
      currentBlinkListIndex := currentBlinkListIndex + 1;
      blinkAgain := true;
      if currentBlinkListIndex >= |blinkList| {
        blinkAgain := false;
        currentBlinkListIndex := 0;
        numberOfBlinks := numberOfBlinks + 1;
        if maxNumberOfBlinkRepeats < 0 || numberOfBlinks <= maxNumberOfBlinkRepeats {
          blinkAgain := true;
        }
      }
    }

    method SetState(name: string, on: bool)
      modifies this`lit
      ensures lit == if on then old(lit) + {name} else old(lit) - {name}
    {
      lit := if on then lit + {name} else lit - {name};
    }

    method SetPowerStatus(on: bool)
      requires Valid()
      modifies this
      ensures Valid() && View() == Step(old(View()), Event.SetPowerStatus(on), fpIndicators)
    {
      powerStatus := on;
    }

    /** setLED changes colour and brightness only. */
    method SetLed()
      requires Valid()
      modifies this
      ensures Valid() && View() == Step(old(View()), Event.SetLed, fpIndicators)
    {
      StopBlinkTimer();
    }

    method SetBrightness()
      requires Valid()
      modifies this
      ensures Valid() && View() == Step(old(View()), Event.SetBrightness, fpIndicators)
    {
      StopBlinkTimer();
      PowerOnLed(All);
    }

    /** Power, and the LEDs with a shadow flag as that says. */
    method PowerOnAll()
      modifies this`lit
      ensures lit == old(lit) + (if isMessageLedOn then {"Message"} else {})
                     + (if isRecordLedOn then {"Record"} else {}) + {"Power"}
    {
      if isMessageLedOn {
        SetState("Message", true);
      }
      if isRecordLedOn {
        SetState("Record", true);
      }
      SetState("Power", true);
    }

    method PowerOnLed(indicator: Indicator)
      requires Valid()
      modifies this
      ensures Valid() && View() == Step(old(View()), Event.PowerOnLed(indicator), fpIndicators)
    {
      StopBlinkTimer();
      if powerStatus {
        match indicator
        case Message =>
          isMessageLedOn := true;
          SetState("Message", true);
        case Record =>
          isRecordLedOn := true;
          SetState("Record", true);
        case Remote => SetState("Remote", true);
        case RfByPass => SetState("RfByPass", true);
        case All => PowerOnAll();
        case Power => SetState("Power", true);
        case Clock =>
      }
    }

    method PowerOffLed(indicator: Indicator)
      requires Valid()
      modifies this
      ensures Valid() && View() == Step(old(View()), Event.PowerOffLed(indicator), fpIndicators)
    {
      StopBlinkTimer();
      match indicator
      case Message =>
        isMessageLedOn := false;
        SetState("Message", false);
      case Record =>
        isRecordLedOn := false;
        SetState("Record", false);
      case Remote => SetState("Remote", false);
      case RfByPass => SetState("RfByPass", false);
      case All =>
        var i := 0;
        while i < |fpIndicators|
          invariant 0 <= i <= |fpIndicators| && pending == 0
          invariant lit == old(lit) - set name | name in fpIndicators[..i]
          modifies this`lit
        {
          SetState(fpIndicators[i], false);
          assert fpIndicators[..i + 1] == fpIndicators[..i] + [fpIndicators[i]];
          i := i + 1;
        }
        assert fpIndicators[..i] == fpIndicators;
      case Power => SetState("Power", false);
      case Clock =>
    }
  }

  /** The steps to come after position i with m repeats left. */
  lemma StepsNext(p: Pattern, i: nat, m: int)
    requires i < |p|
    ensures m >= 0 ==>
              var steps := p[i + 1..] + Repeat(p, m);
              if i + 1 < |p| then
                steps != [] && steps[0] == p[i + 1] && steps[1..] == p[i + 2..] + Repeat(p, m)
              else if m > 0 then
                steps != [] && steps[0] == p[0] && steps[1..] == p[1..] + Repeat(p, m - 1)
              else steps == []
  {
  }

  /** A tick at position i, in the order the handler decides. */
  lemma TickedAt(s: Panel, p: Pattern, i: nat, blinks: int, maxRepeats: int)
    requires i < |p| && s.plan == Active(p, ComingAt(p, i, blinks, maxRepeats))
    ensures i + 1 < |p| ==>
              Ticked(s) == s.(plan := Active(p, ComingAt(p, i + 1, blinks, maxRepeats)),
                              shown := s.shown + [p[i + 1]])
    ensures i + 1 == |p| && (maxRepeats < 0 || blinks + 1 <= maxRepeats) ==>
              Ticked(s) == s.(plan := Active(p, ComingAt(p, 0, blinks + 1, maxRepeats)), shown := s.shown + [p[0]])
    ensures i + 1 == |p| && 0 <= maxRepeats <= blinks ==> Ticked(s) == s.(plan := Idle)
  {
    if maxRepeats >= 0 && blinks <= maxRepeats {
      StepsNext(p, i, maxRepeats - blinks);
    } else if maxRepeats >= 0 {
      StepsNext(p, i, 0);
    }
  }

  /** One call or tick; a tick comes only if a job is pending. */
  method Take(panel: CFrontPanel, e: Event)
    requires panel.Valid()
    modifies panel
    ensures panel.Valid() && panel.View() == Step(old(panel.View()), e, panel.fpIndicators)
  {
    match e {
      case SetBlink(pattern, iterations) => panel.SetBlink(pattern, iterations);
      case Tick =>
        if panel.pending > 0 {
          panel.OnBlinkTimer();
        }
      case Start => panel.Start();
      case Stop => panel.Stop();
      case SetBrightness => panel.SetBrightness();
      case SetLed => panel.SetLed();
      case PowerOnLed(indicator) => panel.PowerOnLed(indicator);
      case PowerOffLed(indicator) => panel.PowerOffLed(indicator);
      case SetPowerStatus(on) => panel.SetPowerStatus(on);
    }
  }

  /** Any run of calls and ticks on the object does what the specification says of that run. */
  method RunAll(panel: CFrontPanel, events: seq<Event>)
    requires panel.Valid()
    modifies panel
    ensures panel.Valid() && panel.View() == Run(old(panel.View()), events, panel.fpIndicators)
  {
    var i := 0;
    while i < |events|
      invariant 0 <= i <= |events| && panel.Valid()
      invariant panel.View() == Run(old(panel.View()), events[..i], panel.fpIndicators)
    {
      RunNext(old(panel.View()), events[..i], events[i], panel.fpIndicators);
      assert events[..i + 1] == events[..i] + [events[i]];
      Take(panel, events[i]);
      i := i + 1;
    }
    assert events[..i] == events;
  }

  function Ticks(k: nat): seq<Event> {
    seq(k, _ => Tick)
  }

  lemma {:induction false} TicksCounted(k: nat)
    ensures TickCount(Ticks(k)) == k && Undisturbed(Ticks(k)) && NoStart(Ticks(k))
  {
    if k > 0 {
      assert Ticks(k)[..k - 1] == Ticks(k - 1);
      TicksCounted(k - 1);
    }
  }

  /** What the LEDs show of a pattern set now, k timer ticks later: it is gone through once and then `iterations` times
      more, or for ever if that is negative. */
  method BlinkFor(panel: CFrontPanel, pattern: Pattern, iterations: int, k: nat)
    requires panel.Valid() && pattern != []
    modifies panel
    ensures panel.Valid()
    ensures panel.shown == old(panel.shown) +
              Cyclic(pattern, if iterations < 0 then k + 1 else Min(k + 1, (iterations + 1) * |pattern|))
    ensures panel.pending == if iterations < 0 || k < (iterations + 1) * |pattern| then 1 else 0
  {
    ghost var s, events := panel.View(), [SetBlink(pattern, iterations)] + Ticks(k);
    RunAll(panel, [SetBlink(pattern, iterations)] + Ticks(k));
    TicksCounted(k);
    assert [] + [SetBlink(pattern, iterations)] + Ticks(k) == events;
    assert Run(s, [], panel.fpIndicators) == s;
    if iterations < 0 {
      EndlessPatternShown(s, [], pattern, iterations, Ticks(k), panel.fpIndicators);
    } else {
      PatternShownExactly(s, [], pattern, iterations, Ticks(k), panel.fpIndicators);
    }
  }
}
