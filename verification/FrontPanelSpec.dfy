/** What the front panel is to show, over whole runs of calls and timer ticks: the specification CFrontPanel
    (module FrontPanel) is proved against. */
module FrontPanelSpec {

  /** One step of a blink pattern. */
  datatype BlinkStep = BlinkStep(ledIndicator: string, colorName: string, colorValue: nat, brightness: int,
                                 durationInMs: int, colorMode: int)

  type Pattern = seq<BlinkStep>

  datatype Indicator = Clock | Message | Power | Record | Remote | RfByPass | All

  /** The blink steps still to come: a list of them, or the pattern round and round from a position on. */
  datatype Coming = Finite(steps: Pattern) | Endless(at: nat)

  /** Idle: no timer job is pending. */
  datatype Plan = Idle | Active(pattern: Pattern, coming: Coming)

  /** `shown`: every step put on a LED so far. `lit`: the LEDs switched on, by name. */
  datatype Panel = Panel(started: bool, plan: Plan, shown: Pattern,
                         powerStatus: bool, isMessageLedOn: bool, isRecordLedOn: bool, lit: set<string>)

  datatype Event =
    | SetBlink(pattern: Pattern, iterations: int)
    | Tick
    | Start
    | Stop
    | SetBrightness
    | SetLed
    | PowerOnLed(indicator: Indicator)
    | PowerOffLed(indicator: Indicator)
    | SetPowerStatus(on: bool)

  function Repeat(p: Pattern, n: int): Pattern
    decreases n
  {
    if n <= 0 then [] else p + Repeat(p, n - 1)
  }

  /** The position after i in a list of n, going round. */
  function Next(i: nat, n: nat): nat {
    if i + 1 >= n then 0 else i + 1
  }

  // ---- blinking ----

  /** startBlinkTimer: the first step is shown at once. */
  function Blink(s: Panel, p: Pattern, iterations: int): Panel {
    if p == [] then s.(plan := Idle)
    else
      var coming := if iterations < 0 then Endless(Next(0, |p|)) else Finite(p[1..] + Repeat(p, iterations));
      s.(plan := Active(p, coming), shown := s.shown + [p[0]])
  }

  /** A pending timer job comes due. */
  function Ticked(s: Panel): Panel {
    match s.plan
    case Idle => s
    case Active(p, Finite(steps)) =>
      if steps == [] then s.(plan := Idle)
      else s.(plan := Active(p, Finite(steps[1..])), shown := s.shown + [steps[0]])
    case Active(p, Endless(at)) =>
      if at >= |p| then s
      else s.(plan := Active(p, Endless(Next(at, |p|))), shown := s.shown + [p[at]])
  }

  /** start() switches the Power LED on, and the first time it also resets the counters: the rest of a running
      pattern is then shown once. */
  function Started(s: Panel): Panel {
    var plan := if s.started || s.plan.Idle? || s.plan.pattern == [] then s.plan
                else Active(s.plan.pattern, Finite(s.plan.pattern[1..]));
    s.(started := true, plan := plan, lit := if s.powerStatus then s.lit + {"Power"} else s.lit)
  }

  // ---- LEDs ----

  function LedName(indicator: Indicator): string {
    match indicator
    case Message => "Message"
    case Record => "Record"
    case Remote => "Remote"
    case RfByPass => "RfByPass"
    case _ => "Power"
  }

  function PoweredOn(s: Panel, indicator: Indicator): Panel {
    if !s.powerStatus || indicator.Clock? then s
    else match indicator
      case Message => s.(isMessageLedOn := true, lit := s.lit + {"Message"})
      case Record => s.(isRecordLedOn := true, lit := s.lit + {"Record"})
      case All =>
        s.(lit := s.lit + (if s.isMessageLedOn then {"Message"} else {})
                  + (if s.isRecordLedOn then {"Record"} else {}) + {"Power"})
      case _ => s.(lit := s.lit + {LedName(indicator)})
  }

  function PoweredOff(s: Panel, indicator: Indicator, indicators: seq<string>): Panel {
    match indicator
    case Clock => s
    case Message => s.(isMessageLedOn := false, lit := s.lit - {"Message"})
    case Record => s.(isRecordLedOn := false, lit := s.lit - {"Record"})
    case All => s.(lit := s.lit - set name | name in indicators)
    case _ => s.(lit := s.lit - {LedName(indicator)})
  }

  /** One call or tick. `indicators` names the LEDs the device has. */
  function Step(s: Panel, e: Event, indicators: seq<string>): Panel {
    match e
    case SetBlink(p, n) => Blink(s, p, n)
    case Tick => Ticked(s)
    case Start => Started(s)
    case Stop => s.(plan := Idle)
    case SetLed => s.(plan := Idle)
    case SetBrightness => PoweredOn(s.(plan := Idle), All)
    case PowerOnLed(i) => PoweredOn(s.(plan := Idle), i)
    case PowerOffLed(i) => PoweredOff(s.(plan := Idle), i, indicators)
    case SetPowerStatus(on) => s.(powerStatus := on)
  }

  function Run(s: Panel, events: seq<Event>, indicators: seq<string>): Panel
    decreases |events|
  {
    if events == [] then s
    else Step(Run(s, events[..|events| - 1], indicators), events[|events| - 1], indicators)
  }

  lemma RunNext(s: Panel, events: seq<Event>, e: Event, indicators: seq<string>)
    ensures Run(s, events + [e], indicators) == Step(Run(s, events, indicators), e, indicators)
  {
    assert (events + [e])[..|events|] == events;
  }

  lemma LastOff(first: seq<Event>, second: seq<Event>)
    requires second != []
    ensures var init, e := second[..|second| - 1], second[|second| - 1];
            first + second == first + init + [e] && second == init + [e]
  {
  }

  lemma {:induction false} RunConcat(s: Panel, first: seq<Event>, second: seq<Event>, indicators: seq<string>)
    ensures Run(s, first + second, indicators) == Run(Run(s, first, indicators), second, indicators)
    decreases |second|
  {
    if second == [] {
      assert first + second == first;
    } else {
      var init, e := second[..|second| - 1], second[|second| - 1];
      RunConcat(s, first, init, indicators);
      RunNext(s, first + init, e, indicators);
      RunNext(Run(s, first, indicators), init, e, indicators);
      LastOff(first, second);
    }
  }

  // ---- LEDs over whole runs ----

  function PowerAfter(initial: bool, events: seq<Event>): bool
    decreases |events|
  {
    if events == [] then initial
    else match events[|events| - 1]
      case SetPowerStatus(on) => on
      case _ => PowerAfter(initial, events[..|events| - 1])
  }

  /** Whether the last command for this one LED that took effect switched it on; `initial` if there was none. Switching
      on takes effect only while the power status is true. */
  function LastCommand(initial: bool, power: bool, events: seq<Event>, led: Indicator): bool
    decreases |events|
  {
    if events == [] then initial
    else
      var rest := events[..|events| - 1];
      match events[|events| - 1]
      case PowerOnLed(i) => if i == led && PowerAfter(power, rest) then true else LastCommand(initial, power, rest, led)
      case PowerOffLed(i) => if i == led then false else LastCommand(initial, power, rest, led)
      case _ => LastCommand(initial, power, rest, led)
  }

  /** A lit Message or Record LED implies its shadow flag. */
  predicate ShadowsHold(s: Panel) {
    ("Message" in s.lit ==> s.isMessageLedOn) && ("Record" in s.lit ==> s.isRecordLedOn)
  }

  lemma ShadowStep(s: Panel, e: Event, indicators: seq<string>)
    requires ShadowsHold(s)
    ensures ShadowsHold(Step(s, e, indicators))
  {
  }

  lemma FlagStep(s: Panel, e: Event, indicators: seq<string>)
    ensures var s' := Step(s, e, indicators);
            && s'.powerStatus == (if e.SetPowerStatus? then e.on else s.powerStatus)
            && s'.isMessageLedOn == (if e == PowerOnLed(Message) && s.powerStatus then true
                                     else e != PowerOffLed(Message) && s.isMessageLedOn)
            && s'.isRecordLedOn == (if e == PowerOnLed(Record) && s.powerStatus then true
                                    else e != PowerOffLed(Record) && s.isRecordLedOn)
  {
  }

  lemma {:induction false} FlagsTrack(s: Panel, events: seq<Event>, indicators: seq<string>)
    ensures Run(s, events, indicators).powerStatus == PowerAfter(s.powerStatus, events)
    ensures Run(s, events, indicators).isMessageLedOn == LastCommand(s.isMessageLedOn, s.powerStatus, events, Message)
    ensures Run(s, events, indicators).isRecordLedOn == LastCommand(s.isRecordLedOn, s.powerStatus, events, Record)
    decreases |events|
  {
    if events != [] {
      var init, e := events[..|events| - 1], events[|events| - 1];
      FlagsTrack(s, init, indicators);
      RunNext(s, init, e, indicators);
      assert init + [e] == events;
      FlagStep(Run(s, init, indicators), e, indicators);
    }
  }

  /** A LED that is on was last commanded on, if it is one with a shadow flag; the flag is the last command. */
  lemma {:induction false} ShadowsTrack(s: Panel, events: seq<Event>, indicators: seq<string>)
    requires ShadowsHold(s)
    ensures var s' := Run(s, events, indicators);
            && s'.isMessageLedOn == LastCommand(s.isMessageLedOn, s.powerStatus, events, Message)
            && s'.isRecordLedOn == LastCommand(s.isRecordLedOn, s.powerStatus, events, Record)
            && ("Message" in s'.lit ==> LastCommand(s.isMessageLedOn, s.powerStatus, events, Message))
            && ("Record" in s'.lit ==> LastCommand(s.isRecordLedOn, s.powerStatus, events, Record))
    decreases |events|
  {
    FlagsTrack(s, events, indicators);
    if events != [] {
      var init, e := events[..|events| - 1], events[|events| - 1];
      ShadowsTrack(s, init, indicators);
      FlagsTrack(s, init, indicators);
      RunNext(s, init, e, indicators);
      assert init + [e] == events;
      ShadowStep(Run(s, init, indicators), e, indicators);
    }
  }

  /** The one LED an indicator stands for. */
  predicate Names(indicator: Indicator, name: string) {
    || (indicator.Power? && name == "Power")
    || (indicator.Message? && name == "Message")
    || (indicator.Record? && name == "Record")
    || (indicator.Remote? && name == "Remote")
    || (indicator.RfByPass? && name == "RfByPass")
  }

  /** What the calls so far make of a LED's shadow flag. */
  function Shadow(s: Panel, events: seq<Event>, name: string): bool {
    || (name == "Message" && LastCommand(s.isMessageLedOn, s.powerStatus, events, Message))
    || (name == "Record" && LastCommand(s.isRecordLedOn, s.powerStatus, events, Record))
  }

  /** With power, the call switches the LED on; a call for all LEDs does if it is the Power LED or its shadow is set. */
  predicate SwitchesOn(e: Event, name: string, shadow: bool) {
    match e
    case PowerOnLed(i) => Names(i, name) || (i.All? && (name == "Power" || shadow))
    case SetBrightness => name == "Power" || shadow
    case Start => name == "Power"
    case _ => false
  }

  predicate SwitchesOff(e: Event, name: string, indicators: seq<string>) {
    e.PowerOffLed? && (Names(e.indicator, name) || (e.indicator.All? && name in indicators))
  }

  /** Whether the last call that switched this LED switched it on. */
  function LitAfter(s: Panel, events: seq<Event>, indicators: seq<string>, name: string): bool
    decreases |events|
  {
    if events == [] then name in s.lit
    else
      var rest, e := events[..|events| - 1], events[|events| - 1];
      if PowerAfter(s.powerStatus, rest) && SwitchesOn(e, name, Shadow(s, rest, name)) then true
      else !SwitchesOff(e, name, indicators) && LitAfter(s, rest, indicators, name)
  }

  function ShadowOf(s: Panel, name: string): bool {
    (name == "Message" && s.isMessageLedOn) || (name == "Record" && s.isRecordLedOn)
  }

  lemma LedOn(s: Panel, indicator: Indicator, name: string)
    ensures name in PoweredOn(s, indicator).lit <==>
            name in s.lit || (s.powerStatus && SwitchesOn(PowerOnLed(indicator), name, ShadowOf(s, name)))
  {
  }

  lemma LedOff(s: Panel, indicator: Indicator, indicators: seq<string>, name: string)
    ensures name in PoweredOff(s, indicator, indicators).lit <==>
            name in s.lit && !SwitchesOff(PowerOffLed(indicator), name, indicators)
  {
  }

  lemma LedStep(s: Panel, e: Event, indicators: seq<string>, name: string)
    ensures name in Step(s, e, indicators).lit <==>
            if s.powerStatus && SwitchesOn(e, name, ShadowOf(s, name)) then true
            else !SwitchesOff(e, name, indicators) && name in s.lit
  {
    match e
    case SetBrightness => LedOn(s.(plan := Idle), All, name);
    case PowerOnLed(i) => LedOn(s.(plan := Idle), i, name);
    case PowerOffLed(i) => LedOff(s.(plan := Idle), i, indicators, name);
    case _ =>
  }

  /** After every run, for every LED: it is on exactly if the last call that switched it switched it on. */
  lemma {:induction false} LedExactly(s: Panel, events: seq<Event>, indicators: seq<string>, name: string)
    ensures name in Run(s, events, indicators).lit <==> LitAfter(s, events, indicators, name)
    decreases |events|
  {
    if events != [] {
      var init, e := events[..|events| - 1], events[|events| - 1];
      LedExactly(s, init, indicators, name);
      FlagsTrack(s, init, indicators);
      RunNext(s, init, e, indicators);
      assert init + [e] == events;
      LedStep(Run(s, init, indicators), e, indicators, name);
    }
  }

  /** Whatever was done before: switching all LEDs off and, with power, all on again lights Message and Record
      exactly if the last effective command for that LED was "on". The Remote and RfByPass LEDs are not
      restored; they stay lit only if the device does not list them, since then they are not switched off
      either. */
  lemma AllOffThenOnRestores(s: Panel, events: seq<Event>, indicators: seq<string>)
    requires ShadowsHold(s)
    ensures var before := Run(s, events, indicators);
            var after := Run(s, events + [PowerOffLed(All), SetPowerStatus(true), PowerOnLed(All)], indicators);
            && ("Message" in after.lit <==> LastCommand(s.isMessageLedOn, s.powerStatus, events, Message))
            && ("Record" in after.lit <==> LastCommand(s.isRecordLedOn, s.powerStatus, events, Record))
            && "Power" in after.lit
            && forall name :: name in {"Remote", "RfByPass"} ==>
                 (name in after.lit <==> name in before.lit && name !in indicators)
  {
    var before := Run(s, events, indicators);
    ShadowsTrack(s, events, indicators);
    RunNext(s, events, PowerOffLed(All), indicators);
    RunNext(s, events + [PowerOffLed(All)], SetPowerStatus(true), indicators);
    RunNext(s, events + [PowerOffLed(All)] + [SetPowerStatus(true)], PowerOnLed(All), indicators);
    assert events + [PowerOffLed(All), SetPowerStatus(true), PowerOnLed(All)]
        == events + [PowerOffLed(All)] + [SetPowerStatus(true)] + [PowerOnLed(All)];
  }
}
