/** ExpandPropertiesInString (helpers/UtilsgetFileContent.h). The loop starts its output over from the raw input at
    every variable, so only the last one it comes to is expanded. */
module PropertyExpansion {
  import opened Options
  import opened PropertyFile

  /** What readPropertyFromFile reports for a name. */
  function Value(file: Option<Lines>, name: string): Option<string> {
    if file.None? then None
    else match Denote(file.value, name)
      case Found(v) => Some(v)
      case _ => None
  }

  /** strchr(input + from, '$'): the length stands for a null result. */
  function NextDollar(input: string, from: nat): (p: nat)
    requires from <= |input|
    ensures from <= p <= |input|
    ensures p < |input| ==> input[p] == '$'
    ensures forall i :: from <= i < p ==> input[i] != '$'
    decreases |input| - from
  {
    if from == |input| || input[from] == '$' then from else NextDollar(input, from + 1)
  }

  /** strpbrk(input + from, " /") */
  function NextDelimiter(input: string, from: nat): (p: nat)
    requires from <= |input|
    ensures from <= p <= |input|
    ensures p < |input| ==> input[p] in {' ', '/'}
    ensures forall i :: from <= i < p ==> input[i] !in {' ', '/'}
    decreases |input| - from
  {
    if from == |input| || input[from] in {' ', '/'} then from else NextDelimiter(input, from + 1)
  }

  // ---- the variable whose '$' is at position p ----

  predicate Delimited(input: string, p: nat)
    requires p < |input|
  {
    NextDelimiter(input, p + 1) < |input|
  }

  /** Where scanning goes on: at the delimiter, or just after the '$' if there is none. */
  function EndPos(input: string, p: nat): (e: nat)
    requires p < |input|
    ensures p < e <= |input|
  {
    if Delimited(input, p) then NextDelimiter(input, p + 1) else p + 1
  }

  /** The name it is read under: what stands before the next delimiter. */
  function Name(input: string, p: nat): string
    requires p < |input|
  {
    input[p + 1..NextDelimiter(input, p + 1)]
  }

  /** A '$' without a delimiter after it is dropped, and needs no value. */
  predicate Resolved(file: Option<Lines>, input: string, p: nat) {
    p < |input| && (Delimited(input, p) ==> Value(file, Name(input, p)).Some?)
  }

  /** The variables the loop comes to from a position on: a '$' inside a variable's name is not one. */
  function Scanned(input: string, from: nat): (ps: seq<nat>)
    requires from <= |input|
    ensures forall p :: p in ps ==> from <= p < |input| && input[p] == '$'
    decreases |input| - from
  {
    var p := NextDollar(input, from);
    if p == |input| then [] else [p] + Scanned(input, EndPos(input, p))
  }

  /** The variables scanned from the start. */
  function Variables(input: string): seq<nat> {
    Scanned(input, 0)
  }

  predicate AllResolved(file: Option<Lines>, input: string) {
    forall p :: p in Variables(input) ==> Resolved(file, input, p)
  }

  /** A variable as the documentation has it: delimited by ' ' or '/', with a value. */
  predicate Expandable(file: Option<Lines>, input: string, p: nat)
    requires p < |input|
  {
    input[p] == '$' && Delimited(input, p) && Value(file, Name(input, p)).Some?
  }

  /** The documented expansion: every such variable replaced by its value, everything else kept. */
  function Full(file: Option<Lines>, input: string, from: nat): string
    requires from <= |input|
    decreases |input| - from
  {
    if from == |input| then ""
    else if Expandable(file, input, from) then
      Value(file, Name(input, from)).value + Full(file, input, NextDelimiter(input, from + 1))
    else [input[from]] + Full(file, input, from + 1)
  }

  /** The raw input with the variable at p, and nothing else, replaced. */
  function OnlyAt(file: Option<Lines>, input: string, p: nat): string {
    if !Resolved(file, input, p) then input
    else if Delimited(input, p) then
      input[..p] + Value(file, Name(input, p)).value + input[NextDelimiter(input, p + 1)..]
    else input[..p] + input[p + 1..]
  }

  function Last(ps: seq<nat>): nat
    requires ps != []
  {
    ps[|ps| - 1]
  }

  // ---- which calls return ----

  /** The lookup for the variable at p recurses for ever. */
  predicate EndlessAt(file: Option<Lines>, input: string, p: nat) {
    p < |input| && Delimited(input, p) && file.Some? && Denote(file.value, Name(input, p)).Endless?
  }

  /** The loop, from a position on, makes no endless lookup. */
  predicate ReturnsFrom(file: Option<Lines>, input: string, from: nat)
    requires from <= |input|
    decreases |input| - from
  {
    var p := NextDollar(input, from);
    p < |input| ==>
      !EndlessAt(file, input, p) && (Resolved(file, input, p) ==> ReturnsFrom(file, input, EndPos(input, p)))
  }

  /** The i-th of these variables is the first one without a value. */
  predicate FirstUnresolved(file: Option<Lines>, input: string, ps: seq<nat>, i: nat) {
    i < |ps| && !Resolved(file, input, ps[i]) && forall j :: 0 <= j < i ==> Resolved(file, input, ps[j])
  }

  predicate FirstUnresolvedEnds(file: Option<Lines>, input: string, ps: seq<nat>) {
    forall i :: 0 <= i < |ps| && FirstUnresolved(file, input, ps, i) ==> !EndlessAt(file, input, ps[i])
  }

  /** A call returns unless the first variable without a value has none because its lookup is endless. */
  lemma {:induction false} ReturnsExactly(file: Option<Lines>, input: string, from: nat)
    requires from <= |input|
    ensures ReturnsFrom(file, input, from) <==> FirstUnresolvedEnds(file, input, Scanned(input, from))
    decreases |input| - from
  {
    var p := NextDollar(input, from);
    if p < |input| {
      ReturnsExactly(file, input, EndPos(input, p));
      FirstOrLater(file, input, p, Scanned(input, EndPos(input, p)));
      assert Scanned(input, from) == [p] + Scanned(input, EndPos(input, p));
    }
  }

  lemma FirstOrLater(file: Option<Lines>, input: string, p: nat, rest: seq<nat>)
    requires p < |input|
    ensures FirstUnresolvedEnds(file, input, [p] + rest) <==>
            !EndlessAt(file, input, p) && (Resolved(file, input, p) ==> FirstUnresolvedEnds(file, input, rest))
  {
    var ps := [p] + rest;
    assert EndlessAt(file, input, p) ==> !Resolved(file, input, p);
    assert FirstUnresolved(file, input, ps, 0) <==> !Resolved(file, input, p);
    forall i | 0 <= i < |rest| && Resolved(file, input, p)
      ensures FirstUnresolved(file, input, rest, i) <==> FirstUnresolved(file, input, ps, i + 1)
      ensures ps[i + 1] == rest[i]
    {
      assert forall j :: 0 <= j < i ==> rest[j] == ps[j + 1];
    }
  }

  // ---- the code ----

  /** The middle of the loop's body: the text for the variable at variablePos and where scanning goes on. */
  method ExpandAt(input: string, file: Option<Lines>, variablePos: nat)
    returns (found: bool, text: string, endPos: nat)
    requires variablePos < |input| && input[variablePos] == '$' && !EndlessAt(file, input, variablePos)
    ensures found <==> Resolved(file, input, variablePos)
    ensures endPos == EndPos(input, variablePos)
    ensures found && Delimited(input, variablePos) ==> Some(text) == Value(file, input[variablePos + 1..endPos])
    ensures found && !Delimited(input, variablePos) ==> text == "" && endPos == variablePos + 1
  {
    found, text := true, "";
    endPos := NextDelimiter(input, variablePos);
    if endPos < |input| {
      var variable := input[variablePos + 1..endPos];
      ghost var depth := DepthFor(file, variable);
      found, text := ReadPropertyFromFile(file, variable, depth);
      ReadIsValue(file, variable, depth);
    } else {
      endPos := variablePos + 1;
    }
  }

  /** What the loop comes to from a position on: whether it succeeds, and the string it leaves, which is
      `current` if no further variable is scanned. */
  function Outcome(file: Option<Lines>, input: string, from: nat, current: string): (bool, string)
    requires from <= |input|
    decreases |input| - from
  {
    var p := NextDollar(input, from);
    if p == |input| then (true, current)
    else if !Resolved(file, input, p) then (false, input[..p])
    else Outcome(file, input, EndPos(input, p), OnlyAt(file, input, p))
  }

  /** The call is one that returns; see ReturnsExactly. */
  method ExpandPropertiesInString(input: string, file: Option<Lines>, before: string)
    returns (ok: bool, expandedString: string)
    requires ReturnsFrom(file, input, 0)
    ensures (ok, expandedString) == Outcome(file, input, 0, before)
  {
    expandedString := before;
    var variablePos := NextDollar(input, 0);
    ghost var from: nat, current := 0, before;
    while variablePos < |input|
      invariant from <= variablePos <= |input| && variablePos == NextDollar(input, from)
      invariant Outcome(file, input, 0, before) == Outcome(file, input, from, current)
      invariant ReturnsFrom(file, input, from)
      invariant variablePos == |input| ==> expandedString == current
      decreases |input| - variablePos
    {
      expandedString := input[..variablePos];
      var found, text, endPos := ExpandAt(input, file, variablePos);
      if !found {
        return false, expandedString;
      }
      expandedString := expandedString + text;
      from, current := endPos, OnlyAt(file, input, variablePos);
      variablePos := NextDollar(input, endPos);
      if variablePos < |input| {
        expandedString := expandedString + input[endPos..variablePos];
      } else {
        expandedString := expandedString + input[endPos..];
      }
    }
    ok := true;
  }

  lemma DepthFor(file: Option<Lines>, name: string) returns (depth: nat)
    requires file.Some? ==> !Denote(file.value, name).Endless?
    ensures file.Some? ==> Eval(file.value, name, depth).Some?
  {
    depth := 0;
    if file.Some? {
      FiniteExactly(file.value, name);
      depth := |References(file.value)| + 1;
    }
  }

  lemma ReadIsValue(file: Option<Lines>, name: string, depth: nat)
    requires file.Some? ==> Eval(file.value, name, depth).Some?
    ensures Value(file, name) == if file.None? then None else Eval(file.value, name, depth).value
  {
    if file.Some? {
      EvalIsDenote(file.value, name, depth);
    }
  }

  // ---- what it amounts to ----

  // which '$' are variables

  predicate IsDelimiter(c: char) {
    c == ' ' || c == '/'
  }

  /** The '$' at p is not in the name of another variable: no delimiter comes after it at all, or one stands between it
      and every '$' before it. */
  ghost predicate IsVariable(input: string, p: nat) {
    && p < |input| && input[p] == '$'
    && ((forall d :: p < d < |input| ==> !IsDelimiter(input[d]))
        || (forall q :: 0 <= q < p && input[q] == '$' ==> exists d :: q < d < p && IsDelimiter(input[d])))
  }

  /** Positions the loop scans from: the start, a delimiter, or a position no delimiter comes after. */
  ghost predicate ScansFrom(input: string, from: nat)
    requires from <= |input|
  {
    || from == 0 || (from < |input| && IsDelimiter(input[from]))
    || forall d :: from <= d < |input| ==> !IsDelimiter(input[d])
  }

  lemma {:induction false} ScannedExactly(input: string, from: nat)
    requires from <= |input| && ScansFrom(input, from)
    ensures forall p :: p in Scanned(input, from) <==> from <= p && IsVariable(input, p)
    decreases |input| - from
  {
    var p := NextDollar(input, from);
    if p < |input| {
      var end := EndPos(input, p);
      ScannedExactly(input, end);
      FirstIsVariable(input, from);
      forall q | p < q < end ensures !IsVariable(input, q) {
      }
      assert Scanned(input, from) == [p] + Scanned(input, end);
    }
  }

  lemma FirstIsVariable(input: string, from: nat)
    requires from <= |input| && ScansFrom(input, from) && NextDollar(input, from) < |input|
    ensures IsVariable(input, NextDollar(input, from))
  {
  }

  predicate Increasing(ps: seq<nat>) {
    forall i, j :: 0 <= i < j < |ps| ==> ps[i] < ps[j]
  }

  lemma {:induction false} ScannedIncreases(input: string, from: nat)
    requires from <= |input|
    ensures Increasing(Scanned(input, from))
    decreases |input| - from
  {
    var p := NextDollar(input, from);
    if p < |input| {
      ScannedIncreases(input, EndPos(input, p));
      ConsIncreases(p, Scanned(input, EndPos(input, p)));
    }
  }

  lemma ConsIncreases(p: nat, rest: seq<nat>)
    requires Increasing(rest) && forall q :: q in rest ==> p < q
    ensures Increasing([p] + rest)
  {
    var ps := [p] + rest;
    forall i, j | 0 <= i < j < |ps| ensures ps[i] < ps[j] {
      assert ps[j] == rest[j - 1] && rest[j - 1] in rest;
      assert i > 0 ==> ps[i] == rest[i - 1];
    }
  }

  /** The variables are the '$' outside other variables' names, in order. */
  lemma VariablesExactly(input: string)
    ensures forall p :: p in Variables(input) <==> IsVariable(input, p)
    ensures Increasing(Variables(input))
  {
    ScannedExactly(input, 0);
    ScannedIncreases(input, 0);
  }

  lemma {:induction false} OutcomeFrom(file: Option<Lines>, input: string, from: nat, current: string)
    requires from <= |input|
    ensures var (ok, s), ps := Outcome(file, input, from, current), Scanned(input, from);
            && (ok <==> forall p :: p in ps ==> Resolved(file, input, p))
            && (ok ==> s == if ps == [] then current else OnlyAt(file, input, Last(ps)))
    decreases |input| - from
  {
    var p := NextDollar(input, from);
    if p < |input| {
      var ps, rest := Scanned(input, from), Scanned(input, EndPos(input, p));
      assert ps == [p] + rest;
      assert p in ps && forall q :: q in rest ==> q in ps;
      OutcomeFrom(file, input, EndPos(input, p), OnlyAt(file, input, p));
    }
  }

  /** What stands before the first of these variables without a value. */
  predicate CutBefore(file: Option<Lines>, input: string, ps: seq<nat>, i: nat, s: string) {
    FirstUnresolved(file, input, ps, i) && ps[i] < |input| && s == input[..ps[i]]
  }

  lemma {:induction false} FailureFrom(file: Option<Lines>, input: string, from: nat, current: string)
    returns (i: nat)
    requires from <= |input| && !Outcome(file, input, from, current).0
    ensures CutBefore(file, input, Scanned(input, from), i, Outcome(file, input, from, current).1)
    decreases |input| - from
  {
    var p := NextDollar(input, from);
    i := 0;
    if Resolved(file, input, p) {
      var rest := Scanned(input, EndPos(input, p));
      i := FailureFrom(file, input, EndPos(input, p), OnlyAt(file, input, p));
      UnresolvedLater(file, input, p, rest, i);
      i := i + 1;
    }
  }

  lemma UnresolvedLater(file: Option<Lines>, input: string, p: nat, rest: seq<nat>, i: nat)
    requires Resolved(file, input, p) && FirstUnresolved(file, input, rest, i)
    ensures FirstUnresolved(file, input, [p] + rest, i + 1) && ([p] + rest)[i + 1] == rest[i]
  {
    assert forall j :: 0 < j < i + 1 ==> ([p] + rest)[j] == rest[j - 1];
  }

  /** True is returned exactly when every variable scanned has a value. The string handed in is then replaced by
      the input with its last variable expanded and no other, or left alone if there is no variable. Otherwise what
      stands before the first variable without a value is left behind. */
  lemma OutcomeExactly(file: Option<Lines>, input: string, before: string)
    ensures var (ok, s), ps := Outcome(file, input, 0, before), Variables(input);
            && (ok <==> AllResolved(file, input))
            && (ok ==> s == if ps == [] then before else OnlyAt(file, input, Last(ps)))
            && (!ok ==> exists i :: CutBefore(file, input, ps, i, s))
  {
    OutcomeFrom(file, input, 0, before);
    assert Variables(input) == Scanned(input, 0);
    if !Outcome(file, input, 0, before).0 {
      var i := FailureFrom(file, input, 0, before);
    }
  }

  // ---- inputs with at most one '$' ----

  /** What a call leaves for one delimited variable: its value in its place, or what stands before it. */
  lemma OneVariableIsReplaced(lines: Lines, a: string, name: string, rest: string, before: string, depth: nat)
    requires '$' !in a && ' ' !in name && '/' !in name
    requires rest != "" && rest[0] in " /" && '$' !in rest
    requires Eval(lines, name, depth).Some?
    ensures ReturnsFrom(Some(lines), a + "$" + name + rest, 0)
    ensures Outcome(Some(lines), a + "$" + name + rest, 0, before) ==
            match Eval(lines, name, depth).value
            case Some(v) => (true, a + v + rest)
            case None => (false, a)
  {
    var input, p, end := a + "$" + name + rest, |a|, |a| + 1 + |name|;
    OneVariableAt(a, name, rest);
    ReadIsValue(Some(lines), name, depth);
    EvalIsDenote(lines, name, depth);
    assert OnlyAt(Some(lines), input, p) ==
           if Value(Some(lines), name).Some? then a + Value(Some(lines), name).value + rest else input;
  }

  lemma OneVariableAt(a: string, name: string, rest: string)
    requires '$' !in a && ' ' !in name && '/' !in name
    requires rest != "" && rest[0] in " /" && '$' !in rest
    ensures var input, p, end := a + "$" + name + rest, |a|, |a| + 1 + |name|;
            && NextDollar(input, 0) == p && Delimited(input, p) && NextDelimiter(input, p + 1) == end
            && NextDollar(input, end) == |input|
            && Name(input, p) == name && input[..p] == a && input[end..] == rest
  {
    var input, p, end := a + "$" + name + rest, |a|, |a| + 1 + |name|;
    assert input[p] == '$' && input[end] == rest[0];
    assert forall i :: 0 <= i < p ==> input[i] == a[i];
    assert forall i :: p < i < end ==> input[i] == name[i - p - 1];
    assert forall i :: end <= i < |input| ==> input[i] == rest[i - end];
  }

  /** A '$' that no delimiter comes after is dropped; an input without any leaves the string handed in alone. */
  lemma UndelimitedIsDropped(file: Option<Lines>, a: string, name: string, before: string)
    requires '$' !in a && '$' !in name && ' ' !in name && '/' !in name
    ensures ReturnsFrom(file, a + "$" + name, 0) && ReturnsFrom(file, a, 0)
    ensures Outcome(file, a + "$" + name, 0, before) == (true, a + name)
    ensures Outcome(file, a, 0, before) == (true, before)
  {
    var input, p := a + "$" + name, |a|;
    assert input[p] == '$';
    assert forall i :: 0 <= i < p ==> input[i] == a[i];
    assert forall i :: p < i < |input| ==> input[i] == name[i - p - 1];
    assert NextDollar(input, 0) == p && !Delimited(input, p) && NextDollar(input, p + 1) == |input|;
    assert OnlyAt(file, input, p) == a + name;
  }

  lemma {:induction false} FullSkips(file: Option<Lines>, input: string, from: nat, end: nat)
    requires from <= end <= |input| && forall i :: from <= i < end ==> input[i] != '$'
    ensures Full(file, input, from) == input[from..end] + Full(file, input, end)
    decreases end as int - from
  {
    if from < end {
      FullSkips(file, input, from + 1, end);
      FullKeeps(file, input, from);
      Joined(input, from, end, Full(file, input, end));
    } else {
      assert input[from..end] == "";
    }
  }

  lemma FullKeeps(file: Option<Lines>, input: string, from: nat)
    requires from < |input| && input[from] != '$'
    ensures Full(file, input, from) == [input[from]] + Full(file, input, from + 1)
  {
  }

  lemma Joined(input: string, from: nat, end: nat, rest: string)
    requires from < end <= |input|
    ensures [input[from]] + (input[from + 1..end] + rest) == input[from..end] + rest
  {
  }

  /** Up to the next '$' everything is kept. */
  lemma FullStep(file: Option<Lines>, input: string, from: nat)
    requires from <= |input|
    ensures var p := NextDollar(input, from);
            && Full(file, input, from) == input[from..p] + Full(file, input, p)
            && (p == |input| ==> Full(file, input, from) == input[from..])
  {
    var p := NextDollar(input, from);
    FullSkips(file, input, from, p);
    if p == |input| {
      assert input[from..p] == input[from..] && Full(file, input, p) == "";
      assert input[from..p] + "" == input[from..];
    }
  }

  /** With one variable, and that one delimited, the documented expansion is the one the loop makes. */
  lemma FullOfOne(file: Option<Lines>, input: string)
    requires |Variables(input)| == 1 && Expandable(file, input, Variables(input)[0])
    ensures Full(file, input, 0) == OnlyAt(file, input, Variables(input)[0])
  {
    var p := Variables(input)[0];
    OneVariable(input);
    FullStep(file, input, 0);
    FullStep(file, input, EndPos(input, p));
    Concat(input[..p], Value(file, Name(input, p)).value, input[EndPos(input, p)..]);
    assert input[0..p] == input[..p];
  }

  lemma Concat(a: string, b: string, c: string)
    ensures a + (b + c) == a + b + c
  {
  }

  lemma OneVariable(input: string)
    requires |Variables(input)| == 1
    ensures var p := NextDollar(input, 0);
            p < |input| && Variables(input) == [p] && NextDollar(input, EndPos(input, p)) == |input|
  {
    var p := NextDollar(input, 0);
    assert Variables(input) == Scanned(input, 0);
    assert Scanned(input, EndPos(input, p)) == Scanned(input, 0)[1..];
  }

  /** Where no delimiter follows there is nothing to expand. */
  lemma {:induction false} FullOfUndelimited(file: Option<Lines>, input: string, from: nat)
    requires from <= |input| && NextDelimiter(input, from) == |input|
    ensures Full(file, input, from) == input[from..]
    decreases |input| - from
  {
    if from < |input| {
      DelimiterSkips(input, from, from + 1);
      FullOfUndelimited(file, input, from + 1);
      assert input[from..] == [input[from]] + input[from + 1..];
    }
  }

  lemma FullOfFirstUndelimited(file: Option<Lines>, input: string, p: nat)
    requires p < |input| && p == NextDollar(input, 0) && !Delimited(input, p)
    ensures Full(file, input, 0) == input
  {
    FullStep(file, input, 0);
    assert NextDelimiter(input, p) == |input|;
    FullOfUndelimited(file, input, p);
    Halves(input, p);
  }

  lemma Halves(input: string, p: nat)
    requires p <= |input|
    ensures input[0..p] + input[p..] == input
  {
  }

  /** The loop drops a '$' with no delimiter after it. */
  lemma DollarIsDropped(file: Option<Lines>, input: string, p: nat)
    requires p < |input| && !Delimited(input, p)
    ensures |OnlyAt(file, input, p)| == |input| - 1
  {
  }

  lemma {:induction false} DelimiterSkips(input: string, from: nat, end: nat)
    requires from <= end <= |input| && NextDelimiter(input, from) >= end
    ensures NextDelimiter(input, from) == NextDelimiter(input, end)
    decreases end as int - from
  {
    if from < end {
      DelimiterSkips(input, from + 1, end);
    }
  }

  /** A value never starts with '$', and neither does what follows a delimited variable. So the documented
      expansion has no '$' where its first delimited variable was. */
  lemma FullAtFirst(file: Option<Lines>, input: string, p: nat)
    requires p < |input| && p == NextDollar(input, 0) && Expandable(file, input, p)
    ensures |Full(file, input, 0)| > p && Full(file, input, 0)[p] != '$'
  {
    FullStep(file, input, 0);
    var e, v := EndPos(input, p), Value(file, Name(input, p)).value;
    ValueIsNoReference(file, Name(input, p));
    DelimiterKept(file, input, e);
    CharacterAfter(input[0..p], v, Full(file, input, e));
  }

  lemma DelimiterKept(file: Option<Lines>, input: string, e: nat)
    requires e < |input| && input[e] != '$'
    ensures Full(file, input, e) != "" && Full(file, input, e)[0] == input[e]
  {
  }

  lemma CharacterAfter(prefix: string, value: string, rest: string)
    requires !IsReference(value) && rest != "" && rest[0] != '$'
    ensures var s := prefix + (value + rest);
            |s| > |prefix| && s[|prefix|] != '$'
  {
  }

  lemma ValueIsNoReference(file: Option<Lines>, name: string)
    requires Value(file, name).Some?
    ensures !IsReference(Value(file, name).value)
  {
    var depth := DepthFor(file, name);
    ReadIsValue(file, name, depth);
    FoundIsNoReference(file.value, name, depth);
  }

  lemma LastVariable(input: string)
    requires |Variables(input)| >= 2
    ensures var p, l := NextDollar(input, 0), Last(Variables(input));
            && p < |input| && p in Variables(input) && l in Variables(input) && p < EndPos(input, p) <= l < |input|
  {
    var p := NextDollar(input, 0);
    assert Variables(input) == Scanned(input, 0) == [p] + Scanned(input, EndPos(input, p));
    assert Last(Variables(input)) == Last(Scanned(input, EndPos(input, p)));
    assert Last(Variables(input)) in Scanned(input, EndPos(input, p));
  }

  /** With more variables the loop's output is never the documented expansion. */
  lemma OnlyLastIsNotFull(file: Option<Lines>, input: string)
    requires AllResolved(file, input) && |Variables(input)| >= 2
    ensures OnlyAt(file, input, Last(Variables(input))) != Full(file, input, 0)
  {
    var p, l := NextDollar(input, 0), Last(Variables(input));
    LastVariable(input);
    if Delimited(input, p) {
      FullAtFirst(file, input, p);
      assert OnlyAt(file, input, l)[p] == input[p];
    } else {
      FullOfFirstUndelimited(file, input, p);
      DelimiterSkips(input, p + 1, l + 1);
      DollarIsDropped(file, input, l);
    }
  }

  lemma OneIsFullExactly(file: Option<Lines>, input: string)
    requires AllResolved(file, input) && |Variables(input)| == 1
    ensures var p := Variables(input)[0];
            p < |input| && (OnlyAt(file, input, p) == Full(file, input, 0) <==> Delimited(input, p))
  {
    var p := Variables(input)[0];
    OneVariable(input);
    assert p in Variables(input);
    if Delimited(input, p) {
      FullOfOne(file, input);
    } else {
      FullOfFirstUndelimited(file, input, p);
      DollarIsDropped(file, input, p);
    }
  }

  lemma NoneIsFull(file: Option<Lines>, input: string)
    requires Variables(input) == []
    ensures Full(file, input, 0) == input
  {
    FullStep(file, input, 0);
    assert input[0..] == input;
  }

  /** The string left behind on success is the documented expansion of the input exactly when there is one variable
      and it is delimited, or none and the string handed in already was the input. */
  lemma ExpandedIsFullExactly(file: Option<Lines>, input: string, before: string)
    requires Outcome(file, input, 0, before).0
    ensures var ps := Variables(input);
            Outcome(file, input, 0, before).1 == Full(file, input, 0) <==>
            (|ps| == 1 && ps[0] < |input| && Delimited(input, ps[0])) || (ps == [] && before == input)
  {
    OutcomeExactly(file, input, before);
    if |Variables(input)| == 0 {
      NoneIsFull(file, input);
    } else if |Variables(input)| == 1 {
      OneIsFullExactly(file, input);
    } else {
      OnlyLastIsNotFull(file, input);
    }
  }
}
