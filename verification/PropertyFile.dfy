/** readPropertyFromFile (helpers/UtilsgetFileContent.h): looking a name up in a property file, where a value that
    starts with '$' names another property of the same file. */
module PropertyFile {
  import opened Options

  /** The file as std::getline hands it out: lines without their newline. */
  type Lines = seq<string>

  // ---- one line ----

  predicate IsComment(line: string) {
    line != "" && line[0] == '#'
  }

  predicate Defines(line: string, property: string) {
    !IsComment(line) && (property + " " <= line || property + "=" <= line)
  }

  /** What follows the first '='. A line without one is its own content: find gives npos, and npos + 1 is 0. */
  function Content(line: string): string {
    if '=' !in line then line else AfterEquals(line)
  }

  function AfterEquals(line: string): string
    requires '=' in line
  {
    if line[0] == '=' then line[1..] else AfterEquals(line[1..])
  }

  predicate IsReference(content: string) {
    content != "" && content[0] == '$'
  }

  /** A value has one line-end character removed from its end. */
  function Direct(content: string): string {
    if content != "" && content[|content| - 1] in {'\r', '\n'} then content[..|content| - 1] else content
  }

  // ---- the recursion as it runs ----

  /** What a call does when its recursion is cut off at the given depth: None if that is not deep enough, else
      what it returns and leaves in propertyValue. */
  function Eval(file: Lines, name: string, depth: nat): Option<Option<string>>
    decreases depth, 0, 0
  {
    if depth == 0 then None else Scan(file, 0, name, depth - 1)
  }

  /** The while loop from line i on; references are looked up with the given depth left. */
  function Scan(file: Lines, i: nat, name: string, depth: nat): Option<Option<string>>
    requires i <= |file|
    decreases depth, 1, |file| - i
  {
    if i == |file| then Some(None)
    else if !Defines(file[i], name) then Scan(file, i + 1, name, depth)
    else
      var content := Content(file[i]);
      if !IsReference(content) then Some(Some(Direct(content)))
      else
        match Eval(file, content[1..], depth)
        case None => None
        case Some(Some(v)) => Some(Some(v))
        case Some(None) => Scan(file, i + 1, name, depth)
  }

  // ---- the code ----

  /** `file` is None if it cannot be opened. The call is one whose recursion is finite: `depth` bounds it. */
  method ReadPropertyFromFile(file: Option<Lines>, property: string, ghost depth: nat)
    returns (found: bool, propertyValue: string)
    requires file.Some? ==> Eval(file.value, property, depth).Some?
    ensures file.Some? ==>
              Eval(file.value, property, depth) == Some(if found then Some(propertyValue) else None)
    ensures file.Some? ==>
              if found then exists i :: FirstGives(file.value, property, i, propertyValue)
              else NoneGives(file.value, property)
    ensures file.None? ==> !found
    ensures !found ==> propertyValue == ""
    decreases depth
  {
    found := false;
    propertyValue := "";
    if file.None? {
      return;
    }
    var lines := file.value;
    EvalExactly(lines, property, depth);
    var i := 0;
    while i < |lines|
      invariant i <= |lines| && !found && propertyValue == ""
      invariant depth > 0 && Eval(lines, property, depth) == Scan(lines, i, property, depth - 1)
    {
      var line := lines[i];
      i := i + 1;
      if line != "" && line[0] == '#' {
        continue;
      }
      if property + " " <= line || property + "=" <= line {
        var propertyContent := Content(line);
        if propertyContent != "" && propertyContent[0] == '$' {
          var expanded;
          expanded, propertyValue := ReadPropertyFromFile(file, propertyContent[1..], depth - 1);
          if expanded {
            found := true;
            break;
          }
        } else {
          propertyValue := propertyContent;
          if propertyValue != "" {
            if propertyValue[|propertyValue| - 1] == '\r' || propertyValue[|propertyValue| - 1] == '\n' {
              propertyValue := propertyValue[..|propertyValue| - 1];
            }
          }
          found := true;
          break;
        }
      }
    }
  }

  // ---- when the recursion ends ----

  datatype Resolution = Found(value: string) | NotFound | Endless

  /** Every name some line refers to. */
  function References(file: Lines): set<string> {
    set line | line in file && IsReference(Content(line)) :: Content(line)[1..]
  }

  /** The same lookup, stopping as soon as a name comes up that is being looked up already. */
  function Resolve(file: Lines, name: string, path: set<string>): Resolution
    decreases |References(file) + {name} - path|, |file| + 1
  {
    if name in path then Endless
    else
      PathGrows(file, name, path);
      ResolveFrom(file, 0, name, path + {name})
  }

  function ResolveFrom(file: Lines, i: nat, name: string, path: set<string>): Resolution
    requires i <= |file|
    decreases |References(file) - path| + 1, 0, |file| - i
  {
    if i == |file| then NotFound
    else if !Defines(file[i], name) then ResolveFrom(file, i + 1, name, path)
    else
      var content := Content(file[i]);
      if !IsReference(content) then Found(Direct(content))
      else
        assert References(file) + {content[1..]} == References(file);
        match Resolve(file, content[1..], path)
        case NotFound => ResolveFrom(file, i + 1, name, path)
        case r => r
  }

  lemma PathGrows(file: Lines, name: string, path: set<string>)
    requires name !in path
    ensures |References(file) - (path + {name})| < |References(file) + {name} - path|
  {
    var rest := References(file) - (path + {name});
    assert References(file) + {name} - path == rest + {name};
  }

  /** The two lookups agree where both come to a result. */
  ghost predicate Agree(e: Option<Option<string>>, r: Resolution) {
    e.Some? && !r.Endless? ==> e.value == if r.Found? then Some(r.value) else None
  }

  lemma {:induction false} EvalAgrees(file: Lines, name: string, path: set<string>, depth: nat)
    ensures Agree(Eval(file, name, depth), Resolve(file, name, path))
    decreases depth, 0, 0
  {
    if depth > 0 && name !in path {
      ScanAgrees(file, 0, name, path + {name}, depth - 1);
    }
  }

  lemma {:induction false} ScanAgrees(file: Lines, i: nat, name: string, path: set<string>, depth: nat)
    requires i <= |file|
    ensures Agree(Scan(file, i, name, depth), ResolveFrom(file, i, name, path))
    decreases depth, 1, |file| - i
  {
    if i < |file| {
      ScanAgrees(file, i + 1, name, path, depth);
      if IsReference(Content(file[i])) {
        EvalAgrees(file, Content(file[i])[1..], path, depth);
      }
    }
  }

  /** A lookup that never meets a name twice is deep enough with one level for each name there is. */
  lemma {:induction false} ResolvedEvaluates(file: Lines, name: string, path: set<string>, depth: nat)
    requires !Resolve(file, name, path).Endless?
    requires depth >= |References(file) + {name} - path|
    ensures Eval(file, name, depth).Some?
    decreases depth, 0, 0
  {
    ResolvedEnters(file, name, path);
    DeepEnough(file, name, path, depth);
    ScanResolves(file, 0, name, path + {name}, depth - 1);
  }

  lemma DeepEnough(file: Lines, name: string, path: set<string>, depth: nat)
    requires name !in path && depth >= |References(file) + {name} - path|
    ensures depth > 0 && depth - 1 >= |References(file) - (path + {name})|
  {
    PathGrows(file, name, path);
  }

  lemma ResolvedEnters(file: Lines, name: string, path: set<string>)
    requires !Resolve(file, name, path).Endless?
    ensures name !in path && !ResolveFrom(file, 0, name, path + {name}).Endless?
  {
  }

  lemma {:induction false} ScanResolves(file: Lines, i: nat, name: string, path: set<string>, depth: nat)
    requires i <= |file| && !ResolveFrom(file, i, name, path).Endless?
    requires depth >= |References(file) - path|
    ensures Scan(file, i, name, depth).Some? && (i == 0 ==> Eval(file, name, depth + 1).Some?)
    decreases depth, 1, |file| - i
  {
    if i < |file| && Defines(file[i], name) && IsReference(Content(file[i])) {
      var other := Content(file[i])[1..];
      assert References(file) + {other} == References(file);
      ResolvedEvaluates(file, other, path, depth);
      EvalAgrees(file, other, path, depth);
    }
    if i < |file| && !ResolveFrom(file, i + 1, name, path).Endless? {
      ScanResolves(file, i + 1, name, path, depth);
    }
  }

  ghost predicate EvaluatesWithin(file: Lines, name: string, depth: nat) {
    exists d :: 0 <= d <= depth && Eval(file, name, d).Some?
  }

  /** If a lookup comes back to a name that is being looked up, yet evaluates, then one of the names being looked
      up evaluates at no greater depth. */
  lemma {:induction false} EndlessDescends(file: Lines, name: string, path: set<string>, depth: nat)
    returns (waiting: string)
    requires Resolve(file, name, path).Endless? && Eval(file, name, depth).Some?
    ensures waiting in path && EvaluatesWithin(file, waiting, depth)
    decreases depth
  {
    if name in path {
      waiting := name;
    } else {
      var other := EndlessReference(file, 0, name, path + {name}, depth - 1);
      waiting := EndlessDescends(file, other, path + {name}, depth - 1);
      if waiting !in path {
        var d :| 0 <= d <= depth - 1 && Eval(file, name, d).Some?;
        waiting := EndlessDescends(file, name, path, d);
      }
    }
  }

  lemma {:induction false} EndlessReference(file: Lines, i: nat, name: string, path: set<string>, depth: nat)
    returns (other: string)
    requires i <= |file| && ResolveFrom(file, i, name, path).Endless? && Scan(file, i, name, depth).Some?
    ensures Resolve(file, other, path).Endless? && Eval(file, other, depth).Some?
    decreases |file| - i
  {
    if !Defines(file[i], name) {
      other := EndlessReference(file, i + 1, name, path, depth);
    } else {
      other := Content(file[i])[1..];
      if !Resolve(file, other, path).Endless? {
        EvalAgrees(file, other, path, depth);
        other := EndlessReference(file, i + 1, name, path, depth);
      }
    }
  }

  function Denote(file: Lines, name: string): Resolution {
    Resolve(file, name, {})
  }

  /** The recursion of a call is finite exactly when the lookup never comes back to a name it is in the middle
      of looking up; one level for every name referred to is then deep enough. */
  lemma FiniteExactly(file: Lines, name: string)
    ensures (exists depth :: Eval(file, name, depth).Some?) <==> !Denote(file, name).Endless?
    ensures !Denote(file, name).Endless? ==> Eval(file, name, |References(file)| + 1).Some?
  {
    if !Denote(file, name).Endless? {
      assert |References(file) + {name} - {}| <= |References(file)| + 1 by {
        if name in References(file) {
          assert References(file) + {name} - {} == References(file);
        } else {
          assert References(file) + {name} - {} == References(file) + {name};
        }
      }
      ResolvedEvaluates(file, name, {}, |References(file)| + 1);
    } else if depth: nat :| Eval(file, name, depth).Some? {
      var waiting := EndlessDescends(file, name, {}, depth);
    }
  }

  lemma {:induction false} ContentAfter(name: string, rest: string)
    requires '=' !in name
    ensures Content(name + "=" + rest) == rest
  {
    var line := name + "=" + rest;
    assert line[|name|] == '=';
    if name == "" {
      assert line[1..] == rest;
    } else {
      assert line[1..] == name[1..] + "=" + rest;
      assert line[0] == name[0] && name[0] in name;
      ContentAfter(name[1..], rest);
    }
  }

  /** Such lookups exist: a property whose value refers to the property itself. No depth is enough for it. */
  lemma SelfReferenceIsEndless(name: string, depth: nat)
    requires '=' !in name && !IsComment(name)
    ensures Denote([name + "=$" + name], name).Endless?
    ensures Eval([name + "=$" + name], name, depth).None?
  {
    var line := name + "=" + ("$" + name);
    assert line == name + "=$" + name && name + "=" <= line;
    ContentAfter(name, "$" + name);
    assert ("$" + name)[1..] == name;
    assert Defines(line, name);
    var file := [name + "=$" + name];
    assert file[0] == line;
    assert Resolve(file, name, {} + {name}) == Endless;
    assert ResolveFrom(file, 0, name, {} + {name}) == Endless;
    FiniteExactly(file, name);
  }

  /** Whatever depth is deep enough, the result is the one Denote gives. */
  lemma EvalIsDenote(file: Lines, name: string, depth: nat)
    requires Eval(file, name, depth).Some?
    ensures Eval(file, name, depth) ==
            Some(if Denote(file, name).Found? then Some(Denote(file, name).value) else None)
    ensures !Denote(file, name).Endless?
  {
    FiniteExactly(file, name);
    EvalAgrees(file, name, {}, depth);
  }

  // ---- what a lookup finds ----

  /** The line is for this name and carries this text: what follows its first '=', or the whole line if it has none. */
  ghost predicate Gives(line: string, name: string, text: string) {
    && line != "" && line[0] != '#'
    && (exists rest :: line == name + " " + rest || line == name + "=" + rest)
    && if '=' in line then exists key :: '=' !in key && line == key + "=" + text else line == text
  }

  /** A text that is no reference has this value: at most one line end is taken off. */
  ghost predicate EndsAs(text: string, value: string) {
    || text == value + "\r" || text == value + "\n"
    || (text == value && (value == "" || value[|value| - 1] !in "\r\n"))
  }

  /** The value a line's text stands for, if it stands for one. */
  ghost predicate StandsFor(file: Lines, text: string, value: string) {
    if text != "" && text[0] == '$' then Denote(file, text[1..]) == Found(value) else EndsAs(text, value)
  }

  /** The line is not for this name, or it refers to another one that is not found. */
  ghost predicate GivesNothing(file: Lines, line: string, name: string) {
    forall text :: Gives(line, name, text) ==> text != "" && text[0] == '$' && Denote(file, text[1..]) == NotFound
  }

  ghost predicate NothingBefore(file: Lines, name: string, i: nat)
    requires i <= |file|
  {
    forall j :: 0 <= j < i ==> GivesNothing(file, file[j], name)
  }

  /** Line i is the first one for the name that gives a value, and this is the value. */
  ghost predicate FirstGives(file: Lines, name: string, i: nat, value: string) {
    && i < |file| && (exists text :: Gives(file[i], name, text) && StandsFor(file, text, value))
    && NothingBefore(file, name, i)
  }

  ghost predicate NoneGives(file: Lines, name: string) {
    NothingBefore(file, name, |file|)
  }

  lemma {:induction false} KeyExactly(line: string, key: string, text: string)
    requires '=' in line && '=' !in key && line == key + "=" + text
    ensures Content(line) == text
  {
    ContentAfter(key, text);
  }

  lemma {:induction false} KeyExists(line: string) returns (key: string)
    requires '=' in line
    ensures '=' !in key && line == key + "=" + AfterEquals(line)
  {
    if line[0] == '=' {
      key := "";
      assert line == "" + "=" + line[1..];
    } else {
      key := KeyExists(line[1..]);
      key := [line[0]] + key;
      assert line == [line[0]] + line[1..];
    }
  }

  lemma GivesExactly(line: string, name: string, text: string)
    ensures Gives(line, name, text) <==> Defines(line, name) && Content(line) == text
  {
    if Gives(line, name, text) && '=' in line {
      var key :| '=' !in key && line == key + "=" + text;
      KeyExactly(line, key, text);
    }
    if Defines(line, name) {
      var rest := line[|name| + 1..];
      assert line == name + " " + rest || line == name + "=" + rest;
      if '=' in line {
        var key := KeyExists(line);
      }
    }
  }

  lemma EndsExactly(text: string, value: string)
    ensures EndsAs(text, value) <==> Direct(text) == value
  {
    if text != "" {
      var n := |text| - 1;
      assert text == text[..n] + [text[n]];
      assert text[n] in "\r\n" <==> text[n] in {'\r', '\n'};
    } else {
      assert |value + "\r"| > 0 && |value + "\n"| > 0;
    }
  }

  lemma GivesNothingExactly(file: Lines, line: string, name: string)
    ensures GivesNothing(file, line, name) <==>
            (Defines(line, name) ==> IsReference(Content(line)) && Denote(file, Content(line)[1..]) == NotFound)
  {
    GivesExactly(line, name, Content(line));
    forall text | Gives(line, name, text) ensures Defines(line, name) && Content(line) == text {
      GivesExactly(line, name, text);
    }
  }

  lemma FirstIs(file: Lines, name: string, i: nat, v: string)
    requires i < |file| && Defines(file[i], name)
    requires var content := Content(file[i]);
             if IsReference(content) then Denote(file, content[1..]) == Found(v) else Direct(content) == v
    requires NothingBefore(file, name, i)
    ensures FirstGives(file, name, i, v)
  {
    GivesExactly(file[i], name, Content(file[i]));
    EndsExactly(Content(file[i]), v);
  }

  lemma NothingNext(file: Lines, i: nat, name: string)
    requires i < |file| && NothingBefore(file, name, i)
    requires Defines(file[i], name) ==>
               IsReference(Content(file[i])) && Denote(file, Content(file[i])[1..]) == NotFound
    ensures NothingBefore(file, name, i + 1)
  {
    GivesNothingExactly(file, file[i], name);
  }

  lemma {:induction false} ScanFindsFirst(file: Lines, i: nat, name: string, depth: nat)
    requires i <= |file| && Scan(file, i, name, depth).Some? && NothingBefore(file, name, i)
    ensures var r := Scan(file, i, name, depth).value;
            if r.Some? then exists k :: FirstGives(file, name, k, r.value) else NoneGives(file, name)
    decreases |file| - i
  {
    if i < |file| {
      var content := Content(file[i]);
      if Defines(file[i], name) && !IsReference(content) {
        FirstIs(file, name, i, Direct(content));
      } else {
        if Defines(file[i], name) {
          EvalIsDenote(file, content[1..], depth);
        }
        if Defines(file[i], name) && Denote(file, content[1..]).Found? {
          FirstIs(file, name, i, Denote(file, content[1..]).value);
        } else {
          NothingNext(file, i, name);
          ScanFindsFirst(file, i + 1, name, depth);
        }
      }
    }
  }

  lemma OneValue(file: Lines, name: string, i: nat, k: nat, v: string, w: string)
    requires FirstGives(file, name, i, v) && FirstGives(file, name, k, w)
    ensures v == w && !NoneGives(file, name)
  {
    var text :| Gives(file[i], name, text) && StandsFor(file, text, v);
    var other :| Gives(file[k], name, other) && StandsFor(file, other, w);
    GivesExactly(file[i], name, text);
    GivesExactly(file[k], name, other);
    if text != "" && text[0] == '$' {
      assert i == k;
    } else {
      assert i == k;
      EndsExactly(text, v);
      EndsExactly(text, w);
    }
  }

  /** A finite lookup finds v exactly when v is what the first line for the name that gives a value gives, and finds
      nothing exactly when no line gives one. */
  lemma LookupExactly(file: Lines, name: string)
    requires !Denote(file, name).Endless?
    ensures forall v :: Denote(file, name) == Found(v) <==> exists i :: FirstGives(file, name, i, v)
    ensures Denote(file, name) == NotFound <==> NoneGives(file, name)
  {
    FiniteExactly(file, name);
    var depth := |References(file)| + 1;
    EvalIsDenote(file, name, depth);
    ScanFindsFirst(file, 0, name, depth - 1);
    forall i, k, v, w | FirstGives(file, name, i, v) && FirstGives(file, name, k, w)
      ensures v == w && !NoneGives(file, name)
    {
      OneValue(file, name, i, k, v, w);
    }
  }

  /** What a call returns, as the lines of the file say it. */
  lemma EvalExactly(file: Lines, name: string, depth: nat)
    requires Eval(file, name, depth).Some?
    ensures var r := Eval(file, name, depth).value;
            if r.Some? then exists i :: FirstGives(file, name, i, r.value) else NoneGives(file, name)
  {
    ScanFindsFirst(file, 0, name, depth - 1);
  }

  /** A line that is passed over when looking up the name: a comment, or one that does not start with the name and
      a space or an equals sign. */
  predicate PassedOver(line: string, name: string) {
    (line != "" && line[0] == '#') || !(name + " " <= line || name + "=" <= line)
  }

  lemma EqualsLine(name: string, gap: string, text: string)
    requires '=' !in name && (name == "" || name[0] != '#') && gap in {"", " "}
    ensures Gives(name + gap + "=" + text, name, text)
  {
    var line := name + gap + "=" + text;
    assert line == (name + gap) + "=" + text && '=' !in name + gap;
    assert line[|name + gap|] == '=';
    if gap == " " {
      assert line == name + " " + ("=" + text);
    } else {
      assert line == name + "=" + text;
    }
    assert line[0] == if name != "" then name[0] else if gap == " " then ' ' else '=';
  }

  lemma {:induction false} ScanPasses(file: Lines, i: nat, end: nat, name: string, depth: nat)
    requires i <= end <= |file| && forall j :: i <= j < end ==> !Defines(file[j], name)
    ensures Scan(file, i, name, depth) == Scan(file, end, name, depth)
    decreases end - i
  {
    if i < end {
      ScanPasses(file, i + 1, end, name, depth);
    }
  }

  /** The first line that is not passed over decides, if it is not a reference that finds nothing. */
  lemma FirstLineDecides(before: Lines, line: string, after: Lines, name: string, text: string, depth: nat)
    requires Gives(line, name, text) && depth > 0
    requires forall l :: l in before ==> PassedOver(l, name)
    ensures var file := before + [line] + after;
            && (!IsReference(text) ==> Eval(file, name, depth) == Some(Some(Direct(text))))
            && (IsReference(text) && Eval(file, text[1..], depth - 1) != Some(None) ==>
                  Eval(file, name, depth) == Eval(file, text[1..], depth - 1))
  {
    var file := before + [line] + after;
    GivesExactly(line, name, text);
    assert file[|before|] == line;
    forall j | 0 <= j < |before| ensures !Defines(file[j], name) {
      assert file[j] == before[j] && before[j] in before;
    }
    ScanPasses(file, 0, |before|, name, depth - 1);
  }

  /** Plain properties: a value that is no reference and ends in no line end is read as it stands, from the first line
      that is not passed over, with or without a carriage return after it or a space before the equals sign. */
  lemma PlainLineIsRead(before: Lines, after: Lines, name: string, gap: string, v: string, end: string, depth: nat)
    requires '=' !in name && (name == "" || name[0] != '#') && gap in {"", " "} && end in {"", "\r"}
    requires v == "" || (v[0] != '$' && v[|v| - 1] !in "\r\n")
    requires forall line :: line in before ==> PassedOver(line, name)
    requires depth > 0
    ensures Eval(before + [name + gap + "=" + v + end] + after, name, depth) == Some(Some(v))
  {
    assert name + gap + "=" + v + end == name + gap + "=" + (v + end);
    EqualsLine(name, gap, v + end);
    EndsExactly(v + end, v);
    FirstLineDecides(before, name + gap + "=" + v + end, after, name, v + end, depth);
  }

  /** A reference is read as the property it refers to, one level further down. */
  lemma ReferenceLineIsRead(before: Lines, after: Lines, name: string, gap: string, other: string, depth: nat)
    requires '=' !in name && (name == "" || name[0] != '#') && gap in {"", " "}
    requires forall line :: line in before ==> PassedOver(line, name)
    requires depth > 0
    ensures var file := before + [name + gap + "=$" + other] + after;
            Eval(file, other, depth - 1) != Some(None) ==> Eval(file, name, depth) == Eval(file, other, depth - 1)
  {
    assert name + gap + "=$" + other == name + gap + "=" + ("$" + other);
    EqualsLine(name, gap, "$" + other);
    assert ("$" + other)[1..] == other;
    FirstLineDecides(before, name + gap + "=$" + other, after, name, "$" + other, depth);
  }

  /** Files without cyclic references: each name can be given a rank above that of the names it refers to. */
  ghost predicate Acyclic(file: Lines, rank: string -> nat) {
    forall line, name :: line in file && Defines(line, name) && IsReference(Content(line))
      ==> rank(Content(line)[1..]) < rank(name)
  }

  lemma {:induction false} AcyclicIsFinite(file: Lines, name: string, rank: string -> nat)
    requires Acyclic(file, rank)
    ensures !Denote(file, name).Endless?
  {
    AcyclicEval(file, name, rank, rank(name) + 1);
    FiniteExactly(file, name);
  }

  lemma {:induction false} AcyclicEval(file: Lines, name: string, rank: string -> nat, depth: nat)
    requires Acyclic(file, rank) && rank(name) < depth
    ensures Eval(file, name, depth).Some?
    decreases depth, 0, 0
  {
    AcyclicScan(file, 0, name, rank, depth - 1);
  }

  lemma {:induction false} AcyclicScan(file: Lines, i: nat, name: string, rank: string -> nat, depth: nat)
    requires i <= |file| && Acyclic(file, rank) && rank(name) <= depth
    ensures Scan(file, i, name, depth).Some?
    decreases depth, 1, |file| - i
  {
    if i < |file| {
      AcyclicScan(file, i + 1, name, rank, depth);
      if Defines(file[i], name) && IsReference(Content(file[i])) {
        AcyclicEval(file, Content(file[i])[1..], rank, depth);
      }
    }
  }

  /** A value that was found never starts with '$'. */
  lemma {:induction false} FoundIsNoReference(file: Lines, name: string, depth: nat)
    requires Eval(file, name, depth).Some? && Eval(file, name, depth).value.Some?
    ensures !IsReference(Eval(file, name, depth).value.value)
    decreases depth, 0, 0
  {
    ScannedIsNoReference(file, 0, name, depth - 1);
  }

  lemma {:induction false} ScannedIsNoReference(file: Lines, i: nat, name: string, depth: nat)
    requires i <= |file| && Scan(file, i, name, depth).Some? && Scan(file, i, name, depth).value.Some?
    ensures !IsReference(Scan(file, i, name, depth).value.value)
    decreases depth, 1, |file| - i
  {
    if Defines(file[i], name) && IsReference(Content(file[i]))
       && Eval(file, Content(file[i])[1..], depth).value.Some? {
      FoundIsNoReference(file, Content(file[i])[1..], depth);
    } else if !Defines(file[i], name) || IsReference(Content(file[i])) {
      ScannedIsNoReference(file, i + 1, name, depth);
    }
  }
}
