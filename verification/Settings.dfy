/** cSettings (helpers/cSettings.h): a key/value store kept in memory and rewritten to a text file, one
    key=value line per entry, after every change. */
module Settings {
  import opened Options
  import opened StringSplit

  /** The JSON container, by label and by the text String() gives for the value. */
  type Entries = map<string, string>

  /** c_str() ends at a NUL. */
  function CStr(s: string): (r: string)
    ensures '\0' !in r
  {
    if s == "" || s[0] == '\0' then "" else [s[0]] + CStr(s[1..])
  }

  lemma {:induction false} CStrKeeps(s: string)
    requires '\0' !in s
    ensures CStr(s) == s
  {
    if s != "" {
      CStrKeeps(s[1..]);
    }
  }

  // ---- printing ----

  function Line(key: string, value: string): string {
    key + "=" + value + "\n"
  }

  /** The file writeToFile leaves when the container hands out its labels in this order. */
  function Printed(data: Entries, order: seq<string>): string
    requires forall k :: k in order ==> k in data
  {
    if order == [] then ""
    else (if data[order[0]] == "" then "" else Line(order[0], data[order[0]])) + Printed(data, order[1..])
  }

  predicate OrderOf(data: Entries, order: seq<string>) {
    (forall k :: k in order ==> k in data) && (forall k :: k in data ==> k in order)
  }

  // ---- parsing ----

  /** find_last_of("=") */
  function LastEquals(line: string): (p: Option<nat>)
    ensures p.None? ==> '=' !in line
    ensures p.Some? ==> p.value < |line| && line[p.value] == '=' && '=' !in line[p.value + 1..]
  {
    if line == "" then None
    else if line[|line| - 1] == '=' then Some(|line| - 1)
    else
      var p := LastEquals(line[..|line| - 1]);
      assert line == line[..|line| - 1] + [line[|line| - 1]];
      assert p.Some? ==> line[p.value + 1..] == line[..|line| - 1][p.value + 1..] + [line[|line| - 1]];
      p
  }

  /** One line read: it changes the entries only if there is a '=' in it. */
  function ParseLine(data: Entries, line: string): Entries {
    match LastEquals(line)
    case None => data
    case Some(p) => data[CStr(line[..p]) := line[p + 1..]]
  }

  function ParseLines(data: Entries, lines: seq<string>): Entries
    decreases |lines|
  {
    if lines == [] then data else ParseLines(ParseLine(data, lines[0]), lines[1..])
  }

  /** getline until the end of the file: the pieces between newlines. */
  function LinesOf(content: string): seq<string> {
    Pieces(content, "\n")
  }

  function Parse(content: string): Entries {
    ParseLines(map[], LinesOf(content))
  }

  // ---- what survives printing and parsing ----

  /** The entries contains() answers for. */
  function Visible(data: Entries): Entries {
    map k | k in data && data[k] != "" :: data[k]
  }

  predicate CleanEntry(key: string, value: string) {
    '\n' !in key && '\0' !in key && '\n' !in value && '=' !in value
  }

  predicate Clean(data: Entries) {
    forall k :: k in data ==> CleanEntry(k, data[k])
  }

  lemma {:induction false} LastEqualsIs(line: string, p: nat)
    requires p < |line| && line[p] == '=' && '=' !in line[p + 1..]
    ensures LastEquals(line) == Some(p)
  {
    var n := |line| - 1;
    if p < n {
      assert line[n] == line[p + 1..][n - p - 1];
      assert line[p + 1..] == line[..n][p + 1..] + [line[n]];
      LastEqualsIs(line[..n], p);
    }
  }

  /** c_str() is the text before the first NUL. */
  lemma {:induction false} CStrCuts(s: string, rest: string)
    requires '\0' !in s
    ensures CStr(s) == s && CStr(s + "\0" + rest) == s
  {
    CStrKeeps(s);
    var whole := s + "\0" + rest;
    assert whole[|s|] == '\0';
    if s != "" {
      assert whole[0] == s[0] && whole[1..] == s[1..] + "\0" + rest;
      CStrCuts(s[1..], rest);
    }
  }

  /** A line without '=' changes nothing. Any other one sets the entry under what stands before its last '=', cut at a
      NUL, to what stands after it, which may be nothing. */
  lemma LineParses(data: Entries, name: string, value: string, other: string)
    requires '=' !in value && '=' !in other
    ensures ParseLine(data, name + "=" + value) == data[CStr(name) := value]
    ensures ParseLine(data, other) == data
  {
    NamedLine(name, value);
  }

  lemma NamedLine(name: string, value: string)
    requires '=' !in value
    ensures var line := name + "=" + value;
            LastEquals(line) == Some(|name|) && line[..|name|] == name && line[|name| + 1..] == value
  {
    var line := name + "=" + value;
    assert line[|name|] == '=' && line[|name| + 1..] == value && line[..|name|] == name;
    LastEqualsIs(line, |name|);
  }

  lemma LineNamed(line: string)
    ensures var p := LastEquals(line);
            p.Some? ==> line == line[..p.value] + "=" + line[p.value + 1..] && '=' !in line[p.value + 1..]
  {
  }

  /** The line gives this value to this key. */
  ghost predicate Sets(line: string, key: string, value: string) {
    '=' !in value && exists name :: line == name + "=" + value && CStr(name) == key
  }

  lemma SetsExactly(data: Entries, line: string, key: string, value: string)
    ensures Sets(line, key, value) <==>
            var p := LastEquals(line);
            p.Some? && CStr(line[..p.value]) == key && line[p.value + 1..] == value
  {
    if Sets(line, key, value) {
      var name :| line == name + "=" + value && CStr(name) == key;
      NamedLine(name, value);
    }
    LineNamed(line);
  }

  /** Line i is the last one for the key. */
  ghost predicate LastFor(lines: seq<string>, i: nat, key: string, value: string) {
    && i < |lines| && Sets(lines[i], key, value)
    && forall j, v :: i < j < |lines| ==> !Sets(lines[j], key, v)
  }

  ghost predicate NoneFor(lines: seq<string>, key: string) {
    forall j, v :: 0 <= j < |lines| ==> !Sets(lines[j], key, v)
  }

  predicate Holds(data: Entries, key: string, value: string) {
    key in data && data[key] == value
  }

  lemma LineHolds(data: Entries, line: string, key: string, value: string)
    ensures Holds(ParseLine(data, line), key, value) <==>
            Sets(line, key, value) || (Holds(data, key, value) && forall v :: !Sets(line, key, v))
  {
    forall v ensures Sets(line, key, v) <==>
                     var p := LastEquals(line);
                     p.Some? && CStr(line[..p.value]) == key && line[p.value + 1..] == v
    {
      SetsExactly(data, line, key, v);
    }
    if LastEquals(line).Some? && CStr(line[..LastEquals(line).value]) == key {
      assert Sets(line, key, line[LastEquals(line).value + 1..]);
    }
  }

  lemma LinesShift(lines: seq<string>, key: string, value: string)
    requires lines != []
    ensures NoneFor(lines, key) <==> NoneFor(lines[1..], key) && forall v :: !Sets(lines[0], key, v)
    ensures (exists i :: LastFor(lines, i, key, value)) <==>
            (exists i :: LastFor(lines[1..], i, key, value)) || (Sets(lines[0], key, value) && NoneFor(lines[1..], key))
  {
    var rest := lines[1..];
    if i: nat :| LastFor(lines, i, key, value) {
      if i > 0 {
        assert LastFor(rest, i - 1, key, value);
      }
    }
    if i: nat :| LastFor(rest, i, key, value) {
      assert LastFor(lines, i + 1, key, value);
    }
    if Sets(lines[0], key, value) && NoneFor(rest, key) {
      assert LastFor(lines, 0, key, value);
    }
  }

  /** A file read over what was there: a key has the value of the last line for it, and keeps its value if there is
      no line for it. */
  lemma {:induction false} ParsedExactly(data: Entries, lines: seq<string>, key: string, value: string)
    ensures Holds(ParseLines(data, lines), key, value) <==>
            (exists i :: LastFor(lines, i, key, value)) || (NoneFor(lines, key) && Holds(data, key, value))
    decreases |lines|
  {
    if lines != [] {
      ParsedExactly(ParseLine(data, lines[0]), lines[1..], key, value);
      LineHolds(data, lines[0], key, value);
      LinesShift(lines, key, value);
    }
  }

  lemma FirstLine(line: string, rest: string)
    requires '\n' !in line
    ensures LinesOf(line + "\n" + rest) == [line] + LinesOf(rest)
  {
    var s := line + "\n" + rest;
    assert s[..|line|] == line && s[|line|] == '\n' && s[|line| + 1..] == rest;
    FirstDelimiterIs(s, "\n", |line|);
  }

  /** The entries a file printed in this order shows. */
  function Shown(data: Entries, order: seq<string>): Entries
    requires forall k :: k in order ==> k in data
  {
    map k | k in order && data[k] != "" :: data[k]
  }

  lemma NothingPrinted(read: Entries)
    ensures ParseLines(read, LinesOf("")) == read
  {
    assert LinesOf("") == [""];
    assert ParseLines(read, [""]) == ParseLines(ParseLine(read, ""), [""][1..]);
  }

  lemma LinePrinted(read: Entries, key: string, value: string, rest: string)
    requires CleanEntry(key, value)
    ensures ParseLines(read, LinesOf(Line(key, value) + rest)) == ParseLines(read[key := value], LinesOf(rest))
  {
    FirstLine(key + "=" + value, rest);
    assert Line(key, value) + rest == (key + "=" + value) + "\n" + rest;
    LineParses(read, key, value, "");
    CStrKeeps(key);
    var lines := LinesOf(Line(key, value) + rest);
    assert lines[1..] == LinesOf(rest);
  }

  lemma {:induction false} PrintedParses(data: Entries, order: seq<string>, read: Entries)
    requires Clean(Visible(data)) && forall k :: k in order ==> k in data
    ensures ParseLines(read, LinesOf(Printed(data, order))) == read + Shown(data, order)
    decreases |order|
  {
    if order == [] {
      NothingPrinted(read);
    } else {
      var k, rest := order[0], Printed(data, order[1..]);
      ShownStep(data, order, read);
      if data[k] == "" {
        PrintedParses(data, order[1..], read);
        assert Printed(data, order) == rest;
      } else {
        assert k in Visible(data);
        LinePrinted(read, k, data[k], rest);
        PrintedParses(data, order[1..], read[k := data[k]]);
      }
    }
  }

  lemma ShownStep(data: Entries, order: seq<string>, read: Entries)
    requires order != [] && forall k :: k in order ==> k in data
    ensures var k := order[0];
            read + Shown(data, order)
            == (if data[k] == "" then read else read[k := data[k]]) + Shown(data, order[1..])
  {
    assert order == [order[0]] + order[1..];
  }

  /** Whatever was parsed is clean. */
  lemma {:induction false} ParsedIsClean(data: Entries, lines: seq<string>)
    requires Clean(data) && forall i :: 0 <= i < |lines| ==> '\n' !in lines[i]
    ensures Clean(ParseLines(data, lines))
    decreases |lines|
  {
    if lines != [] {
      var line := lines[0];
      var p := LastEquals(line);
      if p.Some? {
        assert line == line[..p.value] + line[p.value..];
        assert line == line[..p.value + 1] + line[p.value + 1..];
        CStrPart(line[..p.value], '\n');
      }
      ParsedIsClean(ParseLine(data, line), lines[1..]);
    }
  }

  lemma {:induction false} CStrPart(s: string, c: char)
    requires c !in s
    ensures c !in CStr(s)
  {
    if s != "" {
      CStrPart(s[1..], c);
    }
  }

  /** Re-reading a printed file gives back exactly the entries with a non-empty text if and only if all of these are
      clean: no newline or NUL in the key, no newline or '=' in the value. In whatever order they are printed. */
  lemma ReadBackExactly(data: Entries, order: seq<string>)
    requires OrderOf(data, order)
    ensures Parse(Printed(data, order)) == Visible(data) <==> Clean(Visible(data))
  {
    var content := Printed(data, order);
    if Clean(Visible(data)) {
      PrintedParses(data, order, map[]);
      assert map[] + Shown(data, order) == Visible(data);
    }
    SplitCuts(content, "\n");
    assert forall i :: 0 <= i < |LinesOf(content)| ==> FreeOf(LinesOf(content)[i], "\n");
    ParsedIsClean(map[], LinesOf(content));
  }
}
