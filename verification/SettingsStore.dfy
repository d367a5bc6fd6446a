/** The cSettings object and its file. Whether the file can be opened, whether the container's Remove really
    removes, and the order in which the container hands out its labels are all left open. */
module SettingsStore {
  import opened Options
  import opened StringSplit
  import opened Settings

  /** A file: None when it does not exist. */
  class ConfFile {
    var content: Option<string>

    constructor (content: Option<string>)
      ensures this.content == content
    {
      this.content := content;
    }
  }

  class CSettings {
    const file: ConfFile
    var data: Entries

    /** The file holds what a print of the entries gives, in some order of the labels. */
    ghost predicate Written()
      reads this, file
    {
      file.content.Some? && exists order :: OrderOf(data, order) && file.content.value == Printed(data, order)
    }

    /** Opening the file anew would give the visible entries. */
    ghost predicate Synced()
      reads this, file
    {
      file.content.Some? && Parse(file.content.value) == Visible(data)
    }

    /** Reads the file, or creates it if that fails. */
    constructor (file: ConfFile, readable: bool, creatable: bool)
      modifies file
      ensures this.file == file
      ensures data == if old(file.content).Some? && readable then Parse(old(file.content).value) else map[]
      ensures file.content == if old(file.content).None? && creatable then Some("") else old(file.content)
    {
      this.file := file;
      data := map[];
      new;
      var ok := ReadFromFile(readable);
      if !ok {
        if creatable {
          if file.content.None? {
            file.content := Some("");
          }
        }
      }
    }

    /** getline: the text up to the next newline; the end of the file is noticed when there is no newline left. */
    method GetLine(rest: string) returns (line: string, left: string, eof: bool)
      ensures LinesOf(rest) == [line] + if eof then [] else LinesOf(left)
      ensures !eof ==> |left| < |rest|
    {
      var n := FirstDelimiter(rest, "\n");
      if n == |rest| {
        line, left, eof := rest, "", true;
      } else {
        line, left, eof := rest[..n], rest[n + 1..], false;
      }
    }

    method ReadFromFile(readable: bool) returns (ok: bool)
      modifies this`data
      ensures ok <==> file.content.Some? && readable
      ensures data == if ok then ParseLines(old(data), LinesOf(file.content.value)) else old(data)
    {
      if file.content.None? {
        return false;
      }
      if !readable {
        return false;
      }
      var rest, eof := file.content.value, false;
      while !eof
        invariant !eof ==> ParseLines(data, LinesOf(rest)) == ParseLines(old(data), LinesOf(file.content.value))
        invariant eof ==> data == ParseLines(old(data), LinesOf(file.content.value))
        decreases !eof, |rest|
      {
        var line;
        ghost var lines := LinesOf(rest);
        line, rest, eof := GetLine(rest);
        assert lines[1..] == if eof then [] else LinesOf(rest);
        data := ParseLine(data, line);
      }
      ok := true;
    }

    method WriteToFile(writable: bool) returns (ok: bool)
      modifies file
      ensures ok <==> old(file.content).Some? && writable
      ensures ok ==> Written() && (Synced() <==> Clean(Visible(data)))
      ensures !ok ==> file.content == old(file.content)
    {
      if file.content.None? || !writable {
        return false;
      }
      var text := "";
      var tags := data.Keys;
      ghost var order: seq<string> := [];
      while tags != {}
        invariant tags <= data.Keys
        invariant forall k :: k in order <==> k in data && k !in tags
        invariant text == Printed(data, order)
        invariant file.content == old(file.content)
        decreases |tags|
      {
        var tag :| tag in tags;
        if data[tag] != "" {
          text := text + tag + "=" + data[tag] + "\n";
        }
        PrintedNext(data, order, tag);
        order := order + [tag];
        tags := tags - {tag};
      }
      file.content := Some(text);
      assert OrderOf(data, order);
      ReadBackExactly(data, order);
      ok := true;
    }

    /** setValue; an int or a bool is given by its text. */
    method SetValue(key: string, value: string, writable: bool) returns (ok: bool)
      modifies this`data, file
      ensures data == old(data)[CStr(key) := value]
      ensures ok <==> old(file.content).Some? && writable
      ensures ok ==> Written() && (Synced() <==> Clean(Visible(data)))
      ensures !ok ==> file.content == old(file.content)
    {
      data := data[CStr(key) := value];
      ok := WriteToFile(writable);
    }

    method Contains(key: string) returns (resp: bool)
      ensures resp <==> CStr(key) in Visible(data)
    {
      if CStr(key) in data {
        resp := data[CStr(key)] != "";
      } else {
        resp := false;
      }
    }

    /** remove: the entry is blanked first, in case the container does not really remove it. */
    method Remove(key: string, removes: bool, writable: bool) returns (status: bool)
      modifies this`data, file
      ensures Visible(data) == Visible(old(data)) - {CStr(key)}
      ensures status <==> old(file.content).Some? && writable
      ensures status ==> Written() && (Synced() <==> Clean(Visible(data)))
      ensures !status ==> file.content == old(file.content)
    {
      BlankedIsGone(data, CStr(key));
      data := data[CStr(key) := ""];
      if removes {
        data := data - {CStr(key)};
      }
      var present := Contains(key);
      if !present {
        status := WriteToFile(writable);
      } else {
        status := false;
      }
    }
  }

  lemma BlankedIsGone(data: Entries, key: string)
    ensures Visible(data[key := ""]) == Visible(data) - {key}
    ensures Visible(data[key := ""] - {key}) == Visible(data) - {key}
  {
  }

  lemma {:induction false} PrintedNext(data: Entries, order: seq<string>, tag: string)
    requires tag in data && forall k :: k in order ==> k in data
    ensures Printed(data, order + [tag]) ==
            Printed(data, order) + if data[tag] == "" then "" else tag + "=" + data[tag] + "\n"
  {
    if order == [] {
      assert order + [tag] == [tag];
      assert Printed(data, [tag][1..]) == "";
    } else {
      assert order == [order[0]] + order[1..];
      assert (order + [tag])[1..] == order[1..] + [tag];
      PrintedNext(data, order[1..], tag);
    }
  }

  // ---- whole runs ----

  datatype Op = Set(key: string, value: string, writable: bool) | Delete(key: string, removes: bool, writable: bool)

  /** What the visible entries should be after an operation, whatever happens to the file. */
  function Replayed(entries: Entries, op: Op): Entries {
    match op
    case Set(key, value, _) => if value == "" then entries - {CStr(key)} else entries[CStr(key) := value]
    case Delete(key, _, _) => entries - {CStr(key)}
  }

  function Replay(ops: seq<Op>, entries: Entries): Entries
    decreases |ops|
  {
    if ops == [] then entries else Replayed(Replay(ops[..|ops| - 1], entries), ops[|ops| - 1])
  }

  /** What the last operation on this key left visible, `initial` if there was none. */
  function LastOn(ops: seq<Op>, key: string, initial: Option<string>): Option<string>
    decreases |ops|
  {
    if ops == [] then initial
    else
      var op := ops[|ops| - 1];
      if CStr(op.key) != key then LastOn(ops[..|ops| - 1], key, initial)
      else if op.Set? && op.value != "" then Some(op.value)
      else None
  }

  function At(entries: Entries, key: string): Option<string> {
    if key in entries then Some(entries[key]) else None
  }

  /** Each key has what the last operation on it gave it, or had it before if there was none. */
  lemma {:induction false} ReplayExactly(ops: seq<Op>, entries: Entries, key: string)
    ensures At(Replay(ops, entries), key) == LastOn(ops, key, At(entries, key))
    decreases |ops|
  {
    if ops != [] {
      ReplayExactly(ops[..|ops| - 1], entries, key);
    }
  }

  method Perform(s: CSettings, op: Op) returns (ok: bool)
    modifies s`data, s.file
    ensures Visible(s.data) == Replayed(old(Visible(s.data)), op)
    ensures ok <==> old(s.file.content).Some? && op.writable
    ensures s.file.content.Some? <==> old(s.file.content).Some?
    ensures ok ==> (s.Synced() <==> Clean(Visible(s.data)))
  {
    match op {
      case Set(key, value, writable) => ok := s.SetValue(key, value, writable);
      case Delete(key, removes, writable) => ok := s.Remove(key, removes, writable);
    }
  }

  /** Any run of setValue and remove on an object in any state, and then a fresh object on the same file. `succeeded`
      is what the last call returned. If that is true, whatever the earlier calls returned, the fresh object holds
      exactly the replayed entries, provided those are clean; and only then. */
  method RunAndReopen(s: CSettings, ops: seq<Op>) returns (succeeded: bool, reopened: CSettings)
    modifies s, s.file
    ensures Visible(s.data) == Replay(ops, old(Visible(s.data)))
    ensures succeeded <==>
              if ops == [] then old(s.Synced()) else old(s.file.content).Some? && ops[|ops| - 1].writable
    ensures succeeded ==>
              (reopened.data == Replay(ops, old(Visible(s.data))) <==> Clean(Replay(ops, old(Visible(s.data)))))
  {
    succeeded := InStep(s);
    if s.file.content.Some? {
      ParsedFileIsClean(s.file.content.value);
    }
    var i := 0;
    while i < |ops|
      invariant 0 <= i <= |ops|
      invariant Visible(s.data) == Replay(ops[..i], old(Visible(s.data)))
      invariant s.file.content.Some? <==> old(s.file.content).Some?
      invariant succeeded <==>
                  if i == 0 then old(s.Synced()) else old(s.file.content).Some? && ops[i - 1].writable
      invariant succeeded ==> s.file.content.Some? && (s.Synced() <==> Clean(Visible(s.data)))
    {
      assert ops[..i + 1][..i] == ops[..i];
      succeeded := Perform(s, ops[i]);
      i := i + 1;
    }
    assert ops[..i] == ops;
    reopened := new CSettings(s.file, true, true);
  }

  /** Whether the file gives the visible entries. */
  method InStep(s: CSettings) returns (b: bool)
    ensures b <==> s.Synced()
  {
    b := s.file.content.Some? && Parse(s.file.content.value) == Visible(s.data);
  }

  lemma ParsedFileIsClean(content: string)
    ensures Clean(Parse(content))
  {
    SplitCuts(content, "\n");
    assert forall i :: 0 <= i < |LinesOf(content)| ==> FreeOf(LinesOf(content)[i], "\n");
    ParsedIsClean(map[], LinesOf(content));
  }
}
