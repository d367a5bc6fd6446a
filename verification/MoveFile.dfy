/** Utils::MoveFile (helpers/UtilsFile.h): copying in chunks, with partial reads and writes, and then removing one of
    the two files. */
module MoveFile {

  type byte = bv8

  /** The files there are, by name. The history variables record what the system did not do: `refused` that an open, a
      create or a write failed, `cutShort` that a read failed before the end of the file. */
  class FileSystem {
    var files: map<string, seq<byte>>
    ghost var refused: bool
    ghost var cutShort: bool

    constructor (files: map<string, seq<byte>>)
      ensures this.files == files && !refused && !cutShort
    {
      this.files := files;
      refused, cutShort := false, false;
    }
  }

  /** Core::File: a name and, once opened, a position. Which calls succeed, and how much one read or write
      moves, is up to the system. */
  class File {
    const fs: FileSystem
    const name: string
    var pos: nat

    constructor (fs: FileSystem, name: string)
      ensures this.fs == fs && this.name == name && pos == 0
    {
      this.fs, this.name, pos := fs, name, 0;
    }

    function Bytes(): seq<byte>
      reads fs
    {
      if name in fs.files then fs.files[name] else []
    }

    method Exists() returns (b: bool)
      ensures b <==> name in fs.files
    {
      b := name in fs.files;
    }

    method Open() returns (ok: bool)
      requires name in fs.files
      modifies this, fs`refused
      ensures pos == 0 && fs.refused == (old(fs.refused) || !ok)
    {
      ok := *;
      pos := 0;
      fs.refused := fs.refused || !ok;
    }

    method Create() returns (ok: bool)
      modifies fs`files, fs`refused
      ensures fs.files == if ok then old(fs.files)[name := []] else old(fs.files)
      ensures fs.refused == (old(fs.refused) || !ok)
    {
      ok := *;
      if ok {
        fs.files := fs.files[name := []];
      }
      fs.refused := fs.refused || !ok;
    }

    /** At most what is asked for and at most what is left; 0 at the end of the file, or when reading fails. */
    method Read(buffer: array<byte>, size: nat) returns (len: nat)
      requires 0 < size <= buffer.Length && pos <= |Bytes()|
      modifies this, buffer, fs`cutShort
      ensures len <= size && pos == old(pos) + len <= |Bytes()|
      ensures buffer[..len] == Bytes()[old(pos)..pos]
      ensures fs.cutShort == (old(fs.cutShort) || (len == 0 && pos < |Bytes()|))
    {
      len :| 0 <= len <= size && pos + len <= |Bytes()|;
      ghost var start := pos;
      var i := 0;
      while i < len
        invariant 0 <= i <= len && pos == start && start + len <= |Bytes()|
        invariant buffer[..i] == Bytes()[start..start + i]
        modifies buffer
      {
        buffer[i] := Bytes()[pos + i];
        assert buffer[..i + 1] == buffer[..i] + [buffer[i]];
        i := i + 1;
      }
      pos := pos + len;
      fs.cutShort := fs.cutShort || (len == 0 && pos < |Bytes()|);
    }

    /** Appends at most what is asked for; 0 when writing fails. */
    method Write(buffer: array<byte>, ptr: nat, size: nat) returns (count: nat)
      requires 0 < size && ptr + size <= buffer.Length && name in fs.files
      modifies fs`files, fs`refused
      ensures count <= size
      ensures fs.files == old(fs.files)[name := old(Bytes()) + buffer[ptr..ptr + count]]
      ensures fs.refused == (old(fs.refused) || count == 0)
    {
      count :| 0 <= count <= size;
      fs.files := fs.files[name := fs.files[name] + buffer[ptr..ptr + count]];
      fs.refused := fs.refused || count == 0;
    }

    method Destroy()
      modifies fs`files
      ensures fs.files == old(fs.files) - {name}
    {
      fs.files := fs.files - {name};
    }
  }

  const BUF_LEN: nat := 1024

  /** The inner loop: the chunk in the buffer goes out in as many writes as it takes. */
  method WriteChunk(fileTo: File, buffer: array<byte>, size: nat) returns (result: bool)
    requires 0 < size <= buffer.Length && fileTo.name in fileTo.fs.files && !fileTo.fs.refused
    modifies fileTo.fs`files, fileTo.fs`refused
    ensures fileTo.name in fileTo.fs.files
    ensures fileTo.fs.files - {fileTo.name} == old(fileTo.fs.files) - {fileTo.name}
    ensures result <==> !fileTo.fs.refused
    ensures result ==> fileTo.Bytes() == old(fileTo.Bytes()) + buffer[..size]
  {
    result := true;
    var len, ptr := size, 0;
    ghost var before := fileTo.Bytes();
    assert before + buffer[..ptr] == before;
    while true
      invariant 0 < len && ptr + len == size && result && !fileTo.fs.refused
      invariant fileTo.name in fileTo.fs.files && fileTo.Bytes() == before + buffer[..ptr]
      invariant fileTo.fs.files - {fileTo.name} == old(fileTo.fs.files) - {fileTo.name}
      decreases len
    {
      var count := fileTo.Write(buffer, ptr, len);
      assert before + buffer[..ptr] + buffer[ptr..ptr + count] == before + buffer[..ptr + count];
      if count <= 0 {
        return false;
      }
      len := len - count;
      ptr := ptr + count;
      if len == 0 {
        return;
      }
    }
  }

  /** True is returned exactly when there was a source and no destination, and nothing was refused on the way.
      Then the destination holds what could be read of the source, and the source is gone: all of it, unless a
      read failed, for a failed read ends the copy just like the end of the file does. False means that nothing
      has changed. No other file is touched either way. */
  method MoveFile(fs: FileSystem, from: string, to: string) returns (result: bool)
    requires !fs.refused && !fs.cutShort
    modifies fs
    ensures result <==> from in old(fs.files) && to !in old(fs.files) && !fs.refused
    ensures !result ==> fs.files == old(fs.files)
    ensures result && !fs.cutShort ==> fs.files == old(fs.files)[to := old(fs.files)[from]] - {from}
    ensures result && fs.cutShort ==>
              exists k :: 0 <= k < |old(fs.files)[from]|
                          && fs.files == old(fs.files)[to := old(fs.files)[from][..k]] - {from}
  {
    var fileFrom := new File(fs, from);
    var fileTo := new File(fs, to);
    result := fileFrom.Exists();
    if result {
      var present := fileTo.Exists();
      result := !present;
    }
    if result {
      result := fileFrom.Open();
    }
    if result {
      result := fileTo.Create();
    }
    if result {
      var buffer := new byte[BUF_LEN];
      ghost var content := old(fs.files)[from];
      while result
        invariant fileFrom.pos <= |content|
        invariant from in fs.files && to in fs.files && fs.files[from] == content
        invariant fs.files - {to} == old(fs.files)
        invariant result ==> fs.files[to] == content[..fileFrom.pos] && !fs.cutShort
        invariant result <==> !fs.refused
        decreases result, |content| - fileFrom.pos
      {
        var len := fileFrom.Read(buffer, BUF_LEN);
        if len <= 0 {
          break;
        }
        assert content[..fileFrom.pos] == content[..fileFrom.pos - len] + buffer[..len];
        result := WriteChunk(fileTo, buffer, len);
        assert fs.files[from] == (fs.files - {to})[from];
      }
      if result {
        assert content[..|content|] == content;
        assert fs.files == old(fs.files)[to := content[..fileFrom.pos]];
        fileFrom.Destroy();
      } else {
        fileTo.Destroy();
      }
    }
  }
}
