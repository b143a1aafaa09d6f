/** Directories, and the standard streams that read and write their files.
    Reading is reliable; every step that writes may fail, leaving the file damaged. */
module Files {
  import opened Wrappers
  import opened CText

  const PATH_SIZE: nat := 4096

  /** A directory at one moment: its path and the bytes of its files. */
  datatype Snapshot = Snapshot(path: string, files: map<string, string>) {
    /** `join_path` succeeds: the joined path and its NUL fit the buffer. */
    predicate Joins(name: string) {
      |path| + 1 + |name| < PATH_SIZE
    }

    /** Joining the path and opening for reading. */
    function Read(name: string): (r: Option<string>) {
      if Joins(name) && name in files then Some(files[name]) else None
    }
  }

  /** `folder` says whether the path names a directory at all; if not, no file can be created in it. `faulty` remembers
      that creating, printing or closing has failed here, so that a failure can be told from giving up. */
  class Directory {
    const path: string
    const folder: bool
    var files: map<string, string>
    ghost var faulty: bool

    constructor (path: string, folder: bool)
      ensures this.path == path && this.folder == folder && files == map[] && !faulty
    {
      this.path, this.folder, files, faulty := path, folder, map[], false;
    }

    function Now(): (r: Snapshot)
      reads this
    {
      Snapshot(path, files)
    }

    /** `fopen` with mode "w" of a name in this directory; null when joining or opening fails. */
    method Create(name: string) returns (out: Output?)
      modifies this
      ensures out == null ==> files == old(files)
      ensures out != null ==> fresh(out) && out.dir == this && out.name == name && out.text == ""
      ensures out != null ==> folder && Now().Joins(name) && files == old(files)[name := ""]
      ensures faulty <==> old(faulty) || out == null
    {
      var granted := *;
      if folder && |path| + 1 + |name| < PATH_SIZE && granted {
        out := new Output(this, name);
        files := files[name := ""];
      } else {
        out, faulty := null, true;
      }
    }
  }

  /** A joined path has at most 4095 bytes. */
  lemma JoinFits(dir: Snapshot, name: string)
    ensures dir.Joins(name) <==> |dir.path + "/" + name| < 4096
  {
  }

  /** Directories that agree outside some names read the same under every other name. */
  lemma ReadOutside(a: Snapshot, b: Snapshot, names: set<string>, name: string)
    requires a.path == b.path && a.files - names == b.files - names && name !in names
    ensures a.Read(name) == b.Read(name)
  {
    assert name in a.files <==> name in a.files - names;
    assert name in b.files <==> name in b.files - names;
    if name in a.files {
      assert a.files[name] == (a.files - names)[name] == (b.files - names)[name] == b.files[name];
    }
  }

  /** Only the named file may differ. */
  ghost predicate OnlyChanged(before: map<string, string>, after: map<string, string>, name: string) {
    name in after && after == before[name := after[name]]
  }

  /** A stream open for writing. `text` is what a successful close leaves in the file;
      until then an arbitrary part of it has reached the file. */
  class Output {
    const dir: Directory
    const name: string
    var text: string

    constructor (dir: Directory, name: string)
      ensures this.dir == dir && this.name == name && text == ""
    {
      this.dir, this.name, text := dir, name, "";
    }

    /** `fputs`, `fprintf` and `fwrite`. */
    method Put(s: string) returns (ok: bool)
      modifies this, dir
      ensures ok ==> text == old(text) + s
      ensures old(text) <= text && text[|old(text)|..] <= s
      ensures OnlyChanged(old(dir.files), dir.files, name) && dir.files[name] <= text
      ensures dir.faulty <==> old(dir.faulty) || !ok
    {
      var written: nat :| written <= |s|;
      text := text + s[..written];
      ok := written == |s|;
      if !ok { dir.faulty := true; }
      Flush();
    }

    method Flush()
      modifies dir
      ensures OnlyChanged(old(dir.files), dir.files, name) && dir.files[name] <= text
      ensures dir.faulty == old(dir.faulty)
    {
      var reached: nat :| reached <= |text|;
      dir.files := dir.files[name := text[..reached]];
    }

    /** `fclose`. */
    method Close() returns (ok: bool)
      modifies dir
      ensures OnlyChanged(old(dir.files), dir.files, name) && dir.files[name] <= text
      ensures ok ==> dir.files == old(dir.files)[name := text]
      ensures dir.faulty <==> old(dir.faulty) || !ok
    {
      ok := *;
      if ok {
        dir.files := dir.files[name := text];
      } else {
        dir.faulty := true;
        Flush();
      }
    }
  }

  /** A stream open for reading; `rest` is what it has not delivered yet. */
  class Reader {
    var rest: string

    constructor (text: string)
      ensures rest == text
    {
      rest := text;
    }

    /** `fgets` into the line buffer, seen as a C string; none at the end of the file. */
    method Fgets() returns (line: Option<string>)
      modifies this
      ensures old(rest) == "" ==> line == None && rest == ""
      ensures old(rest) != "" ==> line.Some? && Lines(old(rest)) == [line.value] + Lines(rest)
      ensures |rest| < |old(rest)| || line == None
    {
      if rest == "" {
        line := None;
      } else {
        var n := FgetsLength(rest);
        line := Some(CStr(rest[..n]));
        rest := rest[n..];
      }
    }

    /** `fgetc`; -1 is `EOF`. */
    method Fgetc() returns (c: int)
      modifies this
      ensures old(rest) == "" ==> c == -1 && rest == ""
      ensures old(rest) != "" ==> c == old(rest)[0] as int && rest == old(rest)[1..]
    {
      if rest == "" {
        c := -1;
      } else {
        c := rest[0] as int;
        rest := rest[1..];
      }
    }

    /** `fread` of up to `size` bytes. */
    method Fread(size: nat) returns (buffer: string)
      modifies this
      ensures |buffer| == Min(size, |old(rest)|)
      ensures old(rest) == buffer + rest
    {
      var n := Min(size, |rest|);
      buffer := rest[..n];
      rest := rest[n..];
    }
  }

  /** `struct p101_error`, as far as callers look at it. */
  class ErrorState {
    var raised: bool

    constructor ()
      ensures !raised
    {
      raised := false;
    }
  }
}
