/**
 * The parts of the operating system `NSEnv::write` touches, as state: the
 * process environment, a file system from path to contents, and the lines
 * printed to standard output.
 */
module Os {
  import opened Utf8

  /** `std::env::temp_dir()` on Unix: `$TMPDIR` if set, otherwise `/tmp`. */
  function TempDir(vars: map<string, string>): string
  {
    if "TMPDIR" in vars then vars["TMPDIR"] else "/tmp"
  }

  /** `Path::join` with a relative name: a `/` goes between unless the directory is empty or already ends in one. */
  function JoinPath(dir: string, name: string): (p: string)
    ensures |p| == |dir| + |name| || (|p| == |dir| + 1 + |name| && p[|dir|] == '/')
    ensures dir <= p && p[|p| - |name|..] == name
    ensures |p| == |dir| + 1 + |name| <==> dir != [] && dir[|dir| - 1] != '/'
  {
    if dir == [] || dir[|dir| - 1] == '/' then dir + name else dir + "/" + name
  }

  /** Once `TMPDIR` is removed, the temporary directory is `/tmp`, whatever it was before. */
  lemma TempDirWithoutOverride(vars: map<string, string>)
    ensures TempDir(vars - {"TMPDIR"}) == "/tmp"
  {
  }

  class Process {
    var vars: map<string, string>
    var files: map<string, seq<byte>>
    var stdout: seq<string>

    constructor (vars: map<string, string>, files: map<string, seq<byte>>)
      ensures this.vars == vars && this.files == files && stdout == []
    {
      this.vars := vars;
      this.files := files;
      stdout := [];
    }

    /** `std::env::remove_var(name)`. */
    method RemoveVar(name: string)
      modifies this
      ensures vars == old(vars) - {name}
      ensures files == old(files) && stdout == old(stdout)
    {
      vars := vars - {name};
    }

    /** `File::create(path)`, `write_all(data)`, `sync_data()`: the file holds exactly `data`. */
    method WriteFile(path: string, data: seq<byte>)
      modifies this
      ensures files == old(files)[path := data]
      ensures vars == old(vars) && stdout == old(stdout)
    {
      files := files[path := data];
    }

    /** `println!`. */
    method PrintLine(line: string)
      modifies this
      ensures stdout == old(stdout) + [line]
      ensures vars == old(vars) && files == old(files)
    {
      stdout := stdout + [line];
    }
  }
}
