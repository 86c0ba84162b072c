/**
 * `NSEnv`: the session environment re-derived inside the entered namespaces
 * (`NSEnv::discover`) and handed to the shell (`NSEnv::write`).
 *
 * The account lookup, `gethostname` and the `/bin/sh -l -c printenv`
 * subprocess are inputs here: the account's name and home directory as C
 * strings, the 256-byte hostname buffer after `gethostname`, and the captured
 * standard output. Writing goes to an `Os.Process`: the process environment, a file
 * system as a map from path to contents, and the lines printed so far.
 */
module Env {
  import opened Results
  import opened Utf8
  import opened Seqs
  import opened CStr
  import opened RustStr
  import opened Os

  datatype NSEnv = NSEnv(username: string, home: string, hostname: string, path: string)

  /** Which conversion met bytes that are not UTF-8. */
  datatype Field = Username | Home | Hostname | ShellOutput

  /** The data-level failures of `discover`, each an `unwrap()` panic in the source. */
  datatype DiscoverError = NotUtf8(field: Field) | MissingPath

  /** Size of the buffer handed to `gethostname`. */
  const HostnameBufLen := 256

  // ---------------------------------------------------------------- hostname

  /** `String::from_utf8` of the buffer's bytes up to the first zero (`take_while(|&b| b != 0)`). */
  function HostnameFromBuffer(buf: seq<byte>): Option<string>
    requires |buf| == HostnameBufLen
  {
    Decode(TakeUntil(buf, 0))
  }

  /**
   * The hostname is the text whose encoding is the buffer's prefix before the
   * first zero byte: that prefix holds no zero byte, is at most 256 bytes, and
   * is followed by a zero unless it fills the buffer.
   */
  lemma HostnameSpec(buf: seq<byte>, h: string)
    requires |buf| == HostnameBufLen
    ensures HostnameFromBuffer(buf) == Some(h) <==>
      && Encode(h) <= buf
      && 0 !in Encode(h)
      && (|Encode(h)| < HostnameBufLen ==> buf[|Encode(h)|] == 0)
    ensures HostnameFromBuffer(buf) == Some(h) ==> '\0' !in h && |h| <= HostnameBufLen
  {
    var pre := TakeUntil(buf, 0);
    DecodeIff(pre, h);
    if Encode(h) <= buf && 0 !in Encode(h) && (|Encode(h)| < HostnameBufLen ==> buf[|Encode(h)|] == 0) {
      TakeUntilUnique(buf, 0, Encode(h));
    }
    EncodeNoNul(h);
  }

  // ------------------------------------------------------- printenv parsing

  /**
   * What `line.split("=")` contributes to the map: nothing without a `=`;
   * otherwise the first piece as the key and the second as the value.
   */
  function Entry(line: string): (e: Option<(string, string)>)
    ensures e.Some? <==> '=' in line
    ensures e.Some? ==>
      var (k, v) := e.value;
      && '=' !in k && '=' !in v
      && k + "=" + v <= line
      && (|k| + 1 + |v| < |line| ==> line[|k| + 1 + |v|] == '=')
  {
    if '=' !in line then None
    else
      var k := TakeUntil(line, '=');
      assert |k| < |line|;
      var rest := line[|k| + 1..];
      var v := TakeUntil(rest, '=');
      assert line == k + "=" + rest;
      assert k + "=" + v <= line;
      Some((k, v))
  }

  /** A `KEY=value` line without further `=` gives back its key and value. */
  lemma EntryRoundTrip(k: string, v: string)
    requires '=' !in k && '=' !in v
    ensures Entry(k + "=" + v) == Some((k, v))
  {
    TakeUntilDelimited(k, '=', v);
    assert (k + "=" + v)[|k| + 1..] == v;
    TakeUntilAbsent(v, '=');
  }

  /** Everything from a second `=` on is dropped from the value. */
  lemma EntryDropsAfterSecondEquals(k: string, v: string, w: string)
    requires '=' !in k && '=' !in v
    ensures Entry(k + "=" + v + "=" + w) == Some((k, v))
  {
    var line := k + "=" + v + "=" + w;
    assert line == k + "=" + (v + "=" + w);
    TakeUntilDelimited(k, '=', v + "=" + w);
    assert line[|k| + 1..] == v + "=" + w;
    TakeUntilDelimited(v, '=', w);
  }

  /** `collect()` into a `HashMap`: entries inserted in order, a later key overwriting an earlier one. */
  function CollectEnv(lines: seq<string>): map<string, string>
  {
    if lines == [] then map[]
    else
      var m := CollectEnv(lines[..|lines| - 1]);
      match Entry(lines[|lines| - 1])
      case None => m
      case Some((k, v)) => m[k := v]
  }

  /** Line `i` is an entry for key `k`. */
  predicate HasKey(lines: seq<string>, i: int, k: string)
  {
    0 <= i < |lines| && Entry(lines[i]).Some? && Entry(lines[i]).value.0 == k
  }

  /** Only lines with a `=` contribute keys, and each such line contributes its key. */
  lemma {:induction false} CollectEnvKeys(lines: seq<string>, k: string)
    ensures k in CollectEnv(lines) <==> exists i :: HasKey(lines, i, k)
    decreases |lines|
  {
    if lines != [] {
      var last := |lines| - 1;
      var init := lines[..last];
      CollectEnvKeys(init, k);
      assert k in CollectEnv(lines) <==> k in CollectEnv(init) || HasKey(lines, last, k);
      if exists i :: HasKey(init, i, k) {
        var i :| HasKey(init, i, k);
        assert init[i] == lines[i];
        assert HasKey(lines, i, k);
      }
      if exists i :: HasKey(lines, i, k) {
        var i :| HasKey(lines, i, k);
        if i < last {
          assert init[i] == lines[i];
          assert HasKey(init, i, k);
        }
      }
    }
  }

  /** The map holds, for each key, the value from the last line that has that key. */
  lemma {:induction false} CollectEnvLastWins(lines: seq<string>, i: int)
    requires 0 <= i < |lines| && Entry(lines[i]).Some?
    requires forall j :: i < j < |lines| ==> !HasKey(lines, j, Entry(lines[i]).value.0)
    ensures var (k, v) := Entry(lines[i]).value;
      k in CollectEnv(lines) && CollectEnv(lines)[k] == v
    decreases |lines|
  {
    var k := Entry(lines[i]).value.0;
    var last := |lines| - 1;
    if i < last {
      var init := lines[..last];
      assert init[i] == lines[i];
      forall j | i < j < |init| ensures !HasKey(init, j, k) {
        assert init[j] == lines[j];
        assert !HasKey(lines, j, k);
      }
      CollectEnvLastWins(init, i);
      assert !HasKey(lines, last, k);
    }
  }

  /** The environment `printenv` reported, as a map. */
  function ParseEnv(text: string): map<string, string>
  {
    CollectEnv(Lines(text))
  }

  // ---------------------------------------------------------------- discover

  /**
   * The data path of `NSEnv::discover`: the account name and home directory,
   * the hostname and the `printenv` output must each be UTF-8, and the output
   * must define `PATH`. Conversions happen in that order.
   */
  function Discover(pwName: CString, pwDir: CString, hostBuf: seq<byte>, shOutput: seq<byte>): Result<NSEnv, DiscoverError>
    requires |hostBuf| == HostnameBufLen
  {
    match Decode(CStrBytes(pwName))
    case None => Err(NotUtf8(Username))
    case Some(username) =>
      match Decode(CStrBytes(pwDir))
      case None => Err(NotUtf8(Home))
      case Some(home) =>
        match HostnameFromBuffer(hostBuf)
        case None => Err(NotUtf8(Hostname))
        case Some(hostname) =>
          match Decode(shOutput)
          case None => Err(NotUtf8(ShellOutput))
          case Some(text) =>
            var env := ParseEnv(text);
            if "PATH" !in env then Err(MissingPath)
            else Ok(NSEnv(username, home, hostname, env["PATH"]))
  }

  /**
   * With every field valid UTF-8, `discover` yields the account's name and
   * home, the hostname, and as `path` the value on the last `PATH=` line of
   * the output.
   */
  lemma DiscoverFindsLastPath(pwName: CString, pwDir: CString, hostBuf: seq<byte>, shOutput: seq<byte>,
                              user: string, home: string, host: string, text: string, i: int)
    requires |hostBuf| == HostnameBufLen
    requires CStrBytes(pwName) == Encode(user) && CStrBytes(pwDir) == Encode(home)
    requires HostnameFromBuffer(hostBuf) == Some(host) && shOutput == Encode(text)
    requires HasKey(Lines(text), i, "PATH")
    requires forall j :: i < j < |Lines(text)| ==> !HasKey(Lines(text), j, "PATH")
    ensures Discover(pwName, pwDir, hostBuf, shOutput) == Ok(NSEnv(user, home, host, Entry(Lines(text)[i]).value.1))
  {
    DecodeEncode(user);
    DecodeEncode(home);
    DecodeEncode(text);
    CollectEnvLastWins(Lines(text), i);
  }

  /** Output that defines no `PATH` is a failure, not a default. */
  lemma DiscoverMissingPath(pwName: CString, pwDir: CString, hostBuf: seq<byte>, shOutput: seq<byte>, text: string)
    requires |hostBuf| == HostnameBufLen
    requires Valid(CStrBytes(pwName)) && Valid(CStrBytes(pwDir)) && HostnameFromBuffer(hostBuf).Some?
    requires shOutput == Encode(text)
    requires forall j :: !HasKey(Lines(text), j, "PATH")
    ensures Discover(pwName, pwDir, hostBuf, shOutput) == Err(MissingPath)
  {
    DecodeEncode(text);
    CollectEnvKeys(Lines(text), "PATH");
  }

  /** Bytes that are not UTF-8 stop `discover` at the first field that has them. */
  lemma DiscoverRejectsInvalidUtf8(pwName: CString, pwDir: CString, hostBuf: seq<byte>, shOutput: seq<byte>)
    requires |hostBuf| == HostnameBufLen
    ensures !Valid(CStrBytes(pwName)) ==> Discover(pwName, pwDir, hostBuf, shOutput) == Err(NotUtf8(Username))
    ensures Valid(CStrBytes(pwName)) && !Valid(CStrBytes(pwDir)) ==>
      Discover(pwName, pwDir, hostBuf, shOutput) == Err(NotUtf8(Home))
    ensures Valid(CStrBytes(pwName)) && Valid(CStrBytes(pwDir)) && HostnameFromBuffer(hostBuf).None? ==>
      Discover(pwName, pwDir, hostBuf, shOutput) == Err(NotUtf8(Hostname))
    ensures Valid(CStrBytes(pwName)) && Valid(CStrBytes(pwDir)) && HostnameFromBuffer(hostBuf).Some? && !Valid(shOutput) ==>
      Discover(pwName, pwDir, hostBuf, shOutput) == Err(NotUtf8(ShellOutput))
  {
  }

  // ------------------------------------------------------------------- write

  /** Where the cache copy goes: `full.zwc` in the temporary directory once `TMPDIR` is gone. */
  const CachePath: string := "/tmp/full.zwc"

  /** `println!("export {}={};", name, value)`, the value unquoted. */
  function ExportLine(name: string, value: string): string
  {
    "export " + name + "=" + value + ";"
  }

  /** The seven lines `write` prints for the shell to evaluate. */
  function InitScript(e: NSEnv, cachePath: string): seq<string>
  {
    [ "unset HISTFILE;",
      ExportLine("HOME", e.home),
      ExportLine("USER", e.username),
      ExportLine("HOSTNAME", e.hostname),
      ExportLine("PATH", e.path),
      ExportLine("FPATH", cachePath),
      "cd " + e.home + ";" ]
  }

  /**
   * Reads an `export NAME=value;` line back: the name runs to the first `=`,
   * the value from there to the final `;`.
   */
  function ParseExport(line: string): (r: Option<(string, string)>)
    ensures r.Some? ==> '=' !in r.value.0
  {
    if |line| < 8 || line[..7] != "export " || line[|line| - 1] != ';' then None
    else
      var body := line[7..|line| - 1];
      var name := TakeUntil(body, '=');
      if |name| == |body| then None else Some((name, body[|name| + 1..]))
  }

  /** An export line reads back as the name and value it was built from, whatever the value holds. */
  lemma ExportLineRoundTrip(name: string, value: string)
    requires '=' !in name
    ensures ParseExport(ExportLine(name, value)) == Some((name, value))
  {
    var line := ExportLine(name, value);
    var body := line[7..|line| - 1];
    assert line[..7] == "export ";
    assert body == name + "=" + value;
    TakeUntilDelimited(name, '=', value);
    assert body[|name| + 1..] == value;
  }

  /**
   * The script exports HOME, USER, HOSTNAME, PATH and FPATH, in that order,
   * with the record's values and the cache path, each readable back exactly.
   */
  lemma InitScriptExports(e: NSEnv, cachePath: string)
    ensures var s := InitScript(e, cachePath);
      && |s| == 7
      && ParseExport(s[1]) == Some(("HOME", e.home))
      && ParseExport(s[2]) == Some(("USER", e.username))
      && ParseExport(s[3]) == Some(("HOSTNAME", e.hostname))
      && ParseExport(s[4]) == Some(("PATH", e.path))
      && ParseExport(s[5]) == Some(("FPATH", cachePath))
  {
    var s := InitScript(e, cachePath);
    assert ParseExport(s[1]) == Some(("HOME", e.home)) by { ExportLineRoundTrip("HOME", e.home); }
    assert ParseExport(s[2]) == Some(("USER", e.username)) by { ExportLineRoundTrip("USER", e.username); }
    assert ParseExport(s[3]) == Some(("HOSTNAME", e.hostname)) by { ExportLineRoundTrip("HOSTNAME", e.hostname); }
    assert ParseExport(s[4]) == Some(("PATH", e.path)) by { ExportLineRoundTrip("PATH", e.path); }
    assert ParseExport(s[5]) == Some(("FPATH", cachePath)) by { ExportLineRoundTrip("FPATH", cachePath); }
  }

  /** Around the exports, the script first clears the history file and last changes to the home directory. */
  lemma InitScriptFrame(e: NSEnv, cachePath: string)
    ensures var s := InitScript(e, cachePath);
      && s[0] == "unset HISTFILE;" && ParseExport(s[0]).None?
      && s[6] == "cd " + e.home + ";" && ParseExport(s[6]).None?
  {
    NotExportLine("unset HISTFILE;");
    NotExportLine("cd " + e.home + ";");
  }

  /** A line that does not start with `e` is not an export. */
  lemma NotExportLine(line: string)
    requires line != [] && line[0] != 'e'
    ensures ParseExport(line).None?
  {
    if |line| >= 8 { assert line[..7][0] == line[0]; }
  }

  /**
   * `NSEnv::write`: drop `TMPDIR`, store the cache blob verbatim at
   * `<temp dir>/full.zwc`, then print the init script naming that file.
   */
  method Write(e: NSEnv, zwcData: seq<byte>, os: Process)
    modifies os
    ensures os.vars == old(os.vars) - {"TMPDIR"}
    ensures os.files == old(os.files)[CachePath := zwcData]
    ensures os.stdout == old(os.stdout) + InitScript(e, CachePath)
  {
    os.RemoveVar("TMPDIR");
    var zwcPath := JoinPath(TempDir(os.vars), "full.zwc");
    assert zwcPath == CachePath;
    os.WriteFile(zwcPath, zwcData);
    os.PrintLine("unset HISTFILE;");
    os.PrintLine(ExportLine("HOME", e.home));
    os.PrintLine(ExportLine("USER", e.username));
    os.PrintLine(ExportLine("HOSTNAME", e.hostname));
    os.PrintLine(ExportLine("PATH", e.path));
    os.PrintLine(ExportLine("FPATH", zwcPath));
    os.PrintLine("cd " + e.home + ";");
  }

  /**
   * Writing the same record and blob twice leaves the same file contents as
   * writing once, and prints the same script both times.
   */
  method WriteTwice(e: NSEnv, zwcData: seq<byte>, os: Process)
    modifies os
    ensures os.vars == old(os.vars) - {"TMPDIR"}
    ensures os.files == old(os.files)[CachePath := zwcData]
    ensures os.files[CachePath] == zwcData
    ensures os.stdout == old(os.stdout) + InitScript(e, CachePath) + InitScript(e, CachePath)
  {
    Write(e, zwcData, os);
    Write(e, zwcData, os);
  }
}
