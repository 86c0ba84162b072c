# setns-shell: the text-handling core, in Dafny

setns-shell is a zsh module written in Rust. Its module glue (`src/lib.rs`)
registers no features yet (`builtin_count: 0`), and nothing in the source
calls the two text-handling parts. Those two parts are what this project
models and proves properties about. They are meant for entering a
container's namespaces from an interactive shell and then printing a small
script that makes the shell's environment look native to that container:

- **`pid_from_args`** (`src/parse.rs`) decodes a PID argument.
  The argument array is a possibly-null C array of possibly-null C strings.
  Only slot 0 is read, and only up to its first zero byte. The bytes must be
  UTF-8, and the text must then parse as an `i32` under Rust's
  `str::parse::<pid_t>` rules.
- **`NSEnv`** (`src/env.rs`) re-derives the session inside the container and
  writes it out:
  - `discover` takes the account name and home directory as C strings. It
    takes the hostname from the 256-byte `gethostname` buffer, up to the
    first zero byte. It takes `PATH` from the output of
    `/bin/sh -l -c printenv`, parsed into a map.
  - `write` removes `TMPDIR` from the environment. It stores the
    completion-cache blob verbatim at `<temp dir>/full.zwc`, then prints a
    seven-line init script.

Modules (one file each):

- `Results`: Option and Result.
- `Seqs`: the prefix before a delimiter. This one function models
  `CStr::from_ptr`, `take_while(|&b| b != 0)`, `split("=")` and the line
  breaks of `lines()`.
- `Utf8`: strict UTF-8 decoding, as Rust's `str::from_utf8` does it. It is
  proved to be the exact inverse of a reference encoder.
- `RustInt`: Rust's `i32::from_str`, modelled as its left-to-right checked
  digit loop. It is proved against a mathematical definition of a signed
  decimal literal. `Render` is the decimal rendering of an `i32`.
- `CStr`: C strings as byte sequences.
- `Parse`: `pid_from_args` and its unit tests.
- `RustStr`: Rust's `str::lines`.
- `Os`: what `write` touches, as a `Process` class. Its fields are the
  environment variables, the file system (a map from path to bytes) and the
  lines printed to standard output.
- `Env`: the `NSEnv` record, the hostname, the `printenv` map, `Discover`,
  the init script and `Write`.

The calls to `getpwuid`/`geteuid`, `gethostname` and the subprocess are
inputs of `Discover`: the bytes they produce. The file write and `println!`
are updates of the `Process` state.

`pid_from_args` does not check that the PID is positive, so `-5` and `0`
are accepted (`Parse.AcceptsNegative`). `PATH` is taken from the map built
from every `KEY=value` line of the `printenv` output.

## Model

| member | source | states |
|---|---|---|
| `Seqs.TakeUntil` | src/env.rs:35 | the result is the longest prefix free of the delimiter: a prefix of the input, delimiter-free, and followed by the delimiter unless it is the whole input |
| `Seqs.TakeUntilDelimited` | src/env.rs:57-58 | a delimiter-free text followed by the delimiter is exactly what is cut off, whatever comes after |
| `Seqs.TakeUntilUnique` | src/env.rs:35 | any delimiter-free prefix that is followed by the delimiter or by the end is the one `TakeUntil` returns |
| `CStr.CStrBytes` | src/parse.rs:24 | `CStr::from_ptr` reads the bytes before the first zero byte: no zero inside, and a zero or the end right after |
| `Utf8.Decode` | src/parse.rs:24 | `to_str`/`String::from_utf8`: the text the bytes encode, or none; its contract is `Utf8.DecodeIff` (exactly the inverse of the reference encoder) with `Utf8.DecodeEncode` and `Utf8.EncodeDecode` |
| `Utf8.DecodeIff` | src/parse.rs:24 | `to_str`/`from_utf8` accept bytes as text `s` exactly when the bytes are the UTF-8 encoding of `s` |
| `Utf8.DecodeEncode` | src/env.rs:53-54 | round trip: the encoding of any text decodes back to that text |
| `Utf8.EncodeDecode` | src/env.rs:34-37 | uniqueness: bytes that decode to `s` are exactly the encoding of `s` |
| `Utf8.DecodeFirstEncodeChar` | src/parse.rs:24 | each scalar value's shortest UTF-8 form is accepted as exactly one character of the right length |
| `Utf8.DecodeFirstIsEncodeChar` | src/parse.rs:24 | every accepted multi-byte sequence is the shortest form of the character it yields, so overlong forms, surrogates and values above U+10FFFF are rejected |
| `Utf8.EncodeNoNul` | src/env.rs:35 | text contains no U+0000 exactly when its encoding contains no zero byte |
| `RustInt.Accumulate` | src/parse.rs:24 | the checked digit loop of `parse::<i32>`, testing each character for a digit before the overflow checks; its contract is `RustInt.AccumulatePositive` and `RustInt.AccumulateNegative` |
| `RustInt.ParseI32` | src/parse.rs:24 | `parse::<i32>`: `Empty` on `""`, `InvalidDigit` on a lone sign, else the digit loop with the sign; its contract is `RustInt.ParseI32Spec` and `RustInt.ParseRender` |
| `RustInt.AccumulatePositive` | src/parse.rs:24 | the digit loop, for a non-negative number, returns the numeral's value when all characters are digits and it fits in `i32`; it returns `PosOverflow` when they are all digits and it does not fit; it fails otherwise |
| `RustInt.AccumulateNegative` | src/parse.rs:24 | the same for a negative number: the negated value down to -2147483648, else `NegOverflow` |
| `RustInt.HornerAppend` | src/parse.rs:24 | appending a digit multiplies the numeral's value by ten and adds that digit |
| `RustInt.ParseI32Spec` | src/parse.rs:24 | `parse::<i32>` succeeds exactly on one optional `+`/`-` followed by one or more ASCII digits whose value fits in `i32`, and then returns that value; the empty string gives `Empty`; a well-formed literal out of range gives the overflow for its sign |
| `RustInt.ParseRender` | src/parse.rs:24 | round trip: the decimal rendering of every `i32` parses back to it |
| `Parse.PidFromArgs` | src/parse.rs:14-26 | a null array, or a null slot 0, gives the null-pointer error |
| `Parse.PidFromArgsOk` | src/parse.rs:24 | the result is `Ok` exactly when slot 0's bytes before the first zero are the UTF-8 encoding of a sign-optional decimal numeral that fits in `i32`; the value is that numeral's |
| `Parse.PidFromArgsRejectsInvalidUtf8` | src/parse.rs:24 | bytes before the first zero that are not UTF-8 give the UTF-8 error |
| `Parse.PidFromArgsReadsOnlyFirstString` | src/parse.rs:21-24 | only slot 0, and only its bytes before the first zero, influence the result |
| `Parse.PidFromArgsRenderRoundTrip` | src/parse.rs:24 | any `i32` written in decimal as a C string, followed by any bytes and any further slots, decodes to that `i32` |
| `Parse.ParsesNums` | src/parse.rs:32-36 | `"577\0"` gives 577 |
| `Parse.FailsLetters` | src/parse.rs:38-42 | `"five\0"` is an error |
| `Parse.FailsNonAscii` | src/parse.rs:44-48 | `"\xFE\0"` is the UTF-8 error |
| `Parse.FailsEmpty` | src/parse.rs:50-54 | `"\0"` is the `Empty` parse error |
| `Parse.FailsNullArray` | src/parse.rs:56-59 | a null array is the null-pointer error |
| `Parse.FailsNullFirstString` | src/parse.rs:61-65 | a null slot 0 is the null-pointer error |
| `Parse.AcceptsNegative` | src/parse.rs:24 | `"-5\0"` gives -5: no positivity check |
| `Parse.RejectsSpace` | src/parse.rs:24 | `" 5\0"` is an error: whitespace is not skipped |
| `RustStr.Lines` | src/env.rs:55 | `str::lines`: the result is empty exactly for empty text; its contract is completed by `RustStr.LinesHaveNoNewline`, `RustStr.LinesCons`, `RustStr.LinesCrLf`, `RustStr.LinesLastKeepsCr`, `RustStr.LinesOfTerminated` and `RustStr.TerminatedLines` |
| `RustStr.LinesHaveNoNewline` | src/env.rs:55 | no line that `lines()` yields contains `\n` |
| `RustStr.LinesCons` | src/env.rs:55 | a line without `\n` and without a trailing `\r`, followed by `\n`, is split off unchanged |
| `RustStr.LinesCrLf` | src/env.rs:55 | a line ended by `\r\n` is split off without the `\r` |
| `RustStr.LinesLastKeepsCr` | src/env.rs:55 | a last line with no `\n` after it is yielded whole, a trailing `\r` included |
| `RustStr.LinesOfTerminated` | src/env.rs:55 | splitting newline-terminated lines gives those lines back, and the text after them is split independently |
| `RustStr.TerminatedLines` | src/env.rs:55 | text without `\r` is its lines each followed by `\n`, adding a final `\n` when the text lacked one |
| `Env.NSEnv` | src/env.rs:2-7 | the record of user name, home directory, hostname and search path; `Env.DiscoverFindsLastPath` states how `discover` fills it |
| `Env.HostnameFromBuffer` | src/env.rs:28-37 | the hostname as the UTF-8 text of the buffer's bytes before the first zero; its contract is `Env.HostnameSpec` |
| `Env.HostnameSpec` | src/env.rs:28-37 | the hostname is the text whose encoding is the buffer's prefix before the first zero byte; it has no U+0000 and at most 256 characters; non-UTF-8 bytes give no hostname |
| `Env.Entry` | src/env.rs:56-59 | a line contributes an entry exactly when it contains `=`; its key is the text before the first `=`, and its value is the text between the first and the second `=` (or the end) |
| `Env.EntryRoundTrip` | src/env.rs:57-59 | `KEY=value` with no further `=` gives back that key and value |
| `Env.EntryDropsAfterSecondEquals` | src/env.rs:57-59 | in `KEY=value=rest` the `=rest` part is dropped |
| `Env.CollectEnv` | src/env.rs:52-60 | the `HashMap` collected from the lines' entries, a later key overwriting an earlier one; its contract is `Env.CollectEnvKeys` and `Env.CollectEnvLastWins` |
| `Env.ParseEnv` | src/env.rs:52-60 | the map of the `printenv` text: `Env.CollectEnv` over `RustStr.Lines`; `Env.DiscoverFindsLastPath` and `Env.DiscoverMissingPath` state what it gives for `PATH` |
| `Env.CollectEnvKeys` | src/env.rs:55-60 | a key is in the map exactly when some line containing `=` has that key; lines without `=` add nothing |
| `Env.CollectEnvLastWins` | src/env.rs:52-60 | for a repeated key the map holds the value from the last line with that key |
| `Env.Discover` | src/env.rs:10-68 | `NSEnv::discover` on the bytes its system calls produce; its contract is `Env.DiscoverFindsLastPath`, `Env.DiscoverMissingPath` and `Env.DiscoverRejectsInvalidUtf8` |
| `Env.DiscoverFindsLastPath` | src/env.rs:10-68 | with valid UTF-8 everywhere, `discover` returns the account name, home, hostname and, as `path`, the value on the last `PATH=` line of the output |
| `Env.DiscoverMissingPath` | src/env.rs:66 | output that defines no `PATH` makes `discover` fail rather than default |
| `Env.DiscoverRejectsInvalidUtf8` | src/env.rs:17-54 | non-UTF-8 bytes fail `discover` at the first of name, home, hostname and output that has them |
| `Os.TempDir` | src/env.rs:74 | `temp_dir()` on Unix: `$TMPDIR` if set, else `/tmp`; its contract is `Os.TempDirWithoutOverride` |
| `Os.TempDirWithoutOverride` | src/env.rs:73-74 | once `TMPDIR` is removed the temporary directory is `/tmp`, whatever it was before |
| `Os.JoinPath` | src/env.rs:74 | joining puts exactly one `/` between a non-empty directory and the name unless the directory already ends in `/`; the result starts with the directory and ends with the name |
| `Os.Process.RemoveVar` | src/env.rs:73 | the environment loses that variable; files and output are unchanged |
| `Os.Process.WriteFile` | src/env.rs:75-78 | the file at the path holds exactly the data, every other file is unchanged, environment and output are unchanged |
| `Os.Process.PrintLine` | src/env.rs:81 | the line is appended to the output; nothing else changes |
| `Env.ExportLine` | src/env.rs:82-87 | one `export NAME=value;` line, the value unquoted; its contract is `Env.ExportLineRoundTrip` |
| `Env.InitScript` | src/env.rs:81-88 | the seven printed lines; its contract is `Env.InitScriptExports` and `Env.InitScriptFrame` |
| `Env.ExportLineRoundTrip` | src/env.rs:82-87 | an `export NAME=value;` line reads back as that name and value, whatever the value holds |
| `Env.InitScriptExports` | src/env.rs:82-87 | the script has seven lines, and lines 2 to 6 export HOME, USER, HOSTNAME, PATH and FPATH with the home, user name, hostname, path and cache path, in that order |
| `Env.InitScriptFrame` | src/env.rs:81-88 | the script starts with `unset HISTFILE;` and ends with `cd <home>;`, neither of them an export |
| `Env.Write` | src/env.rs:70-89 | `TMPDIR` is gone; `/tmp/full.zwc` holds the cache blob byte for byte, all other files are unchanged; the seven script lines, whose FPATH names that same file, follow the earlier output |
| `Env.WriteTwice` | src/env.rs:73-77 | `TMPDIR` is gone; writing the same record and blob twice leaves the same files as writing once and prints the identical script twice |

## Left out

- `src/lib.rs` is not part of this model. It is the zsh module ABI glue:
  `extern "C"` hooks, a static feature table and calls into the host, with no
  logic of its own.
- `src/setns.rs` (`enter_container`: `pidfd_open`, `setns` with a constant
  flag set, `close` on drop) is not part of this model. Its behaviour is the
  kernel's.
- `poc/poc.py` is a proof-of-concept script that runs `docker` and makes raw
  syscalls. It is not part of this model.
- `getpwuid`/`geteuid`, `gethostname` and spawning `/bin/sh -l -c printenv`
  are not modelled. The bytes they produce are parameters of `Discover`. A
  null `passwd` pointer and a failed spawn, both `unwrap()` panics, are
  outside the model.
- I/O failures of `File::create`, `write_all`, `sync_data` and `println!`
  panic in the source. The model's writes always succeed. Durability
  (`sync_data`) is not modelled beyond "the file holds the data".
- `discover` takes `PATH` out of its local map with `remove`, and the map is
  then dropped. The model looks the key up, which has the same result.
- `Parse.PidFromArgs` requires a non-null array to have at least slot 0.
  Reading `*args` of an empty array is undefined behaviour in the source, so
  that case has no behaviour to model. A C string with no zero byte is taken
  to end where its byte sequence ends.
- `RustStr.Lines` follows the current standard library's `lines()`: `\r` is
  dropped only before `\n`, so an unterminated last line keeps a trailing
  `\r`. Older toolchains also stripped that final `\r`.
- `RustInt.ParseI32` reports a lone `+` or `-` as `InvalidDigit`, as the
  current standard library does. The kind only changes the boxed error's
  message.
- The int32 width of `pid_t` is Linux's. `temp_dir()` follows the Unix rule
  (`$TMPDIR`, else `/tmp`). The Android and Windows rules are not modelled.
- `Env.InitScriptExports` states what the printed text says, not how a shell
  reads it. Values are inserted unquoted, so a value holding whitespace, `;`
  or shell metacharacters would not be read back by zsh as the same value.
- The byte-level error position of `Utf8Error` (`valid_up_to`) is not
  modelled. Invalid UTF-8 is one error.
