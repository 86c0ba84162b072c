/** Rust's `str::lines`. */
module RustStr {
  import opened Seqs

  /** Drops one trailing carriage return. */
  function StripCr(line: string): string
  {
    if |line| > 0 && line[|line| - 1] == '\r' then line[..|line| - 1] else line
  }

  /**
   * `s.lines()`: the pieces between `\n` characters; a final `\n` does not
   * start an empty last line, and a line ended by `\r\n` loses the `\r`. An
   * unterminated last line keeps a trailing `\r`.
   */
  function Lines(s: string): (ls: seq<string>)
    ensures ls == [] <==> s == []
    decreases |s|
  {
    if s == [] then []
    else
      var line := TakeUntil(s, '\n');
      if |line| == |s| then [line]
      else [StripCr(line)] + Lines(s[|line| + 1..])
  }

  /** No line that `lines()` yields contains a `\n`. */
  lemma {:induction false} LinesHaveNoNewline(s: string)
    ensures forall i :: 0 <= i < |Lines(s)| ==> '\n' !in Lines(s)[i]
    decreases |s|
  {
    if s != [] {
      var line := TakeUntil(s, '\n');
      if |line| < |s| {
        LinesHaveNoNewline(s[|line| + 1..]);
        assert '\n' !in StripCr(line);
      }
    }
  }

  /** Every line followed by `\n`, the shape of `printenv` output. */
  function Terminated(ls: seq<string>): string
  {
    if ls == [] then [] else ls[0] + "\n" + Terminated(ls[1..])
  }

  /** A line that `lines()` gives back unchanged when it is followed by `\n`. */
  predicate PlainLine(line: string)
  {
    '\n' !in line && (line == [] || line[|line| - 1] != '\r')
  }

  /** A plain line followed by `\n` is split off whole. */
  lemma LinesCons(l: string, t: string)
    requires PlainLine(l)
    ensures Lines(l + "\n" + t) == [l] + Lines(t)
  {
    var x := l + "\n" + t;
    TakeUntilDelimited(l, '\n', t);
    assert x[|l| + 1..] == t;
  }

  /** A line ended by `\r\n` is split off without its `\r`. */
  lemma LinesCrLf(l: string, t: string)
    requires '\n' !in l
    ensures Lines(l + "\r\n" + t) == [l] + Lines(t)
  {
    var x := l + "\r\n" + t;
    assert x == (l + "\r") + "\n" + t;
    TakeUntilDelimited(l + "\r", '\n', t);
    assert x[|l| + 2..] == t;
    assert StripCr(l + "\r") == l;
  }

  /** An unterminated last line is yielded whole, a trailing `\r` included. */
  lemma LinesLastKeepsCr(l: string)
    requires '\n' !in l && l != []
    ensures Lines(l) == [l]
  {
    TakeUntilAbsent(l, '\n');
  }

  /** Splitting newline-terminated lines gives those lines back, and what follows is split on its own. */
  lemma {:induction false} LinesOfTerminated(ls: seq<string>, tail: string)
    requires forall i :: 0 <= i < |ls| ==> PlainLine(ls[i])
    ensures Lines(Terminated(ls) + tail) == ls + Lines(tail)
  {
    if ls == [] {
      assert Terminated(ls) + tail == tail;
    } else {
      var rest := ls[1..];
      var t := Terminated(rest) + tail;
      TerminatedCons(ls, tail);
      LinesCons(ls[0], t);
      PlainLinesTail(ls);
      LinesOfTerminated(rest, tail);
      ConsAssoc(ls, Lines(tail));
    }
  }

  lemma TerminatedCons(ls: seq<string>, tail: string)
    requires ls != []
    ensures Terminated(ls) + tail == ls[0] + "\n" + (Terminated(ls[1..]) + tail)
  {
  }

  lemma PlainLinesTail(ls: seq<string>)
    requires ls != [] && forall i :: 0 <= i < |ls| ==> PlainLine(ls[i])
    ensures forall i :: 0 <= i < |ls| - 1 ==> PlainLine(ls[1..][i])
  {
    forall i | 0 <= i < |ls| - 1 ensures PlainLine(ls[1..][i]) { assert ls[1..][i] == ls[i + 1]; }
  }

  lemma ConsAssoc<T>(ls: seq<T>, after: seq<T>)
    requires ls != []
    ensures [ls[0]] + (ls[1..] + after) == ls + after
  {
    assert ls == [ls[0]] + ls[1..];
  }

  /** A line cut off at the first `\n` of carriage-return-free text. */
  lemma LinesStep(s: string)
    requires '\r' !in s && '\n' in s
    ensures var line := TakeUntil(s, '\n');
      && '\r' !in line && '\r' !in s[|line| + 1..]
      && s == line + "\n" + s[|line| + 1..]
      && Lines(s) == [line] + Lines(s[|line| + 1..])
  {
    var line := TakeUntil(s, '\n');
    assert |line| < |s|;
    assert StripCr(line) == line;
  }

  /** Text without carriage returns is its lines rejoined, up to a missing final `\n`. */
  lemma {:induction false} TerminatedLines(s: string)
    requires '\r' !in s
    ensures Terminated(Lines(s)) == if s == [] || s[|s| - 1] == '\n' then s else s + "\n"
    decreases |s|
  {
    if s != [] && '\n' !in s {
      TakeUntilAbsent(s, '\n');
      assert Lines(s) == [s];
      assert Terminated([s]) == s + "\n" + Terminated([]);
    } else if s != [] {
      var line := TakeUntil(s, '\n');
      var rest := s[|line| + 1..];
      LinesStep(s);
      TerminatedLines(rest);
      var ls := Lines(s);
      assert ls[0] == line && ls[1..] == Lines(rest);
      TerminatedCons(ls, []);
      assert Terminated(ls) == line + "\n" + Terminated(Lines(rest));
      if rest != [] {
        assert s[|s| - 1] == rest[|rest| - 1];
      }
    }
  }
}
