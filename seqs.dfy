/** Prefix-until-delimiter, shared by C-string reading, `take_while`, `split` and `lines`. */
module Seqs {

  /** The longest prefix of `s` that does not contain `stop`. */
  function TakeUntil<T(==)>(s: seq<T>, stop: T): (r: seq<T>)
    ensures r <= s
    ensures stop !in r
    ensures |r| < |s| ==> s[|r|] == stop
  {
    if s == [] || s[0] == stop then [] else [s[0]] + TakeUntil(s[1..], stop)
  }

  /** A prefix free of `stop` followed by `stop` is what TakeUntil cuts off. */
  lemma {:induction false} TakeUntilDelimited<T>(a: seq<T>, stop: T, b: seq<T>)
    requires stop !in a
    ensures TakeUntil(a + [stop] + b, stop) == a
  {
    if a != [] {
      assert (a + [stop] + b)[1..] == a[1..] + [stop] + b;
      TakeUntilDelimited(a[1..], stop, b);
    }
  }

  /** A sequence free of `stop` is taken whole. */
  lemma TakeUntilAbsent<T>(s: seq<T>, stop: T)
    requires stop !in s
    ensures TakeUntil(s, stop) == s
  {
  }

  /** TakeUntil is the only prefix free of `stop` that is followed by `stop` or by the end. */
  lemma TakeUntilUnique<T>(s: seq<T>, stop: T, r: seq<T>)
    requires r <= s && stop !in r
    requires |r| < |s| ==> s[|r|] == stop
    ensures TakeUntil(s, stop) == r
  {
  }
}
