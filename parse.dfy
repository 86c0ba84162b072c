/**
 * `pid_from_args`: the PID argument of the builtin.
 *
 * The argument vector is a possibly-null C array of possibly-null C strings.
 * Only slot 0 is read, and only up to its first zero byte; the text must be
 * UTF-8 and must then parse as an `i32` (`pid_t`). Nothing checks that the
 * number is positive.
 */
module Parse {
  import opened Results
  import opened Utf8
  import opened Seqs
  import opened RustInt
  import opened CStr

  /** The errors boxed into `Box<dyn Error>`. */
  datatype PidError = NullPtr | Utf8Error | ParseIntError(kind: IntErrorKind)

  /** `pid_from_args(args)`; reading slot 0 of a non-null array needs at least that slot. */
  function PidFromArgs(args: Option<seq<Option<CString>>>): (r: Result<int32, PidError>)
    requires args.Some? ==> |args.value| > 0
    ensures args.None? ==> r == Err(NullPtr)
    ensures args.Some? && args.value[0].None? ==> r == Err(NullPtr)
  {
    match args
    case None => Err(NullPtr)
    case Some(slots) =>
      match slots[0]
      case None => Err(NullPtr)
      case Some(p) =>
        match Decode(CStrBytes(p))
        case None => Err(Utf8Error)
        case Some(text) =>
          match ParseI32(text)
          case Err(kind) => Err(ParseIntError(kind))
          case Ok(pid) => Ok(pid)
  }

  /**
   * Success exactly when slot 0 holds, before its first zero byte, the UTF-8
   * encoding of an optionally signed decimal numeral whose value fits in an
   * `i32`; the result is that value.
   */
  lemma PidFromArgsOk(args: Option<seq<Option<CString>>>, text: string)
    requires args.Some? && |args.value| > 0 && args.value[0].Some?
    ensures
      (PidFromArgs(args).Ok? && CStrBytes(args.value[0].value) == Encode(text)) <==>
      (CStrBytes(args.value[0].value) == Encode(text) && IsIntLiteral(text) && InI32(LiteralValue(text)))
    ensures PidFromArgs(args).Ok? && CStrBytes(args.value[0].value) == Encode(text) ==>
      PidFromArgs(args).value as int == LiteralValue(text)
  {
    var bytes := CStrBytes(args.value[0].value);
    DecodeIff(bytes, text);
    ParseI32Spec(text);
  }

  /** Bytes before the first zero that are not valid UTF-8 are rejected. */
  lemma PidFromArgsRejectsInvalidUtf8(args: Option<seq<Option<CString>>>)
    requires args.Some? && |args.value| > 0 && args.value[0].Some?
    requires !Valid(CStrBytes(args.value[0].value))
    ensures PidFromArgs(args) == Err(Utf8Error)
  {
  }

  /** Only slot 0 and only its bytes before the first zero influence the result. */
  lemma PidFromArgsReadsOnlyFirstString(a: seq<Option<CString>>, b: seq<Option<CString>>)
    requires |a| > 0 && |b| > 0
    requires a[0].None? <==> b[0].None?
    requires a[0].Some? ==> CStrBytes(a[0].value) == CStrBytes(b[0].value)
    ensures PidFromArgs(Some(a)) == PidFromArgs(Some(b))
  {
  }

  /** The C string of any `i32`'s decimal rendering, followed by anything, decodes to that `i32`. */
  lemma PidFromArgsRenderRoundTrip(v: int32, tail: seq<byte>, rest: seq<Option<CString>>)
    ensures PidFromArgs(Some([Some(Encode(Render(v)) + [0] + tail)] + rest)) == Ok(v)
  {
    var text := Render(v);
    assert '\0' !in text by {
      if v < 0 { assert text[1..] == NatDigits(-(v as int)); }
      assert forall i :: 0 <= i < |text| ==> text[i] == '-' || IsDigit(text[i]);
    }
    EncodeNoNul(text);
    TakeUntilDelimited(Encode(text), 0, tail);
    DecodeEncode(text);
    ParseRender(v);
  }

  // The unit tests of pid_from_args.

  lemma ParsesNums()
    ensures PidFromArgs(Some([Some([0x35, 0x37, 0x37, 0])])) == Ok(577)
  {
    assert Encode("577") == [0x35, 0x37, 0x37];
    assert [0x35, 0x37, 0x37] + [0] + [] == [0x35 as byte, 0x37, 0x37, 0];
    PidFromArgsRenderRoundTrip(577, [], []);
    assert Render(577) == "577";
  }

  lemma FailsLetters()
    ensures PidFromArgs(Some([Some([0x66, 0x69, 0x76, 0x65, 0])])).Err?
  {
  }

  lemma FailsNonAscii()
    ensures PidFromArgs(Some([Some([0xFE, 0])])) == Err(Utf8Error)
  {
  }

  lemma FailsEmpty()
    ensures PidFromArgs(Some([Some([0])])) == Err(ParseIntError(Empty))
  {
  }

  lemma FailsNullArray()
    ensures PidFromArgs(None) == Err(NullPtr)
  {
  }

  lemma FailsNullFirstString()
    ensures PidFromArgs(Some([None])) == Err(NullPtr)
  {
  }

  /** No positivity check: a leading minus sign is accepted. */
  lemma AcceptsNegative()
    ensures PidFromArgs(Some([Some([0x2D, 0x35, 0])])) == Ok(-5)
  {
  }

  /** Whitespace is not skipped. */
  lemma RejectsSpace()
    ensures PidFromArgs(Some([Some([0x20, 0x35, 0])])).Err?
  {
  }
}
