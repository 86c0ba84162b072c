/** C strings as Rust's `CStr::from_ptr` reads them. */
module CStr {
  import opened Utf8
  import opened Seqs

  /**
   * The memory a non-null `*const c_char` points at, up to and including its
   * terminator; a sequence without a zero byte stands for a string that ends
   * where the sequence does.
   */
  type CString = seq<byte>

  /** `CStr::from_ptr(p).to_bytes()`: the bytes before the first zero byte. */
  function CStrBytes(p: CString): (r: seq<byte>)
    ensures r <= p && 0 !in r
    ensures |r| < |p| ==> p[|r|] == 0
  {
    TakeUntil(p, 0)
  }
}
