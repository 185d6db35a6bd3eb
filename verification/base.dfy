/** Shared vocabulary of the VGA text console model: bytes and optional values. */
module Base {

  /** An unsigned 8-bit value (Rust `u8`). */
  type Byte = b: int | 0 <= b < 256

  /** A value that may be absent (Rust `Option`). */
  datatype Option<+T> = None | Some(value: T)

  /** The bytes of an ASCII string literal. */
  function Ascii(s: string): (bytes: seq<Byte>)
    requires forall i :: 0 <= i < |s| ==> s[i] as int < 256
    ensures |bytes| == |s|
    ensures forall i :: 0 <= i < |s| ==> bytes[i] == s[i] as int
  {
    seq(|s|, i requires 0 <= i < |s| => s[i] as int)
  }
}
