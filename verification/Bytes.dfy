/** Bytes, byte strings and the two outcome types shared by every component. */
module Bytes {

  type Byte = b: int | 0 <= b < 0x100 witness 0

  type ByteString = seq<Byte>

  /** A SHA-256 digest of some byte string. */
  datatype Fingerprint = Fingerprint(bytes: ByteString)

  datatype Option<+T> = None | Some(value: T)

  datatype Result<+T, +E> = Ok(value: T) | Err(error: E)

  function Min(a: int, b: int): int {
    if a <= b then a else b
  }

  /** What a reader got from the front of its input, and what is left. */
  datatype Parsed<+T> = Parsed(value: T, rest: ByteString)

  /** The bytes of an ASCII text. */
  function Ascii(text: string): (bytes: ByteString)
    ensures |bytes| == |text|
  {
    seq(|text|, i requires 0 <= i < |text| => text[i] as int % 0x100)
  }

  ghost function Elements<T>(s: seq<T>): set<T> {
    set x | x in s
  }

  ghost predicate NoDuplicates<T>(s: seq<T>) {
    forall i, j :: 0 <= i < j < |s| ==> s[i] != s[j]
  }
}
