/** Bytes and NUL-terminated C strings (without their terminator). */
module Bytes {

  type Byte = b: int | 0 <= b < 256

  ghost predicate NulFree(s: seq<Byte>) {
    forall i :: 0 <= i < |s| ==> s[i] != 0
  }

  /** A C string of characters. */
  type CharString = s: string | '\0' !in s witness ""

  type CString = s: seq<Byte> | NulFree(s) witness []

  datatype Option<+T> = None | Some(value: T)
}
