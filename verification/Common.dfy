/** Bytes, and the two result types every other module shares. */
module Common {
  type Byte = bv8

  /** A `std::string` of the program: a sequence of bytes, NUL included. */
  type Bytes = seq<Byte>

  /** The byte of an ASCII character, and the bytes of an ASCII text. */
  function Ascii(c: char): Byte
    requires c < 128 as char
  {
    c as Byte
  }

  predicate IsUpper(c: Byte) { 0x41 <= c <= 0x5a }

  predicate IsLower(c: Byte) { 0x61 <= c <= 0x7a }

  predicate IsDigit(c: Byte) { 0x30 <= c <= 0x39 }

  lemma AsciiRanges()
    ensures Ascii('A') == 0x41 && Ascii('Z') == 0x5a && Ascii('a') == 0x61 && Ascii('z') == 0x7a
    ensures Ascii('0') == 0x30 && Ascii('9') == 0x39
  {
  }

  function Text(s: string): Bytes
    requires forall i :: 0 <= i < |s| ==> s[i] < 128 as char
  {
    seq(|s|, i requires 0 <= i < |s| => Ascii(s[i]))
  }

  datatype Option<+T> = None | Some(value: T)

  datatype Result<+T, +E> = Ok(value: T) | Err(error: E)

  /** What follows bytes already produced; an error discards them. */
  function Append<E>(prefix: Bytes, rest: Result<Bytes, E>): Result<Bytes, E> {
    if rest.Ok? then Ok(prefix + rest.value) else rest
  }

  predicate Distinct<T(==)>(s: seq<T>) { forall i, j :: 0 <= i < j < |s| ==> s[i] != s[j] }

  function Max(a: int, b: int): int { if a >= b then a else b }
}
