/** Byte strings and small helpers shared by every module of the model.
    C code in the server works on `uint8_t` buffers and `ro_vec` views
    (a pointer plus a length); both are modelled as `seq<byte>`. */
module Bytes {

  /** An unsigned 8-bit value. */
  newtype byte = x: int | 0 <= x < 256

  /** The conventional Some/None datatype that stands in for a possibly NULL pointer. */
  datatype Option<+T> = None | Some(value: T)

  const NUL: byte := 0
  const TAB: byte := 9
  const LF: byte := 10
  const CR: byte := 13
  const SP: byte := 32
  const PERCENT: byte := 37
  const DOT: byte := 46
  const SLASH: byte := 47
  const COLON: byte := 58
  const QMARK: byte := 63
  const BACKSLASH: byte := 92

  /** 2^32: unsigned 32-bit arithmetic in C wraps modulo this value. */
  const TWO32: int := 0x1_0000_0000

  /** An ASCII string literal as bytes. */
  function Str(s: string): (r: seq<byte>)
    requires forall i :: 0 <= i < |s| ==> s[i] as int < 256
    ensures |r| == |s|
    ensures forall i :: 0 <= i < |s| ==> r[i] as int == s[i] as int
  {
    seq(|s|, i requires 0 <= i < |s| => s[i] as int as byte)
  }

  predicate IsDigit(c: byte) { '0' as int <= c as int <= '9' as int }

  /** The C library's tolower in the "C" locale: only 'A'..'Z' change. */
  function ToLower(c: byte): (r: byte)
    ensures 'A' as int <= c as int <= 'Z' as int ==> r as int == c as int + 32
    ensures !('A' as int <= c as int <= 'Z' as int) ==> r == c
  {
    if 'A' as int <= c as int <= 'Z' as int then c + 32 else c
  }

  /** Every byte of `s` passed through ToLower. */
  function Lower(s: seq<byte>): (r: seq<byte>)
    ensures |r| == |s|
    ensures forall i :: 0 <= i < |s| ==> r[i] == ToLower(s[i])
  {
    seq(|s|, i requires 0 <= i < |s| => ToLower(s[i]))
  }

  predicate NoNul(s: seq<byte>) { forall i :: 0 <= i < |s| ==> s[i] != NUL }

  /** No element occurs twice: the shape of an intrusive list. */
  predicate Distinct<T(==)>(s: seq<T>)
  {
    forall i, j :: 0 <= i < j < |s| ==> s[i] != s[j]
  }

  function Min(a: int, b: int): (r: int)
    ensures r <= a && r <= b && (r == a || r == b)
  {
    if a < b then a else b
  }

  /** A little-endian unsigned 32-bit word. */
  function Dec4(w: seq<byte>): nat
    requires |w| == 4
  {
    w[0] as int + 256 * (w[1] as int + 256 * (w[2] as int + 256 * w[3] as int))
  }

  /** The u32 word at byte offset `o` of an image. */
  function U32(m: seq<byte>, o: nat): nat
    requires o + 4 <= |m|
  {
    Dec4(m[o..o + 4])
  }
}
