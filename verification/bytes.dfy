/** Raw bytes and the small sequence builders the buffer model is stated with. */
module Bytes {

  /** An `unsigned char` of the C source. */
  newtype Byte = x: int | 0 <= x < 0x100

  /** The width of the C `size_t` the buffer's sizes and indices are held in. */
  const SizeModulus: nat := 0x1_0000_0000_0000_0000

  /** `n` copies of `x`, as `memset` leaves a region. */
  function Rep(n: nat, x: Byte): (r: seq<Byte>)
    ensures |r| == n
    ensures forall i :: 0 <= i < n ==> r[i] == x
  {
    seq(n, _ => x)
  }

  /** A character literal as C stores it in an `unsigned char`: its low byte. */
  function Char(c: char): (r: Byte)
    ensures r as int == c as int % 0x100
  {
    (c as int % 0x100) as Byte
  }

  /** The bytes of a C string literal without its terminator. */
  function Ascii(s: string): (r: seq<Byte>)
    ensures |r| == |s|
    ensures forall i :: 0 <= i < |s| ==> r[i] == Char(s[i])
  {
    seq(|s|, i requires 0 <= i < |s| => Char(s[i]))
  }

  /** The bytes of two strings joined are the bytes of each, joined. */
  lemma AsciiConcat(s: string, t: string)
    ensures Ascii(s + t) == Ascii(s) + Ascii(t)
  {
  }

  /** The smaller of two numbers. */
  function Min(a: int, b: int): (m: int)
    ensures m <= a && m <= b
    ensures m == a || m == b
  {
    if a < b then a else b
  }
}
