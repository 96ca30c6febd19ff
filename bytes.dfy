/**
 * Machine integers, byte strings and the C-string conversions the boundary
 * layer applies to error messages.
 */
module Bytes {

  type u8 = x: int | 0 <= x < 0x100
  type u32 = x: int | 0 <= x < 0x1_0000_0000
  type u64 = x: int | 0 <= x < 0x1_0000_0000_0000_0000
  type i64 = x: int | -0x8000_0000_0000_0000 <= x < 0x8000_0000_0000_0000

  /** No byte of `s` is the C terminator. */
  predicate NulFree(s: seq<u8>) {
    forall i :: 0 <= i < |s| ==> s[i] != 0
  }

  /** A message that `CString::new` accepts: UTF-8 bytes with no interior NUL. */
  type Text = s: seq<u8> | NulFree(s)

  /** The bytes of an ASCII string literal; any other character reads as `?`. */
  function Ascii(s: string): (r: seq<u8>)
    ensures |r| == |s|
    ensures forall i :: 0 <= i < |s| && 0 < s[i] as int < 0x80 ==> r[i] == s[i] as int
    ensures NulFree(r)
  {
    seq(|s|, i requires 0 <= i < |s| => if 0 < s[i] as int < 0x80 then s[i] as int else '?' as int)
  }

  /** Reinterpretation of a byte as a C `char` (`i8`), as a `transmute` does. */
  function ToI8(b: u8): (c: int)
    ensures -0x80 <= c < 0x80
    ensures (c == 0) == (b == 0)
    ensures FromI8(c) == b
  {
    if b < 0x80 then b else b - 0x100
  }

  /** The inverse reinterpretation, from `i8` back to `u8`. */
  function FromI8(c: int): u8
    requires -0x80 <= c < 0x80
  {
    if c < 0 then c + 0x100 else c
  }

  /**
   * `CString::new(m).unwrap().to_bytes()` seen as `[i8]`: the message bytes
   * themselves, without the trailing NUL that `to_bytes_with_nul` would add.
   */
  function CStringBytes(m: Text): (r: seq<int>)
    ensures |r| == |m|
    ensures forall i :: 0 <= i < |r| ==> -0x80 <= r[i] < 0x80 && r[i] != 0 && FromI8(r[i]) == m[i]
  {
    seq(|m|, i requires 0 <= i < |m| => ToI8(m[i]))
  }

  /** The bytes of `n` written in decimal, as `format!("{n}")` writes them. */
  function Decimal(n: nat): (r: seq<u8>)
    ensures 0 < |r|
    ensures forall i :: 0 <= i < |r| ==> '0' as int <= r[i] <= '9' as int
    ensures r[0] == '0' as int ==> n == 0
    ensures NulFree(r)
  {
    if n < 10 then ['0' as int + n] else Decimal(n / 10) + ['0' as int + n % 10]
  }

  /** The number a string of decimal digits denotes. */
  function DigitsValue(s: seq<u8>): nat
    requires forall i :: 0 <= i < |s| ==> '0' as int <= s[i] <= '9' as int
  {
    if s == [] then 0 else DigitsValue(s[..|s| - 1]) * 10 + (s[|s| - 1] - '0' as int)
  }

  /** Reading back the decimal text yields the number. */
  lemma {:induction false} DecimalRoundTrip(n: nat)
    ensures DigitsValue(Decimal(n)) == n
  {
    if n >= 10 {
      var d := Decimal(n);
      assert d[..|d| - 1] == Decimal(n / 10);
      DecimalRoundTrip(n / 10);
    }
  }
}
