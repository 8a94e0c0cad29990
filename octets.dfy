/** Bytes, the UTF-8 encoding of a string (Rust's `str::as_bytes`) and the
    lowercase hexadecimal encoding of the `hex` crate (`hex::encode`). */
module Octets {
  import opened Wrappers

  newtype byte = x: int | 0 <= x < 256

  /** A frame or buffer of the wire format (Rust's `bytes::Bytes`). */
  type Bytes = seq<byte>

  /** The UTF-8 encoding of one Unicode scalar value: one to four bytes. */
  function Utf8Char(c: char): (r: Bytes)
    ensures 1 <= |r| <= 4
    ensures (c as int < 0x80) <==> |r| == 1
    ensures c as int < 0x80 ==> r[0] as int == c as int
  {
    var n := c as int;
    if n < 0x80 then [n as byte]
    else if n < 0x800 then [(0xC0 + n / 0x40) as byte, (0x80 + n % 0x40) as byte]
    else if n < 0x10000 then
      [(0xE0 + n / 0x1000) as byte, (0x80 + n / 0x40 % 0x40) as byte, (0x80 + n % 0x40) as byte]
    else
      [(0xF0 + n / 0x40000) as byte, (0x80 + n / 0x1000 % 0x40) as byte,
       (0x80 + n / 0x40 % 0x40) as byte, (0x80 + n % 0x40) as byte]
  }

  /** The bytes of a string, as `str::as_bytes` gives them. */
  function Utf8(s: string): (r: Bytes)
    ensures |s| <= |r| <= 4 * |s|
  {
    if s == [] then [] else Utf8Char(s[0]) + Utf8(s[1..])
  }

  /** The ASCII code of the lowercase hexadecimal digit for `n`. */
  function HexDigit(n: int): byte
    requires 0 <= n < 16
  {
    if n < 10 then (0x30 + n) as byte else (0x61 + n - 10) as byte
  }

  /** `0`-`9` and `a`-`f`: the alphabet of `hex::encode`. */
  predicate IsLowerHexDigit(b: byte) {
    0x30 <= b <= 0x39 || 0x61 <= b <= 0x66
  }

  predicate IsLowerHex(s: Bytes) {
    forall i :: 0 <= i < |s| ==> IsLowerHexDigit(s[i])
  }

  function HexValue(b: byte): (n: int)
    requires IsLowerHexDigit(b)
    ensures 0 <= n < 16 && HexDigit(n) == b
  {
    if b <= 0x39 then b as int - 0x30 else b as int - 0x61 + 10
  }

  /** `hex::encode`: two lowercase digits per byte, high nibble first. */
  function Hex(bs: Bytes): (r: Bytes)
    ensures |r| == 2 * |bs|
    ensures IsLowerHex(r)
  {
    if bs == [] then []
    else [HexDigit(bs[0] as int / 16), HexDigit(bs[0] as int % 16)] + Hex(bs[1..])
  }

  /** The inverse of `Hex`: `None` for an odd length or a byte outside the alphabet. */
  function Unhex(s: Bytes): Option<Bytes>
    decreases |s|
  {
    if s == [] then Some([])
    else if |s| == 1 || !IsLowerHexDigit(s[0]) || !IsLowerHexDigit(s[1]) then None
    else match Unhex(s[2..])
      case None => None
      case Some(rest) => Some([(HexValue(s[0]) * 16 + HexValue(s[1])) as byte] + rest)
  }

  /** The hexadecimal text determines the bytes it encodes. */
  lemma {:induction false} UnhexHex(bs: Bytes)
    ensures Unhex(Hex(bs)) == Some(bs)
  {
    if bs != [] {
      var h := Hex(bs);
      assert h[2..] == Hex(bs[1..]);
      UnhexHex(bs[1..]);
      var hi, lo := bs[0] as int / 16, bs[0] as int % 16;
      assert HexValue(HexDigit(hi)) == hi && HexValue(HexDigit(lo)) == lo;
      assert [bs[0]] + bs[1..] == bs;
    }
  }

  /** Two byte strings with the same hexadecimal text are equal. */
  lemma HexInjective(a: Bytes, b: Bytes)
    requires Hex(a) == Hex(b)
    ensures a == b
  {
    UnhexHex(a);
    UnhexHex(b);
  }
}
