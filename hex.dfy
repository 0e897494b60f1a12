/**
 * Lowercase hexadecimal as `sprintf("%02x")` writes it, one byte at a time,
 * high nibble first, and the decoder that reads it back.
 */
module HexCodec {
  import opened Bytes

  const ASCII_LOWER_A: int := 97

  /** '0'..'9' or 'a'..'f' */
  predicate IsLowerHex(c: byte) {
    IsDigit(c) || ASCII_LOWER_A <= c as int <= ASCII_LOWER_A + 5
  }

  /** The value of one lowercase hex character. */
  function NibbleValue(c: byte): (v: nat)
    requires IsLowerHex(c)
    ensures v < 16
  {
    if IsDigit(c) then c as int - ASCII_ZERO else c as int - ASCII_LOWER_A + 10
  }

  /** The lowercase hex character of a nibble. */
  function HexDigit(v: nat): (c: byte)
    requires v < 16
    ensures IsLowerHex(c) && c != 0
    ensures NibbleValue(c) == v
  {
    if v < 10 then (ASCII_ZERO + v) as byte else (ASCII_LOWER_A + v - 10) as byte
  }

  /** `%02x` of one byte: exactly two characters, high nibble first. */
  function ByteHex(b: byte): seq<byte> {
    [HexDigit(b as nat / 16), HexDigit(b as nat % 16)]
  }

  /** The hex rendering of a byte string, byte after byte. */
  function Hex(d: seq<byte>): (r: seq<byte>)
    ensures |r| == 2 * |d|
  {
    if d == [] then [] else Hex(d[..|d| - 1]) + ByteHex(d[|d| - 1])
  }

  predicate AllLowerHex(s: seq<byte>) {
    forall i :: 0 <= i < |s| ==> IsLowerHex(s[i])
  }

  /** Reads pairs of lowercase hex characters back into bytes. */
  function Unhex(s: seq<byte>): (d: seq<byte>)
    requires |s| % 2 == 0 && AllLowerHex(s)
    ensures 2 * |d| == |s|
  {
    if s == [] then []
    else
      var hi, lo := s[|s| - 2], s[|s| - 1];
      Unhex(s[..|s| - 2]) + [(NibbleValue(hi) * 16 + NibbleValue(lo)) as byte]
  }

  /** Characters 2i and 2i+1 of the rendering are the nibbles of byte i. */
  lemma {:induction false} HexAt(d: seq<byte>, i: nat)
    requires i < |d|
    ensures Hex(d)[2 * i] == HexDigit(d[i] as nat / 16)
    ensures Hex(d)[2 * i + 1] == HexDigit(d[i] as nat % 16)
    decreases |d|
  {
    if i < |d| - 1 {
      var init := d[..|d| - 1];
      HexAt(init, i);
      assert Hex(d)[..2 * |init|] == Hex(init);
    }
  }

  /** The rendering holds only lowercase hex characters, hence no NUL. */
  lemma HexIsLowercase(d: seq<byte>)
    ensures AllLowerHex(Hex(d))
    ensures NoNul(Hex(d))
  {
    forall k | 0 <= k < |Hex(d)|
      ensures IsLowerHex(Hex(d)[k]) && Hex(d)[k] != 0
    {
      HexAt(d, k / 2);
    }
  }

  /** Decoding the rendering gives back the bytes. */
  lemma {:induction false} UnhexHex(d: seq<byte>)
    ensures AllLowerHex(Hex(d))
    ensures Unhex(Hex(d)) == d
    decreases |d|
  {
    HexIsLowercase(d);
    if d != [] {
      var init, last := d[..|d| - 1], d[|d| - 1];
      var h := Hex(d);
      assert h[..|h| - 2] == Hex(init);
      UnhexHex(init);
      assert last as nat / 16 * 16 + last as nat % 16 == last as nat;
    }
  }
}
