/** RGBA8 colours, the channel-array encoding used by the projection, and the
    two-byte palette colour an area is remapped to. */
module Colors {

  /** One 8-bit colour channel. */
  newtype Byte = x: int | 0 <= x < 256

  /** An RGBA8 pixel value; equality is structural, as for the source's pixel type. */
  datatype Color = Color(r: Byte, g: Byte, b: Byte, a: Byte)

  /** Truncating cast of a non-negative integer to a byte: keeps the low 8 bits,
      as a C# `(byte)` conversion does in an unchecked context. */
  function ToByte(n: nat): (b: Byte)
    ensures b as int == n % 256
  {
    (n % 256) as Byte
  }

  /** The palette colour of the area with palette index `idx`: the low byte in red,
      the (truncated) high byte in green, blue 0 and alpha opaque. */
  function RemapColor(idx: nat): (c: Color)
    ensures c.b == 0 && c.a == 255
    ensures c.r as int == idx % 256
    ensures idx < 65536 ==> c.g as int == idx / 256
  {
    Color(ToByte(idx % 256), ToByte(idx / 256), 0, 255)
  }

  /** Reads a palette index back out of a remap colour. */
  function PaletteIndex(c: Color): (idx: nat)
    ensures idx < 65536
  {
    c.r as int + 256 * c.g as int
  }

  /** Every index the two-byte encoding can hold decodes back to itself. */
  lemma RemapRoundTrip(idx: nat)
    requires idx < 65536
    ensures PaletteIndex(RemapColor(idx)) == idx
  {
    var c := RemapColor(idx);
    assert c.r as int == idx % 256 && c.g as int == idx / 256;
  }

  /** Distinct palette indices below 65536 give distinct remap colours. */
  lemma RemapInjective(i: nat, j: nat)
    requires i < 65536 && j < 65536 && i != j
    ensures RemapColor(i) != RemapColor(j)
  {
    RemapRoundTrip(i);
    RemapRoundTrip(j);
  }

  /** Beyond 65535 the high byte wraps around: index 65536 is remapped to the
      same colour as index 0. */
  lemma RemapWraps()
    ensures RemapColor(65536) == RemapColor(0)
  {
    assert ToByte(65536 / 256) == 0;
  }

  /** The projection's colour encoding: the four channels as an integer array. */
  function EncodeColor(c: Color): (e: seq<int>)
    ensures |e| == 4
    ensures forall k :: 0 <= k < 4 ==> 0 <= e[k] < 256
  {
    [c.r as int, c.g as int, c.b as int, c.a as int]
  }

  /** Inverse of EncodeColor on well-formed channel arrays. */
  function DecodeColor(e: seq<int>): (c: Color)
    requires |e| == 4 && forall k :: 0 <= k < 4 ==> 0 <= e[k] < 256
  {
    Color(e[0] as Byte, e[1] as Byte, e[2] as Byte, e[3] as Byte)
  }

  lemma EncodeDecode(c: Color)
    ensures DecodeColor(EncodeColor(c)) == c
  {
  }

  lemma DecodeEncode(e: seq<int>)
    requires |e| == 4 && forall k :: 0 <= k < 4 ==> 0 <= e[k] < 256
    ensures EncodeColor(DecodeColor(e)) == e
  {
  }

  /** Distinct colours have distinct channel arrays. */
  lemma EncodeInjective(c: Color, d: Color)
    requires c != d
    ensures EncodeColor(c) != EncodeColor(d)
  {
    EncodeDecode(c);
    EncodeDecode(d);
  }
}
