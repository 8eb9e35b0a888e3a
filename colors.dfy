/** The Color value type of include/image.h: four uint8_t channels. */
module Colors {
  import opened Seqs

  /** uint8_t */
  type Byte = x: int | 0 <= x < 256

  /** static_cast<uint8_t>(x): reduction modulo 256. */
  function Wrap8(x: int): (b: Byte)
    ensures 0 <= x < 256 ==> b == x
  {
    x % 256
  }

  datatype Color = Color(r: Byte, g: Byte, b: Byte, a: Byte)

  /** Color(r, g, b): the three-argument constructor, fully opaque. */
  function Rgb(r: Byte, g: Byte, b: Byte): (c: Color)
    ensures c.a == 255
    ensures c == Opaque(Color(r, g, b, 0))
  {
    Color(r, g, b, 255)
  }

  /** A value-initialised Color() (the fill of Image(w, h)): all channels 0. */
  function Zero(): Color
  {
    Color(0, 0, 0, 0)
  }

  function Black(): (c: Color)
    ensures c == Rgb(0, 0, 0)
  {
    Color(0, 0, 0, 255)
  }

  function White(): (c: Color)
    ensures c == Rgb(255, 255, 255)
  {
    Color(255, 255, 255, 255)
  }

  /** c with alpha forced to 255: what a codec that carries no alpha
      restores from a Black-filled image. */
  function Opaque(c: Color): Color
  {
    c.(a := 255)
  }

  /** operator+: channel-wise sum, each channel cast back to uint8_t. */
  function Add(c: Color, d: Color): (s: Color)
  {
    Color(AddByte(c.r, d.r), AddByte(c.g, d.g), AddByte(c.b, d.b), AddByte(c.a, d.a))
  }

  /** One channel of operator+: the int sum cast back to uint8_t. */
  function AddByte(x: Byte, y: Byte): Byte
  {
    Wrap8(x + y)
  }

  lemma AddCommutative(c: Color, d: Color)
    ensures Add(c, d) == Add(d, c)
  {
  }

  lemma AddZeroIdentity(c: Color)
    ensures Add(c, Zero()) == c && Add(Zero(), c) == c
  {
  }

  lemma Wrap8AddLeft(x: int, y: int)
    ensures Wrap8(Wrap8(x) + y) == Wrap8(x + y)
  {
    var q := x / 256;
    assert x == 256 * q + Wrap8(x);
    assert x + y == 256 * q + (Wrap8(x) + y);
  }

  lemma AddByteAssociative(x: Byte, y: Byte, z: Byte)
    ensures AddByte(AddByte(x, y), z) == AddByte(x, AddByte(y, z))
  {
    Wrap8AddLeft(x + y, z);
    Wrap8AddLeft(y + z, x);
    assert Wrap8(y + z) + x == x + Wrap8(y + z);
  }

  /** Wrapping sums associate: (c + d) + e == c + (d + e). */
  lemma AddAssociative(c: Color, d: Color, e: Color)
    ensures Add(Add(c, d), e) == Add(c, Add(d, e))
  {
    AddByteAssociative(c.r, d.r, e.r);
    AddByteAssociative(c.g, d.g, e.g);
    AddByteAssociative(c.b, d.b, e.b);
    AddByteAssociative(c.a, d.a, e.a);
  }

  /** Adding two opaque colours wraps alpha to 254. */
  lemma OpaqueSumAlpha(c: Color, d: Color)
    requires c.a == 255 && d.a == 255
    ensures Add(c, d).a == 254
  {
  }

  /** The four channels of a Color in memory order (r, g, b, a). */
  function ChannelBytes(c: Color): seq<Byte>
  {
    [c.r, c.g, c.b, c.a]
  }

  /** A Color vector read as raw bytes (reinterpret_cast<const uint8_t*>),
      four bytes per pixel. */
  function ToBytes(px: seq<Color>): (bytes: seq<Byte>)
    ensures |bytes| == 4 * |px|
  {
    seq(4 * |px|, j requires 0 <= j < 4 * |px| => ChannelBytes(px[j / 4])[j % 4])
  }

  /** Bytes 4i .. 4i+3 of the raw memory are pixel i's r, g, b, a. */
  lemma ToBytesAt(px: seq<Color>, i: int)
    requires 0 <= i < |px|
    ensures ToBytes(px)[4 * i..4 * i + 4] == ChannelBytes(px[i])
  {
    var bytes := ToBytes(px);
    forall k | 0 <= k < 4
      ensures bytes[4 * i + k] == ChannelBytes(px[i])[k]
    {
      assert (4 * i + k) / 4 == i && (4 * i + k) % 4 == k;
    }
  }

  /** The Color vector whose memory is the given bytes, four per pixel. */
  function FromBytes(bytes: seq<Byte>): (px: seq<Color>)
    requires |bytes| % 4 == 0
    ensures 4 * |px| == |bytes|
  {
    seq(|bytes| / 4, i requires 0 <= i < |bytes| / 4 =>
      Color(bytes[4 * i], bytes[4 * i + 1], bytes[4 * i + 2], bytes[4 * i + 3]))
  }

  /** Reading pixels back from their own bytes gives the pixels. */
  lemma BytesRoundTrip(px: seq<Color>)
    ensures FromBytes(ToBytes(px)) == px
  {
    var bytes := ToBytes(px);
    assert |bytes| / 4 == |px|;
    forall i | 0 <= i < |px|
      ensures FromBytes(bytes)[i] == px[i]
    {
      ToBytesAt(px, i);
      assert bytes[4 * i..4 * i + 4][0] == bytes[4 * i];
      assert bytes[4 * i..4 * i + 4][1] == bytes[4 * i + 1];
      assert bytes[4 * i..4 * i + 4][2] == bytes[4 * i + 2];
      assert bytes[4 * i..4 * i + 4][3] == bytes[4 * i + 3];
    }
  }

  /** A Color lvalue (a Color& into an image or a local): the object
      operator+= updates in place. */
  class ColorCell {
    var r: Byte
    var g: Byte
    var b: Byte
    var a: Byte

    function Value(): Color
      reads this
    {
      Color(r, g, b, a)
    }

    constructor (c: Color)
      ensures Value() == c
    {
      r, g, b, a := c.r, c.g, c.b, c.a;
    }

    /** operator+=: adds other channel by channel, in the order r, g, b, a.
        Each channel reads other's same channel before writing its own, so
        c += c doubles c even though other aliases this. */
    method AddAssign(other: ColorCell)
      modifies this
      ensures Value() == Add(old(Value()), old(other.Value()))
    {
      r := AddByte(r, other.r);
      g := AddByte(g, other.g);
      b := AddByte(b, other.b);
      a := AddByte(a, other.a);
    }
  }
}
