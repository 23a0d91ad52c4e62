/**
 * Packed ARGB pixels as the native engine sees them: one 32-bit word per
 * pixel, alpha in bits 24..31, red in 16..23, green in 8..15, blue in 0..7.
 *
 * A pixel is modelled by its 32-bit pattern read as an unsigned number, so
 * the bit operations the filters use become arithmetic on that number:
 * `x >> k` followed by `& 0xff` is `(x / 2^k) % 256` (the C++ shift is
 * arithmetic on a signed `jint`, but the mask keeps only the 8 bits at the
 * shift position, which are the same for either reading), `x << k` is a
 * multiplication by `2^k` reduced modulo `2^32`, and `|` is `BitOr` below.
 */
module Pixels {

  /** The bit pattern of one Java `int` pixel. */
  type Pixel = p: int | 0 <= p < 0x1_0000_0000

  /** One 8-bit colour or alpha channel. */
  type Channel = c: int | 0 <= c <= 255

  /** The four channels of one pixel. */
  datatype Argb = Argb(a: Channel, r: Channel, g: Channel, b: Channel)

  /** The largest value of a Java/JNI `int`. */
  const MaxJint: int := 0x7fff_ffff

  /** Dimensions the native filters can work with: the buffer length
      `width * height` is computed in a 32-bit `jint` and must not overflow. */
  predicate Dims(width: int, height: int)
  {
    0 <= width && 0 <= height && width * height <= MaxJint
  }

  /** A pixel array handed to a native filter together with its dimensions:
      the filters read the first `width * height` elements. */
  predicate HoldsImage(pixels: seq<Pixel>, width: int, height: int)
  {
    Dims(width, height) && width * height <= |pixels|
  }

  /** `(color >> 24) & 0xff`, `(color >> 16) & 0xff`, `(color >> 8) & 0xff`
      and `color & 0xff`. */
  function Alpha(p: Pixel): Channel { (p / 0x100_0000) % 0x100 }
  function Red(p: Pixel): Channel { (p / 0x1_0000) % 0x100 }
  function Green(p: Pixel): Channel { (p / 0x100) % 0x100 }
  function Blue(p: Pixel): Channel { p % 0x100 }

  /** The channel extraction every filter starts with. */
  function Unpack(p: Pixel): Argb
  {
    Argb(Alpha(p), Red(p), Green(p), Blue(p))
  }

  /** Four in-range channels in their byte positions. */
  function Pack(c: Argb): Pixel
  {
    c.a * 0x100_0000 + c.r * 0x1_0000 + c.g * 0x100 + c.b
  }

  function Pow2(k: nat): (n: nat)
    ensures 1 <= n
  {
    if k == 0 then 1 else 2 * Pow2(k - 1)
  }

  /** Bitwise or of two non-negative numbers, one bit at a time. */
  function BitOr(x: nat, y: nat): nat
    decreases x + y
  {
    if x == 0 then y
    else if y == 0 then x
    else 2 * BitOr(x / 2, y / 2) + (if x % 2 == 1 || y % 2 == 1 then 1 else 0)
  }

  /** The 32-bit two's-complement pattern of a C++ `int` value. */
  function Word(x: int): Pixel
  {
    x % 0x1_0000_0000
  }

  /** `(alpha << 24) | (red << 16) | (green << 8) | blue` for arbitrary `int`
      operands, as the filters write it: bits shifted past bit 31 are lost
      and a negative operand contributes its sign-extended bit pattern. */
  function PackWord(alpha: int, red: int, green: int, blue: int): Pixel
  {
    Pow2Bytes();
    var ar := BitOr(Word(alpha * 0x100_0000), Word(red * 0x1_0000));
    BitOrBound(Word(alpha * 0x100_0000), Word(red * 0x1_0000), 32);
    var arg := BitOr(ar, Word(green * 0x100));
    BitOrBound(ar, Word(green * 0x100), 32);
    BitOrBound(arg, Word(blue), 32);
    BitOr(arg, Word(blue))
  }

  lemma {:induction false} BitOrBound(x: nat, y: nat, n: nat)
    requires x < Pow2(n) && y < Pow2(n)
    ensures BitOr(x, y) < Pow2(n)
    decreases x + y
  {
    if x != 0 && y != 0 {
      BitOrBound(x / 2, y / 2, n - 1);
    }
  }

  lemma {:induction false} Pow2Add(i: nat, j: nat)
    ensures Pow2(i + j) == Pow2(i) * Pow2(j)
    decreases i
  {
    if i > 0 {
      Pow2Add(i - 1, j);
    }
  }

  lemma Pow2Bytes()
    ensures Pow2(8) == 0x100 && Pow2(16) == 0x1_0000 && Pow2(24) == 0x100_0000 && Pow2(32) == 0x1_0000_0000
  {
    assert Pow2(4) == 16;
    Pow2Add(4, 4);
    Pow2Add(8, 8);
    Pow2Add(16, 8);
    Pow2Add(16, 16);
  }

  lemma Div8(q: int, r: int)
    requires 0 <= r < 0x100
    ensures (q * 0x100 + r) / 0x100 == q && (q * 0x100 + r) % 0x100 == r
  {
  }

  lemma Div16(q: int, r: int)
    requires 0 <= r < 0x1_0000
    ensures (q * 0x1_0000 + r) / 0x1_0000 == q
  {
  }

  lemma Div24(q: int, r: int)
    requires 0 <= r < 0x100_0000
    ensures (q * 0x100_0000 + r) / 0x100_0000 == q
  {
  }

  /** Unpacking a packed tuple of in-range channels gives the tuple back. */
  lemma UnpackPack(c: Argb)
    ensures Unpack(Pack(c)) == c
  {
    var p := Pack(c);
    Div24(c.a, c.r * 0x1_0000 + c.g * 0x100 + c.b);
    Div16(c.a * 0x100 + c.r, c.g * 0x100 + c.b);
    Div8(c.a, c.r);
    Div8(c.a * 0x1_0000 + c.r * 0x100 + c.g, c.b);
    Div8(c.a * 0x100 + c.r, c.g);
    assert p / 0x1_0000 == c.a * 0x100 + c.r;
    assert p / 0x100 == (c.a * 0x100 + c.r) * 0x100 + c.g;
  }

  /** Unpacking a pixel and repacking its unchanged channels restores the
      original 32-bit word. */
  lemma PackUnpack(p: Pixel)
    ensures Pack(Unpack(p)) == p
  {
    var c := Unpack(p);
    assert p == (p / 0x100) * 0x100 + c.b;
    assert p / 0x100 == (p / 0x1_0000) * 0x100 + c.g;
    assert p / 0x1_0000 == (p / 0x100_0000) * 0x100 + c.r;
  }

  /** A channel-wise description of a pixel determines it. */
  lemma PixelOfChannels(p: Pixel, c: Argb)
    requires Unpack(p) == c
    ensures p == Pack(c)
  {
    PackUnpack(p);
  }

  /** Two pixels are equal exactly when all four channels are. */
  lemma PixelExtensionality(p: Pixel, q: Pixel)
    ensures p == q <==> Unpack(p) == Unpack(q)
  {
    PackUnpack(p);
    PackUnpack(q);
  }

  /** For operands already in [0, 255], the shift-and-or expression the
      filters write is `Pack`: the four fields do not overlap. */
  lemma PackWordOfChannels(c: Argb)
    ensures PackWord(c.a, c.r, c.g, c.b) == Pack(c)
  {
    var a, r, g := c.a * 0x100_0000, c.r * 0x1_0000, c.g * 0x100;
    assert Word(a) == a && Word(r) == r && Word(g) == g && Word(c.b) == c.b;
    OrAlphaRed(c.a, c.r);
    OrGreen(c.a * 0x100 + c.r, c.g);
    OrBlue(c.a * 0x1_0000 + c.r * 0x100 + c.g, c.b);
  }

  lemma OrAlphaRed(a: Channel, r: Channel)
    ensures BitOr(a * 0x100_0000, r * 0x1_0000) == a * 0x100_0000 + r * 0x1_0000
  {
    Pow2Bytes();
    OrInto(a, r * 0x1_0000, 24);
  }

  lemma OrGreen(high: nat, g: Channel)
    ensures BitOr(high * 0x1_0000, g * 0x100) == high * 0x1_0000 + g * 0x100
  {
    Pow2Bytes();
    OrInto(high, g * 0x100, 16);
  }

  lemma OrBlue(high: nat, b: Channel)
    ensures BitOr(high * 0x100, b) == high * 0x100 + b
  {
    Pow2Bytes();
    OrInto(high, b, 8);
  }

  /** `(high << n) | low` is `high * 2^n + low` when `low` fits in `n` bits:
      no bit position is set in both operands. */
  lemma {:induction false} OrInto(high: nat, low: nat, n: nat)
    requires low < Pow2(n)
    ensures BitOr(high * Pow2(n), low) == high * Pow2(n) + low
    decreases n
  {
    var x := high * Pow2(n);
    if x != 0 && low != 0 {
      var half := high * Pow2(n - 1);
      assert x == 2 * half;
      OrInto(high, low / 2, n - 1);
      assert BitOr(x, low) == 2 * BitOr(half, low / 2) + low % 2;
    }
  }
}
