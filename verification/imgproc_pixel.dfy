/**
 * RGBA pixels packed into a `uint32_t` (csf_assign02/c_imgproc_fns.c):
 * red in bits 24..31, green in 16..23, blue in 8..15, alpha in 0..7.
 */
module Pixel {
  import opened MachineInts

  const TWO8: int := 0x100
  const TWO16: int := 0x1_0000
  const TWO24: int := 0x100_0000

  /** A colour component: what `x & 0xFF` can produce. */
  type byte = x: int | 0 <= x < 256

  /** Quotient and remainder are determined by any decomposition with a remainder in range. */
  lemma DivModOf(n: int, d: int, q: int, r: int)
    requires d > 0 && 0 <= r < d && n == q * d + r
    ensures n / d == q && n % d == r
  {
    var q', r' := n / d, n % d;
    assert (q - q') * d == r' - r;
    if q > q' {
      MulAtLeast(q - q', d);
    } else if q < q' {
      MulAtLeast(q' - q, d);
    }
  }

  lemma MulAtLeast(k: int, d: int)
    requires k >= 1 && d > 0
    ensures k * d >= d
  {
  }

  /** get_r: the top byte, so the pixel lies in [r * 2^24, (r + 1) * 2^24). */
  function GetR(p: u32): (v: byte)
    ensures v * TWO24 <= p < (v + 1) * TWO24
  {
    (p / TWO24) % 256
  }

  /** get_g: the byte below the top one. */
  function GetG(p: u32): (v: byte)
    ensures v * TWO16 <= p % TWO24 < (v + 1) * TWO16
  {
    (p / TWO16) % 256
  }

  /** get_b: the second byte from the bottom. */
  function GetB(p: u32): (v: byte)
    ensures v * TWO8 <= p % TWO16 < (v + 1) * TWO8
  {
    (p / TWO8) % 256
  }

  /** get_a: the bottom byte; the rest of the pixel is a multiple of 256. */
  function GetA(p: u32): (v: byte)
    ensures (p - v) % 256 == 0
  {
    p % 256
  }

  /** make_pixel: each argument is masked to 8 bits and shifted into its field. */
  function MakePixel(r: u32, g: u32, b: u32, a: u32): (p: u32)
    ensures r < 256 && g < 256 && b < 256 && a < 256 ==>
              GetR(p) == r && GetG(p) == g && GetB(p) == b && GetA(p) == a
  {
    var p := (r % 256) * TWO24 + (g % 256) * TWO16 + (b % 256) * TWO8 + a % 256;
    ComponentsOf(r % 256, g % 256, b % 256, a % 256);
    p
  }

  /** The getters read back the four fields of a packed pixel. */
  lemma ComponentsOf(r: byte, g: byte, b: byte, a: byte)
    ensures var p := r * TWO24 + g * TWO16 + b * TWO8 + a;
            && 0 <= p < TWO32
            && (p / TWO24) % 256 == r && (p / TWO16) % 256 == g
            && (p / TWO8) % 256 == b && p % 256 == a
  {
    var p := r * TWO24 + g * TWO16 + b * TWO8 + a;
    DivModOf(p, TWO24, r, g * TWO16 + b * TWO8 + a);
    DivModOf(r, 256, 0, r);
    DivModOf(p, TWO16, r * 256 + g, b * TWO8 + a);
    DivModOf(r * 256 + g, 256, r, g);
    DivModOf(p, TWO8, r * TWO16 + g * 256 + b, a);
    DivModOf(r * TWO16 + g * 256 + b, 256, r * 256 + g, b);
    DivModOf(p, 256, r * TWO16 + g * 256 + b, a);
  }

  /** On components already below 256 the masks do nothing. */
  lemma MakePixelOfBytes(r: byte, g: byte, b: byte, a: byte)
    ensures MakePixel(r, g, b, a) == r * TWO24 + g * TWO16 + b * TWO8 + a
  {
    DivModOf(r, 256, 0, r);
    DivModOf(g, 256, 0, g);
    DivModOf(b, 256, 0, b);
    DivModOf(a, 256, 0, a);
  }

  /** Every pixel is the packing of its own four components. */
  lemma PixelOfComponents(p: u32)
    ensures MakePixel(GetR(p), GetG(p), GetB(p), GetA(p)) == p
  {
    var q1 := p / 256;
    var q2 := q1 / 256;
    var q3 := q2 / 256;
    var r: int, g: int, b: int, a: int := q3, q2 % 256, q1 % 256, p % 256;
    assert p == r * TWO24 + g * TWO16 + b * TWO8 + a;
    ComponentsOf(r, g, b, a);
    assert GetR(p) == r && GetG(p) == g && GetB(p) == b && GetA(p) == a;
    MakePixelOfBytes(r, g, b, a);
  }

  /** Two pixels with the same four components are the same pixel. */
  lemma PixelExtensional(p: u32, q: u32)
    requires GetR(p) == GetR(q) && GetG(p) == GetG(q) && GetB(p) == GetB(q) && GetA(p) == GetA(q)
    ensures p == q
  {
    PixelOfComponents(p);
    PixelOfComponents(q);
  }

  /**
   * The complement of one pixel: `(~p & 0xFFFFFF00) | (p & 0xFF)`.
   * The two masks select disjoint bits, so the OR is a sum.
   */
  function ComplementPixel(p: u32): (c: u32)
    ensures GetR(c) == 255 - GetR(p) && GetG(c) == 255 - GetG(p) && GetB(c) == 255 - GetB(p)
    ensures GetA(c) == GetA(p)
  {
    var inverted := TWO32 - 1 - p;
    ComplementFields(p);
    (inverted - inverted % 256) + p % 256
  }

  lemma ComplementFields(p: u32)
    ensures var inverted := TWO32 - 1 - p;
            (inverted - inverted % 256) + p % 256
              == MakePixel(255 - GetR(p), 255 - GetG(p), 255 - GetB(p), GetA(p))
  {
    var r: int, g: int, b: int, a: int := GetR(p), GetG(p), GetB(p), GetA(p);
    PixelOfComponents(p);
    MakePixelOfBytes(r, g, b, a);
    assert p == r * TWO24 + g * TWO16 + b * TWO8 + a;
    var inverted := TWO32 - 1 - p;
    assert inverted == (255 - r) * TWO24 + (255 - g) * TWO16 + (255 - b) * TWO8 + (255 - a);
    DivModOf(inverted, 256, (255 - r) * TWO16 + (255 - g) * 256 + (255 - b), 255 - a);
    MakePixelOfBytes(255 - r, 255 - g, 255 - b, a);
  }

  /** Complementing a pixel twice restores it. */
  lemma ComplementTwice(p: u32)
    ensures ComplementPixel(ComplementPixel(p)) == p
  {
    PixelExtensional(ComplementPixel(ComplementPixel(p)), p);
  }
}
