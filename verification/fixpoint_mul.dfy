/**
 * fixpoint_mul (csf_assign01/fixpoint.c): 64 x 64 -> 128-bit multiplication
 * of the magnitudes from four 32 x 32 partial products, keeping bits 32..95.
 *
 * `MulWords` follows the C statement by statement, with every `uint64_t`
 * operation reduced modulo 2^64; `MulWordsCorrect` proves that it computes
 * the exact product's middle 64 bits and flags overflow and underflow exactly.
 */
module FixpointMul {
  import opened MachineInts
  import opened Fixpoint

  /** (2^32 - 1)^2, the largest 32 x 32-bit product. */
  const MAX_PRODUCT: int := 0xFFFF_FFFE_0000_0001

  /** Bits 32..95 of a 128-bit product: the 32.32 magnitude it rounds down to. */
  function MiddleBits(p: int): int {
    (p / TWO32) % TWO64
  }

  /** The bits below 2^-32 that a 32.32 result cannot hold. */
  function LowBits(p: int): int {
    p % TWO32
  }

  /** The intermediate 64-bit words of fixpoint_mul. */
  datatype Words = Words(mid: u64, high64: u64, t0: u64)

  /** Monotonicity of multiplication by a non-negative factor. */
  lemma MulLeft(x: int, y: int, z: int)
    requires 0 <= x && y <= z
    ensures x * y <= x * z
  {
  }

  lemma MulBoth(x: int, y: int, xMax: int, yMax: int)
    requires 0 <= x <= xMax && 0 <= y <= yMax
    ensures x * y <= xMax * yMax
  {
    MulLeft(x, y, yMax);
    MulLeft(yMax, x, xMax);
  }

  /** A 32 x 32-bit partial product, which fits in a `uint64_t`. */
  function Product(x: u32, y: u32): (p: u64)
    ensures p == x * y && p <= MAX_PRODUCT
  {
    MulBoth(x, y, TWO32 - 1, TWO32 - 1);
    MulLeft(x, 0, y);
    assert (TWO32 - 1) * (TWO32 - 1) == MAX_PRODUCT;
    x * y
  }

  /** `uint64_t` addition: the exact sum reduced by 2^64 when it wraps. */
  function Add64(x: u64, y: u64): (r: u64)
    ensures r < x <==> x + y >= TWO64
    ensures r == x + y - (if x + y >= TWO64 then TWO64 else 0)
  {
    if x + y < TWO64 then x + y else x + y - TWO64
  }

  /** `x >> 32` on a `uint64_t`, with the bits it drops. */
  function Shr32(x: u64): (r: u32)
    ensures x == r * TWO32 + Low32(x)
  {
    x / TWO32
  }

  /** `x & 0xFFFFFFFF`: the low 32 bits. */
  function Low32(x: u64): (r: u32)
    ensures x - r == (x / TWO32) * TWO32
  {
    x % TWO32
  }

  /** `x << 32` on a `uint64_t`: the high 32 bits are shifted out. */
  function Shl32(x: u64): (r: u64)
    ensures r == Low32(x) * TWO32
  {
    (x * TWO32) % TWO64
  }

  /**
   * Lines 182-204 of the C code: combine the four partial products
   * t0 = b*d, t1 = a*d, t2 = b*c, t3 = a*c into the middle word and the
   * high word, every `uint64_t` addition and shift wrapping modulo 2^64.
   */
  function Accumulate(t0: u64, t1: u64, t2: u64, t3: u64): Words
  {
    var sumAdBc := Add64(t1, t2);
    var mid0 := Shl32(t3);
    var tmp1 := Add64(mid0, sumAdBc);
    var carryMid1 := if tmp1 < mid0 then 1 else 0;
    var tmp2 := Add64(tmp1, Shr32(t0));
    var carryMid := carryMid1 + (if tmp2 < tmp1 then 1 else 0);
    var high0 := Add64(t3, Shr32(sumAdBc));
    var low := Add64(t0, Shl32(sumAdBc));
    var carryLow := if low < t0 then 1 else 0;
    var high := Add64(high0, Add64(carryLow, carryMid));
    Words(tmp2, high, t0)
  }

  /** The partial products and carries of fixpoint_mul on (a.b) * (c.d). */
  function MulWords(a: u32, b: u32, c: u32, d: u32): Words
  {
    Accumulate(Product(b, d), Product(a, d), Product(b, c), Product(a, c))
  }

  /** Euclidean division by 2^32 of a decomposition q * 2^32 + r. */
  lemma Div32(n: int, q: int, r: int)
    requires 0 <= r < TWO32 && n == q * TWO32 + r
    ensures n / TWO32 == q && n % TWO32 == r
  {
  }

  /** Euclidean division by 2^64 of a decomposition q * 2^64 + r. */
  lemma Div64(n: int, q: int, r: int)
    requires 0 <= r < TWO64 && n == q * TWO64 + r
    ensures n / TWO64 == q && n % TWO64 == r
  {
  }

  /** Adding two words modulo 2^64: the C wrap test `sum < x` detects the carry. */
  lemma WrapAdd(x: int, y: int)
    requires 0 <= x < TWO64 && 0 <= y < TWO64
    ensures (x + y) % TWO64 < x <==> x + y >= TWO64
    ensures x + y == (if x + y >= TWO64 then TWO64 else 0) + (x + y) % TWO64
  {
    if x + y >= TWO64 {
      Div64(x + y, 1, x + y - TWO64);
    } else {
      Div64(x + y, 0, x + y);
    }
  }

  /** If the cross terms overflow 64 bits, the high partial product alone exceeds 32 bits. */
  lemma CrossCarryForcesHigh(a: u32, b: u32, c: u32, d: u32)
    requires a * d + b * c >= TWO64
    ensures a * c >= TWO32
  {
    MulLeft(a, d, TWO32 - 1);
    MulLeft(c, b, TWO32 - 1);
    assert (a + c) * (TWO32 - 1) >= TWO64;
    assert a + c >= TWO32 + 1;
    MulBoth(1, 1, a - 1, c - 1);
    assert a * c == (a - 1) * (c - 1) + a + c - 1;
  }

  /** The exact product of the magnitudes, split into its partial products. */
  lemma ProductExpansion(a: int, b: int, c: int, d: int)
    ensures (a * TWO32 + b) * (c * TWO32 + d)
         == a * c * TWO64 + (a * d + b * c) * TWO32 + b * d
  {
  }

  /** The middle word of Accumulate is bits 32..95 of the product. */
  lemma AccumulateMid(t0: u64, t1: u64, t2: u64, t3: u64, p: int)
    requires p == t3 * TWO64 + (t1 + t2) * TWO32 + t0
    ensures Accumulate(t0, t1, t2, t3).mid == (p / TWO32) % TWO64
    ensures p / TWO32 >= TWO64 <==>
              t1 + t2 >= TWO64 || Shr32(t3) > 0 || Accumulate(t0, t1, t2, t3).mid < Shr32(t0)
              || Add64(Shl32(t3), Add64(t1, t2)) < Shl32(t3)
  {
    var w := Accumulate(t0, t1, t2, t3);
    var s := Add64(t1, t2);
    var sc := if t1 + t2 >= TWO64 then 1 else 0;
    var mid0 := Shl32(t3);
    var tmp1 := Add64(mid0, s);
    var c1 := if mid0 + s >= TWO64 then 1 else 0;
    var c2 := if tmp1 + Shr32(t0) >= TWO64 then 1 else 0;
    var q := Shr32(t3) + sc + c1 + c2;
    assert p == (q * TWO64 + w.mid) * TWO32 + Low32(t0);
    Div32(p, q * TWO64 + w.mid, Low32(t0));
    Div64(q * TWO64 + w.mid, q, w.mid);
  }

  /**
   * The high word of Accumulate reaches 2^32 exactly when the product
   * reaches 2^96, although the carry out of t1 + t2 is dropped: the high
   * partial product t3 then already exceeds 32 bits.
   */
  lemma AccumulateHigh(t0: u64, t1: u64, t2: u64, t3: u64, p: int)
    requires p == t3 * TWO64 + (t1 + t2) * TWO32 + t0
    requires t3 <= MAX_PRODUCT
    requires t1 + t2 >= TWO64 ==> t3 >= TWO32
    ensures Accumulate(t0, t1, t2, t3).high64 >= TWO32 <==> p >= TWO64 * TWO32
  {
    var w := Accumulate(t0, t1, t2, t3);
    var s := Add64(t1, t2);
    var sc := if t1 + t2 >= TWO64 then 1 else 0;
    var mid0 := Shl32(t3);
    var tmp1 := Add64(mid0, s);
    var c1 := if mid0 + s >= TWO64 then 1 else 0;
    var c2 := if tmp1 + Shr32(t0) >= TWO64 then 1 else 0;
    var sh := Shr32(s);
    var cl := if t0 + Shl32(s) >= TWO64 then 1 else 0;
    assert w.high64 == t3 + sh + cl + c1 + c2;
    var low := Add64(t0, Shl32(s));
    assert p == (t3 + sc * TWO32 + sh + cl) * TWO64 + low;
    HighWord(t3 + sc * TWO32 + sh + cl, low, p);
    if sc == 0 && c1 + c2 > 0 {
      AccumulateMid(t0, t1, t2, t3, p);
      Div32(p, p / TWO32, p % TWO32);
    }
  }

  /** The low word t0 carries the product's low 32 bits. */
  lemma AccumulateLow(t0: u64, t1: u64, t2: u64, t3: u64, p: int)
    requires p == t3 * TWO64 + (t1 + t2) * TWO32 + t0
    ensures Accumulate(t0, t1, t2, t3).t0 % TWO32 == p % TWO32
  {
    Div32(p, t3 * TWO32 + t1 + t2 + Shr32(t0), Low32(t0));
    Div32(t0, Shr32(t0), Low32(t0));
  }

  /** A number h * 2^64 + low (low < 2^64) reaches 2^96 exactly when h reaches 2^32. */
  lemma HighWord(h: int, low: int, p: int)
    requires 0 <= low < TWO64 && p == h * TWO64 + low
    ensures h >= TWO32 <==> p >= TWO64 * TWO32
  {
  }

  /**
   * MulWords computes bits 32..95 of the product of the two 64-bit
   * magnitudes a.b and c.d, flags overflow exactly when that product reaches
   * 2^96, and flags underflow exactly when its low 32 bits are non-zero.
   */
  lemma MulWordsCorrect(l: Fixpoint, r: Fixpoint)
    ensures var p := Mag(l) * Mag(r);
            var w := MulWords(l.whole, l.frac, r.whole, r.frac);
            && w.mid == MiddleBits(p)
            && (w.high64 >= TWO32 <==> p >= TWO64 * TWO32)
            && (Low32(w.t0) != 0 <==> LowBits(p) != 0)
  {
    var a, b, c, d := l.whole, l.frac, r.whole, r.frac;
    var t0, t1, t2, t3 := Product(b, d), Product(a, d), Product(b, c), Product(a, c);
    ProductExpansion(a, b, c, d);
    if t1 + t2 >= TWO64 {
      CrossCarryForcesHigh(a, b, c, d);
    }
    var p := Mag(l) * Mag(r);
    AccumulateMid(t0, t1, t2, t3, p);
    AccumulateHigh(t0, t1, t2, t3, p);
    AccumulateLow(t0, t1, t2, t3, p);
  }

  /**
   * fixpoint_mul. The magnitude is the middle 64 bits of the product; the
   * sign is the XOR of the raw signs except that a zero operand gives a
   * non-negative result.
   */
  function Mul(l: Fixpoint, r: Fixpoint): (res: (Fixpoint, Status))
    ensures Mag(res.0) == MiddleBits(Mag(l) * Mag(r))
    ensures res.1.overflow <==> Mag(l) * Mag(r) >= TWO64 * TWO32
    ensures res.1.underflow <==> LowBits(Mag(l) * Mag(r)) != 0
    ensures IsZero(l) || IsZero(r) ==> !res.0.negative
    ensures !IsZero(l) && !IsZero(r) ==> res.0.negative == (l.negative != r.negative)
  {
    var w := MulWords(l.whole, l.frac, r.whole, r.frac);
    MulWordsCorrect(l, r);
    var status := Status(Shr32(w.high64) != 0, Low32(w.t0) != 0);
    var whole := Shr32(w.mid);
    var frac := Low32(w.mid);
    var negXor := l.negative != r.negative;
    var resIsZero := whole == 0 && frac == 0;
    var leftIsZero := l.whole == 0 && l.frac == 0;
    var rightIsZero := r.whole == 0 && r.frac == 0;
    var negative := if resIsZero then (if leftIsZero || rightIsZero then false else negXor)
                    else negXor;
    assert leftIsZero || rightIsZero ==> resIsZero by {
      ZeroOperand(l, r);
      if w.mid == 0 {
        Div32(0, 0, 0);
      }
    }
    (Fixpoint(whole, frac, negative), status)
  }

  lemma ZeroOperand(l: Fixpoint, r: Fixpoint)
    ensures IsZero(l) || IsZero(r) ==> MiddleBits(Mag(l) * Mag(r)) == 0
  {
    MagZero(l);
    MagZero(r);
    assert IsZero(l) || IsZero(r) ==> Mag(l) * Mag(r) == 0;
    assert MiddleBits(0) == 0;
  }

  /** Multiplying by one (1.0 has magnitude 2^32) is exact and flag-free. */
  lemma MulByOne(x: Fixpoint)
    requires Canonical(x)
    ensures Mul(x, Fixpoint(1, 0, false)) == (x, OK)
  {
    var one := Fixpoint(1, 0, false);
    var res := Mul(x, one);
    var p := Mag(x) * Mag(one);
    assert p == Mag(x) * TWO32;
    assert MiddleBits(p) == Mag(x) && LowBits(p) == 0 by {
      Div32(p, Mag(x), 0);
      Div64(Mag(x), 0, Mag(x));
    }
    assert !res.1.overflow;
    MagInjective(res.0, x);
    MagZero(x);
  }
}
