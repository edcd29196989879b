/**
 * 32.32 sign-magnitude fixed-point numbers (csf_assign01/fixpoint.c):
 * initialisation, sign handling, addition, subtraction and comparison.
 *
 * A value is a raw struct `{whole, frac, negative}`; its magnitude is the
 * 64-bit number whole * 2^32 + frac. All C `uint32_t` arithmetic is written
 * with explicit wrap-around.
 */
module Fixpoint {
  import opened MachineInts

  /** The C struct `fixpoint_t`; the sign bit is stored raw. */
  datatype Fixpoint = Fixpoint(whole: u32, frac: u32, negative: bool)

  /** The `result_t` bit flags of an arithmetic operation. */
  datatype Status = Status(overflow: bool, underflow: bool)

  const OK: Status := Status(false, false)

  /** The 64-bit magnitude whole.frac as a natural number. */
  function Mag(x: Fixpoint): (m: nat)
    ensures m < TWO64
  {
    x.whole * TWO32 + x.frac
  }

  predicate IsZero(x: Fixpoint) {
    x.whole == 0 && x.frac == 0
  }

  /** The rational value times 2^32, as a signed integer (zero is never negative). */
  function Value(x: Fixpoint): int {
    if IsNegative(x) then -(Mag(x) as int) else Mag(x)
  }

  /** The sign of an integer: -1, 0 or 1. */
  function Sign(n: int): (s: int)
    ensures s == -1 || s == 0 || s == 1
    ensures s < 0 <==> n < 0
    ensures s > 0 <==> n > 0
  {
    if n < 0 then -1 else if n > 0 then 1 else 0
  }

  lemma MagZero(x: Fixpoint)
    ensures Mag(x) == 0 <==> IsZero(x)
  {
  }

  /** Two structs with equal magnitude have equal whole and frac parts. */
  lemma MagInjective(x: Fixpoint, y: Fixpoint)
    requires Mag(x) == Mag(y)
    ensures x.whole == y.whole && x.frac == y.frac
  {
  }

  /** A fixpoint with the given 64-bit magnitude. */
  function FromMag(m: u64, negative: bool): (x: Fixpoint)
    ensures Mag(x) == m && x.negative == negative
  {
    Fixpoint(m / TWO32, m % TWO32, negative)
  }

  // ---------------------------------------------------------------------
  // Magnitude helpers
  // ---------------------------------------------------------------------

  /** cmp_magnitude: lexicographic comparison of (whole, frac). */
  function CmpMagnitude(a: Fixpoint, b: Fixpoint): (c: int)
    ensures c == Sign(Mag(a) - Mag(b))
  {
    if a.whole != b.whole then
      (if a.whole < b.whole then -1 else 1)
    else if a.frac != b.frac then
      (if a.frac < b.frac then -1 else 1)
    else
      0
  }

  /**
   * add_magnitude: two 32-bit adds chained through a carry, each carry
   * detected as C does, by the wrapped sum being smaller than an operand.
   * Returns the sum and the overflow indicator.
   */
  function AddMagnitude(a: Fixpoint, b: Fixpoint): (r: (u32, u32, bool))
    ensures r.2 <==> Mag(a) + Mag(b) >= TWO64
    ensures r.0 * TWO32 + r.1 == Mag(a) + Mag(b) - (if r.2 then TWO64 else 0)
  {
    var rf := (a.frac + b.frac) % TWO32;
    var carry := if rf < a.frac then 1 else 0;
    var rw0 := (a.whole + b.whole) % TWO32;
    var carry2 := if rw0 < a.whole then 1 else 0;
    var rw := (rw0 + carry) % TWO32;
    var carry3 := if rw < carry then 1 else 0;
    AddMagnitudeCorrect(a, b, rf, carry, rw0, carry2, rw, carry3);
    (rw, rf, carry2 == 1 || carry3 == 1)
  }

  lemma AddMagnitudeCorrect(a: Fixpoint, b: Fixpoint, rf: int, carry: int, rw0: int,
                            carry2: int, rw: int, carry3: int)
    requires rf == (a.frac + b.frac) % TWO32 && carry == (if rf < a.frac then 1 else 0)
    requires rw0 == (a.whole + b.whole) % TWO32 && carry2 == (if rw0 < a.whole then 1 else 0)
    requires rw == (rw0 + carry) % TWO32 && carry3 == (if rw < carry then 1 else 0)
    ensures carry2 == 1 || carry3 == 1 <==> Mag(a) + Mag(b) >= TWO64
    ensures rw * TWO32 + rf == Mag(a) + Mag(b) - (if carry2 == 1 || carry3 == 1 then TWO64 else 0)
  {
    assert carry == 1 <==> a.frac + b.frac >= TWO32;
    assert a.frac + b.frac == carry * TWO32 + rf;
    assert carry2 == 1 <==> a.whole + b.whole >= TWO32;
    assert a.whole + b.whole == carry2 * TWO32 + rw0;
    assert carry3 == 1 <==> rw0 + carry >= TWO32;
    assert rw0 + carry == carry3 * TWO32 + rw;
    var s := Mag(a) + Mag(b);
    assert s == (a.whole + b.whole + carry) * TWO32 + rf;
    assert s == (carry2 + carry3) * TWO64 + rw * TWO32 + rf;
    assert carry2 + carry3 <= 1;
    assert 0 <= rw * TWO32 + rf < TWO64;
  }

  /** sub_magnitude: big - small with one borrow from the whole part. */
  function SubMagnitude(big: Fixpoint, small: Fixpoint): (r: (u32, u32))
    requires Mag(big) >= Mag(small)
    ensures r.0 * TWO32 + r.1 == Mag(big) - Mag(small)
  {
    var borrow := if big.frac < small.frac then 1 else 0;
    var rf := if big.frac < small.frac then (big.frac + TWO32 - small.frac) % TWO32
              else big.frac - small.frac;
    var rw := (big.whole - small.whole - borrow) % TWO32;
    (rw, rf)
  }

  // ---------------------------------------------------------------------
  // Public API
  // ---------------------------------------------------------------------

  /** fixpoint_init: a zero magnitude is always stored non-negative. */
  function Init(whole: u32, frac: u32, negative: bool): (x: Fixpoint)
    ensures x.whole == whole && x.frac == frac
    ensures x.negative <==> negative && !(whole == 0 && frac == 0)
  {
    if whole == 0 && frac == 0 then Fixpoint(whole, frac, false)
    else Fixpoint(whole, frac, negative)
  }

  /** A value in the form fixpoint_init produces: no negative zero. */
  predicate Canonical(x: Fixpoint) {
    IsZero(x) ==> !x.negative
  }

  /** fixpoint_is_negative: zero is reported non-negative whatever its raw sign. */
  function IsNegative(x: Fixpoint): (neg: bool)
    ensures neg <==> x.negative && Mag(x) > 0
  {
    if x.whole == 0 && x.frac == 0 then false else x.negative
  }

  /** fixpoint_negate: flips the sign of non-zero values only. */
  function Negate(x: Fixpoint): (y: Fixpoint)
    ensures y.whole == x.whole && y.frac == x.frac
    ensures IsZero(x) ==> !y.negative
    ensures !IsZero(x) ==> y.negative == !x.negative
  {
    if x.whole == 0 && x.frac == 0 then x.(negative := false)
    else x.(negative := !x.negative)
  }

  /**
   * fixpoint_add. Equal raw signs add magnitudes (flagging overflow);
   * opposite signs subtract the smaller magnitude from the larger, and
   * exactly cancelling operands give non-negative zero.
   */
  function Add(l: Fixpoint, r: Fixpoint): (res: (Fixpoint, Status))
    ensures res.1.underflow == false
    ensures l.negative == r.negative ==>
              && res.0.negative == l.negative
              && (res.1.overflow <==> Mag(l) + Mag(r) >= TWO64)
              && Mag(res.0) == Mag(l) + Mag(r) - (if res.1.overflow then TWO64 else 0)
    ensures l.negative != r.negative ==> !res.1.overflow
    ensures l.negative != r.negative && Mag(l) == Mag(r) ==> res.0 == Fixpoint(0, 0, false)
    ensures l.negative != r.negative && Mag(l) > Mag(r) ==>
              Mag(res.0) == Mag(l) - Mag(r) && res.0.negative == l.negative
    ensures l.negative != r.negative && Mag(l) < Mag(r) ==>
              Mag(res.0) == Mag(r) - Mag(l) && res.0.negative == r.negative
  {
    if l.negative == r.negative then
      var (w, f, of) := AddMagnitude(l, r);
      (Fixpoint(w, f, l.negative), Status(of, false))
    else
      var cmp := CmpMagnitude(l, r);
      if cmp == 0 then (Fixpoint(0, 0, false), OK)
      else
        var big := if cmp > 0 then l else r;
        var small := if cmp > 0 then r else l;
        var (w, f) := SubMagnitude(big, small);
        (Fixpoint(w, f, big.negative), OK)
  }

  /** fixpoint_sub: left + (-right); exact unless it reports overflow. */
  function Sub(l: Fixpoint, r: Fixpoint): (res: (Fixpoint, Status))
    ensures !res.1.underflow
    ensures !res.1.overflow ==> Value(res.0) == Value(l) - Value(r)
  {
    var res := Add(l, Negate(r));
    if res.1.overflow then res
    else AddExact(l, Negate(r)); res
  }

  /** fixpoint_compare: sign first (via IsNegative), then magnitude, reversed among negatives. */
  function Compare(l: Fixpoint, r: Fixpoint): (c: int)
    ensures c == -1 || c == 0 || c == 1
    ensures c == Sign(Value(l) - Value(r))
  {
    var ln := IsNegative(l);
    var rn := IsNegative(r);
    if ln != rn then (if ln then -1 else 1)
    else
      var m := CmpMagnitude(l, r);
      if m == 0 then 0 else if ln then -m else m
  }

  // ---------------------------------------------------------------------
  // Properties
  // ---------------------------------------------------------------------

  /** Zero is never negative: after init, by is_negative, and after negate. */
  lemma ZeroNeverNegative(x: Fixpoint, negative: bool)
    ensures !IsNegative(Init(0, 0, negative))
    ensures !Init(0, 0, negative).negative
    ensures IsZero(x) ==> !IsNegative(x) && !IsNegative(Negate(x)) && Value(x) == 0
    ensures Canonical(Negate(x)) <== Canonical(x)
  {
  }

  /** Negating twice gives back a canonical value, and reverses Value. */
  lemma NegateInvolution(x: Fixpoint)
    requires Canonical(x)
    ensures Negate(Negate(x)) == x
    ensures Value(Negate(x)) == -Value(x)
  {
  }

  /** Addition is exact unless the overflow flag is raised. */
  lemma AddExact(l: Fixpoint, r: Fixpoint)
    requires !Add(l, r).1.overflow
    ensures Value(Add(l, r).0) == Value(l) + Value(r)
  {
    MagZero(l);
    MagZero(r);
    MagZero(Add(l, r).0);
    if l.negative == r.negative {
      AddExactSameSign(l, r, Add(l, r).0);
    } else {
      AddExactOppositeSign(l, r, Add(l, r).0);
    }
  }

  lemma AddExactSameSign(l: Fixpoint, r: Fixpoint, res: Fixpoint)
    requires l.negative == r.negative && res.negative == l.negative
    requires Mag(res) == Mag(l) + Mag(r)
    ensures Value(res) == Value(l) + Value(r)
  {
  }

  lemma AddExactOppositeSign(l: Fixpoint, r: Fixpoint, res: Fixpoint)
    requires l.negative != r.negative
    requires Mag(l) == Mag(r) ==> Mag(res) == 0
    requires Mag(l) > Mag(r) ==> Mag(res) == Mag(l) - Mag(r) && res.negative == l.negative
    requires Mag(l) < Mag(r) ==> Mag(res) == Mag(r) - Mag(l) && res.negative == r.negative
    ensures Value(res) == Value(l) + Value(r)
  {
  }

  /** On overflow the magnitude wraps modulo 2^64 and keeps the common sign. */
  lemma AddOverflowWraps(l: Fixpoint, r: Fixpoint)
    requires Add(l, r).1.overflow
    ensures l.negative == r.negative
    ensures Mag(Add(l, r).0) == Mag(l) + Mag(r) - TWO64
    ensures Add(l, r).0.negative == l.negative
  {
  }

  /** A value plus its negation is canonical zero with no flag raised, for every value. */
  lemma AddCancellation(x: Fixpoint)
    ensures Add(x, Negate(x)).1 == OK
    ensures Add(x, Negate(x)).0 == Fixpoint(0, 0, false)
  {
  }

  /** Compare is antisymmetric, and 0 exactly on equal values. */
  lemma CompareAntisymmetric(l: Fixpoint, r: Fixpoint)
    ensures Compare(l, r) == -Compare(r, l)
    ensures Compare(l, r) == 0 <==> Value(l) == Value(r)
  {
  }
}
