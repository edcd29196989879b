/**
 * Hexadecimal text form of 32.32 fixed-point values
 * (fixpoint_format_hex and fixpoint_parse_hex in csf_assign01/fixpoint.c).
 *
 * The text form is `[-]W.F`: W is the whole part in hex, F the fraction's
 * hex digits with the binary point after the whole part.
 */
module FixpointHex {
  import opened Wrappers
  import opened MachineInts
  import opened Fixpoint

  // ---------------------------------------------------------------------
  // Hex digits and their values
  // ---------------------------------------------------------------------

  function Pow16(n: nat): (p: nat)
    ensures p >= 1
  {
    if n == 0 then 1 else 16 * Pow16(n - 1)
  }

  lemma Pow16Eight()
    ensures Pow16(8) == TWO32
  {
  }

  lemma Pow16Monotone(m: nat, n: nat)
    requires m <= n
    ensures Pow16(m) <= Pow16(n)
  {
    if m < n {
      Pow16Monotone(m, n - 1);
    }
  }

  /** The digits printf's `%x` uses. */
  const LOWER_HEX: string := "0123456789abcdef"

  function HexDigit(v: int): (c: char)
    requires 0 <= v < 16
    ensures IsLowerHexDigit(c) && DigitValue(c) == v
  {
    LOWER_HEX[v]
  }

  predicate IsLowerHexDigit(c: char) {
    '0' <= c <= '9' || 'a' <= c <= 'f'
  }

  /** The characters the parser accepts as digits: either case. */
  predicate IsHexDigit(c: char) {
    '0' <= c <= '9' || 'a' <= c <= 'f' || 'A' <= c <= 'F'
  }

  function DigitValue(c: char): (v: nat)
    requires IsHexDigit(c)
    ensures v < 16
  {
    if '0' <= c <= '9' then c as int - '0' as int
    else if 'a' <= c <= 'f' then 10 + (c as int - 'a' as int)
    else 10 + (c as int - 'A' as int)
  }

  predicate AllHexDigits(s: string) {
    forall i :: 0 <= i < |s| ==> IsHexDigit(s[i])
  }

  predicate AllLowerHexDigits(s: string) {
    forall i :: 0 <= i < |s| ==> IsLowerHexDigit(s[i])
  }

  /** The number a string of hex digits denotes, most significant digit first. */
  function HexValue(s: string): nat
    requires AllHexDigits(s)
  {
    if |s| == 0 then 0
    else HexValue(s[..|s| - 1]) * 16 + DigitValue(s[|s| - 1])
  }

  /** n hex digits denote a number below 16^n. */
  lemma {:induction false} HexValueBelow(s: string)
    requires AllHexDigits(s)
    ensures HexValue(s) < Pow16(|s|)
  {
    if |s| > 0 {
      HexValueBelow(s[..|s| - 1]);
    }
  }

  lemma {:induction false} HexValueAppend(a: string, b: string)
    requires AllHexDigits(a) && AllHexDigits(b)
    ensures AllHexDigits(a + b)
    ensures HexValue(a + b) == HexValue(a) * Pow16(|b|) + HexValue(b)
  {
    if |b| == 0 {
      assert a + b == a;
    } else {
      var b' := b[..|b| - 1];
      var d := DigitValue(b[|b| - 1]);
      assert (a + b)[..|a + b| - 1] == a + b';
      assert (a + b)[|a + b| - 1] == b[|b| - 1];
      HexValueAppend(a, b');
      var va, vb', p' := HexValue(a), HexValue(b'), Pow16(|b'|);
      assert HexValue(a + b) == HexValue(a + b') * 16 + d;
      assert HexValue(a + b') == va * p' + vb';
      assert HexValue(b) == vb' * 16 + d;
      assert Pow16(|b|) == 16 * p';
      ShiftInDigit(va, p', vb', d);
    }
  }

  /** Appending one digit to the low part shifts the whole value by one place. */
  lemma ShiftInDigit(va: int, p: int, vb: int, d: int)
    ensures (va * p + vb) * 16 + d == va * (16 * p) + (vb * 16 + d)
  {
    MulAssoc(va, p, 16);
  }

  lemma MulAssoc(x: int, y: int, z: int)
    ensures (x * y) * z == x * (z * y)
  {
  }

  lemma {:induction false} HexValueZeros(s: string)
    requires forall i :: 0 <= i < |s| ==> s[i] == '0'
    ensures AllHexDigits(s) && HexValue(s) == 0
  {
    if |s| > 0 {
      HexValueZeros(s[..|s| - 1]);
    }
  }

  // ---------------------------------------------------------------------
  // Formatting
  // ---------------------------------------------------------------------

  /** printf `%x` of a positive number: no leading zeros. */
  function HexNoLeadingZeros(w: nat): (s: string)
    requires w > 0
    ensures 1 <= |s| && s[0] != '0'
    ensures AllLowerHexDigits(s) && AllHexDigits(s) && HexValue(s) == w
    ensures w < Pow16(|s|)
    decreases w
  {
    if w < 16 then [HexDigit(w)]
    else
      var front := HexNoLeadingZeros(w / 16);
      var s := front + [HexDigit(w % 16)];
      assert s[..|s| - 1] == front;
      s
  }

  /** A positive number below 16^n prints in at most n digits. */
  lemma {:induction false} HexLength(w: nat, n: nat)
    requires 0 < w < Pow16(n)
    ensures |HexNoLeadingZeros(w)| <= n
    decreases w
  {
    if w >= 16 {
      HexLength(w / 16, n - 1);
    }
  }

  /** printf `%0nx`: exactly n digits, zero-padded on the left. */
  function HexFixed(v: nat, n: nat): (s: string)
    requires v < Pow16(n)
    ensures |s| == n && AllLowerHexDigits(s) && AllHexDigits(s) && HexValue(s) == v
  {
    if n == 0 then []
    else
      var s := HexFixed(v / 16, n - 1) + [HexDigit(v % 16)];
      assert s[..|s| - 1] == HexFixed(v / 16, n - 1);
      s
  }

  /**
   * The trailing-zero trim: `end` walks left from the last digit over
   * '0' characters but never past the first digit.
   */
  function TrimZeros(buf: string, end: nat): (t: string)
    requires end < |buf|
    ensures 1 <= |t| <= end + 1 && t == buf[..|t|]
    ensures |t| == 1 || t[|t| - 1] != '0'
    ensures forall i :: |t| <= i <= end ==> buf[i] == '0'
  {
    if end > 0 && buf[end] == '0' then TrimZeros(buf, end - 1)
    else buf[..end + 1]
  }

  /** The digits printed for the whole part. */
  function WholeDigits(whole: u32): string {
    if whole == 0 then "0" else HexNoLeadingZeros(whole)
  }

  /** The digits printed for the fraction: `%08x`, then trailing zeros trimmed. */
  function FracDigits(frac: u32): string {
    Pow16Eight();
    TrimZeros(HexFixed(frac, 8), 7)
  }

  /** fixpoint_format_hex, for a buffer of at least 19 bytes. */
  function FormatHex(x: Fixpoint): (s: string)
    ensures IsNegative(x) <==> |s| > 0 && s[0] == '-'
  {
    (if IsNegative(x) then "-" else "") + WholeDigits(x.whole) + "." + FracDigits(x.frac)
  }

  /** The shape of the formatted text: minimal whole digits, trimmed fraction. */
  lemma FormatShape(x: Fixpoint)
    ensures var w, f := WholeDigits(x.whole), FracDigits(x.frac);
            && FormatHex(x) == (if IsNegative(x) then "-" else "") + w + "." + f
            && 1 <= |w| <= 8 && AllLowerHexDigits(w) && (w == "0" || w[0] != '0')
            && 1 <= |f| <= 8 && AllLowerHexDigits(f) && (f == "0" || f[|f| - 1] != '0')
            && |FormatHex(x)| <= 18
  {
    Pow16Eight();
    if x.whole != 0 {
      HexLength(x.whole, 8);
    }
    var buf := HexFixed(x.frac, 8);
    var f := FracDigits(x.frac);
    if |f| == 1 && f[0] == '0' {
      assert f == "0";
    }
  }

  /** The printed digits denote the whole part and the 8-digit fraction. */
  lemma DigitsDenote(x: Fixpoint)
    ensures AllHexDigits(WholeDigits(x.whole)) && HexValue(WholeDigits(x.whole)) == x.whole
    ensures var f := FracDigits(x.frac);
            && AllHexDigits(f) && |f| <= 8
            && HexValue(f) * Pow16(8 - |f|) == x.frac
  {
    Pow16Eight();
    if x.whole == 0 {
      assert HexValue("0") == HexValue("") * 16 + DigitValue('0');
    }
    var buf := HexFixed(x.frac, 8);
    var f := FracDigits(x.frac);
    var rest := buf[|f|..];
    assert buf == f + rest;
    HexValueZeros(rest);
    HexValueAppend(f, rest);
  }

  // ---------------------------------------------------------------------
  // Parsing
  // ---------------------------------------------------------------------

  /** Reading a C string: past the end there is the terminating NUL. */
  function At(s: string, i: nat): char {
    if i < |s| then s[i] else '\0'
  }

  /**
   * One digit loop of fixpoint_parse_hex starting at `i`: it stops at the
   * NUL (or, for the whole part, at '.'), fails on any other non-digit and
   * on a ninth digit, and shifts each digit into a 32-bit accumulator.
   * The result is the stop position, the accumulator and the digit count.
   */
  function ScanDigits(s: string, i: nat, acc: u32, count: nat, stopAtDot: bool): (r: Option<(nat, u32, nat)>)
    requires i <= |s|
    ensures r.Some? ==> i <= r.value.0 <= |s|
    ensures r.Some? ==> At(s, r.value.0) == '\0' || (stopAtDot && At(s, r.value.0) == '.')
    decreases |s| - i
  {
    var c := At(s, i);
    if c == '\0' || (stopAtDot && c == '.') then Some((i, acc, count))
    else if !IsHexDigit(c) then None
    else if count >= 8 then None
    else ScanDigits(s, i + 1, (acc * 16) % TWO32 + DigitValue(c), count + 1, stopAtDot)
  }

  /** `x <<= 4 * n` on a 32-bit unsigned value. */
  function ShiftNibbles(x: u32, n: nat): u32 {
    (x * Pow16(n)) % TWO32
  }

  /** The fraction loop from `j` and the right-padding of its digits to 8. */
  function ParseFraction(s: string, j: nat): Option<u32>
    requires j <= |s|
  {
    match ScanDigits(s, j, 0, 0, false)
    case None => None
    case Some((_, frac, fracCount)) =>
      if fracCount == 0 then None
      else
        var pad := 8 - fracCount;
        Some(if pad > 0 then ShiftNibbles(frac, pad) else frac)
  }

  /** Everything after the optional sign: whole digits, '.', fraction digits. */
  function ParseBody(s: string, i: nat): Option<(u32, u32)>
    requires i <= |s|
  {
    match ScanDigits(s, i, 0, 0, true)
    case None => None
    case Some((j, whole, wholeCount)) =>
      if wholeCount == 0 then None
      else if At(s, j) != '.' then None
      else if At(s, j + 1) == '\0' then None
      else
        match ParseFraction(s, j + 1)
        case None => None
        case Some(frac) => Some((whole, frac))
  }

  /** fixpoint_parse_hex. */
  function ParseHex(s: string): (r: Option<Fixpoint>)
    ensures r.Some? ==> Canonical(r.value)
  {
    if At(s, 0) == '\0' then None
    else
      var neg := At(s, 0) == '-';
      var i := if neg then 1 else 0;
      if neg && At(s, 1) == '\0' then None
      else
        match ParseBody(s, i)
        case None => None
        case Some((whole, frac)) => Some(Init(whole, frac, neg))
  }

  // ---------------------------------------------------------------------
  // The accepted language
  // ---------------------------------------------------------------------

  /** A C string holds no NUL before its end. */
  predicate NoNul(s: string) {
    forall i :: 0 <= i < |s| ==> s[i] != '\0'
  }

  /** Between 1 and 8 hex digits of either case. */
  predicate DigitGroup(g: string) {
    1 <= |g| <= 8 && AllHexDigits(g)
  }

  /** The text without its optional leading minus sign. */
  function Unsigned(s: string): string {
    if |s| > 0 && s[0] == '-' then s[1..] else s
  }

  /** `[-]<1-8 hex digits>.<1-8 hex digits>`, nothing else. */
  ghost predicate WellFormed(s: string) {
    var b := Unsigned(s);
    exists k :: 0 <= k < |b| && b[k] == '.' && DigitGroup(b[..k]) && DigitGroup(b[k + 1..])
  }

  /** The value of a whole-part digit group. */
  function WholeValue(w: string): u32
    requires DigitGroup(w)
  {
    Pow16Eight();
    Pow16Monotone(|w|, 8);
    HexValueBelow(w);
    HexValue(w)
  }

  /** The value of a fraction digit group: its digits right-padded to 8. */
  function FractionValue(f: string): u32
    requires DigitGroup(f)
  {
    PaddedFraction(f);
    HexValue(f) * Pow16(8 - |f|)
  }

  /** The value a well-formed text denotes. */
  function Denotes(neg: bool, w: string, f: string): Fixpoint
    requires DigitGroup(w) && DigitGroup(f)
  {
    Init(WholeValue(w), FractionValue(f), neg)
  }

  /** A fraction of at most 8 digits, right-padded to 8, fits in 32 bits. */
  lemma PaddedFraction(f: string)
    requires DigitGroup(f)
    ensures 0 <= HexValue(f) * Pow16(8 - |f|) < TWO32
  {
    Pow16Eight();
    HexValueBelow(f);
    Pow16Add(|f|, 8 - |f|);
    MulStrict(HexValue(f), Pow16(|f|), Pow16(8 - |f|));
  }

  lemma MulStrict(a: int, b: int, c: int)
    requires 0 <= a < b && c > 0
    ensures 0 <= a * c < b * c
  {
  }

  lemma {:induction false} Pow16Add(m: nat, n: nat)
    ensures Pow16(m) * Pow16(n) == Pow16(m + n)
  {
    if m > 0 {
      Pow16Add(m - 1, n);
      var pm, pn := Pow16(m - 1), Pow16(n);
      assert (16 * pm) * pn == 16 * (pm * pn);
    }
  }

  /** The digit loop's own accumulation: shift left four bits, add the digit. */
  function Horner(acc: int, digits: string): int
    requires AllHexDigits(digits)
    decreases |digits|
  {
    if |digits| == 0 then acc
    else Horner(acc * 16 + DigitValue(digits[0]), digits[1..])
  }

  lemma {:induction false} HornerAppend(acc: int, a: string, c: char)
    requires AllHexDigits(a) && IsHexDigit(c)
    ensures AllHexDigits(a + [c])
    ensures Horner(acc, a + [c]) == Horner(acc, a) * 16 + DigitValue(c)
    decreases |a|
  {
    if |a| > 0 {
      assert (a + [c])[1..] == a[1..] + [c];
      HornerAppend(acc * 16 + DigitValue(a[0]), a[1..], c);
    }
  }

  /** Accumulating from zero gives the value of the digits. */
  lemma {:induction false} HornerIsHexValue(s: string)
    requires AllHexDigits(s)
    ensures Horner(0, s) == HexValue(s)
  {
    if |s| > 0 {
      var front := s[..|s| - 1];
      assert s == front + [s[|s| - 1]];
      HornerIsHexValue(front);
      HornerAppend(0, front, s[|s| - 1]);
    }
  }

  /** A digit loop over k digits followed by a stop character accumulates their value. */
  lemma {:induction false} ScanReadsDigits(s: string, i: nat, acc: u32, count: nat, stopAtDot: bool, k: nat)
    requires i + k <= |s| && AllHexDigits(s[i..i + k])
    requires At(s, i + k) == '\0' || (stopAtDot && At(s, i + k) == '.')
    requires count + k <= 8 && acc < Pow16(count)
    ensures 0 <= Horner(acc, s[i..i + k]) < TWO32
    ensures ScanDigits(s, i, acc, count, stopAtDot) == Some((i + k, Horner(acc, s[i..i + k]) as u32, count + k))
    decreases k
  {
    if k == 0 {
      assert s[i..i] == "";
      Pow16Eight();
      Pow16Monotone(count, 8);
    } else {
      var digits := s[i..i + k];
      assert s[i] == digits[0];
      var acc' := ScanStep(s, i, acc, count, stopAtDot);
      assert s[i + 1..i + k] == digits[1..];
      ScanReadsDigits(s, i + 1, acc', count + 1, stopAtDot, k - 1);
    }
  }

  /** One digit of the loop: with room for it, the shift does not wrap. */
  lemma ScanStep(s: string, i: nat, acc: u32, count: nat, stopAtDot: bool) returns (acc': u32)
    requires i < |s| && IsHexDigit(s[i]) && count < 8 && acc < Pow16(count)
    ensures acc' == acc * 16 + DigitValue(s[i]) && acc' < Pow16(count + 1)
    ensures ScanDigits(s, i, acc, count, stopAtDot) == ScanDigits(s, i + 1, acc', count + 1, stopAtDot)
  {
    Pow16Eight();
    Pow16Monotone(count + 1, 8);
    var shifted: int := acc * 16;
    assert shifted % TWO32 == shifted;
    acc' := shifted + DigitValue(s[i]);
  }

  /** A successful digit loop read only digits, one per count. */
  lemma {:induction false} ScanSound(s: string, i: nat, acc: u32, count: nat, stopAtDot: bool)
    requires i <= |s| && count <= 8
    requires ScanDigits(s, i, acc, count, stopAtDot).Some?
    ensures var (j, _, n) := ScanDigits(s, i, acc, count, stopAtDot).value;
            && AllHexDigits(s[i..j]) && n == count + (j - i) && n <= 8
    decreases |s| - i
  {
    var c := At(s, i);
    if !(c == '\0' || (stopAtDot && c == '.')) {
      ScanSound(s, i + 1, (acc * 16) % TWO32 + DigitValue(c), count + 1, stopAtDot);
      var j := ScanDigits(s, i, acc, count, stopAtDot).value.0;
      assert s[i..j] == [c] + s[i + 1..j];
    }
  }

  /** The fraction loop over 1-8 digits that end the text yields them right-padded. */
  lemma FractionReads(s: string, j: nat, f: string)
    requires j <= |s| && s[j..] == f && DigitGroup(f)
    ensures ParseFraction(s, j) == Some(FractionValue(f))
  {
    assert s[j..j + |f|] == f;
    ScanReadsDigits(s, j, 0, 0, false, |f|);
    HornerIsHexValue(f);
    var v := HexValue(f);
    assert ScanDigits(s, j, 0, 0, false) == Some((|s|, v as u32, |f|));
    PaddedFraction(f);
    if |f| < 8 {
      ShiftNibblesExact(v, 8 - |f|);
    }
  }

  lemma ShiftNibblesExact(x: u32, n: nat)
    requires x * Pow16(n) < TWO32
    ensures ShiftNibbles(x, n) == x * Pow16(n)
  {
    if x > 0 {
      MulStrict(0, Pow16(n), x);
    }
  }

  lemma BodyReads(s: string, i: nat, w: string, f: string)
    requires i <= |s| && s[i..] == w + "." + f && DigitGroup(w) && DigitGroup(f)
    ensures ParseBody(s, i) == Some((WholeValue(w), FractionValue(f)))
  {
    var j := i + |w|;
    assert s[i..j] == w;
    assert s[j + 1..] == f;
    ScanReadsDigits(s, i, 0, 0, true, |w|);
    HornerIsHexValue(w);
    FractionReads(s, j + 1, f);
    assert At(s, j + 1) == f[0] && IsHexDigit(f[0]);
  }

  /** fixpoint_parse_hex accepts every well-formed text, with the value it denotes. */
  lemma ParseWellFormed(neg: bool, w: string, f: string)
    requires DigitGroup(w) && DigitGroup(f)
    ensures ParseHex((if neg then "-" else "") + w + "." + f) == Some(Denotes(neg, w, f))
  {
    var sign := if neg then "-" else "";
    var s := sign + w + "." + f;
    var i := |sign|;
    assert s[i..] == w + "." + f;
    assert s[i] == w[0] && IsHexDigit(w[0]);
    BodyReads(s, i, w, f);
  }

  /** A successful body parse read digits, '.', and digits up to the end of the text. */
  lemma BodySound(s: string, i: nat)
    requires NoNul(s) && i <= |s| && ParseBody(s, i).Some?
    ensures var j := ScanDigits(s, i, 0, 0, true).value.0;
      && i < j < |s| && s[j] == '.' && DigitGroup(s[i..j]) && DigitGroup(s[j + 1..])
  {
    var (j, _, n) := ScanDigits(s, i, 0, 0, true).value;
    ScanSound(s, i, 0, 0, true);
    assert n > 0 && At(s, j) == '.';
    assert ParseFraction(s, j + 1).Some?;
    var (e, _, m) := ScanDigits(s, j + 1, 0, 0, false).value;
    ScanSound(s, j + 1, 0, 0, false);
    assert m > 0 && e == |s|;
  }

  /** Every text fixpoint_parse_hex accepts is well formed. */
  lemma ParseSound(s: string)
    requires NoNul(s)
    requires ParseHex(s).Some?
    ensures WellFormed(s)
  {
    var neg := At(s, 0) == '-';
    var i := if neg then 1 else 0;
    var b := Unsigned(s);
    assert b == s[i..];
    BodySound(s, i);
    var j := ScanDigits(s, i, 0, 0, true).value.0;
    var k := j - i;
    assert b[k] == '.';
    assert b[..k] == s[i..j];
    assert b[k + 1..] == s[j + 1..];
  }

  /** Every well-formed text is accepted. */
  lemma ParseComplete(s: string)
    requires WellFormed(s)
    ensures ParseHex(s).Some?
  {
    var b := Unsigned(s);
    var k :| 0 <= k < |b| && b[k] == '.' && DigitGroup(b[..k]) && DigitGroup(b[k + 1..]);
    var neg := |s| > 0 && s[0] == '-';
    var w, f := b[..k], b[k + 1..];
    assert s == (if neg then "-" else "") + w + "." + f;
    ParseWellFormed(neg, w, f);
  }

  /** The accepted language exactly: parse succeeds iff the text is well formed. */
  lemma ParseAcceptsExactly(s: string)
    requires NoNul(s)
    ensures ParseHex(s).Some? <==> WellFormed(s)
  {
    if ParseHex(s).Some? {
      ParseSound(s);
    }
    if WellFormed(s) {
      ParseComplete(s);
    }
  }

  /** Round trip: parsing the formatted text gives back the value (negative zero normalised). */
  lemma ParseFormat(x: Fixpoint)
    ensures ParseHex(FormatHex(x)) == Some(Init(x.whole, x.frac, x.negative))
    ensures Canonical(x) ==> ParseHex(FormatHex(x)) == Some(x)
  {
    FormatShape(x);
    DigitsDenote(x);
    var w, f := WholeDigits(x.whole), FracDigits(x.frac);
    assert DigitGroup(w) && DigitGroup(f);
    ParseWellFormed(IsNegative(x), w, f);
  }
}
