/** Binary64 patterns as numbers, and addition rounded to nearest (sections 3.4, 4.3 and 5.4 of IEEE 754-2019). */
module Doubles {
  import opened Wire

  const FRACTION := 0x10_0000_0000_0000

  function Exponent(b: u64): nat {
    b / FRACTION % 2048
  }

  /** Neither an infinity nor a NaN. */
  predicate Finite(b: u64) {
    Exponent(b) != 2047
  }

  function PowR(e: int): real
    decreases if e < 0 then -e else e
  {
    if e == 0 then 1.0 else if e > 0 then 2.0 * PowR(e - 1) else PowR(e + 1) / 2.0
  }

  /** The weight of the last significand digit at a scale. */
  function Ulp(e: int): real {
    PowR(e)
  }

  /** The number a finite pattern stands for. */
  function Value(b: u64): real {
    var fraction := b % FRACTION;
    var magnitude :=
      if Exponent(b) == 0 then fraction as real * Ulp(-1074)
      else (FRACTION + fraction) as real * Ulp(Exponent(b) - 1075);
    if b >= TWO63 then -magnitude else magnitude
  }

  function ScaleDown(m: real, e: int): (r: (real, int))
    ensures e <= r.1
    decreases 972 - e
  {
    if m >= (2 * FRACTION) as real && e < 972 then ScaleDown(m / 2.0, e + 1) else (m, e)
  }

  function ScaleUp(m: real, e: int): (r: (real, int))
    ensures r.1 <= e
    ensures e >= -1074 ==> r.1 >= -1074
    decreases e + 1074
  {
    if m < FRACTION as real && e > -1074 then ScaleUp(2.0 * m, e - 1) else (m, e)
  }

  /** The nearest integer, ties to the even one. */
  function NearestEven(x: real): (n: nat)
    requires x >= 0.0
  {
    var below := x.Floor;
    var rest := x - below as real;
    if rest > 0.5 || (rest == 0.5 && below % 2 == 1) then below + 1 else below
  }

  const INFINITY: u64 := 2047 * FRACTION
  const NAN: u64 := 2047 * FRACTION + FRACTION / 2
  const NEGATIVE_ZERO: u64 := TWO63

  predicate IsNaN(b: u64) {
    !Finite(b) && b % FRACTION != 0
  }

  /** The comparison of two patterns; it fails for a NaN on either side. */
  predicate Below(a: u64, b: u64) {
    !IsNaN(a) && !IsNaN(b) && Value(a) < Value(b)
  }

  /** The pattern nearest to a number, ties to the even significand; numbers too large become infinities. */
  function Round(r: real): u64 {
    var m := if r < 0.0 then -r else r;
    var (down, e0) := ScaleDown(m, 0);
    var (scaled, e) := ScaleUp(down, e0);
    var digits := NearestEven(if scaled < 0.0 then 0.0 else scaled);
    var sign := if r < 0.0 then TWO63 else 0;
    if digits > 2 * FRACTION || e > 971 || e < -1074 then sign + INFINITY
    else if digits < FRACTION then sign + digits
    else sign + (e + 1075) * FRACTION + (digits - FRACTION)
  }

  /** The sum of two patterns as the hardware adds them; which NaN comes out is not specified. */
  function Add(a: u64, b: u64): u64 {
    if IsNaN(a) || IsNaN(b) then NAN
    else if !Finite(a) then if !Finite(b) && a != b then NAN else a
    else if !Finite(b) then b
    else
      var r := Value(a) + Value(b);
      if r == 0.0 && a >= TWO63 && b >= TWO63 then NEGATIVE_ZERO else Round(r)
  }

  /** A number that some finite pattern stands for. */
  ghost predicate Representable(r: real) {
    exists p: u64 :: Finite(p) && Value(p) == r
  }

  // ---------------------------------------------------------------- exactness of rounding

  lemma UlpStep(e: int)
    ensures Ulp(e + 1) == 2.0 * Ulp(e)
  {}

  lemma {:induction false} UlpPositive(e: int)
    ensures Ulp(e) > 0.0
    decreases if e < 0 then -e else e
  {
    if e > 0 {
      UlpPositive(e - 1);
    } else if e < 0 {
      UlpPositive(e + 1);
    }
  }

  lemma {:induction false} UlpDoubles(a: int, b: int)
    requires a < b
    ensures Ulp(b) >= 2.0 * Ulp(a)
    decreases b - a
  {
    UlpStep(b - 1);
    UlpPositive(a);
    if a < b - 1 {
      UlpDoubles(a, b - 1);
    }
  }

  /** Halving a significand doubles its unit. */
  lemma Halved(m: real, h: real, p: real, q: real)
    requires m == 2.0 * h && q == 2.0 * p
    ensures h * q == m * p
  {}

  lemma ScaleUpStep(m: real, e: int)
    requires m < FRACTION as real && e > -1074
    ensures ScaleUp(m, e) == ScaleUp(2.0 * m, e - 1)
  {}

  lemma ScaleUpStops(m: real, e: int)
    requires m >= FRACTION as real || e == -1074
    ensures ScaleUp(m, e) == (m, e)
  {}

  lemma {:induction false} ScaleDownKeeps(m: real, e: int)
    requires m >= 0.0 && 0 <= e <= 972
    ensures var (m', e') := ScaleDown(m, e);
            && m' * Ulp(e') == m * Ulp(e) && m' >= 0.0 && e' <= 972
            && (m' < (2 * FRACTION) as real || e' == 972)
            && (e' > e ==> m' >= FRACTION as real)
    decreases 972 - e
  {
    if m >= (2 * FRACTION) as real && e < 972 {
      ScaleDownKeeps(m / 2.0, e + 1);
      UlpStep(e);
      hide Ulp;
      Halved(m, m / 2.0, Ulp(e), Ulp(e + 1));
    }
  }

  /** A significand below 2^53 that is either normalised or at the smallest exponent. */
  predicate Normal(m: real, e: int) {
    0.0 <= m < (2 * FRACTION) as real && -1074 <= e && (m >= FRACTION as real || e == -1074)
  }

  lemma {:induction false} ScaleUpKeeps(m: real, e: int)
    requires 0.0 <= m < (2 * FRACTION) as real && -1074 <= e
    ensures var (m', e') := ScaleUp(m, e);
            m' * Ulp(e') == m * Ulp(e) && Normal(m', e') && m' >= 0.0
    decreases e + 1074
  {
    hide Ulp, ScaleUp;
    if m < FRACTION as real && e > -1074 {
      hide Normal;
      UlpStep(e - 1);
      ScaleUpStep(m, e);
      var double := 2.0 * m;
      ScaleUpKeeps(double, e - 1);
      Halved(double, m, Ulp(e - 1), Ulp(e));
    } else {
      ScaleUpStops(m, e);
    }
  }

  lemma ScaledBelow(m: real, p: real, bound: real)
    requires m < bound && p > 0.0
    ensures m * p < bound * p
  {
    assert (bound - m) * p > 0.0;
  }

  lemma ScaledAtLeast(m: real, p: real, bound: real)
    requires m >= bound && p > 0.0
    ensures m * p >= bound * p
  {
    assert (m - bound) * p >= 0.0;
  }

  lemma ScaledChain(a: real, p: real, b: real, q: real, f: real)
    requires a < 2.0 * f && b >= f > 0.0 && p > 0.0 && q >= 2.0 * p
    ensures a * p < b * q
  {
    ScaledBelow(a, p, 2.0 * f);
    ScaledAtLeast(b, q, f);
    ScaledAtLeast(q, f, 2.0 * p);
    assert 2.0 * f * p == 2.0 * p * f;
    assert f * q == q * f;
  }

  lemma NormalBounds(m: real, e: int)
    requires Normal(m, e)
    ensures 0.0 <= m < 2.0 * FRACTION as real && -1074 <= e && (e > -1074 ==> m >= FRACTION as real > 0.0)
  {}

  lemma SmallerExponent(a: real, ea: int, b: real, eb: int)
    requires Normal(a, ea) && Normal(b, eb) && ea < eb
    ensures a * Ulp(ea) < b * Ulp(eb)
  {
    UlpPositive(ea);
    UlpPositive(eb);
    UlpDoubles(ea, eb);
    NormalBounds(a, ea);
    NormalBounds(b, eb);
    hide Ulp, Normal;
    ScaledChain(a, Ulp(ea), b, Ulp(eb), FRACTION as real);
  }

  lemma CancelFactor(a: real, b: real, p: real)
    requires p > 0.0 && a * p == b * p
    ensures a == b
  {
    if a < b {
      ScaledBelow(a, p, b);
    } else if b < a {
      ScaledBelow(b, p, a);
    }
  }

  lemma NormalUnique(a: real, ea: int, b: real, eb: int)
    requires Normal(a, ea) && Normal(b, eb) && a * Ulp(ea) == b * Ulp(eb)
    ensures a == b && ea == eb
  {
    hide Ulp, Normal;
    if ea < eb {
      SmallerExponent(a, ea, b, eb);
    } else if eb < ea {
      SmallerExponent(b, eb, a, ea);
    } else {
      UlpPositive(ea);
      CancelFactor(a, b, Ulp(ea));
    }
  }

  /** No finite pattern is as large as the first power that does not fit. */
  lemma TooLarge(m: real, e: int, down: real)
    requires Normal(m, e) && e <= 971 && down >= FRACTION as real
    ensures m * Ulp(e) != down * Ulp(972)
  {
    SmallerExponent(m, e, FRACTION as real, 972);
    UlpPositive(972);
    ScaledAtLeast(down, Ulp(972), FRACTION as real);
    hide Ulp;
  }

  lemma UlpZero(r: real)
    ensures r * Ulp(0) == r
  {}

  lemma ScalesBack(m: real, e: int, r: real)
    requires Normal(m, e) && e <= 971 && r == m * Ulp(e)
    ensures r >= 0.0
    ensures var (down, e0) := ScaleDown(r, 0); ScaleUp(down, e0) == (m, e)
  {
    hide Ulp, ScaleUp, ScaleDown;
    UlpPositive(e);
    ScaledAtLeast(m, Ulp(e), 0.0);
    ScaleDownKeeps(r, 0);
    var (down, e0) := ScaleDown(r, 0);
    UlpZero(r);
    if e0 == 972 {
      TooLarge(m, e, down);
    }
    ScaleUpKeeps(down, e0);
    var (scaled, e1) := ScaleUp(down, e0);
    NormalUnique(scaled, e1, m, e);
  }

  /** Significand and exponent of a pattern. */
  function Significand(b: u64): nat {
    if Exponent(b) == 0 then b % FRACTION else FRACTION + b % FRACTION
  }

  function Scale(b: u64): int {
    if Exponent(b) == 0 then -1074 else Exponent(b) - 1075
  }

  lemma ValueParts(b: u64)
    requires Finite(b)
    ensures Normal(Significand(b) as real, Scale(b)) && Scale(b) <= 971
    ensures Value(b) == if b >= TWO63 then -(Significand(b) as real * Ulp(Scale(b)))
                        else Significand(b) as real * Ulp(Scale(b))
  {
    hide Ulp;
  }

  lemma Packed(sign: nat, exponent: nat, fraction: nat)
    requires (sign == 0 || sign == TWO63) && exponent < 2047 && fraction < FRACTION
    ensures var b := sign + exponent * FRACTION + fraction;
            && b < TWO64 && Finite(b) && Exponent(b) == exponent && b % FRACTION == fraction
            && (b >= TWO63 <==> sign == TWO63)
  {
    assert TWO63 == 2048 * FRACTION;
  }

  /** The pattern of a number whose significand and exponent are known. */
  lemma RoundOf(r: real, m: nat, e: int)
    requires Normal(m as real, e) && e <= 971 && (r == m as real * Ulp(e) || r == -(m as real * Ulp(e)))
    ensures var sign := if r < 0.0 then TWO63 else 0;
            Round(r) == if m < FRACTION then sign + m else sign + (e + 1075) * FRACTION + (m - FRACTION)
  {
    hide ScaleUp, ScaleDown, Ulp;
    ScalesBack(m as real, e, m as real * Ulp(e));
    assert (m as real).Floor == m;
  }

  lemma ValueSign(m: nat, e: int)
    ensures m as real * Ulp(e) >= 0.0
  {
    UlpPositive(e);
    hide Ulp;
  }

  lemma PatternParts(sign: nat, m: nat, e: int)
    requires (sign == 0 || sign == TWO63) && Normal(m as real, e) && e <= 971
    ensures var b := if m < FRACTION then sign + m else sign + (e + 1075) * FRACTION + (m - FRACTION);
            && 0 <= b < TWO64 && Finite(b) && Significand(b) == m && Scale(b) == e && (b >= TWO63 <==> sign == TWO63)
  {
    hide Exponent;
    if m < FRACTION {
      Packed(sign, 0, m);
    } else {
      Packed(sign, e + 1075, m - FRACTION);
    }
  }

  /** Rounding a representable number changes nothing. */
  lemma RoundExact(b: u64)
    requires Finite(b)
    ensures Finite(Round(Value(b))) && Value(Round(Value(b))) == Value(b)
  {
    hide Round, Ulp, Exponent, Value, Normal, Significand, Scale;
    var m, e, r := Significand(b), Scale(b), Value(b);
    ValueParts(b);
    RoundOf(r, m, e);
    PatternParts(if r < 0.0 then TWO63 else 0, m, e);
    ValueParts(Round(r));
    ValueSign(m, e);
  }

  /** A number with at most 53 binary digits has a normalised significand that is whole. */
  lemma {:induction false} WholeScaled(n: nat, e: int) returns (m: nat, k: int)
    requires n < 2 * FRACTION && -1074 <= e <= 971
    ensures Normal(m as real, k) && k <= 971 && m as real * Ulp(k) == n as real * Ulp(e)
    decreases e + 1074
  {
    hide Ulp;
    if n >= FRACTION || e == -1074 {
      m, k := n, e;
    } else {
      m, k := WholeScaled(2 * n, e - 1);
      UlpStep(e - 1);
      Halved((2 * n) as real, n as real, Ulp(e - 1), Ulp(e));
    }
  }

  lemma WholePattern(n: nat, m: nat, k: int) returns (p: u64)
    requires Normal(m as real, k) && k <= 971 && m as real * Ulp(k) == n as real
    ensures Finite(p) && Value(p) == n as real
  {
    hide Ulp, Exponent, Value, Normal, Significand, Scale;
    PatternParts(0, m, k);
    p := if m < FRACTION then m else (k + 1075) * FRACTION + (m - FRACTION);
    ValueParts(p);
  }

  /** Whole numbers up to 2^53 are not rounded. */
  lemma WholeNumbersExact(n: nat)
    requires n <= 2 * FRACTION
    ensures Finite(Round(n as real)) && Value(Round(n as real)) == n as real
  {
    hide Ulp, Exponent, Value, Finite, Round, Normal;
    var half := n == 2 * FRACTION;
    UlpZero(n as real);
    UlpStep(0);
    assert half ==> FRACTION as real * Ulp(1) == (2 * FRACTION) as real * Ulp(0) by {
      Twice(Ulp(0));
    }
    var m, k := WholeScaled(if half then FRACTION else n, if half then 1 else 0);
    var p := WholePattern(n, m, k);
    RoundExact(p);
  }

  lemma ZeroPatterns()
    ensures Finite(0) && Value(0) == 0.0 && Finite(NEGATIVE_ZERO) && Value(NEGATIVE_ZERO) == 0.0
  {
    Packed(0, 0, 0);
    Packed(TWO63, 0, 0);
    ValueParts(0);
    ValueParts(NEGATIVE_ZERO);
    hide Ulp, Value;
  }

  /** Adding loses nothing when the sum is representable. */
  lemma AddExact(a: u64, b: u64)
    requires Finite(a) && Finite(b) && Representable(Value(a) + Value(b))
    ensures Finite(Add(a, b)) && Value(Add(a, b)) == Value(a) + Value(b)
  {
    hide Finite, Value, Round;
    var p: u64 :| Finite(p) && Value(p) == Value(a) + Value(b);
    RoundExact(p);
    ZeroPatterns();
  }

  // ---------------------------------------------------------------- rounding is to nearest

  function Distance(x: real, y: real): (d: real)
    ensures d >= 0.0
  {
    if x < y then y - x else x - y
  }

  lemma NearestEvenIsNearest(x: real, n: int)
    requires x >= 0.0
    ensures Distance(NearestEven(x) as real, x) <= Distance(n as real, x)
  {
    var below := x.Floor;
    assert n <= below || n >= below + 1;
  }

  lemma {:induction false} UlpMultiple(e: int, k: int) returns (q: nat)
    requires e <= k
    ensures q >= 1 && Ulp(k) == q as real * Ulp(e)
    decreases k - e
  {
    if k == e {
      q := 1;
    } else {
      var q1 := UlpMultiple(e, k - 1);
      UlpStep(k - 1);
      q := 2 * q1;
      hide Ulp;
      assert 2.0 * (q1 as real * Ulp(e)) == (2 * q1) as real * Ulp(e);
    }
  }

  function Magnitude(r: real): (m: real)
    ensures m >= 0.0
  {
    if r < 0.0 then -r else r
  }

  function Signed(r: real, v: real): real {
    if r < 0.0 then -v else v
  }

  lemma InfinityIsNot(sign: nat)
    requires sign == 0 || sign == TWO63
    ensures sign + INFINITY < TWO64 && !Finite(sign + INFINITY)
  {}

  lemma StaysLarge(down: real)
    requires down >= (2 * FRACTION) as real
    ensures ScaleUp(down, 972) == (down, 972)
  {}

  /** The scaled form `Round` works on. */
  function Scaled(r: real): (real, int) {
    var (down, e0) := ScaleDown(Magnitude(r), 0);
    ScaleUp(down, e0)
  }

  /** `Round` in terms of the scaled form. */
  lemma RoundScaled(r: real, sign: nat)
    requires sign == (if r < 0.0 then TWO63 else 0) && Scaled(r).0 >= 0.0
    ensures var (s, e) := Scaled(r);
            var n := NearestEven(s);
            Round(r) == if n > 2 * FRACTION || e > 971 || e < -1074 then sign + INFINITY
                        else if n < FRACTION then sign + n
                        else sign + (e + 1075) * FRACTION + (n - FRACTION)
  {
    hide ScaleDown, ScaleUp, NearestEven;
  }

  lemma ScaledKeeps(r: real)
    ensures var (s, e) := Scaled(r);
            s >= 0.0 && (e <= 971 ==> Normal(s, e) && s * Ulp(e) == Magnitude(r))
  {
    hide Ulp, ScaleDown, ScaleUp, Normal, Magnitude;
    var m := Magnitude(r);
    var (down, e0) := ScaleDown(m, 0);
    var down' := ScaledDown(m);
    if down >= (2 * FRACTION) as real {
      StaysLarge(down);
    } else {
      ScaleUpKeeps(down, e0);
    }
  }

  lemma {:induction false} ScaleDownExponent(m: real, e: int)
    requires m >= 0.0 && 0 <= e <= 972
    ensures ScaleDown(m, e).1 >= e
    decreases 972 - e
  {
    if m >= (2 * FRACTION) as real && e < 972 {
      ScaleDownExponent(m / 2.0, e + 1);
    }
  }

  lemma ScaledDown(m: real) returns (down: real)
    requires m >= 0.0
    ensures down == ScaleDown(m, 0).0 >= 0.0 && down * Ulp(ScaleDown(m, 0).1) == m && ScaleDown(m, 0).1 >= 0
    ensures down < (2 * FRACTION) as real || ScaleDown(m, 0).1 == 972
  {
    hide Ulp, ScaleDown;
    ScaleDownKeeps(m, 0);
    UlpZero(m);
    ScaleDownExponent(m, 0);
    down := ScaleDown(m, 0).0;
  }

  /** A number that rounds to a finite pattern has a significand below 2^53. */
  lemma RoundNormal(r: real) returns (s: real, e: int)
    requires Finite(Round(r))
    ensures (s, e) == Scaled(r) && Normal(s, e) && s * Ulp(e) == Magnitude(r) && e <= 971
  {
    hide Ulp, Scaled, Finite, NearestEven, Round;
    var sign := if r < 0.0 then TWO63 else 0;
    InfinityIsNot(sign);
    ScaledKeeps(r);
    RoundScaled(r, sign);
    s, e := Scaled(r).0, Scaled(r).1;
  }

  lemma NearestEvenBounds(x: real)
    requires 0.0 <= x < (2 * FRACTION) as real
    ensures NearestEven(x) <= 2 * FRACTION && (x >= FRACTION as real ==> NearestEven(x) >= FRACTION)
  {}

  /** The number behind a pattern put together from digits and a scale. */
  lemma DigitsValue(sign: nat, n: nat, e: int, b: u64, v: real)
    requires (sign == 0 || sign == TWO63) && Normal(n as real, e) && e <= 971 && v == n as real * Ulp(e)
    requires b == if n < FRACTION then sign + n else sign + (e + 1075) * FRACTION + (n - FRACTION)
    ensures Value(b) == if sign == TWO63 then -v else v
  {
    hide Ulp, Exponent, Value, Finite;
    PatternParts(sign, n, e);
    assert Significand(b) == n && Scale(b) == e;
    ValueParts(b);
  }

  /** A significand that rounds up to the next power of two moves into the exponent. */
  lemma CarriedValue(sign: nat, n: nat, e: int, b: u64, v: real)
    requires (sign == 0 || sign == TWO63) && n == 2 * FRACTION && -1074 <= e <= 971 && v == n as real * Ulp(e)
    requires b == sign + (e + 1075) * FRACTION + (n - FRACTION) && Finite(b)
    ensures Value(b) == if sign == TWO63 then -v else v
  {
    InfinityIsNot(sign);
    UlpStep(e);
    hide Ulp, Finite, Value;
    Twice(Ulp(e));
    DigitsValue(sign, FRACTION, e + 1, b, FRACTION as real * Ulp(e + 1));
  }

  /** The digits and the scale a finite rounding result was made of. */
  lemma RoundParts(r: real) returns (s: real, e: int, v: real)
    requires Finite(Round(r))
    ensures Normal(s, e) && s * Ulp(e) == Magnitude(r)
    ensures v == NearestEven(s) as real * Ulp(e) && Value(Round(r)) == Signed(r, v)
    ensures Round(r) % 2 == NearestEven(s) % 2
  {
    hide Ulp, Scaled, NearestEven, Finite, Value, Exponent, Round;
    s, e := RoundNormal(r);
    var n, sign := NearestEven(s), if r < 0.0 then TWO63 else 0;
    v := n as real * Ulp(e);
    RoundScaled(r, sign);
    NearestEvenBounds(s);
    if n == 2 * FRACTION {
      CarriedValue(sign, n, e, Round(r), v);
    } else {
      DigitsValue(sign, n, e, Round(r), v);
    }
  }

  lemma Twice(p: real)
    ensures FRACTION as real * (2.0 * p) == (2 * FRACTION) as real * p
  {}

  lemma ScaledDistance(x: real, y: real, p: real)
    requires p > 0.0
    ensures Distance(x, y) * p == Distance(x * p, y * p)
  {
    if x < y {
      ScaledBelow(x, p, y);
    } else {
      ScaledAtLeast(x, p, y);
    }
  }

  /** Integer digits are no farther from a significand than other integers, at any scale. */
  lemma DigitsNearest(s: real, n: int, p: real, v: real, x: real, y: real)
    requires s >= 0.0 && p > 0.0 && v == NearestEven(s) as real * p && x == s * p && y == n as real * p
    ensures Distance(v, x) <= Distance(y, x)
  {
    NearestEvenIsNearest(s, n);
    ScaledOrder(NearestEven(s) as real, n as real, s, p);
  }

  lemma ScaledOrder(x: real, y: real, z: real, p: real)
    requires p > 0.0 && Distance(x, z) <= Distance(y, z)
    ensures Distance(x * p, z * p) <= Distance(y * p, z * p)
  {
    ScaledDistance(x, z, p);
    ScaledDistance(y, z, p);
    hide Distance;
    ScaledAtLeast(Distance(y, z), p, Distance(x, z));
  }

  /** No pattern on the same side of zero is nearer than the rounded digits. */
  lemma SameSide(s: real, e: int, m: nat, k: int, v: real, x: real, w: real)
    requires Normal(s, e) && Normal(m as real, k)
    requires v == NearestEven(s) as real * Ulp(e) && x == s * Ulp(e) && w == m as real * Ulp(k)
    ensures Distance(v, x) <= Distance(w, x)
  {
    hide Ulp, NearestEven, Distance;
    UlpPositive(e);
    if k >= e {
      var q := UlpMultiple(e, k);
      Regroup(m, q, Ulp(e));
      DigitsNearest(s, m * q, Ulp(e), v, x, w);
    } else {
      var grid := BelowGrid(s, e, m as real, k);
      DigitsNearest(s, FRACTION, Ulp(e), v, x, grid);
      Farther(w, grid, x);
    }
  }

  lemma Regroup(m: nat, q: nat, p: real)
    ensures m as real * (q as real * p) == (m * q) as real * p
  {
    assert (m * q) as real == m as real * q as real;
  }

  lemma Farther(x: real, y: real, z: real)
    requires x <= y <= z
    ensures Distance(y, z) <= Distance(x, z)
  {}

  /** A pattern of a smaller scale lies below every normalised number of this one. */
  lemma BelowGrid(s: real, e: int, m: real, k: int) returns (grid: real)
    requires Normal(s, e) && Normal(m, k) && k < e
    ensures m * Ulp(k) <= grid <= s * Ulp(e) && grid == FRACTION as real * Ulp(e)
  {
    grid := FRACTION as real * Ulp(e);
    UlpPositive(e);
    NormalBounds(s, e);
    assert Normal(FRACTION as real, e);
    SmallerExponent(m, k, FRACTION as real, e);
    hide Ulp, Normal;
    ScaledAtLeast(s, Ulp(e), FRACTION as real);
  }

  lemma OtherSide(s: real, e: int, m: nat, k: int, v: real, x: real, w: real)
    requires Normal(s, e) && Normal(m as real, k)
    requires v == NearestEven(s) as real * Ulp(e) && x == s * Ulp(e) && w == m as real * Ulp(k)
    ensures Distance(v, x) <= Distance(-w, x)
  {
    hide Ulp, NearestEven, Distance;
    UlpPositive(e);
    ValueSign(m, k);
    DigitsNearest(s, 0, Ulp(e), v, x, 0.0);
    ScaledAtLeast(s, Ulp(e), 0.0);
    Farther(-w, 0.0, x);
  }

  lemma SignedDistance(r: real, v: real, w: real)
    ensures Distance(Signed(r, v), Signed(r, w)) == Distance(v, w)
  {}

  /** No finite pattern is nearer to a number than the one it is rounded to. */
  lemma RoundIsNearest(r: real, p: u64)
    requires Finite(Round(r)) && Finite(p)
    ensures Distance(Value(Round(r)), r) <= Distance(Value(p), r)
  {
    hide Round, Ulp, Value, Finite, NearestEven, Significand, Scale, Distance;
    var s, e, v := RoundParts(r);
    ValueParts(p);
    var x, w := s * Ulp(e), Significand(p) as real * Ulp(Scale(p));
    SameSide(s, e, Significand(p), Scale(p), v, x, w);
    OtherSide(s, e, Significand(p), Scale(p), v, x, w);
    SignedDistance(r, v, x);
    SignedDistance(r, w, x);
    SignedDistance(r, -w, x);
  }

  // ---------------------------------------------------------------- ties go to the even significand

  lemma NearestEvenTie(s: real, j: int)
    requires s >= 0.0 && j != NearestEven(s) && Distance(j as real, s) == Distance(NearestEven(s) as real, s)
    ensures NearestEven(s) % 2 == 0
  {
    var below := s.Floor;
    assert j <= below || j >= below + 1;
  }

  /** Digits that tie with another whole number, at any scale, are even. */
  lemma DigitsTie(s: real, j: int, p: real, v: real, x: real, y: real)
    requires s >= 0.0 && p > 0.0 && v == NearestEven(s) as real * p && x == s * p && y == j as real * p
    requires y != v && Distance(y, x) == Distance(v, x)
    ensures NearestEven(s) % 2 == 0
  {
    var n := NearestEven(s);
    hide Distance, NearestEven;
    UnscaledTie(j as real, n as real, s, p);
    NearestEvenTie(s, j);
  }

  lemma UnscaledTie(a: real, n: real, s: real, p: real)
    requires p > 0.0 && Distance(a * p, s * p) == Distance(n * p, s * p)
    ensures Distance(a, s) == Distance(n, s)
  {
    ScaledDistance(a, s, p);
    ScaledDistance(n, s, p);
    hide Distance;
    CancelFactor(Distance(a, s), Distance(n, s), p);
  }

  lemma SameDistance(a: real, b: real, x: real)
    requires a <= x && b <= x && Distance(a, x) == Distance(b, x)
    ensures a == b
  {}

  /** A pattern as near as the rounded digits stands for a whole number of their units. */
  lemma TieOnGrid(s: real, e: int, m: nat, k: int, v: real, x: real, y: real) returns (j: int)
    requires Normal(s, e) && Normal(m as real, k) && (y == m as real * Ulp(k) || y == -(m as real * Ulp(k)))
    requires v == NearestEven(s) as real * Ulp(e) && x == s * Ulp(e) && Distance(y, x) == Distance(v, x)
    ensures y == j as real * Ulp(e)
  {
    hide Ulp, NearestEven, Distance;
    UlpPositive(e);
    ValueSign(m, k);
    ScaledAtLeast(s, Ulp(e), 0.0);
    if y == m as real * Ulp(k) && k >= e {
      var q := UlpMultiple(e, k);
      Regroup(m, q, Ulp(e));
      j := m * q;
    } else if y == m as real * Ulp(k) {
      var grid := BelowGrid(s, e, m as real, k);
      DigitsNearest(s, FRACTION, Ulp(e), v, x, grid);
      Farther(y, grid, x);
      SameDistance(y, grid, x);
      j := FRACTION;
    } else {
      DigitsNearest(s, 0, Ulp(e), v, x, 0.0);
      Farther(y, 0.0, x);
      SameDistance(y, 0.0, x);
      j := 0;
    }
  }

  lemma SignedTwice(r: real, v: real)
    ensures Signed(r, Signed(r, v)) == v && (Signed(r, v) == v || Signed(r, v) == -v)
  {}

  /** Of two patterns equally near to a number, it is rounded to the one with the even significand. */
  lemma TiesToEven(r: real, p: u64)
    requires Finite(Round(r)) && Finite(p) && Value(p) != Value(Round(r))
    requires Distance(Value(p), r) == Distance(Value(Round(r)), r)
    ensures Significand(Round(r)) % 2 == 0
  {
    hide Round, Ulp, Value, Finite, NearestEven, Scale, Distance, Signed, Normal;
    var s, e, v := RoundParts(r);
    ValueParts(p);
    var x, y := s * Ulp(e), Signed(r, Value(p));
    SignedTwice(r, Value(p));
    SignedTwice(r, v);
    assert Signed(r, x) == r by {
      SignedMagnitude(r);
    }
    SignedDistance(r, v, x);
    SignedDistance(r, y, x);
    var j := TieOnGrid(s, e, Significand(p), Scale(p), v, x, y);
    UlpPositive(e);
    NormalBounds(s, e);
    DigitsTie(s, j, Ulp(e), v, x, y);
    EvenSignificand(Round(r));
  }

  lemma SignedMagnitude(r: real)
    ensures Signed(r, Magnitude(r)) == r
  {}

  lemma EvenSignificand(b: u64)
    requires b % 2 == 0
    ensures Significand(b) % 2 == 0
  {
    assert FRACTION % 2 == 0;
    assert b == b / FRACTION * FRACTION + b % FRACTION;
  }

  // ---------------------------------------------------------------- an addition that rounds

  /** The patterns of 10^16, of its negation and of 1. */
  const BIG: u64 := 1076 * FRACTION + (5_000_000_000_000_000 - FRACTION)
  const NEGATIVE_BIG: u64 := TWO63 + BIG
  const ONE: u64 := 1023 * FRACTION

  lemma UlpFour(e: int)
    ensures Ulp(e + 4) == 16.0 * Ulp(e)
  {
    UlpStep(e);
    UlpStep(e + 1);
    UlpStep(e + 2);
    UlpStep(e + 3);
    hide Ulp;
  }

  lemma UlpThirteen(e: int)
    ensures Ulp(e + 13) == 8192.0 * Ulp(e)
  {
    UlpFour(e);
    UlpFour(e + 4);
    UlpFour(e + 8);
    UlpStep(e + 12);
    hide Ulp;
  }

  lemma UlpNamed()
    ensures Ulp(0) == 1.0 && Ulp(1) == 2.0 && Ulp(-52) * 4_503_599_627_370_496.0 == 1.0
  {
    assert Ulp(0) == 1.0;
    UlpStep(0);
    UlpThirteen(-13);
    UlpThirteen(-26);
    UlpThirteen(-39);
    UlpThirteen(-52);
    hide Ulp;
  }

  lemma NamedValues()
    ensures Finite(BIG) && Value(BIG) == 1.0e16 && Finite(NEGATIVE_BIG) && Value(NEGATIVE_BIG) == -1.0e16
    ensures Finite(ONE) && Value(ONE) == 1.0 && Ulp(1) == 2.0
  {
    UlpNamed();
    hide Ulp;
    Packed(0, 1076, 5_000_000_000_000_000 - FRACTION);
    Packed(TWO63, 1076, 5_000_000_000_000_000 - FRACTION);
    Packed(0, 1023, 0);
    hide Ulp, Value;
    ValueParts(BIG);
    ValueParts(NEGATIVE_BIG);
    ValueParts(ONE);
  }

  /** One added to 10^16 is lost. */
  lemma OneIsLost()
    ensures Add(BIG, ONE) == BIG && Value(Add(BIG, NEGATIVE_BIG)) == 0.0
  {
    hide Round, Value, Finite, Ulp, Scaled;
    NamedValues();
    var r := 1.0e16 + 1.0;
    ScalesBack(5_000_000_000_000_000.5, 1, r);
    ScaledIs(r, 5_000_000_000_000_000.5, 1);
    RoundScaled(r, 0);
    ZeroPatterns();
    RoundExact(0);
  }

  lemma ScaledIs(r: real, s: real, e: int)
    requires r >= 0.0 && ScaleUp(ScaleDown(r, 0).0, ScaleDown(r, 0).1) == (s, e)
    ensures Scaled(r) == (s, e)
  {}
}
