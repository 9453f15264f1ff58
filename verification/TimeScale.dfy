/** The conversion factor between two clock rates (kvm/x86.c:1069-1106). */
module TimeScale {

  const B32 := 0x1_0000_0000
  const B31 := 0x8000_0000

  ghost function Pow2(n: int): real
    decreases if n < 0 then -n else n
  {
    if n == 0 then 1.0 else if n > 0 then 2.0 * Pow2(n - 1) else Pow2(n + 1) / 2.0
  }

  lemma {:induction false} Pow2Step(n: int)
    ensures Pow2(n) > 0.0 && Pow2(n + 1) == 2.0 * Pow2(n)
    decreases if n < 0 then -n else n
  {
    if n > 0 { Pow2Step(n - 1); } else if n < 0 { Pow2Step(n + 1); }
  }

  /** A rate times a power of two, without rounding. */
  ghost function Scaled(b: nat, shift: int): real { M(b as real, Pow2(shift)) }

  lemma ScaledHalf(b: nat, shift: int)
    ensures Scaled(b, 0) == b as real && Scaled(b, shift - 1) == Scaled(b, shift) / 2.0
  {
    Pow2Step(shift - 1);
    assert Pow2(shift - 1) == Pow2(shift) / 2.0;
  }

  /** Number of binary digits. */
  ghost function Bits(n: nat): nat { if n == 0 then 0 else 1 + Bits(n / 2) }

  lemma BitsStep(n: nat)
    ensures n > 0 ==> Bits(n) == Bits(n / 2) + 1
  {
  }

  ghost function Two(k: nat): nat { if k == 0 then 1 else 2 * Two(k - 1) }

  lemma {:induction false} BitsBound(n: nat, k: nat)
    requires n < Two(k)
    ensures Bits(n) <= k
  {
    if n > 0 { BitsBound(n / 2, k - 1); }
  }

  // Products of variables go by name, so that the solver multiplies only where a lemma asks for it.
  ghost function Times(a: nat, b: nat): nat { a * b }
  ghost function M(a: real, b: real): real { a * b }

  /** `(dividend << 32) / divisor` by one `divl`, which faults unless dividend < divisor. */
  method DivFrac(dividend: nat, divisor: nat) returns (quotient: nat)
    requires dividend < divisor < B32
    ensures quotient < B32 && Times(quotient, divisor) <= dividend * B32 < Times(quotient + 1, divisor)
  {
    quotient := dividend * B32 / divisor;
    QuotientBounds(dividend * B32, divisor);
    TimesMonotone(B32, quotient, divisor);
  }

  lemma QuotientBounds(x: nat, d: nat)
    requires d > 0
    ensures x / d * d <= x < (x / d + 1) * d
  {
    assert x == x / d * d + x % d;
  }

  lemma TimesMonotone(a: nat, b: nat, d: nat)
    ensures a <= b ==> a * d <= b * d
  {
  }

  lemma TwoValues()
    ensures Two(32) == B32 && Two(42) == 0x400_0000_0000 && Two(43) == 0x800_0000_0000
  {
    assert Two(10) == 1024;
    assert Two(20) == 1024 * 1024 by { TwoAdd(10, 10); }
    TwoAdd(20, 10);
    assert Two(32) == 4 * Two(30);
    TwoAdd(32, 10);
  }

  lemma {:induction false} TwoAdd(a: nat, b: nat)
    ensures Two(a + b) == Two(a) * Two(b)
  {
    if b > 0 { TwoAdd(a, b - 1); }
  }

  /** The first loop of `kvm_get_time_scale`: the base rate loses low bits until it is at most twice the scaled
      rate and fits in 32 bits. */
  method ScaleDown(base64: nat, scaled64: nat) returns (tps64: nat, shift: int)
    requires 0 < base64 < 0x400_0000_0000 && 0 < scaled64
    ensures 0 < tps64 <= 2 * scaled64 && tps64 < B32 && -42 <= shift <= 0
    ensures tps64 as real <= Scaled(base64, shift) < tps64 as real + 1.0
    ensures shift == 0 ==> tps64 == base64
    ensures shift < 0 ==> tps64 >= scaled64 || tps64 >= B31
    ensures tps64 == Down(base64, scaled64)
  {
    tps64, shift := base64, 0;
    TwoValues();
    BitsBound(base64, 42);
    hide Scaled;
    ScaledHalf(base64, 0);
    while tps64 > scaled64 * 2 || tps64 >= B32
      invariant 0 < tps64 && shift <= 0 && Bits(tps64) - shift == Bits(base64)
      invariant tps64 as real <= Scaled(base64, shift) < tps64 as real + 1.0
      invariant shift == 0 ==> tps64 == base64
      invariant shift < 0 ==> tps64 >= scaled64 || tps64 >= B31
      invariant Down(tps64, scaled64) == Down(base64, scaled64)
      decreases tps64
    {
      ScaledHalf(base64, shift);
      tps64 := tps64 / 2;
      shift := shift - 1;
    }
  }

  lemma TimesDoubles(a: nat, e: nat)
    ensures Times(a, 1) == a && Times(a, 2 * e) == 2 * Times(a, e)
  {
  }

  ghost function Product(w: real, e: nat, g: nat): real { M(M(w, e as real), g as real) }

  lemma ProductDoubles(w: real, e: nat, g: nat)
    ensures Product(w, 1, 1) == w
    ensures Product(w, 2 * e, g) == 2.0 * Product(w, e, g) && Product(w, e, 2 * g) == 2.0 * Product(w, e, g)
  {
    var we := w * e as real;
    assert w * (2 * e) as real == 2.0 * we;
  }

  /** The second loop: the scaled rate drops below the base rate.  `e` and `g` count the doublings of the base
      rate and the halvings of the scaled rate as powers of two. */
  method ScaleUp(tps: nat, scaled: nat, shift0: int)
      returns (tps32: nat, scaled64: nat, shift: int, ghost e: nat, ghost g: nat)
    requires 0 < tps <= 2 * scaled && tps < B32 && scaled < 0x800_0000_0000
    ensures scaled64 < tps32 < B32 && shift0 <= shift <= shift0 + 75
    ensures 2 * scaled64 >= tps32 || (2 * scaled64 + 1 == tps32 && tps32 >= B31)
    ensures e >= 1 && g >= 1 && tps32 == Times(tps, e) && Truncates(scaled64, g, scaled)
    ensures g > 1 ==> scaled64 >= B31 / 2
    ensures Pow2(shift) == Product(Pow2(shift0), e, g)
  {
    hide Product, Truncates, Times, M, Pow2, Two, Bits;
    TimesDoubles(tps, 1);
    Halved(scaled, 1, scaled);
    tps32, scaled64, shift, e, g := tps, scaled, shift0, 1, 1;
    ProductDoubles(Pow2(shift0), 1, 1);
    TwoValues();
    BitsBound(scaled, 43);
    BitsBound(tps, 32);
    while tps32 <= scaled64 || scaled64 >= B32
      invariant 0 < tps32 < B32 && 0 < scaled64 && shift0 <= shift
      invariant shift - shift0 == (Bits(scaled) - Bits(scaled64)) + (Bits(tps32) - Bits(tps))
      invariant tps32 <= 2 * scaled64 || (2 * scaled64 + 1 == tps32 && tps32 >= B31)
      invariant e >= 1 && g >= 1 && tps32 == Times(tps, e) && Truncates(scaled64, g, scaled)
      invariant g > 1 ==> scaled64 >= B31 / 2
      invariant Pow2(shift) == Product(Pow2(shift0), e, g)
      decreases scaled64, B32 - tps32
    {
      Pow2Step(shift);
      ProductDoubles(Pow2(shift0), e, g);
      TimesDoubles(tps, e);
      BitsStep(scaled64);
      BitsStep(2 * tps32);
      if scaled64 >= B32 || tps32 >= B31 {
        Halved(scaled64, g, scaled);
        scaled64 := scaled64 / 2;
        g := 2 * g;
      } else {
        tps32 := tps32 * 2;
        e := 2 * e;
      }
      shift := shift + 1;
    }
    BitsBound(tps32, 32);
  }

  /** `s0` with its low bits cut off is `s`, in units of `g`. */
  ghost predicate Truncates(s: nat, g: nat, s0: nat) { s * g <= s0 < s * g + g }

  lemma Halved(s: nat, g: nat, s0: nat)
    ensures Truncates(s, g, s0) ==> Truncates(s / 2, 2 * g, s0)
    ensures Truncates(s0, 1, s0)
  {
    var h := s / 2;
    assert s == 2 * h || s == 2 * h + 1;
    assert h * (2 * g) == 2 * h * g && (2 * h + 1) * g == 2 * h * g + g;
  }

  /** The multiplier that `div_frac` computes from the scaled rates. */
  lemma MultiplierRange(s: nat, t: nat, mul: nat)
    requires s < t < B32 && (2 * s >= t || (2 * s + 1 == t && t >= B31))
    requires Times(mul, t) <= s * B32 < Times(mul + 1, t)
    ensures B31 - 1 <= mul < B32
  {
    TimesMonotone(B32, mul, t);
    TimesMonotone(mul + 1, B31 - 1, t);
    TimesMonotone(mul + 1, B31, t);
  }

  /** The factor that `mul` and `shift` stand for. */
  ghost function Factor(mul: nat, shift: int): real { M(mul as real / B32 as real, Pow2(shift)) }

  // ----- zero rates

  /** The base rate after the first loop. */
  ghost function Down(tps: nat, scaled: nat): nat {
    if tps > scaled * 2 || tps >= B32 then Down(tps / 2, scaled) else tps
  }

  /** The second loop as a step on (tps32, scaled64). */
  predicate UpGuard(r: (nat, nat)) { r.0 <= r.1 || r.1 >= B32 }
  function UpStep(r: (nat, nat)): (nat, nat) { if r.1 >= B32 || r.0 >= B31 then (r.0, r.1 / 2) else (r.0 * 2, r.1) }
  function UpAfter(r: (nat, nat), n: nat): (nat, nat) { if n == 0 then r else UpStep(UpAfter(r, n - 1)) }

  lemma {:induction false} DownIsZero(tps: nat, scaled: nat)
    ensures Down(tps, scaled) == 0 <==> tps == 0 || scaled == 0
    decreases tps
  {
    if tps > scaled * 2 || tps >= B32 { DownIsZero(tps / 2, scaled); }
  }

  lemma {:induction false} UpStuck(scaled: nat, n: nat)
    ensures UpAfter((0, scaled), n).0 == 0 && UpGuard(UpAfter((0, scaled), n))
  {
    if n > 0 { UpStuck(scaled, n - 1); }
  }

  /** The second loop is entered with a base rate of zero exactly if one of the rates is zero, and then never ends;
      for all other rates `GetTimeScale` terminates. */
  lemma ZeroRateNeverEnds(scaledKhz: nat, baseKhz: nat)
    ensures Down(baseKhz * 1000, scaledKhz * 1000) == 0 <==> scaledKhz == 0 || baseKhz == 0
    ensures scaledKhz == 0 || baseKhz == 0 ==>
              forall n: nat :: UpGuard(UpAfter((Down(baseKhz * 1000, scaledKhz * 1000), scaledKhz * 1000), n))
  {
    DownIsZero(baseKhz * 1000, scaledKhz * 1000);
    if scaledKhz == 0 || baseKhz == 0 {
      forall n: nat
        ensures UpGuard(UpAfter((0, scaledKhz * 1000), n))
      {
        UpStuck(scaledKhz * 1000, n);
      }
    }
  }

  // ----- the error bound, over reals

  lemma ProductsOrdered(a: real, b: real, c: real, d: real)
    requires 0.0 <= a <= b && 0.0 <= c <= d
    ensures a * c <= b * d
  {
    assert a * c <= b * c <= b * d;
  }

  lemma Regroup(x: real, w: real, e: real, g: real, b: real, t: real)
    ensures x * (w * e * g) * b * t == x * (t * e) * g * (b * w)
  {
    var we := w * e;
    assert x * (we * g) * b * t == x * g * b * t * we;
    assert x * (t * e) * g * (b * w) == x * g * b * t * we;
  }

  /** With t <= b * w <= u, where te = t * e is the base rate that `mul` was computed from. */
  lemma FactorOrder(x: real, w: real, e: real, g: real, b: real, t: real, te: real, bw: real, u: real, lo: real,
      hi: real)
    requires x >= 0.0 && w > 0.0 && e > 0.0 && g > 0.0 && b > 0.0 && t > 0.0 && lo >= 0.0
    requires te == t * e && bw == b * w && t <= bw <= u && lo <= x * te && x * te * g <= hi
    ensures lo * g <= x * (w * e * g) * b
    ensures x * (w * e * g) * b * t <= hi * u
  {
    var q := x * (t * e) * g;
    Regroup(x, w, e, g, b, t);
    ProductsOrdered(x * (t * e), x * (t * e), g, g);
    ProductsOrdered(lo, x * (t * e), g, g);
    ProductsOrdered(q, hi, b * w, u);
    ProductsOrdered(q, q, t, b * w);
    CancelRight(lo * g, x * (w * e * g) * b, t);
  }

  lemma CancelRight(a: real, b: real, t: real)
    requires t > 0.0 && a * t <= b * t
    ensures a <= b
  {
    assert a > b ==> (a - b) * t > 0.0;
  }

  const LOSS := 536870912.0  // 2^29

  lemma LossOfTruncation(s: real, g: real, r: real, kept: real)
    requires s >= LOSS * 2.0 && g > 0.0 && 0.0 <= r <= (s + 1.0) * g && kept >= s - 1.0
    ensures kept * g >= r - r / LOSS
  {
    var p := (s + 1.0) * g;
    ProductsOrdered(s - 1.0, kept, g, g);
    assert (s - 1.0) * g == p - 2.0 * g;
    ProductsOrdered(2.0 * LOSS, s + 1.0, g, g);
  }

  /** What `mul` and the truncated scaled rate keep: all but 2^-29 of the exact value. */
  lemma KeptBelow(s: nat, t: nat, g: nat, s0: nat)
    requires 0 < s < t < B32 && t <= 2 * s + 1 && g >= 1 && Truncates(s, g, s0) && (g > 1 ==> s >= B31 / 2)
    ensures M(s as real - t as real / B32 as real, g as real) >= s0 as real - s0 as real / LOSS
  {
    var kept := s as real - t as real / B32 as real;
    if g == 1 {
      assert s0 == s;
    } else {
      assert (s * g + g) as real == (s as real + 1.0) * g as real;
      LossOfTruncation(s as real, g as real, s0 as real, kept);
    }
  }

  /** x times the exact base rate, from both bounds of the division. */
  lemma DivisionBounds(mul: nat, s: nat, t: nat, g: nat, s0: nat)
    requires Times(mul, t) <= s * B32 < Times(mul + 1, t) && Truncates(s, g, s0)
    ensures var x := mul as real / B32 as real;
            s as real - t as real / B32 as real <= M(x, t as real) && M(M(x, t as real), g as real) <= s0 as real
  {
    var x := mul as real / B32 as real;
    assert (mul * t) as real == mul as real * t as real;
    assert ((mul + 1) * t) as real == mul as real * t as real + t as real;
    assert x * t as real == mul as real * t as real / B32 as real;
    assert (s * g) as real == s as real * g as real;
    ProductsOrdered(x * t as real, s as real, g as real, g as real);
  }

  lemma QuotientAtLeast(f: real, b: real, s: real)
    requires b > 0.0 && M(f, b) >= s - s / LOSS
    ensures f >= s / b - s / b / LOSS
  {
    var r := s / b;
    assert r * b == s;
    assert (r - r / LOSS) * b == s - s / LOSS;
    CancelRight(r - r / LOSS, f, b);
  }

  lemma QuotientAtMost(f: real, b: real, s: real, t: real, m: real)
    requires b > 0.0 && s >= 0.0 && 0.0 < m <= t && M(M(f, b), t) <= M(s, t + 1.0)
    ensures f <= s / b + s / b / m
  {
    var r := s / b;
    assert r * b == s && r >= 0.0;
    var q := r / m;
    assert q * m == r;
    ProductsOrdered(q, q, m, t);
    assert s * (t + 1.0) == r * (t + 1.0) * b;
    assert f * b * t == f * t * b;
    CancelRight(f * t, r * (t + 1.0), b);
    assert r * (t + 1.0) == r * t + r;
    assert (r + q) * t == r * t + q * t;
    CancelRight(f, r + q, t);
  }

  /** For all non-zero rates: no intermediate overflows or faults, the multiplier uses its full width, the shift
      fits in eight bits, and the factor approximates scaled/base within 2^-29 below and one part in
      min (1000 * scaledKhz, 2^31) above. */
  method GetTimeScale(scaledKhz: nat, baseKhz: nat) returns (shift: int, multiplier: nat)
    requires 0 < scaledKhz < B32 && 0 < baseKhz < B32
    ensures B31 - 1 <= multiplier < B32 && -42 <= shift <= 75
    ensures ErrorBound(Factor(multiplier, shift), scaledKhz, baseKhz)
  {
    var base64, scaled := baseKhz * 1000, scaledKhz * 1000;
    var tps64, shift0 := ScaleDown(base64, scaled);
    ghost var e: nat, g: nat;
    var tps32, scaled64;
    tps32, scaled64, shift, e, g := ScaleUp(tps64, scaled, shift0);
    multiplier := DivFrac(scaled64, tps32);
    hide Times;
    MultiplierRange(scaled64, tps32, multiplier);
    FactorBounds(multiplier, scaled64, tps64, tps32, e, g, scaledKhz, shift0, baseKhz, shift);
  }

  /** The bounds on x * te * g carry over to the factor f = x * w * e * g, since b * w is about te / e. */
  lemma RealBounds(f: real, x: real, w: real, e: real, g: real, b: real, t: real, te: real, bw: real, u: real,
      lo: real, s0: real)
    requires x >= 0.0 && w > 0.0 && e > 0.0 && g > 0.0 && b > 0.0 && t > 0.0 && lo >= 0.0
    requires te == M(t, e) && bw == M(b, w) && t <= bw <= u && lo <= M(x, te) && M(M(x, te), g) <= s0
    requires M(lo, g) >= s0 - s0 / LOSS && f == M(x, M(M(w, e), g))
    ensures s0 - s0 / LOSS <= M(f, b) && M(M(f, b), t) <= M(s0, u)
  {
    FactorOrder(x, w, e, g, b, t, te, bw, u, lo, s0);
  }

  lemma TimesReal(a: nat, b: nat)
    ensures Times(a, b) as real == M(a as real, b as real)
  {
  }

  /** Everything in units of 1000 Hz: the bounds of the two loops and of the division give the error bound. */
  lemma FactorBounds(mul: nat, s: nat, tps: nat, te: nat, e: nat, g: nat, scaledKhz: nat, shift0: int, baseKhz: nat,
      shift: int)
    requires 0 < scaledKhz && 0 < baseKhz && e > 0 && g > 0 && 0 < tps && te == Times(tps, e)
    requires 0 < s < te < B32 && te <= 2 * s + 1
    requires Truncates(s, g, scaledKhz * 1000) && (g > 1 ==> s >= B31 / 2)
    requires Times(mul, te) <= s * B32 < Times(mul + 1, te)
    requires tps as real <= Scaled(baseKhz * 1000, shift0) < tps as real + 1.0
    requires shift0 == 0 ==> tps == baseKhz * 1000
    requires shift0 <= 0 && (shift0 < 0 ==> tps >= scaledKhz * 1000 || tps >= B31)
    requires Pow2(shift) == Product(Pow2(shift0), e, g)
    ensures ErrorBound(Factor(mul, shift), scaledKhz, baseKhz)
  {
    hide M, Times, Truncates;
    var x, t, ter := mul as real / B32 as real, tps as real, te as real;
    var s0, b0 := scaledKhz * 1000, baseKhz * 1000;
    var u := if shift0 == 0 then t else t + 1.0;
    Pow2Step(shift0);
    TimesReal(tps, e);
    ScaledHalf(b0, 0);
    KeptBelow(s, te, g, s0);
    DivisionBounds(mul, s, te, g, s0);
    RealBounds(Factor(mul, shift), x, Pow2(shift0), e as real, g as real, b0 as real, t, ter, Scaled(b0, shift0), u,
               s as real - ter / B32 as real, s0 as real);
    FinalBounds(Factor(mul, shift), scaledKhz, baseKhz, t, u);
  }

  /** Below by at most one part in 2^29, above by at most one part in min (1000 * scaledKhz, 2^31). */
  ghost predicate ErrorBound(f: real, scaledKhz: nat, baseKhz: nat)
    requires 0 < scaledKhz && 0 < baseKhz
  {
    var r := scaledKhz as real / baseKhz as real;
    var m := if 1000 * scaledKhz < B31 then 1000 * scaledKhz else B31;
    r - r / LOSS <= f <= r + r / m as real
  }

  lemma FinalBounds(f: real, scaledKhz: nat, baseKhz: nat, t: real, u: real)
    requires 0 < scaledKhz && 0 < baseKhz && t > 0.0
    requires var s0, b0 := (scaledKhz * 1000) as real, (baseKhz * 1000) as real;
             s0 - s0 / LOSS <= M(f, b0) && M(M(f, b0), t) <= M(s0, u)
    requires u == t || (u == t + 1.0 && (t >= (scaledKhz * 1000) as real || t >= B31 as real))
    ensures ErrorBound(f, scaledKhz, baseKhz)
  {
    hide M;
    var m := if 1000 * scaledKhz < B31 then 1000 * scaledKhz else B31;
    PerThousand(f, scaledKhz as real, baseKhz as real, (scaledKhz * 1000) as real, (baseKhz * 1000) as real, t, u);
    QuotientAtLeast(f, baseKhz as real, scaledKhz as real);
    if u == t {
      QuotientExact(f, baseKhz as real, scaledKhz as real, t, m as real);
    } else {
      QuotientAtMost(f, baseKhz as real, scaledKhz as real, t, m as real);
    }
  }

  lemma PerThousand(f: real, s: real, b: real, s0: real, b0: real, t: real, u: real)
    requires s0 == 1000.0 * s && b0 == 1000.0 * b
    requires s0 - s0 / LOSS <= M(f, b0) && M(M(f, b0), t) <= M(s0, u)
    ensures s - s / LOSS <= M(f, b) && M(M(f, b), t) <= M(s, u)
  {
    var fb := f * b;
    assert f * b0 == 1000.0 * fb;
    assert f * b0 * t == 1000.0 * (fb * t);
    assert s0 * u == 1000.0 * (s * u);
  }

  lemma QuotientExact(f: real, b: real, s: real, t: real, m: real)
    requires b > 0.0 && s >= 0.0 && t > 0.0 && m > 0.0 && M(M(f, b), t) <= M(s, t)
    ensures f <= s / b + s / b / m
  {
    var r := s / b;
    assert r * b == s;
    CancelRight(f * b, s, t);
    CancelRight(f, r, b);
    var q := r / m;
    assert q * m == r;
    assert q >= 0.0;
  }
}
