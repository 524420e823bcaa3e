/** IEEE 754 binary32 rounding to nearest, ties to even (section 4.3.1 of IEEE 754-2019), for
    the non-negative values that occur in the frame-size computation. */
module Binary32 {
  import opened Modular

  const TWO24: int := 0x100_0000

  function Pow2(e: int): (r: real)
    ensures r > 0.0
    decreases if e < 0 then -e else e
  {
    if e == 0 then 1.0 else if e > 0 then 2.0 * Pow2(e - 1) else Pow2(e + 1) / 2.0
  }

  /** The exact product. */
  function Times(a: real, u: real): (r: real) {
    a * u
  }

  /** f is the binary32 number with integral significand m and exponent e. */
  predicate Encodes(f: real, m: int, e: int) {
    -149 <= e <= 104 && -TWO24 < m < TWO24 && f == Times(m as real, Pow2(e))
  }

  ghost predicate IsBinary32(f: real) {
    exists m, e :: Encodes(f, m, e)
  }

  function Abs(x: real): real {
    if x < 0.0 then -x else x
  }

  /** The exponent at which x has a 24-bit significand, or the smallest there is. */
  function Exponent(x: real, e: int): (r: int)
    requires 0.0 <= x < 16777216.0 && -149 <= e <= 0
    ensures e <= r <= 0 && x < 16777216.0 * Pow2(r)
    ensures r > e ==> 16777216.0 * Pow2(r - 1) <= x
    decreases -e
  {
    if x < 16777216.0 * Pow2(e) then e else Exponent(x, e + 1)
  }

  function RoundHalfEven(y: real): (r: int)
    requires y >= 0.0
  {
    var k := y.Floor;
    var d := y - k as real;
    if d < 0.5 || (d == 0.5 && k % 2 == 0) then k else k + 1
  }

  /** x in units of u. */
  function Scaled(x: real, u: real): (y: real)
    requires u > 0.0 && x >= 0.0
    ensures Times(y, u) == x && y >= 0.0
  {
    DivTimes(x, u);
    TimesSign(x / u, u);
    x / u
  }

  lemma {:induction false} DivTimes(x: real, u: real)
    requires u > 0.0
    ensures Times(x / u, u) == x
  {
  }

  lemma {:induction false} TimesSign(a: real, u: real)
    requires u > 0.0
    ensures a < 0.0 <==> Times(a, u) < 0.0
    ensures a > 0.0 <==> Times(a, u) > 0.0
  {
  }

  lemma {:induction false} TimesMinus(a: real, b: real, u: real)
    ensures Times(a - b, u) == Times(a, u) - Times(b, u)
  {
  }

  lemma {:induction false} TimesMono(a: real, b: real, u: real)
    requires u > 0.0
    ensures a <= b <==> Times(a, u) <= Times(b, u)
  {
    TimesMinus(a, b, u);
    TimesSign(a - b, u);
    hide Times;
  }

  lemma {:induction false} TimesAbs(a: real, u: real)
    requires u > 0.0
    ensures Abs(Times(a, u)) == Times(Abs(a), u)
  {
    TimesZero(u);
    TimesMinus(0.0, a, u);
    TimesSign(a, u);
    hide Times;
  }

  lemma {:induction false} TimesZero(u: real)
    ensures Times(0.0, u) == 0.0 && Times(1.0, u) == u
  {
  }

  /** x rounded to the nearest binary32 number. */
  function Round32(x: real): (f: real)
    requires 0.0 <= x < 16777216.0
  {
    var u := Pow2(Exponent(x, -149));
    Times(RoundHalfEven(Scaled(x, u)) as real, u)
  }

  predicate InRange(a: real, b: real) {
    0.0 <= a * b < 16777216.0
  }

  /** The binary32 product. */
  function Times32(a: real, b: real): (f: real)
    requires InRange(a, b)
  {
    Round32(a * b)
  }

  lemma {:induction false} RoundHalfEvenNearest(y: real, n: int)
    requires y >= 0.0
    ensures Abs(y - RoundHalfEven(y) as real) <= Abs(y - n as real)
  {
    var k := y.Floor;
    assert n <= k || n >= k + 1;
  }

  /** Distances compare the same in units of u. */
  lemma {:induction false} ScaleDistance(y: real, r: real, n: real, u: real)
    requires u > 0.0 && Abs(y - r) <= Abs(y - n)
    ensures Abs(Times(y, u) - Times(r, u)) <= Abs(Times(y, u) - Times(n, u))
  {
    hide Times, Abs;
    TimesMinus(y, r, u);
    TimesMinus(y, n, u);
    TimesAbs(y - r, u);
    TimesAbs(y - n, u);
    TimesMono(Abs(y - r), Abs(y - n), u);
  }

  lemma {:induction false} Pow2Shift(e: int, d: nat) returns (p: nat)
    ensures p > 0 && Pow2(e + d) == Times(p as real, Pow2(e))
    decreases d
  {
    hide Pow2, Times;
    if d == 0 {
      p := 1;
      TimesZero(Pow2(e));
    } else {
      var q := Pow2Shift(e, d - 1);
      Pow2Double(e + d - 1);
      p := 2 * q;
      TimesTwice(q as real, Pow2(e));
    }
  }

  lemma {:induction false} TimesTwice(a: real, u: real)
    ensures Times(2.0 * a, u) == 2.0 * Times(a, u)
  {
  }

  lemma {:induction false} Pow2Double(e: int)
    ensures Pow2(e + 1) == 2.0 * Pow2(e)
  {
  }

  lemma {:induction false} Pow2Monotone(a: int, b: int)
    requires a <= b
    ensures Pow2(a) <= Pow2(b)
    decreases b - a
  {
    hide Pow2;
    if a < b {
      Pow2Monotone(a, b - 1);
      Pow2Double(b - 1);
      assert b - 1 + 1 == b;
    }
  }

  /** No multiple of the rounding unit is closer. */
  lemma {:induction false} NearestMultiple(x: real, n: int)
    requires 0.0 <= x < 16777216.0
    ensures Abs(x - Round32(x)) <= Abs(x - Times(n as real, Pow2(Exponent(x, -149))))
  {
    hide Exponent, Pow2, RoundHalfEven, Scaled, Times, Abs;
    var u := Pow2(Exponent(x, -149));
    var y := Scaled(x, u);
    RoundHalfEvenNearest(y, n);
    ScaleDistance(y, RoundHalfEven(y) as real, n as real, u);
  }

  /** No binary32 number at all is closer. */
  lemma {:induction false} RoundIsNearest(x: real, g: real)
    requires 0.0 <= x < 16777216.0 && IsBinary32(g)
    ensures Abs(x - Round32(x)) <= Abs(x - g)
  {
    hide Round32, Abs, Pow2, Times;
    var m, e :| Encodes(g, m, e);
    NearestEncoded(x, g, m, e);
  }

  lemma {:induction false} NearestEncoded(x: real, g: real, m: int, e': int)
    requires 0.0 <= x < 16777216.0 && Encodes(g, m, e')
    ensures Abs(x - Round32(x)) <= Abs(x - g)
  {
    hide Pow2, Round32, Exponent, Times, Abs;
    var e := Exponent(x, -149);
    if e' >= e {
      var p := Pow2Shift(e, e' - e);
      assert e + (e' - e) == e';
      MulAssoc(m, p, Pow2(e));
      NearestMultiple(x, m * p);
    } else {
      CoarserBelow(x, g, m, e', e);
      NearestMultiple(x, TWO24 / 2);
      Farther(x, Times((TWO24 / 2) as real, Pow2(e)), g);
    }
  }

  lemma {:induction false} Farther(x: real, c: real, g: real)
    requires g <= c <= x
    ensures Abs(x - c) <= Abs(x - g)
  {
  }

  /** A number with a smaller exponent than x lies below a multiple of the rounding unit of x
      that is itself at most x. */
  lemma {:induction false} CoarserBelow(x: real, g: real, m: int, e': int, e: int)
    requires 0.0 <= x < 16777216.0 && Encodes(g, m, e') && e == Exponent(x, -149) && e' < e
    ensures g <= Times((TWO24 / 2) as real, Pow2(e)) <= x
  {
    hide Pow2, Exponent, Times;
    Pow2Double(e - 1);
    assert e - 1 + 1 == e;
    Pow2Monotone(e', e - 1);
    SignificandBound(m, Pow2(e'));
    HalfSignificand(Pow2(e));
  }

  lemma {:induction false} SignificandBound(m: int, u: real)
    requires m < TWO24 && u > 0.0
    ensures Times(m as real, u) <= 16777216.0 * u
  {
    TimesMono(m as real, 16777216.0, u);
  }

  lemma {:induction false} HalfSignificand(u: real)
    ensures Times((TWO24 / 2) as real, u) == 8388608.0 * u
  {
    assert (TWO24 / 2) as real == 8388608.0;
  }

  lemma {:induction false} MulAssoc(m: int, p: nat, u: real)
    ensures Times(m as real, Times(p as real, u)) == Times((m * p) as real, u)
  {
    assert (m * p) as real == m as real * p as real;
  }

  /** The result of rounding is itself a binary32 number. */
  lemma {:induction false} RoundIsBinary32(x: real)
    requires 0.0 <= x < 16777216.0
    ensures IsBinary32(Round32(x))
  {
    hide Pow2, RoundHalfEven, Scaled, IsBinary32, Times, Exponent;
    var e := Exponent(x, -149);
    var y := Scaled(x, Pow2(e));
    ScaledBound(x, y, Pow2(e));
    RoundedBound(y);
    Representable(RoundHalfEven(y), e);
  }

  lemma {:induction false} RoundedBound(y: real)
    requires 0.0 <= y < 16777216.0
    ensures 0 <= RoundHalfEven(y) <= TWO24
  {
  }

  lemma {:induction false} Representable(r: nat, e: int)
    requires r <= TWO24 && -149 <= e <= 0
    ensures IsBinary32(Times(r as real, Pow2(e)))
  {
    hide Pow2;
    if r < TWO24 {
      assert Encodes(Times(r as real, Pow2(e)), r, e);
    } else {
      Pow2Double(e);
      HalfSignificand(Pow2(e + 1));
      assert r as real == 16777216.0;
      assert Encodes(Times(r as real, Pow2(e)), TWO24 / 2, e + 1);
    }
  }

  lemma {:induction false} ScaledBound(x: real, y: real, u: real)
    requires u > 0.0 && Times(y, u) == x < 16777216.0 * u
    ensures y < 16777216.0
  {
    TimesMono(16777216.0, y, u);
  }

  /** Half-way between two multiples of the rounding unit, the even one is taken. */
  lemma {:induction false} TiesToEven(x: real, k: nat)
    requires 0.0 <= x < 16777216.0
    requires x == Times(k as real + 0.5, Pow2(Exponent(x, -149)))
    ensures Round32(x) == Times((if k % 2 == 0 then k else k + 1) as real, Pow2(Exponent(x, -149)))
  {
    hide Exponent, Pow2, Scaled, Times;
    var u := Pow2(Exponent(x, -149));
    TimesMono(Scaled(x, u), k as real + 0.5, u);
    TimesMono(k as real + 0.5, Scaled(x, u), u);
    HalfToEven(k);
  }

  lemma {:induction false} HalfToEven(k: nat)
    ensures RoundHalfEven(k as real + 0.5) == if k % 2 == 0 then k else k + 1
  {
  }

  /** Integers below 2^24 are exact. */
  lemma {:induction false} IntegersExact(n: nat)
    requires n < TWO24
    ensures IsBinary32(n as real) && Round32(n as real) == n as real
  {
    hide Round32;
    TimesOne(n as real);
    assert Encodes(n as real, n, 0);
    RoundIsNearest(n as real, n as real);
  }

  lemma {:induction false} TimesOne(a: real)
    ensures Times(a, Pow2(0)) == a
  {
  }

  /** std::ceil. */
  function Ceil(x: real): (c: int)
    ensures (c - 1) as real < x <= c as real
  {
    -((-x).Floor)
  }

  /** The quotient of integers below 2^16 and 2^8, rounded to binary32 and then up, is the
      integer ceiling of the exact quotient: rounding never crosses an integer. */
  lemma {:induction false} RoundedCeil(w: nat, p: nat)
    requires w < 0x1_0000 && 1 <= p <= 255
    ensures 0.0 <= w as real / p as real < 16777216.0
    ensures Ceil(Round32(w as real / p as real)) == (w + p - 1) / p
  {
    hide Round32;
    var k, r := w / p, w % p;
    QuotientParts(w, p);
    if r == 0 {
      ModUnique(w + p - 1, p, k, p - 1);
      IntegersExact(k);
    } else {
      ModUnique(w + p - 1, p, k + 1, r - 1);
      BetweenIntegers(k, w as real / p as real);
    }
  }

  /** Rounding a number that is at least 1/255 above an integer and below the next one stays
      above the first and does not pass the second: there are binary32 numbers closer. */
  lemma {:induction false} BetweenIntegers(k: nat, x: real)
    requires k < 0x1_0000 && k as real + 0.00390625 < x < (k + 1) as real
    ensures k as real < Round32(x) <= (k + 1) as real
  {
    hide Round32;
    var g := k as real + 0.00390625;
    SmallPow2();
    assert Encodes(g, 256 * k + 1, -8);
    RoundIsNearest(x, g);
    IntegersExact(k + 1);
    RoundIsNearest(x, (k + 1) as real);
  }

  lemma {:induction false} QuotientParts(w: nat, p: nat)
    requires 1 <= p <= 255
    ensures var x, k := w as real / p as real, w / p;
            && 0 <= k <= w && w == p * k + w % p && k as real <= x <= w as real
            && (w % p == 0 ==> x == k as real)
            && (w % p != 0 ==> k as real + 0.00390625 < x < (k + 1) as real)
  {
    hide Times;
    var x, k, r, u := w as real / p as real, w / p, w % p, p as real;
    DivTimes(w as real, u);
    TimesMinus(x, k as real, u);
    TimesWhole(k, p, w - r);
    Fraction(x - k as real, r, p);
    TimesWhole(w, p, w * p);
    AtLeastOnce(w, p);
    TimesMono(x, w as real, u);
    ModUnique(w, p, k, r);
    AtLeastOnce(k, p);
  }

  lemma {:induction false} AtLeastOnce(k: nat, p: nat)
    requires p >= 1
    ensures k * p >= k
  {
  }

  lemma {:induction false} TimesWhole(k: int, p: int, kp: int)
    requires kp == k * p
    ensures Times(k as real, p as real) == kp as real
  {
  }

  lemma {:induction false} Fraction(d: real, r: nat, p: nat)
    requires r < p <= 255 && Times(d, p as real) == r as real
    ensures (r == 0 ==> d == 0.0) && d >= 0.0
    ensures r != 0 ==> 0.00390625 < d < 1.0
  {
    hide Times;
    var u := p as real;
    TimesSign(d, u);
    TimesZero(u);
    TimesMono(1.0, d, u);
    TimesMono(d, 0.00390625, u);
    SmallPart(u);
  }

  lemma {:induction false} SmallPart(u: real)
    ensures Times(0.00390625, u) == 0.00390625 * u
  {
  }

  lemma {:induction false} SmallPow2()
    ensures Pow2(-8) == 0.00390625
  {
    assert Pow2(-2) == 0.25;
    assert Pow2(-4) == 0.0625;
    assert Pow2(-6) == 0.015625;
  }
}
