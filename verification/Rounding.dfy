/** Rounding of exact non-negative rationals to 53 significant bits, to nearest, ties to
    even: what a big.Float made by NewFloat does after every operation. */
module Rounding {

  const LO: int := 0x10_0000_0000_0000  // 2^52
  const HI: int := 0x20_0000_0000_0000  // 2^53

  // Half a unit in the last place, relative to the value: 2^-53
  const ULP: real := 1.0 / 9007199254740992.0

  /** The nearest integer, the even one when two are equally near. */
  function Nearest(x: real): (n: int)
    ensures -0.5 <= n as real - x <= 0.5
    ensures (n as real - x == 0.5 || n as real - x == -0.5) ==> n % 2 == 0
  {
    var f := x.Floor;
    var r := x - f as real;
    if r < 0.5 || (r == 0.5 && f % 2 == 0) then f else f + 1
  }

  function Magnitude(x: real): nat
    requires x > 0.0
  {
    if x >= HI as real then x.Floor else if x < LO as real then (HI as real / x).Floor else 0
  }

  lemma HalvingShrinks(x: real)
    requires x > 0.0
    ensures x >= HI as real ==> Magnitude(x / 2.0) < Magnitude(x)
    ensures x < LO as real ==> Magnitude(2.0 * x) < Magnitude(x)
  {
    if x < LO as real {
      var w := HI as real / x;
      assert w * x == HI as real;
      assert w > 2.0;
      assert HI as real / (2.0 * x) == w / 2.0;
    }
  }

  /** Scale into [2^52, 2^53), round there, scale back. */
  function Round(x: real): (r: real)
    requires x >= 0.0
    ensures r >= 0.0
    decreases x > 0.0, if x > 0.0 then Magnitude(x) else 0
  {
    if x == 0.0 then 0.0
    else
      HalvingShrinks(x);
      if x >= HI as real then 2.0 * Round(x / 2.0)
      else if x < LO as real then Round(2.0 * x) / 2.0
      else Nearest(x) as real
  }

  // ----- the error is relative -----

  lemma {:induction false} RelativeError(x: real)
    requires x >= 0.0
    ensures x * (1.0 - ULP) <= Round(x) <= x * (1.0 + ULP)
    decreases x > 0.0, if x > 0.0 then Magnitude(x) else 0
  {
    if x > 0.0 {
      HalvingShrinks(x);
      if x >= HI as real {
        RelativeError(x / 2.0);
      } else if x < LO as real {
        RelativeError(2.0 * x);
      }
    }
  }

  // ----- rounding is monotone -----

  lemma {:induction false} RoundAtLeastLo(x: real)
    requires x >= LO as real
    ensures Round(x) >= LO as real
    ensures x >= HI as real ==> Round(x) >= HI as real
    decreases Magnitude(x)
  {
    HalvingShrinks(x);
    if x >= HI as real {
      RoundAtLeastLo(x / 2.0);
    }
  }

  lemma {:induction false} RoundAtMostHi(x: real)
    requires 0.0 <= x < HI as real
    ensures Round(x) <= HI as real
    ensures x < LO as real ==> Round(x) <= LO as real
    decreases x > 0.0, if x > 0.0 then Magnitude(x) else 0
  {
    if 0.0 < x < LO as real {
      HalvingShrinks(x);
      RoundAtMostHi(2.0 * x);
    }
  }

  lemma {:induction false} RoundMonotone(x: real, y: real)
    requires 0.0 <= x <= y
    ensures Round(x) <= Round(y)
    decreases x > 0.0, if x > 0.0 then Magnitude(x) else 0
  {
    if x > 0.0 {
      HalvingShrinks(x);
      if x >= HI as real {
        RoundMonotone(x / 2.0, y / 2.0);
      } else if y < LO as real {
        RoundMonotone(2.0 * x, 2.0 * y);
      } else {
        RoundAtMostHi(x);
        RoundAtLeastLo(y);
        if LO as real <= x && y < HI as real {
          NearestMonotone(x, y);
        }
      }
    }
  }

  lemma NearestMonotone(x: real, y: real)
    requires x <= y
    ensures Nearest(x) <= Nearest(y)
  {
  }

  // ----- and it is the nearest float, by a definition that does not mention rounding -----

  function Pow2(e: int): (p: real)
    ensures p > 0.0
    decreases if e < 0 then -e else e
  {
    if e == 0 then 1.0 else if e > 0 then 2.0 * Pow2(e - 1) else Pow2(e + 1) / 2.0
  }

  /** y is mantissa * 2^exponent with at most 53 bits of mantissa. */
  ghost predicate HasMantissa(y: real, m: nat, e: int) {
    m <= HI && y == m as real * Pow2(e)
  }

  ghost predicate IsFloat(y: real) {
    exists m: nat, e: int :: HasMantissa(y, m, e)
  }

  ghost predicate IsEvenFloat(y: real) {
    exists m: nat, e: int :: HasMantissa(y, m, e) && m % 2 == 0
  }

  function Distance(x: real, y: real): real {
    if x <= y then y - x else x - y
  }

  lemma HalfMantissa(y: real, m: nat, e: int)
    requires HasMantissa(y, m, e)
    ensures HasMantissa(y / 2.0, m, e - 1) && HasMantissa(2.0 * y, m, e + 1)
  {
    assert Pow2(e + 1) == 2.0 * Pow2(e) && Pow2(e - 1) == Pow2(e) / 2.0;
  }

  lemma {:induction false} SmallExponent(e: int)
    requires e < 0
    ensures Pow2(e) <= 0.5
    decreases -e
  {
    if e < -1 { SmallExponent(e + 1); } else { assert Pow2(0) == 1.0; }
  }

  lemma {:induction false} WholeProduct(m: nat, e: int, y: real)
    requires e >= 0 && y == m as real * Pow2(e)
    ensures y == y.Floor as real
    decreases e
  {
    if e > 0 {
      WholeProduct(m, e - 1, m as real * Pow2(e - 1));
      var half := m as real * Pow2(e - 1);
      assert y == 2.0 * half;
      assert y == (2 * half.Floor) as real;
    }
  }

  /** A float is a whole number, or no larger than 2^52. */
  lemma FloatIsWholeOrSmall(y: real, m: nat, e: int)
    requires HasMantissa(y, m, e)
    ensures y <= LO as real || y == y.Floor as real
  {
    if e >= 0 {
      WholeProduct(m, e, y);
    } else {
      SmallExponent(e);
      ProductAtMost(m as real, HI as real, Pow2(e), 0.5);
    }
  }

  lemma ProductAtMost(a: real, b: real, c: real, d: real)
    requires 0.0 <= a <= b && 0.0 <= c <= d
    ensures a * c <= b * d
  {
    assert a * c <= a * d;
  }

  lemma {:induction false} RoundIsFloat(x: real) returns (m: nat, e: int)
    requires x >= 0.0
    ensures HasMantissa(Round(x), m, e)
    decreases x > 0.0, if x > 0.0 then Magnitude(x) else 0
  {
    if x == 0.0 {
      m, e := 0, 0;
    } else {
      HalvingShrinks(x);
      if x >= HI as real {
        m, e := RoundIsFloat(x / 2.0);
        HalfMantissa(Round(x / 2.0), m, e);
        e := e + 1;
      } else if x < LO as real {
        m, e := RoundIsFloat(2.0 * x);
        HalfMantissa(Round(2.0 * x), m, e);
        e := e - 1;
      } else {
        m, e := Nearest(x), 0;
      }
    }
  }

  /** No float lies nearer to x than Round(x); when another lies as near, Round(x) is the
      one with the even mantissa. */
  lemma {:induction false} RoundIsNearest(x: real, y: real)
    requires x >= 0.0 && IsFloat(y)
    ensures Distance(Round(x), x) <= Distance(y, x)
    ensures Distance(Round(x), x) == Distance(y, x) ==> y == Round(x) || IsEvenFloat(Round(x))
    decreases x > 0.0, if x > 0.0 then Magnitude(x) else 0
  {
    var m, e :| HasMantissa(y, m, e);
    if x > 0.0 {
      HalvingShrinks(x);
      if x >= HI as real {
        HalfMantissa(y, m, e);
        RoundIsNearest(x / 2.0, y / 2.0);
        EvenScaled(Round(x / 2.0));
      } else if x < LO as real {
        HalfMantissa(y, m, e);
        RoundIsNearest(2.0 * x, 2.0 * y);
        EvenScaled(Round(2.0 * x));
      } else {
        FloatIsWholeOrSmall(y, m, e);
        NearestIsNearest(x, if y <= LO as real then LO else y.Floor);
        if Nearest(x) % 2 == 0 { assert HasMantissa(Round(x), Nearest(x), 0); }
      }
    }
  }

  lemma EvenScaled(y: real)
    ensures IsEvenFloat(y) ==> IsEvenFloat(2.0 * y) && IsEvenFloat(y / 2.0)
  {
    if m: nat, e: int :| HasMantissa(y, m, e) && m % 2 == 0 {
      HalfMantissa(y, m, e);
    }
  }

  lemma NearestIsNearest(x: real, n: int)
    ensures Distance(Nearest(x) as real, x) <= Distance(n as real, x)
    ensures Distance(Nearest(x) as real, x) == Distance(n as real, x) ==> n == Nearest(x) || Nearest(x) % 2 == 0
  {
  }

  /** The values that rounding leaves alone are exactly the floats. */
  lemma FixedIffFloat(y: real)
    requires y >= 0.0
    ensures Round(y) == y <==> IsFloat(y)
  {
    var m, e := RoundIsFloat(y);
    if IsFloat(y) {
      RoundIsNearest(y, y);
    }
  }

  lemma WholeNumberIsFixed(n: nat)
    requires n <= HI
    ensures Round(n as real) == n as real
  {
    assert HasMantissa(n as real, n, 0);
    FixedIffFloat(n as real);
  }

  /** A whole number rounds to a whole number. */
  lemma RoundOfWhole(n: nat)
    ensures Round(n as real) == Round(n as real).Floor as real
  {
    if n <= HI {
      WholeNumberIsFixed(n);
    } else {
      RoundAtLeastLo(n as real);
      var m, e := RoundIsFloat(n as real);
      FloatIsWholeOrSmall(Round(n as real), m, e);
    }
  }

  // ----- evaluating a rounding -----

  lemma RoundDoubles(x: real)
    requires x >= 0.0
    ensures Round(2.0 * x) == 2.0 * Round(x)
  {
    if x > 0.0 {
      HalvingShrinks(x);
      HalvingShrinks(2.0 * x);
      assert 2.0 * x / 2.0 == x;
    }
  }

  function Scaled(y: real, e: int): real
    decreases if e < 0 then -e else e
  {
    if e == 0 then y else if e > 0 then 2.0 * Scaled(y, e - 1) else Scaled(y, e + 1) / 2.0
  }

  lemma Doubled(y: real, p: real, q: real)
    requires q == 2.0 * p
    ensures y * q == 2.0 * (y * p)
  {
  }

  lemma {:induction false} ScaledIs(y: real, e: int)
    ensures Scaled(y, e) == y * Pow2(e)
    decreases if e < 0 then -e else e
  {
    if e > 0 {
      ScaledIs(y, e - 1);
      Doubled(y, Pow2(e - 1), Pow2(e));
    } else if e < 0 {
      ScaledIs(y, e + 1);
      Doubled(y, Pow2(e), Pow2(e + 1));
    }
  }

  /** Rounding commutes with scaling by a power of two. */
  lemma {:induction false} RoundScaled(y: real, e: int)
    requires y >= 0.0
    ensures Scaled(y, e) >= 0.0 && Round(Scaled(y, e)) == Scaled(Round(y), e)
    decreases if e < 0 then -e else e
  {
    if e > 0 {
      RoundScaled(y, e - 1);
      RoundDoubles(Scaled(y, e - 1));
    } else if e < 0 {
      RoundScaled(y, e + 1);
      RoundDoubles(Scaled(y, e));
      assert 2.0 * Scaled(y, e) == Scaled(y, e + 1);
    }
  }

  lemma {:induction false} Pow2Sum(m: int, n: int)
    requires m <= 0 && n <= 0
    ensures Pow2(m + n) == Pow2(m) * Pow2(n)
    decreases -m
  {
    if m < 0 {
      Pow2Sum(m + 1, n);
      assert Pow2(m + n) == Pow2(m + 1 + n) / 2.0 && Pow2(m) == Pow2(m + 1) / 2.0;
    }
  }

  lemma RoundWithin(y: real, m: int)
    requires LO as real <= y < HI as real && -0.5 < y - m as real < 0.5
    ensures Round(y) == m as real
  {
    assert Nearest(y) == m;
  }

  /** y units of 2^e, when y has 53 bits before the point and m is the nearest integer. */
  lemma RoundAt(y: real, e: int, m: int)
    requires LO as real <= y < HI as real && -0.5 < y - m as real < 0.5
    ensures Scaled(y, e) >= 0.0 && Round(Scaled(y, e)) == Scaled(m as real, e)
  {
    RoundWithin(y, m);
    RoundScaled(y, e);
  }
}
