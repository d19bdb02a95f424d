/** Rescaling an amount from one token's decimals to another's (converter/currency.go). */
module Currency {
  import opened Rounding
  import Decimal

  function Pow10(n: nat): (p: nat)
    ensures p >= 1
  {
    if n == 0 then 1 else 10 * Pow10(n - 1)
  }

  function Divide(x: real, k: nat): (q: real)
    requires x >= 0.0 && k >= 1
    ensures q >= 0.0 && q * k as real == x
  {
    x / k as real
  }

  function Multiply(x: real, k: nat): (p: real)
    requires x >= 0.0
    ensures p >= 0.0
  {
    x * k as real
  }

  function Scale(x: real, from: nat, to: nat): (p: real)
    requires x >= 0.0 && from >= 1
    ensures p >= 0.0
  {
    Round(Multiply(Round(Divide(x, from)), to))
  }

  /** Parse, quotient and product are each rounded. */
  function Rescale(amount: nat, from: nat, to: nat): (p: real)
    requires from >= 1
    ensures p >= 0.0
  {
    Scale(Round(amount as real), from, to)
  }

  /** The result is cut to a whole number. */
  function Convert(amount: nat, fromDecimals: nat, toDecimals: nat): (r: nat) {
    Rescale(amount, Pow10(fromDecimals), Pow10(toDecimals)).Floor
  }

  function ExactRescale(amount: nat, from: nat, to: nat): (p: real)
    requires from >= 1
    ensures p >= 0.0
  {
    Divide(Multiply(amount as real, to), from)
  }

  function Exact(amount: nat, fromDecimals: nat, toDecimals: nat): real {
    ExactRescale(amount, Pow10(fromDecimals), Pow10(toDecimals))
  }

  type UInt8 = n: nat | n < 256

  /** The *big.Float the program updates in place. */
  class BigFloat {
    var value: real

    constructor ()
      ensures value == 0.0
    {
      value := 0.0;
    }

    method SetString(amount: string)
      requires Decimal.IsNumeral(amount)
      modifies this
      ensures value == Round(Decimal.Parse(amount) as real)
    {
      value := Round(Decimal.Parse(amount) as real);
    }

    method Quo(divisor: nat)
      requires divisor >= 1 && value >= 0.0
      modifies this
      ensures value == Round(Divide(old(value), divisor))
    {
      value := Round(Divide(value, divisor));
    }

    method Mul(factor: nat)
      requires value >= 0.0
      modifies this
      ensures value == Round(Multiply(old(value), factor))
    {
      value := Round(Multiply(value, factor));
    }
  }

  /** big.Int's Exp without a modulus, at base ten. */
  method Exp10(exponent: nat) returns (power: nat)
    ensures power == Pow10(exponent)
  {
    power := 1;
    for i := 0 to exponent
      invariant power == Pow10(i)
    {
      power := 10 * power;
    }
  }

  method ConvertStrAmount(amount: string, fromDecimals: UInt8, toDecimals: UInt8) returns (result: string)
    requires Decimal.IsNumeral(amount)
    ensures Decimal.IsNumeral(result) && (|result| > 1 ==> result[0] != '0')
    ensures Decimal.Parse(result) == Convert(Decimal.Parse(amount), fromDecimals, toDecimals)
  {
    var bigAmount := new BigFloat();
    bigAmount.SetString(amount);
    var fromBase := Exp10(fromDecimals);
    var toBase := Exp10(toDecimals);
    bigAmount.Quo(fromBase);
    bigAmount.Mul(toBase);
    assert bigAmount.value == Rescale(Decimal.Parse(amount), fromBase, toBase);
    var bigIntAmount := bigAmount.value.Floor;
    result := Decimal.Itoa(bigIntAmount);
    Decimal.ParseItoa(bigIntAmount);
  }

  // ----- how far the result is from amount * 10^to / 10^from -----

  // 9007199254740992 is 2^53, the reciprocal of half a unit in the last place.

  /** y is x after one, two or three roundings; two of them cost at most a relative
      2^-52 + 2^-106. */
  ghost predicate One(x: real, y: real) { -x <= (y - x) * 9007199254740992.0 <= x }
  ghost predicate Two(x: real, y: real) {
    -x * 18014398509481985.0 <= (y - x) * 81129638414606681695789005144064.0 <= x * 18014398509481985.0
  }
  ghost predicate Three(x: real, y: real) { -3.002 * x <= (y - x) * 9007199254740992.0 <= 3.002 * x }

  lemma RoundOnce(x: real)
    requires x >= 0.0
    ensures One(x, Round(x))
  {
    RelativeError(x);
  }

  lemma OneAndOne(x: real, y: real, z: real)
    requires x >= 0.0 && One(x, y) && One(y, z)
    ensures Two(x, z)
  {
  }

  lemma OneAndTwo(x: real, y: real, z: real)
    requires x >= 0.0 && One(x, y) && Two(y, z)
    ensures Three(x, z)
  {
  }

  lemma Times(x: real, y: real, k: real)
    requires x <= y && k >= 0.0
    ensures x * k <= y * k
  {
  }

  lemma TimesEqual(x: real, y: real, k: real, xk: real, yk: real)
    requires x <= y && k >= 0.0 && xk == x * k && yk == y * k
    ensures xk <= yk
  {
    Times(x, y, k);
  }

  lemma Cancel(x: real, y: real, k: real)
    requires x * k <= y * k && k > 0.0
    ensures x <= y
  {
  }

  /** Relative closeness survives scaling by to / from. */
  lemma ScaleOne(x: real, y: real, to: real, from: real, u: real, v: real)
    requires One(x, y) && to >= 0.0 && from > 0.0
    requires u * from == x * to && v * from == y * to
    ensures One(u, v)
  {
    Times(-x, (y - x) * 9007199254740992.0, to);
    Times((y - x) * 9007199254740992.0, x, to);
    assert (v - u) * 9007199254740992.0 * from == (y - x) * 9007199254740992.0 * to;
    Cancel(-u, (v - u) * 9007199254740992.0, from);
    Cancel((v - u) * 9007199254740992.0, u, from);
  }

  /** Quotient and product against the exactly scaled input w. */
  lemma QuotientAndProduct(x: real, from: nat, to: nat, w: real)
    requires x >= 0.0 && from >= 1 && to >= 1
    requires w * from as real == x * to as real
    ensures Two(w, Scale(x, from, to))
  {
    var d, f, t := Divide(x, from), from as real, to as real;
    var q := Round(d);
    RoundOnce(d);
    Rounded(x, f, t, w, d, q);
    var p := Multiply(q, to);
    assert p == q * t;
    RoundOnce(p);
    OneAndOne(w, p, Round(p));
  }

  lemma Rounded(x: real, from: real, to: real, w: real, d: real, q: real)
    requires x >= 0.0 && from >= 1.0 && to >= 1.0
    requires w * from == x * to && d * from == x && One(d, q)
    ensures One(w, q * to) && w >= 0.0
  {
    assert d * to * from == w * from;
    Cancel(d * to, w, from);
    Cancel(w, d * to, from);
    ScaleOne(d, q, to, 1.0, w, q * to);
    Times(0.0, x, to);
    Cancel(0.0, w, from);
  }

  lemma CancelEqual(x: real, y: real, k: real, xk: real, yk: real)
    requires x * k == xk && y * k == yk && xk <= yk && k > 0.0
    ensures x <= y
  {
    Cancel(x, y, k);
  }

  lemma ExactEquation(amount: nat, from: nat, to: nat)
    requires from >= 1
    ensures ExactRescale(amount, from, to) * from as real == amount as real * to as real
  {
    assert Multiply(amount as real, to) == amount as real * to as real;
  }

  lemma RescaleNear(amount: nat, from: nat, to: nat)
    requires from >= 1 && to >= 1
    ensures Three(ExactRescale(amount, from, to), Rescale(amount, from, to))
  {
    var a, f, t := amount as real, from as real, to as real;
    var parsed := Round(a);
    var scaled := Multiply(parsed, to);
    var exact, w := ExactRescale(amount, from, to), Divide(scaled, from);
    assert w * f == parsed * t by { assert scaled == parsed * t; }
    ExactEquation(amount, from, to);
    RoundOnce(a);
    ScaleOne(a, parsed, t, f, exact, w);
    QuotientAndProduct(parsed, from, to, w);
    OneAndTwo(exact, w, Rescale(amount, from, to));
  }

  /** Within 2^-51 of the exact value, relatively, and below it by less than the one more
      unit that truncation takes. */
  ghost predicate Close(result: nat, exact: real) {
    exact - exact * (4.0 / 9007199254740992.0) - 1.0 < result as real <= exact + exact * (4.0 / 9007199254740992.0)
  }

  /** For every amount and all decimals. */
  lemma ConvertError(amount: nat, fromDecimals: nat, toDecimals: nat)
    ensures Close(Convert(amount, fromDecimals, toDecimals), Exact(amount, fromDecimals, toDecimals))
  {
    var from, to := Pow10(fromDecimals), Pow10(toDecimals);
    RescaleNear(amount, from, to);
    Truncated(ExactRescale(amount, from, to), Rescale(amount, from, to));
  }

  lemma Truncated(exact: real, p: real)
    requires exact >= 0.0 && p >= 0.0 && Three(exact, p)
    ensures Close(p.Floor, exact)
  {
  }

  lemma ConvertMonotone(smaller: nat, larger: nat, fromDecimals: nat, toDecimals: nat)
    requires smaller <= larger
    ensures Convert(smaller, fromDecimals, toDecimals) <= Convert(larger, fromDecimals, toDecimals)
  {
    RescaleMonotone(smaller, larger, Pow10(fromDecimals), Pow10(toDecimals));
  }

  lemma RescaleMonotone(smaller: nat, larger: nat, from: nat, to: nat)
    requires smaller <= larger && from >= 1
    ensures Rescale(smaller, from, to) <= Rescale(larger, from, to)
  {
    var x, y := Round(smaller as real), Round(larger as real);
    RoundMonotone(smaller as real, larger as real);
    QuotientMonotone(x, y, from);
    ProductMonotone(Round(Divide(x, from)), Round(Divide(y, from)), to);
  }

  lemma QuotientMonotone(x: real, y: real, from: nat)
    requires 0.0 <= x <= y && from >= 1
    ensures Round(Divide(x, from)) <= Round(Divide(y, from))
  {
    CancelEqual(Divide(x, from), Divide(y, from), from as real, x, y);
    RoundMonotone(Divide(x, from), Divide(y, from));
  }

  lemma ProductMonotone(x: real, y: real, to: nat)
    requires 0.0 <= x <= y
    ensures Round(Multiply(x, to)) <= Round(Multiply(y, to))
  {
    var c, d := Multiply(x, to), Multiply(y, to);
    TimesEqual(x, y, to as real, c, d);
    RoundMonotone(c, d);
  }

  // ----- there and back -----

  lemma {:induction false} Pow10Grows(d: nat, e: nat)
    requires d < e
    ensures 10 * Pow10(d) <= Pow10(e)
  {
    if d + 1 < e { Pow10Grows(d, e - 1); }
  }

  /** To more decimals and back: below 2^51 nothing is ever gained and at most one unit is
      lost. */
  lemma RoundTrip(amount: nat, d: nat, e: nat)
    requires d < e && amount < 0x8_0000_0000_0000  // 2^51
    ensures var back := Convert(Convert(amount, d, e), e, d);
      back == amount || back == amount - 1
  {
    Pow10Grows(d, e);
    ThereAndBack(amount, Pow10(d), Pow10(e));
  }

  lemma ThereAndBack(amount: nat, small: nat, big: nat)
    requires small >= 1 && 10 * small <= big && amount < 0x8_0000_0000_0000
    ensures var up := Rescale(amount, small, big).Floor;
      amount as real - 1.0 < Rescale(up, big, small) < amount as real + 1.0
  {
    if amount < 0x4_0000_0000_0000 {
      SmallThereAndBack(amount, small, big);
    } else {
      WholeThereAndBack(amount, small, big);
    }
  }

  // Below 2^50 five roundings and a truncation stay under one unit.

  lemma SmallThereAndBack(amount: nat, small: nat, big: nat)
    requires small >= 1 && 10 * small <= big && amount < 0x4_0000_0000_0000
    ensures var up := Rescale(amount, small, big).Floor;
      amount as real - 1.0 < Rescale(up, big, small) < amount as real + 1.0
  {
    var up := Rescale(amount, small, big).Floor;
    Unlosing(amount, small, big);
    RescaleNear(up, big, small);
    FiveRoundings(amount as real, ExactRescale(up, big, small), Rescale(up, big, small));
  }

  ghost predicate Unlost(a: real, w: real) {
    (w - a) * 9007199254740992.0 <= 2.001 * a && (a - w) * 9007199254740992.0 <= 2.001 * a + 900719925474099.2
  }

  lemma Unlosing(amount: nat, small: nat, big: nat)
    requires small >= 1 && 10 * small <= big && amount < 0x4_0000_0000_0000
    ensures Unlost(amount as real, ExactRescale(Rescale(amount, small, big).Floor, big, small))
  {
    var exact := ExactRescale(amount, small, big);
    ExactEquation(amount, small, big);
    ParsedExactly(amount, small, big, exact);
    There(amount, small, big, exact, Rescale(amount, small, big));
  }

  /** A whole number of at most 53 bits is parsed exactly. */
  lemma ParsedExactly(amount: nat, small: nat, big: nat, w: real)
    requires small >= 1 && big >= 1 && amount <= HI
    requires w * small as real == amount as real * big as real
    ensures Two(w, Rescale(amount, small, big))
  {
    WholeNumberIsFixed(amount);
    QuotientAndProduct(amount as real, small, big, w);
  }

  lemma There(a: nat, small: nat, big: nat, v: real, p: real)
    requires small >= 1 && 10 * small <= big && p >= 0.0 && v >= 0.0
    requires v * small as real == a as real * big as real && Two(v, p)
    ensures Unlost(a as real, ExactRescale(p.Floor, big, small))
  {
    var up := p.Floor;
    ExactEquation(up, big, small);
    Home(a as real, small as real, big as real, v, p, up as real, ExactRescale(up, big, small));
  }

  /** The unrounded way back from the truncated intermediate amount. */
  lemma Home(a: real, small: real, big: real, v: real, p: real, up: real, w: real)
    requires a >= 0.0 && small >= 1.0 && 10.0 * small <= big && v >= 0.0
    requires v * small == a * big && Two(v, p) && p - 1.0 <= up <= p && w * big == up * small
    ensures Unlost(a, w)
  {
    Times(up * 9007199254740992.0, (v + v * (2.001 / 9007199254740992.0)) * 9007199254740992.0, small);
    Times((v - v * (2.001 / 9007199254740992.0) - 1.0) * 9007199254740992.0, up * 9007199254740992.0, small);
    assert (v * 9007199254740992.0 + v * 2.001) * small == (v * small) * 9007199254740992.0 + (v * small) * 2.001;
    assert up * 9007199254740992.0 * small <= (a * 9007199254740992.0 + a * 2.001) * big;
    Cancel(w * 9007199254740992.0, a * 9007199254740992.0 + a * 2.001, big);
    assert (v * 9007199254740992.0 - v * 2.001 - 9007199254740992.0) * small ==
      (v * small) * 9007199254740992.0 - (v * small) * 2.001 - 9007199254740992.0 * small;
    assert up * 9007199254740992.0 * small >= (a * 9007199254740992.0 - a * 2.001 - 0.1 * 9007199254740992.0) * big;
    Cancel(a * 9007199254740992.0 - a * 2.001 - 0.1 * 9007199254740992.0, w * 9007199254740992.0, big);
  }

  lemma FiveRoundings(a: real, w: real, p: real)
    requires 0.0 <= a < 1125899906842624.0
    requires Unlost(a, w) && Three(w, p)
    ensures a - 1.0 < p < a + 1.0
  {
  }

  // From 2^50 on the intermediate amount is whole before it is truncated and parsed, which
  // leaves four roundings.

  lemma ScaleTwo(x: real, y: real, to: real, from: real, u: real, v: real)
    requires Two(x, y) && to >= 0.0 && from > 0.0
    requires u * from == x * to && v * from == y * to
    ensures Two(u, v)
  {
    Times(-x * 18014398509481985.0, (y - x) * 81129638414606681695789005144064.0, to);
    Times((y - x) * 81129638414606681695789005144064.0, x * 18014398509481985.0, to);
    assert (v - u) * 81129638414606681695789005144064.0 * from == (y - x) * 81129638414606681695789005144064.0 * to;
    Cancel(-u * 18014398509481985.0, (v - u) * 81129638414606681695789005144064.0, from);
    Cancel((v - u) * 81129638414606681695789005144064.0, u * 18014398509481985.0, from);
  }

  lemma AtLeastTenfold(a: real, small: real, big: real, exact: real)
    requires a >= 0.0 && small >= 1.0 && 10.0 * small <= big && exact * small == a * big
    ensures exact >= 10.0 * a
  {
    Times(10.0 * small, big, a);
    assert 10.0 * small * a == 10.0 * a * small;
    Cancel(10.0 * a, exact, small);
  }

  /** A rounded value above 2^52 is whole, and parsing it changes nothing. */
  lemma RoundedIsWhole(x: real)
    requires x >= 0.0 && Round(x) > LO as real
    ensures Round(x) == Round(x).Floor as real && Round(Round(x)) == Round(x)
  {
    var m, e := RoundIsFloat(x);
    FloatIsWholeOrSmall(Round(x), m, e);
    RoundTwice(x);
  }

  lemma LargeIntermediate(a: real, exact: real, p: real)
    requires a >= 1125899906842624.0 && exact >= 10.0 * a && Two(exact, p)
    ensures p > LO as real
  {
  }

  lemma ExactIsTenfold(amount: nat, small: nat, big: nat)
    requires small >= 1 && 10 * small <= big
    ensures ExactRescale(amount, small, big) >= 10.0 * amount as real
  {
    ExactEquation(amount, small, big);
    AtLeastTenfold(amount as real, small as real, big as real, ExactRescale(amount, small, big));
  }

  lemma ParsedNear(amount: nat, small: nat, big: nat)
    requires small >= 1 && big >= 1 && amount <= HI
    ensures Two(ExactRescale(amount, small, big), Rescale(amount, small, big))
  {
    ExactEquation(amount, small, big);
    ParsedExactly(amount, small, big, ExactRescale(amount, small, big));
  }

  lemma IntermediateIsWhole(amount: nat, small: nat, big: nat)
    requires small >= 1 && big >= 1 && Rescale(amount, small, big) > LO as real
    ensures var p := Rescale(amount, small, big); p == p.Floor as real && Round(p) == p
  {
    RoundedIsWhole(Multiply(Round(Divide(Round(amount as real), small)), big));
  }

  /** The exact way back of an intermediate amount p. */
  lemma WayBack(amount: nat, small: nat, big: nat, p: real) returns (w: real)
    requires small >= 1 && big >= 1 && p >= 0.0 && Two(ExactRescale(amount, small, big), p)
    ensures Two(amount as real, w) && w * big as real == p * small as real
  {
    w := Divide(Multiply(p, small), big);
    assert Multiply(p, small) == p * small as real;
    ExactEquation(amount, small, big);
    ScaleTwo(ExactRescale(amount, small, big), p, small as real, big as real, amount as real, w);
  }

  lemma WholeThereAndBack(amount: nat, small: nat, big: nat)
    requires small >= 1 && 10 * small <= big && 0x4_0000_0000_0000 <= amount < 0x8_0000_0000_0000
    ensures var up := Rescale(amount, small, big).Floor;
      amount as real - 1.0 < Rescale(up, big, small) < amount as real + 1.0
  {
    var p := Rescale(amount, small, big);
    ExactIsTenfold(amount, small, big);
    ParsedNear(amount, small, big);
    LargeIntermediate(amount as real, ExactRescale(amount, small, big), p);
    IntermediateIsWhole(amount, small, big);
    var w := WayBack(amount, small, big, p);
    QuotientAndProduct(p, big, small, w);
    FourRoundings(amount as real, w, Scale(p, big, small));
  }

  lemma FourRoundings(a: real, w: real, p: real)
    requires 0.0 <= a <= 2251799813685247.0 && Two(a, w) && Two(w, p)
    ensures a - 1.0 < p < a + 1.0
  {
  }

  /** Between equal decimals of zero the amount comes back exactly when it is a float. */
  lemma IdentityIffFloat(amount: nat)
    ensures Convert(amount, 0, 0) == amount <==> IsFloat(amount as real)
  {
    var parsed := Round(amount as real);
    RoundTwice(amount as real);
    assert Divide(parsed, 1) == parsed && Multiply(parsed, 1) == parsed;
    RoundOfWhole(amount);
    FixedIffFloat(amount as real);
  }

  lemma RoundTwice(x: real)
    requires x >= 0.0
    ensures Round(Round(x)) == Round(x)
  {
    var m, e := RoundIsFloat(x);
    FixedIffFloat(Round(x));
  }

  // ----- amounts that grow -----

  lemma {:induction false} Pow10Sum(m: nat, n: nat)
    ensures Pow10(m + n) == Pow10(m) * Pow10(n)
  {
    if m > 0 {
      Pow10Sum(m - 1, n);
      assert Pow10(m + n) == 10 * Pow10(m - 1 + n);
    }
  }

  lemma Powers()
    ensures Pow10(28) == 10000000000000000000000000000 && Pow10(31) == 10000000000000000000000000000000
    ensures Pow2(-94) == 1.0 / 19807040628566084398385987584.0 && Pow2(9) == 512.0 && Pow2(-1) == 0.5
  {
    assert Pow10(7) == 10000000 && Pow10(3) == 1000;
    Pow10Sum(7, 7);
    Pow10Sum(14, 14);
    Pow10Sum(3, 28);
    assert Pow2(-12) == 1.0 / 4096.0 && Pow2(-11) == 1.0 / 2048.0;
    Pow2Sum(-12, -12);
    Pow2Sum(-12, -11);
    Pow2Sum(-24, -23);
    Pow2Sum(-47, -47);
  }

  /** The bound of RoundTrip is nearly sharp: 1.024 * 2^51 units come back from 28 to 31
      decimals and back as one unit more. Every rounding on the way is upwards. */
  lemma RoundTripGains()
    ensures Convert(2305843009224277, 28, 31) == 2305843009224277504
    ensures Convert(2305843009224277504, 31, 28) == 2305843009224278
  {
    Powers();
    GainsUp(2305843009224277);
    GainsBack(2305843009224277504);
  }

  lemma Units(y: real)
    requires Pow2(-94) == 1.0 / 19807040628566084398385987584.0 && Pow2(9) == 512.0 && Pow2(-1) == 0.5
    ensures Scaled(y, -94) == y / 19807040628566084398385987584.0
    ensures Scaled(y, 9) == y * 512.0 && Scaled(y, -1) == y / 2.0
  {
    ScaledIs(y, -94);
    ScaledIs(y, 9);
    ScaledIs(y, -1);
  }

  /** y units of 2^-94. */
  lemma RoundTiny(x: real, y: real, m: int)
    requires Pow2(-94) == 1.0 / 19807040628566084398385987584.0 && Pow2(9) == 512.0 && Pow2(-1) == 0.5
    requires LO as real <= y < HI as real && -0.5 < y - m as real < 0.5
    requires x == y / 19807040628566084398385987584.0
    ensures Round(x) == m as real / 19807040628566084398385987584.0
  {
    RoundAt(y, -94, m);
    Units(y);
    Units(m as real);
  }

  lemma GainsUp(a: nat)
    requires a == 2305843009224277
    requires Pow10(28) == 10000000000000000000000000000 && Pow10(31) == 10000000000000000000000000000000
    requires Pow2(-94) == 1.0 / 19807040628566084398385987584.0 && Pow2(9) == 512.0 && Pow2(-1) == 0.5
    ensures Convert(a, 28, 31) == 2305843009224277504
  {
    WholeNumberIsFixed(a);
    var x := Divide(a as real, Pow10(28));
    RoundTiny(x, x * 19807040628566084398385987584.0, 4567192616680034);
    var p := Multiply(Round(x), Pow10(31));
    RoundAt(p / 512.0, 9, 4503599627391167);
    Units(p / 512.0);
    Units(4503599627391167.0);
  }

  lemma GainsBack(up: nat)
    requires up == 2305843009224277504
    requires Pow10(28) == 10000000000000000000000000000 && Pow10(31) == 10000000000000000000000000000000
    requires Pow2(-94) == 1.0 / 19807040628566084398385987584.0 && Pow2(9) == 512.0 && Pow2(-1) == 0.5
    ensures Convert(up, 31, 28) == 2305843009224278
  {
    RoundAt(up as real / 512.0, 9, 4503599627391167);
    Units(up as real / 512.0);
    Units(4503599627391167.0);
    var x := Divide(up as real, Pow10(31));
    RoundTiny(x, x * 19807040628566084398385987584.0, 4567192616680035);
    var p := Multiply(Round(x), Pow10(28));
    RoundAt(p * 2.0, -1, 4611686018448556);
    Units(p * 2.0);
    Units(4611686018448556.0);
  }

  /** Above 2^53 parsing alone can make an amount grow. */
  lemma ParsingGains()
    ensures Round((HI + 3) as real) == (HI + 4) as real
  {
    var x := (HI + 3) as real;
    HalvingShrinks(x);
    assert Nearest(x / 2.0) == LO + 2;
    assert Round(x / 2.0) == (LO + 2) as real;
  }
}
