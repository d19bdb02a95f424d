/** strconv.Itoa and its inverse. */
module Decimal {

  function Digit(d: nat): (c: char)
    requires d < 10
    ensures IsDigit(c) && Value(c) == d
  {
    (d + '0' as int) as char
  }

  predicate IsDigit(c: char) { '0' <= c <= '9' }

  function Value(c: char): (d: nat)
    requires IsDigit(c)
    ensures d < 10
  {
    c as int - '0' as int
  }

  predicate IsNumeral(s: string) { |s| > 0 && forall i :: 0 <= i < |s| ==> IsDigit(s[i]) }

  /** A numeral that is not padded. */
  predicate IsCanonical(s: string) { IsNumeral(s) && (|s| > 1 ==> s[0] != '0') }

  function Itoa(n: nat): (s: string)
    ensures IsCanonical(s)
    ensures n > 0 ==> s[0] != '0'
  {
    if n < 10 then [Digit(n)] else Itoa(n / 10) + [Digit(n % 10)]
  }

  function Parse(s: string): (n: nat)
    requires forall i :: 0 <= i < |s| ==> IsDigit(s[i])
  {
    if s == "" then 0 else 10 * Parse(s[..|s| - 1]) + Value(s[|s| - 1])
  }

  function ItoaInt(i: int): (s: string)
    ensures forall k :: 0 <= k < |s| ==> IsDigit(s[k]) || s[k] == '-'
  {
    if i < 0 then "-" + Itoa(-i) else Itoa(i)
  }

  function ParseInt(s: string): (r: Result)
  {
    if IsNumeral(s) then Number(Parse(s))
    else if |s| > 1 && s[0] == '-' && IsNumeral(s[1..]) then Number(0 - Parse(s[1..]))
    else NotANumber
  }

  datatype Result = Number(value: int) | NotANumber

  lemma {:induction false} ParseItoa(n: nat)
    ensures Parse(Itoa(n)) == n
  {
    if n >= 10 {
      ParseItoa(n / 10);
      assert Itoa(n)[..|Itoa(n)| - 1] == Itoa(n / 10);
    }
  }

  lemma {:induction false} ParsePositive(s: string)
    requires IsNumeral(s) && s[0] != '0'
    ensures Parse(s) > 0
  {
    if |s| > 1 { ParsePositive(s[..|s| - 1]); }
  }

  /** Exactly the unpadded numerals are written. */
  lemma {:induction false} ItoaParse(s: string)
    requires IsNumeral(s)
    ensures Itoa(Parse(s)) == s <==> IsCanonical(s)
  {
    if IsCanonical(s) {
      var last := |s| - 1;
      if last == 0 {
        assert s[..0] == "" && Parse(s) == Value(s[0]);
        assert Itoa(Parse(s)) == [s[0]];
      } else {
        ItoaParse(s[..last]);
        ParsePositive(s[..last]);
        assert Parse(s) / 10 == Parse(s[..last]) && Parse(s) % 10 == Value(s[last]);
        assert s == s[..last] + [s[last]];
      }
    }
  }

  const DIGITS: string := "0123456789"

  /** The usual digits, the least significant one last. */
  lemma ItoaDigits(n: nat, d: nat)
    requires d < 10
    ensures Itoa(d) == [DIGITS[d]]
    ensures n > 0 ==> Itoa(10 * n + d) == Itoa(n) + [DIGITS[d]]
  {
    assert (10 * n + d) / 10 == n && (10 * n + d) % 10 == d;
  }

  lemma ParseIntItoa(i: int)
    ensures ParseInt(ItoaInt(i)) == Number(i)
  {
    if i < 0 {
      ParseItoa(-i);
      assert ItoaInt(i)[0] == '-' && ItoaInt(i)[1..] == Itoa(-i);
    } else {
      ParseItoa(i);
    }
  }

  lemma {:induction false} ItoaLengthMonotone(m: nat, n: nat)
    requires m <= n
    ensures |Itoa(m)| <= |Itoa(n)|
  {
    if m >= 10 {
      ItoaLengthMonotone(m / 10, n / 10);
    }
  }
}
