/** Decimal text of unsigned integers: Rust's `Display` for `u8`/`u64` and
    its `str::parse::<u64>`. */
module Decimal {
  import opened Wrappers
  import opened Data

  predicate IsDigit(c: char)
  {
    '0' <= c <= '9'
  }

  predicate IsDigits(s: string)
  {
    forall i :: 0 <= i < |s| ==> IsDigit(s[i])
  }

  function DigitChar(d: nat): (c: char)
    requires d < 10
    ensures IsDigit(c)
  {
    (48 + d) as char
  }

  function Pow10(n: nat): (r: nat)
    ensures r >= 1
  {
    if n == 0 then 1 else 10 * Pow10(n - 1)
  }

  /** The shortest decimal text of `n`, no sign, no padding (`n.to_string()`). */
  function DecimalText(n: nat): (s: string)
    ensures 1 <= |s|
    ensures IsDigits(s)
    ensures s[0] == '0' ==> n == 0
  {
    if n < 10 then [DigitChar(n)] else DecimalText(n / 10) + [DigitChar(n % 10)]
  }

  /** The value denoted by a string of decimal digits (empty denotes 0). */
  function DecimalValue(s: string): nat
    requires IsDigits(s)
  {
    if s == [] then 0 else DecimalValue(s[..|s| - 1]) * 10 + (s[|s| - 1] as int - 48)
  }

  /** A string of `n` digits denotes a value below 10^n. */
  lemma {:induction false} DecimalValueBound(s: string)
    requires IsDigits(s)
    ensures DecimalValue(s) < Pow10(|s|)
  {
    if s != [] {
      DecimalValueBound(s[..|s| - 1]);
    }
  }

  lemma DigitsAppend(a: string, b: string)
    requires IsDigits(a) && IsDigits(b)
    ensures IsDigits(a + b)
  {
    forall i | 0 <= i < |a + b| ensures IsDigit((a + b)[i]) {
      if i < |a| {
        assert (a + b)[i] == a[i];
      } else {
        assert (a + b)[i] == b[i - |a|];
      }
    }
  }

  lemma ShiftStep(va: int, p: int, vb: int, d: int)
    ensures (va * p + vb) * 10 + d == va * (p * 10) + (vb * 10 + d)
  {
  }

  /** Concatenating digit strings shifts the left value by the right length. */
  lemma {:induction false} DecimalValueAppend(a: string, b: string)
    requires IsDigits(a) && IsDigits(b)
    ensures IsDigits(a + b)
    ensures DecimalValue(a + b) == DecimalValue(a) * Pow10(|b|) + DecimalValue(b)
  {
    DigitsAppend(a, b);
    if b == [] {
      assert a + b == a;
    } else {
      var b' := b[..|b| - 1];
      assert (a + b)[..|a + b| - 1] == a + b';
      DecimalValueAppend(a, b');
      ShiftStep(DecimalValue(a), Pow10(|b'|), DecimalValue(b'), b[|b| - 1] as int - 48);
    }
  }

  /** The last `n` digits of a digit string denote its value modulo 10^n. */
  lemma SuffixValue(s: string, n: nat)
    requires IsDigits(s) && n <= |s|
    ensures IsDigits(s[|s| - n..])
    ensures DecimalValue(s[|s| - n..]) == DecimalValue(s) % Pow10(n)
  {
    var a, b := s[..|s| - n], s[|s| - n..];
    assert s == a + b;
    assert IsDigits(a) && IsDigits(b);
    DecimalValueAppend(a, b);
    DecimalValueBound(b);
    ShiftedRemainder(DecimalValue(s), DecimalValue(a), Pow10(n), DecimalValue(b));
  }

  /** `ModOfShift` for a value already known to be such a sum. */
  lemma ShiftedRemainder(x: nat, a: nat, p: nat, b: nat)
    requires x == a * p + b && b < p
    ensures x % p == b
  {
    ModOfShift(a, p, b);
  }

  lemma ModOfShift(a: nat, p: nat, b: nat)
    requires b < p
    ensures (a * p + b) % p == b
  {
    var x := a * p + b;
    var q, r := x / p, x % p;
    assert x == q * p + r;
    Distribute(q, a, p);
    MulSign(q - a, p);
  }

  lemma Distribute(q: int, a: int, p: int)
    ensures (q - a) * p == q * p - a * p
  {
  }

  lemma MulSign(k: int, p: nat)
    ensures k >= 1 ==> k * p >= p
    ensures k <= -1 ==> k * p + p <= 0
  {
    if k >= 1 {
      MulMonotone(k, p);
    } else if k <= -1 {
      MulMonotone(-k, p);
    }
  }

  lemma MulMonotone(k: int, p: nat)
    requires k >= 1
    ensures k * p >= p
  {
  }

  /** Reading back the decimal text of a number yields the number. */
  lemma {:induction false} DecimalRoundTrip(n: nat)
    ensures DecimalValue(DecimalText(n)) == n
  {
    if n >= 10 {
      DecimalRoundTrip(n / 10);
      var s := DecimalText(n);
      assert s[..|s| - 1] == DecimalText(n / 10);
    }
  }

  /** Distinct numbers have distinct decimal texts. */
  lemma DecimalTextInjective(m: nat, n: nat)
    ensures DecimalText(m) == DecimalText(n) <==> m == n
  {
    DecimalRoundTrip(m);
    DecimalRoundTrip(n);
  }

  /** Exactly the numbers below ten have a one-character text. */
  lemma DecimalTextSingleDigit(n: nat)
    ensures |DecimalText(n)| == 1 <==> n < 10
  {
  }

  /** Two-digit and three-digit numbers have texts of exactly that length. */
  lemma DecimalTextLength(n: nat)
    ensures 10 <= n < 100 ==> |DecimalText(n)| == 2
    ensures 100 <= n < 1000 ==> |DecimalText(n)| == 3
  {
  }

  /** `str::parse::<u64>`: an optional leading `+`, then one or more ASCII
      digits whose value fits in 64 bits. Anything else is a parse error. */
  function ParseU64(s: string): (r: Option<U64>)
    ensures r.Some? ==> exists k :: 0 <= k <= 1 && k < |s| && IsDigits(s[k..]) && DecimalValue(s[k..]) == r.value
    ensures IsDigits(s) && s != [] && DecimalValue(s) <= U64_MAX ==> r == Some(DecimalValue(s))
    ensures IsDigits(s) && DecimalValue(s) > U64_MAX ==> r.None?
    ensures s == [] || s == "+" ==> r.None?
    ensures r.Some? ==> IsDigits(s) || (s[0] == '+' && IsDigits(s[1..]))
    ensures |s| >= 2 && s[0] == '+' && IsDigits(s[1..]) && DecimalValue(s[1..]) <= U64_MAX ==>
              r == Some(DecimalValue(s[1..]))
  {
    var digits := if |s| > 0 && s[0] == '+' then s[1..] else s;
    assert |s| > 0 && s[0] == '+' ==> !IsDigit(s[0]);
    if digits == [] || !IsDigits(digits) then None
    else if DecimalValue(digits) > U64_MAX then None
    else
      var k := if |s| > 0 && s[0] == '+' then 1 else 0;
      assert digits == s[k..];
      Some(DecimalValue(digits))
  }

  /** The decimal text of any 64-bit value parses back to it. */
  lemma ParseDecimalText(n: U64)
    ensures ParseU64(DecimalText(n)) == Some(n)
  {
    DecimalRoundTrip(n);
  }

  /** Nineteen digits always parse: their value is below 10^19 < 2^64. */
  lemma ParseNineteenDigits(s: string)
    requires |s| == 19 && IsDigits(s)
    ensures ParseU64(s) == Some(DecimalValue(s))
    ensures DecimalValue(s) < 10_000_000_000_000_000_000
  {
    DecimalValueBound(s);
    assert Pow10(10) == 10_000_000_000;
    assert Pow10(19) == 10_000_000_000_000_000_000;
  }
}
