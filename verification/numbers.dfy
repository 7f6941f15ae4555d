/** Integer stand-ins for the JavaScript number operations the core uses:
    `Math.round` and `Math.ceil` of a quotient, and the decimal text that a
    template literal `${n}` produces for a natural number. */
module Numbers {

  /** `Math.round(n / d)` for n >= 0, d > 0: the integer nearest to n/d,
      halves rounded up. */
  function Round(n: nat, d: nat): (r: nat)
    requires d > 0
    ensures 2 * r * d <= 2 * n + d < 2 * r * d + 2 * d
  {
    var q := (2 * n + d) / (2 * d);
    DivBounds(2 * n + d, 2 * d);
    q
  }

  /** A rounded quotient stays within a bound that the exact quotient keeps. */
  lemma RoundAtMost(n: nat, d: nat, bound: nat)
    requires d > 0 && n <= bound * d
    ensures Round(n, d) <= bound
  {
    var r := Round(n, d);
    var e := r - bound;
    assert 2 * e * d <= d by {
      assert 2 * r * d <= 2 * n + d <= 2 * bound * d + d;
      assert 2 * e * d == 2 * r * d - 2 * bound * d;
    }
    assert e >= 1 ==> e * d >= d;
  }

  /** `Math.ceil(n / d)` for d > 0: the least integer r with n <= r * d. */
  function CeilDiv(n: int, d: nat): (r: int)
    requires d > 0
    ensures (r - 1) * d < n <= r * d
  {
    DivBounds(-n, d);
    -((-n) / d)
  }

  lemma DivBounds(a: int, b: int)
    requires b > 0
    ensures (a / b) * b <= a < (a / b) * b + b
  {
  }

  /** `Math.round((c / t) * 100)`: the percentage c of t, rounded. */
  function Percent(c: nat, t: nat): (r: nat)
    requires t > 0
    ensures 2 * r * t <= 200 * c + t < 2 * r * t + 2 * t
    ensures c <= t ==> r <= 100
    ensures r == 0 <==> 200 * c < t
  {
    var r := Round(100 * c, t);
    PercentBounds(c, t, r);
    r
  }

  lemma PercentBounds(c: nat, t: nat, r: nat)
    requires t > 0 && 2 * r * t <= 200 * c + t < 2 * r * t + 2 * t
    ensures c <= t ==> r <= 100
    ensures r == 0 <==> 200 * c < t
  {
    if r >= 101 {
      MulMono(101, r, t);
    }
    if r >= 1 {
      MulMono(1, r, t);
    }
  }

  /** Rounding reports 100 exactly when every one is done, as long as there
      are fewer than 200; at 199 of 200 it already reports 100. */
  lemma {:induction false} PercentFullIffAll(c: nat, t: nat)
    requires 0 < t < 200 && c <= t
    ensures Percent(c, t) == 100 <==> c == t
  {
    FullIffAll(c, t, Percent(c, t));
  }

  lemma FullIffAll(c: nat, t: nat, r: nat)
    requires 0 < t < 200 && c <= t
    requires 2 * r * t <= 200 * c + t < 2 * r * t + 2 * t
    ensures r == 100 <==> c == t
  {
    if r <= 99 {
      MulMono(r, 99, t);
    } else if r >= 101 {
      MulMono(101, r, t);
    }
  }

  /** All of t is 100 percent. */
  lemma PercentOfAll(t: nat)
    requires t > 0
    ensures Percent(t, t) == 100
  {
    var r := Percent(t, t);
    if r <= 99 {
      MulMono(r, 99, t);
    }
  }

  /** Multiplying by a natural number keeps the order. */
  lemma MulMono(a: nat, b: nat, t: nat)
    requires a <= b
    ensures a * t <= b * t
  {
    assert b * t - a * t == (b - a) * t;
  }

  lemma PercentRoundsUpNearlyAll()
    ensures Percent(199, 200) == 100
  {
  }

  // ---- decimal text of a natural number ----

  function DigitChar(k: nat): (c: char)
    requires k < 10
    ensures '0' <= c <= '9'
  {
    (('0' as int) + k) as char
  }

  predicate IsDigit(c: char)
  {
    '0' <= c <= '9'
  }

  function DigitValue(c: char): (k: nat)
    requires IsDigit(c)
    ensures k < 10
  {
    (c as int) - ('0' as int)
  }

  /** The text `${n}` for a natural number n: its decimal digits, no sign, no leading zero. */
  function NatToString(n: nat): (s: string)
    ensures |s| >= 1
    ensures forall i :: 0 <= i < |s| ==> IsDigit(s[i])
    ensures |s| > 1 ==> s[0] != '0'
    decreases n
  {
    if n < 10 then [DigitChar(n)] else NatToString(n / 10) + [DigitChar(n % 10)]
  }

  /** The value of a string of decimal digits. */
  function ParseDigits(s: string): (n: nat)
    requires forall i :: 0 <= i < |s| ==> IsDigit(s[i])
    decreases |s|
  {
    if s == [] then 0 else 10 * ParseDigits(s[..|s| - 1]) + DigitValue(s[|s| - 1])
  }

  /** Reading back the decimal text of n gives n. */
  lemma {:induction false} ParseNatToString(n: nat)
    ensures ParseDigits(NatToString(n)) == n
    decreases n
  {
    var s := NatToString(n);
    if n < 10 {
      assert s[..0] == [];
    } else {
      ParseNatToString(n / 10);
      assert s[..|s| - 1] == NatToString(n / 10);
    }
  }

  /** Distinct numbers have distinct texts. */
  lemma NatToStringInjective(a: nat, b: nat)
    requires NatToString(a) == NatToString(b)
    ensures a == b
  {
    ParseNatToString(a);
    ParseNatToString(b);
  }
}
