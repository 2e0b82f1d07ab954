/** The exact-number forms of core/canonical_json.py: decimal strings and reduced fractions.
    Each number has one accepted form only. */
module Decimals {
  import opened JsonText
  import opened JsonValues

  predicate AllDigits(s: Text) {
    forall i | 0 <= i < |s| :: IsDigit(s[i])
  }

  /** The parts that the pattern of decimal matches: sign, integer digits, fraction digits. */
  datatype Parts = Parts(negative: bool, whole: Text, fraction: Text)

  function Spell(p: Parts): Text {
    (if p.negative then [0x2D] else []) + p.whole + (if p.fraction == [] then [] else [0x2E] + p.fraction)
  }

  /** No leading zero, no trailing zero, no point without digits after it. */
  predicate Matches(p: Parts) {
    && p.whole != [] && AllDigits(p.whole) && (p.whole[0] == 0x30 ==> |p.whole| == 1)
    && AllDigits(p.fraction) && (p.fraction != [] ==> p.fraction[|p.fraction| - 1] != 0x30)
  }

  /** decimal: the string matches the pattern in full and is not "-0". */
  ghost predicate Accepted(s: Text) {
    (exists p :: Matches(p) && Spell(p) == s) && s != [0x2D, 0x30]
  }

  /** A string is read in one way only. */
  lemma ReadingUnique(p: Parts, q: Parts)
    requires Matches(p) && Matches(q) && Spell(p) == Spell(q)
    ensures p == q
  {
    SpelledAt(p);
    SpelledAt(q);
    WholeNotShorter(p, q);
    WholeNotShorter(q, p);
    var k := if p.negative then 1 else 0;
    var at := k + |p.whole|;
    assert p.whole == Spell(p)[k..at] == q.whole;
    if p.fraction != [] {
      assert p.fraction == Spell(p)[at + 1..] == q.fraction;
    }
  }

  /** The digits before the point end where something else than a digit stands. */
  lemma WholeNotShorter(p: Parts, q: Parts)
    requires Matches(p) && Matches(q) && Spell(p) == Spell(q)
    ensures |p.whole| >= |q.whole| && p.negative == q.negative
  {
    SpelledAt(p);
    SpelledAt(q);
    var s, k := Spell(p), if p.negative then 1 else 0;
    assert k + |p.whole| < |s| ==> !IsDigit(s[k + |p.whole|]);
  }

  /** Where the parts stand in the spelling. */
  lemma SpelledAt(p: Parts)
    requires Matches(p)
    ensures var s, k := Spell(p), if p.negative then 1 else 0;
            && |s| == k + |p.whole| + (if p.fraction == [] then 0 else 1 + |p.fraction|)
            && (s[0] == 0x2D <==> p.negative)
            && s[k..k + |p.whole|] == p.whole
            && (forall i :: k <= i < k + |p.whole| ==> IsDigit(s[i]))
            && (p.fraction != [] ==> s[k + |p.whole|] == 0x2E && s[k + |p.whole| + 1..] == p.fraction)
  {
    var s, k := Spell(p), if p.negative then 1 else 0;
    assert forall i :: k <= i < k + |p.whole| ==> s[i] == p.whole[i - k];
  }

  function Pow10(n: nat): nat {
    if n == 0 then 1 else 10 * Pow10(n - 1)
  }

  /** The number denoted, times a power of ten that clears the fraction. */
  function Mantissa(p: Parts): int
    requires Matches(p)
  {
    var m: int := NatValue(p.whole + p.fraction);
    if p.negative then -m else m
  }

  /** Two spellings denote the same number. */
  predicate SameNumber(p: Parts, q: Parts)
    requires Matches(p) && Matches(q)
  {
    Mantissa(p) * Pow10(|q.fraction|) == Mantissa(q) * Pow10(|p.fraction|)
  }

  lemma {:induction false} Pow10Add(a: nat, b: nat)
    ensures Pow10(a + b) == Pow10(a) * Pow10(b) && Pow10(a) > 0
  {
    if a > 0 {
      Pow10Add(a - 1, b);
      assert Pow10(a - 1 + b) == Pow10(a - 1) * Pow10(b);
    }
  }

  lemma {:induction false} Pow10Grows(a: nat, b: nat)
    requires a <= b
    ensures Pow10(a) <= Pow10(b)
    decreases b - a
  {
    if a < b {
      Pow10Grows(a + 1, b);
      Pow10Add(a, 0);
    }
  }

  lemma Cancel(a: int, b: int, k: int)
    requires a * k == b * k && k != 0
    ensures a == b
  {
  }

  /** A run of digits is below its power of ten, and without a leading zero at least the next lower one. */
  lemma {:induction false} DigitsBounds(s: Text)
    requires AllDigits(s)
    ensures NatValue(s) < Pow10(|s|)
    ensures s != [] && s[0] != 0x30 ==> NatValue(s) >= Pow10(|s| - 1)
  {
    if s != [] {
      DigitsBounds(s[..|s| - 1]);
    }
  }

  lemma LastDigit(a: nat, b: nat, x: nat, y: nat)
    requires 10 * a + x == 10 * b + y && x < 10 && y < 10
    ensures a == b && x == y
  {
  }

  lemma {:induction false} DigitsUnique(s: Text, t: Text)
    requires AllDigits(s) && AllDigits(t) && |s| == |t| && NatValue(s) == NatValue(t)
    ensures s == t
  {
    if s != [] {
      var n := |s| - 1;
      LastDigit(NatValue(s[..n]), NatValue(t[..n]), DigitValue(s[n]), DigitValue(t[n]));
      hide NatValue;
      DigitsUnique(s[..n], t[..n]);
      assert s == s[..n] + [s[n]] && t == t[..n] + [t[n]];
    }
  }

  /** The digits of the two parts together. */
  function Run(p: Parts): Text {
    p.whole + p.fraction
  }

  lemma RunFacts(p: Parts)
    requires Matches(p)
    ensures AllDigits(Run(p)) && Run(p) != [] && Run(p)[0] == p.whole[0]
    ensures p.fraction != [] ==> NatValue(Run(p)) % 10 != 0
    ensures NatValue(Run(p)) == 0 ==> p.whole == [0x30] && p.fraction == []
  {
    var r := Run(p);
    if p.fraction != [] {
      assert r[|r| - 1] == p.fraction[|p.fraction| - 1];
    }
    DigitsBounds(r);
    Pow10Add(|r| - 1, 0);
    if NatValue(r) == 0 {
      assert p.whole == [0x30];
    }
  }

  /** Equal values with equally many fraction digits come from equal runs. */
  lemma RunsAgree(p: Parts, q: Parts)
    requires Matches(p) && Matches(q) && |p.fraction| == |q.fraction|
    requires NatValue(Run(p)) == NatValue(Run(q))
    ensures p.whole == q.whole && p.fraction == q.fraction
  {
    RunFacts(p);
    RunFacts(q);
    DigitsBounds(Run(p));
    DigitsBounds(Run(q));
    if |p.whole| > |q.whole| {
      Pow10Grows(|Run(q)|, |Run(p)| - 1);
      assert false;
    } else if |p.whole| < |q.whole| {
      Pow10Grows(|Run(p)|, |Run(q)| - 1);
      assert false;
    }
    DigitsUnique(Run(p), Run(q));
    assert p.whole == Run(p)[..|p.whole|] && p.fraction == Run(p)[|p.whole|..];
    assert q.whole == Run(q)[..|p.whole|] && q.fraction == Run(q)[|p.whole|..];
  }

  lemma ShiftedOut(m: int, n: int, a: nat, b: nat)
    requires a < b && m * Pow10(b) == n * Pow10(a)
    ensures n % 10 == 0
  {
    var d := b - a - 1;
    Pow10Add(d, a);
    Pow10Add(a, 0);
    var u, v := Pow10(d), Pow10(a);
    assert Pow10(b) == 10 * Pow10(d + a);
    hide Pow10;
    assert m * (10 * (u * v)) == n * v;
    MultipleOfTen(m, n, u, v);
  }

  /** Spellings of one number have equally many fraction digits. */
  lemma FractionsAgree(p: Parts, q: Parts)
    requires Matches(p) && Matches(q) && SameNumber(p, q)
    ensures |p.fraction| >= |q.fraction|
  {
    hide Pow10, NatValue;
    RunFacts(q);
    assert Mantissa(q) == NatValue(Run(q)) || -Mantissa(q) == NatValue(Run(q));
    if |p.fraction| < |q.fraction| {
      ShiftedOut(Mantissa(p), Mantissa(q), |p.fraction|, |q.fraction|);
      assert false;
    }
  }

  lemma MultipleOfTen(m: int, n: int, d: int, k: int)
    requires m * (10 * (d * k)) == n * k && k > 0
    ensures n == 10 * (m * d)
  {
    calc {
      10 * (m * d) * k;
      m * d * (10 * k);
      m * (d * (10 * k));
      { assert d * (10 * k) == 10 * (d * k); }
      m * (10 * (d * k));
      n * k;
    }
    Cancel(10 * (m * d), n, k);
  }

  /** Two accepted decimal strings that denote the same number are the same string. */
  lemma DecimalUnique(s: Text, t: Text, p: Parts, q: Parts)
    requires Accepted(s) && Matches(p) && Spell(p) == s
    requires Accepted(t) && Matches(q) && Spell(q) == t
    requires SameNumber(p, q)
    ensures s == t
  {
    FractionsAgree(p, q);
    FractionsAgree(q, p);
    Pow10Add(|p.fraction|, 0);
    Cancel(Mantissa(p), Mantissa(q), Pow10(|p.fraction|));
    RunFacts(p);
    RunFacts(q);
    if Mantissa(p) == 0 {
      ZeroIsPlain(p);
      ZeroIsPlain(q);
    }
    RunsAgree(p, q);
  }

  lemma ZeroIsPlain(p: Parts)
    requires Matches(p) && Mantissa(p) == 0 && Spell(p) != [0x2D, 0x30]
    ensures !p.negative
  {
    RunFacts(p);
    assert p.negative ==> Spell(p) == [0x2D, 0x30];
  }

  // ----- fractions -----

  function Abs(n: int): nat {
    if n < 0 then -n else n
  }

  function Gcd(a: nat, b: nat): nat
    decreases b
  {
    if b == 0 then a else Gcd(b, a % b)
  }

  /** rational: a reduced fraction with a positive denominator. */
  predicate Reduced(numerator: int, denominator: int) {
    InRange(numerator) && InRange(denominator) && denominator > 0 && Gcd(Abs(numerator), denominator) == 1
  }

  lemma {:induction false} Bezout(a: nat, b: nat) returns (x: int, y: int)
    ensures x * a + y * b == Gcd(a, b)
    decreases b
  {
    if b == 0 {
      x, y := 1, 0;
    } else {
      var u, v := Bezout(b, a % b);
      x, y := v, u - v * (a / b);
      calc {
        x * a + y * b;
        v * a + (u - v * (a / b)) * b;
        u * b + v * (a - a / b * b);
        { assert a - a / b * b == a % b; }
        u * b + v * (a % b);
      }
    }
  }

  /** Euclid's lemma: what divides a * d and is prime to a divides d. */
  lemma Euclid(a: int, b: int, c: int, d: int) returns (k: int)
    requires b > 0 && Gcd(Abs(a), b) == 1 && a * d == c * b
    ensures d == k * b
  {
    var x, y := Bezout(Abs(a), b);
    var x' := if a < 0 then -x else x;
    assert x' * a == x * Abs(a);
    assert x' * a + y * b == 1;
    k := x' * c + y * d;
    Distribute(a, b, c, d, x', y);
  }

  lemma Distribute(a: int, b: int, c: int, d: int, x: int, y: int)
    requires a * d == c * b && x * a + y * b == 1
    ensures d == (x * c + y * d) * b
  {
    calc {
      (x * c + y * d) * b;
      x * (c * b) + y * d * b;
      x * (a * d) + y * d * b;
      (x * a + y * b) * d;
      d;
    }
  }

  lemma MutualDivisors(b: int, d: int, j: int, k: int)
    requires b > 0 && d > 0 && d == k * b && b == j * d
    ensures b == d
  {
    assert k > 0 && j > 0;
    assert d >= b && b >= d;
  }

  /** Two accepted fractions with equal cross products are the same pair. */
  lemma RationalUnique(a: int, b: int, c: int, d: int)
    requires Reduced(a, b) && Reduced(c, d) && a * d == c * b
    ensures a == c && b == d
  {
    var k := Euclid(a, b, c, d);
    var j := Euclid(c, d, a, b);
    MutualDivisors(b, d, j, k);
    Cancel(a, c, b);
  }
}
