/**
 Decimal digit strings: the number they write, their uniqueness, and the rational number a JSON
 number token denotes.
 */
module Decimal {
  import opened Json

  function Digit(c: byte): (d: nat)
    ensures d < 10
  {
    if IsDigit(c) then c - DIGIT0 else 0
  }

  /** The number written by a string of digits. */
  function NatOf(s: bytes): nat {
    if s == [] then 0 else 10 * NatOf(s[..|s| - 1]) + Digit(s[|s| - 1])
  }

  function Pow10(k: nat): (p: nat)
    ensures p > 0
  {
    if k == 0 then 1 else 10 * Pow10(k - 1)
  }

  predicate AllDigits(s: bytes) {
    forall k | 0 <= k < |s| :: IsDigit(s[k])
  }

  predicate AllZeros(s: bytes) {
    forall k | 0 <= k < |s| :: s[k] == DIGIT0
  }

  /** Digits without a leading zero; zero itself is the empty string. */
  predicate Canonical(s: bytes) {
    AllDigits(s) && (s != [] ==> s[0] != DIGIT0)
  }

  lemma {:induction false} NatAppend(a: bytes, b: bytes)
    ensures NatOf(a + b) == NatOf(a) * Pow10(|b|) + NatOf(b)
  {
    if b == [] {
      assert a + b == a;
    } else {
      var front := b[..|b| - 1];
      assert (a + b)[..|a + b| - 1] == a + front;
      NatAppend(a, front);
      var d, p := Digit(b[|b| - 1]), Pow10(|front|);
      assert NatOf(b) == 10 * NatOf(front) + d && NatOf(a + b) == 10 * NatOf(a + front) + d && Pow10(|b|) == 10 * p;
      hide NatOf, Pow10, Digit;
      ShiftLeft(NatOf(a), p, NatOf(front), d);
    }
  }

  lemma ShiftLeft(x: nat, p: nat, y: nat, d: nat)
    ensures 10 * (x * p + y) + d == x * (10 * p) + (10 * y + d)
  {
  }

  lemma {:induction false} NatZeros(s: bytes)
    requires AllZeros(s)
    ensures NatOf(s) == 0
  {
    if s != [] {
      NatZeros(s[..|s| - 1]);
    }
  }

  lemma {:induction false} NatBound(s: bytes)
    ensures NatOf(s) < Pow10(|s|)
    ensures s != [] && IsDigit(s[0]) && s[0] != DIGIT0 ==> NatOf(s) >= Pow10(|s| - 1)
  {
    if s != [] {
      NatBound(s[..|s| - 1]);
    }
  }

  lemma {:induction false} Pow10Grows(j: nat, k: nat)
    requires j <= k
    ensures Pow10(j) <= Pow10(k)
  {
    if j < k {
      Pow10Grows(j, k - 1);
    }
  }

  lemma {:induction false} Pow10Add(j: nat, k: nat)
    ensures Pow10(j + k) == Pow10(j) * Pow10(k)
  {
    if k > 0 {
      Pow10Add(j, k - 1);
      assert Pow10(j) * (10 * Pow10(k - 1)) == 10 * (Pow10(j) * Pow10(k - 1));
    }
  }

  lemma SameLength(a: bytes, b: bytes)
    requires Canonical(a) && Canonical(b) && NatOf(a) == NatOf(b)
    ensures |a| == |b|
  {
    ShorterIsSmaller(a, b);
    ShorterIsSmaller(b, a);
  }

  lemma ShorterIsSmaller(a: bytes, b: bytes)
    requires Canonical(b)
    ensures |a| < |b| ==> NatOf(a) < NatOf(b)
  {
    NatBound(a);
    NatBound(b);
    if |a| < |b| {
      Pow10Grows(|a|, |b| - 1);
    }
  }

  /** A number has one canonical spelling. */
  lemma {:induction false} Unique(a: bytes, b: bytes)
    requires Canonical(a) && Canonical(b) && NatOf(a) == NatOf(b)
    ensures a == b
  {
    SameLength(a, b);
    if a != [] {
      var n := |a| - 1;
      assert Digit(a[n]) == NatOf(a) % 10 && Digit(b[n]) == NatOf(b) % 10;
      Unique(a[..n], b[..n]);
      assert a == a[..n] + [a[n]] && b == b[..n] + [b[n]];
    }
  }

  // ---- The rational a token denotes ---------------------------------------------------------------------

  /** Ten to any power. */
  function Ten(e: int): (p: real)
    ensures p > 0.0
    decreases if e < 0 then -e else e
  {
    if e == 0 then 1.0 else if e > 0 then 10.0 * Ten(e - 1) else Ten(e + 1) / 10.0
  }

  lemma TenNext(e: int)
    ensures Ten(e + 1) == 10.0 * Ten(e)
  {
  }

  lemma {:induction false} TenShift(e: int, k: nat)
    ensures Ten(e + k) == Pow10(k) as real * Ten(e)
  {
    if k > 0 {
      TenShift(e, k - 1);
      TenNext(e + k - 1);
      hide Ten;
      assert Pow10(k) as real == 10.0 * Pow10(k - 1) as real;
      Regroup3(10.0, Pow10(k - 1) as real, Ten(e));
    }
  }

  lemma MulCast(n: nat, p: nat)
    ensures (n * p) as real == n as real * p as real
  {
  }

  /** Trailing zeros can be traded for a larger scale. */
  lemma ScaleUp(n: nat, k: nat, e: int)
    ensures (n * Pow10(k)) as real * Ten(e) == n as real * Ten(e + k)
  {
    TenShift(e, k);
    hide Ten, Pow10;
    MulCast(n, Pow10(k));
    Regroup3(n as real, Pow10(k) as real, Ten(e));
  }

  lemma Regroup3(x: real, y: real, z: real)
    ensures x * (y * z) == (x * y) * z
  {
  }

  lemma Cancel(x: real, y: real, p: real)
    requires p > 0.0 && x * p == y * p
    ensures x == y
  {
    assert (x - y) * p == 0.0;
  }

  predicate IsNumber(s: bytes) {
    var t := ScanNumber(s, 0); t.NumberToken? && t.end == |s|
  }

  function IntStart(s: bytes): nat {
    if ByteAt(s, 0, MINUS) then 1 else 0
  }

  function IntEnd(s: bytes): (j: nat)
    ensures IntStart(s) <= j <= |s|
  {
    SkipDigits(s, IntStart(s))
  }

  predicate HasDot(s: bytes) {
    ByteAt(s, IntEnd(s), DOT)
  }

  function FracStart(s: bytes): (j: nat)
    ensures IntEnd(s) <= j <= |s|
  {
    if HasDot(s) then IntEnd(s) + 1 else IntEnd(s)
  }

  function FracEnd(s: bytes): (j: nat)
    ensures FracStart(s) <= j <= |s|
  {
    if HasDot(s) then SkipDigits(s, FracStart(s)) else IntEnd(s)
  }

  predicate HasExponent(s: bytes) {
    FracEnd(s) < |s|
  }

  predicate ExponentNegative(s: bytes) {
    HasExponent(s) && ByteAt(s, FracEnd(s) + 1, MINUS)
  }

  function ExponentStart(s: bytes): nat
    requires HasExponent(s)
  {
    if ByteAt(s, FracEnd(s) + 1, MINUS) || ByteAt(s, FracEnd(s) + 1, PLUS) then FracEnd(s) + 2 else FracEnd(s) + 1
  }

  function Exponent(s: bytes): int
    requires HasExponent(s) ==> ExponentStart(s) <= |s|
  {
    if !HasExponent(s) then 0
    else
      var e: int := NatOf(s[ExponentStart(s)..]);
      if ExponentNegative(s) then -e else e
  }

  /** All digits of the integer and the fraction part. */
  function Digits(s: bytes): bytes {
    s[IntStart(s)..IntEnd(s)] + s[FracStart(s)..FracEnd(s)]
  }

  lemma DigitEnds(s: bytes, i: nat)
    requires i <= |s|
    ensures DigitAt(s, i) ==> ScanFraction(s, i) == NumberToken(i, true)
  {
  }

  /** What the token looks like, part by part. */
  lemma NumberShape(s: bytes)
    requires IsNumber(s)
    ensures IntStart(s) < IntEnd(s) && (s[IntStart(s)] == DIGIT0 ==> IntEnd(s) == IntStart(s) + 1)
    ensures HasDot(s) ==> FracStart(s) < FracEnd(s)
    ensures HasExponent(s) ==> ExponentStart(s) < |s| && SkipDigits(s, ExponentStart(s)) == |s|
  {
    IntegerPart(s);
    FractionPart(s, IntEnd(s));
  }

  lemma IntegerPart(s: bytes)
    requires IsNumber(s)
    ensures IntStart(s) < IntEnd(s) && (s[IntStart(s)] == DIGIT0 ==> IntEnd(s) == IntStart(s) + 1)
    ensures ScanFraction(s, IntEnd(s)) == ScanNumber(s, 0)
  {
    hide ScanFraction;
    var j := IntStart(s);
    if s[j] == DIGIT0 {
      assert SkipDigits(s, j) == SkipDigits(s, j + 1);
      DigitEnds(s, j + 1);
    }
  }

  /** What follows the digits of the integer part. */
  lemma FractionPart(s: bytes, i: nat)
    requires i <= |s| && ScanFraction(s, i).NumberToken? && ScanFraction(s, i).end == |s|
    ensures ByteAt(s, i, DOT) ==> i + 1 < SkipDigits(s, i + 1)
    ensures var j := if ByteAt(s, i, DOT) then SkipDigits(s, i + 1) else i;
            j < |s| ==>
              var k := if ByteAt(s, j + 1, MINUS) || ByteAt(s, j + 1, PLUS) then j + 2 else j + 1;
              k < |s| && SkipDigits(s, k) == |s|
  {
  }

  lemma {:induction false} RunOfDigits(s: bytes, i: nat, j: nat)
    requires i <= j <= |s| && AllDigits(s[i..j])
    ensures SkipDigits(s, i) == SkipDigits(s, j)
    decreases j - i
  {
    if i < j {
      assert s[i..j][0] == s[i] && s[i..j][1..] == s[i + 1..j];
      RunOfDigits(s, i + 1, j);
    }
  }

  lemma {:induction false} SkippedAreDigits(s: bytes, i: nat)
    requires i <= |s|
    ensures AllDigits(s[i..SkipDigits(s, i)]) && !DigitAt(s, SkipDigits(s, i))
    decreases |s| - i
  {
    if i < |s| && IsDigit(s[i]) {
      SkippedAreDigits(s, i + 1);
      assert s[i..SkipDigits(s, i)] == [s[i]] + s[i + 1..SkipDigits(s, i)];
    }
  }

  /** All digits as one integer, scaled by the exponent less the fraction's length. */
  function Magnitude(s: bytes): real
    requires HasExponent(s) ==> ExponentStart(s) <= |s|
  {
    NatOf(Digits(s)) as real * Ten(Exponent(s) - (FracEnd(s) - FracStart(s)))
  }

  /** The rational number the token denotes. */
  function Denotes(s: bytes): real
    requires IsNumber(s)
  {
    NumberShape(s);
    if IntStart(s) == 1 then -Magnitude(s) else Magnitude(s)
  }

  // ---- Normal form ------------------------------------------------------------------------------------------

  /** Significant digits, first and last nonzero, and the weight of the first. */
  predicate SignificantDigits(g: bytes, f: nat, l: nat) {
    f <= l < |g| && AllDigits(g) && AllZeros(g[..f]) && AllZeros(g[l + 1..]) && g[f] != DIGIT0 && g[l] != DIGIT0
  }

  /** Zeros around the significant digits only shift them. */
  lemma DropZeros(g: bytes, f: nat, l: nat)
    requires SignificantDigits(g, f, l)
    ensures NatOf(g) == NatOf(g[f..l + 1]) * Pow10(|g| - l - 1)
  {
    var head, s, tail := g[..f], g[f..l + 1], g[l + 1..];
    assert g == head + (s + tail);
    NatAppend(head, s + tail);
    NatAppend(s, tail);
    NatZeros(head);
    NatZeros(tail);
  }

  /** The value of scaled significant digits. */
  function Scaled(s: bytes, weight: int): real {
    NatOf(s) as real * Ten(weight - |s| + 1)
  }

  /** The magnitude a token denotes, from its significant digits and their weight. */
  lemma Normalized(g: bytes, f: nat, l: nat, exponent: int, nint: nat)
    requires SignificantDigits(g, f, l) && nint <= |g|
    ensures NatOf(g) as real * Ten(exponent - (|g| - nint)) == Scaled(g[f..l + 1], exponent + nint - 1 - f)
  {
    hide NatOf, Ten, Pow10;
    DropZeros(g, f, l);
    ScaleUp(NatOf(g[f..l + 1]), |g| - l - 1, exponent - (|g| - nint));
  }

  lemma LastDigit(s: bytes)
    requires s != [] && AllDigits(s) && s[|s| - 1] != DIGIT0
    ensures NatOf(s) % 10 != 0
  {
    assert IsDigit(s[|s| - 1]);
    assert NatOf(s) == 10 * NatOf(s[..|s| - 1]) + Digit(s[|s| - 1]);
    hide NatOf;
    LowDigit(NatOf(s[..|s| - 1]), Digit(s[|s| - 1]));
  }

  lemma LowDigit(q: nat, d: nat)
    requires d < 10
    ensures (10 * q + d) % 10 == d
  {
  }

  /** Scaled digits that end in a nonzero digit determine their scale. */
  lemma SameScale(a: bytes, b: bytes, x: int, y: int)
    requires a != [] && b != [] && AllDigits(b) && AllDigits(a) && a[|a| - 1] != DIGIT0 && b[|b| - 1] != DIGIT0
    requires NatOf(a) as real * Ten(x) == NatOf(b) as real * Ten(y)
    ensures x >= y
  {
    hide *;
    LastDigit(a);
    ScaleOrder(NatOf(a), NatOf(b), x, y);
  }

  lemma CancelNat(n: nat, m: nat, p: real)
    requires p > 0.0 && n as real * p == m as real * p
    ensures n == m
  {
    Cancel(n as real, m as real, p);
  }

  lemma ScaleOrder(n: nat, m: nat, x: int, y: int)
    requires n % 10 != 0 && n as real * Ten(x) == m as real * Ten(y)
    ensures x >= y
  {
    if x < y {
      TimesTen(m, y - x);
      Rescaled(n, m, x, y - x);
    }
  }

  lemma Rescaled(n: nat, m: nat, x: int, k: nat)
    requires n as real * Ten(x) == m as real * Ten(x + k)
    ensures n == m * Pow10(k)
  {
    hide Ten, Pow10;
    ScaleUp(m, k, x);
    CancelNat(n, m * Pow10(k), Ten(x));
  }

  lemma TimesTen(n: nat, k: nat)
    requires k > 0
    ensures n * Pow10(k) % 10 == 0
  {
    assert n * Pow10(k) == 10 * (n * Pow10(k - 1));
  }

  /** Two normal forms denote the same number exactly when digits and weights agree. */
  lemma NormalFormUnique(a: bytes, b: bytes, v: int, w: int)
    requires Canonical(a) && Canonical(b) && a != [] && b != [] && a[|a| - 1] != DIGIT0 && b[|b| - 1] != DIGIT0
    ensures Scaled(a, v) == Scaled(b, w) <==> a == b && v == w
  {
    hide NatOf, Ten, Pow10;
    if Scaled(a, v) == Scaled(b, w) {
      var x, y := v - |a| + 1, w - |b| + 1;
      SameScale(a, b, x, y);
      SameScale(b, a, y, x);
      CancelNat(NatOf(a), NatOf(b), Ten(x));
      Unique(a, b);
    }
  }

  lemma ScaledPositive(a: bytes, v: int)
    requires Canonical(a) && a != []
    ensures Scaled(a, v) > 0.0
  {
    NatBound(a);
  }
}
