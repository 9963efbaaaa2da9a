/**
 Exact comparison of two JSON number tokens, for exponents of any length: signs, the weight of the
 first significant digit, and the significant digits themselves.
 */
module NumberEqual {
  import opened Json
  import opened Decimal

  const TWO_TO_THE_62: nat := 0x4000_0000_0000_0000
  const SMALL_LIMIT: nat := 10000000000000000000

  function Signed(neg: bool, magnitude: nat): int {
    var m: int := magnitude;
    if neg then -m else m
  }

  function Abs(v: int): nat {
    if v < 0 then -v else v
  }

  // ---- Digit strings plus and minus a word -----------------------------------------------------------------

  lemma {:induction false} NatUpdate(s: bytes, i: nat, c: byte)
    requires i < |s|
    ensures NatOf(s[i := c]) == NatOf(s) + (Digit(c) - Digit(s[i])) * Pow10(|s| - 1 - i)
  {
    var n := |s| - 1;
    var front, d := s[..n], Digit(c) - Digit(s[i]);
    assert NatOf(s) == 10 * NatOf(front) + Digit(s[n]);
    if i == n {
      assert s[i := c][..n] == front;
    } else {
      assert s[i := c][..n] == front[i := c];
      assert NatOf(s[i := c]) == 10 * NatOf(front[i := c]) + Digit(s[n]);
      assert Pow10(n - i) == 10 * Pow10(n - 1 - i);
      NatUpdate(front, i, c);
      hide NatOf, Pow10;
      TimesTenSum(NatOf(front), d, Pow10(n - 1 - i));
    }
  }

  lemma TimesTenSum(x: int, d: int, p: int)
    ensures 10 * (x + d * p) == 10 * x + d * (10 * p)
  {
  }

  lemma CarryStep(total: int, value: int, u: int, d: int, c: int, carry: int, p: int)
    requires total == value + u * p && u >= 0 && d + u % 10 == c + 10 * carry
    ensures total == value + (c - d) * p + (u / 10 + carry) * (10 * p)
  {
    var q, r := u / 10, u % 10;
    assert u * p == (10 * q + r) * p == 10 * q * p + r * p;
    assert (c - d) * p == r * p - 10 * carry * p;
    assert (q + carry) * (10 * p) == 10 * q * p + 10 * carry * p;
  }

  lemma BorrowStep(total: int, value: int, u: int, b: int, d: int, c: int, borrow: int, p: int)
    requires total == value - (u + b) * p && u >= 0 && d - (u % 10 + b) == c - 10 * borrow
    ensures total == value + (c - d) * p - (u / 10 + borrow) * (10 * p)
  {
    var q, r := u / 10, u % 10;
    assert (u + b) * p == (10 * q + r + b) * p == 10 * q * p + (r + b) * p;
    assert (c - d) * p == 10 * borrow * p - (r + b) * p;
    assert (q + borrow) * (10 * p) == 10 * q * p + 10 * borrow * p;
  }

  lemma {:induction false} LeadingZero(s: bytes)
    requires s != [] && s[0] == DIGIT0
    ensures NatOf(s) == NatOf(s[1..])
  {
    assert s == [s[0]] + s[1..];
    NatAppend([s[0]], s[1..]);
    NatZeros([s[0]]);
  }

  /** Digits too large for one place less do not start with a zero. */
  lemma FullLength(s: bytes)
    requires s != [] && NatOf(s) >= Pow10(|s| - 1)
    ensures s[0] != DIGIT0
  {
    NatBound(s[1..]);
    if s[0] == DIGIT0 {
      LeadingZero(s);
    }
  }

  /** One place of the addition. */
  lemma AddPlace(total: nat, out: bytes, i: nat, rest: nat, c: byte, carry: nat)
    requires i < |out| && IsDigit(out[i]) && IsDigit(c) && carry <= 1
    requires Digit(out[i]) + rest % 10 == Digit(c) + 10 * carry
    requires total == NatOf(out) + rest * Pow10(|out| - 1 - i)
    ensures total == NatOf(out[i := c]) + (rest / 10 + carry) * Pow10(|out| - i)
  {
    hide NatOf;
    NatUpdate(out, i, c);
    CarryStep(total, NatOf(out), rest, Digit(out[i]), Digit(c), carry, Pow10(|out| - 1 - i));
  }

  lemma AtLeast(n: nat, p: nat)
    ensures n > 0 ==> n * p >= p
  {
  }

  /** Nothing is carried out of the last place when the sum fits. */
  lemma NothingCarried(total: nat, value: nat, rest: nat, limit: nat)
    requires total == value + rest * limit && total < limit
    ensures rest == 0
  {
    AtLeast(rest, limit);
  }

  /** Dropping a leading zero, if any, leaves a canonical number. */
  lemma SumIsCanonical(out: bytes, digits: bytes)
    requires |out| == |digits| + 1 && digits != [] && AllDigits(out) && NatOf(out) >= NatOf(digits) && Canonical(digits)
    ensures var sum := if out[0] == DIGIT0 then out[1..] else out;
            Canonical(sum) && NatOf(sum) == NatOf(out)
  {
    NatBound(digits);
    if out[0] == DIGIT0 {
      LeadingZero(out);
      FullLength(out[1..]);
    }
  }

  lemma Units()
    ensures Pow10(0) == 1 && NatOf([]) == 0
  {
  }

  /** The digits plus u, with the carry running through u itself. */
  method DigitsAdd(digits: bytes, u: nat) returns (sum: bytes)
    requires Canonical(digits) && digits != [] && u <= NatOf(digits)
    ensures Canonical(sum) && NatOf(sum) == NatOf(digits) + u
  {
    hide NatOf, Pow10;
    var n := |digits| + 1;
    var out := new byte[n](k => if 0 < k <= |digits| then digits[k - 1] else DIGIT0);
    assert out[..][1..] == digits;
    LeadingZero(out[..]);
    ghost var total := NatOf(digits) + u;
    Units();
    var i: int, rest: nat := n - 1, u;
    while i >= 0 && rest != 0
      invariant -1 <= i < n && AllDigits(out[..])
      invariant total == NatOf(out[..]) + rest * Pow10(n - 1 - i)
    {
      ghost var before := out[..];
      var s := (out[i] - DIGIT0) + rest % 10;
      var carry := if s >= 10 then 1 else 0;
      var c: byte := DIGIT0 + s - 10 * carry;
      AddPlace(total, before, i, rest, c, carry);
      out[i] := c;
      assert out[..] == before[i := c];
      rest := rest / 10 + carry;
      i := i - 1;
    }
    if i < 0 {
      Doubled(digits);
      NothingCarried(total, NatOf(out[..]), rest, Pow10(n));
    }
    SumIsCanonical(out[..], digits);
    if out[0] == DIGIT0 {
      return out[1..];
    }
    return out[..];
  }

  lemma Doubled(digits: bytes)
    ensures 2 * NatOf(digits) < Pow10(|digits| + 1)
  {
    NatBound(digits);
  }

  /** One place of the subtraction. */
  lemma SubPlace(total: nat, out: bytes, i: nat, rest: nat, b: nat, c: byte, borrow: nat)
    requires i < |out| && IsDigit(out[i]) && IsDigit(c) && borrow <= 1
    requires Digit(out[i]) - (rest % 10 + b) == Digit(c) - 10 * borrow
    requires total == NatOf(out) - (rest + b) * Pow10(|out| - 1 - i)
    ensures total == NatOf(out[i := c]) - (rest / 10 + borrow) * Pow10(|out| - i)
  {
    hide NatOf;
    NatUpdate(out, i, c);
    BorrowStep(total, NatOf(out), rest, b, Digit(out[i]), Digit(c), borrow, Pow10(|out| - 1 - i));
  }

  lemma NothingBorrowed(total: nat, value: nat, rest: nat, limit: nat)
    requires total == value - rest * limit && value < limit
    ensures rest == 0
  {
    AtLeast(rest, limit);
  }

  /** Drops leading zeros. */
  method DropLeadingZeros(out: bytes) returns (digits: bytes)
    requires AllDigits(out) && NatOf(out) > 0
    ensures Canonical(digits) && NatOf(digits) == NatOf(out)
  {
    var start := 0;
    assert out[0..] == out;
    while start < |out| - 1 && out[start] == DIGIT0
      invariant 0 <= start < |out| && NatOf(out[start..]) == NatOf(out)
    {
      LeadingZero(out[start..]);
      assert out[start..][1..] == out[start + 1..];
      start := start + 1;
    }
    digits := out[start..];
    if start == |out| - 1 {
      OneDigit(out[start]);
      assert digits == [out[start]];
    }
  }

  lemma OneDigit(c: byte)
    ensures NatOf([c]) == Digit(c)
  {
    assert [c][..0] == [];
  }

  /** The digits minus u. */
  method DigitsSub(digits: bytes, u: nat) returns (difference: bytes)
    requires Canonical(digits) && u < NatOf(digits)
    ensures Canonical(difference) && NatOf(difference) == NatOf(digits) - u
  {
    hide NatOf, Pow10;
    var n := |digits|;
    var out := new byte[n](k requires 0 <= k < |digits| => digits[k]);
    assert out[..] == digits;
    ghost var total := NatOf(digits) - u;
    Units();
    var i: int, rest: nat, borrow: nat := n - 1, u, 0;
    while i >= 0 && (rest != 0 || borrow != 0)
      invariant -1 <= i < n && AllDigits(out[..]) && borrow <= 1
      invariant total == NatOf(out[..]) - (rest + borrow) * Pow10(n - 1 - i)
    {
      ghost var before := out[..];
      var sub, have := rest % 10 + borrow, (out[i] - DIGIT0) as nat;
      var next := if have >= sub then 0 else 1;
      var c: byte := DIGIT0 + have + 10 * next - sub;
      SubPlace(total, before, i, rest, borrow, c, next);
      out[i] := c;
      assert out[..] == before[i := c];
      rest, borrow := rest / 10, next;
      i := i - 1;
    }
    if i < 0 {
      NatBound(out[..]);
      NothingBorrowed(total, NatOf(out[..]), rest + borrow, Pow10(n));
    }
    difference := DropLeadingZeros(out[..]);
  }

  /** The decimal spelling of a 64-bit word. */
  method AppendDecimalUint64(v: nat) returns (digits: bytes)
    requires 0 < v < TWO_TO_THE_64
    ensures Canonical(digits) && NatOf(digits) == v
  {
    hide NatOf, Pow10, AllDigits, Canonical;
    var rest, i := v, 20;
    var buf := new byte[20](_ => DIGIT0);
    assert buf[20..] == [];
    StartDigits(v);
    while true
      invariant 0 < i <= 20 && 0 < rest < Pow10(i) && AllDigits(buf[i..])
      invariant v == rest * Pow10(20 - i) + NatOf(buf[i..])
      decreases i
    {
      ghost var tail := buf[i..];
      i := i - 1;
      var c: byte := DIGIT0 + rest % 10;
      buf[i] := c;
      assert buf[i..] == [c] + tail;
      PrependDigit(v, rest, c, tail);
      FewerDigits(rest, i);
      rest := rest / 10;
      if rest == 0 {
        return buf[i..];
      }
    }
  }

  lemma StartDigits(v: nat)
    requires v < TWO_TO_THE_64
    ensures v < Pow10(20) && v == v * Pow10(0) + NatOf([]) && AllDigits([])
  {
    TwentyDigits();
  }

  lemma PrependDigit(v: nat, rest: nat, c: byte, tail: bytes)
    requires v == rest * Pow10(|tail|) + NatOf(tail) && c == DIGIT0 + rest % 10 && AllDigits(tail) && rest > 0
    ensures v == rest / 10 * Pow10(|tail| + 1) + NatOf([c] + tail)
    ensures AllDigits([c] + tail) && (rest / 10 == 0 ==> Canonical([c] + tail) && v == NatOf([c] + tail))
  {
    hide NatOf;
    NatAppend([c], tail);
    OneDigit(c);
    Shifted(rest, Pow10(|tail|));
  }

  lemma FewerDigits(rest: nat, i: nat)
    requires rest < Pow10(i + 1)
    ensures rest / 10 < Pow10(i) && Pow10(0) == 1
  {
  }

  lemma Shifted(v: nat, p: nat)
    ensures v * p == v / 10 * (10 * p) + v % 10 * p
  {
    var q, r := v / 10, v % 10;
    assert v * p == (10 * q + r) * p == 10 * q * p + r * p;
  }

  lemma TwentyDigits()
    ensures Pow10(20) == 100000000000000000000 && Pow10(19) == SMALL_LIMIT && Pow10(18) == 1000000000000000000
  {
    assert Pow10(5) == 100000;
    assert Pow10(10) == 10000000000 by { Pow10Add(5, 5); }
    assert Pow10(15) == 1000000000000000 by { Pow10Add(10, 5); }
    Pow10Add(15, 3);
    assert Pow10(3) == 1000;
  }

  // ---- The parts of a token ------------------------------------------------------------------------------------

  datatype DecNumber = DecNumber(zero: bool, neg: bool, sigFirst: int, sigLast: int, dot: int, weight: int,
                                 expFits: bool, expNeg: bool, expDigits: bytes, adj: int)

  /** The digits at positions i to last, without the point. */
  function Strip(s: bytes, dot: int, i: int, last: int): bytes
    requires 0 <= i && last < |s|
    decreases last + 1 - i
  {
    if i > last then [] else if i == dot then Strip(s, dot, i + 1, last) else [s[i]] + Strip(s, dot, i + 1, last)
  }

  lemma StripDot(s: bytes, dot: int, i: int, last: int)
    requires 0 <= i && last < |s|
    ensures i == dot ==> Strip(s, dot, i, last) == Strip(s, dot, i + 1, last)
  {
  }

  lemma StripNext(s: bytes, dot: int, i: int, last: int)
    requires 0 <= i <= last < |s| && i != dot
    ensures Strip(s, dot, i, last) == [s[i]] + Strip(s, dot, i + 1, last)
  {
  }

  /** How many digits of the token come before position i. */
  function DigitsBefore(s: bytes, i: int): int {
    if i <= IntEnd(s) then i - IntStart(s) else i - IntStart(s) - 1
  }

  predicate DigitPosition(s: bytes, i: int) {
    IntStart(s) <= i < IntEnd(s) || FracStart(s) <= i < FracEnd(s)
  }

  function DotPosition(s: bytes): int {
    if HasDot(s) then IntEnd(s) else -1
  }

  lemma DigitsAt(s: bytes, i: int)
    requires DigitPosition(s, i)
    ensures 0 <= DigitsBefore(s, i) < |Digits(s)| && Digits(s)[DigitsBefore(s, i)] == s[i]
    ensures DigitsBefore(s, i + 1) == DigitsBefore(s, i) + 1
  {
  }

  lemma {:induction false} StripIsDigits(s: bytes, i: int, last: int)
    requires DigitPosition(s, last) && IntStart(s) <= i <= last + 1
    ensures 0 <= DigitsBefore(s, i) <= DigitsBefore(s, last) + 1 <= |Digits(s)|
    ensures Strip(s, DotPosition(s), i, last) == Digits(s)[DigitsBefore(s, i)..DigitsBefore(s, last) + 1]
    decreases last + 1 - i
  {
    hide Strip;
    DigitsAt(s, last);
    var g, f, l := Digits(s), DigitsBefore(s, i), DigitsBefore(s, last);
    if i <= last {
      StripIsDigits(s, i + 1, last);
      if i == DotPosition(s) {
        assert DigitsBefore(s, i + 1) == f;
        StripDot(s, i, i, last);
      } else {
        Between(s, i, last);
        DigitsAt(s, i);
        StripNext(s, DotPosition(s), i, last);
        hide Digits;
        assert g[f..l + 1] == [g[f]] + g[f + 1..l + 1];
      }
    } else {
      assert g[f..l + 1] == [];
      StripPast(s, DotPosition(s), i, last);
    }
  }

  /** Only digits and the point lie before a digit. */
  lemma Between(s: bytes, i: int, last: int)
    requires DigitPosition(s, last) && IntStart(s) <= i <= last && i != DotPosition(s)
    ensures DigitPosition(s, i)
  {
  }

  lemma StripPast(s: bytes, dot: int, i: int, last: int)
    requires 0 <= i && last < |s| && i > last
    ensures Strip(s, dot, i, last) == []
  {
  }

  /** The parse of a nonzero token; f and l are the first and last significant ones of all its digits. */
  predicate Parsed(s: bytes, d: DecNumber, f: nat, l: nat) {
    !d.zero && d.neg == (IntStart(s) == 1) && d.dot == DotPosition(s) &&
    SignificantDigits(Digits(s), f, l) && 0 <= d.sigFirst <= d.sigLast < |s| &&
    Strip(s, d.dot, d.sigFirst, d.sigLast) == Digits(s)[f..l + 1] &&
    d.adj == IntEnd(s) - IntStart(s) - 1 - f
  }

  /** The exponent's sign and its digits without leading zeros. */
  predicate ParsedExponent(s: bytes, d: DecNumber)
    requires HasExponent(s) ==> ExponentStart(s) <= |s|
  {
    Canonical(d.expDigits) && |d.expDigits| <= |s| && Signed(d.expNeg, NatOf(d.expDigits)) == Exponent(s) &&
    d.expFits == (|d.expDigits| <= 18) && (d.expFits && !d.zero ==> d.weight == Exponent(s) + d.adj)
  }

  lemma {:induction false} SkipZeros(s: bytes, k: nat)
    requires k <= |s| && AllZeros(s[..k])
    ensures NatOf(s[k..]) == NatOf(s)
  {
    assert s == s[..k] + s[k..];
    NatAppend(s[..k], s[k..]);
    NatZeros(s[..k]);
  }

  /** The word written by at most 19 digits. */
  method ParseWord(digits: bytes) returns (m: nat)
    requires AllDigits(digits) && |digits| <= 19
    ensures m == NatOf(digits) < SMALL_LIMIT
  {
    m := 0;
    var i := 0;
    while i < |digits|
      invariant 0 <= i <= |digits| && m == NatOf(digits[..i])
    {
      assert digits[..i + 1][..i] == digits[..i];
      m := 10 * m + (digits[i] - DIGIT0);
      i := i + 1;
    }
    assert digits[..i] == digits;
    NatBound(digits);
    Pow10Grows(|digits|, 19);
    TwentyDigits();
  }

  /** The digits without leading zeros. */
  method StripZeros(t: bytes) returns (digits: bytes)
    requires AllDigits(t)
    ensures Canonical(digits) && |digits| <= |t| && NatOf(digits) == NatOf(t)
  {
    var i := 0;
    while i < |t| && t[i] == DIGIT0
      invariant 0 <= i <= |t| && AllZeros(t[..i])
    {
      i := i + 1;
    }
    SkipZeros(t, i);
    digits := t[i..];
  }

  lemma ExponentShape(s: bytes)
    requires IsNumber(s) && HasExponent(s)
    ensures ExponentStart(s) <= |s| && AllDigits(s[ExponentStart(s)..])
  {
    NumberShape(s);
    SkippedAreDigits(s, ExponentStart(s));
    assert s[ExponentStart(s)..|s|] == s[ExponentStart(s)..];
  }

  /** The exponent, as an int64 when its digits are few enough. */
  method ParseExponent(s: bytes, at: nat) returns (neg: bool, digits: bytes, fits: bool, exp: int)
    requires IsNumber(s) && at == FracEnd(s)
    ensures HasExponent(s) ==> ExponentStart(s) <= |s|
    ensures Canonical(digits) && |digits| <= |s| && Signed(neg, NatOf(digits)) == Exponent(s)
    ensures fits == (|digits| <= 18) && (fits ==> exp == Exponent(s) && Abs(exp) < 1000000000000000000)
  {
    hide NatOf, Pow10, IsNumber, FracEnd;
    neg, digits, fits, exp := false, [], true, 0;
    Units();
    if at < |s| {
      ExponentShape(s);
      var i := at + 1;
      if i < |s| && s[i] == PLUS {
        i := i + 1;
      } else if i < |s| && s[i] == MINUS {
        neg := true;
        i := i + 1;
      }
      digits := StripZeros(s[i..]);
      if |digits| <= 18 {
        exp := ParseWord(digits);
        NatBound(digits);
        Pow10Grows(|digits|, 18);
        TwentyDigits();
        if neg {
          exp := -exp;
        }
      } else {
        fits := false;
      }
    }
  }

  /** The first significant digit and the weight it has before the exponent; negative when all digits are zeros. */
  method FindFirst(s: bytes) returns (first: int, adj: int, ghost f: nat)
    requires IsNumber(s)
    ensures first < 0 ==> AllZeros(Digits(s))
    ensures first >= 0 ==> DigitPosition(s, first) && f == DigitsBefore(s, first) < |Digits(s)| && AllZeros(Digits(s)[..f]) && Digits(s)[f] != DIGIT0
    ensures first >= 0 ==> adj == IntEnd(s) - IntStart(s) - 1 - f
  {
    NumberShape(s);
    hide IsNumber;
    var intStart, intEnd, fracStart, fracEnd := IntStart(s), IntEnd(s), FracStart(s), FracEnd(s);
    if s[intStart] != DIGIT0 {
      DigitsAt(s, intStart);
      return intStart, intEnd - intStart - 1, 0;
    }
    var j := fracStart;
    while j < fracEnd
      invariant fracStart <= j <= fracEnd && ZerosBefore(s, j)
    {
      if s[j] != DIGIT0 {
        DigitsAt(s, j);
        FirstFound(s, j);
        return j, fracStart - j - 1, DigitsBefore(s, j);
      }
      j := j + 1;
    }
    AllZeroToken(s);
    return -1, 0, 0;
  }

  predicate ZerosBefore(s: bytes, j: int) {
    forall k | 0 <= k < |s| && k < j && DigitPosition(s, k) :: s[k] == DIGIT0
  }

  lemma FirstFound(s: bytes, first: nat)
    requires DigitPosition(s, first) && ZerosBefore(s, first)
    ensures DigitsBefore(s, first) <= |Digits(s)| && AllZeros(Digits(s)[..DigitsBefore(s, first)])
  {
    DigitsAt(s, first);
    forall k | 0 <= k < DigitsBefore(s, first)
      ensures Digits(s)[k] == DIGIT0
    {
      var p := PositionOf(s, k);
      assert p < first;
    }
  }

  lemma AllZeroToken(s: bytes)
    requires ZerosBefore(s, FracEnd(s))
    ensures AllZeros(Digits(s))
  {
    forall k | 0 <= k < |Digits(s)|
      ensures Digits(s)[k] == DIGIT0
    {
      var p := PositionOf(s, k);
    }
  }

  /** The position in the token of its k-th digit. */
  function PositionOf(s: bytes, k: nat): (p: int)
    requires k < |Digits(s)|
    ensures DigitPosition(s, p) && DigitsBefore(s, p) == k && Digits(s)[k] == s[p]
  {
    if k < IntEnd(s) - IntStart(s) then IntStart(s) + k else FracStart(s) + k - (IntEnd(s) - IntStart(s))
  }

  predicate ZerosAfter(s: bytes, j: int) {
    forall k | 0 <= k < |s| && j < k && DigitPosition(s, k) :: s[k] == DIGIT0
  }

  lemma LastFound(s: bytes, last: nat, f: nat)
    requires DigitPosition(s, last) && ZerosAfter(s, last) && f < |Digits(s)| && Digits(s)[f] != DIGIT0
    ensures var l := DigitsBefore(s, last); f <= l < |Digits(s)| && AllZeros(Digits(s)[l + 1..])
  {
    DigitsAt(s, last);
    var l := DigitsBefore(s, last);
    forall k | l < k < |Digits(s)|
      ensures Digits(s)[k] == DIGIT0
    {
      var p := PositionOf(s, k);
      assert p > last;
    }
  }

  /** The last significant digit. */
  method FindLast(s: bytes, ghost f: nat) returns (last: nat, ghost l: nat)
    requires IsNumber(s) && f < |Digits(s)| && Digits(s)[f] != DIGIT0
    ensures DigitPosition(s, last) && l == DigitsBefore(s, last) && f <= l < |Digits(s)| && AllZeros(Digits(s)[l + 1..]) && Digits(s)[l] != DIGIT0
  {
    NumberShape(s);
    hide IsNumber;
    var intStart, intEnd, fracStart, fracEnd := IntStart(s), IntEnd(s), FracStart(s), FracEnd(s);
    var j: int := fracEnd - 1;
    while j >= fracStart
      invariant fracStart - 1 <= j < fracEnd && ZerosAfter(s, j)
    {
      if s[j] != DIGIT0 {
        DigitsAt(s, j);
        LastFound(s, j, f);
        return j, DigitsBefore(s, j);
      }
      j := j - 1;
    }
    j := intEnd - 1;
    ghost var p := PositionOf(s, f);
    while s[j] == DIGIT0
      invariant intStart <= p <= j < intEnd && ZerosAfter(s, j)
      decreases j
    {
      j := j - 1;
    }
    DigitsAt(s, j);
    LastFound(s, j, f);
    return j, DigitsBefore(s, j);
  }

  lemma AllAreDigits(s: bytes)
    requires IsNumber(s)
    ensures AllDigits(Digits(s))
  {
    SkippedAreDigits(s, IntStart(s));
    SkippedAreDigits(s, FracStart(s));
  }

  /** Splits a token into sign, significant digits and weight. */
  method ParseDecNumber(s: bytes) returns (d: DecNumber, ghost f: nat, ghost l: nat)
    requires IsNumber(s) && |s| < TWO_TO_THE_62
    ensures HasExponent(s) ==> ExponentStart(s) <= |s|
    ensures ParsedExponent(s, d)
    ensures if d.zero then AllZeros(Digits(s)) else Parsed(s, d, f, l) && Abs(d.adj) < TWO_TO_THE_62
  {
    NumberShape(s);
    hide NatOf, IsNumber, Strip, Exponent, Canonical, Digits, SignificantDigits, SkipDigits;
    var neg := s[0] == MINUS;
    var expNeg, expDigits, expFits, exp := ParseExponent(s, FracEnd(s));
    d := DecNumber(true, neg, -1, -1, if HasDot(s) then IntEnd(s) else -1, 0, expFits, expNeg, expDigits, 0);
    var first, last, adj;
    first, last, adj, f, l := FindSignificant(s);
    if first < 0 {
      return;
    }
    var weight := 0;
    if expFits {
      assert -0x8000_0000_0000_0000 <= exp + adj < 0x8000_0000_0000_0000;
      weight := exp + adj;
    }
    d := d.(zero := false, sigFirst := first, sigLast := last, weight := weight, adj := adj);
  }

  /** The positions of the first and the last digit that is not zero, and the weight of the first; -1 when all are zero. */
  method FindSignificant(s: bytes) returns (first: int, last: nat, adj: int, ghost f: nat, ghost l: nat)
    requires IsNumber(s)
    ensures first < 0 ==> AllZeros(Digits(s))
    ensures first >= 0 ==>
      SignificantDigits(Digits(s), f, l) && first <= last < |s| && Strip(s, DotPosition(s), first, last) == Digits(s)[f..l + 1] &&
      f <= |s| && adj == IntEnd(s) - IntStart(s) - 1 - f
  {
    hide IsNumber, Strip, Digits, SignificantDigits, DigitsBefore, SkipDigits;
    first, adj, f := FindFirst(s);
    last, l := 0, 0;
    if first >= 0 {
      last, l := FindLast(s, f);
      Significant(s, first, last, f, l);
    }
  }

  /** The first and last significant positions enclose exactly the significant digits. */
  lemma Significant(s: bytes, first: int, last: nat, f: nat, l: nat)
    requires IsNumber(s) && DigitPosition(s, first) && DigitPosition(s, last) && f == DigitsBefore(s, first) && l == DigitsBefore(s, last)
    requires f <= l < |Digits(s)| && AllZeros(Digits(s)[..f]) && AllZeros(Digits(s)[l + 1..]) && Digits(s)[f] != DIGIT0 && Digits(s)[l] != DIGIT0
    ensures SignificantDigits(Digits(s), f, l) && 0 <= first <= last < |s| && f <= |s|
    ensures Strip(s, DotPosition(s), first, last) == Digits(s)[f..l + 1]
  {
    AllAreDigits(s);
    hide Strip, IsNumber;
    StripIsDigits(s, first, last);
  }

  // ---- Weights ----------------------------------------------------------------------------------------------------

  /** Adds a signed 64-bit amount to a signed magnitude; zero is never negative. */
  function DecSignedAdd(neg: bool, m: nat, adj: int): (r: (bool, nat))
    ensures Signed(r.0, r.1) == Signed(neg, m) + adj && (r.0 ==> r.1 > 0)
    ensures r.1 <= m + Abs(adj)
  {
    var a := Abs(adj);
    if neg == (adj < 0) then (neg && m + a != 0, m + a)
    else if m >= a then (neg && m != a, m - a)
    else (!neg, a - m)
  }

  /** A weight as a word, or as canonical digits when it is too large for one. */
  predicate Term(w: int, neg: bool, small: bool, mag: nat, digits: bytes) {
    (neg ==> w < 0) && (!neg ==> w >= 0) &&
    if small then mag == Abs(w) < SMALL_LIMIT && digits == []
    else Canonical(digits) && NatOf(digits) == Abs(w) >= SMALL_LIMIT && mag == 0
  }

  /** Two terms are equal exactly when the weights are. */
  lemma SameTerm(v: int, vn: bool, vs: bool, vm: nat, vd: bytes, w: int, wn: bool, ws: bool, wm: nat, wd: bytes)
    requires Term(v, vn, vs, vm, vd) && Term(w, wn, ws, wm, wd)
    ensures v == w <==> vn == wn && vs == ws && vm == wm && vd == wd
  {
    if !vs && !ws && v == w {
      Unique(vd, wd);
    }
  }

  method DecWeightTerm(d: DecNumber) returns (neg: bool, small: bool, mag: nat, digits: bytes)
    requires Canonical(d.expDigits) && Abs(d.adj) < TWO_TO_THE_62
    ensures Term(Signed(d.expNeg, NatOf(d.expDigits)) + d.adj, neg, small, mag, digits)
  {
    hide NatOf, Pow10;
    if |d.expDigits| <= 19 {
      var m := ParseWord(d.expDigits);
      var sum := DecSignedAdd(d.expNeg, m, d.adj);
      assert sum.1 < TWO_TO_THE_64;
      if sum.1 < SMALL_LIMIT {
        return sum.0, true, sum.1, [];
      }
      digits := AppendDecimalUint64(sum.1);
      return sum.0, false, 0, digits;
    }
    NatBound(d.expDigits);
    Pow10Grows(19, |d.expDigits| - 1);
    TwentyDigits();
    if d.expNeg == (d.adj < 0) {
      digits := DigitsAdd(d.expDigits, Abs(d.adj));
    } else {
      digits := DigitsSub(d.expDigits, Abs(d.adj));
    }
    neg := d.expNeg;
    if |digits| <= 19 {
      var m := ParseWord(digits);
      return neg, true, m, [];
    }
    NatBound(digits);
    Pow10Grows(19, |digits| - 1);
    return neg, false, 0, digits;
  }

  method DecWeightEqual(a: DecNumber, b: DecNumber, ghost v: int, ghost w: int) returns (equal: bool)
    requires Canonical(a.expDigits) && Abs(a.adj) < TWO_TO_THE_62 && v == Signed(a.expNeg, NatOf(a.expDigits)) + a.adj
    requires Canonical(b.expDigits) && Abs(b.adj) < TWO_TO_THE_62 && w == Signed(b.expNeg, NatOf(b.expDigits)) + b.adj
    requires (a.expFits ==> a.weight == v) && (b.expFits ==> b.weight == w)
    ensures equal == (v == w)
  {
    if a.expFits && b.expFits {
      return a.weight == b.weight;
    }
    var an, aSmall, aMag, aDigits := DecWeightTerm(a);
    var bn, bSmall, bMag, bDigits := DecWeightTerm(b);
    SameTerm(v, an, aSmall, aMag, aDigits, w, bn, bSmall, bMag, bDigits);
    if aSmall != bSmall {
      return false;
    }
    if aSmall {
      return an == bn && aMag == bMag;
    }
    return an == bn && aDigits == bDigits;
  }

  // ---- Equality -----------------------------------------------------------------------------------------------------

  lemma {:induction false} StripEmpty(s: bytes, dot: int, i: int, last: int)
    requires 0 <= i && last < |s| && i != dot
    ensures Strip(s, dot, i, last) == [] <==> i > last
  {
  }

  lemma ConsEqual<T>(x: T, s: seq<T>, y: T, t: seq<T>)
    ensures [x] + s == [y] + t <==> x == y && s == t
  {
    if [x] + s == [y] + t {
      assert s == ([x] + s)[1..] && t == ([y] + t)[1..];
      assert x == ([x] + s)[0] && y == ([y] + t)[0];
    }
  }

  /** Compares the significant digits, stepping over the points. */
  method SameDigits(a: bytes, da: DecNumber, b: bytes, db: DecNumber) returns (same: bool)
    requires 0 <= da.sigFirst <= da.sigLast < |a| && 0 <= db.sigFirst <= db.sigLast < |b|
    ensures same == (Strip(a, da.dot, da.sigFirst, da.sigLast) == Strip(b, db.dot, db.sigFirst, db.sigLast))
  {
    hide Strip;
    var i, j := da.sigFirst, db.sigFirst;
    ghost var goal := Strip(a, da.dot, i, da.sigLast) == Strip(b, db.dot, j, db.sigLast);
    while true
      invariant 0 <= i && 0 <= j && goal == (Strip(a, da.dot, i, da.sigLast) == Strip(b, db.dot, j, db.sigLast))
      decreases da.sigLast + 2 - i
    {
      StripDot(a, da.dot, i, da.sigLast);
      if i == da.dot {
        i := i + 1;
      }
      StripDot(b, db.dot, j, db.sigLast);
      if j == db.dot {
        j := j + 1;
      }
      var aMore, bMore := i <= da.sigLast, j <= db.sigLast;
      StripEmpty(a, da.dot, i, da.sigLast);
      StripEmpty(b, db.dot, j, db.sigLast);
      if !aMore || !bMore {
        return aMore == bMore;
      }
      StripNext(a, da.dot, i, da.sigLast);
      StripNext(b, db.dot, j, db.sigLast);
      ConsEqual(a[i], Strip(a, da.dot, i + 1, da.sigLast), b[j], Strip(b, db.dot, j + 1, db.sigLast));
      if a[i] != b[j] {
        return false;
      }
      i, j := i + 1, j + 1;
    }
  }

  lemma ZeroValue(s: bytes)
    requires IsNumber(s) && AllZeros(Digits(s))
    ensures Denotes(s) == 0.0
  {
    hide NatOf, Ten, IsNumber;
    NatZeros(Digits(s));
  }

  /** The value of a nonzero token in normal form. */
  lemma NonzeroValue(s: bytes, d: DecNumber, f: nat, l: nat)
    requires IsNumber(s) && Parsed(s, d, f, l)
    ensures HasExponent(s) ==> ExponentStart(s) <= |s|
    ensures var sig := Digits(s)[f..l + 1];
            Canonical(sig) && sig != [] && sig[|sig| - 1] != DIGIT0 &&
            Denotes(s) == if d.neg then -Scaled(sig, Exponent(s) + d.adj) else Scaled(sig, Exponent(s) + d.adj)
  {
    hide NatOf, Ten, IsNumber, Scaled, Magnitude, Exponent, Digits, SignificantDigits, Canonical, Strip, HasExponent, ExponentStart;
    NumberShape(s);
    SignificantPart(Digits(s), f, l);
    NormalMagnitude(s, f, l);
  }

  lemma ParsedParts(s: bytes, d: DecNumber, f: nat, l: nat)
    requires Parsed(s, d, f, l)
    ensures f <= l < |Digits(s)| && SignificantDigits(Digits(s), f, l) && 0 <= d.sigFirst <= d.sigLast < |s| && d.dot == DotPosition(s)
    ensures d.neg == (IntStart(s) == 1) && Strip(s, d.dot, d.sigFirst, d.sigLast) == Digits(s)[f..l + 1]
    ensures !d.zero
  {
  }

  lemma ExponentParts(s: bytes, d: DecNumber)
    requires (HasExponent(s) ==> ExponentStart(s) <= |s|) && ParsedExponent(s, d)
    ensures Canonical(d.expDigits) && Signed(d.expNeg, NatOf(d.expDigits)) == Exponent(s)
    ensures d.expFits && !d.zero ==> d.weight == Exponent(s) + d.adj
  {
  }

  lemma DigitsLength(s: bytes)
    ensures |Digits(s)| == IntEnd(s) - IntStart(s) + FracEnd(s) - FracStart(s)
  {
  }

  lemma NormalMagnitude(s: bytes, f: nat, l: nat)
    requires HasExponent(s) ==> ExponentStart(s) <= |s|
    requires SignificantDigits(Digits(s), f, l)
    ensures Magnitude(s) == Scaled(Digits(s)[f..l + 1], Exponent(s) + (IntEnd(s) - IntStart(s) - 1 - f))
  {
    hide Digits, Exponent, SignificantDigits, Scaled, Ten, NatOf, IntEnd, IntStart, FracEnd, FracStart, HasExponent, ExponentStart;
    var n := IntEnd(s) - IntStart(s);
    DigitsLength(s);
    Normalized(Digits(s), f, l, Exponent(s), n);
  }

  lemma SignificantPart(g: bytes, f: nat, l: nat)
    requires SignificantDigits(g, f, l)
    ensures var sig := g[f..l + 1]; Canonical(sig) && sig != [] && sig[|sig| - 1] != DIGIT0
  {
  }

  /** Two tokens compare equal exactly when they denote the same rational number. */
  method JSONNumberEqual(a: bytes, b: bytes) returns (equal: bool)
    requires IsNumber(a) && IsNumber(b) && |a| < TWO_TO_THE_62 && |b| < TWO_TO_THE_62
    ensures equal <==> Denotes(a) == Denotes(b)
  {
    hide *;
    if a == b {
      return true;
    }
    var da, af, al := ParseDecNumber(a);
    var db, bf, bl := ParseDecNumber(b);
    if da.zero || db.zero {
      ZeroOrNot(a, da, af, al);
      ZeroOrNot(b, db, bf, bl);
      return da.zero == db.zero;
    }
    Compared(a, da, af, al, b, db, bf, bl);
    if da.neg != db.neg {
      return false;
    }
    ParsedParts(a, da, af, al);
    ParsedParts(b, db, bf, bl);
    ExponentParts(a, da);
    ExponentParts(b, db);
    equal := DecWeightEqual(da, db, Exponent(a) + da.adj, Exponent(b) + db.adj);
    if !equal {
      return;
    }
    equal := SameDigits(a, da, b, db);
  }

  lemma ZeroOrNot(s: bytes, d: DecNumber, f: nat, l: nat)
    requires IsNumber(s) && if d.zero then AllZeros(Digits(s)) else Parsed(s, d, f, l)
    ensures d.zero <==> Denotes(s) == 0.0
  {
    hide NatOf, Ten, IsNumber, Scaled, Denotes;
    if d.zero {
      ZeroValue(s);
    } else {
      NonzeroValue(s, d, f, l);
      ScaledPositive(Digits(s)[f..l + 1], Exponent(s) + d.adj);
    }
  }

  /** Nonzero tokens agree exactly when signs, weights and significant digits do. */
  lemma Compared(a: bytes, da: DecNumber, af: nat, al: nat, b: bytes, db: DecNumber, bf: nat, bl: nat)
    requires IsNumber(a) && IsNumber(b) && Parsed(a, da, af, al) && Parsed(b, db, bf, bl)
    ensures (HasExponent(a) ==> ExponentStart(a) <= |a|) && (HasExponent(b) ==> ExponentStart(b) <= |b|)
    ensures Denotes(a) == Denotes(b) <==>
            da.neg == db.neg && Exponent(a) + da.adj == Exponent(b) + db.adj &&
            Strip(a, da.dot, da.sigFirst, da.sigLast) == Strip(b, db.dot, db.sigFirst, db.sigLast)
  {
    hide *;
    NonzeroValue(a, da, af, al);
    NonzeroValue(b, db, bf, bl);
    ParsedParts(a, da, af, al);
    ParsedParts(b, db, bf, bl);
    var s, t, v, w := Digits(a)[af..al + 1], Digits(b)[bf..bl + 1], Exponent(a) + da.adj, Exponent(b) + db.adj;
    ScaledPositive(s, v);
    ScaledPositive(t, w);
    NormalFormUnique(s, t, v, w);
    SignedEqual(da.neg, Scaled(s, v), db.neg, Scaled(t, w));
  }

  lemma SignedEqual(na: bool, x: real, nb: bool, y: real)
    requires x > 0.0 && y > 0.0
    ensures (if na then -x else x) == (if nb then -y else y) <==> na == nb && x == y
  {
  }
}
