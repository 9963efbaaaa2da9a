/**
 The number tokens of section 6 of RFC 8259 as spellings, part by part and byte by byte: which byte strings
 they are, and the value each one has.
 */
module Numerals {
  import opened Json
  import opened Decimal

  /** The exponent part: its letter, its sign if it is written, its digits. */
  datatype Power = Power(letter: byte, sign: bytes, digits: bytes)

  datatype Numeral = Numeral(negative: bool, whole: bytes, fraction: Option<bytes>, power: Option<Power>)

  predicate Figures(s: bytes) {
    s != [] && forall k | 0 <= k < |s| :: 0x30 <= s[k] <= 0x39
  }

  predicate CorrectPower(p: Power) {
    (p.letter == 0x65 || p.letter == 0x45) && (p.sign == [] || p.sign == [0x2B] || p.sign == [0x2D]) && Figures(p.digits)
  }

  /** No part is empty, and the integer part has no leading zero. */
  predicate Correct(n: Numeral) {
    Figures(n.whole) && (n.whole[0] == 0x30 ==> |n.whole| == 1) &&
    (n.fraction.Some? ==> Figures(n.fraction.value)) && (n.power.Some? ==> CorrectPower(n.power.value))
  }

  function SpelledFraction(f: Option<bytes>): bytes {
    if f.None? then [] else [0x2E] + f.value
  }

  function SpelledPower(p: Option<Power>): bytes {
    if p.None? then [] else [p.value.letter] + p.value.sign + p.value.digits
  }

  function Spelled(n: Numeral): bytes {
    (if n.negative then [0x2D] else []) + n.whole + SpelledFraction(n.fraction) + SpelledPower(n.power)
  }

  function PowerOf(p: Option<Power>): int {
    if p.None? then 0 else if p.value.sign == [0x2D] then -(NatOf(p.value.digits) as int) else NatOf(p.value.digits)
  }

  /** All digits of both parts as one number, shifted by the exponent less the length of the fraction. */
  function NumeralValue(n: Numeral): real {
    var f := if n.fraction.None? then [] else n.fraction.value;
    var m := NatOf(n.whole + f) as real * Ten(PowerOf(n.power) - |f|);
    if n.negative then -m else m
  }

  // ---- Spellings are tokens ---------------------------------------------------------------------------------------

  lemma FiguresAreDigits(s: bytes)
    ensures Figures(s) <==> s != [] && AllDigits(s)
  {
    if AllDigits(s) {
      forall k | 0 <= k < |s| ensures 0x30 <= s[k] <= 0x39 {
        assert IsDigit(s[k]);
      }
    }
  }

  /** A run of figures in front of anything but a digit is skipped to its end. */
  lemma FiguresSkipped(a: bytes, f: bytes, b: bytes)
    requires Figures(f) && (b != [] ==> !IsDigit(b[0]))
    ensures var s := a + f + b;
            DigitAt(s, |a|) && s[|a|] == f[0] && SkipDigits(s, |a|) == |a| + |f| && s[|a|..|a| + |f|] == f
  {
    var s := a + f + b;
    assert s[|a|..|a| + |f|] == f;
    FiguresAreDigits(f);
    RunOfDigits(s, |a|, |a| + |f|);
    assert s[|a|] == f[0];
    assert b != [] ==> s[|a| + |f|] == b[0];
  }

  /** The parts of a spelling after its sign and its integer part start with no digit. */
  lemma NoDigitNext(n: Numeral)
    requires Correct(n)
    ensures var b := SpelledFraction(n.fraction) + SpelledPower(n.power); b != [] ==> !IsDigit(b[0])
    ensures SpelledPower(n.power) != [] ==> !IsDigit(SpelledPower(n.power)[0]) && SpelledPower(n.power)[0] != DOT
  {
  }

  lemma WholeReads(n: Numeral)
    requires Correct(n)
    ensures var s := Spelled(n);
            IntStart(s) == (if n.negative then 1 else 0) && IntEnd(s) == IntStart(s) + |n.whole| && s[IntStart(s)..IntEnd(s)] == n.whole &&
            ScanNumber(s, 0) == ScanFraction(s, IntEnd(s))
  {
    hide ScanFraction, SkipDigits, SpelledFraction, SpelledPower;
    var a, b := if n.negative then [0x2D] else [], SpelledFraction(n.fraction) + SpelledPower(n.power);
    var s := Spelled(n);
    assert s == a + n.whole + b;
    NoDigitNext(n);
    FiguresSkipped(a, n.whole, b);
    assert n.negative ==> s[0] == 0x2D;
    assert !n.negative ==> s[0] == n.whole[0];
  }

  lemma FractionReads(n: Numeral)
    requires Correct(n)
    ensures var s := Spelled(n);
            IntEnd(s) + |SpelledFraction(n.fraction)| == FracEnd(s) && HasDot(s) == n.fraction.Some? &&
            (n.fraction.Some? ==> s[FracStart(s)..FracEnd(s)] == n.fraction.value) && s[FracEnd(s)..] == SpelledPower(n.power) &&
            ScanFraction(s, IntEnd(s)) == ScanExponent(s, FracEnd(s), n.fraction.None?)
  {
    WholeReads(n);
    NoDigitNext(n);
    FractionFigures(n);
    hide SkipDigits, ScanExponent, Correct, IntStart, IntEnd, SpelledPower, SpelledFraction;
    var s, tail := Spelled(n), SpelledPower(n.power);
    Behind(if n.negative then [0x2D] else [], n.whole, SpelledFraction(n.fraction), tail);
    FractionAt(s, IntEnd(s), n.fraction, tail);
  }

  lemma Behind(a: bytes, b: bytes, c: bytes, d: bytes)
    ensures (a + b + c + d)[|a| + |b|..] == c + d
  {
  }

  lemma FractionFigures(n: Numeral)
    requires Correct(n)
    ensures n.fraction.Some? ==> Figures(n.fraction.value)
    ensures n.power.Some? ==> CorrectPower(n.power.value)
  {
  }

  /** A fraction, or none, up to a tail that starts with no digit and no dot. */
  lemma FractionAt(s: bytes, i: nat, f: Option<bytes>, tail: bytes)
    requires i <= |s| && s[i..] == SpelledFraction(f) + tail && (f.Some? ==> Figures(f.value))
    requires tail != [] ==> !IsDigit(tail[0]) && tail[0] != DOT
    ensures var j := i + |SpelledFraction(f)|;
            j <= |s| && s[j..] == tail && ByteAt(s, i, DOT) == f.Some? && ScanFraction(s, i) == ScanExponent(s, j, f.None?) &&
            (f.Some? ==> SkipDigits(s, i + 1) == j && s[i + 1..j] == f.value)
  {
    hide SkipDigits, ScanExponent, Figures;
    var rest := s[i..];
    if f.Some? {
      assert s == (s[..i] + [0x2E]) + f.value + tail;
      FiguresSkipped(s[..i] + [0x2E], f.value, tail);
      assert s[i] == rest[0] && s[i + 1 + |f.value|..] == tail;
    } else {
      assert rest == tail;
      assert tail != [] ==> s[i] == rest[0];
    }
  }

  lemma PowerReads(n: Numeral)
    requires Correct(n)
    ensures var s := Spelled(n);
            HasExponent(s) == n.power.Some? && (HasExponent(s) ==> ExponentStart(s) <= |s|) && Exponent(s) == PowerOf(n.power) &&
            ScanExponent(s, FracEnd(s), n.fraction.None?) == NumberToken(|s|, n.fraction.None? && n.power.None?)
  {
    hide *;
    FractionReads(n);
    FractionFigures(n);
    PowerParts(Spelled(n), n.power, n.fraction.None?);
  }

  lemma PowerParts(s: bytes, p: Option<Power>, integer: bool)
    requires s[FracEnd(s)..] == SpelledPower(p) && (p.Some? ==> CorrectPower(p.value))
    ensures HasExponent(s) == p.Some? && (HasExponent(s) ==> ExponentStart(s) <= |s|) && Exponent(s) == PowerOf(p)
    ensures ScanExponent(s, FracEnd(s), integer) == NumberToken(|s|, integer && p.None?)
  {
    hide SkipDigits, FracEnd, NatOf, ScanExponent, Figures;
    if p.Some? {
      PowerAt(s, FracEnd(s), p.value, integer);
    } else {
      NoPowerAt(s, integer);
    }
  }

  lemma NoPowerAt(s: bytes, integer: bool)
    ensures ScanExponent(s, |s|, integer) == NumberToken(|s|, integer)
  {
  }

  /** An exponent part at the end. */
  lemma PowerAt(s: bytes, i: nat, p: Power, integer: bool)
    requires i < |s| && s[i..] == [p.letter] + p.sign + p.digits && CorrectPower(p)
    ensures ScanExponent(s, i, integer) == NumberToken(|s|, false)
    ensures ByteAt(s, i + 1, MINUS) == (p.sign == [0x2D]) && ByteAt(s, i + 1, PLUS) == (p.sign == [0x2B])
    ensures i + 1 + |p.sign| < |s| && s[i + 1 + |p.sign|..] == p.digits
  {
    hide SkipDigits;
    var rest := s[i..];
    var front := s[..i] + [p.letter] + p.sign;
    assert s == front + p.digits + [];
    FiguresSkipped(front, p.digits, []);
    assert s[i] == rest[0] && s[i + 1] == rest[1];
    assert s[|front|..] == p.digits;
  }

  /** Every correct spelling is a number token of the spelled value; it is an integer token when it has neither fraction nor exponent. */
  lemma SpellingReads(n: Numeral)
    requires Correct(n)
    ensures var s := Spelled(n);
            IsNumber(s) && Denotes(s) == NumeralValue(n) && ScanNumber(s, 0).integer == (n.fraction.None? && n.power.None?)
  {
    hide ScanNumber, ScanFraction, ScanExponent, SkipDigits, NatOf, Ten, Exponent, PowerOf, Correct, Spelled, SpelledPower, IntStart,
      IntEnd, FracEnd, HasDot, HasExponent, ExponentStart;
    WholeReads(n);
    FractionReads(n);
    PowerReads(n);
    var s := Spelled(n);
    NumberShape(s);
    var f := if n.fraction.None? then [] else n.fraction.value;
    assert Digits(s) == n.whole + f;
    assert FracEnd(s) - FracStart(s) == |f|;
  }

  // ---- Tokens are spellings ---------------------------------------------------------------------------------------

  lemma DigitsAreFigures(s: bytes, i: nat)
    requires i <= |s| && i < SkipDigits(s, i)
    ensures Figures(s[i..SkipDigits(s, i)])
  {
    SkippedAreDigits(s, i);
  }

  /** The parts of a number token. */
  lemma SpellingOf(s: bytes) returns (n: Numeral)
    requires IsNumber(s)
    ensures Correct(n) && Spelled(n) == s
  {
    NumberShape(s);
    var fraction := FractionOf(s);
    var power := PowerIn(s);
    hide IsNumber, SkipDigits, IntEnd, FracEnd, SpelledFraction, SpelledPower, Figures, CorrectPower;
    var a, b, d := IntStart(s), IntEnd(s), FracEnd(s);
    DigitsAreFigures(s, a);
    n := Numeral(a == 1, s[a..b], fraction, power);
    WholeFigures(s, n);
    assert s[..a] == if a == 1 then [0x2D] else [];
    InFour(s, a, b, d);
  }

  lemma InFour(s: bytes, a: nat, b: nat, d: nat)
    requires a <= b <= d <= |s|
    ensures s == s[..a] + s[a..b] + s[b..d] + s[d..]
  {
  }

  lemma WholeFigures(s: bytes, n: Numeral)
    requires IntStart(s) < IntEnd(s) && (s[IntStart(s)] == DIGIT0 ==> IntEnd(s) == IntStart(s) + 1) && n.whole == s[IntStart(s)..IntEnd(s)]
    requires (n.fraction.Some? ==> Figures(n.fraction.value)) && (n.power.Some? ==> CorrectPower(n.power.value))
    ensures Correct(n)
  {
    hide SkipDigits, CorrectPower;
    DigitsAreFigures(s, IntStart(s));
  }

  lemma FractionOf(s: bytes) returns (f: Option<bytes>)
    requires IsNumber(s)
    ensures (f.Some? ==> Figures(f.value)) && s[IntEnd(s)..FracEnd(s)] == SpelledFraction(f)
  {
    NumberShape(s);
    hide IsNumber, SkipDigits, IntEnd, Figures;
    f := None;
    if HasDot(s) {
      var b, c, d := IntEnd(s), FracStart(s), FracEnd(s);
      DigitsAreFigures(s, c);
      f := Some(s[c..d]);
      assert s[b..d] == [s[b]] + s[c..d];
    }
  }

  lemma PowerIn(s: bytes) returns (p: Option<Power>)
    requires IsNumber(s)
    ensures (p.Some? ==> CorrectPower(p.value)) && s[FracEnd(s)..] == SpelledPower(p)
  {
    NumberShape(s);
    NumberLetter(s);
    hide IsNumber, SkipDigits, FracEnd, Figures;
    p := None;
    if HasExponent(s) {
      var d, e := FracEnd(s), ExponentStart(s);
      DigitsAreFigures(s, e);
      p := Some(Power(s[d], s[d + 1..e], s[e..]));
      assert s[e..] == s[e..SkipDigits(s, e)];
      assert s[d..] == [s[d]] + s[d + 1..e] + s[e..];
    }
  }

  lemma NumberLetter(s: bytes)
    requires IsNumber(s)
    ensures HasExponent(s) ==> s[FracEnd(s)] == 0x65 || s[FracEnd(s)] == 0x45
  {
    IntegerPart(s);
    hide ScanNumber, SkipDigits;
  }

  /** The number tokens are exactly the correct spellings. */
  lemma NumberTokens(s: bytes)
    ensures IsNumber(s) <==> exists n :: Correct(n) && s == Spelled(n)
  {
    hide IsNumber, Spelled, Correct;
    if IsNumber(s) {
      var n := SpellingOf(s);
    }
    if n :| Correct(n) && s == Spelled(n) {
      SpellingReads(n);
    }
  }
}
