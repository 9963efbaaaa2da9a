/**
 Reading integers: the typed decoders with their short, eight-digit, sixteen-digit and tail paths and the tape
 readers with word loads that end at the number. Each accepts an integer exactly when it lies in the type's range,
 and each reads back what the printer wrote.
 */
module Integers {
  import opened Json
  import opened Decimal
  import NumberEqual
  import opened Words
  import opened Printing
  import opened Quoting
  import opened Documents

  // ---- Windows of digits -------------------------------------------------------------------------------------------

  function Zeros(n: nat): (z: bytes)
    ensures |z| == n && AllZeros(z)
  {
    seq(n, _ => DIGIT0)
  }

  lemma {:induction false} WordAppend(a: bytes, b: bytes)
    ensures WordOf(a + b) == WordOf(a) + Pow256(|a|) * WordOf(b)
  {
    if a == [] {
      assert a + b == b;
    } else {
      WordAppend(a[1..], b);
      assert (a + b)[1..] == a[1..] + b;
      Spread(0x100, WordOf(a[1..]), Pow256(|a| - 1), WordOf(b));
    }
  }

  lemma Spread(u: nat, x: nat, p: nat, y: nat)
    ensures u * (x + p * y) == u * x + (u * p) * y
  {
  }

  lemma {:induction false} WordBelow(b: bytes)
    ensures WordOf(b) < Pow256(|b|)
  {
    if b != [] {
      WordBelow(b[1..]);
    }
  }

  lemma {:induction false} WordOfZeros(n: nat)
    ensures WordOf(Zeros(n)) == Repeated(0x30, n)
  {
    if n > 0 {
      WordOfZeros(n - 1);
      assert Zeros(n)[1..] == Zeros(n - 1);
    }
  }

  function ShiftedDown(x: nat, unit: nat): nat
    requires unit > 0
  {
    x / unit
  }

  /** x without what lies below the unit. */
  function Above(x: nat, unit: nat): nat
    requires unit > 0
  {
    x - x % unit
  }

  /** ASCII zeros in the low 8 - k bytes of a word: the word of eight zeros shifted down by k bytes. */
  function LowZeros(k: nat): nat {
    ShiftedDown(Repeated(0x30, 8), Pow256(k))
  }

  lemma LowZerosAre(k: nat)
    requires k <= 8
    ensures LowZeros(k) == WordOf(Zeros(8 - k))
  {
    hide WordOf, Pow256, Repeated;
    WordOfZeros(8);
    assert Zeros(8) == Zeros(k) + Zeros(8 - k);
    WordAppend(Zeros(k), Zeros(8 - k));
    WordBelow(Zeros(k));
    DivLow(WordOf(Zeros(k)), Pow256(k), WordOf(Zeros(8 - k)));
  }

  lemma ZerosInFront(n: nat, b: bytes)
    requires n + |b| == 8 && AllDigits(b)
    ensures Parse8DigitsWord(WordOf(Zeros(n) + b)) == NatOf(b)
  {
    hide NatOf, WordOf, Pow10, Parse8DigitsWord;
    EightDigits(Zeros(n) + b);
    NatAppend(Zeros(n), b);
    NatZeros(Zeros(n));
  }

  /** The first k bytes of the word moved to its top, with ASCII zeros below. */
  function Backfilled(word: nat, k: nat): nat
    requires k <= 8
  {
    Wrapped(word * Pow256(8 - k)) + LowZeros(k)
  }

  /** One to seven digits in front of a byte that is none are read in one step. */
  lemma ShortRun(b: bytes, k: nat)
    requires |b| == 8 && k <= 8 && AllDigits(b[..k])
    ensures Parse8DigitsWord(Backfilled(WordOf(b), k)) == NatOf(b[..k])
  {
    hide WordOf, Pow256, LowZeros, NatOf, Parse8DigitsWord, Wrapped;
    var front, back := b[..k], b[k..];
    assert b == front + back;
    WordAppend(front, back);
    LowZerosAre(k);
    WordAppend(Zeros(8 - k), front);
    WordBelow(front);
    Pow256Split(k);
    ShiftOut(WordOf(front), Pow256(k), WordOf(back), Pow256(8 - k));
    ZerosInFront(8 - k, front);
  }

  lemma Pow256Split(k: nat)
    requires k <= 8
    ensures Pow256(k) * Pow256(8 - k) == TWO_TO_THE_64
  {
    hide Pow256;
    EightBytes();
    Pow256Add(k, 8 - k);
  }

  lemma {:induction false} Pow256Add(j: nat, k: nat)
    ensures Pow256(j + k) == Pow256(j) * Pow256(k)
  {
    if j > 0 {
      Pow256Add(j - 1, k);
      Regrouped(0x100, Pow256(j - 1), Pow256(k));
    }
  }

  lemma Regrouped(a: nat, b: nat, c: nat)
    ensures a * (b * c) == (a * b) * c
  {
  }

  lemma ShiftOut(low: nat, p: nat, high: nat, q: nat)
    requires low < p && p * q == TWO_TO_THE_64
    ensures Wrapped((low + p * high) * q) == q * low
  {
    hide Wrapped;
    assert (low + p * high) * q == low * q + (p * q) * high;
    Below(low, p, q);
    WrapTop(q * low, high);
  }

  lemma Below(low: nat, p: nat, q: nat)
    requires low < p && p * q == TWO_TO_THE_64
    ensures q * low < TWO_TO_THE_64 && low * q == q * low
  {
    Strides(q, low, p);
    assert q > 0;
  }

  lemma WrapTop(x: nat, high: nat)
    requires x < TWO_TO_THE_64
    ensures Wrapped(x + TWO_TO_THE_64 * high) == x
  {
    ModTop(x, high);
  }

  /** Keeps the top k bytes of a word and backfills the rest with ASCII zeros. */
  function ParseTrailingDigits(word: nat, k: nat): nat
    requires k <= 8
  {
    Parse8DigitsWord(Above(word, Pow256(8 - k)) + LowZeros(k))
  }

  /** The k digits a window of eight bytes ends with. */
  lemma TrailingRun(b: bytes, k: nat)
    requires |b| == 8 && k <= 8 && AllDigits(b[8 - k..])
    ensures ParseTrailingDigits(WordOf(b), k) == NatOf(b[8 - k..])
  {
    hide WordOf, Pow256, LowZeros, NatOf, Parse8DigitsWord;
    var front, back := b[..8 - k], b[8 - k..];
    assert b == front + back;
    WordAppend(front, back);
    WordBelow(front);
    LowZerosAre(k);
    WordAppend(Zeros(8 - k), back);
    RemainderOf(Pow256(8 - k), WordOf(back), WordOf(front));
    ZerosInFront(8 - k, back);
  }

  /** Sixteen digits as two words of eight. */
  function Parse16Digits(b: bytes): nat
    requires |b| == 16
  {
    Parse8DigitsWord(WordOf(b[..8])) * 1_0000_0000 + Parse8DigitsWord(WordOf(b[8..]))
  }

  lemma SixteenDigits(b: bytes)
    requires |b| == 16 && AllDigits(b)
    ensures Parse16Digits(b) == NatOf(b)
  {
    hide WordOf, NatOf, Parse8DigitsWord;
    EightDigits(b[..8]);
    EightDigits(b[8..]);
    assert b == b[..8] + b[8..];
    NatAppend(b[..8], b[8..]);
    assert Pow10(8) == 1_0000_0000;
  }

  // ---- A run of digits under a limit --------------------------------------------------------------------------------

  /** More digits only make the number larger. */
  lemma Prefix(b: bytes, k: nat)
    requires k <= |b|
    ensures NatOf(b[..k]) <= NatOf(b)
  {
    hide NatOf, Pow10;
    assert b == b[..k] + b[k..];
    NatAppend(b[..k], b[k..]);
    NoLess(NatOf(b[..k]), Pow10(|b| - k));
  }

  lemma NoLess(x: nat, p: nat)
    requires p > 0
    ensures x * p >= x
  {
    AtLeast(p, x);
  }

  /** The digits read so far are a prefix of the run. */
  lemma RunPrefix(s: bytes, i: nat, j: nat)
    requires i <= j <= |s| && AllDigits(s[i..j])
    ensures j <= SkipDigits(s, i) && NatOf(s[i..j]) <= NatOf(s[i..SkipDigits(s, i)])
  {
    hide NatOf, SkipDigits;
    RunOfDigits(s, i, j);
    SliceFront(s, i, j, SkipDigits(s, i));
    Prefix(s[i..SkipDigits(s, i)], j - i);
  }

  lemma SliceFront(s: bytes, i: nat, j: nat, k: nat)
    requires i <= j <= k <= |s|
    ensures s[i..k][..j - i] == s[i..j]
  {
  }

  ghost predicate Covers(s: bytes, i: nat, j: nat, value: nat) {
    i <= j <= |s| && AllDigits(s[i..j]) && value == NatOf(s[i..j])
  }

  /** One digit more. */
  lemma NextDigit(s: bytes, i: nat, j: nat, value: nat)
    requires Covers(s, i, j, value) && j < |s| && IsDigit(s[j])
    ensures Covers(s, i, j + 1, value * 10 + (s[j] - DIGIT0))
  {
    assert s[i..j + 1] == s[i..j] + [s[j]];
    assert s[i..j + 1][..j - i] == s[i..j];
  }

  /** The block that is read first: up to seven digits, eight, or sixteen; nothing near the end of the source. */
  method LeadingBlock(src: bytes, i: nat) returns (value: nat, j: nat)
    requires i < |src| && IsDigit(src[i])
    ensures Covers(src, i, j, value) && (j == i || j < i + 8 || j == i + 8 || j == i + 16)
    ensures (j <= i + 8 ==> value < 1_0000_0000) && value < 1_0000_0000_0000_0000
    ensures i < j < i + 8 ==> j == SkipDigits(src, i)
  {
    hide NatOf, WordOf, Pow10, Backfilled, Parse8DigitsWord, Parse16Digits, FirstNonDigit;
    if i + 8 > |src| {
      NoDigits();
      assert src[i..i] == [];
      return 0, i;
    }
    var b := src[i..i + 8];
    DigitMask(b);
    var k := FirstNonDigit(WordOf(b));
    NatBound(b[..k]);
    if k < 8 {
      ShortRun(b, k);
      assert src[i..i + k] == b[..k];
      RunOfDigits(src, i, i + k);
      assert src[i + k] == b[k];
      Pow10Grows(k, 8);
      EightIsPower();
      return Parse8DigitsWord(Backfilled(WordOf(b), k)), i + k;
    }
    assert b[..8] == b;
    EightIsPower();
    if i + 16 <= |src| {
      var c := src[i + 8..i + 16];
      DigitMask(c);
      if FirstNonDigit(WordOf(c)) == 8 {
        var both := src[i..i + 16];
        assert c[..8] == c && both == b + c;
        SixteenDigits(both);
        NatBound(both);
        SixteenIsPower();
        return Parse16Digits(both), i + 16;
      }
    }
    EightDigits(b);
    return Parse8DigitsWord(WordOf(b)), i + 8;
  }

  lemma NoDigits()
    ensures NatOf([]) == 0
  {
  }

  lemma EightIsPower()
    ensures Pow10(8) == 1_0000_0000
  {
  }

  /** The number a run of digits writes, unless it exceeds the limit; `narrow` says that eight digits may already exceed it. */
  method DigitRun(src: bytes, i: nat, limit: nat, narrow: bool) returns (value: nat, end: nat, fits: bool)
    requires i < |src| && IsDigit(src[i]) && (narrow || limit >= 1_0000_0000)
    ensures var run := src[i..SkipDigits(src, i)];
            fits == (NatOf(run) <= limit) && (fits ==> value == NatOf(run) && end == SkipDigits(src, i))
  {
    hide NatOf, Covers;
    var j;
    value, j := LeadingBlock(src, i);
    CoversPrefix(src, i, j, value);
    if (narrow || j == i + 16) && value > limit {
      return value, j, false;
    }
    var cutoff, cutlim := limit / 10, limit % 10;
    end := j;
    while end < |src| && IsDigit(src[end])
      invariant j <= end <= |src| && Covers(src, i, end, value) && value <= limit
    {
      var digit := src[end] - DIGIT0;
      NextDigit(src, i, end, value);
      CoversPrefix(src, i, end + 1, value * 10 + digit);
      if value > cutoff || (value == cutoff && digit > cutlim) {
        return value, end, false;
      }
      value, end := value * 10 + digit, end + 1;
    }
    CoversPrefix(src, i, end, value);
    RunStops(src, i, end, value);
    fits := true;
  }

  lemma CoversPrefix(s: bytes, i: nat, j: nat, value: nat)
    requires Covers(s, i, j, value)
    ensures i <= j <= |s| && j <= SkipDigits(s, i) && value <= NatOf(s[i..SkipDigits(s, i)])
  {
    RunPrefix(s, i, j);
  }

  lemma RunStops(s: bytes, i: nat, j: nat, value: nat)
    requires Covers(s, i, j, value) && !DigitAt(s, j)
    ensures j == SkipDigits(s, i) && value == NatOf(s[i..j])
  {
    RunOfDigits(s, i, j);
  }

  // ---- Integer tokens --------------------------------------------------------------------------------------------------

  /** An integer token stands at i, and no digit follows it. */
  predicate IntegerAt(s: bytes, i: nat) {
    i < |s| && ScanNumber(s, i).NumberToken? && ScanNumber(s, i).integer && !DigitAt(s, ScanNumber(s, i).end)
  }

  /** Where the digits of a number at i begin. */
  function DigitsFrom(s: bytes, i: nat): nat {
    if ByteAt(s, i, MINUS) then i + 1 else i
  }

  function IntegerEnd(s: bytes, i: nat): (e: nat)
    requires IntegerAt(s, i)
    ensures DigitsFrom(s, i) < e <= |s|
  {
    IntegerShape(s, i);
    ScanNumber(s, i).end
  }

  /** The integer the token at i denotes. */
  function IntegerValue(s: bytes, i: nat): int
    requires IntegerAt(s, i)
  {
    NumberEqual.Signed(ByteAt(s, i, MINUS), NatOf(s[DigitsFrom(s, i)..IntegerEnd(s, i)]))
  }

  predicate StartsFraction(s: bytes, e: nat) {
    e < |s| && (s[e] == DOT || s[e] == 0x65 || s[e] == 0x45)
  }

  /** An integer token is a run of digits without a redundant leading zero that no fraction or exponent continues. */
  lemma IntegerShape(s: bytes, i: nat)
    requires i < |s|
    ensures var j := DigitsFrom(s, i);
            IntegerAt(s, i) <==>
            DigitAt(s, j) && (s[j] == DIGIT0 ==> SkipDigits(s, j) == j + 1) && !StartsFraction(s, SkipDigits(s, j))
    ensures IntegerAt(s, i) ==> DigitsFrom(s, i) < ScanNumber(s, i).end == SkipDigits(s, DigitsFrom(s, i))
  {
    var j := DigitsFrom(s, i);
    if DigitAt(s, j) {
      SkippedAreDigits(s, j);
      if s[j] == DIGIT0 {
        assert SkipDigits(s, j) == SkipDigits(s, j + 1);
        FractionShape(s, j + 1);
        if DigitAt(s, j + 1) {
          SkipDigitsMore(s, j + 1);
        }
      } else {
        FractionShape(s, SkipDigits(s, j));
      }
    }
  }

  lemma SkipDigitsMore(s: bytes, i: nat)
    requires DigitAt(s, i)
    ensures SkipDigits(s, i) > i
  {
  }

  lemma FractionShape(s: bytes, e: nat)
    requires e <= |s|
    ensures !StartsFraction(s, e) ==> ScanFraction(s, e) == NumberToken(e, true)
    ensures var t := ScanFraction(s, e); StartsFraction(s, e) && t.NumberToken? ==> !t.integer
  {
  }

  datatype Verdict = Decoded | BadSyntax | WrongType | Overflow | Fractional

  predicate IsWidth(width: nat) {
    width == 8 || width == 16 || width == 32 || width == 64
  }

  /** 2^(width - 1). */
  function HalfRange(width: nat): (h: nat)
    requires IsWidth(width)
    ensures h == Pow2(width - 1)
  {
    TwoIsPower(width - 1);
    if width == 8 then 0x80 else if width == 16 then 0x8000 else if width == 32 then 0x8000_0000 else 0x8000_0000_0000_0000
  }

  /** The value of 64 bits read as a signed number. */
  function AsInt64(x: int): int {
    (x + TWO_TO_THE_63) % TWO_TO_THE_64 - TWO_TO_THE_63
  }

  lemma NegatedInt64(m: nat)
    requires m <= TWO_TO_THE_63
    ensures AsInt64(-AsInt64(m)) == 0 - m
  {
  }

  ghost predicate DecodesInt(src: bytes, at: nat, width: nat)
    requires IsWidth(width)
  {
    IntegerAt(src, at) && 0 - HalfRange(width) <= IntegerValue(src, at) < HalfRange(width)
  }

  ghost predicate DecodesUint(src: bytes, at: nat, width: nat)
    requires IsWidth(width)
  {
    IntegerAt(src, at) && !ByteAt(src, at, MINUS) && IntegerValue(src, at) < 2 * HalfRange(width)
  }

  /** What stops an integer before its digits are read. */
  method CheckNull(src: bytes, at: nat, replace: bool, dst: int) returns (isNull: bool, verdict: Verdict, dst': int, at': nat)
    ensures isNull == ByteAt(src, at, NULL[0])
    ensures isNull ==> verdict == (if LiteralAt(src, at, NULL) then Decoded else BadSyntax)
    ensures isNull && verdict.Decoded? ==> at' == at + 4 && dst' == if replace then 0 else dst
    ensures isNull && !verdict.Decoded? ==> at' == at && dst' == dst
  {
    if at >= |src| || src[at] != NULL[0] {
      return false, WrongType, dst, at;
    }
    if !LiteralAt(src, at, NULL) {
      return true, BadSyntax, dst, at;
    }
    return true, Decoded, if replace then 0 else dst, at + 4;
  }

  /** The digits at j, for a limit on their number: shared by the signed and the unsigned decoder. */
  method Magnitude(src: bytes, start: nat, j: nat, limit: nat, narrow: bool) returns (verdict: Verdict, value: nat, end: nat)
    requires start < |src| && j == DigitsFrom(src, start) && DigitAt(src, j) && (narrow || limit >= 1_0000_0000)
    ensures verdict.Decoded? <==> IntegerAt(src, start) && NatOf(src[j..IntegerEnd(src, start)]) <= limit
    ensures verdict.Decoded? ==> end == IntegerEnd(src, start) && value == NatOf(src[j..end])
    ensures verdict.Overflow? ==> NatOf(src[j..SkipDigits(src, j)]) > limit
    ensures verdict.Fractional? ==> ScanNumber(src, start).NumberToken? && !ScanNumber(src, start).integer
  {
    hide NatOf, ScanNumber;
    IntegerShape(src, start);
    if src[j] == DIGIT0 {
      value, end := 0, j + 1;
      ZeroRun(src, j);
      if end < |src| && IsDigit(src[end]) {
        return BadSyntax, 0, start;
      }
    } else {
      var fits;
      value, end, fits := DigitRun(src, j, limit, narrow);
      if !fits {
        return Overflow, 0, start;
      }
    }
    if end < |src| && (src[end] == DOT || src[end] == 0x65 || src[end] == 0x45) {
      NotInteger(src, start);
      return if ScanNumber(src, start).BadNumber? then BadSyntax else Fractional, 0, start;
    }
    verdict := Decoded;
  }

  lemma ZeroRun(s: bytes, j: nat)
    requires j < |s| && s[j] == DIGIT0
    ensures NatOf(s[j..j + 1]) == 0 && (DigitAt(s, j + 1) ==> SkipDigits(s, j) > j + 1) && (!DigitAt(s, j + 1) ==> SkipDigits(s, j) == j + 1)
  {
    OneDigit(s[j..j + 1]);
  }

  lemma NotInteger(s: bytes, i: nat)
    requires i < |s| && DigitAt(s, DigitsFrom(s, i)) && StartsFraction(s, SkipDigits(s, DigitsFrom(s, i)))
    requires s[DigitsFrom(s, i)] == DIGIT0 ==> SkipDigits(s, DigitsFrom(s, i)) == DigitsFrom(s, i) + 1
    ensures ScanNumber(s, i).NumberToken? ==> !ScanNumber(s, i).integer
  {
    FractionShape(s, SkipDigits(s, DigitsFrom(s, i)));
  }

  /** Decodes a signed integer of the width at `at` into dst; a failure changes neither. */
  method Int(src: bytes, at: nat, width: nat, replace: bool, dst: int) returns (verdict: Verdict, dst': int, at': nat)
    requires IsWidth(width)
    ensures ByteAt(src, at, NULL[0]) ==> verdict == if LiteralAt(src, at, NULL) then Decoded else BadSyntax
    ensures ByteAt(src, at, NULL[0]) && verdict.Decoded? ==> at' == at + 4 && dst' == if replace then 0 else dst
    ensures !ByteAt(src, at, NULL[0]) ==> (verdict.Decoded? <==> DecodesInt(src, at, width))
    ensures !ByteAt(src, at, NULL[0]) && verdict.Decoded? ==> dst' == IntegerValue(src, at) && at' == IntegerEnd(src, at)
    ensures !verdict.Decoded? ==> dst' == dst && at' == at
  {
    hide NatOf, ScanNumber;
    var isNull;
    isNull, verdict, dst', at' := CheckNull(src, at, replace, dst);
    if isNull {
      return;
    }
    if at >= |src| {
      return WrongType, dst, at;
    }
    IntegerShape(src, at);
    var i, negative := at, false;
    if src[i] == MINUS {
      negative, i := true, i + 1;
      if i == |src| {
        return BadSyntax, dst, at;
      }
    }
    if !IsDigit(src[i]) {
      return WrongType, dst, at;
    }
    var limit := if negative then HalfRange(width) else HalfRange(width) - 1;
    var value, end;
    verdict, value, end := Magnitude(src, at, i, limit, width <= 16);
    if !verdict.Decoded? {
      return verdict, dst, at;
    }
    NegatedInt64(value);
    return Decoded, if negative then AsInt64(-AsInt64(value)) else value, end;
  }

  /** Decodes an unsigned integer of the width. */
  method Uint(src: bytes, at: nat, width: nat, replace: bool, dst: int) returns (verdict: Verdict, dst': int, at': nat)
    requires IsWidth(width)
    ensures ByteAt(src, at, NULL[0]) ==> verdict == if LiteralAt(src, at, NULL) then Decoded else BadSyntax
    ensures ByteAt(src, at, NULL[0]) && verdict.Decoded? ==> at' == at + 4 && dst' == if replace then 0 else dst
    ensures !ByteAt(src, at, NULL[0]) ==> (verdict.Decoded? <==> DecodesUint(src, at, width))
    ensures !ByteAt(src, at, NULL[0]) && verdict.Decoded? ==> dst' == IntegerValue(src, at) && at' == IntegerEnd(src, at)
    ensures !verdict.Decoded? ==> dst' == dst && at' == at
  {
    hide NatOf, ScanNumber;
    var isNull;
    isNull, verdict, dst', at' := CheckNull(src, at, replace, dst);
    if isNull {
      return;
    }
    if at >= |src| {
      return WrongType, dst, at;
    }
    IntegerShape(src, at);
    if !IsDigit(src[at]) {
      return WrongType, dst, at;
    }
    var value, end;
    verdict, value, end := Magnitude(src, at, at, 2 * HalfRange(width) - 1, width <= 16);
    if !verdict.Decoded? {
      return verdict, dst, at;
    }
    return Decoded, value, end;
  }

  const MINUS_ZERO: bytes := [MINUS, DIGIT0]

  /** The unsigned decoders refuse minus zero, although its value lies in every range. */
  lemma MinusZeroRefused(width: nat)
    requires IsWidth(width)
    ensures IntegerAt(MINUS_ZERO, 0) && IntegerValue(MINUS_ZERO, 0) == 0 && !DecodesUint(MINUS_ZERO, 0, width) && DecodesInt(MINUS_ZERO, 0, width)
  {
    IntegerShape(MINUS_ZERO, 0);
    ZeroRun(MINUS_ZERO, 1);
  }

  // ---- The tape readers ---------------------------------------------------------------------------------------------------

  /** Reads at most nineteen digits through word loads that end at the number, or one by one near the start of the source. */
  method ParseTapeDigitsUint64(src: bytes, i: nat, end: nat) returns (value: nat, ok: bool)
    requires i < end <= |src| && AllDigits(src[i..end])
    ensures ok <==> end - i <= 19
    ensures ok ==> value == NatOf(src[i..end]) < TWO_TO_THE_64
  {
    hide NatOf, WordOf, ParseTrailingDigits, Parse8DigitsWord, Parse16Digits;
    var d := end - i;
    NineteenDigits(src[i..end]);
    if d > 19 {
      return 0, false;
    }
    ok := true;
    if d <= 8 && end >= 8 {
      value := Tail(src, i, end);
    } else if 8 < d <= 16 && end >= 16 {
      var b := src[end - 8..end];
      SplitDigits(src, i, end - 8, end);
      var hi := Tail(src, i, end - 8);
      EightDigits(b);
      EightIsPower();
      value := hi * 1_0000_0000 + Parse8DigitsWord(WordOf(b));
    } else if 16 < d && end >= 24 {
      var b := src[end - 16..end];
      SplitDigits(src, i, end - 16, end);
      var hi := Tail(src, i, end - 16);
      SixteenDigits(b);
      SixteenIsPower();
      value := hi * 1_0000_0000_0000_0000 + Parse16Digits(b);
    } else {
      value := OneByOne(src, i, end);
    }
  }

  /** The digits src[i..end], at most eight, from the word of eight bytes that ends with them. */
  method Tail(src: bytes, i: nat, end: nat) returns (value: nat)
    requires i < end <= |src| && end - i <= 8 <= end && AllDigits(src[i..end])
    ensures value == NatOf(src[i..end])
  {
    hide NatOf, WordOf, ParseTrailingDigits;
    var b := src[end - 8..end];
    assert b[8 - (end - i)..] == src[i..end];
    TrailingRun(b, end - i);
    value := ParseTrailingDigits(WordOf(b), end - i);
  }

  lemma SplitDigits(s: bytes, i: nat, m: nat, end: nat)
    requires i <= m <= end <= |s| && AllDigits(s[i..end])
    ensures AllDigits(s[i..m]) && AllDigits(s[m..end])
    ensures NatOf(s[i..end]) == NatOf(s[i..m]) * Pow10(end - m) + NatOf(s[m..end])
  {
    hide NatOf, Pow10;
    var t := s[i..end];
    assert t[..m - i] == s[i..m] && t[m - i..] == s[m..end] && t == t[..m - i] + t[m - i..];
    NatAppend(s[i..m], s[m..end]);
  }

  lemma NineteenDigits(b: bytes)
    requires AllDigits(b)
    ensures |b| <= 19 ==> NatOf(b) < TWO_TO_THE_64
  {
    hide NatOf, Pow10;
    NatBound(b);
    if |b| <= 19 {
      Pow10Grows(|b|, 19);
      TenIsPower(19);
    }
  }

  method OneByOne(src: bytes, i: nat, end: nat) returns (value: nat)
    requires i <= end <= |src| && AllDigits(src[i..end])
    ensures value == NatOf(src[i..end])
  {
    hide NatOf, Covers;
    NothingCovered(src, i);
    value := 0;
    var j := i;
    while j < end
      invariant i <= j <= end && Covers(src, i, j, value)
    {
      assert src[i..end][j - i] == src[j];
      NextDigit(src, i, j, value);
      value, j := value * 10 + (src[j] - DIGIT0), j + 1;
    }
    CoversValue(src, i, end, value);
  }

  lemma NothingCovered(s: bytes, i: nat)
    requires i <= |s|
    ensures Covers(s, i, i, 0)
  {
    NoDigits();
    assert s[i..i] == [];
  }

  lemma CoversValue(s: bytes, i: nat, j: nat, value: nat)
    requires Covers(s, i, j, value)
    ensures value == NatOf(s[i..j])
  {
  }

  /** Reads an unsigned integer of the tape: digits without a redundant leading zero. */
  method TapeUint64(src: bytes, i: nat, end: nat) returns (value: nat, ok: bool)
    requires i < end <= |src| && AllDigits(src[i..end]) && (src[i] == DIGIT0 ==> end == i + 1)
    ensures ok <==> NatOf(src[i..end]) < TWO_TO_THE_64
    ensures ok ==> value == NatOf(src[i..end])
  {
    hide NatOf, Covers;
    value, ok := ParseTapeDigitsUint64(src, i, end);
    if ok {
      return;
    }
    TooManyDigits(src[i..end]);
    if end - i != 20 {
      return 0, false;
    }
    NothingCovered(src, i);
    value := 0;
    var j := i;
    while j < end
      invariant i <= j <= end && Covers(src, i, j, value) && value < TWO_TO_THE_64
    {
      assert src[i..end][j - i] == src[j];
      var digit := src[j] - DIGIT0;
      NextDigit(src, i, j, value);
      CoversPart(src, i, j + 1, end, value * 10 + digit);
      if value > (TWO_TO_THE_64 - 1 - digit) / 10 {
        return 0, false;
      }
      value, j := value * 10 + digit, j + 1;
    }
    CoversValue(src, i, end, value);
    ok := true;
  }

  lemma CoversPart(s: bytes, i: nat, j: nat, end: nat, value: nat)
    requires Covers(s, i, j, value) && j <= end <= |s|
    ensures value <= NatOf(s[i..end])
  {
    assert s[i..end][..j - i] == s[i..j];
    Prefix(s[i..end], j - i);
  }

  /** Past nineteen digits no int64 fits, and past twenty no uint64. */
  lemma TooManyDigits(b: bytes)
    requires AllDigits(b) && b != [] && (b[0] == DIGIT0 ==> |b| == 1)
    ensures |b| > 19 ==> NatOf(b) > TWO_TO_THE_63
    ensures |b| > 20 ==> NatOf(b) >= TWO_TO_THE_64
  {
    hide NatOf, Pow10;
    NatBound(b);
    TenIsPower(19);
    TenIsPower(20);
    if |b| > 19 {
      Pow10Grows(19, |b| - 1);
    }
    if |b| > 20 {
      Pow10Grows(20, |b| - 1);
    }
  }

  /** Reads a signed integer of the tape, given the span of its token. */
  method TapeInt64(src: bytes, start: nat, end: nat) returns (value: int, ok: bool)
    requires IntegerAt(src, start) && end == IntegerEnd(src, start)
    ensures ok <==> -TWO_TO_THE_63 <= IntegerValue(src, start) < TWO_TO_THE_63
    ensures ok ==> value == IntegerValue(src, start)
  {
    hide NatOf, ScanNumber;
    IntegerShape(src, start);
    var negative := src[start] == MINUS;
    var i := if negative then start + 1 else start;
    SkippedAreDigits(src, i);
    TooManyDigits(src[i..end]);
    var magnitude, good := ParseTapeDigitsUint64(src, i, end);
    if !good {
      return 0, false;
    }
    if negative {
      if magnitude > TWO_TO_THE_63 {
        return 0, false;
      }
      NegatedInt64(magnitude);
      return AsInt64(-AsInt64(magnitude)), true;
    }
    if magnitude > TWO_TO_THE_63 - 1 {
      return 0, false;
    }
    return magnitude, true;
  }

  // ---- What is printed reads back -------------------------------------------------------------------------------------------

  /** The decimal of an integer, wherever it stands alone, is the token of that integer. */
  lemma PrintedToken(v: int, s: bytes, p: nat)
    requires At(s, p, ShownInt(v)) && Ends(s, p + |ShownInt(v)|)
    ensures IntegerAt(s, p) && IntegerValue(s, p) == v && IntegerEnd(s, p) == p + |ShownInt(v)|
    ensures ByteAt(s, p, MINUS) <==> v < 0
    ensures !ByteAt(s, p, NULL[0])
  {
    hide NatOf, Shown, ScanNumber;
    var m := if v < 0 then -v else v;
    var digits, j := Shown(m), if v < 0 then p + 1 else p;
    AtByte(s, p, ShownInt(v), 0);
    if v < 0 {
      AtParts(s, p, [MINUS], digits);
    }
    AtByte(s, j, digits, 0);
    assert s[j..j + |digits|] == digits;
    IntegerShape(s, p);
    RunOfDigits(s, j, j + |digits|);
    OneZeroOnly(m);
  }

  /** Prints an int64 and reads it back with the decoder of every width it fits and with the tape reader. */
  method IntRoundTrip(v: int, room: nat, width: nat) returns (text: bytes, verdict: Verdict, decoded: int, fromTape: int, ok: bool)
    requires -TWO_TO_THE_63 <= v < TWO_TO_THE_63 && IsWidth(width)
    ensures text == ShownInt(v) && ok && fromTape == v
    ensures verdict.Decoded? <==> 0 - HalfRange(width) <= v < HalfRange(width)
    ensures verdict.Decoded? ==> decoded == v
  {
    hide Shown, ShownInt, IntegerAt, IntegerValue, IntegerEnd, Pow2;
    text := AppendCompactInt([], room, v);
    assert text[0..|text|] == text && [] + ShownInt(v) == ShownInt(v);
    PrintedToken(v, text, 0);
    var end;
    verdict, decoded, end := Int(text, 0, width, false, 0);
    fromTape, ok := TapeInt64(text, 0, |text|);
  }

  /** Prints a uint64 and reads it back. */
  method UintRoundTrip(v: nat, room: nat, width: nat) returns (text: bytes, verdict: Verdict, decoded: int, fromTape: nat, ok: bool)
    requires v < TWO_TO_THE_64 && IsWidth(width)
    ensures text == Shown(v) && ok && fromTape == v
    ensures verdict.Decoded? <==> v < 2 * HalfRange(width)
    ensures verdict.Decoded? ==> decoded == v
  {
    hide NatOf, IntegerAt, IntegerValue, IntegerEnd, Pow2;
    text := AppendCompactUint([], room, v);
    assert text[0..|text|] == text && [] + Shown(v) == Shown(v) == ShownInt(v);
    PrintedToken(v, text, 0);
    var end;
    verdict, decoded, end := Uint(text, 0, width, false, 0);
    OneZeroOnly(v);
    fromTape, ok := TapeUint64(text, 0, |text|);
  }

  lemma OneZeroOnly(v: nat)
    ensures Shown(v)[0] == DIGIT0 ==> |Shown(v)| == 1
  {
  }
}
