/**
 Printing integers: the digit count from the bit length, pairs of digits stored from the end, blocks of eight
 and sixteen digits, and the library's printer when room is short. All of them write the one canonical decimal.
 */
module Printing {
  import opened Json
  import opened Decimal
  import opened Words

  // ---- The decimal of a number ----------------------------------------------------------------------------------

  /** The decimal without leading zeros; zero is one digit. */
  function Shown(v: nat): (s: bytes)
    ensures s != [] && AllDigits(s) && NatOf(s) == v && (v > 0 ==> s[0] != DIGIT0)
  {
    if v < 10 then
      assert NatOf([]) == 0 && [DIGIT0 + v][..0] == [];
      [DIGIT0 + v]
    else
      var front := Shown(v / 10);
      assert (front + [DIGIT0 + v % 10])[..|front|] == front;
      front + [DIGIT0 + v % 10]
  }

  /** No other digits without a leading zero write the number. */
  lemma OnlyDecimal(v: nat, s: bytes)
    requires AllDigits(s) && s != [] && NatOf(s) == v && (s[0] == DIGIT0 ==> |s| == 1)
    ensures s == Shown(v)
  {
    hide NatOf;
    if v > 0 {
      if s[0] == DIGIT0 {
        OneDigit(s);
      }
      Unique(s, Shown(v));
    } else {
      ZeroDigits(s);
    }
  }

  lemma OneDigit(s: bytes)
    requires |s| == 1
    ensures NatOf(s) == Digit(s[0])
  {
    assert s[..0] == [];
  }

  lemma ZeroDigits(s: bytes)
    requires AllDigits(s) && s != [] && NatOf(s) == 0 && (s[0] == DIGIT0 ==> |s| == 1)
    ensures s == Shown(0)
  {
    hide NatOf;
    if s[0] != DIGIT0 {
      NatBound(s);
    }
    assert s == [s[0]];
  }

  lemma ShownBounds(v: nat)
    ensures v < Pow10(|Shown(v)|) && (v > 0 ==> Pow10(|Shown(v)| - 1) <= v)
  {
    hide NatOf, Pow10;
    NatBound(Shown(v));
  }

  lemma AtLeast(d: nat, p: nat)
    requires d >= 1
    ensures d * p >= p
  {
  }

  /** The length is the one n with 10^(n-1) <= v < 10^n. */
  lemma ShownLength(v: nat, n: nat)
    requires v > 0 && n > 0 && Pow10(n - 1) <= v < Pow10(n)
    ensures |Shown(v)| == n
  {
    hide NatOf, Pow10;
    ShownBounds(v);
    var m := |Shown(v)|;
    if m < n {
      Pow10Grows(m, n - 1);
    } else if n < m {
      Pow10Grows(n, m - 1);
    }
  }

  /** Digits appended to a positive decimal are the decimal of the number they write together. */
  lemma Extended(hi: nat, b: bytes)
    requires hi > 0 && AllDigits(b)
    ensures Shown(hi * Pow10(|b|) + NatOf(b)) == Shown(hi) + b
  {
    hide NatOf, Pow10;
    NatAppend(Shown(hi), b);
    OnlyDecimal(hi * Pow10(|b|) + NatOf(b), Shown(hi) + b);
  }

  /** A longer block of digits ends in the decimal. */
  lemma BlockEnds(b: bytes, v: nat)
    requires AllDigits(b) && NatOf(b) == v > 0
    ensures |Shown(v)| <= |b| && b[|b| - |Shown(v)|..] == Shown(v)
  {
    hide NatOf, Pow10, Shown;
    NoShorter(b);
    var n := |Shown(v)|;
    var front, back := b[..|b| - n], b[|b| - n..];
    assert b == front + back;
    NatAppend(front, back);
    ShownBounds(v);
    NoFront(NatOf(front), Pow10(n), NatOf(back), v);
    assert NatOf(back) == v;
    NoLeadingZero(back);
    OnlyDecimal(v, back);
  }

  /** No digits shorter than the decimal write the number. */
  lemma NoShorter(b: bytes)
    requires NatOf(b) > 0
    ensures |Shown(NatOf(b))| <= |b|
  {
    hide NatOf, Pow10, Shown;
    var n := |Shown(NatOf(b))|;
    NatBound(b);
    ShownBounds(NatOf(b));
    if |b| < n {
      Pow10Grows(|b|, n - 1);
    }
  }

  lemma NoFront(f: nat, p: nat, r: nat, v: nat)
    requires v == f * p + r < p
    ensures f == 0 && r == v
  {
    if f > 0 {
      AtLeast(f, p);
    }
  }

  lemma NoLeadingZero(s: bytes)
    requires AllDigits(s) && s != [] && NatOf(s) > 0 && |s| == |Shown(NatOf(s))|
    ensures s[0] != DIGIT0
  {
    hide NatOf, Pow10, Shown;
    if s[0] == DIGIT0 {
      assert s == s[..1] + s[1..];
      NatAppend(s[..1], s[1..]);
      OneDigit(s[..1]);
      NoShorter(s[1..]);
    }
  }

  // ---- How many digits ----------------------------------------------------------------------------------------------

  /** Bits needed to write the number. */
  function BitLength(v: nat): nat {
    if v == 0 then 0 else 1 + BitLength(v / 2)
  }

  function Pow2(k: nat): (p: nat)
    ensures p > 0
  {
    if k == 0 then 1 else 2 * Pow2(k - 1)
  }

  lemma {:induction false} BitLengthBounds(v: nat)
    requires v > 0
    ensures BitLength(v) > 0 && Pow2(BitLength(v) - 1) <= v < Pow2(BitLength(v))
  {
    if v > 1 {
      BitLengthBounds(v / 2);
    }
  }

  lemma {:induction false} Pow2Grows(j: nat, k: nat)
    requires j <= k
    ensures Pow2(j) <= Pow2(k)
  {
    if j < k {
      Pow2Grows(j, k - 1);
    }
  }

  // Powers by tables, one for the tens of the exponent and one for its ones.
  const TWOS: seq<nat> := [1, 2, 4, 8, 16, 32, 64, 128, 256, 512]
  const TWO_TENS: seq<nat> := [0x1, 0x400, 0x100000, 0x40000000, 0x10000000000, 0x4000000000000, 0x1000000000000000]
  const TENS: seq<nat> := [1, 10, 100, 1000, 10000, 100000, 1000000, 10000000, 100000000, 1000000000]
  const TEN_TENS: seq<nat> := [1, 100_0000_0000, 1_0000_0000_0000_0000_0000]

  lemma {:induction false} Pow2Add(j: nat, k: nat)
    ensures Pow2(j + k) == Pow2(j) * Pow2(k)
  {
    if k > 0 {
      Pow2Add(j, k - 1);
      assert Pow2(j) * (2 * Pow2(k - 1)) == 2 * (Pow2(j) * Pow2(k - 1));
    }
  }

  lemma {:induction false} TwosTable(k: nat)
    requires k < 10
    ensures TWOS[k] == Pow2(k) && TENS[k] == Pow10(k)
  {
    if k > 0 {
      TwosTable(k - 1);
      assert TWOS[k] == 2 * TWOS[k - 1] && TENS[k] == 10 * TENS[k - 1];
    }
  }

  lemma {:induction false} TwoTensTable(k: nat)
    requires k < 7
    ensures TWO_TENS[k] == Pow2(10 * k)
  {
    if k > 0 {
      TwoTensTable(k - 1);
      assert TWO_TENS[k] == 1024 * TWO_TENS[k - 1];
      assert Pow2(10) == 1024;
      Pow2Add(10 * (k - 1), 10);
    }
  }

  function Two(k: nat): nat
    requires k < 70
  {
    TWO_TENS[k / 10] * TWOS[k % 10]
  }

  function Ten(k: nat): nat
    requires k < 30
  {
    TEN_TENS[k / 10] * TENS[k % 10]
  }

  lemma TwoIsPower(k: nat)
    requires k < 70
    ensures Two(k) == Pow2(k)
  {
    hide Pow2;
    Pow2Add(10 * (k / 10), k % 10);
    TwosTable(k % 10);
    TwoTensTable(k / 10);
  }

  lemma TenIsPower(k: nat)
    requires k < 30
    ensures Ten(k) == Pow10(k)
  {
    assert Pow10(10) == 100_0000_0000;
    Pow10Add(10, 10);
    Pow10Add(10 * (k / 10), k % 10);
    TwosTable(k % 10);
  }

  /** log10(2) is about 1233 / 4096: one more than this estimate is the number of digits, or one too many. */
  function Estimate(length: nat): nat {
    length * 1233 / 4096
  }

  ghost predicate Estimates(length: nat, e: nat) {
    e > 0 && length > 0 && Pow10(e - 1) <= Pow2(length - 1) && Pow2(length) <= Pow10(e + 1)
  }

  /** The lengths with one estimate are checked at their ends. */
  lemma EstimateBetween(length: nat, lo: nat, hi: nat, e: nat)
    requires 0 < lo <= length <= hi < 70 && 0 < e < 29 && Ten(e - 1) <= Two(lo - 1) && Two(hi) <= Ten(e + 1)
    ensures Estimates(length, e)
  {
    hide Pow2, Pow10, Two, Ten;
    TwoIsPower(lo - 1);
    TwoIsPower(hi);
    TenIsPower(e - 1);
    TenIsPower(e + 1);
    Pow2Grows(lo - 1, length - 1);
    Pow2Grows(length, hi);
  }

  lemma EstimateRight(length: nat)
    requires 7 <= length <= 64
    ensures Estimates(length, Estimate(length))
  {
    if length < 37 {
      EstimateShort(length);
    } else {
      EstimateLong(length);
    }
  }

  lemma EstimateShort(length: nat)
    requires 7 <= length < 37
    ensures Estimates(length, Estimate(length))
  {
    hide Estimates;
    match Estimate(length)
    case 2 => EstimateBetween(length, 7, 9, 2);
    case 3 => EstimateBetween(length, 10, 13, 3);
    case 4 => EstimateBetween(length, 14, 16, 4);
    case 5 => EstimateBetween(length, 17, 19, 5);
    case 6 => EstimateBetween(length, 20, 23, 6);
    case 7 => EstimateBetween(length, 24, 26, 7);
    case 8 => EstimateBetween(length, 27, 29, 8);
    case 9 => EstimateBetween(length, 30, 33, 9);
    case _ => EstimateBetween(length, 34, 36, 10);
  }

  lemma EstimateLong(length: nat)
    requires 37 <= length <= 64
    ensures Estimates(length, Estimate(length))
  {
    hide Estimates;
    match Estimate(length)
    case 11 => EstimateBetween(length, 37, 39, 11);
    case 12 => EstimateBetween(length, 40, 43, 12);
    case 13 => EstimateBetween(length, 44, 46, 13);
    case 14 => EstimateBetween(length, 47, 49, 14);
    case 15 => EstimateBetween(length, 50, 53, 15);
    case 16 => EstimateBetween(length, 54, 56, 16);
    case 17 => EstimateBetween(length, 57, 59, 17);
    case 18 => EstimateBetween(length, 60, 63, 18);
    case _ => EstimateBetween(length, 64, 64, 19);
  }

  lemma BitLengthRange(v: nat)
    requires 100 <= v < TWO_TO_THE_64
    ensures 7 <= BitLength(v) <= 64
  {
    hide Pow2;
    BitLengthBounds(v);
    TwoIsPower(6);
    TwoIsPower(64);
    if BitLength(v) < 7 {
      Pow2Grows(BitLength(v), 6);
    }
    if BitLength(v) > 64 {
      Pow2Grows(64, BitLength(v) - 1);
    }
  }

  /** The number of digits of v, from its bit length and one comparison. */
  method CountDigits(v: nat) returns (digits: nat)
    requires 100 <= v < TWO_TO_THE_64
    ensures digits == |Shown(v)| >= 3
  {
    hide Pow2, Shown, Pow10;
    BitLengthRange(v);
    BitLengthBounds(v);
    EstimateRight(BitLength(v));
    digits := Estimate(BitLength(v)) + 1;
    if v < Pow10(digits - 1) {
      digits := digits - 1;
    }
    ShownLength(v, digits);
    AtLeastThree(v);
  }

  lemma AtLeastThree(v: nat)
    requires v >= 100
    ensures |Shown(v)| >= 3
  {
    assert Shown(v) == Shown(v / 10) + [DIGIT0 + v % 10] && Shown(v / 10) == Shown(v / 10 / 10) + [DIGIT0 + v / 10 % 10];
  }

  // ---- The printer ----------------------------------------------------------------------------------------------------

  /** An entry of the table of digit pairs. */
  function DigitPair(pair: nat): (b: bytes)
    requires pair < 100
    ensures |b| == 2 && AllDigits(b)
  {
    [DIGIT0 + pair / 10, DIGIT0 + pair % 10]
  }

  lemma PairValue(pair: nat)
    requires pair < 100
    ensures NatOf(DigitPair(pair)) == pair && (pair >= 10 ==> Shown(pair) == DigitPair(pair))
  {
    var b := DigitPair(pair);
    assert b[..1][..0] == [] && b[..1] == [b[0]];
    assert NatOf(b[..1]) == Digit(b[0]);
    if pair >= 10 {
      OnlyDecimal(pair, b);
    }
  }

  lemma PairBehind(v: nat)
    requires v >= 100
    ensures Shown(v) == Shown(v / 100) + DigitPair(v % 100)
  {
    hide NatOf, Shown, DigitPair;
    PairValue(v % 100);
    assert Pow10(2) == 100;
    Extended(v / 100, DigitPair(v % 100));
  }

  /** Stores the last two digits of v before position i, where the rest of the decimal already stands. */
  method StorePair(block: array<byte>, i: nat, v: nat, ghost whole: nat) returns (i': nat, v': nat)
    requires v >= 100 && i == |Shown(v)| <= block.Length && Shown(whole) == Shown(v) + block[i..]
    modifies block
    ensures v' == v / 100 && i' == |Shown(v')| < i && Shown(whole) == Shown(v') + block[i'..]
  {
    hide Shown;
    PairBehind(v);
    ghost var rest := block[i..];
    var pair := DigitPair(v % 100);
    i', v' := i - 2, v / 100;
    block[i'], block[i' + 1] := pair[0], pair[1];
    assert block[i'..] == pair + rest;
    assert Shown(v') + (pair + rest) == Shown(v') + pair + rest;
  }

  /** The digits of a number below 10^8, in pairs from the end; eight digits at once when there are eight. */
  method StoreShort(v: nat, digits: nat) returns (out: bytes)
    requires 100 <= v < 1_0000_0000 && digits == |Shown(v)|
    ensures out == Shown(v)
  {
    hide Shown, Store8Digits, NatOf, DigitPair;
    if digits == 8 {
      EightStored(v);
      BlockEnds(Store8Digits(v), v);
      out := Store8Digits(v);
      assert out[0..] == out;
      return;
    }
    var block := new byte[digits];
    var i, w := digits, v;
    assert block[i..] == [] && Shown(v) + [] == Shown(v);
    if v >= 100_0000 {
      i, w := StorePair(block, i, w, v);
    }
    if v >= 1_0000 {
      i, w := StorePair(block, i, w, v);
    }
    i, w := StorePair(block, i, w, v);
    StoreFront(block, i, w, v);
    out := block[..];
  }

  /** Stores the one or two digits that are left. */
  method StoreFront(block: array<byte>, i: nat, v: nat, ghost whole: nat)
    requires 0 < v < 100 && i == |Shown(v)| <= block.Length && Shown(whole) == Shown(v) + block[i..]
    modifies block
    ensures block[..] == Shown(whole)
  {
    ghost var rest := block[i..];
    if v >= 10 {
      PairValue(v);
      var pair := DigitPair(v);
      block[0], block[1] := pair[0], pair[1];
    } else {
      block[0] := DIGIT0 + v;
    }
    assert block[..] == Shown(v) + rest;
  }

  /** hi, then lo as exactly eight digits. */
  lemma HighAndEight(hi: nat, lo: nat)
    requires hi > 0 && lo < 1_0000_0000
    ensures Shown(hi * 1_0000_0000 + lo) == Shown(hi) + Store8Digits(lo) && |Store8Digits(lo)| == 8
  {
    hide Shown, Store8Digits, NatOf;
    EightStored(lo);
    assert Pow10(8) == 1_0000_0000;
    Extended(hi, Store8Digits(lo));
  }

  /** Writes a value below 10^16 as exactly sixteen digits. */
  method Store16Digits(value: nat) returns (block: bytes)
    requires value < 1_0000_0000_0000_0000
    ensures |block| == 16 && AllDigits(block) && NatOf(block) == value
  {
    hide Store8Digits, NatOf;
    var hi := value / 1_0000_0000;
    var lo := value - hi * 1_0000_0000;
    EightStored(hi);
    EightStored(lo);
    block := Store8Digits(hi) + Store8Digits(lo);
    assert Pow10(8) == 1_0000_0000;
    NatAppend(Store8Digits(hi), Store8Digits(lo));
  }

  /** Nine digits: one, then eight. */
  method AppendCompactUint9(dst: bytes, room: nat, v: nat) returns (out: bytes)
    requires 1_0000_0000 <= v < 10_0000_0000
    ensures out == dst + Shown(v)
  {
    hide Store8Digits, NatOf;
    if room < 9 {
      return dst + Shown(v);
    }
    var hi := v / 1_0000_0000;
    var lo := v - hi * 1_0000_0000;
    HighAndEight(hi, lo);
    out := dst + ([DIGIT0 + hi] + Store8Digits(lo));
  }

  /** Ten digits: a pair, then eight. */
  method AppendCompactUint10(dst: bytes, room: nat, v: nat) returns (out: bytes)
    requires 10_0000_0000 <= v < 100_0000_0000
    ensures out == dst + Shown(v)
  {
    hide Store8Digits, NatOf, Shown, DigitPair;
    if room < 10 {
      return dst + Shown(v);
    }
    var hi := v / 1_0000_0000;
    var lo := v - hi * 1_0000_0000;
    HighAndEight(hi, lo);
    PairValue(hi);
    out := dst + (DigitPair(hi) + Store8Digits(lo));
  }

  /** Eleven digits and more: a block of sixteen cut to size, or what lies above sixteen digits and then the block. */
  method AppendCompactUintLarge(dst: bytes, room: nat, v: nat) returns (out: bytes)
    requires 100_0000_0000 <= v < TWO_TO_THE_64
    ensures out == dst + Shown(v)
    decreases v, 0
  {
    hide NatOf, Shown;
    var digits := CountDigits(v);
    if room < digits {
      return dst + Shown(v);
    }
    if v < 1_0000_0000_0000_0000 {
      var block := Store16Digits(v);
      BlockEnds(block, v);
      return dst + block[16 - digits..];
    }
    var hi := v / 1_0000_0000_0000_0000;
    var lo := v - hi * 1_0000_0000_0000_0000;
    var front := AppendCompactUint(dst, room, hi);
    var block := Store16Digits(lo);
    SixteenIsPower();
    Extended(hi, block);
    assert dst + (Shown(hi) + block) == dst + Shown(hi) + block;
    assert room - |Shown(hi)| >= 16;
    out := front + block;
  }

  lemma SixteenIsPower()
    ensures Pow10(16) == 1_0000_0000_0000_0000
  {
    TenIsPower(16);
  }

  /** Appends the decimal of v; `room` is the capacity dst has left. */
  method AppendCompactUint(dst: bytes, room: nat, v: nat) returns (out: bytes)
    requires v < TWO_TO_THE_64
    ensures out == dst + Shown(v)
    decreases v, 1
  {
    if v < 10 {
      return dst + [DIGIT0 + v];
    }
    if v < 100 {
      PairValue(v);
      return dst + DigitPair(v);
    }
    hide Shown;
    if v >= 100_0000_0000 {
      out := AppendCompactUintLarge(dst, room, v);
      return;
    }
    if v >= 10_0000_0000 {
      out := AppendCompactUint10(dst, room, v);
      return;
    }
    if v >= 1_0000_0000 {
      out := AppendCompactUint9(dst, room, v);
      return;
    }
    var digits := CountDigits(v);
    if room < digits {
      return dst + Shown(v);
    }
    var text := StoreShort(v, digits);
    out := dst + text;
  }

  /** The decimal of an integer: a minus sign before the digits of a negative one. */
  function ShownInt(v: int): bytes {
    if v < 0 then [MINUS] + Shown(-v) else Shown(v)
  }

  const TWO_TO_THE_63: int := 0x8000_0000_0000_0000

  /** Appends the decimal of an int64; the negation wraps around for the least of them, to the right magnitude. */
  method AppendCompactInt(dst: bytes, room: nat, v: int) returns (out: bytes)
    requires -TWO_TO_THE_63 <= v < TWO_TO_THE_63
    ensures out == dst + ShownInt(v)
  {
    hide Shown;
    if v < 0 {
      var negated := if v == -TWO_TO_THE_63 then v else -v;
      SmallWrap(-v);
      assert negated % TWO_TO_THE_64 == -v;
      out := AppendCompactUint(dst + [MINUS], if room > 0 then room - 1 else 0, negated % TWO_TO_THE_64);
      assert dst + ([MINUS] + Shown(-v)) == dst + [MINUS] + Shown(-v);
    } else {
      out := AppendCompactUint(dst, room, v);
    }
  }

  /** Appends a comma and the decimal with one capacity check. */
  method AppendCommaCompactUint(dst: bytes, room: nat, v: nat) returns (out: bytes)
    requires v < TWO_TO_THE_64
    ensures out == dst + [COMMA] + Shown(v)
  {
    if v < 10 {
      return dst + [COMMA, DIGIT0 + v];
    }
    if v < 100 {
      PairValue(v);
      assert dst + [COMMA] + DigitPair(v) == dst + ([COMMA] + DigitPair(v));
      return dst + ([COMMA] + DigitPair(v));
    }
    hide Shown, NatOf;
    var digits := CountDigits(v);
    if v >= 1_0000_0000_0000_0000 || room < digits + 1 {
      out := AppendCompactUint(dst + [COMMA], if room > 0 then room - 1 else 0, v);
      return;
    }
    var block := Store16Digits(v);
    BlockEnds(block, v);
    out := dst + [COMMA] + block[16 - digits..];
  }
}
