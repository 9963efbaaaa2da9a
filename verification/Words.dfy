/**
 Eight bytes at a time: the little-endian word arithmetic that finds, reads and writes decimal digits. Words
 are numbers below 2^64, multiplication wraps around, and a mask is the lanes it keeps.
 */
module Words {
  import opened Json
  import opened Decimal


  /** The little-endian number the bytes hold. */
  function WordOf(b: bytes): nat {
    if b == [] then 0 else b[0] + 0x100 * WordOf(b[1..])
  }

  /** Multiplication in 64 bits. */
  function Wrapped(x: nat): (r: nat)
    ensures r < TWO_TO_THE_64 && (x < TWO_TO_THE_64 ==> r == x)
  {
    x % TWO_TO_THE_64
  }

  // ---- Reading eight digits -------------------------------------------------------------------------------------

  /** The low nibble of each of n bytes. */
  function LowNibbles(x: nat, n: nat): nat {
    if n == 0 then 0 else x % 0x10 + 0x100 * LowNibbles(x / 0x100, n - 1)
  }

  /** Every other of 2n bytes. */
  function EvenBytes(x: nat, n: nat): nat {
    if n == 0 then 0 else x % 0x100 + 0x1_0000 * EvenBytes(x / 0x1_0000, n - 1)
  }

  /** Every other of 2n halves of sixteen bits. */
  function EvenHalves(x: nat, n: nat): nat {
    if n == 0 then 0 else x % 0x1_0000 + 0x1_0000_0000 * EvenHalves(x / 0x1_0000_0000, n - 1)
  }

  /** Reduces eight digits to their number with three multiplications. */
  function Parse8DigitsWord(x: nat): nat {
    var y := Wrapped(LowNibbles(x, 8) * 2561) / 0x100;
    var z := Wrapped(EvenBytes(y, 4) * 6553601) / 0x1_0000;
    Wrapped(EvenHalves(z, 2) * 42949672960001) / 0x1_0000_0000
  }

  /** Four lanes of sixteen bits. */
  function Four(a: nat, b: nat, c: nat, d: nat): nat {
    a + 0x1_0000 * (b + 0x1_0000 * (c + 0x1_0000 * d))
  }

  lemma NextByte(a: nat, r: nat)
    requires a < 0x100
    ensures (a + 0x100 * r) / 0x100 == r && (a + 0x100 * r) % 0x100 == a
  {
  }

  lemma NextNibble(a: nat, r: nat)
    ensures (a + 0x10 * r) % 0x10 == a % 0x10
  {
  }

  lemma NextHalf(a: nat, r: nat)
    requires a < 0x1_0000
    ensures (a + 0x1_0000 * r) / 0x1_0000 == r && (a + 0x1_0000 * r) % 0x1_0000 == a
    ensures (a + 0x1_0000 * r) % 0x100 == a % 0x100
  {
  }

  /** The nibbles of ASCII digits are the digits. */
  lemma {:induction false} NibblesOfDigits(b: bytes)
    requires AllDigits(b)
    ensures LowNibbles(WordOf(b), |b|) == WordOf(Plain(b))
  {
    if b != [] {
      NextByte(b[0], WordOf(b[1..]));
      NextNibble(b[0], 0x10 * WordOf(b[1..]));
      NibblesOfDigits(b[1..]);
      assert Plain(b)[1..] == Plain(b[1..]);
    }
  }

  function Plain(b: bytes): (p: bytes)
    requires AllDigits(b)
    ensures |p| == |b| && forall k | 0 <= k < |b| :: p[k] == Digit(b[k])
  {
    seq(|b|, k requires 0 <= k < |b| => b[k] - DIGIT0)
  }

  /** Eight lanes of one byte. */
  function Eight(a: nat, b: nat, c: nat, d: nat, e: nat, f: nat, g: nat, h: nat): nat {
    a + 0x100 * b + 0x1_0000 * c + 0x100_0000 * d + 0x1_0000_0000 * e + 0x100_0000_0000 * f + 0x1_0000_0000_0000 * g + 0x100_0000_0000_0000 * h
  }

  /** Neighbouring digits become pairs: one multiplication puts ten times a byte plus the next byte into each lane. */
  lemma Pairs(a: nat, b: nat, c: nat, d: nat, e: nat, f: nat, g: nat, h: nat)
    requires a < 10 && b < 10 && c < 10 && d < 10 && e < 10 && f < 10 && g < 10 && h < 10
    ensures EvenBytes(Wrapped(Eight(a, b, c, d, e, f, g, h) * 2561) / 0x100, 4) == Four(10 * a + b, 10 * c + d, 10 * e + f, 10 * g + h)
  {
    hide EvenBytes, Wrapped;
    var lanes := Four(10 * a + b + 0x100 * (10 * b + c), 10 * c + d + 0x100 * (10 * d + e), 10 * e + f + 0x100 * (10 * f + g), 10 * g + h);
    WrapLanes(Eight(a, b, c, d, e, f, g, h) * 2561, a, 0x100, lanes, 10 * h);
    SplitFour(10 * a + b, 10 * b + c, 10 * c + d, 10 * d + e, 10 * e + f, 10 * f + g, 10 * g + h);
  }

  lemma WordOfEight(d: bytes)
    requires |d| == 8
    ensures WordOf(d) == Eight(d[0], d[1], d[2], d[3], d[4], d[5], d[6], d[7])
  {
    WordOfFour(d);
    WordOfFour(d[4..]);
    assert d[4..][4..] == [] && forall k | 0 <= k < 4 :: d[4..][k] == d[4 + k];
  }

  lemma WordOfFour(d: bytes)
    requires |d| >= 4
    ensures WordOf(d) == Eight(d[0], d[1], d[2], d[3], WordOf(d[4..]), 0, 0, 0)
  {
    assert d[1..][1..] == d[2..] && d[2..][1..] == d[3..] && d[3..][1..] == d[4..];
    assert WordOf(d) == d[0] + 0x100 * WordOf(d[1..]);
    assert WordOf(d[1..]) == d[1] + 0x100 * WordOf(d[2..]);
    assert WordOf(d[2..]) == d[2] + 0x100 * WordOf(d[3..]);
    assert WordOf(d[3..]) == d[3] + 0x100 * WordOf(d[4..]);
  }

  /** The lowest lane is shifted out and what lies above 64 bits is lost. */
  lemma WrapLanes(x: nat, low: nat, unit: nat, lanes: nat, high: nat)
    requires low < unit && unit * lanes + unit <= TWO_TO_THE_64 && x == low + unit * lanes + TWO_TO_THE_64 * high
    ensures Wrapped(x) / unit == lanes
  {
    ModTop(low + unit * lanes, high);
    DivLow(low, unit, lanes);
  }

  lemma DivLow(low: nat, unit: nat, lanes: nat)
    requires low < unit
    ensures (low + unit * lanes) / unit == lanes
  {
    var q := (low + unit * lanes) / unit;
    assert unit * q <= low + unit * lanes < unit * q + unit;
    Strides(unit, q, lanes);
    Strides(unit, lanes, q);
  }

  lemma Strides(m: nat, a: int, b: int)
    ensures a < b ==> m * a + m <= m * b
  {
    if a < b {
      assert m * b == m * a + m * (b - a);
      assert m * (b - a) == m + m * (b - a - 1);
    }
  }

  lemma ModTop(x: nat, high: nat)
    requires x < TWO_TO_THE_64
    ensures (x + TWO_TO_THE_64 * high) % TWO_TO_THE_64 == x
  {
  }

  lemma SplitFour(a: nat, x: nat, b: nat, y: nat, c: nat, z: nat, d: nat)
    requires a < 0x100 && b < 0x100 && c < 0x100 && d < 0x100 && x < 0x100 && y < 0x100 && z < 0x100
    ensures EvenBytes(Four(a + 0x100 * x, b + 0x100 * y, c + 0x100 * z, d), 4) == Four(a, b, c, d)
  {
    var r3 := d;
    var r2 := c + 0x100 * z + 0x1_0000 * r3;
    var r1 := b + 0x100 * y + 0x1_0000 * r2;
    NextHalf(a + 0x100 * x, r1);
    NextHalf(b + 0x100 * y, r2);
    NextHalf(c + 0x100 * z, r3);
    assert EvenBytes(r3, 1) == d;
    assert EvenBytes(r2, 2) == c + 0x1_0000 * EvenBytes(r3, 1);
    assert EvenBytes(r1, 3) == b + 0x1_0000 * EvenBytes(r2, 2);
  }

  /** Pairs become groups of four, and groups of four the number. */
  lemma Quads(a: nat, b: nat, c: nat, d: nat)
    requires a < 100 && b < 100 && c < 100 && d < 100
    ensures Wrapped(EvenHalves(Wrapped(Four(a, b, c, d) * 6553601) / 0x1_0000, 2) * 42949672960001) / 0x1_0000_0000 ==
            100_0000 * a + 1_0000 * b + 100 * c + d
  {
    hide EvenHalves, Wrapped;
    var lanes := (100 * a + b) + 0x1_0000 * (100 * b + c) + 0x1_0000_0000 * (100 * c + d);
    WrapLanes(Four(a, b, c, d) * 6553601, a, 0x1_0000, lanes, 100 * d);
    SplitHalves(100 * a + b, 100 * b + c, 100 * c + d);
    var hi, lo := 100 * a + b, 100 * c + d;
    WrapLanes((hi + 0x1_0000_0000 * lo) * 42949672960001, hi, 0x1_0000_0000, 1_0000 * hi + lo, 1_0000 * lo);
  }

  lemma SplitHalves(a: nat, x: nat, b: nat)
    requires a < 0x1_0000 && x < 0x1_0000 && b < 0x1_0000
    ensures EvenHalves(a + 0x1_0000 * x + 0x1_0000_0000 * b, 2) == a + 0x1_0000_0000 * b
  {
    DivLow(a + 0x1_0000 * x, 0x1_0000_0000, b);
    NextHalf(a, x + 0x1_0000 * b);
    assert EvenHalves(b, 1) == b;
  }

  /** The number written by eight ASCII digits. */
  lemma EightDigits(b: bytes)
    requires |b| == 8 && AllDigits(b)
    ensures Parse8DigitsWord(WordOf(b)) == NatOf(b)
  {
    hide LowNibbles, EvenBytes, EvenHalves, Wrapped, NatOf;
    NibblesOfDigits(b);
    var d := Plain(b);
    WordOfEight(d);
    Pairs(d[0], d[1], d[2], d[3], d[4], d[5], d[6], d[7]);
    Quads(10 * d[0] + d[1], 10 * d[2] + d[3], 10 * d[4] + d[5], 10 * d[6] + d[7]);
    NatOfEight(b);
  }

  lemma NatOfFour(b: bytes)
    requires |b| >= 4
    ensures NatOf(b) == 1_0000 * NatOf(b[..|b| - 4]) + 1000 * Digit(b[|b| - 4]) + 100 * Digit(b[|b| - 3]) + 10 * Digit(b[|b| - 2]) + Digit(b[|b| - 1])
  {
    hide Digit;
    var n := |b|;
    assert b[..n - 1][..n - 2] == b[..n - 2] && b[..n - 2][..n - 3] == b[..n - 3] && b[..n - 3][..n - 4] == b[..n - 4];
    assert NatOf(b) == 10 * NatOf(b[..n - 1]) + Digit(b[n - 1]);
    assert NatOf(b[..n - 1]) == 10 * NatOf(b[..n - 2]) + Digit(b[n - 2]);
    assert NatOf(b[..n - 2]) == 10 * NatOf(b[..n - 3]) + Digit(b[n - 3]);
    assert NatOf(b[..n - 3]) == 10 * NatOf(b[..n - 4]) + Digit(b[n - 4]);
  }

  lemma NatOfEight(b: bytes)
    requires |b| == 8
    ensures NatOf(b) == 1000_0000 * Digit(b[0]) + 100_0000 * Digit(b[1]) + 10_0000 * Digit(b[2]) + 1_0000 * Digit(b[3]) +
                        1000 * Digit(b[4]) + 100 * Digit(b[5]) + 10 * Digit(b[6]) + Digit(b[7])
  {
    hide Digit, NatOf;
    NatOfFour(b);
    NatOfFour(b[..4]);
    EmptyNumber();
    assert b[..4][..0] == [];
  }

  lemma EmptyNumber()
    ensures NatOf([]) == 0 && WordOf([]) == 0
  {
  }

  // ---- Finding the first byte that is no digit --------------------------------------------------------------------

  /** The same byte n times. */
  function Repeated(c: nat, n: nat): nat {
    if n == 0 then 0 else c + 0x100 * Repeated(c, n - 1)
  }

  function Pow256(n: nat): (p: nat)
    ensures p > 0
  {
    if n == 0 then 1 else 0x100 * Pow256(n - 1)
  }

  /** The first of n bytes whose high bit is set in either word, or n. */
  function FirstHigh(a: nat, b: nat, n: nat): (k: nat)
    ensures k <= n
  {
    if n == 0 || a % 0x100 >= 0x80 || b % 0x100 >= 0x80 then 0 else 1 + FirstHigh(a / 0x100, b / 0x100, n - 1)
  }

  /**
   The first byte marked by the digit mask of eight bytes, or 8: a byte is marked when adding 0x46 or subtracting
   0x30 sets its high bit, carries and borrows included.
   */
  function FirstNonDigit(word: nat): (k: nat)
    ensures k <= 8
  {
    FirstHigh((word + Repeated(0x46, 8)) % TWO_TO_THE_64, (word - Repeated(0x30, 8)) % TWO_TO_THE_64, 8)
  }

  function DigitsInFront(b: bytes): (k: nat)
    ensures k <= |b| && AllDigits(b[..k]) && (k < |b| ==> !IsDigit(b[k]))
  {
    if b == [] || !IsDigit(b[0]) then 0
    else
      assert forall k | 0 <= k < |b| - 1 :: b[1..][k] == b[k + 1];
      1 + DigitsInFront(b[1..])
  }

  lemma ModByte(x: int, n: nat)
    requires n > 0
    ensures x % Pow256(n) % 0x100 == x % 0x100 && x % Pow256(n) / 0x100 == (x / 0x100) % Pow256(n - 1)
  {
    hide Pow256;
    Pow256Next(n);
    var p := Pow256(n - 1);
    var q, r := x / 0x100, x % 0x100;
    var u, t := q / p, q % p;
    assert x == 0x100 * (p * u + t) + r;
    Together(p, u, t, r);
    NextByte(r, t);
  }

  lemma Pow256Next(n: nat)
    requires n > 0
    ensures Pow256(n) == 0x100 * Pow256(n - 1)
  {
  }

  lemma Together(p: nat, u: int, t: nat, r: nat)
    requires t < p && r < 0x100
    ensures (0x100 * (p * u + t) + r) % (0x100 * p) == 0x100 * t + r
  {
    var m := 0x100 * p;
    assert 0x100 * (p * u + t) + r == m * u + (0x100 * t + r);
    assert 0x100 * t + r < m;
    RemainderOf(m, u, 0x100 * t + r);
  }

  lemma RemainderOf(m: nat, u: int, r: nat)
    requires r < m
    ensures (m * u + r) % m == r
  {
    var x := m * u + r;
    var q := x / m;
    assert x == m * q + x % m;
    Strides(m, q, u);
    Strides(m, u, q);
  }

  /** No carry or borrow reaches the first byte that is no digit, so it is the first one marked. */
  lemma {:induction false} MaskFindsNonDigit(b: bytes)
    ensures FirstHigh((WordOf(b) + Repeated(0x46, |b|)) % Pow256(|b|), (WordOf(b) - Repeated(0x30, |b|)) % Pow256(|b|), |b|) == DigitsInFront(b)
    decreases |b|
  {
    if b != [] {
      hide FirstHigh, DigitsInFront, Pow256;
      var n, c, rest := |b|, b[0], b[1..];
      var x, y := WordOf(b) + Repeated(0x46, n), WordOf(b) - Repeated(0x30, n);
      var x', y' := WordOf(rest) + Repeated(0x46, n - 1), WordOf(rest) - Repeated(0x30, n - 1);
      assert x == (c + 0x46) + 0x100 * x' && y == (c - 0x30) + 0x100 * y';
      MaskFindsNonDigit(rest);
      OneByteMore(b, x, y, x', y');
    }
  }

  lemma OneByteMore(b: bytes, x: int, y: int, x': int, y': int)
    requires b != [] && x == (b[0] + 0x46) + 0x100 * x' && y == (b[0] - 0x30) + 0x100 * y'
    requires FirstHigh(x' % Pow256(|b| - 1), y' % Pow256(|b| - 1), |b| - 1) == DigitsInFront(b[1..])
    ensures FirstHigh(x % Pow256(|b|), y % Pow256(|b|), |b|) == DigitsInFront(b)
  {
    hide Pow256;
    ModByte(x, |b|);
    ModByte(y, |b|);
    FirstByte(b[0], x', y');
  }

  lemma FirstByte(c: byte, x: int, y: int)
    ensures var a, b := c + 0x46 + 0x100 * x, c - 0x30 + 0x100 * y;
            (a % 0x100 >= 0x80 || b % 0x100 >= 0x80 <==> !IsDigit(c)) &&
            (IsDigit(c) ==> a / 0x100 == x && b / 0x100 == y)
  {
  }

  lemma DigitMask(b: bytes)
    requires |b| == 8
    ensures FirstNonDigit(WordOf(b)) == DigitsInFront(b)
  {
    hide FirstHigh, WordOf, Repeated;
    MaskFindsNonDigit(b);
    EightBytes();
  }

  lemma EightBytes()
    ensures Pow256(8) == TWO_TO_THE_64
  {
    assert Pow256(4) == 0x1_0000_0000 by {
      assert Pow256(2) == 0x1_0000;
    }
    assert Pow256(6) == 0x1_0000_0000_0000;
  }

  // ---- Writing eight digits -----------------------------------------------------------------------------------------

  /** The n little-endian bytes of a word. */
  function BytesOf(x: nat, n: nat): (b: bytes)
    ensures |b| == n
  {
    if n == 0 then [] else [x % 0x100] + BytesOf(x / 0x100, n - 1)
  }

  lemma {:induction false} BytesOfWord(b: bytes)
    ensures BytesOf(WordOf(b), |b|) == b
  {
    if b != [] {
      BytesOfWord(b[1..]);
      NextByte(b[0], WordOf(b[1..]));
    }
  }

  /** The low seven bits of two halves. */
  function LowSevens(x: nat): nat {
    x % 0x80 + 0x1_0000_0000 * (x / 0x1_0000_0000 % 0x80)
  }

  /** The low nibble of each of n lanes of sixteen bits. */
  function NibbleLanes(x: nat, n: nat): nat {
    if n == 0 then 0 else x % 0x10 + 0x1_0000 * NibbleLanes(x / 0x1_0000, n - 1)
  }

  /** Converts two values below 10000 to eight digits by multiplying with reciprocals, both at once. */
  function EncodeTwoFourDigitChunks(hi: nat, lo: nat): nat {
    var merged := hi + 0x1_0000_0000 * lo;
    var top := LowSevens(Wrapped(merged * 10486) / 0x10_0000);
    var bottom := (merged - 100 * top) % TWO_TO_THE_64;
    var hundreds := Wrapped(Wrapped(bottom * 0x1_0000) + top);
    var tens := NibbleLanes(Wrapped(hundreds * 103) / 0x400, 4);
    Wrapped(tens + Wrapped((hundreds - 10 * tens) % TWO_TO_THE_64 * 0x100))
  }

  /** 10486 / 2^20 is close enough to 1 / 100 below 10000, in both halves of the word. */
  lemma Hundredths(hi: nat, lo: nat)
    requires hi < 10000 && lo < 10000
    ensures LowSevens(Wrapped((hi + 0x1_0000_0000 * lo) * 10486) / 0x10_0000) == hi / 100 + 0x1_0000_0000 * (lo / 100)
  {
    hide Wrapped;
    var q, r, u, v := hi / 100, hi % 100, lo / 100, lo % 100;
    var d, e := 24 * q + 10486 * r, 24 * u + 10486 * v;
    assert hi * 10486 == 0x10_0000 * q + d && lo * 10486 == 0x10_0000 * u + e && d < 0x10_0000 && e < 0x10_0000;
    var x := q + 0x1000 * (0x10_0000 * u + e);
    WrapLanes((hi + 0x1_0000_0000 * lo) * 10486, d, 0x10_0000, x, 0);
    DivLow(q + 0x1000 * e, 0x1_0000_0000, u);
    RemainderOf(0x80, 0x20 * (0x10_0000 * u + e), q);
  }

  /** 103 / 2^10 is close enough to 1 / 10 below 100, lane by lane. */
  lemma TenthLane(t: nat, v: nat, rest: nat)
    requires t < 10 && v < 100
    ensures var x := t + 0x40 * (v * 103 + 0x1_0000 * rest);
            x % 0x10 == t && x / 0x1_0000 == v / 10 + 0x40 * rest
  {
    var q, r := v / 10, v % 10;
    var e := 6 * q + 103 * r;
    assert v * 103 == 0x400 * q + e && e < 0x400;
    DivLow(t + 0x40 * e, 0x1_0000, q + 0x40 * rest);
    RemainderOf(0x10, 4 * (v * 103 + 0x1_0000 * rest), t);
  }

  lemma Tenths(a: nat, b: nat, c: nat, d: nat)
    requires a < 100 && b < 100 && c < 100 && d < 100
    ensures NibbleLanes(Wrapped(Four(a, b, c, d) * 103) / 0x400, 4) == Four(a / 10, b / 10, c / 10, d / 10)
  {
    hide Wrapped;
    var r2 := c * 103 + 0x1_0000 * (d * 103);
    var r1 := b * 103 + 0x1_0000 * r2;
    var e := 6 * (a / 10) + 103 * (a % 10);
    assert a * 103 == 0x400 * (a / 10) + e && e < 0x400;
    WrapLanes(Four(a, b, c, d) * 103, e, 0x400, a / 10 + 0x40 * r1, 0);
    NibblesOfLanes(a, b, c, d);
  }

  lemma NibblesOfLanes(a: nat, b: nat, c: nat, d: nat)
    requires a < 100 && b < 100 && c < 100 && d < 100
    ensures NibbleLanes(a / 10 + 0x40 * (b * 103 + 0x1_0000 * (c * 103 + 0x1_0000 * (d * 103))), 4) == Four(a / 10, b / 10, c / 10, d / 10)
  {
    var r2 := c * 103 + 0x1_0000 * (d * 103);
    TenthLane(a / 10, b, r2);
    TenthLane(b / 10, c, d * 103);
    TenthLane(c / 10, d, 0);
    var x3 := d / 10;
    assert NibbleLanes(x3, 1) == x3;
    assert NibbleLanes(c / 10 + 0x40 * (d * 103), 2) == c / 10 + 0x1_0000 * x3;
    assert NibbleLanes(b / 10 + 0x40 * r2, 3) == b / 10 + 0x1_0000 * (c / 10 + 0x1_0000 * x3);
  }

  /** The eight digits of two values below 10000, as plain numbers. */
  function Unpacked(hi: nat, lo: nat): bytes
    requires hi < 10000 && lo < 10000
  {
    [hi / 1000, hi / 100 % 10, hi % 100 / 10, hi % 10, lo / 1000, lo / 100 % 10, lo % 100 / 10, lo % 10]
  }

  lemma Encoded(hi: nat, lo: nat)
    requires hi < 10000 && lo < 10000
    ensures EncodeTwoFourDigitChunks(hi, lo) == WordOf(Unpacked(hi, lo))
  {
    hide EncodeTwoFourDigitChunks, WordOf, Eight;
    var a, b, c, d := hi / 100, hi % 100, lo / 100, lo % 100;
    Hundredths(hi, lo);
    Tenths(a, b, c, d);
    EncodedLanes(hi, lo, a, b, c, d, a / 10, b / 10, c / 10, d / 10);
    DigitsOfFour(hi);
    DigitsOfFour(lo);
    WordOfEight(Unpacked(hi, lo));
  }

  lemma EncodedLanes(hi: nat, lo: nat, a: nat, b: nat, c: nat, d: nat, t: nat, u: nat, v: nat, w: nat)
    requires a < 100 && b < 100 && c < 100 && d < 100 && hi == 100 * a + b && lo == 100 * c + d
    requires 10 * t <= a < 10 * t + 10 && 10 * u <= b < 10 * u + 10 && 10 * v <= c < 10 * v + 10 && 10 * w <= d < 10 * w + 10
    requires LowSevens(Wrapped((hi + 0x1_0000_0000 * lo) * 10486) / 0x10_0000) == a + 0x1_0000_0000 * c
    requires NibbleLanes(Wrapped(Four(a, b, c, d) * 103) / 0x400, 4) == Four(t, u, v, w)
    ensures EncodeTwoFourDigitChunks(hi, lo) == Eight(t, a - 10 * t, u, b - 10 * u, v, c - 10 * v, w, d - 10 * w)
  {
    hide LowSevens, NibbleLanes, Wrapped, Four, Eight;
    HundredsStep(hi + 0x1_0000_0000 * lo, a, b, c, d);
    OnesStep(a, b, c, d, t, u, v, w);
  }

  lemma DigitsOfFour(v: nat)
    requires v < 10000
    ensures v / 100 < 100 && v / 1000 == v / 100 / 10 && v / 100 % 10 == v / 100 - 10 * (v / 100 / 10) && v % 10 == v % 100 - 10 * (v % 100 / 10)
  {
    var q, r := v / 100, v % 100;
    assert v == 10 * (10 * q + r / 10) + r % 10;
    DivLow(100 * (q % 10) + r, 1000, q / 10);
  }

  lemma SmallWrap(x: int)
    requires 0 <= x < TWO_TO_THE_64
    ensures x % TWO_TO_THE_64 == x && Wrapped(x) == x
  {
  }

  /** The remainders move in between the hundreds: four lanes below 100. */
  lemma HundredsStep(merged: nat, a: nat, b: nat, c: nat, d: nat)
    requires a < 100 && b < 100 && c < 100 && d < 100 && merged == 100 * a + b + 0x1_0000_0000 * (100 * c + d)
    ensures var top := a + 0x1_0000_0000 * c;
            var bottom := (merged - 100 * top) % TWO_TO_THE_64;
            Wrapped(Wrapped(bottom * 0x1_0000) + top) == Four(a, b, c, d)
  {
    hide Wrapped;
    var top, bottom := a + 0x1_0000_0000 * c, b + 0x1_0000_0000 * d;
    assert merged - 100 * top == bottom;
    SmallWrap(bottom);
    SmallWrap(bottom * 0x1_0000);
    SmallWrap(bottom * 0x1_0000 + top);
  }

  /** The ones move in between the tens: eight lanes of one digit. */
  lemma OnesStep(a: nat, b: nat, c: nat, d: nat, t: nat, u: nat, v: nat, w: nat)
    requires a < 100 && b < 100 && c < 100 && d < 100
    requires 10 * t <= a < 10 * t + 10 && 10 * u <= b < 10 * u + 10 && 10 * v <= c < 10 * v + 10 && 10 * w <= d < 10 * w + 10
    ensures var tens := Four(t, u, v, w);
            Wrapped(tens + Wrapped((Four(a, b, c, d) - 10 * tens) % TWO_TO_THE_64 * 0x100)) ==
            Eight(t, a - 10 * t, u, b - 10 * u, v, c - 10 * v, w, d - 10 * w)
  {
    hide Wrapped;
    var ones := Four(a - 10 * t, b - 10 * u, c - 10 * v, d - 10 * w);
    assert Four(a, b, c, d) - 10 * Four(t, u, v, w) == ones;
    SmallWrap(ones);
    SmallWrap(ones * 0x100);
    SmallWrap(Four(t, u, v, w) + ones * 0x100);
  }

  /** Writes a value below 10^8 as exactly eight ASCII digits. */
  function Store8Digits(value: nat): bytes {
    BytesOf(Wrapped(Repeated(0x30, 8) + EncodeTwoFourDigitChunks(value / 1_0000, value % 1_0000)), 8)
  }

  lemma {:induction false} ToAscii(b: bytes)
    requires forall k | 0 <= k < |b| :: b[k] < 10
    ensures WordOf(seq(|b|, k requires 0 <= k < |b| => b[k] + 0x30)) == Repeated(0x30, |b|) + WordOf(b)
  {
    if b != [] {
      ToAscii(b[1..]);
      assert seq(|b|, k requires 0 <= k < |b| => b[k] + 0x30)[1..] == seq(|b[1..]|, k requires 0 <= k < |b[1..]| => b[1..][k] + 0x30);
    }
  }

  /** Eight digits that write the value. */
  lemma EightStored(value: nat)
    requires value < 1_0000_0000
    ensures |Store8Digits(value)| == 8 && AllDigits(Store8Digits(value)) && NatOf(Store8Digits(value)) == value
  {
    hide EncodeTwoFourDigitChunks, NatOf, WordOf, BytesOf, Repeated, Unpacked;
    var hi, lo := value / 1_0000, value % 1_0000;
    assert hi < 10000 && lo < 10000;
    Encoded(hi, lo);
    UnpackedDigits(hi, lo);
    AsciiStored(Unpacked(hi, lo));
    UnpackedSum(hi);
    UnpackedSum(lo);
  }

  lemma UnpackedSum(v: nat)
    requires v < 10000
    ensures v == 1000 * (v / 1000) + 100 * (v / 100 % 10) + 10 * (v % 100 / 10) + v % 10
  {
    DigitsOfFour(v);
    var q, r := v / 100, v % 100;
    assert v == 100 * q + r;
  }

  lemma UnpackedDigits(hi: nat, lo: nat)
    requires hi < 10000 && lo < 10000
    ensures var d := Unpacked(hi, lo);
            |d| == 8 && (forall k | 0 <= k < 8 :: d[k] < 10) &&
            EightValue(d) == 1_0000 * (1000 * (hi / 1000) + 100 * (hi / 100 % 10) + 10 * (hi % 100 / 10) + hi % 10) +
                             1000 * (lo / 1000) + 100 * (lo / 100 % 10) + 10 * (lo % 100 / 10) + lo % 10
  {
  }

  /** The number eight plain digits write. */
  function EightValue(d: bytes): nat
    requires |d| == 8
  {
    1000_0000 * d[0] as nat + 100_0000 * d[1] as nat + 10_0000 * d[2] as nat + 1_0000 * d[3] as nat +
    1000 * d[4] as nat + 100 * d[5] as nat + 10 * d[6] as nat + d[7] as nat
  }

  /** Eight plain digits stored as ASCII. */
  lemma AsciiStored(d: bytes)
    requires |d| == 8 && forall k | 0 <= k < 8 :: d[k] < 10
    ensures var b := BytesOf(Wrapped(Repeated(0x30, 8) + WordOf(d)), 8); AllDigits(b) && NatOf(b) == EightValue(d)
  {
    hide NatOf, WordOf, BytesOf, Repeated;
    var b := seq(8, k requires 0 <= k < 8 => d[k] + 0x30);
    ToAscii(d);
    WordBound(b);
    BytesOfWord(b);
    NatOfEight(b);
  }

  lemma WordBound(b: bytes)
    requires |b| == 8
    ensures WordOf(b) < TWO_TO_THE_64
  {
    WordOfEight(b);
  }
}
