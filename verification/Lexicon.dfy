/**
 The strings of section 7 of RFC 8259 as sequences of pieces, byte by byte: which byte strings are string tokens,
 and the text that each one stands for, with UTF-8 as section 3 of RFC 3629 tabulates it.
 */
module Lexicon {
  import opened Json
  import opened Strings
  import opened Quoting
  import opened Utf8

  // ---- UTF-8 and hexadecimal, read back -----------------------------------------------------------------------------

  predicate Trails(c: byte) {
    0x80 <= c < 0xC0
  }

  /** What a byte adds to the mark it carries. */
  function Bits(c: byte, mark: nat): int {
    c - mark
  }

  /** The bytes e are the UTF-8 of the code point r: the payload bits, weighted, give r back. */
  ghost predicate IsUtf8Of(e: bytes, r: nat) {
    || (|e| == 1 && r < 0x80 && r == e[0])
    || (|e| == 2 && 0x80 <= r < 0x800 && 0xC0 <= e[0] < 0xE0 && Trails(e[1]) && r == Bits(e[0], 0xC0) * 0x40 + Bits(e[1], 0x80))
    || (|e| == 3 && 0x800 <= r < 0x1_0000 && 0xE0 <= e[0] < 0xF0 && Trails(e[1]) && Trails(e[2]) &&
        r == Bits(e[0], 0xE0) * 0x1000 + Bits(e[1], 0x80) * 0x40 + Bits(e[2], 0x80))
    || (|e| == 4 && 0x1_0000 <= r < 0x11_0000 && 0xF0 <= e[0] < 0xF8 && Trails(e[1]) && Trails(e[2]) && Trails(e[3]) &&
        r == Bits(e[0], 0xF0) * 0x4_0000 + Bits(e[1], 0x80) * 0x1000 + Bits(e[2], 0x80) * 0x40 + Bits(e[3], 0x80))
  }

  predicate IsSurrogate(r: nat) {
    0xD800 <= r < 0xE000
  }

  /** A hexadecimal digit in either case and its value. */
  predicate IsHexOf(c: byte, v: nat) {
    (0x30 <= c <= 0x39 && v == c - 0x30) || (0x41 <= c <= 0x46 && v == c - 0x41 + 10) || (0x61 <= c <= 0x66 && v == c - 0x61 + 10)
  }

  /** Four hexadecimal digits of u. */
  predicate IsHex4Of(h: bytes, u: nat) {
    |h| == 4 && u < 0x1_0000 &&
    IsHexOf(h[0], u / 0x1000) && IsHexOf(h[1], u / 0x100 % 0x10) && IsHexOf(h[2], u / 0x10 % 0x10) && IsHexOf(h[3], u % 0x10)
  }

  lemma Weights(a: nat, b: nat, c: nat, d: nat)
    requires b < 0x40 && c < 0x40 && d < 0x40
    ensures var r := a * 0x4_0000 + b * 0x1000 + c * 0x40 + d;
            r % 0x40 == d && r / 0x40 % 0x40 == c && r / 0x1000 % 0x40 == b && r / 0x4_0000 == a
  {
    var r := a * 0x4_0000 + b * 0x1000 + c * 0x40 + d;
    var q := a * 0x1000 + b * 0x40 + c;
    var p := a * 0x40 + b;
    assert r == 0x40 * q + d && q == 0x40 * p + c;
    assert r / 0x40 == q && q / 0x40 == p && p / 0x40 == a;
    assert r / 0x1000 == p && r / 0x4_0000 == a;
  }

  /** A code point has one encoding. */
  lemma OneEncoding(e: bytes, r: nat)
    requires r < 0x11_0000
    ensures IsUtf8Of(e, r) <==> e == EncodeRune(r)
  {
    RuneEncoded(r);
    if IsUtf8Of(e, r) {
      if |e| == 2 {
        Weights(0, 0, Bits(e[0], 0xC0), Bits(e[1], 0x80));
      } else if |e| == 3 {
        Weights(0, Bits(e[0], 0xE0), Bits(e[1], 0x80), Bits(e[2], 0x80));
      } else if |e| == 4 {
        Weights(Bits(e[0], 0xF0), Bits(e[1], 0x80), Bits(e[2], 0x80), Bits(e[3], 0x80));
      }
    }
  }

  lemma RuneEncoded(r: nat)
    requires r < 0x11_0000
    ensures IsUtf8Of(EncodeRune(r), r)
  {
    if 0x800 <= r < 0x1_0000 {
      var q := r / 0x40;
      assert q / 0x40 == r / 0x1000;
    } else if r >= 0x1_0000 {
      var q := r / 0x40;
      var p := q / 0x40;
      assert p == r / 0x1000 && p / 0x40 == r / 0x4_0000;
    }
  }

  // ---- Pieces ------------------------------------------------------------------------------------------------------------

  /** A character as it is, a two-byte escape, the escape of one code point, or of one beyond four digits as two. */
  datatype Piece =
    | Plain(rune: nat, utf8: bytes)
    | Short(letter: byte)
    | Unicode(rune: nat, hex: bytes)
    | Paired(rune: nat, high: bytes, low: bytes)

  ghost predicate Correct(p: Piece) {
    match p
    case Plain(rune, utf8) => IsUtf8Of(utf8, rune) && !IsSurrogate(rune) && rune >= 0x20 && rune != 0x22 && rune != 0x5C
    case Short(letter) => letter in [0x22, 0x5C, 0x2F, 0x62, 0x66, 0x6E, 0x72, 0x74]
    case Unicode(rune, hex) => IsHex4Of(hex, rune) && !IsSurrogate(rune)
    case Paired(rune, high, low) =>
      0x1_0000 <= rune < 0x11_0000 && IsHex4Of(high, 0xD800 + (rune - 0x1_0000) / 0x400) && IsHex4Of(low, 0xDC00 + (rune - 0x1_0000) % 0x400)
  }

  function Spelled(p: Piece): bytes {
    match p
    case Plain(_, utf8) => utf8
    case Short(letter) => [0x5C, letter]
    case Unicode(_, hex) => [0x5C, 0x75] + hex
    case Paired(_, high, low) => [0x5C, 0x75] + high + [0x5C, 0x75] + low
  }

  /** The code point a piece stands for. */
  function RuneOf(p: Piece): nat {
    match p
    case Short(letter) =>
      if letter == 0x62 then 0x08 else if letter == 0x66 then 0x0C else if letter == 0x6E then 0x0A else if letter == 0x72 then 0x0D
      else if letter == 0x74 then 0x09 else letter
    case Plain(rune, _) => rune
    case Unicode(rune, _) => rune
    case Paired(rune, _, _) => rune
  }

  ghost predicate AllCorrect(ps: seq<Piece>) {
    forall k | 0 <= k < |ps| :: Correct(ps[k])
  }

  function SpelledAll(ps: seq<Piece>): bytes {
    if ps == [] then [] else Spelled(ps[0]) + SpelledAll(ps[1..])
  }

  predicate AnyEscape(ps: seq<Piece>) {
    exists k :: 0 <= k < |ps| && !ps[k].Plain?
  }

  /** t is the UTF-8 of the code points that the pieces stand for, one after the other. */
  ghost predicate StandsFor(ps: seq<Piece>, t: bytes) {
    if ps == [] then t == []
    else exists n | 0 <= n <= |t| :: IsUtf8Of(t[..n], RuneOf(ps[0])) && StandsFor(ps[1..], t[n..])
  }

  lemma Utf8Bound(e: bytes, r: nat)
    requires IsUtf8Of(e, r)
    ensures r < 0x11_0000
  {
  }

  lemma StandsFirst(ps: seq<Piece>, t: bytes) returns (first: bytes, rest: bytes)
    requires ps != [] && StandsFor(ps, t)
    ensures RuneOf(ps[0]) < 0x11_0000 && first == EncodeRune(RuneOf(ps[0])) && StandsFor(ps[1..], rest) && t == first + rest
  {
    hide EncodeRune, IsUtf8Of;
    var n :| 0 <= n <= |t| && IsUtf8Of(t[..n], RuneOf(ps[0])) && StandsFor(ps[1..], t[n..]);
    hide StandsFor;
    first, rest := t[..n], t[n..];
    Utf8Bound(first, RuneOf(ps[0]));
    OneEncoding(first, RuneOf(ps[0]));
  }

  /** Pieces stand for one text only. */
  lemma {:induction false} StandsForOne(ps: seq<Piece>, t: bytes, u: bytes)
    requires StandsFor(ps, t) && StandsFor(ps, u)
    ensures t == u
    decreases |ps|
  {
    if ps != [] {
      hide IsUtf8Of, StandsFor, EncodeRune, RuneOf;
      var a, b := StandsFirst(ps, t);
      var c, d := StandsFirst(ps, u);
      StandsForOne(ps[1..], b, d);
    }
  }

  // ---- One piece ---------------------------------------------------------------------------------------------------------

  lemma HexReads(c: byte, v: nat)
    ensures IsHexOf(c, v) <==> v < 16 && HexDigit(c) == v
  {
  }

  lemma Hex4Reads(s: bytes, i: nat, h: bytes, u: nat)
    requires At(s, i, h) && IsHex4Of(h, u)
    ensures Hex4(s, i) == u
  {
    AtByte(s, i, h, 0);
    AtByte(s, i, h, 1);
    AtByte(s, i, h, 2);
    AtByte(s, i, h, 3);
    HexReads(h[0], u / 0x1000);
    HexReads(h[1], u / 0x100 % 0x10);
    HexReads(h[2], u / 0x10 % 0x10);
    HexReads(h[3], u % 0x10);
    FourDigits(u);
  }

  lemma FourDigits(u: nat)
    ensures u / 0x1000 * 0x1000 + u / 0x100 % 0x10 * 0x100 + u / 0x10 % 0x10 * 0x10 + u % 0x10 == u
  {
    var a, b := u / 0x10, u / 0x100;
    assert a / 0x10 == b && b / 0x10 == u / 0x1000;
  }

  /** The halves of a pair give their code point back. */
  lemma PairReads(rune: nat)
    requires 0x1_0000 <= rune < 0x11_0000
    ensures var hi, lo := 0xD800 + (rune - 0x1_0000) / 0x400, 0xDC00 + (rune - 0x1_0000) % 0x400;
            0xD800 <= hi <= 0xDBFF && 0xDC00 <= lo <= 0xDFFF && DecodeSurrogates(hi, lo) == rune
  {
  }

  /** An escape in the source has the length of its piece and decodes to the UTF-8 of its code point. */
  lemma EscapeReads(s: bytes, i: nat, p: Piece)
    requires Correct(p) && !p.Plain? && At(s, i, Spelled(p))
    ensures i < |s| && s[i] == 0x5C && EscapeLength(s, i) == |Spelled(p)| && IsUtf8Of(EscapeText(s, i), RuneOf(p))
  {
    hide At, Hex4, IsHex4Of, EncodeRune, DecodeSurrogates, IsUtf8Of;
    AtByte(s, i, Spelled(p), 0);
    AtByte(s, i, Spelled(p), 1);
    match p
    case Short(letter) => ShortReads(s, i, letter);
    case Unicode(rune, hex) =>
      AtParts(s, i, [0x5C, 0x75], hex);
      Hex4Reads(s, i + 2, hex, rune);
      HexLength(hex, rune);
      RuneEncoded(rune);
    case Paired(rune, high, low) =>
      PairReads(rune);
      HexLength(high, 0xD800 + (rune - 0x1_0000) / 0x400);
      HexLength(low, 0xDC00 + (rune - 0x1_0000) % 0x400);
      var a, b, c := [0x5C, 0x75], high, [0x5C, 0x75];
      AtParts(s, i, a + b + c, low);
      AtParts(s, i, a + b, c);
      AtParts(s, i, a, b);
      AtByte(s, i + 6, c, 0);
      AtByte(s, i + 6, c, 1);
      Hex4Reads(s, i + 2, high, 0xD800 + (rune - 0x1_0000) / 0x400);
      Hex4Reads(s, i + 8, low, 0xDC00 + (rune - 0x1_0000) % 0x400);
      RuneEncoded(rune);
  }

  lemma HexLength(h: bytes, u: nat)
    requires IsHex4Of(h, u)
    ensures |h| == 4 && u < 0x1_0000
  {
  }

  lemma ShortReads(s: bytes, i: nat, letter: byte)
    requires letter in [0x22, 0x5C, 0x2F, 0x62, 0x66, 0x6E, 0x72, 0x74]
    requires i + 2 <= |s| && s[i] == 0x5C && s[i + 1] == letter
    ensures EscapeLength(s, i) == 2 && IsUtf8Of(EscapeText(s, i), RuneOf(Short(letter)))
  {
  }

  /** A plain character in the source is one valid UTF-8 sequence that a string may hold. */
  lemma PlainReads(s: bytes, i: nat, p: Piece)
    requires Correct(p) && p.Plain? && At(s, i, p.utf8)
    ensures i < |s| && s[i] >= 0x20 && s[i] != 0x22 && s[i] != 0x5C && Utf8Length(s, i) == |p.utf8| > 0
  {
    var e := p.utf8;
    AtByte(s, i, e, 0);
    if |e| > 1 {
      AtByte(s, i, e, 1);
    }
    if |e| > 2 {
      AtByte(s, i, e, 2);
    }
    if |e| > 3 {
      AtByte(s, i, e, 3);
    }
  }

  // ---- Whole strings ---------------------------------------------------------------------------------------------------

  lemma NoPieces(s: bytes, i: nat)
    requires i < |s| && s[i] == 0x22
    ensures ScanString(s, i) == StringToken(i + 1, false) && WellEscaped(s, i, i) && Decode(s, i, i) == [] && StandsFor([], [])
  {
  }

  lemma FirstPiece(ps: seq<Piece>)
    requires ps != []
    ensures SpelledAll(ps) == Spelled(ps[0]) + SpelledAll(ps[1..]) && AnyEscape(ps) == (!ps[0].Plain? || AnyEscape(ps[1..]))
  {
    if k :| 0 <= k < |ps| && !ps[k].Plain? {
      assert k > 0 ==> !ps[1..][k - 1].Plain?;
    }
    if k :| 0 <= k < |ps| - 1 && !ps[1..][k].Plain? {
      assert !ps[k + 1].Plain?;
    }
  }

  lemma StandsForMore(ps: seq<Piece>, e: bytes, t: bytes)
    requires ps != [] && IsUtf8Of(e, RuneOf(ps[0])) && StandsFor(ps[1..], t)
    ensures StandsFor(ps, e + t)
  {
    assert (e + t)[..|e|] == e && (e + t)[|e|..] == t;
  }

  /** Scanning over an escape or a valid sequence. */
  lemma ScanOver(s: bytes, i: nat, n: nat)
    requires i < |s| && s[i] != QUOTE && n > 0 && i + n <= |s|
    requires if s[i] == BACKSLASH then EscapeLength(s, i) == n else s[i] >= 0x20 && Utf8Length(s, i) == n
    ensures var t, u := ScanString(s, i), ScanString(s, i + n);
            t.StringToken? == u.StringToken? && (u.StringToken? ==> t == StringToken(u.end, s[i] == BACKSLASH || u.escaped))
  {
  }

  /** Pieces up to a closing quote are a string token that stands for what they stand for. */
  lemma {:induction false} PiecesRead(s: bytes, i: nat, ps: seq<Piece>)
    requires AllCorrect(ps) && At(s, i, SpelledAll(ps) + [0x22])
    ensures var end := i + |SpelledAll(ps)|;
            i <= end < |s| && ScanString(s, i) == StringToken(end + 1, AnyEscape(ps)) && WellEscaped(s, i, end) && StandsFor(ps, Decode(s, i, end))
    decreases |ps|
  {
    hide *;
    var rest := SpelledAll(ps);
    AtParts(s, i, rest, [0x22]);
    AtByte(s, i + |rest|, [0x22], 0);
    var end := i + |rest|;
    if ps == [] {
      NothingSpelled();
      NoPieces(s, i);
    } else {
      var p, e := ps[0], Spelled(ps[0]);
      FirstPiece(ps);
      Behind(e, SpelledAll(ps[1..]));
      AtParts(s, i, e, SpelledAll(ps[1..]) + [0x22]);
      CorrectParts(ps);
      PiecesRead(s, i + |e|, ps[1..]);
      OnePiece(s, i, p, end);
      StandsForMore(ps, PieceText(s, i, p), Decode(s, i + |e|, end));
    }
  }

  lemma NothingSpelled()
    ensures SpelledAll([]) == [] && !AnyEscape([])
  {
  }

  lemma Behind(a: bytes, b: bytes)
    ensures a + b + [0x22] == a + (b + [0x22]) && |a + b| == |a| + |b|
  {
  }

  lemma CorrectParts(ps: seq<Piece>)
    requires AllCorrect(ps) && ps != []
    ensures Correct(ps[0]) && AllCorrect(ps[1..])
  {
  }

  /** What the piece at i decodes to. */
  function PieceText(s: bytes, i: nat, p: Piece): bytes {
    if p.Plain? then p.utf8 else if i < |s| && EscapeLength(s, i) > 0 then EscapeText(s, i) else []
  }

  lemma OnePiece(s: bytes, i: nat, p: Piece, end: nat)
    requires Correct(p) && At(s, i, Spelled(p)) && i + |Spelled(p)| <= end < |s| && WellEscaped(s, i + |Spelled(p)|, end)
    ensures |Spelled(p)| > 0 && WellEscaped(s, i, end) && IsUtf8Of(PieceText(s, i, p), RuneOf(p))
    ensures Decode(s, i, end) == PieceText(s, i, p) + Decode(s, i + |Spelled(p)|, end)
    ensures var t, u := ScanString(s, i), ScanString(s, i + |Spelled(p)|);
            t.StringToken? == u.StringToken? && (u.StringToken? ==> t == StringToken(u.end, !p.Plain? || u.escaped))
  {
    hide ScanString, Utf8Length, EscapeLength, EscapeText, Decode, WellEscaped, IsUtf8Of, At;
    var n := |Spelled(p)|;
    if p.Plain? {
      PlainReads(s, i, p);
      Utf8Bytes(s, i);
      AsciiOrTail(s, i, i + n, end);
      AtText(s, i, p.utf8);
    } else {
      EscapeReads(s, i, p);
      EscapeStep(s, i, end);
      DecodeEscape(s, i, end);
    }
    ScanOver(s, i, n);
  }

  lemma AtText(s: bytes, i: nat, t: bytes)
    requires At(s, i, t)
    ensures i + |t| <= |s| && s[i..i + |t|] == t
  {
  }

  // ---- Every token is made of pieces -------------------------------------------------------------------------------------

  lemma HexWeights(a: nat, b: nat, c: nat, d: nat)
    requires a < 0x10 && b < 0x10 && c < 0x10 && d < 0x10
    ensures var u := a * 0x1000 + b * 0x100 + c * 0x10 + d;
            u < 0x1_0000 && u / 0x1000 == a && u / 0x100 % 0x10 == b && u / 0x10 % 0x10 == c && u % 0x10 == d
  {
    var u := a * 0x1000 + b * 0x100 + c * 0x10 + d;
    var x, y := a * 0x100 + b * 0x10 + c, a * 0x10 + b;
    assert u / 0x10 == x && x / 0x10 == y && y / 0x10 == a;
    assert u / 0x100 == y && u / 0x1000 == a;
  }

  lemma Hex4Of(s: bytes, i: nat)
    requires Hex4(s, i) < 0x1_0000
    ensures i + 4 <= |s| && IsHex4Of(s[i..i + 4], Hex4(s, i))
  {
    HexWeights(HexDigit(s[i]), HexDigit(s[i + 1]), HexDigit(s[i + 2]), HexDigit(s[i + 3]));
    HexReads(s[i], HexDigit(s[i]));
    HexReads(s[i + 1], HexDigit(s[i + 1]));
    HexReads(s[i + 2], HexDigit(s[i + 2]));
    HexReads(s[i + 3], HexDigit(s[i + 3]));
  }

  lemma EscapePiece(s: bytes, i: nat) returns (p: Piece)
    requires i < |s| && s[i] == BACKSLASH && EscapeLength(s, i) > 0
    ensures Correct(p) && !p.Plain? && Spelled(p) == s[i..i + EscapeLength(s, i)]
  {
    hide Hex4, IsHex4Of;
    if EscapeLength(s, i) == 2 {
      p := Short(s[i + 1]);
    } else {
      p := UnicodePiece(s, i);
    }
  }

  lemma UnicodePiece(s: bytes, i: nat) returns (p: Piece)
    requires i + 1 < |s| && s[i] == 0x5C && s[i + 1] == 0x75 && UnicodeEscapeLength(s, i) > 0
    ensures Correct(p) && !p.Plain? && Spelled(p) == s[i..i + UnicodeEscapeLength(s, i)]
  {
    hide Hex4, IsHex4Of;
    var u := Hex4(s, i + 2);
    Hex4Of(s, i + 2);
    var front := [0x5C, 0x75] + s[i + 2..i + 6];
    assert front == s[i..i + 6];
    if UnicodeEscapeLength(s, i) == 6 {
      p := Unicode(u, s[i + 2..i + 6]);
    } else {
      var lo := Hex4(s, i + 8);
      Hex4Of(s, i + 8);
      PairOf(u, lo);
      p := Paired((u - 0xD800) * 0x400 + (lo - 0xDC00) + 0x1_0000, s[i + 2..i + 6], s[i + 8..i + 12]);
      assert s[i..i + 12] == s[i..i + 6] + [0x5C, 0x75] + s[i + 8..i + 12];
    }
  }

  lemma PairOf(hi: nat, lo: nat)
    requires 0xD800 <= hi <= 0xDBFF && 0xDC00 <= lo <= 0xDFFF
    ensures var rune := (hi - 0xD800) * 0x400 + (lo - 0xDC00) + 0x1_0000;
            0x1_0000 <= rune < 0x11_0000 && hi == 0xD800 + (rune - 0x1_0000) / 0x400 && lo == 0xDC00 + (rune - 0x1_0000) % 0x400
  {
  }

  /** A sequence that the UTF-8 check passes is the encoding of a code point that is no surrogate. */
  lemma PlainPiece(s: bytes, i: nat) returns (p: Piece)
    requires i < |s| && s[i] >= 0x20 && s[i] != QUOTE && s[i] != BACKSLASH && Utf8Length(s, i) > 0
    ensures Correct(p) && p.Plain? && Spelled(p) == s[i..i + Utf8Length(s, i)]
  {
    var n := Utf8Length(s, i);
    var e := s[i..i + n];
    var r: nat;
    if n == 1 {
      r := e[0];
    } else if n == 2 {
      r := Bits(e[0], 0xC0) * 0x40 + Bits(e[1], 0x80);
    } else if n == 3 {
      r := Bits(e[0], 0xE0) * 0x1000 + Bits(e[1], 0x80) * 0x40 + Bits(e[2], 0x80);
    } else {
      r := Bits(e[0], 0xF0) * 0x4_0000 + Bits(e[1], 0x80) * 0x1000 + Bits(e[2], 0x80) * 0x40 + Bits(e[3], 0x80);
    }
    p := Plain(r, e);
  }

  /** The pieces of a string token. */
  lemma {:induction false} PiecesOf(s: bytes, i: nat) returns (ps: seq<Piece>)
    requires i <= |s| && ScanString(s, i).StringToken?
    ensures AllCorrect(ps) && i < ScanString(s, i).end <= |s| && SpelledAll(ps) + [0x22] == s[i..ScanString(s, i).end]
    decreases |s| - i
  {
    hide ScanString, EscapeLength, Utf8Length, Correct, Spelled;
    var end := ScanString(s, i).end;
    if s[i] == QUOTE {
      QuoteEnds(s, i);
      ps := [];
    } else {
      StringStep(s, i);
      var p, n := Short(0x22), if s[i] == BACKSLASH then EscapeLength(s, i) else Utf8Length(s, i);
      if s[i] == BACKSLASH {
        p := EscapePiece(s, i);
      } else {
        p := PlainPiece(s, i);
      }
      var rest := PiecesOf(s, i + n);
      ps := [p] + rest;
      assert ps[1..] == rest;
      Behind(Spelled(p), SpelledAll(rest));
      assert s[i..end] == s[i..i + n] + s[i + n..end];
    }
  }

  /** s is one whole string token. */
  predicate IsString(s: bytes) {
    s != [] && s[0] == 0x22 && ScanString(s, 1).StringToken? && ScanString(s, 1).end == |s|
  }

  /** A quoted sequence of correct pieces is a string token that stands for the text of its pieces. */
  lemma StringReads(ps: seq<Piece>)
    requires AllCorrect(ps)
    ensures var s := [0x22] + SpelledAll(ps) + [0x22];
            IsString(s) && WellEscaped(s, 1, |s| - 1) && StandsFor(ps, TokenText(s, 0, |s|))
  {
    hide AllCorrect, SpelledAll, StandsFor, ScanString, WellEscaped, Decode;
    var s, body := [0x22] + SpelledAll(ps) + [0x22], SpelledAll(ps) + [0x22];
    assert s[1..1 + |body|] == body;
    PiecesRead(s, 1, ps);
  }

  /** The string tokens are exactly the quoted sequences of correct pieces. */
  lemma StringTokens(s: bytes)
    ensures IsString(s) <==> exists ps :: AllCorrect(ps) && s == [0x22] + SpelledAll(ps) + [0x22]
  {
    hide AllCorrect, SpelledAll, ScanString;
    if IsString(s) {
      var ps := PiecesOf(s, 1);
      assert s == [s[0]] + s[1..|s|];
      assert [0x22] + (SpelledAll(ps) + [0x22]) == [0x22] + SpelledAll(ps) + [0x22];
    }
    if ps :| AllCorrect(ps) && s == [0x22] + SpelledAll(ps) + [0x22] {
      hide IsString;
      StringReads(ps);
    }
  }
}
