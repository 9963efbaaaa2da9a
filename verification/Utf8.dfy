/**
 The text of every string token is valid UTF-8, escapes included: the grammar admits no lone surrogate and
 no malformed sequence.
 */
module Utf8 {
  import opened Json
  import opened Strings
  import opened Quoting

  lemma LengthInFront(a: bytes, b: bytes, i: nat)
    requires i < |a| && Utf8Length(a, i) > 0
    ensures Utf8Length(a + b, i) == Utf8Length(a, i)
  {
  }

  lemma LengthBehind(a: bytes, b: bytes, j: nat)
    requires j < |b|
    ensures Utf8Length(a + b, |a| + j) == Utf8Length(b, j)
  {
  }

  lemma {:induction false} ValidBehind(a: bytes, b: bytes, j: nat)
    requires j <= |b| && ValidUtf8(b, j)
    ensures ValidUtf8(a + b, |a| + j)
    decreases |b| - j
  {
    hide Utf8Length;
    if j < |b| {
      LengthBehind(a, b, j);
      ValidBehind(a, b, j + Utf8Length(b, j));
    }
  }

  /** Valid texts in a row are valid. */
  lemma {:induction false} ValidAppend(a: bytes, b: bytes, i: nat)
    requires i <= |a| && ValidUtf8(a, i) && ValidUtf8(b, 0)
    ensures ValidUtf8(a + b, i)
    decreases |a| - i
  {
    hide Utf8Length;
    if i == |a| {
      ValidBehind(a, b, 0);
    } else {
      LengthInFront(a, b, i);
      ValidAppend(a, b, i + Utf8Length(a, i));
    }
  }

  /** The leading bytes of a three-byte encoding, away from surrogates. */
  lemma ThreeLead(r: nat)
    requires 0x800 <= r < 0x1_0000 && !(0xD800 <= r < 0xE000)
    ensures var a, b := r / 0x1000, r / 0x40 % 0x40;
            a < 0x10 && b < 0x40 && (a == 0 ==> b >= 0x20) && (a == 0x0D ==> b < 0x20)
  {
    var q := r / 0x40;
    assert q / 0x40 == r / 0x1000;
  }

  /** The leading bytes of a four-byte encoding, up to U+10FFFF. */
  lemma FourLead(r: nat)
    requires 0x1_0000 <= r < 0x11_0000
    ensures var a, b := r / 0x4_0000, r / 0x1000 % 0x40;
            a <= 4 && b < 0x40 && (a == 0 ==> b >= 0x10) && (a == 4 ==> b < 0x10)
  {
    var q := r / 0x1000;
    assert q / 0x40 == r / 0x4_0000;
  }

  lemma OneSequence(e: bytes)
    requires e != [] && Utf8Length(e, 0) == |e|
    ensures ValidUtf8(e, 0)
  {
    assert ValidUtf8(e, |e|);
  }

  /** Every code point but a surrogate encodes to one valid sequence. */
  lemma RuneValid(r: nat)
    requires r < 0x11_0000 && !(0xD800 <= r < 0xE000)
    ensures ValidUtf8(EncodeRune(r), 0)
  {
    hide ValidUtf8;
    if r < 0x80 {
      OneSequence([r]);
    } else if r < 0x800 {
      OneSequence([0xC0 + r / 0x40, 0x80 + r % 0x40]);
    } else if r < 0x1_0000 {
      ThreeLead(r);
      ThreeValid(r / 0x1000, r / 0x40 % 0x40, r % 0x40);
    } else {
      FourLead(r);
      FourValid(r / 0x4_0000, r / 0x1000 % 0x40, r / 0x40 % 0x40, r % 0x40);
    }
  }

  lemma ThreeValid(a: nat, b: nat, c: nat)
    requires a < 0x10 && b < 0x40 && c < 0x40 && (a == 0 ==> b >= 0x20) && (a == 0x0D ==> b < 0x20)
    ensures ValidUtf8([0xE0 + a, 0x80 + b, 0x80 + c], 0)
  {
    OneSequence([0xE0 + a, 0x80 + b, 0x80 + c]);
  }

  lemma FourValid(a: nat, b: nat, c: nat, d: nat)
    requires a <= 4 && b < 0x40 && c < 0x40 && d < 0x40 && (a == 0 ==> b >= 0x10) && (a == 4 ==> b < 0x10)
    ensures ValidUtf8([0xF0 + a, 0x80 + b, 0x80 + c, 0x80 + d], 0)
  {
    OneSequence([0xF0 + a, 0x80 + b, 0x80 + c, 0x80 + d]);
  }

  lemma EscapeValid(s: bytes, i: nat)
    requires i < |s| && EscapeLength(s, i) > 0
    ensures ValidUtf8(EscapeText(s, i), 0)
  {
    if s[i + 1] != LOWER_U {
      var t := EscapeText(s, i);
      assert Utf8Length(t, 0) == 1 && ValidUtf8(t, 1);
    } else {
      hide EncodeRune, ValidUtf8, HexDigit;
      var u := Hex4(s, i + 2);
      if 0xD800 <= u <= 0xDBFF {
        RuneValid(DecodeSurrogates(u, Hex4(s, i + 8)));
      } else {
        RuneValid(u);
      }
    }
  }

  lemma SequenceValid(s: bytes, i: nat)
    requires i < |s| && Utf8Length(s, i) > 0
    ensures ValidUtf8(s[i..i + Utf8Length(s, i)], 0)
  {
    var n := Utf8Length(s, i);
    var t := s[i..i + n];
    assert Utf8Length(t, 0) == n;
    assert ValidUtf8(t, n);
  }

  /** What a string token denotes is valid UTF-8. */
  lemma {:induction false} TokenUtf8(s: bytes, i: nat)
    requires i <= |s| && ScanString(s, i).StringToken?
    ensures WellEscaped(s, i, ScanString(s, i).end - 1) && ValidUtf8(Decode(s, i, ScanString(s, i).end - 1), 0)
    decreases |s| - i
  {
    hide ScanString, Utf8Length, EscapeLength, EscapeText, Decode, WellEscaped, ValidUtf8;
    TokenInterior(s, i);
    var end := ScanString(s, i).end - 1;
    if s[i] == QUOTE {
      QuoteEnds(s, i);
    } else {
      StringStep(s, i);
      var n := if s[i] == BACKSLASH then EscapeLength(s, i) else Utf8Length(s, i);
      TokenUtf8(s, i + n);
      if s[i] == BACKSLASH {
        EscapeValid(s, i);
        DecodeEscape(s, i, end);
        ValidAppend(EscapeText(s, i), Decode(s, i + n, end), 0);
      } else {
        Utf8Bytes(s, i);
        SequenceValid(s, i);
        AsciiOrTail(s, i, i + n, end);
        ValidAppend(s[i..i + n], Decode(s, i + n, end), 0);
      }
    }
  }

  lemma QuoteEnds(s: bytes, i: nat)
    requires i < |s| && s[i] == QUOTE
    ensures ScanString(s, i).end == i + 1 && Decode(s, i, i) == [] && ValidUtf8([], 0)
  {
  }

  lemma StringStep(s: bytes, i: nat)
    requires i < |s| && ScanString(s, i).StringToken? && s[i] != QUOTE
    ensures var n := if s[i] == BACKSLASH then EscapeLength(s, i) else Utf8Length(s, i);
            n > 0 && ScanString(s, i + n).StringToken? && ScanString(s, i + n).end == ScanString(s, i).end
    ensures s[i] != BACKSLASH ==> s[i] >= 0x20
    ensures var n := if s[i] == BACKSLASH then EscapeLength(s, i) else Utf8Length(s, i); i + n <= ScanString(s, i).end - 1
  {
  }

  lemma DecodeEscape(s: bytes, i: nat, end: nat)
    requires i < end <= |s| && s[i] == BACKSLASH && WellEscaped(s, i, end)
    ensures EscapeLength(s, i) > 0 && WellEscaped(s, i + EscapeLength(s, i), end)
    ensures Decode(s, i, end) == EscapeText(s, i) + Decode(s, i + EscapeLength(s, i), end)
  {
  }
}
