/**
 Writing text as a JSON string: what is escaped, and that the grammar accepts the result and decodes it
 back to the text, invalid UTF-8 bytes replaced by U+FFFD.
 */
module Quoting {
  import opened Json
  import opened Strings

  /** The Encoder also escapes the characters special in HTML, and writes the replacement rune literally. */
  datatype Style = Style(html: bool, literalReplacement: bool)

  const REPLACEMENT: bytes := [0xEF, 0xBF, 0xBD]

  function HexChar(v: nat): (c: byte)
    requires v < 16
    ensures HexDigit(c) == v && c != BACKSLASH && c != QUOTE
  {
    if v < 10 then DIGIT0 + v else 0x61 + v - 10
  }

  predicate PlainAscii(style: Style, c: byte) {
    0x20 <= c < 0x80 && c != QUOTE && c != BACKSLASH && !(style.html && (c == 0x3C || c == 0x3E || c == 0x26))
  }

  /** The escape of one ASCII byte that is not written as it is. */
  function EscapeAscii(c: byte): bytes
    requires c < 0x80
  {
    if c == QUOTE || c == BACKSLASH then [BACKSLASH, c]
    else if c == 0x08 then [BACKSLASH, 0x62]
    else if c == 0x0C then [BACKSLASH, 0x66]
    else if c == LF then [BACKSLASH, 0x6E]
    else if c == CR then [BACKSLASH, 0x72]
    else if c == TAB then [BACKSLASH, 0x74]
    else [BACKSLASH, LOWER_U, DIGIT0, DIGIT0, HexChar(c / 16), HexChar(c % 16)]
  }

  /** U+2028 or U+2029 at i. */
  predicate LineSeparator(s: bytes, i: nat) {
    i + 3 <= |s| && s[i] == 0xE2 && s[i + 1] == 0x80 && (s[i + 2] == 0xA8 || s[i + 2] == 0xA9)
  }

  /** How many bytes of text the next unit is. */
  function UnitLength(s: bytes, i: nat): (n: nat)
    requires i < |s|
    ensures n > 0 && i + n <= |s|
  {
    if s[i] >= 0x80 && Utf8Length(s, i) > 0 then Utf8Length(s, i) else 1
  }

  /** What is written for the unit at i. */
  function UnitText(style: Style, s: bytes, i: nat): bytes
    requires i < |s|
  {
    if s[i] < 0x80 then if PlainAscii(style, s[i]) then [s[i]] else EscapeAscii(s[i])
    else if Utf8Length(s, i) == 0 then if style.literalReplacement then REPLACEMENT else [BACKSLASH, LOWER_U, 0x66, 0x66, 0x66, 0x64]
    else if LineSeparator(s, i) then [BACKSLASH, LOWER_U, 0x32, DIGIT0, 0x32, HexChar(s[i + 2] - 0xA0)]
    else s[i..i + Utf8Length(s, i)]
  }

  /** What the unit at i stands for. */
  function UnitMeaning(s: bytes, i: nat): bytes
    requires i < |s|
  {
    if s[i] >= 0x80 && Utf8Length(s, i) == 0 then REPLACEMENT else s[i..i + UnitLength(s, i)]
  }

  function Escaped(style: Style, s: bytes, i: nat): bytes
    requires i <= |s|
    decreases |s| - i
  {
    if i == |s| then [] else UnitText(style, s, i) + Escaped(style, s, i + UnitLength(s, i))
  }

  /** The text with every byte that is not valid UTF-8 replaced. */
  function Repaired(s: bytes, i: nat): bytes
    requires i <= |s|
    decreases |s| - i
  {
    if i == |s| then [] else UnitMeaning(s, i) + Repaired(s, i + UnitLength(s, i))
  }

  predicate ValidUtf8(s: bytes, i: nat)
    requires i <= |s|
    decreases |s| - i
  {
    i == |s| || (Utf8Length(s, i) > 0 && ValidUtf8(s, i + Utf8Length(s, i)))
  }

  lemma {:induction false} RepairedValid(s: bytes, i: nat)
    requires i <= |s| && ValidUtf8(s, i)
    ensures Repaired(s, i) == s[i..]
    decreases |s| - i
  {
    if i < |s| {
      var n := Utf8Length(s, i);
      RepairedValid(s, i + n);
      assert s[i..] == s[i..i + n] + s[i + n..];
    }
  }

  function Quoted(style: Style, s: bytes): bytes {
    [QUOTE] + Escaped(style, s, 0) + [QUOTE]
  }

  /**
   Unit by unit what is written: two-byte escapes for seven characters, lower-case four-digit ones for the other
   control characters, for U+2028 and U+2029 and in the HTML style for < > &, everything else as it is.
   */
  lemma WrittenToTheLetter(style: Style, s: bytes, i: nat)
    requires i < |s|
    ensures var c, u := s[i], UnitText(style, s, i);
            if c == 0x22 || c == 0x5C then u == [0x5C, c]
            else if c == 0x08 then u == [0x5C, 0x62]
            else if c == 0x0C then u == [0x5C, 0x66]
            else if c == 0x0A then u == [0x5C, 0x6E]
            else if c == 0x0D then u == [0x5C, 0x72]
            else if c == 0x09 then u == [0x5C, 0x74]
            else if c < 0x20 then u == [0x5C, 0x75, 0x30, 0x30, 0x30 + c / 0x10, if c % 0x10 < 10 then 0x30 + c % 0x10 else 0x57 + c % 0x10]
            else if style.html && c == 0x3C then u == [0x5C, 0x75, 0x30, 0x30, 0x33, 0x63]
            else if style.html && c == 0x3E then u == [0x5C, 0x75, 0x30, 0x30, 0x33, 0x65]
            else if style.html && c == 0x26 then u == [0x5C, 0x75, 0x30, 0x30, 0x32, 0x36]
            else if c < 0x80 then u == [c]
            else if Utf8Length(s, i) == 0 then u == if style.literalReplacement then [0xEF, 0xBF, 0xBD] else [0x5C, 0x75, 0x66, 0x66, 0x66, 0x64]
            else if s[i..i + Utf8Length(s, i)] == [0xE2, 0x80, 0xA8] then u == [0x5C, 0x75, 0x32, 0x30, 0x32, 0x38]
            else if s[i..i + Utf8Length(s, i)] == [0xE2, 0x80, 0xA9] then u == [0x5C, 0x75, 0x32, 0x30, 0x32, 0x39]
            else u == s[i..i + Utf8Length(s, i)]
  {
    if s[i] >= 0x80 && Utf8Length(s, i) > 0 {
      var e := s[i..i + Utf8Length(s, i)];
      assert forall k | 0 <= k < |e| :: e[k] == s[i + k];
      assert LineSeparator(s, i) <==> e == [0xE2, 0x80, 0xA8] || e == [0xE2, 0x80, 0xA9];
    }
  }

  predicate HtmlSafe(b: bytes) {
    0x3C !in b && 0x3E !in b && 0x26 !in b
  }

  lemma {:induction false} EscapedSafe(style: Style, s: bytes, i: nat)
    requires i <= |s| && style.html
    ensures HtmlSafe(Escaped(style, s, i))
    decreases |s| - i
  {
    if i < |s| {
      UnitSafe(style, s, i);
      EscapedSafe(style, s, i + UnitLength(s, i));
    }
  }

  lemma UnitSafe(style: Style, s: bytes, i: nat)
    requires i < |s| && style.html
    ensures HtmlSafe(UnitText(style, s, i))
  {
    WrittenToTheLetter(style, s, i);
    if s[i] >= 0x80 {
      HighBytes(s, i);
    }
  }

  lemma HighBytes(s: bytes, i: nat)
    requires i < |s| && s[i] >= 0x80
    ensures forall k | i <= k < i + Utf8Length(s, i) :: s[k] >= 0x80
  {
  }

  /** In the HTML style no text brings a bracket or ampersand into the output. */
  lemma QuotedSafe(style: Style, s: bytes)
    requires style.html
    ensures HtmlSafe(Quoted(style, s))
  {
    EscapedSafe(style, s, 0);
  }

  // ---- The loop -----------------------------------------------------------------------------------------

  predicate WrittenRaw(style: Style, s: bytes, i: nat)
    requires i < |s|
  {
    PlainAscii(style, s[i]) || (s[i] >= 0x80 && Utf8Length(s, i) > 0 && !LineSeparator(s, i))
  }

  /** A unit written raw only lengthens the run. */
  lemma RawUnit(style: Style, out: bytes, s: bytes, start: nat, i: nat)
    requires start <= i < |s| && WrittenRaw(style, s, i)
    ensures out + s[start..i] + Escaped(style, s, i) == out + s[start..i + UnitLength(s, i)] + Escaped(style, s, i + UnitLength(s, i))
  {
    var n := UnitLength(s, i);
    assert UnitText(style, s, i) == s[i..i + n];
    assert s[start..i + n] == s[start..i] + s[i..i + n];
    RunOn(out, s[start..i], s[i..i + n], Escaped(style, s, i + n));
  }

  lemma RunOn(a: bytes, b: bytes, c: bytes, d: bytes)
    ensures a + b + (c + d) == a + (b + c) + d
  {
  }

  /** Any other unit ends the run. */
  lemma EscapedUnit(style: Style, out: bytes, s: bytes, start: nat, i: nat)
    requires start <= i < |s|
    ensures out + s[start..i] + Escaped(style, s, i) == out + s[start..i] + UnitText(style, s, i) + [] + Escaped(style, s, i + UnitLength(s, i))
  {
    Regroup(out + s[start..i], UnitText(style, s, i), Escaped(style, s, i + UnitLength(s, i)));
  }

  lemma EscapedEnds(style: Style, s: bytes)
    ensures Escaped(style, s, |s|) == []
  {
  }

  /** Writes the text in runs of bytes that need no escape. */
  method AppendJSONString(dst: bytes, text: bytes, style: Style) returns (out: bytes)
    ensures out == dst + Quoted(style, text)
  {
    hide Escaped, UnitText, WrittenRaw;
    out := dst + [QUOTE];
    ghost var goal := out + [] + Escaped(style, text, 0);
    var start, i := 0, 0;
    while i < |text|
      invariant 0 <= start <= i <= |text|
      invariant goal == out + text[start..i] + Escaped(style, text, i)
    {
      if WrittenRaw(style, text, i) {
        RawUnit(style, out, text, start, i);
        i := i + UnitLength(text, i);
      } else {
        EscapedUnit(style, out, text, start, i);
        out := out + text[start..i] + UnitText(style, text, i);
        i := i + UnitLength(text, i);
        start := i;
        assert text[start..i] == [];
      }
    }
    EscapedEnds(style, text);
    assert text[start..|text|] == text[start..];
    assert goal == out + text[start..] + [] == out + text[start..];
    out := out + text[start..] + [QUOTE];
    assert goal == dst + [QUOTE] + Escaped(style, text, 0);
    assert dst + ([QUOTE] + Escaped(style, text, 0) + [QUOTE]) == dst + [QUOTE] + Escaped(style, text, 0) + [QUOTE];
  }

  lemma Regroup<T>(a: seq<T>, b: seq<T>, c: seq<T>)
    ensures a + (b + c) == a + b + c
  {
  }

  // ---- Round trip -------------------------------------------------------------------------------------------

  /** t lies in s at position p. */
  predicate At(s: bytes, p: nat, t: bytes) {
    p + |t| <= |s| && s[p..p + |t|] == t
  }

  lemma AtParts(s: bytes, p: nat, t: bytes, u: bytes)
    requires At(s, p, t + u)
    ensures At(s, p, t) && At(s, p + |t|, u)
  {
    assert s[p..p + |t|] == s[p..p + |t + u|][..|t|];
    assert s[p + |t|..p + |t| + |u|] == s[p..p + |t + u|][|t|..];
  }

  lemma AtByte(s: bytes, p: nat, t: bytes, k: nat)
    requires At(s, p, t) && k < |t|
    ensures p + k < |s| && s[p + k] == t[k]
  {
    assert s[p..p + |t|][k] == t[k];
  }

  /** A unit as the grammar reads it: one step of the string scanner, and the text it decodes to. */
  ghost predicate UnitReads(s: bytes, p: nat, n: nat, meaning: bytes) {
    p + n <= |s| && n > 0 &&
    (ScanString(s, p + n).StringToken? ==> ScanString(s, p).StringToken? && ScanString(s, p).end == ScanString(s, p + n).end) &&
    forall end | p + n <= end <= |s| && WellEscaped(s, p + n, end) :: WellEscaped(s, p, end) && Decode(s, p, end) == meaning + Decode(s, p + n, end)
  }

  lemma EscapeReads(s: bytes, p: nat)
    requires p < |s| && s[p] == BACKSLASH && EscapeLength(s, p) > 0
    ensures UnitReads(s, p, EscapeLength(s, p), EscapeText(s, p))
  {
    hide EscapeLength, EscapeText;
  }

  /** Bytes of one UTF-8 sequence that is neither a quote, a backslash nor a control byte. */
  lemma RawReads(s: bytes, p: nat)
    requires p < |s| && s[p] >= 0x20 && s[p] != QUOTE && s[p] != BACKSLASH && Utf8Length(s, p) > 0
    ensures UnitReads(s, p, Utf8Length(s, p), s[p..p + Utf8Length(s, p)])
  {
    Utf8Bytes(s, p);
    hide Utf8Length;
    var n := Utf8Length(s, p);
    forall end | p + n <= end <= |s| && WellEscaped(s, p + n, end)
      ensures WellEscaped(s, p, end) && Decode(s, p, end) == s[p..p + n] + Decode(s, p + n, end)
    {
      AsciiOrTail(s, p, p + n, end);
    }
  }

  lemma SameUtf8(s: bytes, p: nat, text: bytes, i: nat)
    requires i < |text| && Utf8Length(text, i) > 0 && At(s, p, text[i..i + Utf8Length(text, i)])
    ensures p < |s| && Utf8Length(s, p) == Utf8Length(text, i) && s[p..p + Utf8Length(s, p)] == text[i..i + Utf8Length(s, p)]
  {
    var n := Utf8Length(text, i);
    var t := text[i..i + n];
    AtByte(s, p, t, 0);
    if n > 1 {
      AtByte(s, p, t, 1);
    }
    if n > 2 {
      AtByte(s, p, t, 2);
    }
    if n > 3 {
      AtByte(s, p, t, 3);
    }
  }

  lemma AsciiEscapeReads(s: bytes, p: nat, c: byte)
    requires c < 0x80 && At(s, p, EscapeAscii(c))
    ensures UnitReads(s, p, |EscapeAscii(c)|, [c])
  {
    var t := EscapeAscii(c);
    AtByte(s, p, t, 0);
    AtByte(s, p, t, 1);
    if |t| == 6 {
      AtByte(s, p, t, 2);
      AtByte(s, p, t, 3);
      AtByte(s, p, t, 4);
      AtByte(s, p, t, 5);
      assert Hex4(s, p + 2) == c / 16 * 16 + c % 16 == c;
    }
    assert EscapeLength(s, p) == |t| && EscapeText(s, p) == [c];
    EscapeReads(s, p);
  }

  lemma FourDigitEscapeReads(s: bytes, p: nat, t: bytes, u: nat)
    requires |t| == 6 && t[0] == BACKSLASH && t[1] == LOWER_U && Hex4(t, 2) == u && (0x800 <= u < 0xD800 || 0xDFFF < u < 0x1_0000) && At(s, p, t)
    ensures UnitReads(s, p, 6, EncodeRune(u))
  {
    AtByte(s, p, t, 0);
    AtByte(s, p, t, 1);
    AtByte(s, p, t, 2);
    AtByte(s, p, t, 3);
    AtByte(s, p, t, 4);
    AtByte(s, p, t, 5);
    assert Hex4(s, p + 2) == u;
    EscapeReads(s, p);
  }

  lemma SeparatorReads(s: bytes, p: nat, low: byte)
    requires low == 0xA8 || low == 0xA9
    requires At(s, p, [BACKSLASH, LOWER_U, 0x32, DIGIT0, 0x32, HexChar(low - 0xA0)])
    ensures UnitReads(s, p, 6, [0xE2, 0x80, low])
  {
    var t := [BACKSLASH, LOWER_U, 0x32, DIGIT0, 0x32, HexChar(low - 0xA0)];
    var u: nat := 0x2028 + (low - 0xA8) as nat;
    assert Hex4(t, 2) == u;
    FourDigitEscapeReads(s, p, t, u);
    assert EncodeRune(u) == [0xE2, 0x80, low];
  }

  lemma ReplacementReads(style: Style, s: bytes, p: nat)
    requires At(s, p, if style.literalReplacement then REPLACEMENT else [BACKSLASH, LOWER_U, 0x66, 0x66, 0x66, 0x64])
    ensures UnitReads(s, p, if style.literalReplacement then 3 else 6, REPLACEMENT)
  {
    if style.literalReplacement {
      AtByte(s, p, REPLACEMENT, 0);
      AtByte(s, p, REPLACEMENT, 1);
      AtByte(s, p, REPLACEMENT, 2);
      RawReads(s, p);
    } else {
      var t := [BACKSLASH, LOWER_U, 0x66, 0x66, 0x66, 0x64];
      FourDigitEscapeReads(s, p, t, 0xFFFD);
      assert EncodeRune(0xFFFD) == REPLACEMENT;
    }
  }

  lemma UnitRead(style: Style, text: bytes, i: nat, s: bytes, p: nat)
    requires i < |text| && At(s, p, UnitText(style, text, i))
    ensures UnitReads(s, p, |UnitText(style, text, i)|, UnitMeaning(text, i))
  {
    hide UnitReads, EscapeAscii, At;
    var t, c := UnitText(style, text, i), text[i];
    if c < 0x80 {
      assert text[i..i + 1] == [c];
      if PlainAscii(style, c) {
        AtByte(s, p, t, 0);
        RawReads(s, p);
        assert s[p..p + 1] == [c];
      } else {
        AsciiEscapeReads(s, p, c);
      }
    } else {
      hide Utf8Length;
      if Utf8Length(text, i) == 0 {
        ReplacementReads(style, s, p);
      } else if LineSeparator(text, i) {
        SeparatorLength(text, i);
        SeparatorReads(s, p, text[i + 2]);
      } else {
        AtByte(s, p, t, 0);
        SameUtf8(s, p, text, i);
        RawReads(s, p);
      }
    }
  }

  lemma SeparatorLength(text: bytes, i: nat)
    requires LineSeparator(text, i)
    ensures Utf8Length(text, i) == 3 && text[i..i + 3] == [0xE2, 0x80, text[i + 2]]
  {
  }

  lemma NextUnit(style: Style, text: bytes, i: nat)
    requires i <= |text|
    ensures i == |text| ==> Escaped(style, text, i) == [] && Repaired(text, i) == []
    ensures i < |text| ==> Escaped(style, text, i) == UnitText(style, text, i) + Escaped(style, text, i + UnitLength(text, i))
    ensures i < |text| ==> Repaired(text, i) == UnitMeaning(text, i) + Repaired(text, i + UnitLength(text, i))
  {
  }

  lemma QuoteReads(s: bytes, p: nat)
    requires p < |s| && s[p] == QUOTE
    ensures ScanString(s, p) == StringToken(p + 1, false) && WellEscaped(s, p, p) && Decode(s, p, p) == []
  {
  }

  lemma UseUnit(s: bytes, p: nat, n: nat, meaning: bytes, end: nat)
    requires UnitReads(s, p, n, meaning) && p + n <= end < |s| && ScanString(s, p + n).StringToken? && WellEscaped(s, p + n, end)
    ensures ScanString(s, p).StringToken? && ScanString(s, p).end == ScanString(s, p + n).end
    ensures WellEscaped(s, p, end) && Decode(s, p, end) == meaning + Decode(s, p + n, end)
  {
  }

  /** The escaped text up to its closing quote scans as a string and decodes to the repaired text. */
  lemma {:induction false} EscapedReads(style: Style, text: bytes, i: nat, s: bytes, p: nat)
    requires i <= |text| && At(s, p, Escaped(style, text, i) + [QUOTE])
    ensures var end := p + |Escaped(style, text, i)|;
            end < |s| && ScanString(s, p).StringToken? && ScanString(s, p).end == end + 1 && WellEscaped(s, p, end) && Decode(s, p, end) == Repaired(text, i)
    decreases |text| - i
  {
    hide UnitText, UnitMeaning, WellEscaped, Decode, UnitReads, At, ScanString, Escaped, Repaired, UnitLength;
    NextUnit(style, text, i);
    var rest := Escaped(style, text, i);
    AtParts(s, p, rest, [QUOTE]);
    if i == |text| {
      AtByte(s, p, [QUOTE], 0);
      QuoteReads(s, p);
    } else {
      var t, n := UnitText(style, text, i), UnitLength(text, i);
      var tail := Escaped(style, text, i + n);
      Regroup(t, tail, [QUOTE]);
      assert t + (tail + [QUOTE]) == rest + [QUOTE];
      AtParts(s, p, t, tail + [QUOTE]);
      UnitRead(style, text, i, s, p);
      EscapedReads(style, text, i + n, s, p + |t|);
      UseUnit(s, p, |t|, UnitMeaning(text, i), p + |rest|);
    }
  }

  /** A quoted text anywhere in the input is one string token that denotes the repaired text: the text itself, if it is valid UTF-8. */
  lemma QuotedRoundTrip(style: Style, text: bytes, s: bytes, p: nat)
    requires At(s, p, Quoted(style, text))
    ensures var end := p + |Quoted(style, text)|;
            s[p] == QUOTE && ScanString(s, p + 1).StringToken? && ScanString(s, p + 1).end == end && WellEscaped(s, p + 1, end - 1) &&
            TokenText(s, p, end) == Repaired(text, 0) && (ValidUtf8(text, 0) ==> TokenText(s, p, end) == text)
  {
    hide Escaped, ScanString, WellEscaped, Decode, Repaired, ValidUtf8, At;
    var inner := Escaped(style, text, 0);
    Regroup([QUOTE], inner, [QUOTE]);
    AtParts(s, p, [QUOTE], inner + [QUOTE]);
    AtByte(s, p, [QUOTE], 0);
    EscapedReads(style, text, 0, s, p + 1);
    if ValidUtf8(text, 0) {
      RepairedValid(text, 0);
      assert text[0..] == text;
    }
  }
}
