/**
 What string tokens denote: their interiors decoded to UTF-8 bytes, and the comparison that never
 builds the decoded text.
 */
module Strings {
  import opened Json

  /** UTF-8 encoding of a code point. */
  function EncodeRune(r: nat): (e: bytes)
    requires r < 0x11_0000
    ensures 1 <= |e| <= 4
  {
    if r < 0x80 then [r]
    else if r < 0x800 then [0xC0 + r / 0x40, 0x80 + r % 0x40]
    else if r < 0x1_0000 then [0xE0 + r / 0x1000, 0x80 + r / 0x40 % 0x40, 0x80 + r % 0x40]
    else [0xF0 + r / 0x4_0000, 0x80 + r / 0x1000 % 0x40, 0x80 + r / 0x40 % 0x40, 0x80 + r % 0x40]
  }

  function DecodeSurrogates(hi: nat, lo: nat): (r: nat)
    requires 0xD800 <= hi <= 0xDBFF && 0xDC00 <= lo <= 0xDFFF
    ensures 0x1_0000 <= r < 0x11_0000
  {
    (hi - 0xD800) * 0x400 + (lo - 0xDC00) + 0x1_0000
  }

  function DecodedSimpleEscape(c: byte): byte {
    if c == 0x62 then 0x08
    else if c == 0x66 then 0x0C
    else if c == 0x6E then LF
    else if c == 0x72 then CR
    else if c == 0x74 then TAB
    else c
  }

  /** The bytes denoted by the well-formed escape at i. */
  function EscapeText(s: bytes, i: nat): bytes
    requires i < |s| && EscapeLength(s, i) > 0
  {
    if s[i + 1] != LOWER_U then [DecodedSimpleEscape(s[i + 1])]
    else
      var u := Hex4(s, i + 2);
      EncodeRune(if 0xD800 <= u <= 0xDBFF then DecodeSurrogates(u, Hex4(s, i + 8)) else u)
  }

  /** Every escape in s[i..end] is well formed and ends within it. */
  predicate WellEscaped(s: bytes, i: nat, end: nat)
    requires end <= |s|
    decreases end - i
  {
    i >= end ||
    if s[i] == BACKSLASH then
      EscapeLength(s, i) > 0 && i + EscapeLength(s, i) <= end && WellEscaped(s, i + EscapeLength(s, i), end)
    else WellEscaped(s, i + 1, end)
  }

  /** The text denoted by the string interior s[i..end]. */
  function Decode(s: bytes, i: nat, end: nat): bytes
    requires end <= |s| && WellEscaped(s, i, end)
    decreases end - i
  {
    if i >= end then []
    else if s[i] == BACKSLASH then EscapeText(s, i) + Decode(s, i + EscapeLength(s, i), end)
    else [s[i]] + Decode(s, i + 1, end)
  }

  lemma PlainStep(s: bytes, i: nat, end: nat)
    requires i < end <= |s| && s[i] != BACKSLASH && WellEscaped(s, i + 1, end)
    ensures WellEscaped(s, i, end) && Decode(s, i, end) == [s[i]] + Decode(s, i + 1, end)
  {
  }

  lemma {:induction false} AsciiOrTail(s: bytes, i: nat, j: nat, end: nat)
    requires i <= j <= end <= |s| && forall k | i <= k < j :: s[k] != BACKSLASH
    requires WellEscaped(s, j, end)
    ensures WellEscaped(s, i, end) && Decode(s, i, end) == s[i..j] + Decode(s, j, end)
    decreases j - i
  {
    hide EscapeLength, EscapeText, WellEscaped, Decode;
    if i < j {
      AsciiOrTail(s, i + 1, j, end);
      PlainStep(s, i, end);
      assert s[i..j] == [s[i]] + s[i + 1..j];
    } else {
      assert s[i..j] == [];
    }
  }

  lemma EscapeStep(s: bytes, i: nat, end: nat)
    requires i < |s| && s[i] == BACKSLASH && EscapeLength(s, i) > 0 && i + EscapeLength(s, i) <= end <= |s|
    requires WellEscaped(s, i + EscapeLength(s, i), end)
    ensures WellEscaped(s, i, end)
  {
  }

  lemma Utf8Bytes(s: bytes, i: nat)
    requires i < |s| && s[i] >= 0x20 && s[i] != BACKSLASH
    ensures forall k | i <= k < i + Utf8Length(s, i) :: s[k] >= 0x20 && s[k] != BACKSLASH
    ensures forall k | i < k < i + Utf8Length(s, i) :: s[k] >= 0x80
  {
  }

  /** A token's interior is well escaped, and an unescaped token denotes its own bytes. */
  lemma {:induction false} TokenInterior(s: bytes, i: nat)
    requires i <= |s| && ScanString(s, i).StringToken?
    ensures var t := ScanString(s, i);
            WellEscaped(s, i, t.end - 1) && (!t.escaped ==> Decode(s, i, t.end - 1) == s[i..t.end - 1])
    decreases |s| - i
  {
    hide EscapeLength, EscapeText, Utf8Length, WellEscaped, Decode;
    var t := ScanString(s, i);
    if s[i] != QUOTE {
      if s[i] == BACKSLASH {
        TokenInterior(s, i + EscapeLength(s, i));
        EscapeStep(s, i, t.end - 1);
      } else {
        var n := Utf8Length(s, i);
        Utf8Bytes(s, i);
        TokenInterior(s, i + n);
        AsciiOrTail(s, i, i + n, t.end - 1);
        assert s[i..i + n] + s[i + n..t.end - 1] == s[i..t.end - 1];
      }
    } else {
      assert s[i..t.end - 1] == [];
      NothingInside(s, i);
    }
  }

  lemma NothingInside(s: bytes, i: nat)
    requires i <= |s|
    ensures WellEscaped(s, i, i) && Decode(s, i, i) == []
  {
  }

  /** A span between quotes whose interior is well escaped; unescaped spans hold no backslash at all. */
  predicate IsToken(s: bytes, start: nat, end: nat, escaped: bool) {
    start + 2 <= end <= |s| && WellEscaped(s, start + 1, end - 1) &&
    (!escaped ==> Decode(s, start + 1, end - 1) == s[start + 1..end - 1])
  }

  function TokenText(s: bytes, start: nat, end: nat): bytes
    requires start + 2 <= end <= |s| && WellEscaped(s, start + 1, end - 1)
  {
    Decode(s, start + 1, end - 1)
  }

  /** Decodes the next byte or escape of an interior; `n` is what it consumes. */
  method DecodeNext(src: bytes, i: nat, end: nat) returns (text: bytes, n: nat)
    requires i < end <= |src| && WellEscaped(src, i, end)
    ensures 0 < n && i + n <= end && WellEscaped(src, i + n, end) && 1 <= |text| <= 4
    ensures Decode(src, i, end) == text + Decode(src, i + n, end)
  {
    if src[i] != BACKSLASH {
      return [src[i]], 1;
    }
    if src[i + 1] != LOWER_U {
      return [DecodedSimpleEscape(src[i + 1])], 2;
    }
    var u := Hex4(src, i + 2);
    if 0xD800 <= u <= 0xDBFF {
      var lo := Hex4(src, i + 8);
      return EncodeRune(DecodeSurrogates(u, lo)), 12;
    }
    return EncodeRune(u), 6;
  }

  lemma Rejoined(a: bytes, b: bytes, c: bytes)
    ensures a + (b + c) == a + b + c
  {
  }

  /** The text of an interior, decoded piece by piece. */
  method DecodeText(src: bytes, start: nat, end: nat) returns (text: bytes)
    requires end <= |src| && WellEscaped(src, start, end)
    ensures text == Decode(src, start, end)
  {
    var i: nat := start;
    text := [];
    while i < end
      invariant start <= i && WellEscaped(src, i, end) && Decode(src, start, end) == text + Decode(src, i, end)
      decreases end - i
    {
      hide WellEscaped, Decode;
      var next, n := DecodeNext(src, i, end);
      Rejoined(text, next, Decode(src, i + n, end));
      text, i := text + next, i + n;
    }
  }

  /** Compares a raw key span with a decoded query, decoding as it goes. */
  method TapeKeyEqual(src: bytes, start: nat, end: nat, escaped: bool, key: bytes) returns (equal: bool)
    requires IsToken(src, start, end, escaped)
    ensures equal == (TokenText(src, start, end) == key)
  {
    if !escaped {
      return src[start + 1..end - 1] == key;
    }
    hide EscapeLength, EscapeText;
    var last := end - 1;
    var i: nat, ki: nat := start + 1, 0;
    while i < last
      invariant start + 1 <= i <= last && ki <= |key| && WellEscaped(src, i, last)
      invariant TokenText(src, start, end) == key <==> Decode(src, i, last) == key[ki..]
    {
      var text, n := DecodeNext(src, i, last);
      StripPrefix(key, ki, text, Decode(src, i + n, last));
      if ki + |text| > |key| || key[ki..ki + |text|] != text {
        return false;
      }
      i, ki := i + n, ki + |text|;
    }
    return ki == |key|;
  }

  lemma StripPrefix(key: bytes, k: nat, text: bytes, rest: bytes)
    requires k <= |key|
    ensures text + rest == key[k..] <==>
            k + |text| <= |key| && key[k..k + |text|] == text && rest == key[k + |text|..]
  {
    if text + rest == key[k..] {
      assert key[k..k + |text|] == (text + rest)[..|text|] == text;
      assert key[k + |text|..] == (text + rest)[|text|..] == rest;
    }
  }
}
