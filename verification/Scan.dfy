/**
 The byte scanners shared by the builders, the validator and the pointer seeker, each proved equal
 to the lexical functions of the grammar. Eight-byte probes are modelled by the index they find.
 */
module Scan {
  import opened Json

  method SkipSpaceFast(src: bytes, start: nat) returns (i: nat)
    requires start <= |src|
    ensures i == SkipSpace(src, start)
  {
    i := start;
    while i < |src| && IsSpace(src[i])
      invariant i <= |src| && SkipSpace(src, i) == SkipSpace(src, start)
    {
      i := i + 1;
    }
  }

  /** The first significant byte at or after start, and 0 for it at the end of the source. */
  method NextSignificant(src: bytes, start: nat) returns (i: nat, c: byte)
    requires start <= |src|
    ensures i == SkipSpace(src, start)
    ensures c == if i < |src| then src[i] else 0
  {
    i := SkipSpaceFast(src, start);
    c := if i < |src| then src[i] else 0;
  }

  lemma SpaceRun(s: bytes, i: nat, j: nat)
    requires i <= j <= |s| && forall k | i <= k < j :: IsSpace(s[k])
    ensures SkipSpace(s, i) == SkipSpace(s, j)
    decreases j - i
  {
    if i < j {
      SpaceRun(s, i + 1, j);
    }
  }

  const EIGHT_SPACES: bytes := [SPACE, SPACE, SPACE, SPACE, SPACE, SPACE, SPACE, SPACE]

  /** Whitespace skipping that takes runs of eight spaces at a time. */
  method SkipSpaceWords(src: bytes, start: nat) returns (i: nat)
    requires start <= |src|
    ensures i == SkipSpace(src, start)
  {
    i := start;
    while i < |src|
      invariant i <= |src| && SkipSpace(src, i) == SkipSpace(src, start)
    {
      if !IsSpace(src[i]) {
        return;
      }
      i := i + 1;
      while i + 8 <= |src| && src[i..i + 8] == EIGHT_SPACES
        invariant i <= |src| && SkipSpace(src, i) == SkipSpace(src, start)
      {
        assert forall k | i <= k < i + 8 :: src[k] == src[i..i + 8][k - i];
        SpaceRun(src, i, i + 8);
        i := i + 8;
      }
    }
  }

  // ---- Numbers -----------------------------------------------------------------------------------

  lemma DigitRun(s: bytes, i: nat, j: nat)
    requires i <= j <= |s| && forall k | i <= k < j :: IsDigit(s[k])
    ensures SkipDigits(s, i) == SkipDigits(s, j)
    decreases j - i
  {
    if i < j {
      DigitRun(s, i + 1, j);
    }
  }

  /** How many of the eight bytes at i are digits before the first that is not. */
  method LeadingDigits8(src: bytes, i: nat) returns (n: nat)
    requires i + 8 <= |src|
    ensures n <= 8 && forall k | i <= k < i + n :: IsDigit(src[k])
    ensures n < 8 ==> !IsDigit(src[i + n])
  {
    n := 0;
    while n < 8 && IsDigit(src[i + n])
      invariant n <= 8 && forall k | i <= k < i + n :: IsDigit(src[k])
    {
      n := n + 1;
    }
  }

  method ScanDigitsLong(src: bytes, start: nat) returns (i: nat)
    requires start <= |src|
    ensures i == SkipDigits(src, start)
  {
    i := start;
    while i + 8 <= |src|
      invariant i <= |src| && SkipDigits(src, i) == SkipDigits(src, start)
    {
      var n := LeadingDigits8(src, i);
      DigitRun(src, i, i + n);
      if n < 8 {
        return i + n;
      }
      i := i + 8;
    }
    while i < |src| && IsDigit(src[i])
      invariant i <= |src| && SkipDigits(src, i) == SkipDigits(src, start)
    {
      i := i + 1;
    }
  }

  method ScanDigitsShort(src: bytes, start: nat) returns (i: nat)
    requires start <= |src|
    ensures i == SkipDigits(src, start)
  {
    i := start;
    while i < |src| && IsDigit(src[i])
      invariant i <= |src| && SkipDigits(src, i) == SkipDigits(src, start)
    {
      i := i + 1;
    }
  }

  method ScanExponentTail(src: bytes, start: nat, plain: bool) returns (end: nat, integer: bool, ok: bool)
    requires start <= |src|
    ensures ScanExponent(src, start, plain) == if ok then NumberToken(end, integer) else BadNumber
  {
    var i := start;
    integer := plain;
    if i < |src| && (src[i] == 0x65 || src[i] == 0x45) {
      integer := false;
      i := i + 1;
      if i < |src| && (src[i] == PLUS || src[i] == MINUS) {
        i := i + 1;
      }
      if i >= |src| || !IsDigit(src[i]) {
        return i, false, false;
      }
      i := ScanDigitsShort(src, i + 1);
    }
    return i, integer, true;
  }

  method ScanFractionTail(src: bytes, start: nat) returns (end: nat, integer: bool, ok: bool)
    requires start <= |src|
    ensures ScanFraction(src, start) == if ok then NumberToken(end, integer) else BadNumber
  {
    var i := start;
    integer := true;
    if i < |src| && src[i] == DOT {
      integer := false;
      i := i + 1;
      if i >= |src| || !IsDigit(src[i]) {
        return i, false, false;
      }
      if i + 8 <= |src| && IsDigit(src[i + 7]) {
        i := ScanDigitsLong(src, i);
      } else {
        i := ScanDigitsShort(src, i + 1);
      }
    }
    end, integer, ok := ScanExponentTail(src, i, integer);
  }

  /** The number scanner of the tape builders, which also classifies plain integers. */
  method ScanNumberFastTagged(src: bytes, start: nat) returns (end: nat, integer: bool, ok: bool)
    requires start < |src|
    ensures ScanNumber(src, start) == if ok then NumberToken(end, integer) else BadNumber
  {
    var i := start;
    if src[i] == MINUS {
      i := i + 1;
      if i >= |src| {
        return i, false, false;
      }
    }
    if src[i] == DIGIT0 {
      i := i + 1;
    } else if IsDigit(src[i]) {
      i := ScanDigitsShort(src, i + 1);
    } else {
      return i, false, false;
    }
    end, integer, ok := ScanFractionTail(src, i);
  }

  // ---- Strings -----------------------------------------------------------------------------------

  /** A token found after `escaped` has already been established. */
  function Mark(t: StringToken, escaped: bool): StringToken {
    if t.BadString? then BadString else StringToken(t.end, t.escaped || escaped)
  }

  lemma CleanRun(s: bytes, i: nat, j: nat)
    requires i <= j <= |s| && forall k | i <= k < j :: !IsStringSpecial(s[k])
    ensures ScanString(s, i) == ScanString(s, j)
    decreases j - i
  {
    if i < j {
      CleanRun(s, i + 1, j);
    }
  }

  /** The first byte at or after i that ends a clean run, or the end of the source. */
  method FindStringSpecial(src: bytes, i: nat) returns (j: nat)
    requires i <= |src|
    ensures i <= j <= |src| && (j < |src| ==> IsStringSpecial(src[j]))
    ensures forall k | i <= k < j :: !IsStringSpecial(src[k])
    ensures ScanString(src, i) == ScanString(src, j)
  {
    j := i;
    while j < |src| && !IsStringSpecial(src[j])
      invariant i <= j <= |src| && forall k | i <= k < j :: !IsStringSpecial(src[k])
    {
      j := j + 1;
    }
    CleanRun(src, i, j);
  }

  /** The first special byte among the eight at i, or i + 8. */
  method FindSpecialIn8(src: bytes, i: nat) returns (j: nat)
    requires i + 8 <= |src|
    ensures i <= j <= i + 8 && (j < i + 8 ==> IsStringSpecial(src[j]))
    ensures ScanString(src, i) == ScanString(src, j)
  {
    j := i;
    while j < i + 8 && !IsStringSpecial(src[j])
      invariant i <= j <= i + 8 && forall k | i <= k < j :: !IsStringSpecial(src[k])
    {
      j := j + 1;
    }
    CleanRun(src, i, j);
  }

  /** Cutting the source where no continuation byte stands cuts no UTF-8 sequence. */
  lemma Utf8Cut(s: bytes, i: nat, end: nat)
    requires i < end <= |s| && (end < |s| ==> s[end] < 0x80)
    ensures Utf8Length(s[..end], i) == Utf8Length(s, i)
  {
  }

  /**
   Validates the non-ASCII run at i: one sequence near the end of the source, otherwise everything
   up to the next quote, backslash or control byte. `bad` is the offset of an invalid sequence.
   */
  method ScanStringUnicodeRun(src: bytes, i: nat) returns (next: nat, bad: Option<nat>)
    requires i < |src| && src[i] >= 0x80
    ensures bad.None? ==> i < next <= |src| && ScanString(src, i) == ScanString(src, next)
    ensures bad.None? ==> forall k | i <= k < next :: src[k] != BACKSLASH
    ensures bad.Some? ==> ScanString(src, i).BadString?
  {
    if |src| - i < 32 {
      var n := Utf8Length(src, i);
      if n == 0 {
        return i, Some(i);
      }
      return i + n, None;
    }
    next := i;
    while next < |src| && src[next] != QUOTE && src[next] != BACKSLASH && src[next] >= 0x20
      invariant i <= next <= |src| && (next > i || (next < |src| && src[next] >= 0x80))
      invariant forall k | i <= k < next :: src[k] != QUOTE && src[k] != BACKSLASH && src[k] >= 0x20
    {
      next := next + 1;
    }
    var k := i;
    while k < next
      invariant i <= k <= next && ScanString(src, i) == ScanString(src, k)
    {
      var n := Utf8Length(src[..next], k);
      Utf8Cut(src, k, next);
      if n == 0 {
        return next, Some(k);
      }
      k := k + n;
    }
    bad := None;
  }

  /** Length of the unicode escape at i, or 0: a high surrogate needs its low half right behind it. */
  method CheckUnicodeEscape(src: bytes, i: nat) returns (n: nat)
    requires i + 6 <= |src|
    ensures n == UnicodeEscapeLength(src, i)
  {
    var u := Hex4(src, i + 2);
    if u == 0x10000 {
      return 0;
    }
    if 0xD800 <= u <= 0xDBFF {
      if i + 12 > |src| || src[i + 6] != BACKSLASH || src[i + 7] != LOWER_U {
        return 0;
      }
      var lo := Hex4(src, i + 8);
      return if lo == 0x10000 || lo < 0xDC00 || lo > 0xDFFF then 0 else 12;
    }
    return if 0xDC00 <= u <= 0xDFFF then 0 else 6;
  }

  lemma EscapeStep(s: bytes, i: nat, n: nat, escaped: bool)
    requires i < |s| && s[i] == BACKSLASH && EscapeLength(s, i) == n
    ensures n == 0 ==> ScanString(s, i).BadString?
    ensures n > 0 ==> Mark(ScanString(s, i), escaped) == Mark(ScanString(s, i + n), true)
  {
  }

  /** Consecutive unicode escapes from `start`. */
  method ScanUnicodeEscapes(src: bytes, start: nat) returns (i: nat, any: bool, ok: bool)
    requires start <= |src|
    ensures start <= i <= |src|
    ensures ok ==> ScanString(src, start) == Mark(ScanString(src, i), any)
    ensures !ok ==> ScanString(src, start).BadString?
  {
    i, any := start, false;
    while i + 6 <= |src| && src[i] == BACKSLASH && src[i + 1] == LOWER_U
      invariant start <= i <= |src| && ScanString(src, start) == Mark(ScanString(src, i), any)
    {
      var n := CheckUnicodeEscape(src, i);
      EscapeStep(src, i, n, any);
      any := true;
      if n == 0 {
        return i, any, false;
      }
      i := i + n;
    }
    ok := true;
  }

  /** What the scan of a string makes of its next special byte. */
  lemma SpecialByte(s: bytes, j: nat)
    requires j <= |s|
    ensures j == |s| ==> ScanString(s, j).BadString?
    ensures j < |s| && s[j] == QUOTE ==> ScanString(s, j) == StringToken(j + 1, false)
    ensures j < |s| && s[j] < 0x20 ==> ScanString(s, j).BadString?
  {
  }

  /** The general string scanner, from interior position `start`. */
  method ScanJSONStringFastFrom(src: bytes, start: nat) returns (end: nat, escaped: bool, ok: bool)
    requires start <= |src|
    ensures ScanString(src, start) == if ok then StringToken(end, escaped) else BadString
  {
    hide ScanString, EscapeLength, Utf8Length, UnicodeEscapeLength;
    var i := start;
    escaped := false;
    while true
      invariant i <= |src| && ScanString(src, start) == Mark(ScanString(src, i), escaped)
      decreases |src| - i
    {
      var k, any, good := ScanUnicodeEscapes(src, i);
      if !good {
        return k, escaped, false;
      }
      escaped := escaped || any;
      var j := k;
      if j >= |src| || src[j] != BACKSLASH {
        j := FindStringSpecial(src, j);
      }
      SpecialByte(src, j);
      if j >= |src| {
        return |src|, escaped, false;
      }
      var c := src[j];
      if c == QUOTE {
        return j + 1, escaped, true;
      } else if c == BACKSLASH {
        var n := EscapeLength(src, j);
        EscapeStep(src, j, n, escaped);
        escaped := true;
        if n == 0 {
          return j, escaped, false;
        }
        i := j + n;
      } else if c < 0x20 {
        return j, escaped, false;
      } else {
        var next, bad := ScanStringUnicodeRun(src, j);
        if bad.Some? {
          return bad.value, escaped, false;
        }
        i := next;
      }
    }
  }

  /** The byte-at-a-time string scanner of the validator and the pointer seeker. */
  method ScanStringChecked(src: bytes, start: nat) returns (end: nat, escaped: bool, ok: bool)
    requires start <= |src|
    ensures ScanString(src, start) == if ok then StringToken(end, escaped) else BadString
  {
    var i := start;
    escaped := false;
    while true
      invariant i <= |src| && ScanString(src, start) == Mark(ScanString(src, i), escaped)
      decreases |src| - i
    {
      var j := FindStringSpecial(src, i);
      if j >= |src| {
        return |src|, escaped, false;
      }
      if src[j] == QUOTE {
        return j + 1, escaped, true;
      } else if src[j] == BACKSLASH {
        var n := EscapeLength(src, j);
        EscapeStep(src, j, n, escaped);
        escaped := true;
        if n == 0 {
          return j, escaped, false;
        }
        i := j + n;
      } else if src[j] < 0x20 {
        return j, escaped, false;
      } else {
        var next, bad := ScanStringUnicodeRun(src, j);
        if bad.Some? {
          return bad.value, escaped, false;
        }
        i := next;
      }
    }
  }
}
