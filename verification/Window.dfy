/**
 A window onto a longer input: what the grammar says about the bytes of the window is what it says
 about the input, except at the window's end.
 */
module Window {
  import opened Json

  /** w is what lies in s from position a on. */
  predicate Within(w: bytes, s: bytes, a: nat) {
    a + |w| <= |s| && forall k | 0 <= k < |w| :: w[k] == s[a + k]
  }

  /** The window reaches the end of the input. */
  predicate Final(w: bytes, s: bytes, a: nat) {
    a + |w| == |s|
  }

  lemma {:induction false} SpaceWindow(w: bytes, s: bytes, a: nat, i: nat)
    requires Within(w, s, a) && i <= |w|
    ensures var j, k := SkipSpace(w, i), SkipSpace(s, a + i);
            if j < |w| || Final(w, s, a) then k == a + j else k >= a + |w|
    decreases |w| - i
  {
    if i < |w| && IsSpace(w[i]) {
      SpaceWindow(w, s, a, i + 1);
    }
  }

  lemma {:induction false} DigitsWindow(w: bytes, s: bytes, a: nat, i: nat)
    requires Within(w, s, a) && i <= |w|
    ensures var j, k := SkipDigits(w, i), SkipDigits(s, a + i);
            if j < |w| || Final(w, s, a) then k == a + j else k >= a + |w|
    decreases |w| - i
  {
    if i < |w| && IsDigit(w[i]) {
      DigitsWindow(w, s, a, i + 1);
    }
  }

  // ---- Numbers: the byte after the token must be in the window -------------------------------------------

  predicate NumberAgrees(t: NumberToken, u: NumberToken, w: bytes, s: bytes, a: nat) {
    (t.NumberToken? && (t.end < |w| || Final(w, s, a)) ==> u == NumberToken(a + t.end, t.integer)) &&
    (u.NumberToken? && (u.end < a + |w| || Final(w, s, a)) ==> t.NumberToken? && u == NumberToken(a + t.end, t.integer))
  }

  lemma ExponentWindow(w: bytes, s: bytes, a: nat, i: nat, integer: bool)
    requires Within(w, s, a) && i <= |w|
    ensures NumberAgrees(ScanExponent(w, i, integer), ScanExponent(s, a + i, integer), w, s, a)
  {
    if i < |w| {
      var j := if i + 1 < |w| && (w[i + 1] == PLUS || w[i + 1] == MINUS) then i + 2 else i + 1;
      DigitsWindow(w, s, a, j);
    }
  }

  lemma FractionWindow(w: bytes, s: bytes, a: nat, i: nat)
    requires Within(w, s, a) && i <= |w|
    ensures NumberAgrees(ScanFraction(w, i), ScanFraction(s, a + i), w, s, a)
  {
    if i < |w| && w[i] == DOT && i + 1 < |w| {
      DigitsWindow(w, s, a, i + 1);
      ExponentWindow(w, s, a, SkipDigits(w, i + 1), false);
    } else {
      ExponentWindow(w, s, a, i, true);
    }
  }

  lemma NumberWindow(w: bytes, s: bytes, a: nat, i: nat)
    requires Within(w, s, a) && i < |w|
    ensures NumberAgrees(ScanNumber(w, i), ScanNumber(s, a + i), w, s, a)
  {
    hide ScanFraction;
    var j := if ByteAt(w, i, MINUS) then i + 1 else i;
    if j < |w| && IsDigit(w[j]) {
      DigitsWindow(w, s, a, j);
      FractionWindow(w, s, a, if w[j] == DIGIT0 then j + 1 else SkipDigits(w, j));
    }
  }

  lemma DigitsAlone(w: bytes, s: bytes, a: nat, i: nat)
    requires Within(w, s, a) && i <= |w| && SkipDigits(s, a + i) <= a + |w|
    ensures SkipDigits(s, a + i) == a + SkipDigits(w, i)
  {
    DigitsWindow(w, s, a, i);
  }

  lemma ExponentAlone(w: bytes, s: bytes, a: nat, i: nat, integer: bool)
    requires Within(w, s, a) && i <= |w|
    ensures var t := ScanExponent(s, a + i, integer);
            t.NumberToken? && t.end == a + |w| ==> ScanExponent(w, i, integer) == NumberToken(|w|, t.integer)
  {
    if i < |w| {
      var j := if i + 1 < |w| && (w[i + 1] == PLUS || w[i + 1] == MINUS) then i + 2 else i + 1;
      if j <= |w| && SkipDigits(s, a + j) <= a + |w| {
        DigitsAlone(w, s, a, j);
      }
    }
  }

  lemma FractionAlone(w: bytes, s: bytes, a: nat, i: nat)
    requires Within(w, s, a) && i <= |w|
    ensures var t := ScanFraction(s, a + i);
            t.NumberToken? && t.end == a + |w| ==> ScanFraction(w, i) == NumberToken(|w|, t.integer)
  {
    if i + 1 < |w| && w[i] == DOT {
      if SkipDigits(s, a + i + 1) <= a + |w| {
        DigitsAlone(w, s, a, i + 1);
        ExponentAlone(w, s, a, SkipDigits(w, i + 1), false);
      }
    } else {
      ExponentAlone(w, s, a, i, true);
    }
  }

  /** A number token cut out of the input is a number token. */
  lemma NumberAlone(w: bytes, s: bytes, a: nat)
    requires Within(w, s, a)
    ensures var t := ScanNumber(s, a);
            t.NumberToken? && t.end == a + |w| ==> ScanNumber(w, 0) == NumberToken(|w|, t.integer)
  {
    var j := if ByteAt(s, a, MINUS) then 1 else 0;
    if j < |w| && DigitAt(s, a + j) {
      if s[a + j] == DIGIT0 {
        FractionAlone(w, s, a, j + 1);
      } else if SkipDigits(s, a + j) <= a + |w| {
        DigitsAlone(w, s, a, j);
        FractionAlone(w, s, a, SkipDigits(w, j));
      }
    }
  }

  // ---- Strings and literals: the token itself must be in the window -----------------------------------------

  lemma Hex4Window(w: bytes, s: bytes, a: nat, i: nat)
    requires Within(w, s, a) && i + 4 <= |w|
    ensures Hex4(w, i) == Hex4(s, a + i)
  {
  }

  lemma EscapeWindow(w: bytes, s: bytes, a: nat, i: nat)
    requires Within(w, s, a) && i < |w|
    ensures EscapeLength(w, i) > 0 ==> EscapeLength(s, a + i) == EscapeLength(w, i)
    ensures EscapeLength(s, a + i) > 0 && i + EscapeLength(s, a + i) <= |w| ==> EscapeLength(w, i) == EscapeLength(s, a + i)
  {
    hide Hex4;
    if i + 6 <= |w| {
      Hex4Window(w, s, a, i + 2);
      if i + 12 <= |w| {
        Hex4Window(w, s, a, i + 8);
      }
    }
  }

  lemma Utf8Window(w: bytes, s: bytes, a: nat, i: nat)
    requires Within(w, s, a) && i < |w|
    ensures Utf8Length(w, i) > 0 ==> Utf8Length(s, a + i) == Utf8Length(w, i)
    ensures Utf8Length(s, a + i) > 0 && i + Utf8Length(s, a + i) <= |w| ==> Utf8Length(w, i) == Utf8Length(s, a + i)
  {
  }

  predicate StringAgrees(t: StringToken, u: StringToken, w: bytes, a: nat) {
    (t.StringToken? ==> u == StringToken(a + t.end, t.escaped)) &&
    (u.StringToken? && u.end <= a + |w| ==> t.StringToken?)
  }

  lemma {:induction false} StringWindow(w: bytes, s: bytes, a: nat, i: nat)
    requires Within(w, s, a) && i <= |w|
    ensures StringAgrees(ScanString(w, i), ScanString(s, a + i), w, a)
    decreases |w| - i
  {
    hide EscapeLength, Utf8Length;
    if i < |w| && w[i] != QUOTE {
      if w[i] == BACKSLASH {
        EscapeWindow(w, s, a, i);
        var n := EscapeLength(w, i);
        if n > 0 {
          StringWindow(w, s, a, i + n);
        }
      } else if w[i] >= 0x20 {
        Utf8Window(w, s, a, i);
        var n := Utf8Length(w, i);
        if n > 0 {
          StringWindow(w, s, a, i + n);
        }
      }
    }
  }

  lemma LiteralWindow(w: bytes, s: bytes, a: nat, i: nat, lit: bytes)
    requires Within(w, s, a) && i <= |w|
    ensures LiteralAt(w, i, lit) ==> LiteralAt(s, a + i, lit)
    ensures LiteralAt(s, a + i, lit) && i + |lit| <= |w| ==> LiteralAt(w, i, lit)
  {
    if i + |lit| <= |w| {
      assert w[i..i + |lit|] == s[a + i..a + i + |lit|];
    }
  }

  // ---- Values ---------------------------------------------------------------------------------------------------

  /** Whether a value with this first byte shows its own end; numbers do not. */
  predicate SelfDelimiting(c: byte) {
    c == LBRACE || c == LBRACKET || c == QUOTE || c == TRUE[0] || c == FALSE[0] || c == NULL[0]
  }

  /** Both parses succeed and end at the same byte, if either succeeds with its end where the window can show it. */
  ghost predicate Agrees<T>(r: Parsed<T>, q: Parsed<T>, w: bytes, s: bytes, a: nat, closed: bool) {
    (r.Good? && (closed || r.end < |w| || Final(w, s, a)) ==> q.Good? && q.end == a + r.end) &&
    (q.Good? && q.end <= a + |w| && (closed || q.end < a + |w| || Final(w, s, a)) ==> r.Good? && q.end == a + r.end)
  }

  lemma ScalarWindow(w: bytes, s: bytes, a: nat, i: nat)
    requires Within(w, s, a) && i < |w| && w[i] != LBRACE && w[i] != LBRACKET
    ensures Agrees(ParseScalar(w, i), ParseScalar(s, a + i), w, s, a, SelfDelimiting(w[i]))
  {
    hide ScanString, ScanNumber;
    assert s[a + i] == w[i];
    if w[i] == QUOTE {
      StringWindow(w, s, a, i + 1);
    } else if w[i] == TRUE[0] {
      LiteralWindow(w, s, a, i, TRUE);
    } else if w[i] == FALSE[0] {
      LiteralWindow(w, s, a, i, FALSE);
    } else if w[i] == NULL[0] {
      LiteralWindow(w, s, a, i, NULL);
    } else {
      NumberWindow(w, s, a, i);
    }
  }

  /**
   A value found in the window is the value found in the input, and the other way round, when it ends before the
   window does, or ends with it and shows its own end, or the input ends there too.
   */
  lemma {:induction false} ValueWindow(w: bytes, s: bytes, a: nat, i: nat, d: nat, max: nat)
    requires Within(w, s, a) && i < |w|
    ensures Agrees(ParseValue(w, i, d, max), ParseValue(s, a + i, d, max), w, s, a, SelfDelimiting(w[i]))
    decreases |w| - i, 0
  {
    hide ParseScalar, ParseMembers, ParseElements;
    if w[i] == LBRACE || w[i] == LBRACKET {
      if d < max {
        SpaceWindow(w, s, a, i + 1);
        var j := SkipSpace(w, i + 1);
        if j < |w| {
          if w[i] == LBRACE {
            MembersWindow(w, s, a, j, d + 1, max);
          } else {
            ElementsWindow(w, s, a, j, d + 1, max);
          }
        }
      }
    } else {
      ScalarWindow(w, s, a, i);
    }
  }

  lemma {:induction false} ElementsWindow(w: bytes, s: bytes, a: nat, i: nat, d: nat, max: nat)
    requires Within(w, s, a) && i < |w|
    ensures Agrees(ParseElements(w, i, d, max), ParseElements(s, a + i, d, max), w, s, a, true)
    decreases |w| - i, 1
  {
    ValueWindow(w, s, a, i, d, max);
    var v, u := ParseValue(w, i, d, max), ParseValue(s, a + i, d, max);
    hide ParseValue, ArrayTail;
    if v.Good? && u.Good? && u.end == a + v.end {
      ArrayTailWindow(w, s, a, v.end, d, max);
    }
  }

  lemma {:induction false} ArrayTailWindow(w: bytes, s: bytes, a: nat, i: nat, d: nat, max: nat)
    requires Within(w, s, a) && i <= |w|
    ensures Agrees(ArrayTail(w, i, d, max), ArrayTail(s, a + i, d, max), w, s, a, true)
    decreases |w| - i, 2
  {
    hide ParseElements;
    SpaceWindow(w, s, a, i);
    var j := SkipSpace(w, i);
    if ByteAt(w, j, COMMA) {
      SpaceWindow(w, s, a, j + 1);
      var k := SkipSpace(w, j + 1);
      if k < |w| {
        ElementsWindow(w, s, a, k, d, max);
      } else {
        NothingHere(w, k, d, max);
        NothingHere(s, SkipSpace(s, a + j + 1), d, max);
      }
    }
  }

  /** Nothing starts at the end of the input. */
  lemma NothingHere(s: bytes, i: nat, d: nat, max: nat)
    requires i <= |s|
    ensures i == |s| ==> ParseElements(s, i, d, max).Bad? && ParseMembers(s, i, d, max).Bad?
  {
  }

  lemma KeyWindow(w: bytes, s: bytes, a: nat, i: nat)
    requires Within(w, s, a) && i < |w|
    ensures var k, q := ParseKey(w, i), ParseKey(s, a + i);
            (k.Good? && k.end < |w| ==> q.Good? && q.end == a + k.end) && (q.Good? && q.end < a + |w| ==> k.Good? && q.end == a + k.end)
  {
    hide ScanString;
    StringWindow(w, s, a, i + 1);
    assert s[a + i] == w[i];
    var t := ScanString(w, i + 1);
    if w[i] == QUOTE && t.StringToken? {
      SpaceWindow(w, s, a, t.end);
      var j := SkipSpace(w, t.end);
      if j < |w| {
        SpaceWindow(w, s, a, j + 1);
      }
    }
  }

  lemma NoValueAtEnd(s: bytes, i: nat, d: nat, max: nat)
    requires i == |s|
    ensures ParseValue(s, i, d, max).Bad?
  {
  }

  lemma {:induction false} MembersWindow(w: bytes, s: bytes, a: nat, i: nat, d: nat, max: nat)
    requires Within(w, s, a) && i < |w|
    ensures Agrees(ParseMembers(w, i, d, max), ParseMembers(s, a + i, d, max), w, s, a, true)
    decreases |w| - i, 1
  {
    hide ParseKey, ParseMembers, ParseValue, ObjectTail;
    KeyWindow(w, s, a, i);
    var k, q := ParseKey(w, i), ParseKey(s, a + i);
    MembersEnd(w, i, d, max);
    MembersEnd(s, a + i, d, max);
    if k.Good? && k.end < |w| {
      ValueWindow(w, s, a, k.end, d, max);
      var v, u := ParseValue(w, k.end, d, max), ParseValue(s, q.end, d, max);
      if v.Good? && u.Good? && u.end == a + v.end {
        ObjectTailWindow(w, s, a, v.end, d, max);
      }
    } else if k.Good? {
      NoValueAtEnd(w, k.end, d, max);
    }
  }

  /** Where the members end, by their parts. */
  lemma MembersEnd(s: bytes, i: nat, d: nat, max: nat)
    requires i <= |s|
    ensures var k, r := ParseKey(s, i), ParseMembers(s, i, d, max);
            if k.Bad? then r.Bad?
            else
              var v := ParseValue(s, k.end, d, max);
              if v.Bad? then r.Bad?
              else
                var t := ObjectTail(s, v.end, d, max);
                (r.Good? <==> t.Good?) && (r.Good? ==> r.end == t.end)
  {
  }

  lemma {:induction false} ObjectTailWindow(w: bytes, s: bytes, a: nat, i: nat, d: nat, max: nat)
    requires Within(w, s, a) && i <= |w|
    ensures Agrees(ObjectTail(w, i, d, max), ObjectTail(s, a + i, d, max), w, s, a, true)
    decreases |w| - i, 2
  {
    hide ParseMembers;
    SpaceWindow(w, s, a, i);
    var j := SkipSpace(w, i);
    if ByteAt(w, j, COMMA) {
      SpaceWindow(w, s, a, j + 1);
      var k := SkipSpace(w, j + 1);
      if k < |w| {
        MembersWindow(w, s, a, k, d, max);
      } else {
        NothingHere(w, k, d, max);
        NothingHere(s, SkipSpace(s, a + j + 1), d, max);
      }
    }
  }
}
