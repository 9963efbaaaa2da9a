/**
 Skipping a container without parsing it: counting brackets of either kind outside strings, byte by
 byte or 64 bytes at a time. On validated input both stop where the grammar does.
 */
module Brackets {
  import opened Json

  // ---- The bracket counter --------------------------------------------------------------------------

  /** Open brackets, and whether the next byte is inside a string or escaped by a backslash. */
  datatype Lex = Lex(depth: int, inStr: bool, esc: bool)

  predicate IsOpener(c: byte) {
    c == LBRACE || c == LBRACKET
  }

  predicate IsCloser(c: byte) {
    c == RBRACE || c == RBRACKET
  }

  predicate Opens(l: Lex, c: byte) {
    !l.inStr && IsOpener(c)
  }

  predicate Closes(l: Lex, c: byte) {
    !l.inStr && IsCloser(c)
  }

  function StepByte(l: Lex, c: byte): Lex {
    if l.inStr then
      if l.esc then l.(esc := false)
      else if c == QUOTE then l.(inStr := false)
      else if c == BACKSLASH then l.(esc := true)
      else l
    else if c == QUOTE then Lex(l.depth, true, false)
    else if IsOpener(c) then l.(depth := l.depth + 1)
    else if IsCloser(c) then l.(depth := l.depth - 1)
    else l
  }

  datatype BracketEnd = Closed(end: nat) | TooDeep(at: nat) | Unclosed

  /** Where the count returns to zero, or first exceeds the budget. */
  function Match(s: bytes, i: nat, l: Lex, budget: int): (r: BracketEnd)
    ensures r.Closed? ==> i < r.end <= |s|
    decreases |s| - i
  {
    if i >= |s| then Unclosed
    else
      var next := StepByte(l, s[i]);
      if Opens(l, s[i]) && next.depth > budget then TooDeep(i)
      else if Closes(l, s[i]) && next.depth == 0 then Closed(i + 1)
      else Match(s, i + 1, next, budget)
  }

  /** Where the count returns to zero, however deep it goes. */
  function CloseOf(s: bytes, i: nat, l: Lex): (r: Option<nat>)
    ensures r.Some? ==> i < r.value <= |s|
    decreases |s| - i
  {
    if i >= |s| then None
    else
      var next := StepByte(l, s[i]);
      if Closes(l, s[i]) && next.depth == 0 then Some(i + 1) else CloseOf(s, i + 1, next)
  }

  lemma {:induction false} CloseWithinBudget(s: bytes, i: nat, l: Lex, budget: int)
    ensures Match(s, i, l, budget).Closed? ==> CloseOf(s, i, l) == Some(Match(s, i, l, budget).end)
    decreases |s| - i
  {
    if i < |s| {
      CloseWithinBudget(s, i + 1, StepByte(l, s[i]), budget);
    }
  }

  lemma OpenStep(s: bytes, i: nat, depth: int, budget: int)
    requires i < |s| && IsOpener(s[i]) && depth < budget
    ensures Match(s, i, Lex(depth, false, false), budget) == Match(s, i + 1, Lex(depth + 1, false, false), budget)
  {
  }

  lemma CloseStep(s: bytes, i: nat, depth: int, budget: int)
    requires i < |s| && IsCloser(s[i])
    ensures Match(s, i, Lex(depth, false, false), budget) ==
            if depth == 1 then Closed(i + 1) else Match(s, i + 1, Lex(depth - 1, false, false), budget)
  {
  }

  // ---- Against the grammar ------------------------------------------------------------------------------

  lemma {:induction false} SpaceMatch(s: bytes, i: nat, l: Lex, budget: int)
    requires i <= |s| && !l.inStr
    ensures Match(s, i, l, budget) == Match(s, SkipSpace(s, i), l, budget)
    decreases |s| - i
  {
    if i < |s| && IsSpace(s[i]) {
      SpaceMatch(s, i + 1, l, budget);
    }
  }

  /** Bytes that mean nothing to the counter outside a string. */
  predicate Plain(c: byte) {
    c != QUOTE && !IsOpener(c) && !IsCloser(c)
  }

  lemma {:induction false} PlainMatch(s: bytes, i: nat, j: nat, l: Lex, budget: int)
    requires i <= j <= |s| && !l.inStr && forall k | i <= k < j :: Plain(s[k])
    ensures Match(s, i, l, budget) == Match(s, j, l, budget)
    decreases j - i
  {
    if i < j {
      PlainMatch(s, i + 1, j, l, budget);
    }
  }

  /** Inside a string, bytes that are neither quote nor backslash change nothing. */
  lemma {:induction false} QuietMatch(s: bytes, i: nat, j: nat, l: Lex, budget: int)
    requires i <= j <= |s| && l.inStr && !l.esc && forall k | i <= k < j :: s[k] != QUOTE && s[k] != BACKSLASH
    ensures Match(s, i, l, budget) == Match(s, j, l, budget)
    decreases j - i
  {
    if i < j {
      QuietMatch(s, i + 1, j, l, budget);
    }
  }

  lemma EscapeBytes(s: bytes, i: nat)
    requires i < |s| && s[i] == BACKSLASH && EscapeLength(s, i) > 0
    ensures var n := EscapeLength(s, i);
            n >= 2 && (n > 2 ==> forall k | i + 1 <= k < i + 6 :: s[k] != QUOTE && s[k] != BACKSLASH) &&
            (n == 12 ==> s[i + 6] == BACKSLASH && forall k | i + 7 <= k < i + 12 :: s[k] != QUOTE && s[k] != BACKSLASH)
  {
  }

  lemma EscapeMatch(s: bytes, i: nat, l: Lex, budget: int)
    requires i < |s| && s[i] == BACKSLASH && EscapeLength(s, i) > 0 && l.inStr && !l.esc
    ensures Match(s, i, l, budget) == Match(s, i + EscapeLength(s, i), l, budget)
  {
    EscapeBytes(s, i);
    hide EscapeLength;
    var n := EscapeLength(s, i);
    assert Match(s, i, l, budget) == Match(s, i + 1, l.(esc := true), budget) == Match(s, i + 2, l, budget);
    if n > 2 {
      QuietMatch(s, i + 2, i + 6, l, budget);
      if n == 12 {
        assert Match(s, i + 6, l, budget) == Match(s, i + 7, l.(esc := true), budget) == Match(s, i + 8, l, budget);
        QuietMatch(s, i + 8, i + 12, l, budget);
      }
    }
  }

  lemma Utf8Quiet(s: bytes, i: nat)
    requires i < |s| && s[i] != QUOTE && s[i] != BACKSLASH
    ensures forall k | i <= k < i + Utf8Length(s, i) :: s[k] != QUOTE && s[k] != BACKSLASH
  {
  }

  /** The counter leaves a string where the grammar does. */
  lemma {:induction false} StringMatch(s: bytes, i: nat, depth: int, budget: int)
    requires i <= |s| && ScanString(s, i).StringToken?
    ensures Match(s, i, Lex(depth, true, false), budget) == Match(s, ScanString(s, i).end, Lex(depth, false, false), budget)
    decreases |s| - i
  {
    hide EscapeLength, Utf8Length;
    var l := Lex(depth, true, false);
    if s[i] != QUOTE {
      if s[i] == BACKSLASH {
        EscapeMatch(s, i, l, budget);
        StringMatch(s, i + EscapeLength(s, i), depth, budget);
      } else {
        var n := Utf8Length(s, i);
        Utf8Quiet(s, i);
        QuietMatch(s, i, i + n, l, budget);
        StringMatch(s, i + n, depth, budget);
      }
    }
  }

  predicate IsNumberByte(c: byte) {
    IsDigit(c) || c == PLUS || c == MINUS || c == DOT || c == 0x65 || c == 0x45
  }

  predicate NumberBytes(s: bytes, i: nat, j: nat) {
    j <= |s| && forall k | i <= k < j :: IsNumberByte(s[k])
  }

  lemma {:induction false} DigitBytes(s: bytes, i: nat)
    requires i <= |s|
    ensures NumberBytes(s, i, SkipDigits(s, i))
    decreases |s| - i
  {
    if i < |s| && IsDigit(s[i]) {
      DigitBytes(s, i + 1);
    }
  }

  lemma ExponentBytes(s: bytes, i: nat, integer: bool)
    requires i <= |s| && ScanExponent(s, i, integer).NumberToken?
    ensures NumberBytes(s, i, ScanExponent(s, i, integer).end)
  {
    if i < |s| {
      DigitBytes(s, if i + 1 < |s| && (s[i + 1] == PLUS || s[i + 1] == MINUS) then i + 2 else i + 1);
    }
  }

  /** A number token holds nothing but digits, signs, points and exponent marks. */
  lemma TokenBytes(s: bytes, i: nat)
    requires i <= |s| && ScanNumber(s, i).NumberToken?
    ensures NumberBytes(s, i, ScanNumber(s, i).end)
  {
    hide ScanExponent;
    var j := if ByteAt(s, i, MINUS) then i + 1 else i;
    var k := if s[j] == DIGIT0 then j + 1 else SkipDigits(s, j);
    DigitBytes(s, j);
    if k < |s| && s[k] == DOT {
      DigitBytes(s, k + 1);
      ExponentBytes(s, SkipDigits(s, k + 1), false);
    } else {
      ExponentBytes(s, k, true);
    }
  }

  lemma ScalarMatch(s: bytes, i: nat, depth: int, budget: int)
    requires i < |s| && ParseScalar(s, i).Good?
    ensures Match(s, i, Lex(depth, false, false), budget) == Match(s, ParseScalar(s, i).end, Lex(depth, false, false), budget)
  {
    hide ScanString, ScanNumber;
    if s[i] == QUOTE {
      StringMatch(s, i + 1, depth, budget);
    } else {
      var end := ParseScalar(s, i).end;
      assert forall k | i <= k < end :: Plain(s[k]) by {
        if s[i] == TRUE[0] || s[i] == NULL[0] || s[i] == FALSE[0] {
          var lit := s[i..end];
          assert forall k | i <= k < end :: s[k] == lit[k - i];
        } else {
          TokenBytes(s, i);
        }
      }
      hide ParseScalar;
      PlainMatch(s, i, end, Lex(depth, false, false), budget);
    }
  }

  /** What a valid container consists of. */
  lemma ContainerParts(s: bytes, i: nat, d: nat, max: nat)
    requires i < |s| && (s[i] == LBRACE || s[i] == LBRACKET) && ParseValue(s, i, d, max).Good?
    ensures d < max
    ensures var j, end := SkipSpace(s, i + 1), ParseValue(s, i, d, max).end;
            if s[i] == LBRACE then
              if ByteAt(s, j, RBRACE) then end == j + 1 else ParseMembers(s, j, d + 1, max).Good? && end == ParseMembers(s, j, d + 1, max).end
            else
              if ByteAt(s, j, RBRACKET) then end == j + 1 else ParseElements(s, j, d + 1, max).Good? && end == ParseElements(s, j, d + 1, max).end
  {
  }

  lemma ElementsParts(s: bytes, i: nat, d: nat, max: nat)
    requires i <= |s| && ParseElements(s, i, d, max).Good?
    ensures var v, end := ParseValue(s, i, d, max), ParseElements(s, i, d, max).end;
            v.Good? &&
            var j := SkipSpace(s, v.end);
            if ByteAt(s, j, COMMA) then
              var rest := ParseElements(s, SkipSpace(s, j + 1), d, max); rest.Good? && end == rest.end
            else ByteAt(s, j, RBRACKET) && end == j + 1
  {
  }

  lemma MembersParts(s: bytes, i: nat, d: nat, max: nat)
    requires i <= |s| && ParseMembers(s, i, d, max).Good?
    ensures var k, end := ParseKey(s, i), ParseMembers(s, i, d, max).end;
            k.Good? &&
            var v := ParseValue(s, k.end, d, max);
            v.Good? &&
            var j := SkipSpace(s, v.end);
            if ByteAt(s, j, COMMA) then
              var rest := ParseMembers(s, SkipSpace(s, j + 1), d, max); rest.Good? && end == rest.end
            else ByteAt(s, j, RBRACE) && end == j + 1
  {
  }

  /**
   A value the grammar accepts with d containers open passes through the counter unnoticed, when the counter has
   `depth` brackets open and as much room left as the grammar.
   */
  lemma {:induction false} ValueMatch(s: bytes, i: nat, d: nat, max: nat, depth: int, budget: int)
    requires i <= |s| && depth > 0 && max - d == budget - depth && ParseValue(s, i, d, max).Good?
    ensures Match(s, i, Lex(depth, false, false), budget) == Match(s, ParseValue(s, i, d, max).end, Lex(depth, false, false), budget)
    decreases |s| - i, 0
  {
    hide ParseScalar, Match;
    if s[i] == LBRACE || s[i] == LBRACKET {
      ContainerMatch(s, i, d, max, depth, budget);
      CloseStep(s, ParseValue(s, i, d, max).end - 1, depth + 1, budget);
    } else {
      ScalarMatch(s, i, depth, budget);
    }
  }

  /** From a container's opening bracket the counter reaches its closing bracket with the same count. */
  lemma {:induction false} ContainerMatch(s: bytes, i: nat, d: nat, max: nat, depth: int, budget: int)
    requires i < |s| && (s[i] == LBRACE || s[i] == LBRACKET)
    requires depth >= 0 && max - d == budget - depth && ParseValue(s, i, d, max).Good?
    ensures var end := ParseValue(s, i, d, max).end;
            i + 1 < end && IsCloser(s[end - 1]) &&
            Match(s, i, Lex(depth, false, false), budget) == Match(s, end - 1, Lex(depth + 1, false, false), budget)
    decreases |s| - i - 1, 3
  {
    hide Match, ParseElements, ParseMembers, ParseValue, SkipSpace, StepByte;
    ContainerParts(s, i, d, max);
    OpenStep(s, i, depth, budget);
    SpaceMatch(s, i + 1, Lex(depth + 1, false, false), budget);
    BodyMatch(s, SkipSpace(s, i + 1), s[i] == LBRACE, d + 1, max, depth + 1, budget, ParseValue(s, i, d, max).end);
  }

  /** From the first element, if any, to the closing bracket. */
  lemma {:induction false} BodyMatch(s: bytes, j: nat, braces: bool, d: nat, max: nat, depth: int, budget: int, end: nat)
    requires j <= |s| && depth > 0 && max - d == budget - depth
    requires if ByteAt(s, j, if braces then RBRACE else RBRACKET) then end == j + 1
             else if braces then ParseMembers(s, j, d, max).Good? && end == ParseMembers(s, j, d, max).end
             else ParseElements(s, j, d, max).Good? && end == ParseElements(s, j, d, max).end
    ensures j < end <= |s| && IsCloser(s[end - 1])
    ensures Match(s, j, Lex(depth, false, false), budget) == Match(s, end - 1, Lex(depth, false, false), budget)
    decreases |s| - j, 2
  {
    hide Match, ParseElements, ParseMembers;
    if !ByteAt(s, j, if braces then RBRACE else RBRACKET) {
      if braces {
        MembersMatch(s, j, d, max, depth, budget);
      } else {
        ElementsMatch(s, j, d, max, depth, budget);
      }
    }
  }

  lemma {:induction false} ElementsMatch(s: bytes, i: nat, d: nat, max: nat, depth: int, budget: int)
    requires i <= |s| && depth > 0 && max - d == budget - depth && ParseElements(s, i, d, max).Good?
    ensures var end := ParseElements(s, i, d, max).end;
            IsCloser(s[end - 1]) && Match(s, i, Lex(depth, false, false), budget) == Match(s, end - 1, Lex(depth, false, false), budget)
    decreases |s| - i, 1
  {
    var l := Lex(depth, false, false);
    hide Match, ParseElements, ParseValue;
    ElementsParts(s, i, d, max);
    ValueMatch(s, i, d, max, depth, budget);
    var v := ParseValue(s, i, d, max);
    var j := SkipSpace(s, v.end);
    SpaceMatch(s, v.end, l, budget);
    if ByteAt(s, j, COMMA) {
      PlainMatch(s, j, j + 1, l, budget);
      SpaceMatch(s, j + 1, l, budget);
      ElementsMatch(s, SkipSpace(s, j + 1), d, max, depth, budget);
    }
  }

  lemma KeyMatch(s: bytes, i: nat, depth: int, budget: int)
    requires i <= |s| && ParseKey(s, i).Good?
    ensures Match(s, i, Lex(depth, false, false), budget) == Match(s, ParseKey(s, i).end, Lex(depth, false, false), budget)
  {
    hide ScanString;
    var l := Lex(depth, false, false);
    var end := ScanString(s, i + 1).end;
    StringMatch(s, i + 1, depth, budget);
    SpaceMatch(s, end, l, budget);
    var j := SkipSpace(s, end);
    PlainMatch(s, j, j + 1, l, budget);
    SpaceMatch(s, j + 1, l, budget);
  }

  lemma {:induction false} MembersMatch(s: bytes, i: nat, d: nat, max: nat, depth: int, budget: int)
    requires i <= |s| && depth > 0 && max - d == budget - depth && ParseMembers(s, i, d, max).Good?
    ensures var end := ParseMembers(s, i, d, max).end;
            IsCloser(s[end - 1]) && Match(s, i, Lex(depth, false, false), budget) == Match(s, end - 1, Lex(depth, false, false), budget)
    decreases |s| - i, 1
  {
    var l := Lex(depth, false, false);
    hide Match, ParseMembers, ParseValue, ParseKey;
    MembersParts(s, i, d, max);
    KeyMatch(s, i, depth, budget);
    var k := ParseKey(s, i);
    ValueMatch(s, k.end, d, max, depth, budget);
    var v := ParseValue(s, k.end, d, max);
    var j := SkipSpace(s, v.end);
    SpaceMatch(s, v.end, l, budget);
    if ByteAt(s, j, COMMA) {
      PlainMatch(s, j, j + 1, l, budget);
      SpaceMatch(s, j + 1, l, budget);
      MembersMatch(s, SkipSpace(s, j + 1), d, max, depth, budget);
    }
  }

  /** Counting brackets from a valid container's first byte ends at its last, within the budget the grammar had. */
  lemma ContainerCloses(s: bytes, i: nat, d: nat, max: nat)
    requires i < |s| && (s[i] == LBRACE || s[i] == LBRACKET) && ParseValue(s, i, d, max).Good?
    ensures Match(s, i, Lex(0, false, false), max - d) == Closed(ParseValue(s, i, d, max).end)
    ensures CloseOf(s, i, Lex(0, false, false)) == Some(ParseValue(s, i, d, max).end)
  {
    hide Match, CloseOf, ParseValue;
    ContainerMatch(s, i, d, max, 0, max - d);
    CloseStep(s, ParseValue(s, i, d, max).end - 1, 1, max - d);
    CloseWithinBudget(s, i, Lex(0, false, false), max - d);
  }
}
