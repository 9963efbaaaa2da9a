/**
 JSON Pointers (sections 3 and 4 of RFC 6901): their syntax, what they denote in a value tree where
 the last duplicate wins, and both ways of following them over a tape.
 */
module Pointers {
  import opened Json
  import opened Tape
  import opened KeyHash
  import opened Lookup
  import opened Routes
  import Decimal
  import Numerals

  const TILDE: byte := 0x7E
  const DIGIT1: byte := 0x31

  // ---- Syntax ----------------------------------------------------------------------------------------

  /** a in front of t, when there is a t. */
  function Joined<T>(a: seq<T>, t: Option<seq<T>>): Option<seq<T>> {
    if t.None? then None else Some(a + t.value)
  }

  lemma JoinedMore<T>(a: seq<T>, x: T, t: Option<seq<T>>)
    ensures Joined(a, Joined([x], t)) == Joined(a + [x], t)
    ensures Joined(a, Some([])) == Some(a)
  {
    assert t.Some? ==> a + ([x] + t.value) == a + [x] + t.value;
    assert a + [] == a;
  }

  /** The text of a reference token from position i on; None for a tilde that starts no escape. */
  function Unescape(s: bytes, i: nat): Option<bytes>
    requires i <= |s|
    decreases |s| - i
  {
    if i == |s| then Some([])
    else if s[i] != TILDE then Joined([s[i]], Unescape(s, i + 1))
    else if ByteAt(s, i + 1, DIGIT0) then Joined([TILDE], Unescape(s, i + 2))
    else if ByteAt(s, i + 1, DIGIT1) then Joined([SLASH], Unescape(s, i + 2))
    else None
  }

  function NextSlash(p: bytes, i: nat): (j: nat)
    requires i <= |p|
    ensures i <= j <= |p| && (j < |p| ==> p[j] == SLASH) && forall k | i <= k < j :: p[k] != SLASH
    decreases |p| - i
  {
    if i == |p| || p[i] == SLASH then i else NextSlash(p, i + 1)
  }

  /** The reference tokens from the one that starts at i. */
  function TokensFrom(p: bytes, i: nat): (ts: Option<seq<bytes>>)
    requires i <= |p|
    ensures ts.Some? ==> ts.value != []
    decreases |p| - i
  {
    var j := NextSlash(p, i);
    var t := Unescape(p[i..j], 0);
    if t.None? then None
    else if j == |p| then Some([t.value])
    else
      Joined([t.value], TokensFrom(p, j + 1))
  }

  /** The reference tokens of a pointer, or None when its syntax is wrong. */
  function TokensOfPointer(p: bytes): Option<seq<bytes>> {
    if p == [] then Some([]) else if p[0] != SLASH then None else TokensFrom(p, 1)
  }

  function EscapeToken(t: bytes): bytes {
    if t == [] then []
    else (if t[0] == TILDE then [TILDE, DIGIT0] else if t[0] == SLASH then [TILDE, DIGIT1] else [t[0]]) + EscapeToken(t[1..])
  }

  /** The pointer that spells out the given tokens. */
  function Render(ts: seq<bytes>): bytes {
    if ts == [] then [] else [SLASH] + EscapeToken(ts[0]) + Render(ts[1..])
  }

  lemma {:induction false} EscapedHasNoSlash(t: bytes)
    ensures SLASH !in EscapeToken(t)
  {
    if t != [] {
      EscapedHasNoSlash(t[1..]);
    }
  }

  lemma {:induction false} UnescapeEscaped(t: bytes, before: bytes)
    ensures Unescape(before + EscapeToken(t), |before|) == Some(t)
  {
    var s := before + EscapeToken(t);
    if t != [] {
      var head := if t[0] == TILDE then [TILDE, DIGIT0] else if t[0] == SLASH then [TILDE, DIGIT1] else [t[0]];
      UnescapeEscaped(t[1..], before + head);
      assert s == before + head + EscapeToken(t[1..]);
      assert s[|before|..|before| + |head|] == head;
      assert t == [t[0]] + t[1..];
    }
  }

  lemma {:induction false} EscapeUnescaped(s: bytes, i: nat)
    requires i <= |s| && SLASH !in s[i..]
    ensures var t := Unescape(s, i); t.Some? ==> EscapeToken(t.value) == s[i..]
    decreases |s| - i
  {
    if i < |s| && Unescape(s, i).Some? {
      assert s[i] in s[i..];
      var n := if s[i] == TILDE then 2 else 1;
      assert s[i..] == s[i..i + n] + s[i + n..];
      EscapeUnescaped(s, i + n);
      var t := Unescape(s, i).value;
      assert t[1..] == Unescape(s, i + n).value;
    }
  }

  lemma {:induction false} SlashFound(p: bytes, i: nat, j: nat)
    requires i <= j <= |p| && SLASH !in p[i..j] && (j < |p| ==> p[j] == SLASH)
    ensures NextSlash(p, i) == j
    decreases j - i
  {
    if i < j {
      assert p[i..j] == [p[i]] + p[i + 1..j];
      SlashFound(p, i + 1, j);
    }
  }

  lemma Spelled(before: bytes, head: bytes, rest: bytes)
    ensures before + ([SLASH] + head + rest) == before + [SLASH] + head + rest
    ensures var p := before + [SLASH] + head + rest; p[|before|] == SLASH && p[|before| + 1..|before| + 1 + |head|] == head
  {
  }

  lemma {:induction false} TokensOfRendered(ts: seq<bytes>, before: bytes)
    requires ts != []
    ensures var p := before + Render(ts); |before| < |p| && p[|before|] == SLASH && TokensFrom(p, |before| + 1) == Some(ts)
  {
    hide Unescape, EscapeToken, TokensFrom, NextSlash;
    var p := before + Render(ts);
    var head, rest := EscapeToken(ts[0]), Render(ts[1..]);
    var longer := before + [SLASH] + head;
    Spelled(before, head, rest);
    EscapedHasNoSlash(ts[0]);
    UnescapeEscaped(ts[0], []);
    assert [] + head == head;
    assert p == longer + rest;
    assert ts == [ts[0]] + ts[1..];
    if ts[1..] != [] {
      TokensOfRendered(ts[1..], longer);
    } else {
      assert rest == [];
    }
    FirstToken(p, |before| + 1, |longer|, ts[0]);
    assert p[|before| + 1..|longer|] == head;
    assert |ts| == 1 ==> p == longer && ts == [ts[0]];
    assert |ts| > 1 ==> TokensFrom(p, |longer| + 1) == Some(ts[1..]);
  }

  /** A token that ends at the next slash or at the end of the pointer comes first. */
  lemma FirstToken(p: bytes, i: nat, j: nat, t: bytes)
    requires i <= j <= |p| && SLASH !in p[i..j] && Unescape(p[i..j], 0) == Some(t) && (j < |p| ==> p[j] == SLASH)
    ensures TokensFrom(p, i) == if j == |p| then Some([t]) else Joined([t], TokensFrom(p, j + 1))
  {
    SlashFound(p, i, j);
  }

  lemma {:induction false} RenderOfTokens(p: bytes, i: nat)
    requires 0 < i <= |p| && p[i - 1] == SLASH
    ensures var ts := TokensFrom(p, i); ts.Some? ==> Render(ts.value) == p[i - 1..]
    decreases |p| - i
  {
    hide Unescape, EscapeToken;
    var ts := TokensFrom(p, i);
    if ts.Some? {
      var j := NextSlash(p, i);
      assert p[i..j][0..] == p[i..j];
      EscapeUnescaped(p[i..j], 0);
      if j < |p| {
        RenderOfTokens(p, j + 1);
        assert ts.value[1..] == TokensFrom(p, j + 1).value;
      } else {
        assert ts.value[1..] == [];
      }
      assert p[i - 1..] == [SLASH] + p[i..j] + p[j..];
    }
  }

  /** Syntactically valid pointers and token lists are in one-to-one correspondence. */
  lemma PointerRoundTrip(ts: seq<bytes>, p: bytes)
    ensures TokensOfPointer(p) == Some(ts) <==> p == Render(ts)
  {
    if p == Render(ts) && ts != [] {
      TokensOfRendered(ts, []);
      assert [] + p == p;
    }
    if TokensOfPointer(p).Some? && p != [] {
      RenderOfTokens(p, 1);
      assert p[0..] == p;
    }
  }

  // ---- RFC 6901 to the letter -----------------------------------------------------------------------------

  /** Section 3: no slash, and every tilde stands before a zero or a one. */
  predicate IsReferenceToken(t: bytes) {
    0x2F !in t && forall k | 0 <= k < |t| && t[k] == 0x7E :: k + 1 < |t| && (t[k + 1] == 0x30 || t[k + 1] == 0x31)
  }

  /** Every pair of the bytes a and b, from the left, replaced by one byte. */
  function ReplaceAll(t: bytes, a: byte, b: byte, c: byte): bytes {
    if |t| < 2 then t
    else if t[0] == a && t[1] == b then [c] + ReplaceAll(t[2..], a, b, c)
    else [t[0]] + ReplaceAll(t[1..], a, b, c)
  }

  /** Section 4: first every ~1 becomes a slash, then every ~0 a tilde. */
  function ReferenceText(t: bytes): bytes {
    ReplaceAll(ReplaceAll(t, 0x7E, 0x31, 0x2F), 0x7E, 0x30, 0x7E)
  }

  /** Section 3: a slash before each token. */
  function Slashed(tokens: seq<bytes>): bytes {
    if tokens == [] then [] else [0x2F] + tokens[0] + Slashed(tokens[1..])
  }

  lemma {:induction false} UnescapeFrom(s: bytes, i: nat, n: nat)
    requires i <= n <= |s|
    ensures Unescape(s, n) == Unescape(s[i..], n - i)
    decreases |s| - n
  {
    if n < |s| {
      UnescapeFrom(s, i, n + 1);
      if n + 1 < |s| {
        UnescapeFrom(s, i, n + 2);
      }
    }
  }

  lemma ReplaceHead(h: byte, t: bytes, a: byte, b: byte, c: byte)
    requires h != a || (t != [] && t[0] != b)
    ensures ReplaceAll([h] + t, a, b, c) == [h] + ReplaceAll(t, a, b, c)
  {
    assert ([h] + t)[1..] == t;
  }

  lemma ReplacePair(t: bytes, a: byte, b: byte, c: byte)
    ensures ReplaceAll([a, b] + t, a, b, c) == [c] + ReplaceAll(t, a, b, c)
  {
    assert ([a, b] + t)[2..] == t;
  }

  lemma TokenTail(t: bytes, n: nat)
    requires 0 < n <= |t| && (forall k | 0 <= k < n && t[k] == 0x7E :: k + 1 < n && (t[k + 1] == 0x30 || t[k + 1] == 0x31)) && 0x2F !in t
    ensures IsReferenceToken(t) <==> IsReferenceToken(t[n..])
  {
    var u := t[n..];
    assert forall k | 0 <= k < |u| :: u[k] == t[k + n];
    if IsReferenceToken(u) {
      forall k | 0 <= k < |t| && t[k] == 0x7E
        ensures k + 1 < |t| && (t[k + 1] == 0x30 || t[k + 1] == 0x31)
      {
        assert k >= n ==> u[k - n] == 0x7E;
      }
    }
  }

  /** Reading a token from the left is the two replacements of section 4, and fails exactly on what is no token. */
  lemma {:induction false} ReadsReferenceToken(t: bytes)
    requires 0x2F !in t
    ensures Unescape(t, 0) == if IsReferenceToken(t) then Some(ReferenceText(t)) else None
    decreases |t|
  {
    if t != [] {
      var plain, known := t[0] != 0x7E, |t| > 1 && (t[1] == 0x30 || t[1] == 0x31);
      if plain || known {
        var n := if plain then 1 else 2;
        var u := t[n..];
        TokenTail(t, n);
        ReadsReferenceToken(u);
        UnescapeFrom(t, n, n);
        var v := ReplaceAll(u, 0x7E, 0x31, 0x2F);
        if plain {
          assert t == [t[0]] + u;
          ReplaceHead(t[0], u, 0x7E, 0x31, 0x2F);
          ReplaceHead(t[0], v, 0x7E, 0x30, 0x7E);
        } else if t[1] == 0x31 {
          assert t == [0x7E, 0x31] + u;
          ReplacePair(u, 0x7E, 0x31, 0x2F);
          ReplaceHead(0x2F, v, 0x7E, 0x30, 0x7E);
        } else {
          assert t == [0x7E] + ([0x30] + u) && [0x7E] + ([0x30] + v) == [0x7E, 0x30] + v;
          ReplaceHead(0x30, u, 0x7E, 0x31, 0x2F);
          ReplaceHead(0x7E, [0x30] + u, 0x7E, 0x31, 0x2F);
          ReplacePair(v, 0x7E, 0x30, 0x7E);
        }
      }
    }
  }

  /** The raw tokens of a pointer from the one that starts at i. */
  function RawFrom(p: bytes, i: nat): (raw: seq<bytes>)
    requires i <= |p|
    ensures raw != []
    decreases |p| - i
  {
    var j := NextSlash(p, i);
    [p[i..j]] + if j == |p| then [] else RawFrom(p, j + 1)
  }

  ghost predicate Tokens(raw: seq<bytes>, ts: seq<bytes>) {
    |raw| == |ts| && forall k | 0 <= k < |raw| :: IsReferenceToken(raw[k]) && ts[k] == ReferenceText(raw[k])
  }

  lemma SlashedStep(raw: seq<bytes>)
    requires raw != []
    ensures Slashed(raw) == [0x2F] + raw[0] + Slashed(raw[1..]) && Slashed([]) == []
  {
  }

  lemma RawParts(p: bytes, i: nat)
    requires i <= |p|
    ensures var j := NextSlash(p, i); RawFrom(p, i) == [p[i..j]] + if j == |p| then [] else RawFrom(p, j + 1)
  {
  }

  lemma SlashInFront(p: bytes, i: nat, j: nat)
    requires 0 < i <= j <= |p| && p[i - 1] == 0x2F
    ensures p[i - 1..] == [0x2F] + p[i..j] + p[j..]
  {
  }

  lemma {:induction false} RawSlashed(p: bytes, i: nat)
    requires 0 < i <= |p| && p[i - 1] == 0x2F
    ensures Slashed(RawFrom(p, i)) == p[i - 1..]
    decreases |p| - i
  {
    hide Slashed, RawFrom;
    var j := NextSlash(p, i);
    var more := if j == |p| then [] else RawFrom(p, j + 1);
    RawParts(p, i);
    SlashedStep([p[i..j]] + more);
    assert ([p[i..j]] + more)[1..] == more;
    SlashInFront(p, i, j);
    if j < |p| {
      RawSlashed(p, j + 1);
    }
  }

  ghost predicate Reads(raw: seq<bytes>, ts: Option<seq<bytes>>) {
    if ts.Some? then Tokens(raw, ts.value) else exists k :: 0 <= k < |raw| && !IsReferenceToken(raw[k])
  }

  lemma ReadsMore(first: bytes, raw: seq<bytes>, ts: Option<seq<bytes>>)
    requires Reads(raw, ts)
    ensures Reads([first] + raw, if IsReferenceToken(first) then Joined([ReferenceText(first)], ts) else None)
  {
    hide IsReferenceToken, ReferenceText;
    if !IsReferenceToken(first) {
      assert ([first] + raw)[0] == first;
    } else if ts.None? {
      var k :| 0 <= k < |raw| && !IsReferenceToken(raw[k]);
      assert ([first] + raw)[k + 1] == raw[k];
    }
  }

  lemma {:induction false} RawTokens(p: bytes, i: nat)
    requires 0 < i <= |p| && p[i - 1] == 0x2F
    ensures Reads(RawFrom(p, i), TokensFrom(p, i))
    decreases |p| - i
  {
    hide Unescape, ReferenceText, IsReferenceToken, Reads;
    var j := NextSlash(p, i);
    ReadsReferenceToken(p[i..j]);
    if j < |p| {
      RawTokens(p, j + 1);
      ReadsMore(p[i..j], RawFrom(p, j + 1), TokensFrom(p, j + 1));
    } else {
      NothingRead();
      ReadsMore(p[i..j], [], Some([]));
      assert [p[i..j]] + [] == [p[i..j]] && [ReferenceText(p[i..j])] + [] == [ReferenceText(p[i..j])];
    }
  }

  lemma NothingRead()
    ensures Reads([], Some([]))
  {
  }

  lemma RawStep(p: bytes, i: nat, j: nat)
    requires i <= j <= |p| && 0x2F !in p[i..j] && (j < |p| ==> p[j] == 0x2F)
    ensures RawFrom(p, i) == [p[i..j]] + if j == |p| then [] else RawFrom(p, j + 1)
  {
    SlashFound(p, i, j);
  }

  lemma {:induction false} RawOfSlashed(raw: seq<bytes>, before: bytes)
    requires raw != [] && forall k | 0 <= k < |raw| :: 0x2F !in raw[k]
    ensures var p := before + Slashed(raw); |before| < |p| && p[|before|] == 0x2F && RawFrom(p, |before| + 1) == raw
    decreases |raw|
  {
    hide Slashed, RawFrom;
    var rest, p := Slashed(raw[1..]), before + Slashed(raw);
    var longer := before + [0x2F] + raw[0];
    SlashedStep(raw);
    Spelled(before, raw[0], rest);
    assert p == longer + rest;
    if raw[1..] == [] {
      assert rest == [] by {
        SlashedStep(raw);
      }
    } else {
      RawOfSlashed(raw[1..], longer);
    }
    RawStep(p, |before| + 1, |longer|);
    assert raw == [raw[0]] + raw[1..];
  }

  lemma OneReading(raw: seq<bytes>, ts: seq<bytes>, us: seq<bytes>)
    requires Tokens(raw, ts) && Tokens(raw, us)
    ensures ts == us
  {
    hide IsReferenceToken, ReferenceText;
  }

  lemma TokensPlain(raw: seq<bytes>, ts: seq<bytes>)
    requires Tokens(raw, ts)
    ensures forall k | 0 <= k < |raw| :: IsReferenceToken(raw[k]) && 0x2F !in raw[k]
  {
    hide ReferenceText;
  }

  lemma LettersRead(raw: seq<bytes>, ts: seq<bytes>)
    requires Tokens(raw, ts)
    ensures TokensOfPointer(Slashed(raw)) == Some(ts)
  {
    hide TokensFrom, RawFrom, IsReferenceToken, ReferenceText, Tokens;
    var p := Slashed(raw);
    if raw == [] {
      NoTokens(ts);
    } else {
      TokensPlain(raw, ts);
      RawOfSlashed(raw, []);
      assert [] + p == p;
      RawTokens(p, 1);
      OneReading(raw, ts, TokensFrom(p, 1).value);
    }
  }

  lemma NoTokens(ts: seq<bytes>)
    ensures Tokens([], ts) <==> ts == []
  {
  }

  /** A pointer denotes the tokens ts exactly when it is a slash before each of some raw tokens whose texts they are. */
  lemma PointerToTheLetter(p: bytes, ts: seq<bytes>)
    ensures TokensOfPointer(p) == Some(ts) <==> exists raw :: p == Slashed(raw) && Tokens(raw, ts)
  {
    hide TokensFrom, RawFrom, Tokens;
    if TokensOfPointer(p) == Some(ts) {
      if p == [] {
        NoTokens(ts);
        assert Slashed([]) == [];
      } else {
        RawTokens(p, 1);
        RawSlashed(p, 1);
        assert p[0..] == p;
        assert p == Slashed(RawFrom(p, 1)) && Tokens(RawFrom(p, 1), ts);
      }
    }
    if raw :| p == Slashed(raw) && Tokens(raw, ts) {
      LettersRead(raw, ts);
    }
  }

  // ---- Array indexes ------------------------------------------------------------------------------------

  datatype ArrayIndex = InvalidIndex | NumberIndex(n: nat) | DashIndex

  /** The number written by the first n digits. */
  function DigitsValue(s: bytes, n: nat): nat
    requires n <= |s| && Decimal.AllDigits(s)
  {
    if n == 0 then 0 else 10 * DigitsValue(s, n - 1) + (s[n - 1] - DIGIT0)
  }

  /** What a token means as an array index: a dash, or digits without a leading zero that fit an int. */
  function IndexOf(s: bytes): ArrayIndex {
    if s == [MINUS] then DashIndex
    else if s != [] && Decimal.AllDigits(s) && (s[0] == DIGIT0 ==> |s| == 1) && DigitsValue(s, |s|) <= MAX_INT then NumberIndex(DigitsValue(s, |s|))
    else InvalidIndex
  }

  lemma {:induction false} DigitsGrow(s: bytes, n: nat, m: nat)
    requires n <= m <= |s| && Decimal.AllDigits(s)
    ensures DigitsValue(s, n) <= DigitsValue(s, m)
  {
    if n < m {
      DigitsGrow(s, n, m - 1);
    }
  }

  lemma {:induction false} DigitsAreNat(s: bytes, n: nat)
    requires n <= |s| && Decimal.AllDigits(s)
    ensures DigitsValue(s, n) == Decimal.NatOf(s[..n])
  {
    if n > 0 {
      DigitsAreNat(s, n - 1);
      assert s[..n][..n - 1] == s[..n - 1];
    }
  }

  /** An index is the decimal, without a leading zero, of a number that fits 63 bits. */
  lemma IndexToTheLetter(s: bytes, n: nat)
    ensures IndexOf(s) == NumberIndex(n) <==>
            Numerals.Figures(s) && (s[0] == 0x30 ==> |s| == 1) &&
            n == Decimal.NatOf(s) && n < 0x8000_0000_0000_0000
    ensures IndexOf(s) == DashIndex <==> s == [0x2D]
  {
    hide Decimal.NatOf, DigitsValue, Numerals.Figures;
    Numerals.FiguresAreDigits(s);
    if Decimal.AllDigits(s) {
      DigitsAreNat(s, |s|);
      assert s[..|s|] == s;
    }
  }

  method ClassifyPointerIndex(s: bytes) returns (index: ArrayIndex)
    ensures index == IndexOf(s)
  {
    if s == [MINUS] {
      return DashIndex;
    }
    if s == [] || (|s| > 1 && s[0] == DIGIT0) {
      return InvalidIndex;
    }
    var i := 0;
    while i < |s|
      invariant 0 <= i <= |s| && forall k | 0 <= k < i :: IsDigit(s[k])
    {
      if !IsDigit(s[i]) {
        return InvalidIndex;
      }
      i := i + 1;
    }
    i := 0;
    var n: nat := 0;
    while i < |s|
      invariant 0 <= i <= |s| && n == DigitsValue(s, i) <= MAX_INT
    {
      n := 10 * n + (s[i] - DIGIT0);
      i := i + 1;
      if n > MAX_INT {
        DigitsGrow(s, i, |s|);
        return InvalidIndex;
      }
    }
    return NumberIndex(n);
  }

  // ---- Reading a pointer ------------------------------------------------------------------------------

  /** The token s, or nothing when one of its tildes starts no escape. */
  method UnescapePointerToken(s: bytes) returns (t: Option<bytes>)
    ensures t == Unescape(s, 0)
  {
    var first := 0;
    while first < |s| && s[first] != TILDE
      invariant 0 <= first <= |s| && forall k | 0 <= k < first :: s[k] != TILDE
    {
      first := first + 1;
    }
    PlainPrefix(s, 0, first);
    var out, i := s[..first], first;
    while i < |s|
      invariant first <= i <= |s| && Unescape(s, 0) == Joined(out, Unescape(s, i))
    {
      if s[i] != TILDE {
        JoinedMore(out, s[i], Unescape(s, i + 1));
        out, i := out + [s[i]], i + 1;
      } else if ByteAt(s, i + 1, DIGIT0) {
        JoinedMore(out, TILDE, Unescape(s, i + 2));
        out, i := out + [TILDE], i + 2;
      } else if ByteAt(s, i + 1, DIGIT1) {
        JoinedMore(out, SLASH, Unescape(s, i + 2));
        out, i := out + [SLASH], i + 2;
      } else {
        return None;
      }
    }
    JoinedMore(out, SLASH, None);
    return Some(out);
  }

  lemma {:induction false} PlainPrefix(s: bytes, i: nat, j: nat)
    requires i <= j <= |s| && forall k | i <= k < j :: s[k] != TILDE
    ensures Unescape(s, i) == Joined(s[i..j], Unescape(s, j))
    decreases j - i
  {
    if i < j {
      PlainPrefix(s, i + 1, j);
      assert s[i..j] == [s[i]] + s[i + 1..j];
      assert Unescape(s, j).Some? ==> s[i..j] + Unescape(s, j).value == [s[i]] + (s[i + 1..j] + Unescape(s, j).value);
    } else {
      assert Unescape(s, j).Some? ==> s[i..j] + Unescape(s, j).value == Unescape(s, j).value;
    }
  }

  /** The end of the token that starts at `start`, and the start of the next one. */
  method PointerToken(p: bytes, start: nat) returns (end: nat, next: nat)
    requires start <= |p|
    ensures end == NextSlash(p, start) && next == end + 1
  {
    end := start;
    while end < |p| && p[end] != SLASH
      invariant start <= end <= |p| && NextSlash(p, start) == NextSlash(p, end)
    {
      end := end + 1;
    }
    next := end + 1;
  }

  /** Every tilde from i on starts an escape. */
  predicate TildesFine(p: bytes, i: nat)
    requires i <= |p|
    decreases |p| - i
  {
    i == |p| ||
    if p[i] != TILDE then TildesFine(p, i + 1)
    else (ByteAt(p, i + 1, DIGIT0) || ByteAt(p, i + 1, DIGIT1)) && TildesFine(p, i + 2)
  }

  lemma {:induction false} TokenTildes(p: bytes, i: nat, k: nat, j: nat)
    requires i <= |p| && i <= k <= j == NextSlash(p, i)
    ensures Unescape(p[i..j], k - i).Some? ==> (TildesFine(p, k) <==> TildesFine(p, j))
    ensures Unescape(p[i..j], k - i).None? ==> !TildesFine(p, k)
    decreases j - k
  {
    if k < j {
      var n := if p[k] == TILDE then 2 else 1;
      if k + n <= j {
        TokenTildes(p, i, k + n, j);
      }
    }
  }

  /** One pass over the tildes decides the syntax of every token. */
  lemma {:induction false} SyntaxByTildes(p: bytes, i: nat)
    requires i <= |p|
    ensures TokensFrom(p, i).Some? <==> TildesFine(p, i)
    decreases |p| - i
  {
    var j := NextSlash(p, i);
    TokenTildes(p, i, i, j);
    if j < |p| {
      SyntaxByTildes(p, j + 1);
    }
  }

  method ValidatePointerSyntax(p: bytes) returns (ok: bool)
    ensures ok == TokensOfPointer(p).Some?
  {
    if p == [] {
      return true;
    }
    if p[0] != SLASH {
      return false;
    }
    SyntaxByTildes(p, 1);
    var i := 1;
    while i < |p|
      invariant 1 <= i <= |p| && TildesFine(p, 1) == TildesFine(p, i)
    {
      if p[i] == TILDE {
        if i + 1 >= |p| || (p[i + 1] != DIGIT0 && p[i + 1] != DIGIT1) {
          return false;
        }
        i := i + 1;
      }
      i := i + 1;
    }
    return true;
  }

  datatype CompiledToken = CompiledToken(text: bytes, hash: nat, index: ArrayIndex)

  predicate CompiledOf(m: Mixer, tokens: seq<CompiledToken>, ts: seq<bytes>) {
    |tokens| == |ts| &&
    forall k | 0 <= k < |ts| :: tokens[k] == CompiledToken(ts[k], HashOf(m, ts[k]), IndexOf(ts[k]))
  }

  /** The end of the token at `start`, or nothing on a tilde that starts no escape. */
  method ScanToken(p: bytes, start: nat) returns (end: Option<nat>)
    requires start <= |p|
    ensures end.Some? ==> end.value == NextSlash(p, start)
    ensures end.None? ==> TokensFrom(p, start).None?
  {
    SyntaxByTildes(p, start);
    var i := start;
    while i < |p| && p[i] != SLASH
      invariant start <= i <= |p| && NextSlash(p, start) == NextSlash(p, i) && TildesFine(p, start) == TildesFine(p, i)
    {
      if p[i] == TILDE {
        if i + 1 >= |p| || (p[i + 1] != DIGIT0 && p[i + 1] != DIGIT1) {
          return None;
        }
        i := i + 2;
      } else {
        i := i + 1;
      }
    }
    return Some(i);
  }

  /** Compiles a pointer; fails exactly on bad syntax. */
  method CompilePointer(m: Mixer, p: bytes) returns (tokens: seq<CompiledToken>, ok: bool)
    ensures ok == TokensOfPointer(p).Some?
    ensures ok ==> CompiledOf(m, tokens, TokensOfPointer(p).value)
  {
    hide HashOf, IndexOf;
    tokens := [];
    if p == [] {
      return [], true;
    }
    if p[0] != SLASH {
      return [], false;
    }
    var start := 1;
    ghost var ts: seq<bytes> := [];
    assert TokensFrom(p, 1).Some? ==> [] + TokensFrom(p, 1).value == TokensFrom(p, 1).value;
    while true
      invariant 1 <= start <= |p| && CompiledOf(m, tokens, ts)
      invariant TokensFrom(p, 1) == Joined(ts, TokensFrom(p, start))
      decreases |p| - start
    {
      var end := ScanToken(p, start);
      if end.None? {
        return [], false;
      }
      var text := UnescapePointerToken(p[start..end.value]);
      if text.None? {
        return [], false;
      }
      var index := ClassifyPointerIndex(text.value);
      var hash := HashKeyContent(m, text.value);
      tokens := tokens + [CompiledToken(text.value, hash, index)];
      ghost var before := ts;
      ts := ts + [text.value];
      if end.value == |p| {
        return tokens, true;
      }
      JoinedMore(before, text.value, TokensFrom(p, end.value + 1));
      start := end.value + 1;
    }
  }

  // ---- What a pointer denotes -----------------------------------------------------------------------------

  datatype Outcome = Found(value: Value) | Absent | BadIndex

  /** Follows the tokens down the tree; in an object the last duplicate wins. */
  function Resolve(src: bytes, v: Value, ts: seq<bytes>): Outcome
    requires WellFormed(src, v)
    decreases |ts|, 0
  {
    if ts == [] then Found(v)
    else match v
      case Scalar(_, _, _, _) => Absent
      case Arr(_, _, items) => ResolveItem(src, items, ts[0], ts[1..])
      case Obj(_, _, members) => ResolveMember(src, members, ts[0], |members|, ts[1..])
  }

  function ResolveItem(src: bytes, items: seq<Value>, t: bytes, rest: seq<bytes>): Outcome
    requires WellFormedItems(src, items)
    decreases |rest|, 1
  {
    match IndexOf(t)
    case InvalidIndex => BadIndex
    case DashIndex => Absent
    case NumberIndex(n) =>
      if n >= |items| then Absent else WellFormedItem(src, items, n); Resolve(src, items[n], rest)
  }

  /** The outcome decided by the first n members. */
  function ResolveMember(src: bytes, members: seq<Member>, t: bytes, n: nat, rest: seq<bytes>): Outcome
    requires WellFormedMembers(src, members) && n <= |members|
    decreases |rest|, 1
  {
    MembersTokens(src, members);
    match LastNamed(src, members, t, n)
    case None => Absent
    case Some(k) => Resolve(src, members[k].value, rest)
  }

  lemma MembersTokens(src: bytes, members: seq<Member>)
    requires WellFormedMembers(src, members)
    ensures AllTokens(src, members)
  {
    forall k | 0 <= k < |members|
      ensures WellFormedMember(src, members[k])
    {
      WellFormedMemberAt(src, members, k);
    }
  }

  // ---- Over a tape -----------------------------------------------------------------------------------------

  datatype Target = At(entry: nat) | Nowhere | PointerError

  /** The tape target that stands for an outcome. */
  predicate Points(hash: Option<Mixer>, src: bytes, entries: seq<Entry>, r: Target, o: Outcome) {
    match o
    case Found(x) => r.At? && Node(hash, src, entries, r.entry, x)
    case Absent => r == Nowhere
    case BadIndex => r == PointerError
  }

  lemma ResolveStep(src: bytes, v: Value, ts: seq<bytes>)
    requires WellFormed(src, v) && ts != []
    ensures v.Scalar? ==> Resolve(src, v, ts) == Absent
    ensures v.Arr? ==> WellFormedItems(src, v.items) && Resolve(src, v, ts) == ResolveItem(src, v.items, ts[0], ts[1..])
    ensures v.Obj? ==> WellFormedMembers(src, v.members) && Resolve(src, v, ts) == ResolveMember(src, v.members, ts[0], |v.members|, ts[1..])
  {
  }

  lemma NoneNamed(src: bytes, members: seq<Member>, key: bytes)
    requires AllTokens(src, members)
    ensures LastNamed(src, members, key, 0).None?
  {
  }

  lemma NodeWellFormed(hash: Option<Mixer>, src: bytes, entries: seq<Entry>, at: nat, v: Value)
    requires Node(hash, src, entries, at, v)
    ensures WellFormed(src, v)
  {
  }

  /** One token, from the entry `cur` that stores x. */
  method StepToken(src: bytes, entries: seq<Entry>, cur: nat, text: bytes, queryHash: nat, index: ArrayIndex, mixer: Mixer,
                   ghost hash: Option<Mixer>, ghost x: Value, ghost rest: seq<bytes>)
    returns (r: Target, ghost y: Value)
    requires Node(hash, src, entries, cur, x) && (hash.Some? ==> hash.value == mixer)
    requires queryHash == HashOf(mixer, text) && index == IndexOf(text)
    ensures WellFormed(src, y)
    ensures r.At? ==> Node(hash, src, entries, r.entry, y) && Resolve(src, x, [text] + rest) == Resolve(src, y, rest)
    ensures !r.At? ==> Points(hash, src, entries, r, Resolve(src, x, [text] + rest))
  {
    hide StoredAt, Layout, WellFormed, WellFormedMember, WellFormedItems, WellFormedMembers, Countable, Name, HashOf, IndexOf, Resolve, KeyAt, LastNamed;
    y := x;
    ResolveStep(src, x, [text] + rest);
    assert ([text] + rest)[1..] == rest;
    HeaderOf(hash, src, entries, cur, x);
    var e := entries[cur];
    if e.Kind() == KIND_OBJECT {
      TokensOf(src, x);
      var count := e.Count();
      if count == 0 {
        NoneNamed(src, x.members, text);
        return Nowhere, x;
      }
      var found;
      if IsEscaped(e) {
        found := GetHashedQuery(src, entries, cur, text, queryHash, count, mixer, x);
      } else {
        found := GetPlain(src, entries, cur, text, count, x);
      }
      if found.None? {
        return Nowhere, x;
      }
      ghost var k := LastNamed(src, x.members, text, count).value;
      MemberNode(hash, src, entries, cur, x, k);
      return At(found.value), x.members[k].value;
    } else if e.Kind() == KIND_ARRAY {
      if index.InvalidIndex? {
        return PointerError, x;
      }
      if index.DashIndex? {
        return Nowhere, x;
      }
      var found := ElementAt(src, entries, cur, index.n, hash, x);
      if found.None? {
        return Nowhere, x;
      }
      ItemNode(hash, src, entries, cur, x, index.n);
      return At(found.value), x.items[index.n];
    } else {
      return Nowhere, x;
    }
  }

  /** Resolves a compiled pointer over the tape. */
  method PointerTokens(src: bytes, entries: seq<Entry>, at: nat, tokens: seq<CompiledToken>, mixer: Mixer,
                       ghost hash: Option<Mixer>, ghost v: Value, ghost ts: seq<bytes>)
    returns (r: Target)
    requires Node(hash, src, entries, at, v) && (hash.Some? ==> hash.value == mixer) && CompiledOf(mixer, tokens, ts)
    ensures Points(hash, src, entries, r, Resolve(src, v, ts))
  {
    hide Node, HashOf, IndexOf;
    NodeWellFormed(hash, src, entries, at, v);
    var cur, k := at, 0;
    ghost var x := v;
    assert ts[0..] == ts;
    while k < |tokens|
      invariant 0 <= k <= |tokens| && Node(hash, src, entries, cur, x) && WellFormed(src, x)
      invariant Resolve(src, v, ts) == Resolve(src, x, ts[k..])
    {
      hide Resolve, WellFormed;
      assert ts[k..] == [ts[k]] + ts[k + 1..];
      var t := tokens[k];
      ghost var y;
      r, y := StepToken(src, entries, cur, t.text, t.hash, t.index, mixer, hash, x, ts[k + 1..]);
      if !r.At? {
        return;
      }
      cur, x, k := r.entry, y, k + 1;
    }
    return At(cur);
  }

  /** Resolves a pointer as it reads it: bad syntax anywhere is an error, even after a lookup has failed. */
  method Pointer(src: bytes, entries: seq<Entry>, at: nat, p: bytes, mixer: Mixer, ghost hash: Option<Mixer>, ghost v: Value)
    returns (r: Target)
    requires Node(hash, src, entries, at, v) && (hash.Some? ==> hash.value == mixer)
    ensures WellFormed(src, v)
    ensures var ts := TokensOfPointer(p);
            if ts.None? then r == PointerError else Points(hash, src, entries, r, Resolve(src, v, ts.value))
  {
    hide Node, HashOf, IndexOf, WellFormed, Unescape, NextSlash, TildesFine;
    NodeWellFormed(hash, src, entries, at, v);
    if p == [] {
      return At(at);
    }
    if p[0] != SLASH {
      return PointerError;
    }
    ghost var ts := TokensFrom(p, 1);
    var cur, i := at, 1;
    ghost var x := v;
    while i <= |p|
      invariant 1 <= i <= |p| + 1 && Node(hash, src, entries, cur, x) && WellFormed(src, x)
      invariant ts.Some? <==> (i <= |p| ==> TokensFrom(p, i).Some?)
      invariant ts.Some? ==> Resolve(src, v, ts.value) == Resolve(src, x, if i <= |p| then TokensFrom(p, i).value else [])
    {
      hide Resolve;
      var j, next := PointerToken(p, i);
      var text := UnescapePointerToken(p[i..j]);
      if text.None? {
        return PointerError;
      }
      var index := ClassifyPointerIndex(text.value);
      var queryHash := HashKeyContent(mixer, text.value);
      ghost var more := if j < |p| then TokensFrom(p, j + 1) else Some([]);
      JoinedMore([text.value], text.value, None);
      assert TokensFrom(p, i) == Joined([text.value], more);
      ghost var y;
      r, y := StepToken(src, entries, cur, text.value, queryHash, index, mixer, hash, x, if more.Some? then more.value else []);
      if r == PointerError {
        return;
      }
      if r == Nowhere {
        var ok := ValidatePointerSyntax(p);
        return if ok then Nowhere else PointerError;
      }
      cur, x, i := r.entry, y, next;
    }
    return At(cur);
  }
}
