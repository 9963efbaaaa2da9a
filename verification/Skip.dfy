/**
 Skipping values in validated JSON: the byte-wise skipper, and the container skipper that takes 64
 bytes at a time and looks at single brackets only when the block may hold the end or an excess.
 */
module Skip {
  import opened Json
  import opened Scan
  import opened Brackets

  // ---- Strings ----------------------------------------------------------------------------------------

  /** One past the first unescaped quote from i on. */
  function StringClose(s: bytes, i: nat, esc: bool): (r: Option<nat>)
    ensures r.Some? ==> i < r.value <= |s|
    decreases |s| - i
  {
    if i >= |s| then None
    else if esc then StringClose(s, i + 1, false)
    else if s[i] == QUOTE then Some(i + 1)
    else StringClose(s, i + 1, s[i] == BACKSLASH)
  }

  lemma {:induction false} NoSpecial(s: bytes, i: nat, j: nat)
    requires i <= j <= |s| && forall k | i <= k < j :: s[k] != QUOTE && s[k] != BACKSLASH
    ensures StringClose(s, i, false) == StringClose(s, j, false)
    decreases j - i
  {
    if i < j {
      NoSpecial(s, i + 1, j);
    }
  }

  /** Inside a string the bracket counter waits for the closing quote. */
  lemma {:induction false} InString(s: bytes, i: nat, depth: int, esc: bool)
    ensures CloseOf(s, i, Lex(depth, true, esc)) ==
            var e := StringClose(s, i, esc); if e.None? then None else CloseOf(s, e.value, Lex(depth, false, false))
    decreases |s| - i
  {
    if i < |s| {
      InString(s, i + 1, depth, !esc && s[i] == BACKSLASH);
    }
  }

  /** A valid string ends at its first unescaped quote. */
  lemma {:induction false} ValidString(s: bytes, i: nat)
    requires i <= |s| && ScanString(s, i).StringToken?
    ensures StringClose(s, i, false) == Some(ScanString(s, i).end)
    decreases |s| - i
  {
    hide EscapeLength, Utf8Length;
    if s[i] == BACKSLASH {
      var n := EscapeLength(s, i);
      EscapeBytes(s, i);
      assert StringClose(s, i, false) == StringClose(s, i + 2, false);
      if n > 2 {
        NoSpecial(s, i + 2, i + 6);
        if n == 12 {
          assert StringClose(s, i + 6, false) == StringClose(s, i + 8, false);
          NoSpecial(s, i + 8, i + 12);
        }
      }
      ValidString(s, i + n);
    } else if s[i] != QUOTE {
      Utf8Quiet(s, i);
      NoSpecial(s, i, i + Utf8Length(s, i));
      ValidString(s, i + Utf8Length(s, i));
    }
  }

  /** The position after the string that opens at `quote`. */
  method SkipValidString(src: bytes, quote: nat) returns (end: Option<nat>)
    requires quote < |src|
    ensures end == StringClose(src, quote + 1, false)
  {
    var i := quote + 1;
    while i <= |src|
      invariant StringClose(src, quote + 1, false) == StringClose(src, i, false)
      decreases |src| + 2 - i
    {
      var j := FindStringSpecial(src, i);
      assert forall k | i <= k < j :: !IsStringSpecial(src[k]);
      NoSpecial(src, i, j);
      if j >= |src| {
        return None;
      }
      if src[j] == QUOTE {
        return Some(j + 1);
      }
      i := if src[j] == BACKSLASH then j + 2 else j + 1;
    }
    return None;
  }

  // ---- Byte-wise skipping -------------------------------------------------------------------------------

  predicate EndsNumber(c: byte) {
    c == COMMA || c == RBRACKET || c == RBRACE || IsSpace(c)
  }

  /** Where the byte-wise skipper stops, on any bytes at all; None when the value does not end. */
  function SkipEnd(s: bytes, i: nat): Option<nat>
    requires i <= |s|
  {
    if i == |s| then None
    else if IsOpener(s[i]) then CloseOf(s, i, Lex(0, false, false))
    else if s[i] == QUOTE then StringClose(s, i + 1, false)
    else if s[i] == TRUE[0] || s[i] == NULL[0] then if i + 4 <= |s| then Some(i + 4) else None
    else if s[i] == FALSE[0] then if i + 5 <= |s| then Some(i + 5) else None
    else if s[i] == MINUS || IsDigit(s[i]) then Some(NumberStop(s, i + 1))
    else None
  }

  function NumberStop(s: bytes, i: nat): (j: nat)
    requires i <= |s|
    ensures i <= j <= |s|
    decreases |s| - i
  {
    if i < |s| && !EndsNumber(s[i]) then NumberStop(s, i + 1) else i
  }

  lemma {:induction false} StopsAt(s: bytes, i: nat, j: nat)
    requires i <= j <= |s| && NumberBytes(s, i, j) && (j < |s| ==> EndsNumber(s[j]))
    ensures NumberStop(s, i) == j
    decreases j - i
  {
    if i < j {
      StopsAt(s, i + 1, j);
    }
  }

  /** In validated JSON a number is followed by a delimiter or nothing. */
  predicate Delimited(s: bytes, end: nat) {
    end == |s| || (end < |s| && EndsNumber(s[end]))
  }

  /** On validated input the skipper stops where the grammar does. */
  lemma SkipsTheValue(s: bytes, i: nat, d: nat, max: nat)
    requires i <= |s| && ParseValue(s, i, d, max).Good? && Delimited(s, ParseValue(s, i, d, max).end)
    ensures SkipEnd(s, i) == Some(ParseValue(s, i, d, max).end)
  {
    hide ScanString, ScanNumber, StringClose, CloseOf;
    if IsOpener(s[i]) {
      ContainerCloses(s, i, d, max);
    } else if s[i] == QUOTE {
      ValidString(s, i + 1);
    } else if s[i] != TRUE[0] && s[i] != FALSE[0] && s[i] != NULL[0] {
      TokenBytes(s, i);
      NumberStart(s, i);
      StopsAt(s, i + 1, ScanNumber(s, i).end);
    }
  }

  lemma NumberStart(s: bytes, i: nat)
    requires i < |s| && ScanNumber(s, i).NumberToken?
    ensures s[i] == MINUS || IsDigit(s[i])
  {
  }

  /** One byte outside strings, or the end. */
  lemma CloseOfStep(s: bytes, i: nat, depth: int)
    requires i <= |s|
    ensures CloseOf(s, i, Lex(depth, false, false)) ==
            if i == |s| then None
            else if s[i] == QUOTE then CloseOf(s, i + 1, Lex(depth, true, false))
            else if IsOpener(s[i]) then CloseOf(s, i + 1, Lex(depth + 1, false, false))
            else if !IsCloser(s[i]) then CloseOf(s, i + 1, Lex(depth, false, false))
            else if depth == 1 then Some(i + 1)
            else CloseOf(s, i + 1, Lex(depth - 1, false, false))
  {
  }

  /** The position after the container at i, by counting brackets of either kind. */
  method SkipValidContainer(src: bytes, i: nat) returns (end: nat, ok: bool)
    requires i < |src| && IsOpener(src[i])
    ensures CloseOf(src, i, Lex(0, false, false)) == if ok then Some(end) else None
  {
    hide StringClose, CloseOf;
    var depth := 1;
    end := i + 1;
    CloseOfStep(src, i, 0);
    while end < |src|
      invariant i < end <= |src| && CloseOf(src, i, Lex(0, false, false)) == CloseOf(src, end, Lex(depth, false, false))
      decreases |src| - end
    {
      CloseOfStep(src, end, depth);
      if src[end] == QUOTE {
        InString(src, end + 1, depth, false);
        var next := SkipValidString(src, end);
        if next.None? {
          return end, false;
        }
        end := next.value;
      } else if IsOpener(src[end]) {
        depth, end := depth + 1, end + 1;
      } else if IsCloser(src[end]) {
        depth, end := depth - 1, end + 1;
        if depth == 0 {
          return end, true;
        }
      } else {
        end := end + 1;
      }
    }
    CloseOfStep(src, end, depth);
    return end, false;
  }

  /** The end of the input, whitespace, a comma or a closing bracket. */
  predicate FollowedWell(s: bytes, end: nat) {
    end == |s| || (end < |s| && s[end] in [0x20, 0x09, 0x0A, 0x0D, 0x2C, 0x5D, 0x7D])
  }

  /** The position after the value at i: its end in the grammar whenever it is valid and delimited. */
  method SkipValidValue(src: bytes, i: nat) returns (end: nat, ok: bool)
    requires i <= |src|
    ensures forall d, max | ParseValue(src, i, d, max).Good? && FollowedWell(src, ParseValue(src, i, d, max).end) ::
              ok && end == ParseValue(src, i, d, max).end
    ensures SkipEnd(src, i) == if ok then Some(end) else None
  {
    hide ParseValue;
    forall d, max | ParseValue(src, i, d, max).Good? && FollowedWell(src, ParseValue(src, i, d, max).end)
      ensures SkipEnd(src, i) == Some(ParseValue(src, i, d, max).end)
    {
      SkipsTheValue(src, i, d, max);
    }
    end := i;
    if i == |src| {
      return i, false;
    }
    var c := src[i];
    if IsOpener(c) {
      end, ok := SkipValidContainer(src, i);
      return;
    } else if c == QUOTE {
      var next := SkipValidString(src, i);
      return if next.Some? then next.value else i, next.Some?;
    } else if c == TRUE[0] || c == NULL[0] {
      return if i + 4 <= |src| then i + 4 else i, i + 4 <= |src|;
    } else if c == FALSE[0] {
      return if i + 5 <= |src| then i + 5 else i, i + 5 <= |src|;
    } else if c == MINUS || IsDigit(c) {
      end := i + 1;
      while end < |src|
        invariant i < end <= |src| && NumberStop(src, i + 1) == NumberStop(src, end)
      {
        if EndsNumber(src[end]) {
          return end, true;
        }
        end := end + 1;
      }
      return end, true;
    }
    return i, false;
  }

  // ---- Sixty-four bytes at a time -------------------------------------------------------------------------

  const BLOCK: nat := 64

  /** The counter's state after n more bytes; past the end of the input nothing happens. */
  function Run(s: bytes, i: nat, n: nat, l: Lex): Lex {
    if n == 0 then l
    else if i + n - 1 < |s| then StepByte(Run(s, i, n - 1, l), s[i + n - 1])
    else Run(s, i, n - 1, l)
  }

  /** How many of the first k bits are set. */
  function Count(mask: seq<bool>, k: nat): (n: nat)
    requires k <= |mask|
    ensures n <= k
  {
    if k == 0 then 0 else Count(mask, k - 1) + if mask[k - 1] then 1 else 0
  }

  lemma {:induction false} CountGrows(mask: seq<bool>, j: nat, k: nat)
    requires j <= k <= |mask|
    ensures Count(mask, j) <= Count(mask, k)
  {
    if j < k {
      CountGrows(mask, j, k - 1);
    }
  }

  /** The bracket masks of the block at i, outside strings. */
  ghost predicate Masks(s: bytes, i: nat, l: Lex, open: seq<bool>, closes: seq<bool>) {
    |open| == |closes| == BLOCK &&
    forall k | 0 <= k < BLOCK ::
      open[k] == (i + k < |s| && Opens(Run(s, i, k, l), s[i + k])) &&
      closes[k] == (i + k < |s| && Closes(Run(s, i, k, l), s[i + k]))
  }

  /** Depth after the first k bytes of a block, by counting bits. */
  function DepthAt(nest: int, open: seq<bool>, closes: seq<bool>, k: nat): int
    requires k <= |open| == |closes|
  {
    nest + Count(open, k) - Count(closes, k)
  }

  lemma {:induction false} DepthByCount(s: bytes, i: nat, l: Lex, open: seq<bool>, closes: seq<bool>, k: nat)
    requires Masks(s, i, l, open, closes) && k <= BLOCK
    ensures Run(s, i, k, l).depth == DepthAt(l.depth, open, closes, k)
  {
    if k > 0 {
      DepthByCount(s, i, l, open, closes, k - 1);
    }
  }

  /** Nothing to stop at among the first n bits: no closing bracket reaches zero and no opening one exceeds the budget. */
  predicate Uneventful(nest: int, open: seq<bool>, closes: seq<bool>, budget: int, n: nat)
    requires n <= |open| == |closes|
  {
    forall k | 0 <= k < n ::
      (open[k] ==> DepthAt(nest, open, closes, k + 1) <= budget) && (closes[k] ==> DepthAt(nest, open, closes, k + 1) != 0)
  }

  lemma {:induction false} PassBits(s: bytes, i: nat, l: Lex, open: seq<bool>, closes: seq<bool>, budget: int, n: nat)
    requires Masks(s, i, l, open, closes) && n <= BLOCK && Uneventful(l.depth, open, closes, budget, n)
    ensures Match(s, i, l, budget) == Match(s, i + n, Run(s, i, n, l), budget)
  {
    if n > 0 {
      PassBits(s, i, l, open, closes, budget, n - 1);
      DepthByCount(s, i, l, open, closes, n);
      assert open[n - 1] ==> DepthAt(l.depth, open, closes, n) <= budget;
      assert closes[n - 1] ==> DepthAt(l.depth, open, closes, n) != 0;
    }
  }

  /** The first event of a block ends the search. */
  lemma StopAtBit(s: bytes, i: nat, l: Lex, open: seq<bool>, closes: seq<bool>, budget: int, p: nat)
    requires Masks(s, i, l, open, closes) && p < BLOCK && Uneventful(l.depth, open, closes, budget, p)
    ensures closes[p] && DepthAt(l.depth, open, closes, p + 1) == 0 ==> Match(s, i, l, budget) == Closed(i + p + 1)
    ensures open[p] && DepthAt(l.depth, open, closes, p + 1) > budget ==> Match(s, i, l, budget) == TooDeep(i + p)
  {
    PassBits(s, i, l, open, closes, budget, p);
    DepthByCount(s, i, l, open, closes, p);
    DepthByCount(s, i, l, open, closes, p + 1);
  }

  ghost predicate MasksTo(s: bytes, i: nat, l: Lex, open: seq<bool>, closes: seq<bool>, n: nat) {
    |open| == |closes| == n &&
    forall k | 0 <= k < n ::
      open[k] == (i + k < |s| && Opens(Run(s, i, k, l), s[i + k])) &&
      closes[k] == (i + k < |s| && Closes(Run(s, i, k, l), s[i + k]))
  }

  /** One byte more, of which the masks only need the string state. */
  lemma MasksNext(s: bytes, i: nat, l: Lex, open: seq<bool>, closes: seq<bool>, n: nat, at: Lex)
    requires MasksTo(s, i, l, open, closes, n) && at.inStr == Run(s, i, n, l).inStr && at.esc == Run(s, i, n, l).esc
    ensures i + n < |s| ==> MasksTo(s, i, l, open + [Opens(at, s[i + n])], closes + [Closes(at, s[i + n])], n + 1)
    ensures i + n < |s| ==> var next := StepByte(at, s[i + n]); next.inStr == Run(s, i, n + 1, l).inStr && next.esc == Run(s, i, n + 1, l).esc
    ensures i + n >= |s| ==> MasksTo(s, i, l, open + [false], closes + [false], n + 1) && Run(s, i, n + 1, l) == Run(s, i, n, l)
  {
  }

  /** The masks of one block, and the string state after it. */
  method BlockMasks(src: bytes, i: nat, inStr: bool, esc: bool, ghost nest: int) returns (open: seq<bool>, closes: seq<bool>, inStr': bool, esc': bool)
    ensures var l := Lex(nest, inStr, esc);
            Masks(src, i, l, open, closes) && inStr' == Run(src, i, BLOCK, l).inStr && esc' == Run(src, i, BLOCK, l).esc
  {
    ghost var l := Lex(nest, inStr, esc);
    open, closes := [], [];
    inStr', esc' := inStr, esc;
    var k: nat := 0;
    while k < BLOCK
      invariant k <= BLOCK && inStr' == Run(src, i, k, l).inStr && esc' == Run(src, i, k, l).esc && MasksTo(src, i, l, open, closes, k)
    {
      hide Run, MasksTo, StepByte, Opens, Closes;
      var at := Lex(0, inStr', esc');
      MasksNext(src, i, l, open, closes, k, at);
      if i + k < |src| {
        open, closes := open + [Opens(at, src[i + k])], closes + [Closes(at, src[i + k])];
        var next := StepByte(at, src[i + k]);
        inStr', esc' := next.inStr, next.esc;
      } else {
        open, closes := open + [false], closes + [false];
      }
      k := k + 1;
    }
  }

  /** The first set bit at or after `from`. */
  method NextBit(mask: seq<bool>, from: nat) returns (p: nat)
    requires from <= |mask|
    ensures from <= p <= |mask| && (p < |mask| ==> mask[p]) && Count(mask, p) == Count(mask, from)
    ensures forall k | from <= k < p :: !mask[k]
  {
    p := from;
    while p < |mask| && !mask[p]
      invariant from <= p <= |mask| && Count(mask, p) == Count(mask, from)
      invariant forall k | from <= k < p :: !mask[k]
    {
      p := p + 1;
    }
  }

  /** Among the closing brackets, the first that returns the count to zero, found from popcounts. */
  method FindClose(nest: int, open: seq<bool>, closes: seq<bool>, budget: int) returns (p: nat)
    requires |open| == |closes| && nest + Count(open, |open|) <= budget && forall k | 0 <= k < |open| :: !open[k] || !closes[k]
    ensures p <= |open| && Uneventful(nest, open, closes, budget, p)
    ensures p < |open| ==> closes[p] && DepthAt(nest, open, closes, p + 1) == 0
  {
    var ordinal := 0;
    p := NextBit(closes, 0);
    assert forall k | 0 <= k < |open| && open[k] :: DepthAt(nest, open, closes, k + 1) <= budget by {
      forall k | 0 <= k < |open| && open[k]
        ensures DepthAt(nest, open, closes, k + 1) <= budget
      {
        CountGrows(open, k + 1, |open|);
      }
    }
    while p < |closes|
      invariant p <= |closes| && (p < |closes| ==> closes[p]) && ordinal == Count(closes, p) && Uneventful(nest, open, closes, budget, p)
      decreases |closes| - p
    {
      if nest + Count(open, p) - ordinal == 1 {
        return;
      }
      ordinal := ordinal + 1;
      p := NextBit(closes, p + 1);
    }
  }

  /** Bracket by bracket: the first event of the block, and the depth there. */
  method WalkBits(nest: int, open: seq<bool>, closes: seq<bool>, budget: int) returns (p: nat, at: int)
    requires |open| == |closes| && forall k | 0 <= k < |open| :: !open[k] || !closes[k]
    ensures p <= |open| && Uneventful(nest, open, closes, budget, p)
    ensures p < |open| ==> at == DepthAt(nest, open, closes, p + 1) && ((open[p] && at > budget) || (closes[p] && at == 0))
    ensures p == |open| ==> at == DepthAt(nest, open, closes, p)
  {
    at := nest;
    p := 0;
    while p < |open|
      invariant p <= |open| && at == DepthAt(nest, open, closes, p) && Uneventful(nest, open, closes, budget, p)
    {
      if open[p] {
        at := at + 1;
        if at > budget {
          return;
        }
      } else if closes[p] {
        at := at - 1;
        if at == 0 {
          return;
        }
      }
      p := p + 1;
    }
  }

  lemma NoEvent(nest: int, open: seq<bool>, closes: seq<bool>, budget: int)
    requires |open| == |closes| && nest - Count(closes, |closes|) > 0 && nest + Count(open, |open|) <= budget
    ensures Uneventful(nest, open, closes, budget, |open|)
  {
    forall k | 0 <= k < |open|
      ensures (open[k] ==> DepthAt(nest, open, closes, k + 1) <= budget) && (closes[k] ==> DepthAt(nest, open, closes, k + 1) != 0)
    {
      CountGrows(open, k + 1, |open|);
      CountGrows(closes, k + 1, |open|);
    }
  }

  /**
   Skips a container in blocks, given masks that recognise escapes inside strings only, as validated bytes have them.
   It stops exactly where counting one byte at a time does: after the closing bracket, at the bracket that exceeds the budget, or at the end of the input.
   */
  method SkipComposite(src: bytes, start: nat, depth: nat, maxDepth: nat) returns (end: nat, ok: bool)
    requires start <= |src|
    ensures match Match(src, start, Lex(0, false, false), maxDepth - depth)
            case Closed(e) => ok && end == e
            case TooDeep(at) => !ok && end == at
            case Unclosed => ok && end == |src|
  {
    hide Match, Run, Uneventful;
    var i, nest, inStr, esc := start, 0, false, false;
    var budget := maxDepth - depth;
    while i < |src|
      invariant Match(src, start, Lex(0, false, false), budget) == Match(src, i, Lex(nest, inStr, esc), budget)
      decreases |src| - i
    {
      ghost var l := Lex(nest, inStr, esc);
      var open, closes, inStr', esc' := BlockMasks(src, i, inStr, esc, nest);
      var opening, closing := Count(open, BLOCK), Count(closes, BLOCK);
      var p, at := BLOCK, nest + opening - closing;
      if nest - closing > 0 && nest + opening <= budget {
        NoEvent(nest, open, closes, budget);
      } else if nest + opening <= budget {
        p := FindClose(nest, open, closes, budget);
        if p < BLOCK {
          StopAtBit(src, i, l, open, closes, budget, p);
          return i + p + 1, true;
        }
      } else {
        p, at := WalkBits(nest, open, closes, budget);
        if p < BLOCK {
          StopAtBit(src, i, l, open, closes, budget, p);
          return if open[p] then i + p else i + p + 1, !open[p];
        }
      }
      PassBits(src, i, l, open, closes, budget, BLOCK);
      DepthByCount(src, i, l, open, closes, BLOCK);
      i, nest, inStr, esc := i + BLOCK, at, inStr', esc';
    }
    PastTheEnd(src, i, Lex(nest, inStr, esc), budget);
    return |src|, true;
  }

  lemma PastTheEnd(s: bytes, i: nat, l: Lex, budget: int)
    requires i >= |s|
    ensures Match(s, i, l, budget) == Unclosed
  {
  }

  /** On a valid container within the depth budget, both skippers and the grammar stop at the same byte. */
  method SkipBothWays(src: bytes, i: nat, depth: nat, maxDepth: nat) returns (blocks: nat, bytewise: nat)
    requires i < |src| && IsOpener(src[i]) && ParseValue(src, i, depth, maxDepth).Good?
    ensures blocks == bytewise == ParseValue(src, i, depth, maxDepth).end
  {
    hide Match, CloseOf, ParseValue;
    ContainerCloses(src, i, depth, maxDepth);
    var ok;
    blocks, ok := SkipComposite(src, i, depth, maxDepth);
    bytewise, ok := SkipValidValue(src, i);
  }
}
