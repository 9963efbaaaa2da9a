/**
 Finding the end of one value in a stream that arrives in pieces: the frame keeps a constant amount of
 state, and scanning piece by piece finds the end that one scan over the whole stream would find.
 */
module Frames {
  import opened Json
  import opened Scan
  import opened Brackets
  import opened Skip
  import opened Window

  /** What a frame remembers between pieces. */
  datatype Frame =
    | ContainerFrame(l: Lex)
    | StringFrame(esc: bool)
    | NumberFrame(numE: bool)
    | LiteralFrame(left: nat)

  predicate IsSign(c: byte) {
    c == PLUS || c == MINUS
  }

  predicate IsExponentMark(c: byte) {
    c == 0x65 || c == 0x45
  }

  /** The first byte from i on that no longer looks like part of the number; a sign stays in it only after an e. */
  function RunEnd(s: bytes, i: nat, numE: bool): (r: Option<nat>)
    ensures r.Some? ==> i <= r.value < |s|
    decreases |s| - i
  {
    if i >= |s| then None
    else if IsDigit(s[i]) || s[i] == DOT then RunEnd(s, i + 1, false)
    else if IsExponentMark(s[i]) then RunEnd(s, i + 1, true)
    else if IsSign(s[i]) && numE then RunEnd(s, i + 1, false)
    else Some(i)
  }

  /** Where the framed value ends in the stream s, when the frame has consumed everything before p. */
  function FrameEnd(s: bytes, p: nat, f: Frame): Option<nat> {
    match f
    case ContainerFrame(l) => CloseOf(s, p, l)
    case StringFrame(esc) => StringClose(s, p, esc)
    case NumberFrame(numE) => RunEnd(s, p, numE)
    case LiteralFrame(left) => if p + left <= |s| then Some(p + left) else None
  }

  /** The frame a value's first byte selects. */
  function InitFrame(c: byte): Frame {
    if c == QUOTE then StringFrame(false)
    else if c == LBRACE || c == LBRACKET then ContainerFrame(Lex(1, false, false))
    else if c == TRUE[0] || c == NULL[0] then LiteralFrame(3)
    else if c == FALSE[0] then LiteralFrame(4)
    else NumberFrame(false)
  }

  // ---- Numbers stay inside their run -----------------------------------------------------------------------

  /** The run from i on has not ended before j. */
  predicate RunReaches(s: bytes, i: nat, numE: bool, j: nat) {
    var r := RunEnd(s, i, numE); r.None? || r.value >= j
  }

  lemma {:induction false} DigitsRun(s: bytes, i: nat, j: nat, numE: bool)
    requires i <= |s| && j >= SkipDigits(s, i) && RunReaches(s, SkipDigits(s, i), if SkipDigits(s, i) > i then false else numE, j)
    ensures RunReaches(s, i, numE, j)
    decreases |s| - i
  {
    if i < |s| && IsDigit(s[i]) {
      DigitsRun(s, i + 1, j, false);
    }
  }

  lemma ExponentRun(s: bytes, i: nat, integer: bool)
    requires i <= |s| && ScanExponent(s, i, integer).NumberToken?
    ensures RunReaches(s, i, false, ScanExponent(s, i, integer).end)
  {
    if i < |s| && IsExponentMark(s[i]) {
      var j := if i + 1 < |s| && IsSign(s[i + 1]) then i + 2 else i + 1;
      var end := SkipDigits(s, j);
      assert RunReaches(s, end, false, end);
      DigitsRun(s, j, end, i + 1 == j);
    }
  }

  lemma FractionRun(s: bytes, i: nat)
    requires i <= |s| && ScanFraction(s, i).NumberToken?
    ensures RunReaches(s, i, false, ScanFraction(s, i).end)
  {
    hide ScanExponent;
    if i < |s| && s[i] == DOT {
      var k := SkipDigits(s, i + 1);
      ExponentRun(s, k, false);
      DigitsRun(s, i + 1, ScanFraction(s, i).end, false);
    } else {
      ExponentRun(s, i, true);
    }
  }

  /** A number token never extends beyond the run that starts after its first byte. */
  lemma NumberRun(s: bytes, i: nat)
    requires i < |s| && ScanNumber(s, i).NumberToken?
    ensures RunReaches(s, i + 1, false, ScanNumber(s, i).end)
  {
    hide ScanFraction, RunEnd;
    var end := ScanNumber(s, i).end;
    var j := if s[i] == MINUS then i + 1 else i;
    var k := if s[j] == DIGIT0 then j + 1 else SkipDigits(s, j);
    FractionRun(s, k);
    if s[j] != DIGIT0 {
      DigitsRun(s, j + 1, end, false);
    }
    if s[i] == MINUS {
      OneDigit(s, i + 1, end);
    }
  }

  lemma OneDigit(s: bytes, i: nat, j: nat)
    requires DigitAt(s, i) && RunReaches(s, i + 1, false, j)
    ensures RunReaches(s, i, false, j)
  {
  }

  /** A run the window shows the end of, or a run that fills the window. */
  lemma {:induction false} RunWindow(w: bytes, s: bytes, a: nat, i: nat, numE: bool, j: nat)
    requires Within(w, s, a) && i <= j <= |w| && RunReaches(w, i, numE, j)
    ensures RunReaches(s, a + i, numE, a + j)
    decreases |w| - i
  {
    if i < j {
      var c := w[i];
      RunWindow(w, s, a, i + 1, IsExponentMark(c), j);
    }
  }

  // ---- The frame and the grammar ------------------------------------------------------------------------------

  lemma OpenerOpens(s: bytes, i: nat)
    requires i < |s| && IsOpener(s[i])
    ensures CloseOf(s, i, Lex(0, false, false)) == CloseOf(s, i + 1, Lex(1, false, false))
  {
  }

  /** A valid value that shows its own end is framed exactly; a number lies within its frame. */
  lemma FrameCovers(s: bytes, i: nat, max: nat)
    requires i < |s| && ParseValue(s, i, 0, max).Good?
    ensures var end, f := ParseValue(s, i, 0, max).end, FrameEnd(s, i + 1, InitFrame(s[i]));
            if SelfDelimiting(s[i]) then f == Some(end) else f.None? || f.value >= end
  {
    hide RunEnd, CloseOf, StringClose, ScanNumber, ScanString, ParseMembers, ParseElements;
    if IsOpener(s[i]) {
      ContainerCloses(s, i, 0, max);
      OpenerOpens(s, i);
    } else if s[i] == QUOTE {
      ValidString(s, i + 1);
    } else if !SelfDelimiting(s[i]) {
      NumberRun(s, i);
    }
  }

  // ---- The resumable scanner ------------------------------------------------------------------------------------

  datatype FrameMode = ContainerMode | StringMode | NumberMode | LiteralMode

  lemma CloseByte(s: bytes, i: nat, l: Lex, c: byte)
    requires i < |s| && s[i] == c
    ensures CloseOf(s, i, l) == if Closes(l, c) && l.depth == 1 then Some(i + 1) else CloseOf(s, i + 1, StepByte(l, c))
  {
  }

  class ValueFrame {
    var mode: FrameMode
    var depth: int
    var inStr: bool
    var esc: bool
    var numE: bool
    var litLeft: nat
    var framed: nat

    ghost predicate Valid()
      reads this
    {
      framed > 0 && (mode.ContainerMode? && !inStr ==> !esc)
    }

    ghost function State(): Frame
      reads this
    {
      match mode
      case ContainerMode => ContainerFrame(Lex(depth, inStr, esc))
      case StringMode => StringFrame(esc)
      case NumberMode => NumberFrame(numE)
      case LiteralMode => LiteralFrame(litLeft)
    }

    constructor Init(c: byte)
      ensures Valid() && State() == InitFrame(c) && framed == 1
    {
      framed, esc, inStr, numE, depth, litLeft := 1, false, false, false, 0, 0;
      if c == QUOTE {
        mode := StringMode;
      } else if c == LBRACE || c == LBRACKET {
        mode, depth := ContainerMode, 1;
      } else if c == TRUE[0] || c == NULL[0] {
        mode, litLeft := LiteralMode, 3;
      } else if c == FALSE[0] {
        mode, litLeft := LiteralMode, 4;
      } else {
        mode := NumberMode;
      }
    }

    /** Advances through a string, carrying a pending escape to the next piece. */
    method ScanStringBody(w: bytes, start: nat, ghost s: bytes, ghost a: nat) returns (i: nat, done: bool)
      requires Within(w, s, a) && start <= |w|
      modifies this`esc
      ensures start <= i <= |w| && (done ==> start < i && !esc)
      ensures done ==> StringClose(s, a + start, old(esc)) == Some(a + i)
      ensures !done ==> i == |w| && StringClose(s, a + start, old(esc)) == StringClose(s, a + i, esc)
    {
      i := start;
      while i < |w|
        invariant start <= i <= |w| && StringClose(s, a + start, old(esc)) == StringClose(s, a + i, esc)
        decreases |w| - i
      {
        assert s[a + i] == w[i];
        if esc {
          esc := false;
          i := i + 1;
        } else {
          var j := FindStringSpecial(w, i);
          forall q | a + i <= q < a + j
            ensures s[q] != QUOTE && s[q] != BACKSLASH
          {
            assert w[q - a] == s[q] && !IsStringSpecial(w[q - a]);
          }
          NoSpecial(s, a + i, a + j);
          if j >= |w| {
            return |w|, false;
          }
          assert s[a + j] == w[j];
          if w[j] == QUOTE {
            return j + 1, true;
          }
          if w[j] == BACKSLASH {
            esc := true;
          }
          i := j + 1;
        }
      }
      return i, false;
    }

    method ScanContainer(w: bytes, start: nat, ghost s: bytes, ghost a: nat) returns (done: bool)
      requires Valid() && mode.ContainerMode? && Within(w, s, a) && start + framed <= |w|
      modifies this
      ensures Valid() && mode == old(mode) && old(framed) <= framed && start + framed <= |w|
      ensures done ==> CloseOf(s, old(a + start + framed), old(Lex(depth, inStr, esc))) == Some(a + start + framed)
      ensures !done ==> start + framed == |w| &&
                        CloseOf(s, old(a + start + framed), old(Lex(depth, inStr, esc))) == CloseOf(s, a + |w|, Lex(depth, inStr, esc))
    {
      hide StringClose, CloseOf;
      var i := start + framed;
      ghost var goal := CloseOf(s, a + i, Lex(depth, inStr, esc));
      while i < |w|
        invariant start + old(framed) <= i <= |w| && framed == old(framed) && mode == old(mode) && (!inStr ==> !esc)
        invariant goal == CloseOf(s, a + i, Lex(depth, inStr, esc))
        decreases |w| - i, inStr
      {
        if inStr {
          InString(s, a + i, depth, esc);
          var finished;
          i, finished := ScanStringBody(w, i, s, a);
          if finished {
            inStr := false;
          } else {
            InString(s, a + i, depth, esc);
          }
        } else {
          var c := w[i];
          CloseByte(s, a + i, Lex(depth, inStr, esc), c);
          i := i + 1;
          if c == QUOTE {
            inStr := true;
          } else if c == LBRACE || c == LBRACKET {
            depth := depth + 1;
          } else if c == RBRACE || c == RBRACKET {
            depth := depth - 1;
            if depth == 0 {
              framed := i - start;
              return true;
            }
          }
        }
      }
      framed := i - start;
      return false;
    }

    method ScanRun(w: bytes, start: nat, ghost s: bytes, ghost a: nat) returns (done: bool)
      requires Valid() && mode.NumberMode? && Within(w, s, a) && start + framed <= |w|
      modifies this`numE, this`framed
      ensures Valid() && old(framed) <= framed && start + framed <= |w|
      ensures done ==> start + framed < |w| && RunEnd(s, old(a + start + framed), old(numE)) == Some(a + start + framed)
      ensures !done ==> start + framed == |w| && RunEnd(s, old(a + start + framed), old(numE)) == RunEnd(s, a + |w|, numE)
    {
      var i := start + framed;
      ghost var goal := RunEnd(s, a + i, numE);
      while i < |w|
        invariant start + old(framed) <= i <= |w| && framed == old(framed) && goal == RunEnd(s, a + i, numE)
      {
        var c := w[i];
        assert s[a + i] == c;
        if IsDigit(c) || c == DOT {
          numE := false;
        } else if IsExponentMark(c) {
          numE := true;
        } else if IsSign(c) {
          if !numE {
            framed := i - start;
            return true;
          }
          numE := false;
        } else {
          framed := i - start;
          return true;
        }
        i := i + 1;
      }
      framed := i - start;
      return false;
    }

    /**
     Scans on through the window w, which shows the stream s from a on; the value starts at `start`. Either the
     frame's end in the stream is found, or the whole window is consumed and the end is still where it was.
     */
    method Scan(w: bytes, start: nat, ghost s: bytes, ghost a: nat) returns (done: bool)
      requires Valid() && Within(w, s, a) && start + framed <= |w|
      modifies this
      ensures Valid() && old(framed) <= framed && start + framed <= |w| && mode == old(mode)
      ensures done ==> FrameEnd(s, old(a + start + framed), old(State())) == Some(a + start + framed)
      ensures done && mode.NumberMode? ==> start + framed < |w|
      ensures !done && mode.LiteralMode? ==> litLeft > 0
      ensures !done ==> start + framed == |w| && FrameEnd(s, old(a + start + framed), old(State())) == FrameEnd(s, a + |w|, State())
    {
      match mode
      case StringMode =>
        var end;
        end, done := ScanStringBody(w, start + framed, s, a);
        framed := end - start;
      case NumberMode =>
        done := ScanRun(w, start, s, a);
      case LiteralMode =>
        var i := start + framed;
        while i < |w| && litLeft > 0
          invariant start + framed <= i <= |w| && i + litLeft == start + framed + old(litLeft) && framed == old(framed) && mode.LiteralMode?
        {
          i := i + 1;
          litLeft := litLeft - 1;
        }
        framed := i - start;
        done := litLeft == 0;
      case ContainerMode =>
        done := ScanContainer(w, start, s, a);
    }
  }

  /** Scanning a stream in any pieces finds the end that one scan over all of it finds. */
  method ScanInPieces(s: bytes, cuts: seq<nat>) returns (once: Option<nat>, pieces: Option<nat>)
    requires s != [] && forall k | 0 <= k < |cuts| :: (if k == 0 then 1 else cuts[k - 1]) <= cuts[k] <= |s|
    ensures once == pieces == FrameEnd(s, 1, InitFrame(s[0]))
  {
    hide FrameEnd;
    var f := new ValueFrame.Init(s[0]);
    var done := f.Scan(s, 0, s, 0);
    NothingLeft(s, f.State());
    once := if done then Some(f.framed) else None;
    f := new ValueFrame.Init(s[0]);
    done := false;
    var k := 0;
    while k < |cuts| && !done
      invariant 0 <= k <= |cuts| && f.Valid() && fresh(f) && f.framed <= |s|
      invariant !done ==> f.framed == (if k == 0 then 1 else cuts[k - 1]) && FrameEnd(s, 1, InitFrame(s[0])) == FrameEnd(s, f.framed, f.State())
      invariant done ==> FrameEnd(s, 1, InitFrame(s[0])) == Some(f.framed)
    {
      done := f.Scan(s[..cuts[k]], 0, s, 0);
      k := k + 1;
    }
    if !done {
      done := f.Scan(s, 0, s, 0);
      NothingLeft(s, f.State());
    }
    pieces := if done then Some(f.framed) else None;
  }

  lemma NothingLeft(s: bytes, f: Frame)
    ensures !f.LiteralFrame? || f.left > 0 ==> FrameEnd(s, |s|, f).None?
  {
  }
}
