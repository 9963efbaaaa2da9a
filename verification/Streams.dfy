/**
 The streaming reader: a rolling buffer over a source that hands out its bytes in pieces of its own
 choosing. The values delivered, and where they lie in the input, depend on the bytes alone.
 */
module Streams {
  import opened Json
  import opened Scan
  import opened Window
  import opened Frames
  import opened Validate

  // ---- What the reader is for -----------------------------------------------------------------------------

  datatype Delivery = EndOfStream | Failure | Delivered(start: nat, end: nat)

  /** The next value of the stream from position p on. */
  function NextValue(data: bytes, p: nat): (d: Delivery)
    requires p <= |data|
    ensures d.Delivered? ==> p <= d.start < d.end <= |data|
  {
    var j := SkipSpace(data, p);
    if j == |data| then EndOfStream
    else
      var v := ParseValue(data, j, 0, DEFAULT_MAX_DEPTH);
      if v.Bad? then Failure else Delivered(j, v.end)
  }

  /** All spans delivered from p on, up to the end of the stream or the first invalid value. */
  function Spans(data: bytes, p: nat): seq<(nat, nat)>
    requires p <= |data|
    decreases |data| - p
  {
    var d := NextValue(data, p);
    if d.Delivered? then [(d.start, d.end)] + Spans(data, d.end) else []
  }

  /** Whether the values of the stream end at one that is invalid, not at the end of the stream. */
  predicate EndsInFailure(data: bytes, p: nat)
    requires p <= |data|
    decreases |data| - p
  {
    var d := NextValue(data, p);
    if d.Delivered? then EndsInFailure(data, d.end) else d.Failure?
  }

  lemma SpansNext(data: bytes, p: nat)
    requires p <= |data|
    ensures var d := NextValue(data, p);
            if d.Delivered? then Spans(data, p) == [(d.start, d.end)] + Spans(data, d.end) && EndsInFailure(data, p) == EndsInFailure(data, d.end)
            else Spans(data, p) == [] && EndsInFailure(data, p) == d.Failure?
  {
  }

  // ---- The source --------------------------------------------------------------------------------------------

  /** A source that may split its bytes in any way and may announce the end with the last bytes or after them. */
  class Source {
    const data: bytes
    var taken: nat

    ghost predicate Valid()
      reads this
    {
      taken <= |data|
    }

    constructor (data: bytes)
      ensures Valid() && this.data == data && taken == 0
    {
      this.data, taken := data, 0;
    }

    method Read(room: nat) returns (chunk: bytes, eof: bool)
      requires Valid() && room > 0
      modifies this`taken
      ensures Valid() && |chunk| <= room && taken == old(taken) + |chunk| && chunk == data[old(taken)..taken]
      ensures eof ==> taken == |data|
      ensures |chunk| > 0 || eof
    {
      if taken == |data| {
        return [], true;
      }
      var n: nat :| 0 < n <= room && n <= |data| - taken;
      chunk := data[taken..taken + n];
      taken := taken + n;
      eof := *;
      eof := eof && taken == |data|;
    }
  }

  // ---- A window that settles a value ------------------------------------------------------------------------

  /** What the window says about the value at i is what the stream says, and its end is confirmed, unless the window is known to be the last. */
  ghost predicate Settled(w: bytes, s: bytes, a: nat, i: nat, last: bool)
    requires Within(w, s, a) && i < |w|
  {
    var r, q := ParseValue(w, i, 0, DEFAULT_MAX_DEPTH), ParseValue(s, a + i, 0, DEFAULT_MAX_DEPTH);
    (r.Good? <==> q.Good?) && (r.Good? ==> q.end == a + r.end && (SelfDelimiting(w[i]) || r.end < |w| || last))
  }

  lemma Confirmed(w: bytes, s: bytes, a: nat, i: nat, last: bool)
    requires Within(w, s, a) && i < |w| && Settled(w, s, a, i, last)
    ensures var r, q := ParseValue(w, i, 0, DEFAULT_MAX_DEPTH), ParseValue(s, a + i, 0, DEFAULT_MAX_DEPTH);
            (r.Good? <==> q.Good?) && (r.Good? ==> q.end == a + r.end && (SelfDelimiting(w[i]) || r.end < |w| || last))
  {
  }

  lemma SameByte(w: bytes, s: bytes, a: nat, i: nat)
    requires Within(w, s, a) && i < |w|
    ensures a + i < |s| && w[i] == s[a + i]
  {
  }

  lemma SettledAtEnd(w: bytes, s: bytes, a: nat, i: nat)
    requires Within(w, s, a) && i < |w| && Final(w, s, a)
    ensures Settled(w, s, a, i, true)
  {
    ValueWindow(w, s, a, i, 0, DEFAULT_MAX_DEPTH);
  }

  lemma SettledLast(w: bytes, s: bytes, a: nat, i: nat, last: bool)
    requires Within(w, s, a) && i < |w| && Settled(w, s, a, i, false)
    ensures Settled(w, s, a, i, last)
  {
  }

  lemma RunFrame(s: bytes, p: nat)
    ensures FrameEnd(s, p, NumberFrame(false)) == RunEnd(s, p, false)
  {
  }

  /** A value found in the window with its boundary confirmed is the stream's. */
  lemma FoundInWindow(w: bytes, s: bytes, a: nat, i: nat)
    requires Within(w, s, a) && i < |w|
    requires var r := ParseValue(w, i, 0, DEFAULT_MAX_DEPTH); r.Good? && (SelfDelimiting(w[i]) || r.end < |w|)
    ensures Settled(w, s, a, i, false)
  {
    ValueWindow(w, s, a, i, 0, DEFAULT_MAX_DEPTH);
  }

  /** A frame whose end lies in the window settles the value, valid or not. */
  lemma SettledByFrame(w: bytes, s: bytes, a: nat, i: nat, p: nat)
    requires Within(w, s, a) && i < |w| && p <= |w| && (SelfDelimiting(w[i]) || p < |w|)
    requires FrameEnd(s, a + i + 1, InitFrame(w[i])) == Some(a + p)
    ensures Settled(w, s, a, i, false)
  {
    hide FrameEnd, RunEnd, ParseMembers, ParseElements, ScanNumber, ScanString;
    assert s[a + i] == w[i];
    ValueWindow(w, s, a, i, 0, DEFAULT_MAX_DEPTH);
    var q := ParseValue(s, a + i, 0, DEFAULT_MAX_DEPTH);
    if q.Good? {
      FrameCovers(s, a + i, DEFAULT_MAX_DEPTH);
    }
    if ParseValue(w, i, 0, DEFAULT_MAX_DEPTH).Good? && !SelfDelimiting(w[i]) {
      NumberRun(w, i);
      RunWindow(w, s, a, i + 1, false, ParseValue(w, i, 0, DEFAULT_MAX_DEPTH).end);
      RunFrame(w, i + 1);
      RunFrame(s, a + i + 1);
    }
  }

  /** A zero followed by a digit ends there. */
  lemma SettledByZero(w: bytes, s: bytes, a: nat, i: nat, z: nat)
    requires Within(w, s, a) && i < |w| && (z == i || (z == i + 1 && w[i] == MINUS))
    requires z + 1 < |w| && w[z] == DIGIT0 && IsDigit(w[z + 1])
    ensures Settled(w, s, a, i, false)
  {
    assert ScanNumber(w, i) == NumberToken(z + 1, true);
    assert ParseValue(w, i, 0, DEFAULT_MAX_DEPTH) == Good(Scalar(Number, i, z + 1, true), z + 1);
    ValueWindow(w, s, a, i, 0, DEFAULT_MAX_DEPTH);
  }

  lemma {:induction false} SkipTwice(s: bytes, i: nat, j: nat)
    requires i <= j <= |s| && SkipSpace(s, i) >= j
    ensures SkipSpace(s, j) == SkipSpace(s, i)
    decreases j - i
  {
    if i < j {
      SkipTwice(s, i + 1, j);
    }
  }

  lemma WithinMore(w: bytes, chunk: bytes, s: bytes, a: nat)
    requires Within(w, s, a) && a + |w| + |chunk| <= |s| && chunk == s[a + |w|..a + |w| + |chunk|]
    ensures Within(w + chunk, s, a)
  {
  }

  /** Skipping whitespace through a window is skipping it in the stream. */
  lemma GapInWindow(w: bytes, s: bytes, a: nat, i: nat)
    requires Within(w, s, a) && i <= |w|
    ensures var j := SkipSpace(w, i);
            SkipSpace(s, a + i) == (if j < |w| then a + j else SkipSpace(s, a + j))
  {
    SpaceWindow(w, s, a, i);
    if SkipSpace(w, i) == |w| {
      SkipTwice(s, a + i, a + |w|);
    }
  }

  lemma WithinDrop(w: bytes, s: bytes, a: nat, keep: nat)
    requires Within(w, s, a) && keep <= |w|
    ensures Within(w[keep..], s, a + keep)
  {
  }

  // ---- The reader -----------------------------------------------------------------------------------------------

  class Reader {
    const input: Source
    var buf: array<byte>
    var pos: nat
    var end: nat
    var valStart: int
    var valEnd: int
    var consumed: nat
    var eof: bool
    var hasValue: bool
    var failed: bool

    ghost predicate Valid()
      reads this, buf, input
    {
      input.Valid() && buf.Length > 0 && pos <= end <= buf.Length && consumed + end == input.taken &&
      Within(buf[..end], input.data, consumed) && (eof ==> input.taken == |input.data|)
    }

    /** Position in the stream of the next byte to look at. */
    ghost function Position(): nat
      reads this
    {
      consumed + pos
    }

    constructor (input: Source, size: nat)
      requires size > 0 && input.Valid() && input.taken == 0
      ensures Valid() && this.input == input && Position() == 0 && !failed && fresh(buf)
    {
      this.input := input;
      buf := new byte[size];
      pos, end, valStart, valEnd, consumed := 0, 0, 0, 0, 0;
      eof, hasValue, failed := false, false, false;
    }

    /** Makes room for at least one more byte, discarding what lies before `keep` or growing the buffer. */
    method MakeRoom(keep: nat) returns (keep': nat)
      requires Valid() && keep == pos
      modifies this, buf
      ensures Valid() && end < buf.Length && keep' == pos && (buf == old(buf) || fresh(buf))
      ensures consumed + keep' == old(consumed) + keep && consumed + end == old(consumed + end)
      ensures eof == old(eof) && failed == old(failed) && hasValue == old(hasValue)
    {
      keep' := keep;
      if end < buf.Length {
        return;
      }
      hide Within;
      ghost var before := buf[..end];
      if keep > 0 {
        WithinDrop(before, input.data, consumed, keep);
        forall k | 0 <= k < end - keep {
          buf[k] := buf[keep + k];
        }
        assert buf[..end - keep] == before[keep..];
        consumed, end, pos := consumed + keep, end - keep, pos - keep;
        valStart, valEnd := valStart - keep, valEnd - keep;
        keep' := 0;
      } else {
        var grown := new byte[2 * buf.Length];
        forall k | 0 <= k < end {
          grown[k] := buf[k];
        }
        assert grown[..end] == before;
        buf := grown;
      }
    }

    /** Reads more input; false when there is none. */
    method Fill(keep: nat) returns (more: bool, keep': nat)
      requires Valid() && keep == pos
      modifies this, buf, input
      ensures Valid() && keep' == pos && (buf == old(buf) || fresh(buf))
      ensures consumed + keep' == old(consumed) + keep && old(consumed + end) <= consumed + end
      ensures if more then old(consumed + end) < consumed + end else eof && consumed + end == old(consumed + end)
      ensures (old(eof) ==> eof) && failed == old(failed) && hasValue == old(hasValue)
    {
      hide Within;
      if eof {
        return false, keep;
      }
      keep' := MakeRoom(keep);
      var chunk, last := input.Read(buf.Length - end);
      ghost var before := buf[..end];
      forall k | 0 <= k < |chunk| {
        buf[end + k] := chunk[k];
      }
      assert buf[..end + |chunk|] == before + chunk;
      WithinMore(before, chunk, input.data, consumed);
      end := end + |chunk|;
      eof := last;
      more := |chunk| > 0;
    }

    /** Skips whitespace to the next value, refilling as needed. */
    method SkipGap() returns (i: nat, found: bool)
      requires Valid()
      modifies this, buf, input
      ensures Valid() && (buf == old(buf) || fresh(buf)) && failed == old(failed) && hasValue == old(hasValue)
      ensures i <= end && consumed + i == SkipSpace(input.data, old(Position()))
      ensures found ==> i < end && pos <= i
      ensures !found ==> i == end == pos && consumed + end == |input.data|
    {
      hide Within, SkipSpace;
      i := pos;
      while true
        invariant Valid() && (buf == old(buf) || fresh(buf)) && failed == old(failed) && hasValue == old(hasValue)
        invariant pos <= i <= end && SkipSpace(input.data, old(Position())) == SkipSpace(input.data, consumed + i)
        decreases |input.data| - input.taken, !eof
      {
        var w := buf[..end];
        GapInWindow(w, input.data, consumed, i);
        i := SkipSpaceWords(w, i);
        if i < end {
          return i, true;
        }
        pos := i;
        var more;
        more, i := Fill(i);
        if !more {
          return i, false;
        }
      }
    }

    /** Advances the frame of the value at `start`; true once the window settles it. */
    method ScanFrame(f: ValueFrame, start: nat) returns (framed: bool)
      requires Valid() && start < end && f.Valid() && start + f.framed <= end
      requires FrameEnd(input.data, consumed + start + 1, InitFrame(buf[start])) == FrameEnd(input.data, consumed + start + f.framed, f.State())
      requires f.mode.NumberMode? <==> !SelfDelimiting(buf[start])
      modifies f
      ensures f.Valid() && f.mode == old(f.mode) && start + f.framed <= end
      ensures framed ==> Settled(buf[..end], input.data, consumed, start, false)
      ensures !framed ==> FrameEnd(input.data, consumed + start + 1, InitFrame(buf[start])) == FrameEnd(input.data, consumed + start + f.framed, f.State())
    {
      hide FrameEnd, Settled;
      ghost var w := buf[..end];
      if f.mode.NumberMode? {
        var i := if buf[start] == MINUS then start + 1 else start;
        if i + 1 < end && buf[i] == DIGIT0 && IsDigit(buf[i + 1]) {
          SettledByZero(w, input.data, consumed, start, i);
          f.framed := i + 1 - start;
          return true;
        }
      }
      framed := f.Scan(buf[..end], start, input.data, consumed);
      if framed {
        SettledByFrame(w, input.data, consumed, start, start + f.framed);
      }
    }

    /** Validates the value at i in the window. */
    method ValidateAt(i: nat) returns (e: nat, ok: bool)
      requires Valid() && i < end
      ensures var r := ParseValue(buf[..end], i, 0, DEFAULT_MAX_DEPTH); ok == r.Good? && (ok ==> e == r.end)
    {
      var v := new Validator(buf[..end], i, DEFAULT_MAX_DEPTH);
      ok := v.Value(0);
      e := v.i;
    }

    /** Makes i..e the current value. */
    method Accept(i: nat, e: nat)
      requires Valid() && i < e <= end && pos <= i
      modifies this`valStart, this`valEnd, this`pos, this`hasValue
      ensures Valid() && hasValue && valStart == i && valEnd == e == pos
    {
      valStart, valEnd, pos, hasValue := i, e, e, true;
    }

    ghost predicate Outcome(ok: bool, d: Delivery)
      reads this
    {
      match d
      case EndOfStream => !ok && !failed && !hasValue
      case Failure => !ok && failed && !hasValue
      case Delivered(s, e) => ok && !failed && hasValue && consumed + valStart == s && consumed + valEnd == e == Position()
    }

    ghost function Expected(start: nat): Delivery
      reads this, input
      requires start <= |input.data|
    {
      var v := ParseValue(input.data, start, 0, DEFAULT_MAX_DEPTH);
      if v.Bad? then Failure else Delivered(start, v.end)
    }

    /** Decides on the value at i, once the window settles it. */
    method Judge(i: nat) returns (decided: bool, ok: bool)
      requires Valid() && pos <= i < end && !failed && !hasValue && Settled(buf[..end], input.data, consumed, i, eof)
      modifies this`valStart, this`valEnd, this`pos, this`hasValue, this`failed
      ensures Valid() && decided && Outcome(ok, Expected(consumed + i))
    {
      hide ParseValue, Within;
      var e, good := ValidateAt(i);
      if !good {
        failed := true;
        return true, false;
      }
      if e < end || eof || SelfDelimiting(buf[i]) {
        Accept(i, e);
        return true, true;
      }
      return false, false;
    }

    /** Delivers the value at i if the window already confirms it. */
    method TryWindow(i: nat) returns (ok: bool)
      requires Valid() && pos <= i < end && !failed && !hasValue
      modifies this`valStart, this`valEnd, this`pos, this`hasValue
      ensures Valid() && if ok then Outcome(true, Expected(consumed + i)) else pos == old(pos) && !hasValue
    {
      hide ParseValue, Settled, Within;
      var e, good := ValidateAt(i);
      ok := good && (e < end || eof || SelfDelimiting(buf[i]));
      if ok {
        if e < end || SelfDelimiting(buf[i]) {
          FoundInWindow(buf[..end], input.data, consumed, i);
          Confirmed(buf[..end], input.data, consumed, i, false);
        } else {
          SettledAtEnd(buf[..end], input.data, consumed, i);
          Confirmed(buf[..end], input.data, consumed, i, true);
        }
        Accept(i, e);
      }
    }

    /** Frames the value at i in the window; delivers it, or fails, once the frame or the end of input settles it. */
    method Decide(f: ValueFrame, i: nat) returns (decided: bool, ok: bool)
      requires Valid() && pos <= i < end && !failed && !hasValue && f.Valid() && i + f.framed <= end
      requires FrameEnd(input.data, consumed + i + 1, InitFrame(buf[i])) == FrameEnd(input.data, consumed + i + f.framed, f.State())
      requires f.mode.NumberMode? <==> !SelfDelimiting(buf[i])
      modifies f, this`valStart, this`valEnd, this`pos, this`hasValue, this`failed
      ensures Valid() && f.Valid() && f.mode == old(f.mode)
      ensures decided ==> Outcome(ok, Expected(consumed + i))
      ensures !decided ==> pos == old(pos) && !failed && !hasValue && !eof && i + f.framed <= end &&
                           FrameEnd(input.data, consumed + i + 1, InitFrame(buf[i])) == FrameEnd(input.data, consumed + i + f.framed, f.State())
    {
      hide FrameEnd, ParseValue, Settled, Within;
      var framed := ScanFrame(f, i);
      if framed {
        SettledLast(buf[..end], input.data, consumed, i, eof);
      } else if eof {
        SettledAtEnd(buf[..end], input.data, consumed, i);
      } else {
        return false, false;
      }
      decided, ok := Judge(i);
    }

    /** Frames, validates and delivers the value at `start`, reading on as long as its end is not confirmed. */
    method NextFramed(start: nat) returns (ok: bool)
      requires Valid() && pos <= start < end && !failed && !hasValue
      modifies this, buf, input
      ensures Valid() && (buf == old(buf) || fresh(buf))
      ensures Outcome(ok, Expected(old(consumed) + start))
    {
      hide FrameEnd, Expected, Outcome, Within;
      var i := start;
      SameByte(buf[..end], input.data, consumed, i);
      var f := new ValueFrame.Init(buf[i]);
      ghost var c := buf[i];
      while true
        invariant Valid() && (buf == old(buf) || fresh(buf)) && !failed && !hasValue && pos <= i < end && buf[i] == c
        invariant consumed + i == old(consumed) + start && f.Valid() && fresh(f) && i + f.framed <= end
        invariant f.mode.NumberMode? <==> !SelfDelimiting(c)
        invariant FrameEnd(input.data, consumed + i + 1, InitFrame(c)) == FrameEnd(input.data, consumed + i + f.framed, f.State())
        decreases |input.data| - input.taken, !eof
      {
        var decided;
        decided, ok := Decide(f, i);
        if decided {
          return;
        }
        pos := i;
        var more;
        more, i := Fill(i);
        SameByte(buf[..end], input.data, consumed, i);
      }
    }

    /** Advances to the next value of the stream. However the source splits its bytes, the outcome is the same. */
    method Next() returns (ok: bool)
      requires Valid()
      modifies this, buf, input
      ensures Valid() && (buf == old(buf) || fresh(buf))
      ensures old(failed) ==> !ok && failed
      ensures !old(failed) ==> Outcome(ok, NextValue(input.data, old(Position())))
    {
      if failed {
        return false;
      }
      hide ParseValue, Settled, Within, SkipSpace;
      hasValue := false;
      var i, found := SkipGap();
      if !found {
        return false;
      }
      ok := TryWindow(i);
      if ok {
        return;
      }
      ok := NextFramed(i);
    }

    /** The bytes of the current value. */
    method Bytes() returns (b: bytes)
      requires Valid() && hasValue && 0 <= valStart <= valEnd <= end
      ensures b == input.data[consumed + valStart..consumed + valEnd]
    {
      b := buf[valStart..valEnd];
      assert forall k | 0 <= k < |b| :: b[k] == buf[..end][valStart + k];
    }
  }

  /** Reads a whole stream: the spans delivered are those of its bytes, and the reader fails iff they stop at an invalid value. */
  method ReadAll(data: bytes, size: nat) returns (spans: seq<(nat, nat)>, failed: bool)
    requires size > 0
    ensures spans == Spans(data, 0)
    ensures failed <==> EndsInFailure(data, 0)
  {
    hide NextValue, Spans, EndsInFailure, Within;
    var source := new Source(data);
    var r := new Reader(source, size);
    spans := [];
    ghost var p := 0;
    while true
      invariant r.Valid() && fresh(r) && fresh(r.buf) && fresh(r.input) && r.input.data == data && !r.failed && r.Position() == p <= |data|
      invariant EndsInFailure(data, 0) == EndsInFailure(data, p)
      invariant Spans(data, 0) == spans + Spans(data, p)
      decreases |data| - p
    {
      SpansNext(data, p);
      var ok := r.Next();
      if !ok {
        assert spans + [] == spans;
        return spans, r.failed;
      }
      ghost var d := NextValue(data, p);
      assert spans + ([(d.start, d.end)] + Spans(data, d.end)) == spans + [(d.start, d.end)] + Spans(data, d.end);
      spans := spans + [(r.consumed + r.valStart, r.consumed + r.valEnd)];
      p := d.end;
    }
  }
}
