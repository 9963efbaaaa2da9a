/**
 The token writer: a stack of open containers decides which token may come next and which separator
 precedes it. What has been emitted is always the text of the finished values and of the open ones, and
 a stream reader gets exactly the finished values back.
 */
module Writing {
  import opened Json
  import opened Quoting
  import opened Documents
  import opened Streams
  import opened Printing

  // ---- What the calls describe --------------------------------------------------------------------------

  /** A container that is still open, with what it holds so far; `key` is a name that waits for its value. */
  datatype Partial = OpenList(items: seq<Tree>) | OpenDict(entries: seq<Entry>, key: Option<(Style, bytes)>)

  predicate HasComma(f: Partial) {
    match f
    case OpenList(items) => items != []
    case OpenDict(entries, _) => entries != []
  }

  function Comma(yes: bool): bytes {
    if yes then [COMMA] else []
  }

  /** The text of an open container that waits for its next element or name. */
  function FrameText(f: Partial): bytes {
    match f
    case OpenList(items) => [LBRACKET] + RenderItems(items)
    case OpenDict(entries, key) =>
      [LBRACE] + RenderEntries(entries) + if key.None? then [] else Comma(entries != []) + Quoted(key.value.0, key.value.1) + [COLON]
  }

  /** The text of an open container in which a value has begun. */
  function InnerText(f: Partial): bytes {
    match f
    case OpenList(items) => FrameText(f) + Comma(items != [])
    case OpenDict(_, _) => FrameText(f)
  }

  /** The text of enclosing containers, each with a value begun in it. */
  function Enclosing(open: seq<Partial>): bytes {
    if open == [] then [] else Enclosing(open[..|open| - 1]) + InnerText(open[|open| - 1])
  }

  /** The text of all open containers, outermost first. */
  function OpenText(open: seq<Partial>): bytes {
    if open == [] then [] else Enclosing(open[..|open| - 1]) + FrameText(open[|open| - 1])
  }

  /** The container with v added. */
  function Added(f: Partial, v: Tree): Partial
    requires f.OpenDict? ==> f.key.Some?
  {
    match f
    case OpenList(items) => OpenList(items + [v])
    case OpenDict(entries, key) => OpenDict(entries + [Entry(key.value.0, key.value.1, v)], None)
  }

  /** The finished container. */
  function Finished(f: Partial): Tree {
    match f
    case OpenList(items) => List(items)
    case OpenDict(entries, _) => Dict(entries)
  }

  /** A value's text, or nothing. */
  function Ending(last: Option<Tree>): bytes {
    if last.None? then [] else Render(last.value)
  }

  /** Lines are values, or blank, each ended by a line feed. */
  function LinesText(lines: seq<Option<Tree>>): bytes {
    if lines == [] then []
    else LinesText(lines[..|lines| - 1]) + Ending(lines[|lines| - 1]) + [LF]
  }

  /** Everything described so far: finished lines, then the value not yet ended, finished or open. */
  datatype Script = Script(lines: seq<Option<Tree>>, last: Option<Tree>, open: seq<Partial>)

  function Emitted(x: Script): bytes {
    LinesText(x.lines) + Ending(x.last) + OpenText(x.open)
  }

  /** v finished in the innermost open container, or at top level. */
  function WithValue(x: Script, v: Tree): Script
    requires x.open != [] ==> (var f := x.open[|x.open| - 1]; f.OpenDict? ==> f.key.Some?)
  {
    if x.open == [] then x.(last := Some(v))
    else x.(open := x.open[..|x.open| - 1] + [Added(x.open[|x.open| - 1], v)])
  }

  lemma {:induction false} RenderMoreItems(items: seq<Tree>, v: Tree)
    ensures RenderItems(items + [v]) == RenderItems(items) + Comma(items != []) + Render(v)
  {
    hide Render;
    if items == [] {
      assert items + [v] == [v];
      assert RenderItems([v]) == Render(v);
      assert [] + [] + Render(v) == Render(v);
    } else {
      RenderMoreItems(items[1..], v);
      assert (items + [v])[1..] == items[1..] + [v] && (items + [v])[0] == items[0];
      if |items| == 1 {
        assert items[1..] == [];
        assert [] + [] + Render(v) == Render(v);
      } else {
        Regroup5(Render(items[0]), [COMMA], RenderItems(items[1..]), [COMMA], Render(v));
      }
    }
  }

  lemma Regroup5(a: bytes, b: bytes, c: bytes, d: bytes, e: bytes)
    ensures a + b + (c + d + e) == a + b + c + d + e
  {
  }

  lemma {:induction false} RenderMoreEntries(entries: seq<Entry>, e: Entry)
    ensures RenderEntries(entries + [e]) == RenderEntries(entries) + Comma(entries != []) + RenderEntry(e)
  {
    hide RenderEntry;
    if entries == [] {
      assert entries + [e] == [e];
      assert RenderEntries([e]) == RenderEntry(e);
      assert [] + [] + RenderEntry(e) == RenderEntry(e);
    } else {
      RenderMoreEntries(entries[1..], e);
      assert (entries + [e])[1..] == entries[1..] + [e] && (entries + [e])[0] == entries[0];
      if |entries| == 1 {
        assert entries[1..] == [];
        assert [] + [] + RenderEntry(e) == RenderEntry(e);
      } else {
        Regroup5(RenderEntry(entries[0]), [COMMA], RenderEntries(entries[1..]), [COMMA], RenderEntry(e));
      }
    }
  }

  /** Adding a value to a container appends a comma, if it is not the first, and the value's text. */
  lemma AddedText(f: Partial, v: Tree)
    requires f.OpenDict? ==> f.key.Some?
    ensures FrameText(Added(f, v)) == InnerText(f) + Render(v)
  {
    hide Quoted, Render, RenderItems, RenderEntries;
    match f
    case OpenList(items) =>
      RenderMoreItems(items, v);
      Regroup(RenderItems(items), Comma(items != []), Render(v));
    case OpenDict(entries, key) =>
      RenderMoreEntries(entries, Entry(key.value.0, key.value.1, v));
      RegroupEntry(RenderEntries(entries), Comma(entries != []), Quoted(key.value.0, key.value.1), Render(v));
  }

  lemma Regroup(a: bytes, b: bytes, c: bytes)
    ensures [LBRACKET] + (a + b + c) == [LBRACKET] + a + b + c
  {
  }

  lemma RegroupEntry(a: bytes, b: bytes, name: bytes, c: bytes)
    ensures [LBRACE] + (a + b + (name + [COLON] + c)) + [] == [LBRACE] + a + (b + name + [COLON]) + c
  {
  }

  lemma OpenSplit(open: seq<Partial>, f: Partial)
    ensures OpenText(open + [f]) == Enclosing(open) + FrameText(f) && Enclosing(open + [f]) == Enclosing(open) + InnerText(f)
  {
    assert (open + [f])[..|open|] == open;
  }

  /** The text before the next value begins: a comma follows the elements an array already has. */
  function Before(x: Script): bytes {
    LinesText(x.lines) + Enclosing(x.open)
  }

  predicate MayBegin(x: Script) {
    if x.open == [] then x.last.None? else (var f := x.open[|x.open| - 1]; f.OpenDict? ==> f.key.Some?)
  }

  lemma ValueText(x: Script, v: Tree)
    requires MayBegin(x) && (x.last.Some? ==> x.open == [])
    ensures Emitted(WithValue(x, v)) == Before(x) + Render(v)
  {
    hide Render, LinesText;
    if x.open != [] {
      var outer, f := x.open[..|x.open| - 1], x.open[|x.open| - 1];
      AddedText(f, v);
      hide FrameText, InnerText;
      OpenSplit(outer, Added(f, v));
      Regroup4(LinesText(x.lines), Enclosing(outer), InnerText(f), Render(v));
      assert x.last.None?;
    }
  }

  lemma Regroup4(a: bytes, b: bytes, c: bytes, d: bytes)
    ensures a + [] + (b + (c + d)) == a + (b + c) + d
  {
  }

  // ---- The writer -----------------------------------------------------------------------------------------------

  datatype StreamFrame = StreamFrame(kind: byte, members: nat, afterKey: bool)

  function FrameOf(f: Partial): StreamFrame {
    match f
    case OpenList(items) => StreamFrame(LBRACKET, |items|, false)
    case OpenDict(entries, key) => StreamFrame(LBRACE, |entries|, key.Some?)
  }

  /** Values are begun in objects only after a name. */
  predicate Nested(open: seq<Partial>) {
    forall k | 0 <= k < |open| - 1 :: open[k].OpenDict? ==> open[k].key.Some?
  }

  predicate FramesOf(stack: seq<StreamFrame>, open: seq<Partial>) {
    |stack| == |open| && forall k | 0 <= k < |open| :: stack[k] == FrameOf(open[k])
  }

  /** A destination for bytes that takes all it is given until it breaks, and then fails for good. */
  class Sink {
    var written: bytes
    var broken: bool

    constructor ()
      ensures written == [] && !broken
    {
      written, broken := [], false;
    }

    method Write(b: bytes) returns (ok: bool)
      modifies this
      ensures ok == !broken && (old(broken) ==> broken) && (ok ==> written == old(written) + b)
    {
      ok := *;
      ok := ok && !broken;
      broken := !ok;
      if ok {
        written := written + b;
      }
    }
  }

  class Writer {
    const out: Sink
    const flushAt: nat
    var buf: bytes
    var stack: seq<StreamFrame>
    var started: bool
    var failed: bool
    var style: Style
    ghost var script: Script

    /** Unless it has failed, what has been emitted is the text of the calls, and the stack reflects the open containers. */
    ghost predicate Valid()
      reads this, out
    {
      (script.last.Some? ==> script.open == []) && Nested(script.open) &&
      (!failed ==>
         (out.written + buf == Emitted(script) && FramesOf(stack, script.open) && started == (script.last.Some? || script.open != [])))
    }

    constructor (out: Sink, size: nat)
      requires out.written == []
      ensures Valid() && !failed && script == Script([], None, []) && this.out == out
    {
      this.out, flushAt := out, if size < 512 then 512 else size;
      buf, stack, started, failed, style := [], [], false, false, Style(true, true);
      script := Script([], None, []);
    }

    method SetEscapeHTML(escape: bool)
      requires Valid()
      modifies this`style
      ensures Valid() && failed == old(failed) && script == old(script) && style == old(style).(html := escape)
    {
      style := style.(html := escape);
    }

    method FlushBuffer()
      requires !failed
      modifies this`buf, this`failed, out
      ensures !failed ==> buf == [] && out.written + buf == old(out.written + buf)
      ensures failed ==> out.broken
    {
      if buf == [] {
        return;
      }
      var ok := out.Write(buf);
      if !ok {
        failed := true;
        return;
      }
      assert out.written + [] == out.written;
      buf := [];
    }

    method MaybeFlush()
      requires !failed
      modifies this`buf, this`failed, out
      ensures !failed ==> out.written + buf == old(out.written + buf)
      ensures failed ==> out.broken
    {
      if |buf| >= flushAt {
        FlushBuffer();
      }
    }

    method Append(text: bytes)
      modifies this`buf
      ensures out.written + buf == out.written + old(buf) + text
    {
      assert out.written + (buf + text) == out.written + buf + text;
      buf := buf + text;
    }

    method AppendKey(comma: bool, name: bytes)
      modifies this`buf
      ensures out.written + buf == out.written + old(buf) + Comma(comma) + Quoted(style, name) + [COLON]
    {
      hide Quoted;
      if comma {
        Append([COMMA]);
      }
      var text := AppendJSONString([], name, style);
      assert text == Quoted(style, name);
      Append(text);
      Append([COLON]);
    }

    /** Checks that a value may come next and writes the separator; otherwise fails. */
    method BeforeValue() returns (ok: bool)
      requires Valid()
      modifies this`buf, this`failed, this`started
      ensures script.last.Some? ==> script.open == []
      ensures ok == (!old(failed) && MayBegin(script))
      ensures ok ==> !failed && out.written + buf == Before(script) && FramesOf(stack, script.open) && started
      ensures !ok ==> failed && Valid()
    {
      hide Enclosing, LinesText, FrameText;
      if failed {
        return false;
      }
      if stack == [] {
        if started {
          failed := true;
          return false;
        }
        started := true;
        assert Emitted(script) == Before(script) by { NothingOpen(script); }
        return true;
      }
      var top := stack[|stack| - 1];
      ghost var outer, f := script.open[..|script.open| - 1], script.open[|script.open| - 1];
      assert script.open == outer + [f] && top == FrameOf(f);
      if top.kind == LBRACE {
        if !top.afterKey {
          failed := true;
          return false;
        }
      } else if top.members > 0 {
        Append([COMMA]);
      }
      SomethingOpen(script, outer, f);
      return true;
    }

    /** Records a finished value, whose text has just been appended. */
    method AfterValue(ghost v: Tree)
      requires !failed && started && MayBegin(script) && (script.last.Some? ==> script.open == [])
      requires FramesOf(stack, script.open) && Nested(script.open) && out.written + buf == Before(script) + Render(v)
      modifies this`buf, this`stack, this`failed, this`script, out
      ensures Valid() && (!failed ==> script == WithValue(old(script), v)) && (failed ==> out.broken)
    {
      hide Before, Emitted, Render;
      ValueText(script, v);
      ghost var before := script;
      script := WithValue(script, v);
      if stack != [] {
        var top := |stack| - 1;
        stack := stack[top := stack[top].(members := stack[top].members + 1, afterKey := false)];
        return;
      }
      MaybeFlush();
    }

    /** Writes one scalar. */
    method Scalar(text: bytes, ghost v: Tree) returns (ok: bool)
      requires Valid() && text == Render(v)
      modifies this`buf, this`stack, this`failed, this`started, this`script, out
      ensures Valid() && (!failed ==> !old(failed) && old(MayBegin(script)) && script == WithValue(old(script), v))
      ensures ok == !failed && (!ok ==> old(failed) || !old(MayBegin(script)) || out.broken)
    {
      hide Before, Emitted, Render;
      ok := BeforeValue();
      if !ok {
        return;
      }
      Append(text);
      AfterValue(v);
      ok := !failed;
    }

    /** Writes a string. */
    method String(s: bytes) returns (ok: bool)
      requires Valid()
      modifies this`buf, this`stack, this`failed, this`started, this`script, out
      ensures Valid() && ok == !failed && (ok ==> old(MayBegin(script)) && script == WithValue(old(script), Text(style, s)))
      ensures !ok ==> old(failed) || !old(MayBegin(script)) || out.broken
    {
      var text := AppendJSONString([], s, style);
      assert text == Quoted(style, s);
      ok := Scalar(text, Text(style, s));
    }

    /** Writes a number, given as its token. */
    method Number(token: bytes) returns (ok: bool)
      requires Valid()
      modifies this`buf, this`stack, this`failed, this`started, this`script, out
      ensures Valid() && ok == !failed && (ok ==> old(MayBegin(script)) && script == WithValue(old(script), NumberText(token)))
      ensures !ok ==> old(failed) || !old(MayBegin(script)) || out.broken
    {
      ok := Scalar(token, NumberText(token));
    }

    /** Writes an int64 as its decimal; `room` is the capacity its buffer has left. */
    method Int(v: int, room: nat) returns (ok: bool)
      requires Valid() && -TWO_TO_THE_63 <= v < TWO_TO_THE_63
      modifies this`buf, this`stack, this`failed, this`started, this`script, out
      ensures Valid() && ok == !failed && (ok ==> old(MayBegin(script)) && script == WithValue(old(script), NumberText(ShownInt(v))))
      ensures !ok ==> old(failed) || !old(MayBegin(script)) || out.broken
    {
      hide ShownInt;
      var text := AppendCompactInt([], room, v);
      assert text == ShownInt(v);
      ok := Number(text);
    }

    /** Writes a uint64 as its decimal. */
    method Uint(v: nat, room: nat) returns (ok: bool)
      requires Valid() && v < TWO_TO_THE_64
      modifies this`buf, this`stack, this`failed, this`started, this`script, out
      ensures Valid() && ok == !failed && (ok ==> old(MayBegin(script)) && script == WithValue(old(script), NumberText(Shown(v))))
      ensures !ok ==> old(failed) || !old(MayBegin(script)) || out.broken
    {
      hide Shown;
      var text := AppendCompactUint([], room, v);
      assert text == Shown(v);
      ok := Number(text);
    }

    method Bool(b: bool) returns (ok: bool)
      requires Valid()
      modifies this`buf, this`stack, this`failed, this`started, this`script, out
      ensures Valid() && ok == !failed && (ok ==> old(MayBegin(script)) && script == WithValue(old(script), BoolValue(b)))
      ensures !ok ==> old(failed) || !old(MayBegin(script)) || out.broken
    {
      ok := Scalar(if b then TRUE else FALSE, BoolValue(b));
    }

    method Null() returns (ok: bool)
      requires Valid()
      modifies this`buf, this`stack, this`failed, this`started, this`script, out
      ensures Valid() && ok == !failed && (ok ==> old(MayBegin(script)) && script == WithValue(old(script), NullValue))
      ensures !ok ==> old(failed) || !old(MayBegin(script)) || out.broken
    {
      ok := Scalar(NULL, NullValue);
    }

    /** Opens a container where a value may come. */
    method Begin(kind: byte) returns (ok: bool)
      requires Valid() && (kind == LBRACE || kind == LBRACKET)
      modifies this`buf, this`stack, this`failed, this`started, this`script, out
      ensures Valid() && ok == !failed && (ok <==> !old(failed) && old(MayBegin(script)))
      ensures ok ==> script == old(script).(open := old(script).open + [if kind == LBRACE then OpenDict([], None) else OpenList([])])
    {
      hide Before, Emitted;
      ok := BeforeValue();
      if !ok {
        return;
      }
      ghost var f := if kind == LBRACE then OpenDict([], None) else OpenList([]);
      BeginText(script, f);
      Append([kind]);
      stack := stack + [StreamFrame(kind, 0, false)];
      script := script.(open := script.open + [f]);
    }

    method BeginObject() returns (ok: bool)
      requires Valid()
      modifies this`buf, this`stack, this`failed, this`started, this`script, out
      ensures Valid() && ok == !failed && (ok <==> !old(failed) && old(MayBegin(script)))
      ensures ok ==> script == old(script).(open := old(script).open + [OpenDict([], None)])
    {
      ok := Begin(LBRACE);
    }

    method BeginArray() returns (ok: bool)
      requires Valid()
      modifies this`buf, this`stack, this`failed, this`started, this`script, out
      ensures Valid() && ok == !failed && (ok <==> !old(failed) && old(MayBegin(script)))
      ensures ok ==> script == old(script).(open := old(script).open + [OpenList([])])
    {
      ok := Begin(LBRACKET);
    }

    /** Closes the innermost container, which becomes a value of the enclosing one. */
    method End(kind: byte) returns (ok: bool)
      requires Valid() && (kind == LBRACE || kind == LBRACKET)
      modifies this`buf, this`stack, this`failed, this`script, out
      ensures Valid() && ok == !failed
      ensures !ok ==> old(failed) || !MayEndTop(old(script), kind) || out.broken
      ensures ok ==>
        (var x := old(script);
         MayEndTop(x, kind) &&
         script == WithValue(x.(open := x.open[..|x.open| - 1]), Finished(x.open[|x.open| - 1])))
    {
      hide Before, Emitted, Render;
      if failed {
        return false;
      }
      if stack == [] || stack[|stack| - 1].kind != kind || (kind == LBRACE && stack[|stack| - 1].afterKey) {
        failed := true;
        return false;
      }
      ghost var x := script;
      ghost var outer, f := x.open[..|x.open| - 1], x.open[|x.open| - 1];
      assert x.open == outer + [f] && stack[|stack| - 1] == FrameOf(f);
      EndText(x, outer, f);
      Append([if kind == LBRACE then RBRACE else RBRACKET]);
      stack := stack[..|stack| - 1];
      script := x.(open := outer);
      AfterValue(Finished(f));
      ok := !failed;
    }

    method EndObject() returns (ok: bool)
      requires Valid()
      modifies this`buf, this`stack, this`failed, this`script, out
      ensures Valid() && ok == !failed
      ensures !ok ==> old(failed) || !MayEndTop(old(script), LBRACE) || out.broken
      ensures ok ==>
        (var x := old(script);
         MayEndTop(x, LBRACE) &&
         script == WithValue(x.(open := x.open[..|x.open| - 1]), Finished(x.open[|x.open| - 1])))
    {
      ok := End(LBRACE);
    }

    method EndArray() returns (ok: bool)
      requires Valid()
      modifies this`buf, this`stack, this`failed, this`script, out
      ensures Valid() && ok == !failed
      ensures !ok ==> old(failed) || !MayEndTop(old(script), LBRACKET) || out.broken
      ensures ok ==>
        (var x := old(script);
         MayEndTop(x, LBRACKET) &&
         script == WithValue(x.(open := x.open[..|x.open| - 1]), Finished(x.open[|x.open| - 1])))
    {
      ok := End(LBRACKET);
    }

    /** Writes the next member name of the innermost object. */
    method Key(name: bytes) returns (ok: bool)
      requires Valid()
      modifies this`buf, this`stack, this`failed, this`script
      ensures Valid() && ok == !failed && (ok <==> !old(failed) && MayEndTop(old(script), LBRACE))
      ensures ok ==>
        (var x := old(script);
         script == x.(open := x.open[..|x.open| - 1] + [x.open[|x.open| - 1].(key := Some((style, name)))]))
    {
      hide Before, Emitted, Quoted;
      if failed {
        return false;
      }
      if stack == [] || stack[|stack| - 1].kind != LBRACE || stack[|stack| - 1].afterKey {
        failed := true;
        return false;
      }
      ghost var x := script;
      ghost var outer, f := x.open[..|x.open| - 1], x.open[|x.open| - 1];
      assert x.open == outer + [f] && stack[|stack| - 1] == FrameOf(f);
      KeyText(x, outer, f, style, name);
      KeyFrame(stack, outer, f, style, name);
      hide FrameText, FramesOf, Nested;
      var top := |stack| - 1;
      AppendKey(stack[top].members > 0, name);
      stack := stack[top := stack[top].(afterKey := true)];
      script := x.(open := outer + [f.(key := Some((style, name)))]);
      return true;
    }

    /** Ends a top-level line. */
    method Newline() returns (ok: bool)
      requires Valid()
      modifies this`buf, this`failed, this`started, this`script, out
      ensures Valid() && ok == !failed && (!ok ==> old(failed) || old(script).open != [] || out.broken)
      ensures ok ==> old(script).open == [] && script == Script(old(script).lines + [old(script).last], None, [])
    {
      hide Render;
      if failed {
        return false;
      }
      if stack != [] {
        failed := true;
        return false;
      }
      Append([LF]);
      LineText(script);
      started := false;
      script := Script(script.lines + [script.last], None, []);
      MaybeFlush();
      ok := !failed;
    }

    /** Hands over everything; only between top-level values. */
    method Flush() returns (ok: bool)
      requires Valid()
      modifies this`buf, this`failed, out
      ensures Valid() && ok == !failed && (!ok ==> old(failed) || old(script).open != [] || out.broken)
      ensures ok ==> script.open == [] && buf == [] && out.written == Emitted(script)
    {
      hide Emitted;
      if failed {
        return false;
      }
      if stack != [] {
        failed := true;
        return false;
      }
      FlushBuffer();
      ok := !failed;
      if ok {
        assert out.written + [] == out.written;
      }
    }
  }

  /** The innermost open container is of the kind and waits for no value. */
  predicate MayEndTop(x: Script, kind: byte) {
    x.open != [] && MayEnd(x.open[|x.open| - 1], kind)
  }

  predicate MayEnd(f: Partial, kind: byte) {
    if kind == LBRACE then f.OpenDict? && f.key.None? else f.OpenList?
  }

  lemma BeginText(x: Script, f: Partial)
    requires x.last.None? && (f == OpenDict([], None) || f == OpenList([]))
    ensures Emitted(x.(open := x.open + [f])) == Before(x) + [if f.OpenDict? then LBRACE else LBRACKET]
  {
    hide LinesText, Enclosing;
    OpenSplit(x.open, f);
    assert FrameText(f) == [if f.OpenDict? then LBRACE else LBRACKET];
    RegroupBegin(LinesText(x.lines), Enclosing(x.open), FrameText(f));
  }

  lemma RegroupBegin(a: bytes, b: bytes, c: bytes)
    ensures a + [] + (b + c) == a + b + c
  {
  }

  lemma EndText(x: Script, outer: seq<Partial>, f: Partial)
    requires x.last.None? && x.open == outer + [f] && (f.OpenDict? ==> f.key.None?)
    ensures Emitted(x) + [if f.OpenDict? then RBRACE else RBRACKET] == Before(x.(open := outer)) + Render(Finished(f))
  {
    hide LinesText, Enclosing, RenderItems, RenderEntries;
    OpenSplit(outer, f);
    assert Render(Finished(f)) == FrameText(f) + [if f.OpenDict? then RBRACE else RBRACKET] by {
      if f.OpenDict? {
        assert [LBRACE] + RenderEntries(f.entries) + [] == [LBRACE] + RenderEntries(f.entries);
      }
    }
    RegroupEnd(LinesText(x.lines), Enclosing(outer), FrameText(f), [if f.OpenDict? then RBRACE else RBRACKET]);
  }

  lemma RegroupEnd(a: bytes, b: bytes, c: bytes, d: bytes)
    ensures a + [] + (b + c) + d == a + b + (c + d)
  {
  }

  lemma KeyText(x: Script, outer: seq<Partial>, f: Partial, style: Style, name: bytes)
    requires x.last.None? && x.open == outer + [f] && f.OpenDict? && f.key.None?
    ensures Emitted(x.(open := outer + [f.(key := Some((style, name)))])) == Emitted(x) + Comma(f.entries != []) + Quoted(style, name) + [COLON]
  {
    hide LinesText, Enclosing, RenderEntries, Quoted;
    OpenSplit(outer, f);
    OpenSplit(outer, f.(key := Some((style, name))));
    RegroupKey(LinesText(x.lines), Enclosing(outer), [LBRACE] + RenderEntries(f.entries), Comma(f.entries != []), Quoted(style, name));
  }

  lemma KeyFrame(stack: seq<StreamFrame>, outer: seq<Partial>, f: Partial, style: Style, name: bytes)
    requires FramesOf(stack, outer + [f]) && Nested(outer + [f]) && f.OpenDict?
    ensures var g, top := f.(key := Some((style, name))), |stack| - 1;
            stack[top].members == |f.entries| && FramesOf(stack[top := stack[top].(afterKey := true)], outer + [g]) && Nested(outer + [g])
  {
    var n := |outer|;
    assert stack[n] == FrameOf((outer + [f])[n]);
  }

  lemma RegroupKey(a: bytes, b: bytes, c: bytes, d: bytes, name: bytes)
    ensures a + [] + (b + (c + (d + name + [COLON]))) == a + [] + (b + (c + [])) + d + name + [COLON]
  {
  }

  lemma LineText(x: Script)
    requires x.open == []
    ensures Emitted(Script(x.lines + [x.last], None, [])) == Emitted(x) + [LF]
  {
    hide Render;
    assert (x.lines + [x.last])[..|x.lines|] == x.lines;
    var text := if x.last.None? then [] else Render(x.last.value);
    assert LinesText(x.lines) + text + [LF] + [] + [] == LinesText(x.lines) + text + [] + [LF];
  }

  // ---- Reading back what was written -----------------------------------------------------------------------------

  /** The values among the lines. */
  function Values(lines: seq<Option<Tree>>): seq<Tree> {
    if lines == [] then [] else (if lines[0].None? then [] else [lines[0].value]) + Values(lines[1..])
  }

  function LineList(lines: seq<Option<Tree>>): bytes {
    if lines == [] then [] else Ending(lines[0]) + [LF] + LineList(lines[1..])
  }

  lemma {:induction false} LinesAreList(lines: seq<Option<Tree>>, more: seq<Option<Tree>>)
    ensures LinesText(lines) + LineList(more) == LineList(lines + more)
    decreases |lines|
  {
    hide LineList, Ending;
    if lines == [] {
      assert lines + more == more;
    } else {
      var n := |lines| - 1;
      LinesAreList(lines[..n], [lines[n]] + more);
      assert lines[..n] + ([lines[n]] + more) == lines + more;
      LineInFront(lines[n], more);
      RegroupLine(LinesText(lines[..n]), Ending(lines[n]), LineList(more));
    }
  }

  lemma RegroupLine(a: bytes, b: bytes, c: bytes)
    ensures a + b + [LF] + c == a + (b + [LF] + c)
  {
  }

  lemma LineInFront(line: Option<Tree>, more: seq<Option<Tree>>)
    ensures LineList([line] + more) == Ending(line) + [LF] + LineList(more)
  {
    assert ([line] + more)[1..] == more;
  }

  /** A span of the stream that the reader accepts and that spells the tree. */
  predicate SpanSpells(s: bytes, span: (nat, nat), t: Tree) {
    span.0 <= |s| &&
    var r := ParseValue(s, span.0, 0, DEFAULT_MAX_DEPTH);
    r.Good? && r.end == span.1 && Spells(s, r.val, t)
  }

  predicate SpansSpell(s: bytes, spans: seq<(nat, nat)>, trees: seq<Tree>) {
    |spans| == |trees| && forall k | 0 <= k < |trees| :: SpanSpells(s, spans[k], trees[k])
  }

  lemma NoSpans(s: bytes)
    ensures SpansSpell(s, [], [])
  {
  }

  predicate Fit(t: Tree) {
    Proper(t) && Height(t) <= DEFAULT_MAX_DEPTH
  }

  lemma GapSkipped(s: bytes, p: nat)
    requires p < |s| && IsSpace(s[p])
    ensures Spans(s, p) == Spans(s, p + 1) && EndsInFailure(s, p) == EndsInFailure(s, p + 1)
  {
    assert SkipSpace(s, p) == SkipSpace(s, p + 1);
    hide SkipSpace;
    assert NextValue(s, p) == NextValue(s, p + 1);
  }

  lemma ValueDelivered(s: bytes, p: nat, t: Tree)
    requires Fit(t) && At(s, p, Render(t)) && Ends(s, p + |Render(t)|)
    ensures var e := p + |Render(t)|;
            p < e <= |s| && SpanSpells(s, (p, e), t) && Spans(s, p) == [(p, e)] + Spans(s, e) && EndsInFailure(s, p) == EndsInFailure(s, e)
  {
    hide Spells, Render, Proper, Height;
    hide ParseValue;
    FirstByte(t);
    AtByte(s, p, Render(t), 0);
    NoSpace(s, p);
    TreeReads(s, p, t, 0, DEFAULT_MAX_DEPTH);
    assert NextValue(s, p) == Delivered(p, p + |Render(t)|);
  }

  lemma NothingLeft(s: bytes, p: nat)
    requires p == |s|
    ensures Spans(s, p) == [] && !EndsInFailure(s, p)
  {
    assert SkipSpace(s, p) == |s|;
  }

  predicate AllFit(lines: seq<Option<Tree>>) {
    forall k | 0 <= k < |lines| && lines[k].Some? :: Fit(lines[k].value)
  }

  lemma {:induction false} LinesRead(s: bytes, p: nat, lines: seq<Option<Tree>>, last: Option<Tree>)
    requires At(s, p, LineList(lines) + Ending(last)) && p + |LineList(lines) + Ending(last)| == |s| && AllFit(lines + [last])
    ensures SpansSpell(s, Spans(s, p), Values(lines + [last])) && !EndsInFailure(s, p)
    decreases |lines|
  {
    hide *;
    ListNext(lines, last);
    FitNext(lines, last);
    if lines == [] {
      EndingRead(s, p, last);
    } else {
      var rest := LineList(lines[1..]) + Ending(last);
      var e := LineRead(s, p, lines[0], rest);
      LinesRead(s, e + 1, lines[1..], last);
      if lines[0].Some? {
        OneMoreSpan(s, (p, e), lines[0].value, Spans(s, e + 1), Values(lines[1..] + [last]));
      }
    }
  }

  lemma FitNext(lines: seq<Option<Tree>>, last: Option<Tree>)
    requires AllFit(lines + [last])
    ensures last.Some? ==> Fit(last.value)
    ensures lines != [] ==> (lines[0].Some? ==> Fit(lines[0].value)) && AllFit(lines[1..] + [last])
  {
    hide Fit;
    var all := lines + [last];
    assert all[|lines|] == last;
    if lines != [] {
      assert all[0] == lines[0] && all[1..] == lines[1..] + [last];
    }
  }

  /** A value after the last line feed is delivered at the end of the input. */
  lemma EndingRead(s: bytes, p: nat, last: Option<Tree>)
    requires (last.Some? ==> Fit(last.value)) && At(s, p, Ending(last)) && p + |Ending(last)| == |s|
    ensures SpansSpell(s, Spans(s, p), Values([last])) && !EndsInFailure(s, p)
  {
    hide At, Render, SpanSpells, Fit, Spans, EndsInFailure;
    var e := p + |Ending(last)|;
    NothingLeft(s, e);
    NoSpans(s);
    if last.Some? {
      ValueDelivered(s, p, last.value);
      OneMoreSpan(s, (p, e), last.value, [], []);
      assert Values([last]) == [last.value];
    }
  }

  /** One line: its value, if it has one, is delivered, and the reader goes on after the line feed. */
  lemma LineRead(s: bytes, p: nat, line: Option<Tree>, rest: bytes) returns (e: nat)
    requires line.Some? ==> Fit(line.value)
    requires At(s, p, Ending(line) + ([LF] + rest))
    ensures e < |s| && e == p + |Ending(line)| && At(s, e + 1, rest)
    ensures EndsInFailure(s, p) == EndsInFailure(s, e + 1)
    ensures line.None? ==> Spans(s, p) == Spans(s, e + 1)
    ensures line.Some? ==> SpanSpells(s, (p, e), line.value) && Spans(s, p) == [(p, e)] + Spans(s, e + 1)
  {
    hide At, Render, SpanSpells, Fit, Spans, EndsInFailure;
    e := p + |Ending(line)|;
    AtParts(s, p, Ending(line), [LF] + rest);
    AtParts(s, e, [LF], rest);
    AtByte(s, e, [LF], 0);
    GapSkipped(s, e);
    if line.Some? {
      ValueDelivered(s, p, line.value);
    }
  }

  lemma ListNext(lines: seq<Option<Tree>>, last: Option<Tree>)
    ensures lines == [] ==> LineList(lines) + Ending(last) == Ending(last) && lines + [last] == [last]
    ensures lines != [] ==> LineList(lines) + Ending(last) == Ending(lines[0]) + ([LF] + (LineList(lines[1..]) + Ending(last)))
    ensures lines != [] ==> Values(lines + [last]) == if lines[0].None? then Values(lines[1..] + [last]) else [lines[0].value] + Values(lines[1..] + [last])
  {
    hide Render;
    if lines != [] {
      Regroup3(Ending(lines[0]), LineList(lines[1..]), Ending(last));
      assert (lines + [last])[1..] == lines[1..] + [last];
      assert [] + Values(lines[1..] + [last]) == Values(lines[1..] + [last]);
    }
  }

  lemma Regroup3(a: bytes, b: bytes, c: bytes)
    ensures a + [LF] + b + c == a + ([LF] + (b + c))
  {
  }

  lemma OneMoreSpan(s: bytes, span: (nat, nat), t: Tree, spans: seq<(nat, nat)>, trees: seq<Tree>)
    requires SpanSpells(s, span, t) && SpansSpell(s, spans, trees)
    ensures SpansSpell(s, [span] + spans, [t] + trees)
  {
    hide SpanSpells;
  }

  /**
   A reader over what a writer has written, however the source splits it, delivers the values of the calls, one by
   one, a last value that no line feed ends included.
   */
  method WriteThenRead(w: Writer, size: nat) returns (spans: seq<(nat, nat)>, failed: bool)
    requires w.Valid() && !w.failed && w.script.open == [] && w.buf == [] && size > 0
    requires AllFit(w.script.lines + [w.script.last])
    ensures !failed && SpansSpell(w.out.written, spans, Values(w.script.lines + [w.script.last]))
  {
    hide Render, SpanSpells, AllFit, Spans, EndsInFailure, Values;
    var s := w.out.written;
    ghost var lines, last := w.script.lines, w.script.last;
    assert s == LineList(lines) + Ending(last) by {
      LinesAreList(lines, []);
      assert lines + [] == lines;
      assert s + [] == s && LinesText(lines) + Ending(last) + [] == LinesText(lines) + Ending(last) && LinesText(lines) + LineList([]) == LinesText(lines);
    }
    assert s[0..0 + |s|] == s;
    LinesRead(s, 0, lines, last);
    spans, failed := ReadAll(s, size);
  }

  lemma NothingOpen(x: Script)
    requires x.open == [] && x.last.None?
    ensures Emitted(x) == Before(x)
  {
    hide LinesText;
    assert LinesText(x.lines) + [] + [] == LinesText(x.lines) + [];
  }

  lemma SomethingOpen(x: Script, outer: seq<Partial>, f: Partial)
    requires x.open == outer + [f] && x.last.None? && MayBegin(x)
    ensures Emitted(x) + (if f.OpenList? then Comma(HasComma(f)) else []) == Before(x)
  {
    hide FrameText, LinesText;
    OpenSplit(outer, f);
    RegroupComma(LinesText(x.lines), Enclosing(outer), FrameText(f), if f.OpenList? then Comma(HasComma(f)) else []);
  }

  lemma RegroupComma(a: bytes, b: bytes, c: bytes, d: bytes)
    ensures a + [] + (b + c) + d == a + (b + (c + d))
  {
  }
}
