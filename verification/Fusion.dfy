/**
 The encode-plan optimiser: directly nested structs of unconditional fields are flattened at compile
 time. The flat program writes what nested encoding writes and meets the depth limit in the same
 cases, except that a struct with fields but no leaves at all keeps its leading comma.
 */
module Fusion {
  import opened Json

  /** What a leaf does; OpStruct is a struct that an array holds. */
  datatype Op =
    | OpBool | OpString | OpNumber | OpInt | OpUint | OpFloat | OpBytes | OpQuoted
    | OpSlice | OpMap | OpArray(length: nat, elem: Op) | OpStruct | OpAny | OpMarshaler | OpOther

  /** Operations that can be flattened: their output is one scalar whatever the depth. */
  predicate IsScalar(op: Op) {
    op.OpBool? || op.OpString? || op.OpNumber? || op.OpInt? || op.OpUint? || op.OpFloat? || op.OpBytes? || op.OpQuoted?
  }

  /** Everything about the values being encoded: what each operation writes at an address and depth, and which fields are omitted. */
  datatype World = World(emit: (Op, nat, nat) -> Option<bytes>, omitted: nat -> bool)

  /** Operations that may open containers, and so count them against the depth limit. */
  predicate MayNest(op: Op) {
    op.OpSlice? || op.OpMap? || op.OpArray? || op.OpStruct? || op.OpAny? || op.OpMarshaler? || op.OpOther?
  }

  ghost predicate DepthBlind(w: World) {
    forall op, a, d, e | !MayNest(op) :: w.emit(op, a, d) == w.emit(op, a, e)
  }

  function Joined(a: Option<bytes>, b: Option<bytes>): Option<bytes> {
    if a.None? || b.None? then None else Some(a.value + b.value)
  }

  // ---- Struct types and nested encoding ----------------------------------------------------------------

  /** A type as the encoder sees it; a field's name literal starts with its comma. */
  datatype Node = Leaf(op: Op) | Record(fields: seq<Field>)

  datatype Field = Field(name: bytes, offset: nat, conditional: bool, node: Node)

  predicate Simple(fields: seq<Field>) {
    forall k | 0 <= k < |fields| :: !fields[k].conditional
  }

  predicate Named(n: Node)
    decreases n, 1
  {
    n.Record? ==> NamedFields(n.fields)
  }

  predicate NamedFields(fields: seq<Field>)
    decreases fields, 0
  {
    fields == [] || (NamedField(fields[0]) && NamedFields(fields[1..]))
  }

  predicate NamedField(f: Field)
    decreases f, 0
  {
    match f case Field(name, _, _, node) => name != [] && name[0] == COMMA && Named(node)
  }

  /** A struct whose unconditional fields are, all the way down, structs without leaves. */
  predicate Leafless(n: Node)
    decreases n, 1
  {
    n.Record? && LeaflessFields(n.fields)
  }

  predicate LeaflessFields(fields: seq<Field>)
    decreases fields, 0
  {
    fields == [] || (LeaflessField(fields[0]) && LeaflessFields(fields[1..]))
  }

  predicate LeaflessField(f: Field)
    decreases f, 0
  {
    match f case Field(_, _, conditional, node) => !conditional && Leafless(node)
  }

  /** A struct that the flat program writes with a stray comma. */
  predicate Stray(n: Node) {
    n.Record? && n.fields != [] && Leafless(n)
  }

  /** Wraps a struct's members, dropping the first comma unless it stays. */
  function Braced(body: bytes, comma: bool): bytes {
    [LBRACE] + (if body != [] && !comma then body[1..] else body) + [RBRACE]
  }

  /** Nested encoding; with `stray`, structs without leaves keep their comma. */
  function Encode(w: World, n: Node, at: nat, depth: nat, stray: bool): Option<bytes>
    decreases n, 1
  {
    match n
    case Leaf(op) => w.emit(op, at, depth)
    case Record(fields) =>
      if depth >= DEFAULT_MAX_DEPTH then None
      else
        var body := EncodeFields(w, fields, at, depth + 1, stray);
        if body.None? then None else Some(Braced(body.value, stray && Stray(n)))
  }

  function EncodeFields(w: World, fields: seq<Field>, at: nat, depth: nat, stray: bool): Option<bytes>
    decreases fields, 0
  {
    if fields == [] then Some([]) else Joined(EncodeField(w, fields[0], at, depth, stray), EncodeFields(w, fields[1..], at, depth, stray))
  }

  function EncodeField(w: World, f: Field, at: nat, depth: nat, stray: bool): Option<bytes>
    decreases f, 0
  {
    match f
    case Field(name, offset, conditional, node) =>
      if conditional && w.omitted(at + offset) then Some([])
      else Joined(Some(name), Encode(w, node, at + offset, depth, stray))
  }

  // ---- Compiled programs -----------------------------------------------------------------------------------

  /** A compiled type: simple structs carry a flat program, the text that closes it, and the levels flattened into it. */
  datatype Program = Value(op: Op) | Struct(simple: bool, fields: seq<Slot>, close: bytes, extra: nat)

  datatype Slot = Slot(name: bytes, offset: nat, conditional: bool, node: Program)

  function Pairs(w: World, slots: seq<Slot>, at: nat, depth: nat): Option<bytes>
    decreases slots, 0
  {
    if slots == [] then Some([]) else Joined(Pair(w, slots[0], at, depth), Pairs(w, slots[1..], at, depth))
  }

  function Pair(w: World, s: Slot, at: nat, depth: nat): Option<bytes>
    decreases s, 0
  {
    match s
    case Slot(name, offset, conditional, node) =>
      if conditional && w.omitted(at + offset) then Some([]) else Joined(Some(name), Run(w, node, at + offset, depth))
  }

  /** Runs a compiled program. */
  function Run(w: World, p: Program, at: nat, depth: nat): Option<bytes>
    decreases p, 1
  {
    match p
    case Value(op) => w.emit(op, at, depth)
    case Struct(simple, slots, close, extra) =>
      if depth + extra >= DEFAULT_MAX_DEPTH then None
      else
        var body := Pairs(w, slots, at, depth + 1);
        if body.None? then None
        else if simple then Some([LBRACE] + body.value + close)
        else Some(Braced(body.value, false))
  }

  predicate ScalarSlot(s: Slot) {
    s.node.Value? && IsScalar(s.node.op) && !s.conditional
  }

  /** A slot whose struct can be flattened into its parent. */
  predicate Fusible(s: Slot) {
    s.node.Struct? && s.node.simple && forall k | 0 <= k < |s.node.fields| :: ScalarSlot(s.node.fields[k])
  }

  function Max(a: nat, b: nat): nat {
    if a >= b then a else b
  }

  /** A child's slots moved to the parent: offsets composed, the pending text in front of the first name. */
  function Splice(slots: seq<Slot>, offset: nat, prefix: bytes): (r: seq<Slot>)
    ensures |r| == |slots|
  {
    if slots == [] then []
    else [slots[0].(name := prefix + slots[0].name, offset := slots[0].offset + offset)] + Splice(slots[1..], offset, [])
  }

  datatype Fused = Fused(slots: seq<Slot>, close: bytes, extra: nat)

  /** Flattens the slots of a simple struct; `pending` is text owed to the next name or to the close. */
  function Fuse(slots: seq<Slot>, pending: bytes): (r: Fused)
    ensures r.close != []
  {
    if slots == [] then Fused([], pending + [RBRACE], 0)
    else
      var s := slots[0];
      if !Fusible(s) then
        var rest := Fuse(slots[1..], []);
        rest.(slots := [s.(name := pending + s.name)] + rest.slots)
      else if s.node.fields == [] then
        var rest := Fuse(slots[1..], pending + s.name + [LBRACE] + s.node.close);
        rest.(extra := Max(s.node.extra + 1, rest.extra))
      else
        var rest := Fuse(slots[1..], s.node.close);
        Fused(Splice(s.node.fields, s.offset, pending + s.name + [LBRACE]) + rest.slots, rest.close, Max(s.node.extra + 1, rest.extra))
  }

  /** The first literal loses its comma; a program without literals has none to lose it from. */
  function StripComma(slots: seq<Slot>): seq<Slot> {
    if slots == [] || slots[0].name == [] then slots else slots[0 := slots[0].(name := slots[0].name[1..])]
  }

  function Compile(n: Node): Program
    decreases n, 1
  {
    match n
    case Leaf(op) => Value(op)
    case Record(fields) =>
      var slots := CompileFields(fields);
      if Simple(fields) then
        var fused := Fuse(slots, []);
        Struct(true, StripComma(fused.slots), fused.close, fused.extra)
      else Struct(false, slots, [], 0)
  }

  function CompileFields(fields: seq<Field>): (slots: seq<Slot>)
    ensures |slots| == |fields|
    decreases fields, 0
  {
    if fields == [] then [] else [CompileField(fields[0])] + CompileFields(fields[1..])
  }

  function CompileField(f: Field): Slot
    decreases f, 0
  {
    match f case Field(name, offset, conditional, node) => Slot(name, offset, conditional, Compile(node))
  }

  /** What has been emitted so far, in front of what the rest will give. */
  function After(out: seq<Slot>, extra: nat, rest: Fused): Fused {
    Fused(out + rest.slots, rest.close, Max(extra, rest.extra))
  }

  lemma AfterMore(out: seq<Slot>, extra: nat, more: seq<Slot>, level: nat, rest: Fused)
    ensures After(out, extra, Fused(more + rest.slots, rest.close, Max(level, rest.extra))) == After(out + more, Max(extra, level), rest)
  {
    assert out + (more + rest.slots) == out + more + rest.slots;
  }

  /** The flattening pass, as the loop over a struct's fields that it is. */
  method FuseSimpleStructFields(slots: seq<Slot>) returns (r: Fused)
    ensures r == Fuse(slots, [])
  {
    var out, pending, extra: nat, i := [], [], 0, 0;
    assert slots[0..] == slots;
    assert After([], 0, Fuse(slots, [])) == Fuse(slots, []);
    while i < |slots|
      invariant 0 <= i <= |slots|
      invariant Fuse(slots, []) == After(out, extra, Fuse(slots[i..], pending))
    {
      hide After, Splice;
      var s := slots[i];
      assert slots[i..][1..] == slots[i + 1..];
      if !Fusible(s) {
        AfterMore(out, extra, [s.(name := pending + s.name)], 0, Fuse(slots[i + 1..], []));
        out, pending := out + [s.(name := pending + s.name)], [];
      } else {
        var level := s.node.extra + 1;
        if s.node.fields == [] {
          var next := pending + s.name + [LBRACE] + s.node.close;
          AfterMore(out, extra, [], level, Fuse(slots[i + 1..], next));
          assert out + [] == out && [] + Fuse(slots[i + 1..], next).slots == Fuse(slots[i + 1..], next).slots;
          pending := next;
        } else {
          var spliced := SpliceFields(s.node.fields, s.offset, pending + s.name + [LBRACE]);
          AfterMore(out, extra, spliced, level, Fuse(slots[i + 1..], s.node.close));
          out, pending := out + spliced, s.node.close;
        }
        if level > extra {
          extra := level;
        }
      }
      i := i + 1;
    }
    assert slots[i..] == [];
    assert out + [] == out;
    return Fused(out, pending + [RBRACE], extra);
  }

  /** Copies a child's slots, composing offsets. */
  method SpliceFields(slots: seq<Slot>, offset: nat, prefix: bytes) returns (r: seq<Slot>)
    ensures r == Splice(slots, offset, prefix)
  {
    r := [];
    var j := 0;
    assert slots[0..] == slots;
    while j < |slots|
      invariant 0 <= j <= |slots|
      invariant Splice(slots, offset, prefix) == r + Splice(slots[j..], offset, if j == 0 then prefix else [])
    {
      assert slots[j..][1..] == slots[j + 1..];
      var s := slots[j];
      s := s.(offset := s.offset + offset);
      assert [] + s.name == s.name;
      if j == 0 {
        s := s.(name := prefix + s.name);
      }
      Regroup(r, [s], Splice(slots[j + 1..], offset, []));
      r := r + [s];
      j := j + 1;
    }
  }

  lemma Regroup<T>(a: seq<T>, b: seq<T>, c: seq<T>)
    ensures a + (b + c) == a + b + c
  {
  }

  // ---- Splicing keeps the meaning -----------------------------------------------------------------------------

  lemma JoinedAssociates(a: Option<bytes>, b: Option<bytes>, c: Option<bytes>)
    ensures Joined(a, Joined(b, c)) == Joined(Joined(a, b), c)
  {
    if a.Some? && b.Some? && c.Some? {
      Regroup(a.value, b.value, c.value);
    }
  }

  lemma {:induction false} PairsAppend(w: World, s: seq<Slot>, t: seq<Slot>, at: nat, depth: nat)
    ensures Pairs(w, s + t, at, depth) == Joined(Pairs(w, s, at, depth), Pairs(w, t, at, depth))
  {
    if s == [] {
      assert s + t == t;
      assert Pairs(w, t, at, depth).Some? ==> [] + Pairs(w, t, at, depth).value == Pairs(w, t, at, depth).value;
    } else {
      assert (s + t)[1..] == s[1..] + t;
      PairsAppend(w, s[1..], t, at, depth);
      JoinedAssociates(Pair(w, s[0], at, depth), Pairs(w, s[1..], at, depth), Pairs(w, t, at, depth));
    }
  }

  predicate AllScalar(slots: seq<Slot>) {
    forall k | 0 <= k < |slots| :: ScalarSlot(slots[k])
  }

  lemma ScalarPair(w: World, s: Slot, at: nat, depth: nat, other: nat, offset: nat, prefix: bytes)
    requires DepthBlind(w) && ScalarSlot(s)
    ensures var moved := s.(name := prefix + s.name, offset := s.offset + offset);
            Pair(w, moved, at, other) == Joined(Some(prefix), Pair(w, s, at + offset, depth))
  {
    var a := at + offset + s.offset;
    assert w.emit(s.node.op, a, other) == w.emit(s.node.op, a, depth);
    assert at + (s.offset + offset) == a;
    JoinedAssociates(Some(prefix), Some(s.name), w.emit(s.node.op, a, depth));
  }

  /** A spliced child writes what it wrote, behind the prefix. */
  lemma {:induction false} SpliceMeaning(w: World, slots: seq<Slot>, at: nat, depth: nat, other: nat, offset: nat, prefix: bytes)
    requires DepthBlind(w) && AllScalar(slots) && slots != []
    ensures Pairs(w, Splice(slots, offset, prefix), at, other) == Joined(Some(prefix), Pairs(w, slots, at + offset, depth))
  {
    hide DepthBlind, ScalarSlot, Pair;
    var tail := slots[1..];
    var moved := slots[0].(name := prefix + slots[0].name, offset := slots[0].offset + offset);
    ScalarPair(w, slots[0], at, depth, other, offset, prefix);
    var spliced := Splice(slots, offset, prefix);
    assert spliced[1..] == Splice(tail, offset, []);
    if tail == [] {
      assert Splice(tail, offset, []) == [];
    } else {
      SpliceMeaning(w, tail, at, depth, other, offset, []);
      NoPrefix(Pairs(w, tail, at + offset, depth));
    }
    JoinedAssociates(Some(prefix), Pair(w, slots[0], at + offset, depth), Pairs(w, tail, at + offset, depth));
  }

  lemma NoPrefix(t: Option<bytes>)
    ensures Joined(Some([]), t) == t && Joined(t, Some([])) == t
  {
    assert t.Some? ==> [] + t.value == t.value && t.value + [] == t.value;
  }

  // ---- Flattening keeps the meaning ------------------------------------------------------------------------------

  predicate Unconditional(slots: seq<Slot>) {
    forall k | 0 <= k < |slots| :: !slots[k].conditional
  }

  /** a, b and c in a row. */
  function Row(a: Option<bytes>, b: Option<bytes>, c: bytes): Option<bytes> {
    Joined(Joined(a, b), Some(c))
  }

  lemma RowShift(p: bytes, a: Option<bytes>, b: Option<bytes>, c: bytes)
    ensures Row(Some(p), Joined(a, b), c) == Joined(Joined(Some(p), a), Row(Some([]), b, c))
  {
    if a.Some? && b.Some? {
      assert p + (a.value + b.value) + c == (p + a.value) + ([] + b.value + c);
    }
  }

  lemma RowExtend(p: bytes, x: bytes, b: Option<bytes>, c: bytes)
    ensures Row(Some(p), Joined(Some(x), b), c) == Row(Some(p + x), b, c)
  {
    if b.Some? {
      assert p + (x + b.value) + c == p + x + b.value + c;
    }
  }

  lemma RowSplit(p: bytes, x: Option<bytes>, close: bytes, b: Option<bytes>, c: bytes)
    ensures Row(Some(p), Joined(Joined(x, Some(close)), b), c) == Joined(Joined(Some(p), x), Row(Some(close), b, c))
  {
    if x.Some? && b.Some? {
      assert p + (x.value + close + b.value) + c == (p + x.value) + (close + b.value + c);
    }
  }

  /** Running a fusible child: its depth check, and what it writes. */
  lemma RunFusible(w: World, s: Slot, at: nat, depth: nat)
    requires Fusible(s) && !s.conditional
    ensures var body := Pairs(w, s.node.fields, at + s.offset, depth + 2);
            Pair(w, s, at, depth + 1) ==
            if depth + (s.node.extra + 1) >= DEFAULT_MAX_DEPTH then None
            else Joined(Joined(Some(s.name + [LBRACE]), body), Some(s.node.close))
  {
    var body := Pairs(w, s.node.fields, at + s.offset, depth + 2);
    if body.Some? {
      assert s.name + ([LBRACE] + body.value + s.node.close) == s.name + [LBRACE] + body.value + s.node.close;
    }
  }

  /** The flat program writes the nested text, closing braces included, and checks depth where nesting would. */
  lemma {:induction false} FuseMeaning(w: World, slots: seq<Slot>, pending: bytes, at: nat, depth: nat)
    requires DepthBlind(w) && Unconditional(slots) && depth < DEFAULT_MAX_DEPTH
    ensures var items, r := Pairs(w, slots, at, depth + 1), Fuse(slots, pending);
            if depth + r.extra >= DEFAULT_MAX_DEPTH then items.None?
            else Row(Some(pending), items, [RBRACE]) == Joined(Pairs(w, r.slots, at, depth + 1), Some(r.close))
    decreases |slots|, 1
  {
    hide DepthBlind, ScalarSlot, Splice;
    if slots == [] {
      assert pending + [] + [RBRACE] == [] + (pending + [RBRACE]);
    } else {
      var s, tail := slots[0], slots[1..];
      var items := Pairs(w, tail, at, depth + 1);
      if !Fusible(s) {
        FusePlain(w, s, tail, pending, at, depth);
      } else {
        RunFusible(w, s, at, depth);
        if s.node.fields == [] {
          FuseEmpty(w, s, tail, pending, at, depth);
        } else {
          FuseChild(w, s, tail, pending, at, depth);
        }
      }
    }
  }

  lemma {:induction false} FusePlain(w: World, s: Slot, tail: seq<Slot>, pending: bytes, at: nat, depth: nat)
    requires DepthBlind(w) && Unconditional([s] + tail) && depth < DEFAULT_MAX_DEPTH && !Fusible(s)
    ensures var items, rest := Joined(Pair(w, s, at, depth + 1), Pairs(w, tail, at, depth + 1)), Fuse(tail, []);
            var slots := [s.(name := pending + s.name)] + rest.slots;
            if depth + rest.extra >= DEFAULT_MAX_DEPTH then items.None?
            else Row(Some(pending), items, [RBRACE]) == Joined(Pairs(w, slots, at, depth + 1), Some(rest.close))
    decreases |tail| + 1, 0
  {
    hide DepthBlind, Fusible, Fuse;
    assert ([s] + tail)[0] == s && ([s] + tail)[1..] == tail;
    FuseMeaning(w, tail, [], at, depth);
    var rest := Fuse(tail, []);
    var moved := s.(name := pending + s.name);
    var pair := Pair(w, s, at, depth + 1);
    assert Pair(w, moved, at, depth + 1) == Joined(Some(pending), pair) by {
      JoinedAssociates(Some(pending), Some(s.name), Run(w, s.node, at + s.offset, depth + 1));
    }
    assert ([moved] + rest.slots)[1..] == rest.slots;
    RowShift(pending, pair, Pairs(w, tail, at, depth + 1), [RBRACE]);
    JoinedAssociates(Joined(Some(pending), pair), Pairs(w, rest.slots, at, depth + 1), Some(rest.close));
  }

  lemma {:induction false} FuseEmpty(w: World, s: Slot, tail: seq<Slot>, pending: bytes, at: nat, depth: nat)
    requires DepthBlind(w) && Unconditional([s] + tail) && depth < DEFAULT_MAX_DEPTH && Fusible(s) && s.node.fields == []
    ensures var items, rest := Joined(Pair(w, s, at, depth + 1), Pairs(w, tail, at, depth + 1)), Fuse(tail, pending + s.name + [LBRACE] + s.node.close);
            if depth + Max(s.node.extra + 1, rest.extra) >= DEFAULT_MAX_DEPTH then items.None?
            else Row(Some(pending), items, [RBRACE]) == Joined(Pairs(w, rest.slots, at, depth + 1), Some(rest.close))
    decreases |tail| + 1, 0
  {
    assert ([s] + tail)[0] == s && ([s] + tail)[1..] == tail;
    RunFusible(w, s, at, depth);
    hide DepthBlind, Fusible, Fuse, Pair;
    var text := s.name + [LBRACE] + s.node.close;
    assert s.name + [LBRACE] + [] + s.node.close == text && pending + s.name + [LBRACE] + s.node.close == pending + text;
    FuseMeaning(w, tail, pending + text, at, depth);
    RowExtend(pending, text, Pairs(w, tail, at, depth + 1), [RBRACE]);
  }

  lemma {:induction false} FuseChild(w: World, s: Slot, tail: seq<Slot>, pending: bytes, at: nat, depth: nat)
    requires DepthBlind(w) && Unconditional([s] + tail) && depth < DEFAULT_MAX_DEPTH && Fusible(s) && s.node.fields != []
    ensures var items, rest := Joined(Pair(w, s, at, depth + 1), Pairs(w, tail, at, depth + 1)), Fuse(tail, s.node.close);
            var slots := Splice(s.node.fields, s.offset, pending + s.name + [LBRACE]) + rest.slots;
            if depth + Max(s.node.extra + 1, rest.extra) >= DEFAULT_MAX_DEPTH then items.None?
            else Row(Some(pending), items, [RBRACE]) == Joined(Pairs(w, slots, at, depth + 1), Some(rest.close))
    decreases |tail| + 1, 0
  {
    assert ([s] + tail)[0] == s && ([s] + tail)[1..] == tail;
    RunFusible(w, s, at, depth);
    var prefix := pending + s.name + [LBRACE];
    SpliceMeaning(w, s.node.fields, at, depth + 2, depth + 1, s.offset, prefix);
    hide DepthBlind, Fusible, Fuse, Pair, Splice;
    FuseMeaning(w, tail, s.node.close, at, depth);
    var rest, items := Fuse(tail, s.node.close), Pairs(w, tail, at, depth + 1);
    var spliced := Splice(s.node.fields, s.offset, prefix);
    var body := Pairs(w, s.node.fields, at + s.offset, depth + 2);
    PairsAppend(w, spliced, rest.slots, at, depth + 1);
    hide Pairs;
    var text := s.name + [LBRACE];
    RowSplit(pending, Joined(Some(text), body), s.node.close, items, [RBRACE]);
    JoinedAssociates(Some(pending), Some(text), body);
    assert pending + text == prefix;
    JoinedAssociates(Pairs(w, spliced, at, depth + 1), Pairs(w, rest.slots, at, depth + 1), Some(rest.close));
  }

  // ---- The whole compiler ------------------------------------------------------------------------------------------

  predicate NonemptyNames(slots: seq<Slot>) {
    forall k | 0 <= k < |slots| :: slots[k].name != []
  }

  /** A program's first literal is never empty, and belongs to a slot that is always written. */
  lemma {:induction false} FirstLiteral(slots: seq<Slot>, pending: bytes)
    requires NonemptyNames(slots) && Unconditional(slots)
    ensures var r := Fuse(slots, pending); r.slots != [] ==> r.slots[0].name != [] && !r.slots[0].conditional
  {
    if slots != [] {
      var s := slots[0];
      if Fusible(s) && s.node.fields == [] {
        FirstLiteral(slots[1..], pending + s.name + [LBRACE] + s.node.close);
      } else if Fusible(s) {
        assert ScalarSlot(s.node.fields[0]);
      }
    }
  }

  lemma StripMeaning(w: World, slots: seq<Slot>, at: nat, depth: nat)
    requires slots != [] ==> slots[0].name != [] && !slots[0].conditional
    ensures var p := Pairs(w, slots, at, depth);
            Pairs(w, StripComma(slots), at, depth) == (if p.None? || slots == [] || p.value == [] then p else Some(p.value[1..]))
    ensures slots != [] && Pairs(w, slots, at, depth).Some? ==> Pairs(w, slots, at, depth).value != []
  {
    if slots != [] {
      var s := slots[0];
      assert StripComma(slots)[1..] == slots[1..];
      var value, rest := Run(w, s.node, at + s.offset, depth), Pairs(w, slots[1..], at, depth);
      if value.Some? && rest.Some? {
        assert (s.name + value.value + rest.value)[1..] == s.name[1..] + value.value + rest.value;
      }
    }
  }

  lemma {:induction false} CompiledFields(fields: seq<Field>)
    requires NamedFields(fields)
    ensures NonemptyNames(CompileFields(fields)) && (Simple(fields) <==> Unconditional(CompileFields(fields)))
  {
    if fields != [] {
      CompiledFields(fields[1..]);
      var slots := CompileFields(fields);
      assert slots[1..] == CompileFields(fields[1..]) && slots[0] == CompileField(fields[0]);
      assert Simple(fields) <==> !fields[0].conditional && Simple(fields[1..]);
      assert Unconditional(slots) <==> !slots[0].conditional && Unconditional(slots[1..]);
      assert NonemptyNames(slots) <==> slots[0].name != [] && NonemptyNames(slots[1..]);
    }
  }

  /** A compiled struct has an empty flat program exactly when its type has no leaves. */
  lemma {:induction false} EmptyProgram(n: Node)
    requires Named(n)
    ensures Leafless(n) <==> Compile(n).Struct? && Compile(n).simple && Compile(n).fields == []
    decreases n, 1
  {
    if n.Record? {
      if Simple(n.fields) {
        EmptyFields(n.fields, []);
      } else {
        NotLeafless(n.fields);
      }
    }
  }

  lemma {:induction false} NotLeafless(fields: seq<Field>)
    ensures LeaflessFields(fields) ==> Simple(fields)
  {
    if fields != [] && LeaflessFields(fields) {
      NotLeafless(fields[1..]);
      assert LeaflessField(fields[0]) && !fields[0].conditional;
      assert forall k | 1 <= k < |fields| :: fields[k] == fields[1..][k - 1];
    }
  }

  lemma {:induction false} EmptyFields(fields: seq<Field>, pending: bytes)
    requires NamedFields(fields) && Simple(fields)
    ensures LeaflessFields(fields) <==> Fuse(CompileFields(fields), pending).slots == []
    decreases fields, 0
  {
    if fields != [] {
      var slots := CompileFields(fields);
      assert slots[1..] == CompileFields(fields[1..]);
      EmptyNode(fields[0]);
      if Fusible(slots[0]) {
        EmptyFields(fields[1..], if slots[0].node.fields == [] then pending + slots[0].name + [LBRACE] + slots[0].node.close else slots[0].node.close);
      }
    }
  }

  lemma {:induction false} EmptyNode(f: Field)
    requires NamedField(f) && !f.conditional
    ensures LeaflessField(f) <==> Fusible(CompileField(f)) && CompileField(f).node.fields == []
    decreases f, 0
  {
    match f case Field(_, _, _, node) => EmptyProgram(node);
  }

  /**
   Running the compiled program is nested encoding, for every type, value, address and depth: the same bytes, and the
   same cases that fail, the depth limit among them; structs that have fields but no leaves keep a stray comma.
   */
  lemma {:induction false} FusionPreserves(w: World, n: Node, at: nat, depth: nat)
    requires DepthBlind(w) && Named(n)
    ensures Run(w, Compile(n), at, depth) == Encode(w, n, at, depth, true)
    decreases n, 1
  {
    if n.Record? && depth < DEFAULT_MAX_DEPTH {
      FieldsPreserved(w, n.fields, at, depth + 1);
      CompiledFields(n.fields);
      if Simple(n.fields) {
        SimplePreserved(w, n, at, depth);
      } else {
        NotLeafless(n.fields);
      }
    }
  }

  lemma SimplePreserved(w: World, n: Node, at: nat, depth: nat)
    requires DepthBlind(w) && Named(n) && n.Record? && Simple(n.fields) && depth < DEFAULT_MAX_DEPTH
    requires Pairs(w, CompileFields(n.fields), at, depth + 1) == EncodeFields(w, n.fields, at, depth + 1, true)
    requires NonemptyNames(CompileFields(n.fields)) && Unconditional(CompileFields(n.fields))
    ensures Run(w, Compile(n), at, depth) == Encode(w, n, at, depth, true)
  {
    var slots := CompileFields(n.fields);
    var r := Fuse(slots, []);
    FuseMeaning(w, slots, [], at, depth);
    FirstLiteral(slots, []);
    StripMeaning(w, r.slots, at, depth + 1);
    EmptyFields(n.fields, []);
    var items, flat := Pairs(w, slots, at, depth + 1), Pairs(w, r.slots, at, depth + 1);
    hide DepthBlind, Fuse, Pairs, EncodeFields, CompileFields, LeaflessFields, NamedFields, StripComma, Simple, Unconditional, NonemptyNames;
    if depth + r.extra < DEFAULT_MAX_DEPTH && items.Some? {
      NoPrefix(items);
      assert flat.Some? && items.value + [RBRACE] == flat.value + r.close;
      Closing(items.value, flat.value, r.close, r.slots == [], n.fields == []);
    }
  }

  /** Stripping a comma from the flat text, or leaving it in the closing text. */
  lemma Closing(items: bytes, flat: bytes, close: bytes, none: bool, empty: bool)
    requires items + [RBRACE] == flat + close && close != [] && (none ==> flat == []) && (!none ==> flat != []) && (empty ==> items == [])
    ensures [LBRACE] + (if none then flat else flat[1..]) + close == Braced(items, !empty && none)
  {
    if !none {
      assert |items| + 1 == |flat| + |close|;
      assert (flat + close)[1..] == flat[1..] + close && (items + [RBRACE])[1..] == items[1..] + [RBRACE];
      assert [LBRACE] + flat[1..] + close == [LBRACE] + (flat[1..] + close);
      assert [LBRACE] + items[1..] + [RBRACE] == [LBRACE] + (items[1..] + [RBRACE]);
    } else {
      assert flat + close == close;
      assert [LBRACE] + items + [RBRACE] == [LBRACE] + (items + [RBRACE]);
      assert [LBRACE] + [] + close == [LBRACE] + close;
    }
  }

  lemma {:induction false} FieldsPreserved(w: World, fields: seq<Field>, at: nat, depth: nat)
    requires DepthBlind(w) && NamedFields(fields)
    ensures Pairs(w, CompileFields(fields), at, depth) == EncodeFields(w, fields, at, depth, true)
    decreases fields, 0
  {
    if fields != [] {
      assert CompileFields(fields)[1..] == CompileFields(fields[1..]);
      FieldPreserved(w, fields[0], at, depth);
      FieldsPreserved(w, fields[1..], at, depth);
    }
  }

  lemma {:induction false} FieldPreserved(w: World, f: Field, at: nat, depth: nat)
    requires DepthBlind(w) && NamedField(f)
    ensures Pair(w, CompileField(f), at, depth) == EncodeField(w, f, at, depth, true)
    decreases f, 0
  {
    match f case Field(_, offset, _, node) => FusionPreserves(w, node, at + offset, depth);
  }

  // ---- When the two encodings are the same bytes -------------------------------------------------------------------

  /** How many stray commas the flat program writes for this value. */
  function Strays(w: World, n: Node, at: nat): nat
    decreases n, 1
  {
    match n
    case Leaf(_) => 0
    case Record(fields) => StraysIn(w, fields, at) + if Stray(n) then 1 else 0
  }

  function StraysIn(w: World, fields: seq<Field>, at: nat): nat
    decreases fields, 0
  {
    if fields == [] then 0 else StraysOf(w, fields[0], at) + StraysIn(w, fields[1..], at)
  }

  function StraysOf(w: World, f: Field, at: nat): nat
    decreases f, 0
  {
    match f case Field(_, offset, conditional, node) => if conditional && w.omitted(at + offset) then 0 else Strays(w, node, at + offset)
  }

  /** a and b fail together; otherwise b is longer by n bytes, and the same bytes when n is zero. */
  predicate Longer(a: Option<bytes>, b: Option<bytes>, n: nat) {
    (a.Some? <==> b.Some?) && (a.Some? ==> |b.value| == |a.value| + n && (n == 0 ==> a == b))
  }

  lemma LongerJoined(a: Option<bytes>, b: Option<bytes>, n: nat, c: Option<bytes>, d: Option<bytes>, m: nat)
    requires Longer(a, b, n) && Longer(c, d, m)
    ensures Longer(Joined(a, c), Joined(b, d), n + m)
  {
  }

  /** A stray comma adds a byte; without one the members agree. */
  lemma {:induction false} StrayLength(w: World, n: Node, at: nat, depth: nat)
    requires Named(n)
    ensures Longer(Encode(w, n, at, depth, false), Encode(w, n, at, depth, true), Strays(w, n, at))
    decreases n, 1
  {
    if n.Record? && depth < DEFAULT_MAX_DEPTH {
      StrayFields(w, n.fields, at, depth + 1);
      if Leafless(n) {
        NotLeafless(n.fields);
      }
      LeadingName(w, n.fields, at, depth + 1, false);
      LeadingName(w, n.fields, at, depth + 1, true);
      hide EncodeFields, StraysIn;
      var a, b := EncodeFields(w, n.fields, at, depth + 1, false), EncodeFields(w, n.fields, at, depth + 1, true);
      if a.Some? {
        BracedLonger(a.value, b.value, StraysIn(w, n.fields, at), Stray(n));
      }
    }
  }

  lemma BracedLonger(a: bytes, b: bytes, n: nat, stray: bool)
    requires |b| == |a| + n && (n == 0 ==> a == b) && (stray ==> a != []) && (a == [] <==> b == [])
    ensures |Braced(b, stray)| == |Braced(a, false)| + n + (if stray then 1 else 0)
    ensures n == 0 && !stray ==> Braced(a, false) == Braced(b, stray)
  {
  }

  /** A struct whose first field is always written has text that starts with the field's name. */
  lemma {:induction false} LeadingName(w: World, fields: seq<Field>, at: nat, depth: nat, stray: bool)
    requires NamedFields(fields)
    ensures var body := EncodeFields(w, fields, at, depth, stray);
            body.Some? ==> (body.value == [] <==> AllOmitted(w, fields, at))
    decreases |fields|
  {
    if fields != [] {
      LeadingName(w, fields[1..], at, depth, stray);
      assert NamedField(fields[0]);
    }
  }

  predicate AllOmitted(w: World, fields: seq<Field>, at: nat)
    decreases |fields|
  {
    fields == [] || (fields[0].conditional && w.omitted(at + fields[0].offset) && AllOmitted(w, fields[1..], at))
  }

  lemma {:induction false} StrayFields(w: World, fields: seq<Field>, at: nat, depth: nat)
    requires NamedFields(fields)
    ensures Longer(EncodeFields(w, fields, at, depth, false), EncodeFields(w, fields, at, depth, true), StraysIn(w, fields, at))
    decreases fields, 0
  {
    if fields != [] {
      StrayField(w, fields[0], at, depth);
      StrayFields(w, fields[1..], at, depth);
      LongerJoined(EncodeField(w, fields[0], at, depth, false), EncodeField(w, fields[0], at, depth, true), StraysOf(w, fields[0], at),
                   EncodeFields(w, fields[1..], at, depth, false), EncodeFields(w, fields[1..], at, depth, true), StraysIn(w, fields[1..], at));
    }
  }

  lemma {:induction false} StrayField(w: World, f: Field, at: nat, depth: nat)
    requires NamedField(f)
    ensures Longer(EncodeField(w, f, at, depth, false), EncodeField(w, f, at, depth, true), StraysOf(w, f, at))
    decreases f, 0
  {
    match f
    case Field(name, offset, conditional, node) =>
      if !(conditional && w.omitted(at + offset)) {
        StrayLength(w, node, at + offset, depth);
        LongerJoined(Some(name), Some(name), 0, Encode(w, node, at + offset, depth, false), Encode(w, node, at + offset, depth, true), Strays(w, node, at + offset));
      }
  }

  /**
   The flat program succeeds exactly when nested encoding does, and then writes the same bytes exactly when the value
   holds no struct that has fields but no leaves.
   */
  lemma FusionExact(w: World, n: Node, at: nat, depth: nat)
    requires DepthBlind(w) && Named(n)
    ensures var flat, nested := Run(w, Compile(n), at, depth), Encode(w, n, at, depth, false);
            (flat.Some? <==> nested.Some?) && (nested.Some? ==> (flat == nested <==> Strays(w, n, at) == 0))
  {
    hide Run, Compile, Encode, Strays, DepthBlind;
    FusionPreserves(w, n, at, depth);
    StrayLength(w, n, at, depth);
  }

  /** A struct whose only field is an empty struct: nested encoding writes {"x":{}}, the flat program {,"x":{}}. */
  lemma StrayExample(w: World)
    ensures var name := [COMMA, QUOTE, 0x78, QUOTE, COLON];
            var n := Record([Field(name, 0, false, Record([]))]);
            Run(w, Compile(n), 0, 0) == Some([LBRACE] + name + [LBRACE, RBRACE, RBRACE]) &&
            Encode(w, n, 0, 0, false) == Some([LBRACE] + name[1..] + [LBRACE, RBRACE, RBRACE])
  {
    var name := [COMMA, QUOTE, 0x78, QUOTE, COLON];
    var inner := Record([]);
    var f := Field(name, 0, false, inner);
    var n := Record([f]);
    var p := Struct(true, [], [RBRACE], 0);
    assert Compile(inner) == p;
    var s := Slot(name, 0, false, p);
    assert CompileFields([f]) == [s];
    assert Fuse([s], []) == Fused([], [] + name + [LBRACE] + [RBRACE] + [RBRACE], 1);
    assert Pairs(w, [], 0, 1) == Some([]);
    assert Run(w, Compile(n), 0, 0) == Some([LBRACE] + [] + ([] + name + [LBRACE] + [RBRACE] + [RBRACE]));
    assert EncodeFields(w, [], 0, 2, false) == Some([]);
    assert Encode(w, inner, 0, 1, false) == Some(Braced([], false));
    assert Braced([], false) == [LBRACE, RBRACE];
    assert EncodeFields(w, [f], 0, 1, false) == Some(name + [LBRACE, RBRACE] + []);
    assert Encode(w, n, 0, 0, false) == Some(Braced(name + [LBRACE, RBRACE] + [], false));
    assert Braced(name + [LBRACE, RBRACE] + [], false) == [LBRACE] + name[1..] + [LBRACE, RBRACE, RBRACE];
    assert [LBRACE] + [] + ([] + name + [LBRACE] + [RBRACE] + [RBRACE]) == [LBRACE] + name + [LBRACE, RBRACE, RBRACE];
  }
}
