/**
 Running compiled programs with member names written as whole 16-byte blocks. The compiler allows a block only where
 enough output must follow; then every byte it leaves behind the name is overwritten, at every level of nesting, and
 nothing past the finished result changes.
 */
module WideNames {
  import opened Json
  import opened Fusion

  const BLOCK: nat := 16

  // ---- How short a value can be ----------------------------------------------------------------------

  /** The least a leaf can write. */
  function MinimumBytes(op: Op): (n: nat)
    ensures n >= 1
  {
    match op
    case OpBool => 4
    case OpString | OpQuoted | OpStruct | OpSlice | OpMap => 2
    case OpArray(length, elem) =>
      if length == 0 then 2
      else
        var e := MinimumBytes(elem);
        if e >= (MAX_INT - 1) / length then 1 else 1 + length * (e + 1)
    case _ => 1
  }

  function Minimum(p: Program): (n: nat)
    ensures n >= 1
  {
    if p.Value? then MinimumBytes(p.op) else 2
  }

  function JoinComma(parts: seq<bytes>): bytes {
    if parts == [] then [] else if |parts| == 1 then parts[0] else parts[0] + [COMMA] + JoinComma(parts[1..])
  }

  /** Texts a leaf can write: strings, slices, maps and structs have both delimiters; hooks write something. */
  ghost predicate Plausible(op: Op, text: bytes)
    decreases op
  {
    match op
    case OpBool => text == TRUE || text == FALSE
    case OpString | OpQuoted | OpStruct | OpSlice | OpMap => |text| >= 2
    case OpArray(length, elem) =>
      exists parts: seq<bytes> | |parts| == length ::
        text == [LBRACKET] + JoinComma(parts) + [RBRACKET] && forall k | 0 <= k < length :: Plausible(elem, parts[k])
    case _ => |text| >= 1
  }

  ghost predicate Honest(w: World) {
    forall op, a, d | w.emit(op, a, d).Some? :: Plausible(op, w.emit(op, a, d).value)
  }

  lemma {:induction false} JoinLength(parts: seq<bytes>, least: nat)
    requires parts != [] && forall k | 0 <= k < |parts| :: |parts[k]| >= least
    ensures |JoinComma(parts)| >= |parts| * (least + 1) - 1
  {
    if |parts| > 1 {
      JoinLength(parts[1..], least);
      assert |parts| * (least + 1) == (least + 1) + (|parts| - 1) * (least + 1);
    }
  }

  /** The minimum is a lower bound for everything a leaf can write. */
  lemma {:induction false} MinimumSound(op: Op, text: bytes)
    requires Plausible(op, text)
    ensures |text| >= MinimumBytes(op)
  {
    if op.OpArray? {
      var parts: seq<bytes> :| |parts| == op.length && text == [LBRACKET] + JoinComma(parts) + [RBRACKET] &&
                               forall k | 0 <= k < op.length :: Plausible(op.elem, parts[k]);
      forall k | 0 <= k < op.length
        ensures |parts[k]| >= MinimumBytes(op.elem)
      {
        MinimumSound(op.elem, parts[k]);
      }
      if parts != [] {
        JoinLength(parts, MinimumBytes(op.elem));
      }
    }
  }

  /** Programs as the compiler makes them: flat ones are unconditional and end in a closing text, in others every name has its comma. */
  predicate Made(p: Program)
    decreases p, 1
  {
    p.Struct? ==> MadeSlots(p.fields) && if p.simple then p.close != [] && Unconditional(p.fields) else NonemptyNames(p.fields)
  }

  predicate MadeSlots(slots: seq<Slot>)
    decreases slots, 0
  {
    slots == [] || (MadeSlot(slots[0]) && MadeSlots(slots[1..]))
  }

  predicate MadeSlot(s: Slot)
    decreases s, 0
  {
    match s case Slot(_, _, _, node) => Made(node)
  }

  lemma {:induction false} MadeAt(slots: seq<Slot>, i: nat)
    requires MadeSlots(slots) && i < |slots|
    ensures Made(slots[i].node)
  {
    if i == 0 {
      assert MadeSlot(slots[0]);
    } else {
      MadeAt(slots[1..], i - 1);
    }
  }

  /** Whatever a program writes, it writes at least its minimum. */
  lemma ProgramMinimum(w: World, p: Program, at: nat, depth: nat)
    requires Honest(w) && Made(p) && Run(w, p, at, depth).Some?
    ensures |Run(w, p, at, depth).value| >= Minimum(p)
  {
    if p.Value? {
      MinimumSound(p.op, w.emit(p.op, at, depth).value);
    }
  }

  // ---- Packing the names --------------------------------------------------------------------------------

  /** Least output from field i on, its name excluded, the closing brace included. */
  function TailMin(fields: seq<Slot>, i: nat): nat
    requires i < |fields|
    decreases |fields| - i
  {
    Minimum(fields[i].node) + RestMin(fields, i + 1)
  }

  function RestMin(fields: seq<Slot>, i: nat): nat
    requires i <= |fields|
    decreases |fields| - i
  {
    if i == |fields| then 1 else |fields[i].name| + Minimum(fields[i].node) + RestMin(fields, i + 1)
  }

  /** A field whose name may be written as a block. */
  predicate Wide(fields: seq<Slot>, i: nat)
    requires i < |fields|
  {
    0 < |fields[i].name| <= BLOCK && |fields[i].name| + TailMin(fields, i) >= BLOCK
  }

  function WideLength(fields: seq<Slot>, i: nat): nat
    requires i < |fields|
  {
    if Wide(fields, i) then |fields[i].name| else 0
  }

  function Saturated(n: nat): nat {
    if n >= BLOCK then BLOCK else n
  }

  /** The analysis from the last field back: which name lengths may be stored wide. Sums saturate at the block size. */
  method AllowWideNames(fields: seq<Slot>) returns (lens: seq<nat>)
    ensures |lens| == |fields|
    ensures forall i | 0 <= i < |fields| :: lens[i] == WideLength(fields, i)
  {
    lens := [];
    var tailMin: nat := 1;
    var i := |fields|;
    while i > 0
      invariant 0 <= i <= |fields| && |lens| == |fields| - i && tailMin == Saturated(RestMin(fields, i))
      invariant forall k | 0 <= k < |lens| :: lens[k] == WideLength(fields, i + k)
    {
      i := i - 1;
      ghost var before := lens;
      var valueMin := Minimum(fields[i].node);
      tailMin := if valueMin >= BLOCK - tailMin then BLOCK else tailMin + valueMin;
      var n := |fields[i].name|;
      var wide := n <= BLOCK && tailMin >= BLOCK - n;
      lens := [if wide then n else 0] + lens;
      tailMin := if n >= BLOCK - tailMin then BLOCK else tailMin + n;
      assert forall k | 1 <= k < |lens| :: lens[k] == before[k - 1];
    }
  }

  datatype Packed = Packed(len: nat, block: nat)

  /** Every wide name lies at the start of its block. */
  predicate Packs(fields: seq<Slot>, slots: seq<Packed>, data: bytes) {
    |slots| == |fields| &&
    forall i | 0 <= i < |fields| && slots[i].len > 0 ::
      Wide(fields, i) && slots[i].len == |fields[i].name| && BLOCK * slots[i].block + BLOCK <= |data| &&
      data[BLOCK * slots[i].block..BLOCK * slots[i].block + slots[i].len] == fields[i].name
  }

  function Zeros(n: nat): (z: bytes)
    ensures |z| == n
  {
    seq(n, _ => 0)
  }

  method PackNames(fields: seq<Slot>) returns (names: seq<Packed>, data: bytes)
    ensures Packs(fields, names, data)
  {
    var lens := AllowWideNames(fields);
    names, data := [], [];
    var i := 0;
    while i < |fields|
      invariant 0 <= i <= |fields| == |lens| && |names| == i && |data| % BLOCK == 0
      invariant forall k | 0 <= k < i && names[k].len > 0 ::
        Wide(fields, k) && names[k].len == |fields[k].name| && BLOCK * names[k].block + BLOCK <= |data| &&
        data[BLOCK * names[k].block..BLOCK * names[k].block + names[k].len] == fields[k].name
    {
      var block := |data| / BLOCK;
      ghost var before := data;
      if lens[i] != 0 && block <= 0xFFFF {
        var name := fields[i].name;
        names := names + [Packed(lens[i], block)];
        data := data + (name + Zeros(BLOCK - |name|));
        assert data[BLOCK * block..BLOCK * block + |name|] == name;
        assert forall p, q | 0 <= p <= q <= |before| :: data[p..q] == before[p..q];
      } else {
        names := names + [Packed(0, 0)];
      }
      i := i + 1;
    }
  }

  // ---- What follows a name -----------------------------------------------------------------------------------

  lemma PairsNext(w: World, fields: seq<Slot>, at: nat, depth: nat, i: nat)
    requires i < |fields|
    ensures Pairs(w, fields[i..], at, depth) == Joined(Pair(w, fields[i], at, depth), Pairs(w, fields[i + 1..], at, depth))
  {
    assert fields[i..][1..] == fields[i + 1..];
  }

  lemma PairsEnd(w: World, fields: seq<Slot>, at: nat, depth: nat)
    ensures Pairs(w, fields[|fields|..], at, depth) == Some([])
  {
  }

  lemma {:induction false} EnoughFollows(w: World, fields: seq<Slot>, at: nat, depth: nat, i: nat)
    requires i <= |fields| && Honest(w) && MadeSlots(fields) && Unconditional(fields) && Pairs(w, fields[i..], at, depth).Some?
    ensures |Pairs(w, fields[i..], at, depth).value| + 1 >= RestMin(fields, i)
    decreases |fields| - i
  {
    if i < |fields| {
      PairsNext(w, fields, at, depth, i);
      MadeAt(fields, i);
      hide Honest, Pairs;
      ProgramMinimum(w, fields[i].node, at + fields[i].offset, depth);
      EnoughFollows(w, fields, at, depth, i + 1);
    }
  }

  /** At least a block of output follows the start of every wide name, the closing text included. */
  lemma WideIsSafe(w: World, fields: seq<Slot>, at: nat, depth: nat, i: nat)
    requires i < |fields| && Honest(w) && MadeSlots(fields) && Unconditional(fields) && Pairs(w, fields[i..], at, depth).Some? && Wide(fields, i)
    ensures |Pairs(w, fields[i..], at, depth).value| + 1 >= BLOCK
  {
    EnoughFollows(w, fields, at, depth, i);
  }

  // ---- Writing ---------------------------------------------------------------------------------------------

  /** A byte slice with spare capacity behind it. */
  class Buffer {
    var data: array<byte>
    var len: nat

    ghost predicate Valid()
      reads this
    {
      len <= data.Length
    }

    ghost function Contents(): bytes
      reads this, data
      requires Valid()
    {
      data[..len]
    }

    constructor (data: array<byte>, len: nat)
      requires len <= data.Length
      ensures Valid() && this.data == data && this.len == len
    {
      this.data, this.len := data, len;
    }

    /** Appends, reallocating when the capacity does not suffice. */
    method Append(text: bytes)
      requires Valid()
      modifies this, data
      ensures Valid() && Contents() == old(Contents()) + text && len == old(len) + |text|
      ensures data == old(data) || fresh(data)
      ensures data == old(data) ==> forall k | len <= k < data.Length :: data[k] == old(data[k])
    {
      if data.Length - len < |text| {
        var grown := new byte[2 * data.Length + |text|];
        forall k | 0 <= k < len {
          grown[k] := data[k];
        }
        data := grown;
      }
      ghost var n := len;
      forall k | 0 <= k < |text| {
        data[len + k] := text[k];
      }
      len := len + |text|;
      assert data[..len] == data[..n] + text;
    }

    /** Appends a name, as one block when it is packed and there is room; `dirty` bounds the bytes written. */
    method AppendName(name: bytes, slot: Packed, packed: bytes, ghost dirty: nat) returns (ghost dirty': nat)
      requires Valid() && dirty <= data.Length
      requires slot.len > 0 ==>
        (slot.len == |name| <= BLOCK && BLOCK * slot.block + BLOCK <= |packed| && packed[BLOCK * slot.block..BLOCK * slot.block + slot.len] == name)
      modifies this, data
      ensures Valid() && Contents() == old(Contents()) + name && len == old(len) + |name|
      ensures data == old(data) || fresh(data)
      ensures dirty' <= data.Length
      ensures data == old(data) ==> forall k | 0 <= k < data.Length && dirty' <= k && len <= k :: data[k] == old(data[k])
      ensures dirty' == dirty || (slot.len > 0 && dirty' == old(len) + BLOCK && dirty' > dirty) || (dirty' == 0 && data != old(data))
    {
      dirty' := dirty;
      if slot.len == 0 || data.Length - len < BLOCK {
        Append(name);
        if data != old(data) {
          dirty' := 0;
        }
        return;
      }
      var base := BLOCK * slot.block;
      forall k | 0 <= k < BLOCK {
        data[len + k] := packed[base + k];
      }
      if len + BLOCK > dirty {
        dirty' := len + BLOCK;
      }
      ghost var n, stored := len, packed[base..base + slot.len];
      len := len + slot.len;
      assert forall k | 0 <= k < |stored| :: data[n + k] == packed[base + k] == stored[k];
      assert data[n..len] == stored == name;
      assert data[..len] == data[..n] + data[n..len];
      assert data[..n] == old(data[..len]);
    }
  }

  /**
   Runs a compiled program, nested structs included, appending to the buffer. It fails exactly when the program
   does, and otherwise the buffer gains exactly the program's text; unless it was reallocated, no byte past the
   result has changed, although block stores at every level may have written there on the way.
   */
  method EncodeProgram(buf: Buffer, w: World, p: Program, at: nat, depth: nat) returns (ok: bool)
    requires buf.Valid() && Honest(w) && Made(p)
    modifies buf, buf.data
    ensures buf.Valid() && (buf.data == old(buf.data) || fresh(buf.data)) && old(buf.Contents()) <= buf.Contents()
    ensures ok == Run(w, p, at, depth).Some?
    ensures ok ==> buf.Contents() == old(buf.Contents()) + Run(w, p, at, depth).value
    ensures ok && buf.data == old(buf.data) ==> forall k | buf.len <= k < buf.data.Length :: buf.data[k] == old(buf.data[k])
    decreases p, 1
  {
    hide Honest, Pairs, Plausible;
    match p
    case Value(op) =>
      var text := w.emit(op, at, depth);
      if text.None? {
        return false;
      }
      buf.Append(text.value);
      ok := true;
    case Struct(simple, fields, close, extra) =>
      if depth + extra >= DEFAULT_MAX_DEPTH {
        return false;
      }
      if simple {
        ok := EncodePairs(buf, w, fields, close, at, depth + 1);
      } else {
        ok := EncodeMembers(buf, w, fields, at, depth + 1);
      }
  }

  /** A flat struct: its names, packed as the compiler packs them, are stored as blocks where that is allowed. */
  method EncodePairs(buf: Buffer, w: World, fields: seq<Slot>, close: bytes, at: nat, depth: nat) returns (ok: bool)
    requires buf.Valid() && Honest(w) && MadeSlots(fields) && Unconditional(fields) && close != []
    modifies buf, buf.data
    ensures buf.Valid() && (buf.data == old(buf.data) || fresh(buf.data)) && old(buf.Contents()) <= buf.Contents()
    ensures ok == Pairs(w, fields, at, depth).Some?
    ensures ok ==> buf.Contents() == old(buf.Contents()) + ([LBRACE] + Pairs(w, fields, at, depth).value + close)
    ensures ok && buf.data == old(buf.data) ==> forall k | buf.len <= k < buf.data.Length :: buf.data[k] == old(buf.data[k])
    decreases fields, 0
  {
    hide Honest, Pairs, Made, MadeSlots, Run, TailMin, RestMin, NonemptyNames;
    var names, packed := PackNames(fields);
    ghost var start, all := buf.Contents(), Pairs(w, fields, at, depth);
    assert fields[0..] == fields;
    buf.Append([LBRACE]);
    ghost var dirty: nat := 0;
    var i := 0;
    while i < |fields|
      invariant 0 <= i <= |fields| && buf.Valid() && (buf.data == old(buf.data) || fresh(buf.data)) && start <= buf.Contents()
      invariant Goes(start + [LBRACE], all, buf.Contents(), Pairs(w, fields[i..], at, depth))
      invariant dirty <= buf.data.Length && Covered(dirty, buf.len, Pairs(w, fields[i..], at, depth))
      invariant buf.data == old(buf.data) ==> forall k | 0 <= k < buf.data.Length && dirty <= k && buf.len <= k :: buf.data[k] == old(buf.data[k])
    {
      ghost var before, rest := buf.Contents(), Pairs(w, fields[i..], at, depth);
      PairsNext(w, fields, at, depth, i);
      MadeAt(fields, i);
      if names[i].len > 0 && rest.Some? {
        WideIsSafe(w, fields, at, depth, i);
      }
      ok, dirty := EncodePair(buf, w, fields[i], names[i], packed, at, depth, dirty);
      if buf.data != old(buf.data) {
        dirty := 0;
      }
      if !ok {
        return;
      }
      Advances(start + [LBRACE], all, before, fields[i].name, Run(w, fields[i].node, at + fields[i].offset, depth).value, Pairs(w, fields[i + 1..], at, depth));
      i := i + 1;
    }
    PairsEnd(w, fields, at, depth);
    Closes(start, buf.Contents(), all, close);
    buf.Append(close);
    ok := true;
  }

  /** One name, as a block where that is allowed, and its value. */
  method EncodePair(buf: Buffer, w: World, s: Slot, name: Packed, packed: bytes, at: nat, depth: nat, ghost dirty: nat)
    returns (ok: bool, ghost dirty': nat)
    requires buf.Valid() && Honest(w) && Made(s.node) && dirty <= buf.data.Length
    requires name.len > 0 ==>
      (name.len == |s.name| <= BLOCK && BLOCK * name.block + BLOCK <= |packed| && packed[BLOCK * name.block..BLOCK * name.block + name.len] == s.name)
    modifies buf, buf.data
    ensures buf.Valid() && (buf.data == old(buf.data) || fresh(buf.data)) && old(buf.Contents()) <= buf.Contents()
    ensures ok == Run(w, s.node, at + s.offset, depth).Some?
    ensures ok ==> buf.Contents() == old(buf.Contents()) + s.name + Run(w, s.node, at + s.offset, depth).value
    ensures dirty' <= buf.data.Length && (dirty' <= dirty || (name.len > 0 && dirty' == old(buf.len) + BLOCK))
    ensures buf.data == old(buf.data) ==> dirty <= dirty'
    ensures ok && buf.data == old(buf.data) ==> forall k | 0 <= k < buf.data.Length && dirty' <= k && buf.len <= k :: buf.data[k] == old(buf.data[k])
    decreases s, 0
  {
    hide Honest, Made, Run;
    dirty' := buf.AppendName(s.name, name, packed, dirty);
    ok := EncodeProgram(buf, w, s.node, at + s.offset, depth);
    if buf.data != old(buf.data) {
      dirty' := 0;
    }
  }

  lemma Closes(start: bytes, written: bytes, all: Option<bytes>, close: bytes)
    requires Goes(start + [LBRACE], all, written, Some([]))
    ensures all.Some? && written + close == start + ([LBRACE] + all.value + close)
  {
    assert written + [] == written;
    assert start + [LBRACE] + all.value + close == start + ([LBRACE] + all.value + close);
  }

  /** What is written and what remains make up the goal, if there is one. */
  ghost predicate Goes(start: bytes, all: Option<bytes>, written: bytes, rest: Option<bytes>) {
    (all.Some? <==> rest.Some?) && (all.Some? ==> start + all.value == written + rest.value)
  }

  /** The bytes written on the way will be covered by what remains and a closing text. */
  ghost predicate Covered(dirty: nat, len: nat, rest: Option<bytes>) {
    rest.Some? ==> dirty <= len + |rest.value| + 1
  }

  /** A struct with conditional fields: the first name written loses its comma. */
  method EncodeMembers(buf: Buffer, w: World, fields: seq<Slot>, at: nat, depth: nat) returns (ok: bool)
    requires buf.Valid() && Honest(w) && MadeSlots(fields) && NonemptyNames(fields)
    modifies buf, buf.data
    ensures buf.Valid() && (buf.data == old(buf.data) || fresh(buf.data)) && old(buf.Contents()) <= buf.Contents()
    ensures ok == Pairs(w, fields, at, depth).Some?
    ensures ok ==> buf.Contents() == old(buf.Contents()) + Braced(Pairs(w, fields, at, depth).value, false)
    ensures ok && buf.data == old(buf.data) ==> forall k | buf.len <= k < buf.data.Length :: buf.data[k] == old(buf.data[k])
    decreases fields, 0
  {
    hide Honest, Pairs, Made, MadeSlots, Run, Braced;
    ghost var start, all := buf.Contents(), Pairs(w, fields, at, depth);
    assert fields[0..] == fields;
    buf.Append([LBRACE]);
    ghost var body: bytes := [];
    var first, i := true, 0;
    while i < |fields|
      invariant 0 <= i <= |fields| && buf.Valid() && (buf.data == old(buf.data) || fresh(buf.data))
      invariant first == (body == []) && buf.Contents() == start + [LBRACE] + if first then [] else body[1..]
      invariant Goes([], all, body, Pairs(w, fields[i..], at, depth))
      invariant buf.data == old(buf.data) ==> forall k | buf.len <= k < buf.data.Length :: buf.data[k] == old(buf.data[k])
    {
      PairsNext(w, fields, at, depth, i);
      MadeAt(fields, i);
      var s := fields[i];
      if !(s.conditional && w.omitted(at + s.offset)) {
        ok := EncodeMember(buf, w, s, if first then s.name[1..] else s.name, at, depth);
        if !ok {
          return;
        }
        ghost var value := Run(w, s.node, at + s.offset, depth).value;
        Advances([], all, body, s.name, value, Pairs(w, fields[i + 1..], at, depth));
        MoreBody(start, body, s.name, value);
        body, first := body + s.name + value, false;
      }
      i := i + 1;
    }
    PairsEnd(w, fields, at, depth);
    ClosesMembers(start, body, all);
    buf.Append([RBRACE]);
    ok := true;
  }

  /** A name and its value. */
  method EncodeMember(buf: Buffer, w: World, s: Slot, name: bytes, at: nat, depth: nat) returns (ok: bool)
    requires buf.Valid() && Honest(w) && Made(s.node)
    modifies buf, buf.data
    ensures buf.Valid() && (buf.data == old(buf.data) || fresh(buf.data)) && old(buf.Contents()) <= buf.Contents()
    ensures ok == Run(w, s.node, at + s.offset, depth).Some?
    ensures ok ==> buf.Contents() == old(buf.Contents()) + name + Run(w, s.node, at + s.offset, depth).value
    ensures ok && buf.data == old(buf.data) ==> forall k | buf.len <= k < buf.data.Length :: buf.data[k] == old(buf.data[k])
    decreases s, 0
  {
    hide Honest, Made, Run;
    buf.Append(name);
    ok := EncodeProgram(buf, w, s.node, at + s.offset, depth);
  }

  lemma ClosesMembers(start: bytes, body: bytes, all: Option<bytes>)
    requires Goes([], all, body, Some([]))
    ensures all.Some? && start + [LBRACE] + (if body == [] then [] else body[1..]) + [RBRACE] == start + Braced(all.value, false)
  {
    assert body + [] == body && [] + all.value == all.value;
  }

  lemma Advances(start: bytes, all: Option<bytes>, written: bytes, name: bytes, value: bytes, rest: Option<bytes>)
    requires Goes(start, all, written, Joined(Joined(Some(name), Some(value)), rest))
    ensures Goes(start, all, written + name + value, rest)
  {
    if rest.Some? {
      assert written + (name + value + rest.value) == written + name + value + rest.value;
    }
  }

  lemma MoreBody(start: bytes, body: bytes, name: bytes, value: bytes)
    requires name != []
    ensures start + [LBRACE] + (if body == [] then [] else body[1..]) + (if body == [] then name[1..] else name) + value ==
            start + [LBRACE] + (body + name + value)[1..]
  {
  }

  /** Compiled types are programs as the encoder expects them. */
  lemma {:induction false} CompiledMade(n: Node)
    requires Named(n)
    ensures Made(Compile(n))
    decreases n, 1
  {
    if n.Record? {
      CompiledSlots(n.fields);
      CompiledFields(n.fields);
      if Simple(n.fields) {
        var slots := CompileFields(n.fields);
        FusedMade(slots, []);
        StripMade(Fuse(slots, []).slots);
      }
    }
  }

  lemma {:induction false} CompiledSlots(fields: seq<Field>)
    requires NamedFields(fields)
    ensures MadeSlots(CompileFields(fields))
    decreases fields, 0
  {
    if fields != [] {
      var slots := CompileFields(fields);
      assert slots[1..] == CompileFields(fields[1..]) && slots[0] == CompileField(fields[0]);
      CompiledSlot(fields[0]);
      CompiledSlots(fields[1..]);
    }
  }

  lemma {:induction false} CompiledSlot(f: Field)
    requires NamedField(f)
    ensures MadeSlot(CompileField(f))
    decreases f, 0
  {
    match f case Field(_, _, _, node) => CompiledMade(node);
  }

  lemma StripMade(slots: seq<Slot>)
    requires MadeSlots(slots) && Unconditional(slots)
    ensures MadeSlots(StripComma(slots)) && Unconditional(StripComma(slots))
  {
    if slots != [] {
      assert StripComma(slots)[1..] == slots[1..];
    }
  }

  lemma {:induction false} MadeParts(a: seq<Slot>, b: seq<Slot>)
    requires MadeSlots(a) && MadeSlots(b) && Unconditional(a) && Unconditional(b)
    ensures MadeSlots(a + b) && Unconditional(a + b)
    decreases |a|
  {
    if a == [] {
      assert a + b == b;
    } else {
      assert (a + b)[1..] == a[1..] + b && (a + b)[0] == a[0];
      MadeParts(a[1..], b);
    }
  }

  lemma {:induction false} SplicedMade(slots: seq<Slot>, offset: nat, prefix: bytes)
    requires MadeSlots(slots) && Unconditional(slots)
    ensures MadeSlots(Splice(slots, offset, prefix)) && Unconditional(Splice(slots, offset, prefix))
    decreases |slots|
  {
    if slots != [] {
      var r := Splice(slots, offset, prefix);
      assert r[1..] == Splice(slots[1..], offset, []);
      assert MadeSlot(slots[0]) && Unconditional(slots[1..]);
      SplicedMade(slots[1..], offset, []);
      assert r == [r[0]] + r[1..];
    }
  }

  lemma {:induction false} FusedMade(slots: seq<Slot>, pending: bytes)
    requires MadeSlots(slots) && Unconditional(slots)
    ensures MadeSlots(Fuse(slots, pending).slots) && Unconditional(Fuse(slots, pending).slots)
    decreases |slots|
  {
    if slots != [] {
      var s, tail := slots[0], slots[1..];
      assert Unconditional(tail) && MadeSlot(s);
      if !Fusible(s) {
        FusedMade(tail, []);
        var moved := s.(name := pending + s.name);
        assert [moved][1..] == [] && MadeSlots([]) && MadeSlot(moved);
        MadeParts([moved], Fuse(tail, []).slots);
      } else if s.node.fields == [] {
        FusedMade(tail, pending + s.name + [LBRACE] + s.node.close);
      } else {
        FusedMade(tail, s.node.close);
        assert Made(s.node);
        SplicedMade(s.node.fields, s.offset, pending + s.name + [LBRACE]);
        MadeParts(Splice(s.node.fields, s.offset, pending + s.name + [LBRACE]), Fuse(tail, s.node.close).slots);
      }
    }
  }

  lemma SameTail(start: bytes, a: bytes, b: bytes)
    ensures start + a == start + b <==> a == b
  {
    if start + a == start + b {
      assert a == (start + a)[|start|..] && b == (start + b)[|start|..];
    }
  }

  /**
   Encodes a value of any type through its compiled program: exactly when nested encoding does, with the same bytes if
   and only if the value holds no struct that has fields but no leaves, and with no other byte of the buffer changed.
   */
  method EncodeNode(buf: Buffer, w: World, n: Node, at: nat) returns (ok: bool)
    requires buf.Valid() && Honest(w) && DepthBlind(w) && Named(n)
    modifies buf, buf.data
    ensures buf.Valid() && (buf.data == old(buf.data) || fresh(buf.data))
    ensures ok == Encode(w, n, at, 0, false).Some?
    ensures ok ==> (buf.Contents() == old(buf.Contents()) + Encode(w, n, at, 0, false).value <==> Strays(w, n, at) == 0)
    ensures ok && buf.data == old(buf.data) ==> forall k | buf.len <= k < buf.data.Length :: buf.data[k] == old(buf.data[k])
  {
    hide Honest, DepthBlind, Encode, Run, Compile, Made, Strays;
    CompiledMade(n);
    FusionExact(w, n, at, 0);
    ghost var start := buf.Contents();
    ok := EncodeProgram(buf, w, Compile(n), at, 0);
    if ok {
      SameTail(start, Run(w, Compile(n), at, 0).value, Encode(w, n, at, 0, false).value);
    }
  }
}
