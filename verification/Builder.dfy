/**
 The two builders of the structural index over caller-provided storage: the fast walk with its three
 fixed stacks, and the diagnostic parser that threads its stack through the next words of the
 entries it has not finished.
 */
module Builder {
  import opened Json
  import opened Tape
  import opened Scan

  const FAST_WALK_MAX_DEPTH: nat := 64

  datatype Status = Ok | Invalid | Full

  datatype BuildError = NoError | SyntaxError | IndexFull | IndexTooLarge

  datatype Position = AtAnyValue | AtObjectKey | AtScopeEnd

  datatype Scope = Scope(entry: nat, count: nat, isArray: bool)

  function ScopeOf(st: Stack): Scope
    requires !st.Empty?
  {
    Scope(HeaderIndex(st, false), st.Count(), st.InArray?)
  }

  /** The fixed stacks of the fast walk describe the open containers. */
  predicate Mirrors(st: Stack, scopes: seq<Scope>) {
    |scopes| == st.Depth() &&
    (!st.Empty? ==> var k := |scopes| - 1; scopes[k] == ScopeOf(st) && Mirrors(st.outer, scopes[..k]))
  }

  predicate CountsFit(st: Stack) {
    st.Empty? || (st.Count() <= INFO_MAX_COUNT && CountsFit(st.outer))
  }

  lemma MirrorsPush(inner: Stack, scopes: seq<Scope>)
    requires !inner.Empty? && Mirrors(inner.outer, scopes)
    ensures Mirrors(inner, scopes + [ScopeOf(inner)])
  {
    assert (scopes + [ScopeOf(inner)])[..|scopes|] == scopes;
  }

  lemma MirrorsBump(st: Stack, v: Value, scopes: seq<Scope>)
    requires !st.Empty? && Mirrors(st, scopes)
    ensures var k := |scopes| - 1;
            0 <= k && scopes[k] == ScopeOf(st) && Mirrors(st.outer, scopes[..k]) &&
            Mirrors(st.Add(v), scopes[k := scopes[k].(count := scopes[k].count + 1)])
  {
    var k := |scopes| - 1;
    assert scopes[k := scopes[k].(count := scopes[k].count + 1)][..k] == scopes[..k];
  }

  lemma MirrorsKey(st: Stack, key: Key, scopes: seq<Scope>)
    requires st.InObject? && Mirrors(st, scopes)
    ensures Mirrors(st.(key := key), scopes)
  {
  }

  predicate OpenedBy(st: Stack, inner: Stack, entry: nat, isArray: bool) {
    !inner.Empty? && inner.outer == st && ScopeOf(inner) == Scope(entry, 0, isArray)
  }

  /** Three parallel fixed-size stacks: header entry numbers, comma counts and container kinds. */
  class ScopeStack {
    const entryStack: array<nat>
    const countStack: array<nat>
    const arrayStack: array<bool>
    var sp: nat
    ghost var scopes: seq<Scope>
    ghost const Repr: set<object>

    ghost predicate Valid()
      reads this, Repr
    {
      Repr == {this, entryStack, countStack, arrayStack} && entryStack != countStack &&
      entryStack.Length == countStack.Length == arrayStack.Length == FAST_WALK_MAX_DEPTH &&
      sp == |scopes| <= FAST_WALK_MAX_DEPTH &&
      forall k | 0 <= k < sp :: scopes[k] == Scope(entryStack[k], countStack[k], arrayStack[k])
    }

    constructor ()
      ensures Valid() && fresh(Repr) && scopes == []
    {
      var entries, counts := new nat[FAST_WALK_MAX_DEPTH], new nat[FAST_WALK_MAX_DEPTH];
      var kinds := new bool[FAST_WALK_MAX_DEPTH];
      entryStack, countStack, arrayStack := entries, counts, kinds;
      sp, scopes := 0, [];
      Repr := {this, entries, counts, kinds};
    }

    method Push(entry: nat, isArray: bool)
      requires Valid() && sp < FAST_WALK_MAX_DEPTH
      modifies Repr
      ensures Valid() && scopes == old(scopes) + [Scope(entry, 0, isArray)]
    {
      entryStack[sp], countStack[sp], arrayStack[sp] := entry, 0, isArray;
      sp, scopes := sp + 1, scopes + [Scope(entry, 0, isArray)];
    }

    method Bump()
      requires Valid() && sp > 0
      modifies Repr
      ensures Valid() && sp == old(sp)
      ensures var k := sp - 1;
              scopes == old(scopes)[k := old(scopes)[k].(count := old(scopes)[k].count + 1)]
    {
      countStack[sp - 1] := countStack[sp - 1] + 1;
      scopes := scopes[sp - 1 := scopes[sp - 1].(count := scopes[sp - 1].count + 1)];
    }

    /** The innermost scope. */
    method Top() returns (s: Scope)
      requires Valid() && sp > 0
      ensures s == scopes[sp - 1]
    {
      s := Scope(entryStack[sp - 1], countStack[sp - 1], arrayStack[sp - 1]);
    }

    method Pop()
      requires Valid() && sp > 0
      modifies Repr
      ensures Valid() && scopes == old(scopes)[..old(sp) - 1]
    {
      sp, scopes := sp - 1, scopes[..sp - 1];
    }
  }

  /** The registers of the walk: its label, its cursor and the byte it last loaded. */
  datatype Walk = Walk(pos: Position, at: nat, c: byte)

  /** For the proof: the open containers, and the value just completed at a scope end. */
  datatype Progress = Progress(st: Stack, v: Value)

  class TapeBuilder {
    const src: bytes
    const maxDepth: nat
    const entries: array<Entry>
    var n: nat
    var parent: nat
    var i: nat
    var sp: nat

    ghost predicate Valid()
      reads this
    {
      |src| < TWO_TO_THE_32 && entries.Length < TWO_TO_THE_32 && n <= entries.Length && i <= |src|
    }

    ghost function Contents(): seq<Entry>
      reads this, entries
      requires Valid()
    {
      entries[..n]
    }

    constructor (src: bytes, storage: array<Entry>, maxDepth: nat)
      requires |src| < TWO_TO_THE_32 && storage.Length < TWO_TO_THE_32
      ensures this.src == src && entries == storage && this.maxDepth == maxDepth
      ensures Valid() && n == 0 && i == 0 && sp == 0 && parent == NO_PARENT
    {
      this.src := src;
      this.maxDepth := maxDepth;
      entries := storage;
      n, i, sp, parent := 0, 0, 0, NO_PARENT;
    }

    /** Appends one entry within the caller's storage. */
    method Add(e: Entry) returns (ok: bool)
      requires Valid()
      modifies this`n, entries
      ensures Valid() && ok == (old(n) < entries.Length)
      ensures Contents() == if ok then old(Contents()) + [e] else old(Contents())
    {
      ok := n < entries.Length;
      if ok {
        entries[n] := e;
        n := n + 1;
      }
    }

    method Overwrite(k: nat, e: Entry)
      requires Valid() && k < n
      modifies entries
      ensures Valid() && Contents() == old(Contents())[k := e]
    {
      entries[k] := e;
    }

    /** Records the string whose opening quote is at `start`. */
    method StringFast(start: nat, flags: nat) returns (status: Status)
      requires Valid() && ByteAt(src, start, QUOTE) && (flags == 0 || flags == FLAG_KEY)
      modifies this`n, this`i, entries
      ensures Valid()
      ensures status.Ok? ==>
        var t := ScanString(src, start + 1);
        t.StringToken? && i == t.end &&
        Contents() == old(Contents()) + [Entry(start, t.end, 1, PackInfo(0, KIND_STRING, flags + if t.escaped then FLAG_ESCAPED else 0))]
      ensures status.Invalid? ==> ScanString(src, start + 1).BadString?
      ensures status.Full? ==> old(n) == entries.Length
    {
      hide ScanString, PackInfo;
      var scanStart := start + 1;
      if start + 9 <= |src| {
        var j := FindSpecialIn8(src, start + 1);
        SpecialByte(src, j);
        if j < start + 9 && src[j] == QUOTE {
          var ok := Add(Entry(start, j + 1, 1, PackInfo(0, KIND_STRING, flags)));
          if !ok {
            return Full;
          }
          i := j + 1;
          return Ok;
        }
        scanStart := j;
      }
      var end, escaped, ok := ScanJSONStringFastFrom(src, scanStart);
      if !ok {
        return Invalid;
      }
      var allFlags := if escaped then flags + FLAG_ESCAPED else flags;
      ok := Add(Entry(start, end, 1, PackInfo(0, KIND_STRING, allFlags)));
      if !ok {
        return Full;
      }
      i := end;
      return Ok;
    }

    /** Records the scalar at i when it is a literal or a number; `end` is the byte after it. */
    method EmitScalar(at: nat) returns (status: Status, end: nat)
      requires Valid() && at < |src| && src[at] != QUOTE && src[at] != LBRACE && src[at] != LBRACKET
      modifies this`n, entries
      ensures Valid()
      ensures status.Ok? ==>
        var r := ParseScalar(src, at);
        r.Good? && end == r.end && Contents() == old(Contents()) + Layout(r.val)
      ensures status.Invalid? ==> ParseScalar(src, at).Bad?
      ensures status.Full? ==> old(n) == entries.Length
    {
      var kind, flag;
      if src[at] == TRUE[0] {
        if !(at + 4 <= |src| && src[at..at + 4] == TRUE) {
          return Invalid, at;
        }
        kind, end, flag := Bool, at + 4, false;
      } else if src[at] == FALSE[0] {
        if !(at + 5 <= |src| && src[at + 1..at + 5] == FALSE[1..]) {
          LiteralTail(src, at);
          return Invalid, at;
        }
        LiteralTail(src, at);
        kind, end, flag := Bool, at + 5, false;
      } else if src[at] == NULL[0] {
        if !(at + 4 <= |src| && src[at..at + 4] == NULL) {
          return Invalid, at;
        }
        kind, end, flag := Null, at + 4, false;
      } else {
        if src[at] != MINUS && !IsDigit(src[at]) {
          return Invalid, at;
        }
        var numberEnd, integer, ok := ScanNumberFastTagged(src, at);
        if !ok {
          return Invalid, at;
        }
        kind, end, flag := Number, numberEnd, integer;
      }
      var ok := Add(ScalarEntry(kind, at, end, flag));
      status := if ok then Ok else Full;
    }

    /** Where the walk stands, as seen from the label it is about to execute. */
    ghost predicate At(w: Walk, p: Progress, goal: Parsed<Value>)
      reads this, entries
    {
      Valid() && w.at <= |src| && p.st.Depth() <= maxDepth && CountableStack(p.st) &&
      match w.pos
      case AtAnyValue =>
        w.at < |src| && Contents() == OpenTape(p.st, false) && AtValue(src, maxDepth, p.st, w.at) == goal
      case AtObjectKey =>
        w.c == (if w.at < |src| then src[w.at] else 0) &&
        p.st.InObject? && Contents() == SettledTape(p.st, false) && AtKey(src, maxDepth, p.st, w.at) == goal
      case AtScopeEnd =>
        Countable(p.v) && Contents() == OpenTape(p.st, false) + Layout(p.v) && AfterValue(src, maxDepth, p.st, w.at, p.v) == goal
    }

    /** What a verdict other than success says about the value the grammar sees. */
    ghost predicate Explains(status: Status, goal: Parsed<Value>)
      reads this
    {
      (status.Invalid? ==> goal.Bad? || !Countable(goal.val) || Nesting(goal.val) > FAST_WALK_MAX_DEPTH) &&
      (status.Full? ==> goal.Good? ==> |Layout(goal.val)| > entries.Length)
    }

    /** Label `value` of the walk, on a container; `push` tells whether it stays open. */
    method StepContainer(w: Walk, ghost p: Progress, sp: nat, limit: nat, ghost goal: Parsed<Value>)
      returns (status: Status, w': Walk, push: bool, ghost p': Progress)
      requires At(w, p, goal) && w.pos.AtAnyValue? && sp == p.st.Depth()
      requires limit == if maxDepth > FAST_WALK_MAX_DEPTH then FAST_WALK_MAX_DEPTH else maxDepth
      requires src[w.at] == LBRACE || src[w.at] == LBRACKET
      modifies this, entries
      ensures Valid() && Explains(status, goal)
      ensures status.Ok? ==> At(w', p', goal) && w.at < w'.at
      ensures status.Ok? && !push ==> p'.st == p.st
      ensures status.Ok? && push ==> sp < limit && OpenedBy(p.st, p'.st, old(n), src[w.at] == LBRACKET)
    {
      hide ParseValue, AtValue, AtKey, AfterElement, AfterValue, OpenTape, SettledTape, Layout, OpenHeader, HeaderIndex;
      w', push, p' := w, false, p;
      AtValueGrows(src, maxDepth, p.st, w.at, false);
      var isArray := src[w.at] == LBRACKET;
      NoStart(src, maxDepth, p.st, w.at);
      ContainerNests(src, maxDepth, p.st, w.at);
      if sp >= limit {
        return Invalid, w, false, p;
      }
      var entry := n;
      var ok := Add(Entry(w.at, 0, 0, PackInfo(0, if isArray then KIND_ARRAY else KIND_OBJECT, 0)));
      if !ok {
        return Full, w, false, p;
      }
      ghost var st := if isArray then InArray(p.st, w.at, []) else InObject(p.st, w.at, [], Key(0, 0, false));
      RecordHeader(st, false);
      status, w', push, p' := StepInside(w, p, entry, st, goal);
    }

    /** Past the bracket at w: an empty container is finished, any other is entered. */
    method StepInside(w: Walk, ghost p: Progress, entry: nat, ghost st: Stack, ghost goal: Parsed<Value>)
      returns (status: Status, w': Walk, push: bool, ghost p': Progress)
      requires Valid() && w.at < |src| && (src[w.at] == LBRACE || src[w.at] == LBRACKET) && p.st.Depth() < maxDepth && CountableStack(p.st)
      requires st == if src[w.at] == LBRACKET then InArray(p.st, w.at, []) else InObject(p.st, w.at, [], Key(0, 0, false))
      requires Contents() == SettledTape(st, false) && entry == HeaderIndex(st, false) && AtValue(src, maxDepth, p.st, w.at) == goal
      modifies this, entries
      ensures Valid() && Explains(status, goal)
      ensures status.Ok? ==> At(w', p', goal) && w.at < w'.at
      ensures status.Ok? && !push ==> p'.st == p.st
      ensures status.Ok? && push ==> p'.st == st
    {
      hide ParseValue, AtValue, AtKey, AfterElement, AfterValue, OpenTape, SettledTape, Layout, OpenHeader, HeaderIndex;
      w', push, p' := w, false, p;
      var isArray := src[w.at] == LBRACKET;
      RecordHeader(st, false);
      var at, c := NextSignificant(src, w.at + 1);
      if isArray && at >= |src| {
        OpenArray(src, maxDepth, p.st, w.at);
        NoStart(src, maxDepth, st, at);
        return Invalid, w, false, p;
      }
      if c == if isArray then RBRACKET else RBRACE {
        EmptyContainer(src, maxDepth, p.st, w.at, st);
        CloseHeader(st, false, at + 1);
        Overwrite(entry, entries[entry].(end := at + 1, next := n - entry));
        return Ok, Walk(AtScopeEnd, at + 1, c), false, Progress(p.st, st.Closed(at + 1));
      }
      if isArray {
        OpenArray(src, maxDepth, p.st, w.at);
      } else {
        OpenObject(src, maxDepth, p.st, w.at, Key(0, 0, false));
      }
      return Ok, Walk(if isArray then AtAnyValue else AtObjectKey, at, c), true, p.(st := st);
    }

    /** Label `value` of the walk, on a string, literal or number. */
    method StepScalar(w: Walk, ghost p: Progress, ghost goal: Parsed<Value>)
      returns (status: Status, w': Walk, ghost p': Progress)
      requires At(w, p, goal) && w.pos.AtAnyValue?
      requires src[w.at] != LBRACE && src[w.at] != LBRACKET
      modifies this, entries
      ensures Valid() && Explains(status, goal)
      ensures status.Ok? ==> At(w', p', goal) && w.at < w'.at && p'.st == p.st
    {
      AtValueGrows(src, maxDepth, p.st, w.at, false);
      w', p' := w, p;
      var end;
      if src[w.at] == QUOTE {
        status := StringFast(w.at, 0);
        end := i;
      } else {
        status, end := EmitScalar(w.at);
      }
      if status.Ok? {
        w', p' := Walk(AtScopeEnd, end, 0), p.(v := ParseScalar(src, w.at).val);
      }
    }

    /** Label `objectKey` of the walk. */
    method StepKey(w: Walk, ghost p: Progress, ghost goal: Parsed<Value>)
      returns (status: Status, w': Walk, ghost p': Progress)
      requires At(w, p, goal) && w.pos.AtObjectKey?
      modifies this, entries
      ensures Valid() && Explains(status, goal)
      ensures status.Ok? ==> At(w', p', goal) && w.at < w'.at
      ensures status.Ok? ==> p'.st.InObject? && p'.st == p.st.(key := p'.st.key)
    {
      hide ParseValue, AtKey, AtValue, AfterElement, Layout, OpenTape, SettledTape, Countable, ScanString, PackInfo;
      AtKeyGrows(src, maxDepth, p.st, w.at, false);
      NoStart(src, maxDepth, p.st, w.at);
      if w.c != QUOTE {
        return Invalid, w, p;
      }
      AtName(src, maxDepth, p.st, w.at);
      status := StringFast(w.at, FLAG_KEY);
      if !status.Ok? {
        return status, w, p;
      }
      ghost var key := Key(w.at, i, ScanString(src, w.at + 1).escaped);
      var at, c := NextSignificant(src, i);
      if c != COLON {
        return Invalid, w, p;
      }
      at := SkipSpaceFast(src, at + 1);
      if at >= |src| {
        NoStart(src, maxDepth, p.st.(key := key), at);
        return Invalid, w, p;
      }
      RecordKey(p.st, key, false);
      return Ok, Walk(AtAnyValue, at, c), p.(st := p.st.(key := key));
    }

    /** Label `scopeEnd` of the walk, inside a container: on to the next element or, when `pop`, past the closing bracket. */
    method StepScopeEnd(w: Walk, ghost p: Progress, top: Scope, ghost goal: Parsed<Value>)
      returns (status: Status, w': Walk, pop: bool, ghost p': Progress)
      requires At(w, p, goal) && w.pos.AtScopeEnd?
      requires !p.st.Empty? && top == ScopeOf(p.st)
      modifies this, entries
      ensures Valid() && Explains(status, goal)
      ensures status.Ok? ==> At(w', p', goal) && w.at < w'.at
      ensures status.Ok? ==> p'.st == if pop then p.st.outer else p.st.Add(p.v)
    {
      hide ParseValue, AtValue, AtKey, AfterElement, SettledTape, OpenTape, OpenHeader, Layout, Countable, CountableStack;
      pop := false;
      ghost var st := p.st.Add(p.v);
      SettleValue(src, maxDepth, p.st, w.at, p.v);
      CountableStackAdd(p.st, p.v);
      var at, c := NextSignificant(src, w.at);
      if c == COMMA {
        if top.isArray {
          NextElement(src, maxDepth, st, w.at);
          at := SkipSpaceFast(src, at + 1);
          if at >= |src| {
            NoStart(src, maxDepth, st, at);
            return Invalid, w, false, p;
          }
          return Ok, Walk(AtAnyValue, at, c), false, p.(st := st);
        }
        NextMember(src, maxDepth, st, w.at);
        at, c := NextSignificant(src, at + 1);
        return Ok, Walk(AtObjectKey, at, c), false, p.(st := st);
      }
      if c != if top.isArray then RBRACKET else RBRACE {
        Stuck(src, maxDepth, st, w.at);
        return Invalid, w, false, p;
      }
      var count := top.count + 1;
      if count > INFO_MAX_COUNT {
        ElementGrows(src, maxDepth, st, w.at, false);
        return Invalid, w, false, p;
      }
      CloseTop(src, maxDepth, st, w.at);
      CountableClosed(st, at + 1);
      CloseEntry(top.entry, at + 1, count, st);
      return Ok, Walk(AtScopeEnd, at + 1, c), true, Progress(st.outer, st.Closed(at + 1));
    }

    /** Completes an open header of the fast walk. */
    method CloseEntry(entry: nat, end: nat, count: nat, ghost st: Stack)
      requires Valid() && !st.Empty? && Contents() == SettledTape(st, false)
      requires entry == HeaderIndex(st, false) && count == st.Count() <= INFO_MAX_COUNT
      modifies entries
      ensures Valid() && Contents() == OpenTape(st.outer, false) + Layout(st.Closed(end))
    {
      CloseHeader(st, false, end);
      UnpackInfo(0, if st.InArray? then KIND_ARRAY else KIND_OBJECT, 0, entries[entry]);
      Overwrite(entry, entries[entry].(end := end, next := n - entry).SetCount(count));
    }

    /** The walk starts at the root value, and finishes with its layout as the tape. */
    lemma AtRoot(w: Walk, p: Progress, goal: Parsed<Value>)
      requires Valid() && w.at <= |src| && p.st.Empty?
      ensures Mirrors(p.st, [])
      ensures w.pos.AtAnyValue? && n == 0 && w.at < |src| && goal == ParseValue(src, w.at, 0, maxDepth) ==> At(w, p, goal)
      ensures w.pos.AtScopeEnd? && At(w, p, goal) ==>
                goal == Good(p.v, w.at) && Countable(p.v) && Contents() == Layout(p.v)
    {
      assert w.pos.AtScopeEnd? && At(w, p, goal) ==> [] + Layout(p.v) == Layout(p.v);
    }

    /** The walk and its fixed stacks agree on the open containers. */
    ghost predicate Ready(w: Walk, p: Progress, scopes: ScopeStack, goal: Parsed<Value>)
      reads this, entries, scopes, scopes.Repr
    {
      scopes.Valid() && entries !in scopes.Repr && this !in scopes.Repr && p.st.Depth() <= FAST_WALK_MAX_DEPTH &&
      At(w, p, goal) && Mirrors(p.st, scopes.scopes)
    }

    /** One label of the walk, with its work on the fixed stacks. */
    method Step(w: Walk, ghost p: Progress, scopes: ScopeStack, limit: nat, ghost goal: Parsed<Value>)
      returns (status: Status, w': Walk, ghost p': Progress)
      requires limit == if maxDepth > FAST_WALK_MAX_DEPTH then FAST_WALK_MAX_DEPTH else maxDepth
      requires Ready(w, p, scopes, goal) && !(w.pos.AtScopeEnd? && scopes.sp == 0)
      modifies this, entries, scopes.Repr
      ensures Valid() && Explains(status, goal)
      ensures status.Ok? ==> Ready(w', p', scopes, goal) && w.at < w'.at
    {
      hide ParseValue, AtValue, AtKey, AfterValue, AfterElement, OpenTape, SettledTape, Layout, Countable, CountableStack;
      if w.pos.AtObjectKey? {
        status, w', p' := StepKey(w, p, goal);
        if status.Ok? {
          MirrorsKey(p.st, p'.st.key, scopes.scopes);
        }
      } else if w.pos.AtScopeEnd? {
        status, w', p' := StepAfter(w, p, scopes, goal);
      } else if src[w.at] == LBRACE || src[w.at] == LBRACKET {
        status, w', p' := StepOpen(w, p, scopes, limit, goal);
      } else {
        status, w', p' := StepScalar(w, p, goal);
      }
    }

    /** Past a finished value, the top scope counts it and stays, or is popped. */
    method StepAfter(w: Walk, ghost p: Progress, scopes: ScopeStack, ghost goal: Parsed<Value>)
      returns (status: Status, w': Walk, ghost p': Progress)
      requires Ready(w, p, scopes, goal) && w.pos.AtScopeEnd? && scopes.sp > 0
      modifies this, entries, scopes.Repr
      ensures Valid() && Explains(status, goal)
      ensures status.Ok? ==> Ready(w', p', scopes, goal) && w.at < w'.at
    {
      hide ParseValue, AtValue, AtKey, AfterValue, AfterElement, OpenTape, SettledTape, Layout, Countable, CountableStack;
      MirrorsBump(p.st, p.v, scopes.scopes);
      var pop := false;
      var top := scopes.Top();
      status, w', pop, p' := StepScopeEnd(w, p, top, goal);
      if status.Ok? && pop {
        scopes.Pop();
      } else if status.Ok? {
        scopes.Bump();
      }
    }

    /** At a bracket: a container with something in it is pushed. */
    method StepOpen(w: Walk, ghost p: Progress, scopes: ScopeStack, limit: nat, ghost goal: Parsed<Value>)
      returns (status: Status, w': Walk, ghost p': Progress)
      requires limit == if maxDepth > FAST_WALK_MAX_DEPTH then FAST_WALK_MAX_DEPTH else maxDepth
      requires Ready(w, p, scopes, goal) && w.pos.AtAnyValue? && (src[w.at] == LBRACE || src[w.at] == LBRACKET)
      modifies this, entries, scopes.Repr
      ensures Valid() && Explains(status, goal)
      ensures status.Ok? ==> Ready(w', p', scopes, goal) && w.at < w'.at
    {
      hide ParseValue, AtValue, AtKey, AfterValue, AfterElement, OpenTape, SettledTape, Layout, Countable, CountableStack;
      var entry, push := n, false;
      status, w', push, p' := StepContainer(w, p, scopes.sp, limit, goal);
      if status.Ok? && push {
        MirrorsPush(p'.st, scopes.scopes);
        scopes.Push(entry, src[w.at] == LBRACKET);
      }
    }

    /**
     The goto loop of the fast walk, from the first byte of the document's value. When it succeeds
     the tape is the layout of the value the grammar sees; when it does not, the grammar sees none,
     or the value breaks the count limit, nests deeper than the fixed stacks, or outgrows the storage.
     */
    method WalkFast() returns (status: Status)
      requires Valid() && n == 0 && i < |src|
      modifies this, entries
      ensures Valid()
      ensures var goal := ParseValue(src, old(i), 0, maxDepth);
              Explains(status, goal) &&
              (status.Ok? ==> goal.Good? && Countable(goal.val) && i == goal.end && Contents() == Layout(goal.val))
    {
      var scopes := new ScopeStack();
      var limit := if maxDepth > FAST_WALK_MAX_DEPTH then FAST_WALK_MAX_DEPTH else maxDepth;
      ghost var goal := ParseValue(src, i, 0, maxDepth);
      var w := Walk(AtAnyValue, i, 0);
      ghost var p := Progress(Stack.Empty, Scalar(Null, 0, 0, false));
      AtRoot(w, p, goal);
      while !(w.pos.AtScopeEnd? && scopes.sp == 0)
        invariant fresh(scopes.Repr) && Ready(w, p, scopes, goal)
        decreases |src| - w.at
      {
        status, w, p := Step(w, p, scopes, limit, goal);
        if !status.Ok? {
          return;
        }
      }
      AtRoot(w, p, goal);
      i := w.at;
      return Ok;
    }

    // ---- The diagnostic parser -------------------------------------------------------------------

    /** The scope stack threaded through the next words of the open headers. */
    ghost predicate Threaded(st: Stack)
      reads this
    {
      Valid() && parent == HeaderIndex(st, true) && sp == st.Depth() <= maxDepth && CountableStack(st) && CountsFit(st)
    }

    ghost predicate BeforeValue(st: Stack, goal: Parsed<Value>)
      reads this, entries
    {
      Threaded(st) && Contents() == OpenTape(st, true) && AtValue(src, maxDepth, st, SkipSpace(src, i)) == goal
    }

    ghost predicate BeforeKey(st: Stack, goal: Parsed<Value>)
      reads this, entries
    {
      Threaded(st) && st.InObject? && Contents() == SettledTape(st, true) && AtKey(src, maxDepth, st, SkipSpace(src, i)) == goal
    }

    ghost predicate Completed(p: Progress, goal: Parsed<Value>)
      reads this, entries
    {
      Threaded(p.st) && Countable(p.v) && Contents() == OpenTape(p.st, true) + Layout(p.v) &&
      AfterValue(src, maxDepth, p.st, i, p.v) == goal
    }

    /** What an error says about the value the grammar sees. */
    ghost predicate Blames(err: BuildError, goal: Parsed<Value>)
      reads this
    {
      (err.SyntaxError? ==> goal.Bad?) &&
      (err.IndexFull? ==> goal.Good? ==> |Layout(goal.val)| > entries.Length) &&
      (err.IndexTooLarge? ==> goal.Good? ==> !Countable(goal.val))
    }

    /** Scans the string whose opening quote is at i. */
    method ScanStringAt() returns (end: nat, escaped: bool, ok: bool)
      requires Valid() && ByteAt(src, i, QUOTE)
      modifies this`i
      ensures Valid() && ScanString(src, old(i) + 1) == if ok then StringToken(end, escaped) else BadString
      ensures ok ==> i == end
    {
      end, escaped, ok := ScanJSONStringFastFrom(src, i + 1);
      if ok {
        i := end;
      }
    }

    /** Emits a complete scalar at i, leaving the cursor after it. */
    method ScalarValue(ghost p: Progress, ghost goal: Parsed<Value>) returns (err: BuildError, ghost p': Progress)
      requires BeforeValue(p.st, goal) && i == SkipSpace(src, i) < |src| && src[i] != LBRACE && src[i] != LBRACKET
      modifies this, entries
      ensures Valid() && Blames(err, goal)
      ensures err.NoError? ==> Completed(p', goal) && old(i) < i
    {
      hide AfterValue, OpenTape, CountableStack, HeaderIndex;
      var start := i;
      p' := p.(v := Scalar(Null, 0, 0, false));
      AtValueGrows(src, maxDepth, p.st, i, true);
      if src[start] == QUOTE {
        var end, escaped, ok := ScanStringAt();
        if !ok {
          return SyntaxError, p;
        }
        ok := Add(ScalarEntry(String, start, end, escaped));
        if !ok {
          return IndexFull, p;
        }
      } else {
        var status, end := EmitScalar(start);
        if !status.Ok? {
          return if status.Full? then IndexFull else SyntaxError, p;
        }
        i := end;
      }
      return NoError, p.(v := ParseScalar(src, start).val);
    }

    /** Emits the header of the container at i and opens it. */
    method OpenContainer(ghost p: Progress, ghost goal: Parsed<Value>) returns (err: BuildError, ghost st: Stack)
      requires BeforeValue(p.st, goal) && i == SkipSpace(src, i) < |src| && (src[i] == LBRACE || src[i] == LBRACKET)
      modifies this, entries
      ensures Valid() && Blames(err, goal)
      ensures st == if src[old(i)] == LBRACKET then InArray(p.st, old(i), []) else InObject(p.st, old(i), [], Key(0, 0, false))
      ensures err.NoError? ==> Threaded(st) && Contents() == SettledTape(st, true) && i == old(i) + 1
    {
      hide AfterValue, AfterElement, OpenTape, SettledTape, ParseValue, Layout, AtValue;
      var start := i;
      st := if src[start] == LBRACKET then InArray(p.st, start, []) else InObject(p.st, start, [], Key(0, 0, false));
      NoStart(src, maxDepth, p.st, start);
      AtValueGrows(src, maxDepth, p.st, start, true);
      i := i + 1;
      var entry := n;
      var ok := Add(Entry(start, 0, 0, PackInfo(0, if src[start] == LBRACKET then KIND_ARRAY else KIND_OBJECT, 0)));
      if !ok {
        return IndexFull, st;
      }
      if sp >= maxDepth {
        return SyntaxError, st;
      }
      RecordHeader(st, true);
      PushContainer(entry);
      return NoError, st;
    }

    /** The header's next word temporarily holds the enclosing scope. */
    method PushContainer(entry: nat)
      requires Valid() && entry < n
      modifies this`parent, this`sp, entries
      ensures Valid() && Contents() == old(Contents()[entry := entries[entry].(next := parent)])
      ensures parent == entry && sp == old(sp) + 1
    {
      Overwrite(entry, entries[entry].(next := parent));
      parent := entry;
      sp := sp + 1;
    }

    /** Pops the scope stack from the innermost header's next word and completes that header. */
    method FinishContainer(ghost st: Stack)
      requires Threaded(st) && !st.Empty? && st.Count() <= INFO_MAX_COUNT && Contents() == SettledTape(st, true)
      modifies this`parent, this`sp, entries
      ensures Threaded(st.outer) && Countable(st.Closed(i))
      ensures Contents() == OpenTape(st.outer, true) + Layout(st.Closed(i))
    {
      CloseHeader(st, true, i);
      CountableClosed(st, i);
      var entry := parent;
      var e := entries[entry];
      parent := e.next;
      sp := sp - 1;
      Overwrite(entry, e.(end := i, next := n - entry));
    }

    /** Parses one member name with its colon. */
    method ObjectKey(ghost st: Stack, ghost goal: Parsed<Value>) returns (err: BuildError, ghost st': Stack)
      requires BeforeKey(st, goal)
      modifies this, entries
      ensures Valid() && Blames(err, goal)
      ensures err.NoError? ==> BeforeValue(st', goal) && old(i) < i
    {
      hide AfterValue, AfterElement, OpenTape, SettledTape, CountableStack, CountsFit, ParseValue, AtKey, AtValue, Layout, HeaderIndex, OpenHeader, ScanString, PackInfo, KeyFlags;
      st' := st;
      i := SkipSpaceFast(src, i);
      AtKeyGrows(src, maxDepth, st, i, true);
      if i >= |src| || src[i] != QUOTE {
        NoStart(src, maxDepth, st, i);
        return SyntaxError, st;
      }
      AtName(src, maxDepth, st, i);
      ghost var key;
      err, key := AddName(st);
      if !err.NoError? {
        return err, st;
      }
      i := SkipSpaceFast(src, i);
      if i >= |src| || src[i] != COLON {
        return SyntaxError, st;
      }
      i := i + 1;
      RecordKey(st, key, true);
      KeepsStack(st, key);
      return NoError, st.(key := key);
    }

    /** Records the member name at i. */
    method AddName(ghost st: Stack) returns (err: BuildError, ghost key: Key)
      requires Valid() && st.InObject? && ByteAt(src, i, QUOTE) && Contents() == SettledTape(st, true)
      modifies this`i, this`n, entries
      ensures Valid() && (err.NoError? || err.SyntaxError? || err.IndexFull?)
      ensures err.SyntaxError? ==> ScanString(src, old(i) + 1).BadString?
      ensures err.IndexFull? ==> entries.Length == |SettledTape(st, true)|
      ensures err.NoError? ==>
        var t := ScanString(src, old(i) + 1);
        t.StringToken? && key == Key(old(i), t.end, t.escaped) && i == t.end && Contents() == SettledTape(st, true) + [KeyEntry(key)]
    {
      hide SettledTape, ScanString, PackInfo, KeyFlags;
      var start := i;
      key := Key(0, 0, false);
      var end, escaped, ok := ScanStringAt();
      if !ok {
        return SyntaxError, key;
      }
      ok := Add(Entry(start, end, 1, PackInfo(0, KIND_STRING, KeyFlags(escaped))));
      if !ok {
        return IndexFull, key;
      }
      return NoError, Key(start, end, escaped);
    }

    lemma KeepsStack(st: Stack, key: Key)
      requires st.InObject? && CountableStack(st)
      ensures CountableStack(st.(key := key)) && st.(key := key).Depth() == st.Depth()
      ensures CountsFit(st.(key := key)) == CountsFit(st)
    {
    }

    /** Opens one value: a scalar is complete, and so is an empty container; otherwise the next value follows. */
    method Begin(ghost p: Progress, ghost goal: Parsed<Value>) returns (err: BuildError, completed: bool, ghost p': Progress)
      requires BeforeValue(p.st, goal)
      modifies this, entries
      ensures Valid() && Blames(err, goal)
      ensures err.NoError? ==> old(i) < i && if completed then Completed(p', goal) else BeforeValue(p'.st, goal)
    {
      hide ParseValue, AtValue, AtKey, AfterValue, AfterElement, OpenTape, SettledTape, CountableStack, Layout;
      p', completed := p, true;
      i := SkipSpaceFast(src, i);
      SpaceSkipped(src, old(i));
      if i >= |src| {
        NoStart(src, maxDepth, p.st, i);
        return SyntaxError, false, p;
      }
      var start := i;
      if src[start] != LBRACE && src[start] != LBRACKET {
        err, p' := ScalarValue(p, goal);
        return;
      }
      ghost var st;
      err, st := OpenContainer(p, goal);
      if !err.NoError? {
        return err, false, p;
      }
      err, completed, p' := EnterContainer(p, goal, start, st);
    }

    /** Past the bracket at start: closes an empty container, or goes on to its first value. */
    method EnterContainer(ghost p: Progress, ghost goal: Parsed<Value>, start: nat, ghost st: Stack)
      returns (err: BuildError, completed: bool, ghost p': Progress)
      requires start < |src| && i == start + 1 && (src[start] == LBRACE || src[start] == LBRACKET)
      requires st == if src[start] == LBRACKET then InArray(p.st, start, []) else InObject(p.st, start, [], Key(0, 0, false))
      requires Threaded(st) && Contents() == SettledTape(st, true) && AtValue(src, maxDepth, p.st, start) == goal
      modifies this, entries
      ensures Valid() && Blames(err, goal)
      ensures err.NoError? ==> old(i) <= i && if completed then Completed(p', goal) else BeforeValue(p'.st, goal)
    {
      hide ParseValue, AtValue, AtKey, AfterValue, AfterElement, OpenTape, SettledTape, CountableStack, Layout;
      i := SkipSpaceFast(src, i);
      SpaceSkipped(src, start + 1);
      var close := if src[start] == LBRACKET then RBRACKET else RBRACE;
      if i < |src| && src[i] == close {
        EmptyContainer(src, maxDepth, p.st, start, st);
        i := i + 1;
        FinishContainer(st);
        return NoError, true, Progress(p.st, st.Closed(i));
      }
      RecordHeader(st, true);
      if src[start] == LBRACKET {
        OpenArray(src, maxDepth, p.st, start);
        return NoError, false, p.(st := st);
      }
      OpenObject(src, maxDepth, p.st, start, Key(0, 0, false));
      ghost var keyed;
      err, keyed := ObjectKey(st, goal);
      return err, false, p.(st := keyed);
    }

    lemma SpaceSkipped(s: bytes, k: nat)
      requires k <= |s|
      ensures SkipSpace(s, SkipSpace(s, k)) == SkipSpace(s, k)
      decreases |s| - k
    {
      if k < |s| && IsSpace(s[k]) {
        SpaceSkipped(s, k + 1);
      }
    }

    /** Counts the value just completed in its container. */
    method CountValue(ghost p: Progress, ghost goal: Parsed<Value>) returns (err: BuildError, isArray: bool, ghost st: Stack)
      requires Completed(p, goal) && sp > 0
      modifies entries
      ensures Valid() && Blames(err, goal)
      ensures err.NoError? ==>
                !st.Empty? && isArray == st.InArray? && Threaded(st) && Contents() == SettledTape(st, true) && st.Count() <= INFO_MAX_COUNT &&
                AfterElement(src, maxDepth, st, i) == goal
    {
      hide ParseValue, AtValue, AtKey, AfterElement, OpenTape, SettledTape, CountableStack, Layout;
      st := p.st.Add(p.v);
      RecordValue(p.st, p.v, true);
      CountableStackAdd(p.st, p.v);
      ThreadAdd(p.st, p.v);
      var frame := entries[parent];
      assert frame == Contents()[parent];
      TopHeader(p.st, frame);
      isArray := frame.Kind() == KIND_ARRAY;
      if frame.Count() == INFO_MAX_COUNT {
        ElementGrows(src, maxDepth, st, i, true);
        return IndexTooLarge, isArray, st;
      }
      Overwrite(parent, frame.BumpCount());
      err := NoError;
    }

    /** Counts the value just completed in its container and goes on to the next one, or closes the container. */
    method Advance(ghost p: Progress, ghost goal: Parsed<Value>) returns (err: BuildError, completed: bool, ghost p': Progress)
      requires Completed(p, goal) && sp > 0
      modifies this, entries
      ensures Valid() && Blames(err, goal)
      ensures err.NoError? ==> old(i) < i && if completed then Completed(p', goal) else BeforeValue(p'.st, goal)
    {
      hide ParseValue, AtValue, AtKey, AfterElement, AfterValue, OpenTape, SettledTape, CountableStack, Layout, PackInfo;
      completed, p' := false, p;
      var isArray;
      ghost var st;
      err, isArray, st := CountValue(p, goal);
      if !err.NoError? {
        return;
      }
      ghost var from := i;
      i := SkipSpaceFast(src, i);
      if i >= |src| {
        Stuck(src, maxDepth, st, from);
        return SyntaxError, false, p;
      }
      if src[i] == COMMA {
        i := i + 1;
        if isArray {
          NextElement(src, maxDepth, st, from);
          OpenIsSettled(st, true);
          return NoError, false, p.(st := st);
        }
        NextMember(src, maxDepth, st, from);
        err, st := ObjectKey(st, goal);
        return err, false, p.(st := st);
      }
      if src[i] == if isArray then RBRACKET else RBRACE {
        CloseTop(src, maxDepth, st, from);
        i := i + 1;
        FinishContainer(st);
        return NoError, true, Progress(st.outer, st.Closed(i));
      }
      Stuck(src, maxDepth, st, from);
      return SyntaxError, false, p;
    }

    /** Between elements an array's tape is settled. */
    lemma OpenIsSettled(st: Stack, threaded: bool)
      requires st.InArray?
      ensures OpenTape(st, threaded) == SettledTape(st, threaded)
    {
      assert SettledTape(st, threaded) + [] == SettledTape(st, threaded);
    }

    /**
     The diagnostic parser, over the caller's full depth limit. It accepts exactly the documents of
     the grammar and leaves their layout, every threaded next word restored to a subtree size.
     */
    method Parse() returns (err: BuildError)
      requires Valid() && n == 0 && i == 0 && sp == 0 && parent == NO_PARENT
      modifies this, entries
      ensures Valid()
      ensures var doc := ParseDocument(src, maxDepth);
              (err.NoError? ==> doc.Some? && Countable(doc.value) && Contents() == Layout(doc.value)) &&
              (err.SyntaxError? ==> doc.None?) &&
              (err.IndexFull? ==> doc.Some? ==> |Layout(doc.value)| > entries.Length) &&
              (err.IndexTooLarge? ==> doc.Some? ==> !Countable(doc.value))
    {
      i := SkipSpaceFast(src, i);
      SpaceSkipped(src, 0);
      ghost var goal := ParseValue(src, i, 0, maxDepth);
      ghost var p := Progress(Stack.Empty, Scalar(Null, 0, 0, false));
      var completed := false;
      while !(completed && sp == 0)
        invariant if completed then Completed(p, goal) else BeforeValue(p.st, goal)
        decreases |src| - i
      {
        if completed {
          err, completed, p := Advance(p, goal);
        } else {
          err, completed, p := Begin(p, goal);
        }
        if !err.NoError? {
          return;
        }
      }
      assert [] + Layout(p.v) == Layout(p.v);
      i := SkipSpaceFast(src, i);
      return if i != |src| then SyntaxError else NoError;
    }
  }

  lemma TopHeader(st: Stack, frame: Entry)
    requires !st.Empty? && frame == OpenHeader(st, true) && st.Count() <= INFO_MAX_COUNT
    ensures frame.Count() == st.Count() && (frame.Kind() == KIND_ARRAY <==> st.InArray?)
  {
    UnpackInfo(st.Count(), if st.InArray? then KIND_ARRAY else KIND_OBJECT, 0, frame);
  }

  lemma ThreadAdd(st: Stack, v: Value)
    requires !st.Empty?
    ensures HeaderIndex(st.Add(v), true) == HeaderIndex(st, true) && st.Add(v).Depth() == st.Depth()
    ensures CountsFit(st.Add(v)) <==> CountsFit(st.outer) && st.Count() < INFO_MAX_COUNT
    ensures st.InArray? ==> OpenTape(st.Add(v), true) == SettledTape(st.Add(v), true)
  {
    assert st.InArray? ==> SettledTape(st.Add(v), true) + [] == SettledTape(st.Add(v), true);
  }

  lemma LiteralTail(s: bytes, i: nat)
    requires i < |s| && s[i] == FALSE[0]
    ensures LiteralAt(s, i, FALSE) <==> i + 5 <= |s| && s[i + 1..i + 5] == FALSE[1..]
  {
    if i + 5 <= |s| {
      assert s[i..i + 5] == [s[i]] + s[i + 1..i + 5];
      assert FALSE == [FALSE[0]] + FALSE[1..];
    }
  }
}
