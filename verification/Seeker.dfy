/**
 One-pass path lookup: a JSON Pointer is evaluated while the document is being validated. It gives
 the verdict, and finds the span, that walking the document's tree gives.
 */
module Seeker {
  import opened Json
  import opened Strings
  import opened KeyHash
  import opened Lookup
  import opened Routes
  import opened Pointers
  import opened Scan
  import opened Validate
  import opened Tape
  import opened Builder
  import opened Index

  datatype RawResult = RawFound(start: nat, end: nat) | RawAbsent | RawPointerError | RawSyntaxError

  /** The span that stands for an outcome. */
  function Located(o: Outcome): RawResult {
    match o
    case Found(v) => RawFound(v.start, v.end)
    case Absent => RawAbsent
    case BadIndex => RawPointerError
  }

  /** The verdict on the value whose parse is r: bad syntax wins over everything the pointer meets. */
  function Verdict(src: bytes, r: Parsed<Value>, ts: seq<bytes>): RawResult
    requires r.Good? ==> WellFormed(src, r.val)
  {
    if r.Bad? then RawSyntaxError else Located(Resolve(src, r.val, ts))
  }

  /** The tokens from position `at` of the pointer on; past its end there are none. */
  predicate TokensAt(p: bytes, at: nat, ts: seq<bytes>) {
    if at > |p| then ts == [] else TokensFrom(p, at) == Some(ts)
  }

  // ---- One element or member at a time ------------------------------------------------------------------

  /** r parses x and then what `rest` parses. */
  ghost predicate Then<T>(r: Parsed<seq<T>>, x: T, rest: Parsed<seq<T>>) {
    (r.Good? <==> rest.Good?) && (r.Good? ==> r.end == rest.end && r.val == [x] + rest.val)
  }

  lemma ElementThen(s: bytes, i: nat, d: nat, max: nat)
    requires i <= |s|
    ensures var v := ParseValue(s, i, d, max);
            var r := ParseElements(s, i, d, max);
            if v.Bad? then r.Bad?
            else
              var j := SkipSpace(s, v.end);
              if ByteAt(s, j, COMMA) then Then(r, v.val, ParseElements(s, SkipSpace(s, j + 1), d, max))
              else if ByteAt(s, j, RBRACKET) then Then(r, v.val, Good([], j + 1))
              else r.Bad?
  {
  }

  lemma MemberThen(s: bytes, i: nat, d: nat, max: nat)
    requires i <= |s|
    ensures var k := ParseKey(s, i);
            var r := ParseMembers(s, i, d, max);
            if k.Bad? then r.Bad?
            else
              var v := ParseValue(s, k.end, d, max);
              if v.Bad? then r.Bad?
              else
                var j := SkipSpace(s, v.end);
                if ByteAt(s, j, COMMA) then Then(r, Member(k.val, v.val), ParseMembers(s, SkipSpace(s, j + 1), d, max))
                else if ByteAt(s, j, RBRACE) then Then(r, Member(k.val, v.val), Good([], j + 1))
                else r.Bad?
  {
  }

  /** The members or elements read so far, then the rest, are the whole list. */
  ghost predicate ReadSoFar<T>(goal: Parsed<seq<T>>, done: seq<T>, rest: Parsed<seq<T>>) {
    (goal.Good? <==> rest.Good?) && (goal.Good? ==> goal.end == rest.end && goal.val == done + rest.val)
  }

  lemma ReadOne<T>(goal: Parsed<seq<T>>, done: seq<T>, r: Parsed<seq<T>>, x: T, rest: Parsed<seq<T>>)
    requires ReadSoFar(goal, done, r) && Then(r, x, rest)
    ensures ReadSoFar(goal, done + [x], rest)
  {
    assert rest.Good? ==> done + ([x] + rest.val) == done + [x] + rest.val;
  }

  // ---- Lists read so far -------------------------------------------------------------------------------------

  predicate AllWellFormed(src: bytes, items: seq<Value>) {
    forall k | 0 <= k < |items| :: WellFormed(src, items[k])
  }

  /** What the elements read so far say about element n. */
  function ItemsVerdict(src: bytes, items: seq<Value>, index: ArrayIndex, rest: seq<bytes>): RawResult
    requires AllWellFormed(src, items)
  {
    if index.NumberIndex? && index.n < |items| then Located(Resolve(src, items[index.n], rest)) else RawAbsent
  }

  /** What the members read so far say about the name t: the last of them counts, its error included. */
  function MembersVerdict(src: bytes, members: seq<Member>, t: bytes, rest: seq<bytes>): RawResult
    requires AllTokens(src, members)
  {
    match LastNamed(src, members, t, |members|)
    case None => RawAbsent
    case Some(k) => WellFormedValue(src, members[k]); Located(Resolve(src, members[k].value, rest))
  }

  lemma WellFormedValue(src: bytes, m: Member)
    requires WellFormedMember(src, m)
    ensures WellFormed(src, m.value)
  {
  }

  lemma {:induction false} LastNamedPrefix(src: bytes, members: seq<Member>, more: seq<Member>, t: bytes, n: nat)
    requires n <= |members| && AllTokens(src, members) && AllTokens(src, members + more)
    ensures LastNamed(src, members + more, t, n) == LastNamed(src, members, t, n)
  {
    hide Name, WellFormedMember;
    if n > 0 {
      LastNamedPrefix(src, members, more, t, n - 1);
    }
  }

  /** One more member read. */
  lemma OneMoreMember(src: bytes, members: seq<Member>, m: Member, t: bytes, rest: seq<bytes>)
    requires AllTokens(src, members) && WellFormedMember(src, m)
    ensures AllTokens(src, members + [m]) && WellFormed(src, m.value)
    ensures MembersVerdict(src, members + [m], t, rest) ==
            if Name(src, m) == t then Located(Resolve(src, m.value, rest)) else MembersVerdict(src, members, t, rest)
  {
    hide Name, Resolve, WellFormed;
    assert AllTokens(src, members + [m]) by { hide WellFormedMember; }
    WellFormedValue(src, m);
    LastNamedPrefix(src, members, [m], t, |members|);
  }

  // ---- The seeker --------------------------------------------------------------------------------------------

  /** Compares a name's content s[start..end] with a token. */
  method KeyMatches(src: bytes, start: nat, end: nat, escaped: bool, text: bytes) returns (matched: bool)
    requires 0 < start <= end < |src| && IsToken(src, start - 1, end + 1, escaped)
    ensures matched == (TokenText(src, start - 1, end + 1) == text)
  {
    if !escaped {
      return src[start..end] == text;
    }
    var decoded := DecodeText(src, start, end);
    return decoded == text;
  }

  class RawSeeker {
    const src: bytes
    const maxDepth: nat
    const pointer: bytes
    var i: nat

    ghost predicate Valid()
      reads this
    {
      i <= |src|
    }

    constructor (src: bytes, maxDepth: nat, pointer: bytes)
      ensures Valid() && this.src == src && this.maxDepth == maxDepth && this.pointer == pointer && i == 0
    {
      this.src, this.maxDepth, this.pointer, i := src, maxDepth, pointer, 0;
    }

    method Space()
      requires Valid()
      modifies this
      ensures Valid() && i == SkipSpace(src, old(i))
    {
      i := SkipSpaceWords(src, i);
    }

    /** Validates and skips one value. */
    method SkipValue(depth: nat) returns (ok: bool)
      requires Valid() && depth <= maxDepth
      modifies this
      ensures Valid()
      ensures var r := ParseValue(src, old(i), depth, maxDepth); ok == r.Good? && (ok ==> i == r.end)
    {
      var v := new Validator(src, i, maxDepth);
      ok := v.Value(depth);
      i := if ok then v.i else i;
    }

    /** Finds the target of the tokens `ts`, which the pointer spells from `at` on, in the value at i. */
    method FindValue(depth: nat, at: nat, ghost ts: seq<bytes>) returns (r: RawResult)
      requires Valid() && depth <= maxDepth && TokensAt(pointer, at, ts)
      modifies this
      ensures Valid()
      ensures var v := ParseValue(src, old(i), depth, maxDepth);
              (v.Good? ==> WellFormed(src, v.val) && i == v.end) && r == Verdict(src, v, ts)
      decreases |src| - i, 0
    {
      ghost var v := ParseValue(src, i, depth, maxDepth);
      ParsedWellFormed(src, i, depth, maxDepth);
      if at > |pointer| {
        var start := i;
        var ok := SkipValue(depth);
        return if ok then RawFound(start, i) else RawSyntaxError;
      }
      if i >= |src| {
        return RawSyntaxError;
      }
      if src[i] == LBRACE {
        r := FindObject(depth + 1, at, ts);
      } else if src[i] == LBRACKET {
        r := FindArray(depth + 1, at, ts);
      } else {
        var ok := SkipValue(depth);
        return if ok then RawAbsent else RawSyntaxError;
      }
    }

    method FindArray(depth: nat, at: nat, ghost ts: seq<bytes>) returns (r: RawResult)
      requires i < |src| && src[i] == LBRACKET && 0 < depth <= maxDepth + 1 && at <= |pointer| && TokensAt(pointer, at, ts)
      modifies this
      ensures Valid()
      ensures var v := ParseValue(src, old(i), depth - 1, maxDepth);
              (v.Good? ==> WellFormed(src, v.val) && i == v.end) && r == Verdict(src, v, ts)
      decreases |src| - i - 1, 4
    {
      if depth > maxDepth {
        return RawSyntaxError;
      }
      ParsedWellFormed(src, i, depth - 1, maxDepth);
      ghost var v := ParseValue(src, i, depth - 1, maxDepth);
      assert v.Good? ==> v.val.Arr?;
      var end, next := PointerToken(pointer, at);
      var text := UnescapePointerToken(pointer[at..end]);
      assert text == Some(ts[0]) && TokensAt(pointer, next, ts[1..]) by { NextTokens(pointer, at, ts); }
      var index := ClassifyPointerIndex(text.value);
      EasyVerdicts(src, v, ts);
      if index.InvalidIndex? {
        var ok := SkipValue(depth - 1);
        return if ok then RawPointerError else RawSyntaxError;
      }
      i := i + 1;
      Space();
      if i < |src| && src[i] == RBRACKET {
        i := i + 1;
        return RawAbsent;
      }
      ghost var goal := ParseElements(src, i, depth, maxDepth);
      assert v == if goal.Bad? then Bad else Good(Arr(old(i), goal.end, goal.val), goal.end);
      hide ParseElements, ParseValue, WellFormed, IndexOf, TokensFrom;
      var ok;
      r, ok := SeekElements(depth, index, next, ts[1..]);
      if !ok {
        return RawSyntaxError;
      }
      ArrayVerdict(src, old(i), goal, ts);
    }

    /** The elements of an array, through its closing bracket. */
    method SeekElements(depth: nat, index: ArrayIndex, next: nat, ghost rest: seq<bytes>) returns (r: RawResult, ok: bool)
      requires Valid() && depth <= maxDepth && TokensAt(pointer, next, rest)
      modifies this
      ensures Valid()
      ensures var goal := ParseElements(src, old(i), depth, maxDepth);
              if !ok then goal.Bad?
              else goal.Good? && i == goal.end && AllWellFormed(src, goal.val) && r == ItemsVerdict(src, goal.val, index, rest)
      decreases |src| - i, 3
    {
      hide ParseElements, ParseValue, WellFormed, TokensFrom;
      ghost var goal := ParseElements(src, i, depth, maxDepth);
      r, ok := RawAbsent, true;
      var elem: nat, more := 0, true;
      ghost var done, first := [], i;
      assert goal.Good? ==> [] + goal.val == goal.val;
      while more
        invariant first <= i <= |src| && |done| == elem && AllWellFormed(src, done)
        invariant ReadSoFar(goal, done, if more then ParseElements(src, i, depth, maxDepth) else Good([], i))
        invariant r == ItemsVerdict(src, done, index, rest)
        decreases |src| - i
      {
        hide Resolve;
        ghost var e := ParseElements(src, i, depth, maxDepth);
        var take := index.NumberIndex? && elem == index.n;
        var found;
        ghost var x;
        found, ok, more, x := SeekElement(depth, take, next, rest);
        if !ok {
          return;
        }
        ReadOne(goal, done, e, x, if more then ParseElements(src, i, depth, maxDepth) else Good([], i));
        r := if take then found else r;
        done, elem := done + [x], elem + 1;
      }
      assert done + [] == done;
    }

    /** One element and what follows it; when `take`, the rest of the pointer is looked up in it. */
    method SeekElement(depth: nat, take: bool, next: nat, ghost rest: seq<bytes>) returns (found: RawResult, ok: bool, more: bool, ghost x: Value)
      requires Valid() && depth <= maxDepth && TokensAt(pointer, next, rest)
      modifies this
      ensures Valid()
      ensures var e := ParseElements(src, old(i), depth, maxDepth);
              if !ok then e.Bad?
              else
                old(i) < i && WellFormed(src, x) && (take ==> found == Located(Resolve(src, x, rest))) &&
                Then(e, x, if more then ParseElements(src, i, depth, maxDepth) else Good([], i))
      decreases |src| - i, 2
    {
      hide ParseElements, ParseValue, WellFormed, Resolve, TokensFrom;
      ElementThen(src, i, depth, maxDepth);
      ghost var v := ParseValue(src, i, depth, maxDepth);
      x := if v.Good? then v.val else Scalar(Null, 0, 0, false);
      more := false;
      found, ok := SeekValue(depth, take, next, rest);
      if ok {
        ok, more := Separator(RBRACKET);
      }
    }

    /** One value; when `take`, the rest of the pointer is looked up in it. */
    method SeekValue(depth: nat, take: bool, next: nat, ghost rest: seq<bytes>) returns (found: RawResult, ok: bool)
      requires Valid() && depth <= maxDepth && TokensAt(pointer, next, rest)
      modifies this
      ensures Valid()
      ensures var v := ParseValue(src, old(i), depth, maxDepth);
              ok == v.Good? && (ok ==> i == v.end && WellFormed(src, v.val) && (take ==> found == Located(Resolve(src, v.val, rest))))
      decreases |src| - i, 1
    {
      hide ParseValue, WellFormed, Resolve, TokensFrom;
      ParsedWellFormed(src, i, depth, maxDepth);
      found := RawAbsent;
      if take {
        found := FindValue(depth, next, rest);
        ok := found != RawSyntaxError;
      } else {
        ok := SkipValue(depth);
      }
    }

    /** What follows an element or member: a comma with `more` to come, or the closing bracket. */
    method Separator(close: byte) returns (ok: bool, more: bool)
      requires Valid()
      modifies this
      ensures Valid()
      ensures var j := SkipSpace(src, old(i));
              more == (ok && ByteAt(src, j, COMMA)) && ok == (ByteAt(src, j, COMMA) || ByteAt(src, j, close)) &&
              (ok ==> i == if more then SkipSpace(src, j + 1) else j + 1)
    {
      Space();
      if i >= |src| || (src[i] != COMMA && src[i] != close) {
        return false, false;
      }
      more := src[i] == COMMA;
      i := i + 1;
      if more {
        Space();
      }
      ok := true;
    }

    method FindObject(depth: nat, at: nat, ghost ts: seq<bytes>) returns (r: RawResult)
      requires i < |src| && src[i] == LBRACE && 0 < depth <= maxDepth + 1 && at <= |pointer| && TokensAt(pointer, at, ts)
      modifies this
      ensures Valid()
      ensures var v := ParseValue(src, old(i), depth - 1, maxDepth);
              (v.Good? ==> WellFormed(src, v.val) && i == v.end) && r == Verdict(src, v, ts)
      decreases |src| - i - 1, 4
    {
      if depth > maxDepth {
        return RawSyntaxError;
      }
      ParsedWellFormed(src, i, depth - 1, maxDepth);
      ghost var v := ParseValue(src, i, depth - 1, maxDepth);
      assert v.Good? ==> v.val.Obj?;
      var end, next := PointerToken(pointer, at);
      var text := UnescapePointerToken(pointer[at..end]);
      assert text == Some(ts[0]) && TokensAt(pointer, next, ts[1..]) by { NextTokens(pointer, at, ts); }
      EasyVerdicts(src, v, ts);
      i := i + 1;
      Space();
      if i < |src| && src[i] == RBRACE {
        i := i + 1;
        return RawAbsent;
      }
      ghost var goal := ParseMembers(src, i, depth, maxDepth);
      assert v == if goal.Bad? then Bad else Good(Obj(old(i), goal.end, goal.val), goal.end);
      hide ParseMembers, ParseValue, WellFormed, TokensFrom;
      var ok;
      r, ok := SeekMembers(depth, text.value, next, ts[1..]);
      if !ok {
        return RawSyntaxError;
      }
      ObjectVerdict(src, old(i), goal, ts);
    }

    /** The members of an object, through its closing brace; the last match decides, whatever earlier ones met. */
    method SeekMembers(depth: nat, text: bytes, next: nat, ghost rest: seq<bytes>) returns (r: RawResult, ok: bool)
      requires Valid() && depth <= maxDepth && TokensAt(pointer, next, rest)
      modifies this
      ensures Valid()
      ensures var goal := ParseMembers(src, old(i), depth, maxDepth);
              if !ok then goal.Bad?
              else goal.Good? && i == goal.end && AllTokens(src, goal.val) && r == MembersVerdict(src, goal.val, text, rest)
      decreases |src| - i, 3
    {
      hide ParseMembers, ParseValue, WellFormed, WellFormedMember, TokensFrom, Resolve;
      ghost var goal := ParseMembers(src, i, depth, maxDepth);
      r, ok := RawAbsent, true;
      var more := true;
      ghost var done, first := [], i;
      assert goal.Good? ==> [] + goal.val == goal.val;
      while more
        invariant first <= i <= |src| && AllTokens(src, done)
        invariant ReadSoFar(goal, done, if more then ParseMembers(src, i, depth, maxDepth) else Good([], i))
        invariant r == MembersVerdict(src, done, text, rest)
        decreases |src| - i
      {
        hide MembersVerdict, AllTokens;
        ghost var e := ParseMembers(src, i, depth, maxDepth);
        var found, matched;
        ghost var m;
        found, matched, ok, more, m := SeekMember(depth, text, next, rest);
        if !ok {
          return;
        }
        ReadOne(goal, done, e, m, if more then ParseMembers(src, i, depth, maxDepth) else Good([], i));
        OneMoreMember(src, done, m, text, rest);
        r := if matched then found else r;
        done := done + [m];
      }
      assert done + [] == done;
    }

    /** A member name with its colon, compared with `text`. */
    method SeekKey(text: bytes) returns (matched: bool, ok: bool)
      requires Valid()
      modifies this
      ensures Valid()
      ensures var k := ParseKey(src, old(i));
              ok == k.Good? &&
              (ok ==> i == k.end && IsToken(src, k.val.start, k.val.end, k.val.escaped) && matched == (TokenText(src, k.val.start, k.val.end) == text))
    {
      hide ScanString;
      matched, ok := false, false;
      if i >= |src| || src[i] != QUOTE {
        return;
      }
      var start := i + 1;
      var end, escaped;
      end, escaped, ok := ScanStringChecked(src, start);
      if !ok {
        return;
      }
      TokenInterior(src, start);
      matched := KeyMatches(src, start, end - 1, escaped, text);
      i := end;
      Space();
      if i >= |src| || src[i] != COLON {
        return false, false;
      }
      i := i + 1;
      Space();
    }

    /** One member and what follows it; when its name is `text`, the rest of the pointer is looked up in its value. */
    method SeekMember(depth: nat, text: bytes, next: nat, ghost rest: seq<bytes>)
      returns (found: RawResult, matched: bool, ok: bool, more: bool, ghost m: Member)
      requires Valid() && depth <= maxDepth && TokensAt(pointer, next, rest)
      modifies this
      ensures Valid()
      ensures var e := ParseMembers(src, old(i), depth, maxDepth);
              if !ok then e.Bad?
              else
                old(i) < i && WellFormedMember(src, m) && WellFormed(src, m.value) && matched == (Name(src, m) == text) &&
                (matched ==> found == Located(Resolve(src, m.value, rest))) &&
                Then(e, m, if more then ParseMembers(src, i, depth, maxDepth) else Good([], i))
      decreases |src| - i, 2
    {
      hide ParseMembers, ParseValue, ParseKey, WellFormed, Resolve, TokensFrom, IsToken;
      MemberThen(src, i, depth, maxDepth);
      ghost var k := ParseKey(src, i);
      m := Member(Key(0, 0, false), Scalar(Null, 0, 0, false));
      found, more := RawAbsent, false;
      matched, ok := SeekKey(text);
      if !ok {
        return;
      }
      ghost var v := ParseValue(src, i, depth, maxDepth);
      found, ok := SeekValue(depth, matched, next, rest);
      if !ok {
        return;
      }
      m := Member(k.val, v.val);
      ok, more := Separator(RBRACE);
    }
  }

  /** The first of the tokens spelled from `at` on, and where the others start. */
  lemma NextTokens(p: bytes, at: nat, ts: seq<bytes>)
    requires at <= |p| && TokensAt(p, at, ts)
    ensures var end := NextSlash(p, at);
            Unescape(p[at..end], 0) == Some(ts[0]) && TokensAt(p, end + 1, ts[1..])
  {
    var end := NextSlash(p, at);
    if end < |p| {
      assert ts[1..] == TokensFrom(p, end + 1).value;
    }
  }

  /** A bad index fails whatever the array holds, and an empty container holds nothing. */
  lemma EasyVerdicts(src: bytes, v: Parsed<Value>, ts: seq<bytes>)
    requires ts != [] && (v.Good? ==> WellFormed(src, v.val))
    ensures v.Good? && v.val.Arr? && IndexOf(ts[0]).InvalidIndex? ==> Verdict(src, v, ts) == RawPointerError
    ensures v.Good? && v.val.Arr? && !IndexOf(ts[0]).InvalidIndex? && v.val.items == [] ==> Verdict(src, v, ts) == RawAbsent
    ensures v.Good? && v.val.Obj? && v.val.members == [] ==> Verdict(src, v, ts) == RawAbsent
  {
    if v.Good? {
      ResolveStep(src, v.val, ts);
    }
  }

  /** Once every element is read, what they say together is the array's verdict. */
  lemma ArrayVerdict(src: bytes, start: nat, goal: Parsed<seq<Value>>, ts: seq<bytes>)
    requires ts != [] && !IndexOf(ts[0]).InvalidIndex? && goal.Good? && AllWellFormed(src, goal.val)
    requires WellFormed(src, Arr(start, goal.end, goal.val))
    ensures ItemsVerdict(src, goal.val, IndexOf(ts[0]), ts[1..]) == Located(Resolve(src, Arr(start, goal.end, goal.val), ts))
  {
  }

  lemma ObjectVerdict(src: bytes, start: nat, goal: Parsed<seq<Member>>, ts: seq<bytes>)
    requires ts != [] && goal.Good? && AllTokens(src, goal.val)
    requires WellFormed(src, Obj(start, goal.end, goal.val))
    ensures MembersVerdict(src, goal.val, ts[0], ts[1..]) == Located(Resolve(src, Obj(start, goal.end, goal.val), ts))
  {
  }

  lemma WholeValue(src: bytes, v: Value)
    requires WellFormed(src, v)
    ensures Resolve(src, v, []) == Found(v)
  {
  }

  /**
   Looks a pointer up in a document in one pass. The first value's syntax comes first, then the pointer's
   own errors, then what follows the value.
   */
  method GetRaw(src: bytes, pointer: bytes, maxDepth: nat) returns (r: RawResult)
    ensures var ts := TokensOfPointer(pointer);
            var v := ParseValue(src, SkipSpace(src, 0), 0, maxDepth);
            (v.Good? ==> WellFormed(src, v.val)) &&
            r == if ts.None? then RawPointerError
                 else if Verdict(src, v, ts.value) != RawPointerError && v.Good? && SkipSpace(src, v.end) != |src| then RawSyntaxError
                 else Verdict(src, v, ts.value)
  {
    hide WellFormed, Resolve, TokensFrom, ParseValue;
    ParsedWellFormed(src, SkipSpace(src, 0), 0, maxDepth);
    var ok := ValidatePointerSyntax(pointer);
    if !ok {
      return RawPointerError;
    }
    ghost var ts := TokensOfPointer(pointer).value;
    var s := new RawSeeker(src, maxDepth, pointer);
    s.Space();
    if pointer == [] {
      var start := s.i;
      ok := s.SkipValue(0);
      r := if ok then RawFound(start, s.i) else RawSyntaxError;
      if ok {
        WholeValue(src, ParseValue(src, start, 0, maxDepth).val);
      }
    } else {
      r := s.FindValue(0, 1, ts);
    }
    if r == RawPointerError || r == RawSyntaxError {
      return;
    }
    s.Space();
    if s.i != |src| {
      return RawSyntaxError;
    }
  }

  /** The tape target and the one-pass result that stand for the same outcome. */
  predicate SameTarget(entries: seq<Entry>, t: Target, r: RawResult) {
    match t
    case At(e) => e < |entries| && r == RawFound(entries[e].start, entries[e].end)
    case Nowhere => r == RawAbsent
    case PointerError => r == RawPointerError
  }

  lemma SameOutcome(hash: Option<Mixer>, src: bytes, entries: seq<Entry>, t: Target, o: Outcome)
    requires Points(hash, src, entries, t, o)
    ensures SameTarget(entries, t, Located(o))
  {
    if o.Found? {
      HeaderOf(hash, src, entries, t.entry, o.value);
    }
  }

  /**
   On every document that can be indexed, looking a pointer up in one pass and looking it up in the index
   give the same span, the same absence or the same error.
   */
  method LookUpBothWays(src: bytes, p: bytes, storage: array<Entry>, mixer: Mixer) returns (err: BuildError, n: nat, t: Target, r: RawResult)
    modifies storage
    ensures n <= storage.Length && (err.NoError? ==> SameTarget(storage[..n], t, r))
  {
    hide Layout, WellFormed, Countable, ParseValue, Resolve, TokensFrom, Points;
    t := Nowhere;
    err, n := BuildIndex(src, storage, DEFAULT_MAX_DEPTH);
    r := GetRaw(src, p, DEFAULT_MAX_DEPTH);
    if err.NoError? {
      ghost var doc := ParseDocument(src, DEFAULT_MAX_DEPTH).value;
      t := Pointer(src, storage[..n], 0, p, mixer, None, doc);
      if TokensOfPointer(p).Some? {
        SameOutcome(None, src, storage[..n], t, Resolve(src, doc, TokensOfPointer(p).value));
      }
    }
  }
}
