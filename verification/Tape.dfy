/**
 The structural index: packed four-word entries, the preorder layout of a value tree, and what is
 left to do when a builder stands in the middle of a document with some containers still open.
 */
module Tape {
  import opened Json

  // Numeric kinds and flags as the info word stores them.
  const KIND_NULL: nat := 1
  const KIND_BOOL: nat := 2
  const KIND_NUMBER: nat := 3
  const KIND_STRING: nat := 4
  const KIND_ARRAY: nat := 5
  const KIND_OBJECT: nat := 6

  const FLAG_ESCAPED: nat := 1
  const FLAG_KEY: nat := 2
  const FLAG_INT: nat := 4

  // Weights of the kind field (bit 26) and of the flags field (bit 29) of the info word.
  const KIND_UNIT: nat := 0x400_0000
  const FLAGS_UNIT: nat := 0x2000_0000
  const INFO_MAX_COUNT: nat := 0x3FF_FFFF
  const TWO_TO_THE_32: nat := 0x1_0000_0000

  datatype Entry = Entry(start: nat, end: nat, next: nat, info: nat) {
    function Count(): nat {
      info % KIND_UNIT
    }

    function Kind(): nat {
      info / KIND_UNIT % 8
    }

    function Flags(): nat {
      info / FLAGS_UNIT
    }

    function SetCount(count: nat): Entry
      requires count <= INFO_MAX_COUNT
    {
      this.(info := info - info % KIND_UNIT + count)
    }

    function BumpCount(): Entry {
      this.(info := info + 1)
    }
  }

  function PackInfo(count: nat, kind: nat, flags: nat): (info: nat) {
    count + kind * KIND_UNIT + flags * FLAGS_UNIT
  }

  /** The three fields of an info word do not disturb one another, and the word fits 32 bits. */
  lemma UnpackInfo(count: nat, kind: nat, flags: nat, e: Entry)
    requires count <= INFO_MAX_COUNT && kind < 8 && flags < 8
    requires e.info == PackInfo(count, kind, flags)
    ensures e.Count() == count && e.Kind() == kind && e.Flags() == flags
    ensures e.info < TWO_TO_THE_32
    ensures forall c: nat | c <= INFO_MAX_COUNT :: e.SetCount(c).info == PackInfo(c, kind, flags)
    ensures count < INFO_MAX_COUNT ==> e.BumpCount().info == PackInfo(count + 1, kind, flags)
  {
    assert e.info == count + (kind + 8 * flags) * KIND_UNIT;
    assert e.info / KIND_UNIT == kind + 8 * flags;
    assert e.info == (count + kind * KIND_UNIT) + flags * FLAGS_UNIT;
  }

  function KindCode(k: Kind): nat {
    match k
    case Null => KIND_NULL
    case Bool => KIND_BOOL
    case Number => KIND_NUMBER
    case String => KIND_STRING
    case Array => KIND_ARRAY
    case Object => KIND_OBJECT
  }

  function ScalarFlags(k: Kind, flag: bool): nat {
    if !flag then 0 else if k == Number then FLAG_INT else FLAG_ESCAPED
  }

  function KeyFlags(escaped: bool): nat {
    if escaped then FLAG_KEY + FLAG_ESCAPED else FLAG_KEY
  }

  // ---- Layout of a tree ------------------------------------------------------------------------

  function Header(start: nat, end: nat, next: nat, kind: nat, count: nat): Entry {
    Entry(start, end, next, PackInfo(count, kind, 0))
  }

  function KeyEntry(k: Key): Entry {
    Entry(k.start, k.end, 1, PackInfo(0, KIND_STRING, KeyFlags(k.escaped)))
  }

  function ScalarEntry(k: Kind, start: nat, end: nat, flag: bool): Entry {
    Entry(start, end, 1, PackInfo(0, KindCode(k), ScalarFlags(k, flag)))
  }

  /** Preorder: a header, then its subtree; every `next` is the size of the entry's own subtree. */
  function Layout(v: Value): (t: seq<Entry>)
    ensures |t| >= 1 && t[0].start == v.start && t[0].end == v.end && t[0].next == |t|
    decreases v, 1
  {
    match v
    case Scalar(k, start, end, flag) => [ScalarEntry(k, start, end, flag)]
    case Arr(start, end, items) =>
      var body := LayoutItems(items);
      [Header(start, end, 1 + |body|, KIND_ARRAY, |items|)] + body
    case Obj(start, end, members) =>
      var body := LayoutMembers(members);
      [Header(start, end, 1 + |body|, KIND_OBJECT, |members|)] + body
  }

  function LayoutItems(items: seq<Value>): seq<Entry>
    decreases items, 0
  {
    if items == [] then [] else Layout(items[0]) + LayoutItems(items[1..])
  }

  function LayoutMember(m: Member): (t: seq<Entry>)
    ensures |t| >= 2
    decreases m, 0
  {
    match m
    case Member(key, value) => [KeyEntry(key)] + Layout(value)
  }

  function LayoutMembers(members: seq<Member>): seq<Entry>
    decreases members, 0
  {
    if members == [] then [] else LayoutMember(members[0]) + LayoutMembers(members[1..])
  }

  /** No container in the tree has more elements than the 26-bit count field can hold. */
  predicate Countable(v: Value)
    decreases v, 1
  {
    match v
    case Scalar(_, _, _, _) => true
    case Arr(_, _, items) => |items| <= INFO_MAX_COUNT && CountableItems(items)
    case Obj(_, _, members) => |members| <= INFO_MAX_COUNT && CountableMembers(members)
  }

  predicate CountableItems(items: seq<Value>)
    decreases items, 0
  {
    if items == [] then true else Countable(items[0]) && CountableItems(items[1..])
  }

  predicate CountableMember(m: Member)
    decreases m, 0
  {
    match m
    case Member(_, value) => Countable(value)
  }

  predicate CountableMembers(members: seq<Member>)
    decreases members, 0
  {
    if members == [] then true else CountableMember(members[0]) && CountableMembers(members[1..])
  }

  lemma {:induction false} ItemsAppend(a: seq<Value>, b: seq<Value>)
    ensures LayoutItems(a + b) == LayoutItems(a) + LayoutItems(b)
    ensures CountableItems(a + b) <==> CountableItems(a) && CountableItems(b)
  {
    if a == [] {
      assert a + b == b;
    } else {
      assert (a + b)[1..] == a[1..] + b;
      ItemsAppend(a[1..], b);
    }
  }

  lemma {:induction false} MembersAppend(a: seq<Member>, b: seq<Member>)
    ensures LayoutMembers(a + b) == LayoutMembers(a) + LayoutMembers(b)
    ensures CountableMembers(a + b) <==> CountableMembers(a) && CountableMembers(b)
  {
    if a == [] {
      assert a + b == b;
    } else {
      assert (a + b)[1..] == a[1..] + b;
      MembersAppend(a[1..], b);
    }
  }

  // ---- Standing in the middle of a document -----------------------------------------------------

  /**
   The containers open at some point of a document, innermost first, each with the elements it has
   completed so far. `key` names the member whose value is still being read.
   */
  datatype Stack =
    | Empty
    | InArray(outer: Stack, start: nat, items: seq<Value>)
    | InObject(outer: Stack, start: nat, members: seq<Member>, key: Key)
  {
    function Depth(): nat {
      if Empty? then 0 else 1 + outer.Depth()
    }

    /** The stack with the value being read, v, complete. */
    function Add(v: Value): Stack
      requires !Empty?
    {
      if InArray? then InArray(outer, start, items + [v])
      else InObject(outer, start, members + [Member(key, v)], key)
    }

    function Count(): nat
      requires !Empty?
    {
      if InArray? then |items| else |members|
    }

    function Bracket(): byte
      requires !Empty?
    {
      if InArray? then RBRACKET else RBRACE
    }

    /** The innermost container as a value that ends at `end`. */
    function Closed(end: nat): Value
      requires !Empty?
    {
      if InArray? then Arr(start, end, items) else Obj(start, end, members)
    }
  }

  /** The whole value, when v has just been completed inside `st` and ends at i. */
  function AfterValue(s: bytes, max: nat, st: Stack, i: nat, v: Value): (r: Parsed<Value>)
    requires i <= |s|
    decreases st.Depth(), 1
  {
    if st.Empty? then Good(v, i) else AfterElement(s, max, st.Add(v), i)
  }

  /** The whole value, when the innermost container of `st` has completed all it holds, up to i. */
  function AfterElement(s: bytes, max: nat, st: Stack, i: nat): (r: Parsed<Value>)
    requires i <= |s| && !st.Empty?
    decreases st.Depth(), 0
  {
    if st.InArray? then
      var r := ArrayTail(s, i, st.Depth(), max);
      if r.Bad? then Bad else AfterValue(s, max, st.outer, r.end, Arr(st.start, r.end, st.items + r.val))
    else
      var r := ObjectTail(s, i, st.Depth(), max);
      if r.Bad? then Bad else AfterValue(s, max, st.outer, r.end, Obj(st.start, r.end, st.members + r.val))
  }

  /** The whole value, when a value inside `st` is about to start at i. */
  function AtValue(s: bytes, max: nat, st: Stack, i: nat): (r: Parsed<Value>)
    requires i <= |s|
  {
    var r := ParseValue(s, i, st.Depth(), max);
    if r.Bad? then Bad else AfterValue(s, max, st, r.end, r.val)
  }

  /** The whole value, when a member of the innermost object is about to start at i. */
  function AtKey(s: bytes, max: nat, st: Stack, i: nat): (r: Parsed<Value>)
    requires i <= |s| && st.InObject?
  {
    var key := ParseKey(s, i);
    if key.Bad? then Bad else AtValue(s, max, st.(key := key.val), key.end)
  }

  /** Reading on from an array's element is parsing all its remaining elements. */
  lemma ElementsFrom(s: bytes, max: nat, st: Stack, i: nat)
    requires i <= |s| && st.InArray?
    ensures var r := ParseElements(s, i, st.Depth(), max);
            AtValue(s, max, st, i) ==
            if r.Bad? then Bad else AfterValue(s, max, st.outer, r.end, Arr(st.start, r.end, st.items + r.val))
  {
    var first := ParseValue(s, i, st.Depth(), max);
    if first.Good? {
      var rest := ArrayTail(s, first.end, st.Depth(), max);
      assert AfterValue(s, max, st, first.end, first.val) == AfterElement(s, max, st.Add(first.val), first.end);
      assert rest.Good? ==> st.items + [first.val] + rest.val == st.items + ([first.val] + rest.val);
    }
  }

  /** Reading on from an object's member is parsing all its remaining members. */
  lemma MembersFrom(s: bytes, max: nat, st: Stack, i: nat)
    requires i <= |s| && st.InObject?
    ensures var r := ParseMembers(s, i, st.Depth(), max);
            AtKey(s, max, st, i) ==
            if r.Bad? then Bad else AfterValue(s, max, st.outer, r.end, Obj(st.start, r.end, st.members + r.val))
  {
    var key := ParseKey(s, i);
    if key.Good? {
      var first := ParseValue(s, key.end, st.Depth(), max);
      if first.Good? {
        var rest := ObjectTail(s, first.end, st.Depth(), max);
        var inner, m := st.(key := key.val), Member(key.val, first.val);
        assert AfterValue(s, max, inner, first.end, first.val) == AfterElement(s, max, inner.Add(first.val), first.end);
        assert rest.Good? ==> st.members + [m] + rest.val == st.members + ([m] + rest.val);
      }
    }
  }

  /** Opening a non-empty array at i is standing at its first element, one level deeper. */
  lemma OpenArray(s: bytes, max: nat, st: Stack, i: nat)
    requires i < |s| && s[i] == LBRACKET && st.Depth() < max
    requires !ByteAt(s, SkipSpace(s, i + 1), RBRACKET)
    ensures AtValue(s, max, st, i) == AtValue(s, max, InArray(st, i, []), SkipSpace(s, i + 1))
  {
    var j := SkipSpace(s, i + 1);
    ElementsFrom(s, max, InArray(st, i, []), j);
    var r := ParseElements(s, j, st.Depth() + 1, max);
    assert r.Good? ==> [] + r.val == r.val;
  }

  /** Opening a non-empty object at i is standing at its first member, one level deeper. */
  lemma OpenObject(s: bytes, max: nat, st: Stack, i: nat, anyKey: Key)
    requires i < |s| && s[i] == LBRACE && st.Depth() < max
    requires !ByteAt(s, SkipSpace(s, i + 1), RBRACE)
    ensures AtValue(s, max, st, i) == AtKey(s, max, InObject(st, i, [], anyKey), SkipSpace(s, i + 1))
  {
    hide AtKey, AfterValue, SkipSpace, ParseMembers, ParseElements;
    var j := SkipSpace(s, i + 1);
    MembersFrom(s, max, InObject(st, i, [], anyKey), j);
    var r := ParseMembers(s, j, st.Depth() + 1, max);
    assert r.Good? ==> [] + r.val == r.val;
  }

  /** A comma in an array moves on to the next element. */
  lemma NextElement(s: bytes, max: nat, st: Stack, i: nat)
    requires i <= |s| && st.InArray? && ByteAt(s, SkipSpace(s, i), COMMA)
    ensures AfterElement(s, max, st, i) == AtValue(s, max, st, SkipSpace(s, SkipSpace(s, i) + 1))
  {
    ElementsFrom(s, max, st, SkipSpace(s, SkipSpace(s, i) + 1));
  }

  /** A comma in an object moves on to the next member. */
  lemma NextMember(s: bytes, max: nat, st: Stack, i: nat)
    requires i <= |s| && st.InObject? && ByteAt(s, SkipSpace(s, i), COMMA)
    ensures AfterElement(s, max, st, i) == AtKey(s, max, st, SkipSpace(s, SkipSpace(s, i) + 1))
  {
    MembersFrom(s, max, st, SkipSpace(s, SkipSpace(s, i) + 1));
  }

  /** A closing bracket completes the innermost container. */
  lemma CloseTop(s: bytes, max: nat, st: Stack, i: nat)
    requires i <= |s| && !st.Empty? && ByteAt(s, SkipSpace(s, i), st.Bracket())
    ensures var end := SkipSpace(s, i) + 1;
            AfterElement(s, max, st, i) == AfterValue(s, max, st.outer, end, st.Closed(end))
  {
    assert st.InArray? ==> st.items + [] == st.items;
    assert st.InObject? ==> st.members + [] == st.members;
  }

  /** Anything but a comma or the matching bracket after an element makes the document invalid. */
  lemma Stuck(s: bytes, max: nat, st: Stack, i: nat)
    requires i <= |s| && !st.Empty?
    requires !ByteAt(s, SkipSpace(s, i), COMMA) && !ByteAt(s, SkipSpace(s, i), st.Bracket())
    ensures AfterElement(s, max, st, i).Bad?
  {
  }

  /** An empty container is a complete value. */
  lemma EmptyContainer(s: bytes, max: nat, st: Stack, i: nat, inner: Stack)
    requires i < |s| && st.Depth() < max && (inner == InArray(st, i, []) || (inner.InObject? && inner == InObject(st, i, [], inner.key)))
    requires s[i] == if inner.InArray? then LBRACKET else LBRACE
    requires ByteAt(s, SkipSpace(s, i + 1), inner.Bracket())
    ensures var end := SkipSpace(s, i + 1) + 1;
            AtValue(s, max, st, i) == AfterValue(s, max, st, end, inner.Closed(end)) && Countable(inner.Closed(end))
  {
  }

  /** No value starts past the end, no member without a quote, no container past the depth limit. */
  /** Standing at a quoted name, spelled out. */
  lemma AtName(s: bytes, max: nat, st: Stack, i: nat)
    requires ByteAt(s, i, QUOTE) && st.InObject?
    ensures var t := ScanString(s, i + 1);
            if t.BadString? || !ByteAt(s, SkipSpace(s, t.end), COLON) then AtKey(s, max, st, i).Bad?
            else AtKey(s, max, st, i) == AtValue(s, max, st.(key := Key(i, t.end, t.escaped)), SkipSpace(s, SkipSpace(s, t.end) + 1))
  {
  }

  lemma NoStart(s: bytes, max: nat, st: Stack, i: nat)
    requires i <= |s|
    ensures i == |s| ==> AtValue(s, max, st, i).Bad?
    ensures st.InObject? && !ByteAt(s, i, QUOTE) ==> AtKey(s, max, st, i).Bad?
    ensures i < |s| && (s[i] == LBRACE || s[i] == LBRACKET) && st.Depth() >= max ==> AtValue(s, max, st, i).Bad?
  {
  }

  // ---- The unfinished tape ----------------------------------------------------------------------

  const NO_PARENT: nat := 0xFFFF_FFFF

  /**
   The header of the innermost container while it is open. The fast walk leaves it blank; the
   diagnostic parser (`threaded`) keeps the enclosing header's entry number in `next` and counts
   completed elements in place.
   */
  function OpenHeader(st: Stack, threaded: bool): Entry
    requires !st.Empty?
    decreases st.Depth(), 0
  {
    var kind := if st.InArray? then KIND_ARRAY else KIND_OBJECT;
    if threaded then Entry(st.start, 0, HeaderIndex(st.outer, true), PackInfo(st.Count(), kind, 0))
    else Entry(st.start, 0, 0, PackInfo(0, kind, 0))
  }

  /** Entry number of the innermost open header. */
  function HeaderIndex(st: Stack, threaded: bool): nat
    decreases st.Depth(), 1
  {
    if st.Empty? then NO_PARENT else |OpenTape(st.outer, threaded)|
  }

  /** Layout of the elements completed so far. */
  function Body(st: Stack): seq<Entry>
    requires !st.Empty?
  {
    if st.InArray? then LayoutItems(st.items) else LayoutMembers(st.members)
  }

  /** The tape when the innermost container is between elements. */
  function SettledTape(st: Stack, threaded: bool): seq<Entry>
    requires !st.Empty?
    decreases st.Depth(), 1
  {
    OpenTape(st.outer, threaded) + [OpenHeader(st, threaded)] + Body(st)
  }

  /** The tape when a value inside `st` is about to start. */
  function OpenTape(st: Stack, threaded: bool): seq<Entry>
    decreases st.Depth(), 2
  {
    if st.Empty? then []
    else SettledTape(st, threaded) + if st.InArray? then [] else [KeyEntry(st.key)]
  }

  lemma ReplaceMiddle<T>(a: seq<T>, x: T, y: T, b: seq<T>)
    ensures (a + [x] + b)[|a| := y] == a + [y] + b
    ensures a + [y] + b == a + ([y] + b)
  {
  }

  lemma Regroup<T>(a: seq<T>, b: seq<T>, c: seq<T>, d: seq<T>)
    ensures a + b + c + d == a + (b + c + d)
  {
  }

  lemma BodyOfAdd(st: Stack, v: Value)
    requires !st.Empty?
    ensures Body(st.Add(v)) == Body(st) + (if st.InArray? then [] else [KeyEntry(st.key)]) + Layout(v)
  {
    if st.InArray? {
      ItemsAppend(st.items, [v]);
      assert LayoutItems([v]) == Layout(v);
      assert LayoutItems(st.items) + [] == LayoutItems(st.items);
    } else {
      MembersAppend(st.members, [Member(st.key, v)]);
      assert LayoutMembers([Member(st.key, v)]) == [KeyEntry(st.key)] + Layout(v);
      assert LayoutMembers(st.members) + [KeyEntry(st.key)] + Layout(v) == LayoutMembers(st.members) + ([KeyEntry(st.key)] + Layout(v));
    }
  }

  /** Recording a completed value leaves the container between elements, its count raised in place when threaded. */
  lemma RecordValue(st: Stack, v: Value, threaded: bool)
    requires !st.Empty?
    ensures var t := OpenTape(st, threaded) + Layout(v);
            var k := HeaderIndex(st, threaded);
            k < |t| && t[k] == OpenHeader(st, threaded) && t[k := OpenHeader(st.Add(v), threaded)] == SettledTape(st.Add(v), threaded)
  {
    var outer, body := OpenTape(st.outer, threaded), Body(st.Add(v));
    var before, after := OpenHeader(st, threaded), OpenHeader(st.Add(v), threaded);
    assert OpenTape(st, threaded) + Layout(v) == outer + [before] + body by {
      BodyOfAdd(st, v);
      var key := if st.InArray? then [] else [KeyEntry(st.key)];
      Regroup(outer + [before], Body(st), key, Layout(v));
    }
    ReplaceMiddle(outer, before, after, body);
  }

  /** What a completed value means for its container, and for the fast walk's tape. */
  lemma SettleValue(s: bytes, max: nat, st: Stack, i: nat, v: Value)
    requires !st.Empty? && i <= |s|
    ensures AfterValue(s, max, st, i, v) == AfterElement(s, max, st.Add(v), i)
    ensures OpenTape(st, false) + Layout(v) == SettledTape(st.Add(v), false)
    ensures HeaderIndex(st.Add(v), false) == HeaderIndex(st, false) && st.Add(v).Count() == st.Count() + 1
    ensures st.InArray? ==> OpenTape(st.Add(v), false) == SettledTape(st.Add(v), false)
  {
    RecordValue(st, v, false);
    assert st.InArray? ==> SettledTape(st.Add(v), false) + [] == SettledTape(st.Add(v), false);
  }

  /** A header has just been written for the container `inner` opens. */
  lemma RecordHeader(inner: Stack, threaded: bool)
    requires !inner.Empty? && inner.Count() == 0
    ensures SettledTape(inner, threaded) == OpenTape(inner.outer, threaded) + [OpenHeader(inner, threaded)]
    ensures inner.InArray? ==> OpenTape(inner, threaded) == SettledTape(inner, threaded)
    ensures HeaderIndex(inner, threaded) == |OpenTape(inner.outer, threaded)|
    ensures OpenHeader(inner, false) == Entry(inner.start, 0, 0, PackInfo(0, if inner.InArray? then KIND_ARRAY else KIND_OBJECT, 0))
  {
    assert SettledTape(inner, threaded) == OpenTape(inner.outer, threaded) + [OpenHeader(inner, threaded)] + [];
    assert inner.InArray? ==> SettledTape(inner, threaded) + [] == SettledTape(inner, threaded);
  }

  /** Recording a member name. */
  lemma RecordKey(st: Stack, key: Key, threaded: bool)
    requires st.InObject?
    ensures OpenTape(st.(key := key), threaded) == SettledTape(st, threaded) + [KeyEntry(key)]
    ensures HeaderIndex(st.(key := key), threaded) == HeaderIndex(st, threaded)
  {
    assert OpenHeader(st.(key := key), threaded) == OpenHeader(st, threaded);
  }

  /** Completing the innermost header turns what it covers into the layout of the closed container. */
  lemma CloseHeader(st: Stack, threaded: bool, end: nat)
    requires !st.Empty?
    ensures var t := SettledTape(st, threaded);
            var k := HeaderIndex(st, threaded);
            var h := Header(st.start, end, |t| - k, if st.InArray? then KIND_ARRAY else KIND_OBJECT, st.Count());
            k < |t| && t[k] == OpenHeader(st, threaded) && t[k := h] == OpenTape(st.outer, threaded) + Layout(st.Closed(end))
  {
    var outer, body := OpenTape(st.outer, threaded), Body(st);
    var h := Header(st.start, end, 1 + |body|, if st.InArray? then KIND_ARRAY else KIND_OBJECT, st.Count());
    ReplaceMiddle(outer, OpenHeader(st, threaded), h, body);
  }

  /** What is on the tape stays within the layout of the whole value, and so does what it counts. */
  lemma {:induction false} ValueGrows(s: bytes, max: nat, st: Stack, i: nat, v: Value, threaded: bool)
    requires i <= |s|
    ensures var r := AfterValue(s, max, st, i, v);
            r.Good? ==> |OpenTape(st, threaded)| + |Layout(v)| <= |Layout(r.val)| && (Countable(r.val) ==> Countable(v))
    decreases st.Depth(), 1
  {
    if !st.Empty? {
      RecordValue(st, v, threaded);
      ElementGrows(s, max, st.Add(v), i, threaded);
      CountableAdd(st, v);
    }
  }

  predicate CountableBody(st: Stack)
    requires !st.Empty?
  {
    st.Count() <= INFO_MAX_COUNT && if st.InArray? then CountableItems(st.items) else CountableMembers(st.members)
  }

  lemma CountableAdd(st: Stack, v: Value)
    requires !st.Empty?
    ensures CountableBody(st.Add(v)) ==> Countable(v) && CountableBody(st)
  {
    if st.InArray? {
      ItemsAppend(st.items, [v]);
    } else {
      MembersAppend(st.members, [Member(st.key, v)]);
    }
  }

  lemma {:induction false} ElementGrows(s: bytes, max: nat, st: Stack, i: nat, threaded: bool)
    requires i <= |s| && !st.Empty?
    ensures var r := AfterElement(s, max, st, i);
            r.Good? ==> |SettledTape(st, threaded)| <= |Layout(r.val)| && (Countable(r.val) ==> CountableBody(st))
    decreases st.Depth(), 0
  {
    if st.InArray? {
      var r := ArrayTail(s, i, st.Depth(), max);
      if r.Good? {
        ValueGrows(s, max, st.outer, r.end, Arr(st.start, r.end, st.items + r.val), threaded);
        ItemsAppend(st.items, r.val);
      }
    } else {
      var r := ObjectTail(s, i, st.Depth(), max);
      if r.Good? {
        ValueGrows(s, max, st.outer, r.end, Obj(st.start, r.end, st.members + r.val), threaded);
        MembersAppend(st.members, r.val);
      }
    }
  }

  lemma AtValueGrows(s: bytes, max: nat, st: Stack, i: nat, threaded: bool)
    requires i <= |s|
    ensures var r := AtValue(s, max, st, i);
            r.Good? ==> |OpenTape(st, threaded)| < |Layout(r.val)|
  {
    var r := ParseValue(s, i, st.Depth(), max);
    if r.Good? {
      ValueGrows(s, max, st, r.end, r.val, threaded);
    }
  }

  lemma AtKeyGrows(s: bytes, max: nat, st: Stack, i: nat, threaded: bool)
    requires i <= |s| && st.InObject?
    ensures var r := AtKey(s, max, st, i);
            r.Good? ==> |SettledTape(st, threaded)| + 1 < |Layout(r.val)|
  {
    var key := ParseKey(s, i);
    if key.Good? {
      AtValueGrows(s, max, st.(key := key.val), key.end, threaded);
    }
  }

  /** Everything completed inside the open containers respects the count limit. */
  predicate CountableStack(st: Stack) {
    st.Empty? ||
    (CountableStack(st.outer) && if st.InArray? then CountableItems(st.items) else CountableMembers(st.members))
  }

  lemma CountableStackAdd(st: Stack, v: Value)
    requires !st.Empty? && CountableStack(st) && Countable(v)
    ensures CountableStack(st.Add(v))
  {
    if st.InArray? {
      ItemsAppend(st.items, [v]);
    } else {
      MembersAppend(st.members, [Member(st.key, v)]);
    }
  }

  lemma CountableClosed(st: Stack, end: nat)
    requires !st.Empty? && CountableStack(st) && st.Count() <= INFO_MAX_COUNT
    ensures CountableStack(st.outer) && Countable(st.Closed(end))
  {
  }

  // ---- Nesting ----------------------------------------------------------------------------------

  function Max(a: nat, b: nat): nat {
    if a >= b then a else b
  }

  /** Containers on the longest path down the tree. */
  function Nesting(v: Value): nat
    decreases v, 1
  {
    match v
    case Scalar(_, _, _, _) => 0
    case Arr(_, _, items) => 1 + NestingOfItems(items)
    case Obj(_, _, members) => 1 + NestingOfMembers(members)
  }

  function NestingOfItems(items: seq<Value>): nat
    decreases items, 0
  {
    if items == [] then 0 else Max(Nesting(items[0]), NestingOfItems(items[1..]))
  }

  function NestingOfMember(m: Member): nat
    decreases m, 0
  {
    match m case Member(_, value) => Nesting(value)
  }

  function NestingOfMembers(members: seq<Member>): nat
    decreases members, 0
  {
    if members == [] then 0 else Max(NestingOfMember(members[0]), NestingOfMembers(members[1..]))
  }

  lemma {:induction false} NestingOfItem(items: seq<Value>, k: nat)
    requires k < |items|
    ensures Nesting(items[k]) <= NestingOfItems(items)
  {
    if k > 0 {
      NestingOfItem(items[1..], k - 1);
    }
  }

  lemma {:induction false} NestingOfMemberAt(members: seq<Member>, k: nat)
    requires k < |members|
    ensures Nesting(members[k].value) <= NestingOfMembers(members)
  {
    if k > 0 {
      NestingOfMemberAt(members[1..], k - 1);
    } else {
      assert NestingOfMember(members[0]) == Nesting(members[0].value);
    }
  }

  /** A value completed inside `st` nests inside every container of `st`. */
  lemma {:induction false} NestsInside(s: bytes, max: nat, st: Stack, i: nat, v: Value)
    requires i <= |s|
    ensures var r := AfterValue(s, max, st, i, v);
            r.Good? ==> st.Depth() + Nesting(v) <= Nesting(r.val)
    decreases st.Depth()
  {
    if st.InArray? {
      var tail := ArrayTail(s, i, st.Depth(), max);
      if tail.Good? {
        var items := st.items + [v] + tail.val;
        assert AfterValue(s, max, st, i, v) == AfterValue(s, max, st.outer, tail.end, Arr(st.start, tail.end, items));
        NestingOfItem(items, |st.items|);
        NestsInside(s, max, st.outer, tail.end, Arr(st.start, tail.end, items));
      }
    } else if st.InObject? {
      var tail := ObjectTail(s, i, st.Depth(), max);
      if tail.Good? {
        var members := st.members + [Member(st.key, v)] + tail.val;
        assert AfterValue(s, max, st, i, v) == AfterValue(s, max, st.outer, tail.end, Obj(st.start, tail.end, members));
        NestingOfMemberAt(members, |st.members|);
        NestsInside(s, max, st.outer, tail.end, Obj(st.start, tail.end, members));
      }
    }
  }

  /** A container that starts inside `st` is one level deeper than `st`. */
  lemma ContainerNests(s: bytes, max: nat, st: Stack, i: nat)
    requires i < |s| && (s[i] == LBRACE || s[i] == LBRACKET)
    ensures var r := AtValue(s, max, st, i);
            r.Good? ==> st.Depth() + 1 <= Nesting(r.val)
  {
    var r := ParseValue(s, i, st.Depth(), max);
    if r.Good? {
      NestsInside(s, max, st, r.end, r.val);
    }
  }
}
