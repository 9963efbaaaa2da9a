/**
 Navigation over a finished tape: array elements by position and object members by name, through
 flat and linked scans, with and without precomputed key hashes. Every route finds the last
 member whose decoded name equals the query.
 */
module Lookup {
  import opened Json
  import opened Tape
  import opened Strings
  import opened KeyHash

  // ---- What a stored tape represents -------------------------------------------------------------

  predicate IsKeyEntry(e: Entry) {
    e.Flags() / FLAG_KEY % 2 == 1
  }

  predicate IsEscaped(e: Entry) {
    e.Flags() % 2 == 1
  }

  function ContentOf(src: bytes, e: Entry): bytes {
    if e.start + 2 <= e.end <= |src| then src[e.start + 1..e.end - 1] else []
  }

  /** One entry after enrichment: keys carry the hash of their raw content, object headers a mark. */
  function Enriched(m: Mixer, src: bytes, e: Entry): Entry {
    if IsKeyEntry(e) then e.(next := HashOf(m, ContentOf(src, e)))
    else if e.Kind() == KIND_OBJECT && !IsEscaped(e) then e.(info := e.info + FLAGS_UNIT)
    else e
  }

  /** An entry as stored, in a plain tape or in one enriched with `hash`. */
  function Stored(hash: Option<Mixer>, src: bytes, e: Entry): Entry {
    match hash
    case None => e
    case Some(m) => Enriched(m, src, e)
  }

  /** The names and strings of the tree are tokens of the source. */
  predicate WellFormed(src: bytes, v: Value)
    decreases v, 1
  {
    match v
    case Scalar(k, start, end, flag) => k != Array && k != Object && (k == String ==> IsToken(src, start, end, flag))
    case Arr(_, _, items) => WellFormedItems(src, items)
    case Obj(_, _, members) => WellFormedMembers(src, members)
  }

  predicate WellFormedItems(src: bytes, items: seq<Value>)
    decreases items, 0
  {
    if items == [] then true else WellFormed(src, items[0]) && WellFormedItems(src, items[1..])
  }

  predicate WellFormedMember(src: bytes, m: Member)
    decreases m, 0
  {
    match m case Member(key, value) => IsToken(src, key.start, key.end, key.escaped) && WellFormed(src, value)
  }

  predicate WellFormedMembers(src: bytes, members: seq<Member>)
    decreases members, 0
  {
    if members == [] then true else WellFormedMember(src, members[0]) && WellFormedMembers(src, members[1..])
  }

  predicate StoredAt(hash: Option<Mixer>, src: bytes, entries: seq<Entry>, at: nat, t: seq<Entry>) {
    at + |t| <= |entries| && forall k | 0 <= k < |t| :: entries[at + k] == Stored(hash, src, t[k])
  }

  /** The subtree v is stored from entry `at` on. */
  predicate Node(hash: Option<Mixer>, src: bytes, entries: seq<Entry>, at: nat, v: Value) {
    Countable(v) && WellFormed(src, v) && StoredAt(hash, src, entries, at, Layout(v))
  }

  lemma StoredPart(hash: Option<Mixer>, src: bytes, entries: seq<Entry>, at: nat, a: seq<Entry>, b: seq<Entry>, c: seq<Entry>)
    requires StoredAt(hash, src, entries, at, a + b + c)
    ensures StoredAt(hash, src, entries, at + |a|, b)
  {
    forall k | 0 <= k < |b|
      ensures entries[at + |a| + k] == Stored(hash, src, b[k])
    {
      assert (a + b + c)[|a| + k] == b[k];
      assert entries[at + (|a| + k)] == Stored(hash, src, (a + b + c)[|a| + k]);
    }
  }

  // ---- Parsed trees are well formed ---------------------------------------------------------------

  lemma {:induction false} ParsedWellFormed(s: bytes, i: nat, d: nat, max: nat)
    requires i <= |s|
    ensures var r := ParseValue(s, i, d, max); r.Good? ==> WellFormed(s, r.val)
    decreases |s| - i, 0
  {
    var r := ParseValue(s, i, d, max);
    if r.Good? {
      if r.val.Scalar? {
        if r.val.kind == String {
          TokenInterior(s, i + 1);
        }
      } else {
        var j := SkipSpace(s, i + 1);
        if r.val.Arr? && !ByteAt(s, j, RBRACKET) {
          ParsedElements(s, j, d + 1, max);
        } else if r.val.Obj? && !ByteAt(s, j, RBRACE) {
          ParsedMembers(s, j, d + 1, max);
        }
      }
    }
  }

  lemma {:induction false} ParsedElements(s: bytes, i: nat, d: nat, max: nat)
    requires i <= |s|
    ensures var r := ParseElements(s, i, d, max); r.Good? ==> WellFormedItems(s, r.val)
    decreases |s| - i, 1
  {
    ParsedWellFormed(s, i, d, max);
    var v := ParseValue(s, i, d, max);
    if v.Good? {
      var tail := ArrayTail(s, v.end, d, max);
      if tail.Good? {
        assert ([v.val] + tail.val)[1..] == tail.val;
        if tail.val != [] {
          ParsedElements(s, SkipSpace(s, SkipSpace(s, v.end) + 1), d, max);
        }
      }
    }
  }

  lemma KeyToken(s: bytes, i: nat)
    requires i <= |s| && ParseKey(s, i).Good?
    ensures var k := ParseKey(s, i).val; IsToken(s, k.start, k.end, k.escaped)
  {
    TokenInterior(s, i + 1);
  }

  lemma {:induction false} ParsedMembers(s: bytes, i: nat, d: nat, max: nat)
    requires i <= |s|
    ensures var r := ParseMembers(s, i, d, max); r.Good? ==> WellFormedMembers(s, r.val)
    decreases |s| - i, 1
  {
    hide IsToken, ScanString;
    var k := ParseKey(s, i);
    if k.Good? {
      KeyToken(s, i);
      ParsedWellFormed(s, k.end, d, max);
      var v := ParseValue(s, k.end, d, max);
      if v.Good? {
        var tail := ObjectTail(s, v.end, d, max);
        if tail.Good? {
          var m := Member(k.val, v.val);
          assert ([m] + tail.val)[1..] == tail.val;
          assert WellFormedMember(s, m);
          if tail.val != [] {
            ParsedMembers(s, SkipSpace(s, SkipSpace(s, v.end) + 1), d, max);
          }
        }
      }
    }
  }

  // ---- Where children are stored ------------------------------------------------------------------

  /** Entry number of element k of the array at `at`. */
  function ItemAt(at: nat, items: seq<Value>, k: nat): nat
    requires k <= |items|
  {
    at + 1 + |LayoutItems(items[..k])|
  }

  /** Entry number of the name of member k of the object at `at`; its value comes next. */
  function KeyAt(at: nat, members: seq<Member>, k: nat): nat
    requires k <= |members|
  {
    at + 1 + |LayoutMembers(members[..k])|
  }

  lemma {:induction false} ItemsSplit(items: seq<Value>, k: nat)
    requires k < |items|
    ensures LayoutItems(items) == LayoutItems(items[..k]) + Layout(items[k]) + LayoutItems(items[k + 1..])
    ensures CountableItems(items) ==> Countable(items[k])
    ensures LayoutItems(items[..k + 1]) == LayoutItems(items[..k]) + Layout(items[k])
  {
    assert items == items[..k] + ([items[k]] + items[k + 1..]);
    ItemsAppend(items[..k], [items[k]] + items[k + 1..]);
    ItemsAppend([items[k]], items[k + 1..]);
    ItemsAppend(items[..k], [items[k]]);
    assert items[..k + 1] == items[..k] + [items[k]];
    assert LayoutItems([items[k]]) == Layout(items[k]) + [];
  }

  lemma {:induction false} MembersSplit(members: seq<Member>, k: nat)
    requires k < |members|
    ensures LayoutMembers(members) == LayoutMembers(members[..k]) + LayoutMember(members[k]) + LayoutMembers(members[k + 1..])
    ensures CountableMembers(members) ==> Countable(members[k].value)
    ensures LayoutMembers(members[..k + 1]) == LayoutMembers(members[..k]) + LayoutMember(members[k])
  {
    assert members == members[..k] + ([members[k]] + members[k + 1..]);
    MembersAppend(members[..k], [members[k]] + members[k + 1..]);
    MembersAppend([members[k]], members[k + 1..]);
    MembersAppend(members[..k], [members[k]]);
    assert members[..k + 1] == members[..k] + [members[k]];
    assert LayoutMembers([members[k]]) == LayoutMember(members[k]) + [];
  }

  lemma {:induction false} WellFormedItem(src: bytes, items: seq<Value>, k: nat)
    requires k < |items| && WellFormedItems(src, items)
    ensures WellFormed(src, items[k])
  {
    if k > 0 {
      WellFormedItem(src, items[1..], k - 1);
    }
  }

  lemma {:induction false} WellFormedMemberAt(src: bytes, members: seq<Member>, k: nat)
    requires k < |members| && WellFormedMembers(src, members)
    ensures WellFormedMember(src, members[k])
  {
    if k > 0 {
      WellFormedMemberAt(src, members[1..], k - 1);
    }
  }

  /** The header of a stored container: its kind, count, size and whether its keys carry hashes. */
  lemma HeaderOf(hash: Option<Mixer>, src: bytes, entries: seq<Entry>, at: nat, v: Value)
    requires Node(hash, src, entries, at, v)
    ensures at < |entries|
    ensures entries[at].Kind() == KIND_ARRAY <==> v.Arr?
    ensures entries[at].Kind() == KIND_OBJECT <==> v.Obj?
    ensures var e := entries[at];
            e.Kind() == KindCode(KindOf(v)) && e.start == v.start && e.end == v.end && e.next == |Layout(v)| &&
            (v.Arr? ==> e.Count() == |v.items|) &&
            (v.Obj? ==> e.Count() == |v.members| && IsEscaped(e) == hash.Some?) &&
            (v.Scalar? ==> e.next == 1 && (v.kind == String ==> IsEscaped(e) == v.flag))
  {
    hide HashOf, ContentOf;
    assert entries[at + 0] == Stored(hash, src, Layout(v)[0]);
    var count, kind := if v.Arr? then |v.items| else if v.Obj? then |v.members| else 0, KindCode(KindOf(v));
    var flags := if v.Scalar? then ScalarFlags(v.kind, v.flag) else 0;
    UnpackInfo(count, kind, flags, Layout(v)[0]);
    if v.Obj? {
      UnpackInfo(count, kind, FLAG_ESCAPED, Layout(v)[0].(info := Layout(v)[0].info + FLAGS_UNIT));
    }
  }

  lemma ArrayParts(v: Value, k: nat)
    requires v.Arr? && k < |v.items|
    ensures Layout(v) == ([Layout(v)[0]] + LayoutItems(v.items[..k])) + Layout(v.items[k]) + LayoutItems(v.items[k + 1..])
    ensures LayoutItems(v.items[..k + 1]) == LayoutItems(v.items[..k]) + Layout(v.items[k])
    ensures Countable(v) ==> Countable(v.items[k])
  {
    ItemsSplit(v.items, k);
    Distribute(Layout(v)[0], LayoutItems(v.items[..k]), Layout(v.items[k]), LayoutItems(v.items[k + 1..]));
  }

  lemma Distribute<T>(h: T, a: seq<T>, b: seq<T>, c: seq<T>)
    ensures [h] + (a + b + c) == ([h] + a) + b + c
  {
  }

  lemma ObjectParts(v: Value, k: nat)
    requires v.Obj? && k < |v.members|
    ensures Layout(v) == ([Layout(v)[0]] + LayoutMembers(v.members[..k])) + LayoutMember(v.members[k]) + LayoutMembers(v.members[k + 1..])
    ensures LayoutMembers(v.members[..k + 1]) == LayoutMembers(v.members[..k]) + LayoutMember(v.members[k])
    ensures |LayoutMember(v.members[k])| == 1 + |Layout(v.members[k].value)|
    ensures Countable(v) ==> Countable(v.members[k].value)
  {
    MembersSplit(v.members, k);
    Distribute(Layout(v)[0], LayoutMembers(v.members[..k]), LayoutMember(v.members[k]), LayoutMembers(v.members[k + 1..]));
    assert LayoutMember(v.members[k]) == [KeyEntry(v.members[k].key)] + Layout(v.members[k].value);
  }

  /** An element of a stored array is itself stored, right where its predecessors end. */
  lemma ItemNode(hash: Option<Mixer>, src: bytes, entries: seq<Entry>, at: nat, v: Value, k: nat)
    requires Node(hash, src, entries, at, v) && v.Arr? && k < |v.items|
    ensures Node(hash, src, entries, ItemAt(at, v.items, k), v.items[k])
    ensures ItemAt(at, v.items, k + 1) == ItemAt(at, v.items, k) + |Layout(v.items[k])|
  {
    hide StoredAt, Layout, LayoutItems;
    ArrayParts(v, k);
    WellFormedItem(src, v.items, k);
    var before, after := [Layout(v)[0]] + LayoutItems(v.items[..k]), LayoutItems(v.items[k + 1..]);
    StoredPart(hash, src, entries, at, before, Layout(v.items[k]), after);
  }

  lemma KeyStored(hash: Option<Mixer>, src: bytes, key: Key)
    requires IsToken(src, key.start, key.end, key.escaped)
    ensures var e := Stored(hash, src, KeyEntry(key));
            e.start == key.start && e.end == key.end && IsEscaped(e) == key.escaped &&
            (hash.Some? ==> e.next == HashOf(hash.value, src[key.start + 1..key.end - 1]))
  {
    UnpackInfo(0, KIND_STRING, KeyFlags(key.escaped), KeyEntry(key));
  }

  /** A member of a stored object: its name's entry, and its value stored after it. */
  lemma MemberNode(hash: Option<Mixer>, src: bytes, entries: seq<Entry>, at: nat, v: Value, k: nat)
    requires Node(hash, src, entries, at, v) && v.Obj? && k < |v.members|
    ensures var p, m := KeyAt(at, v.members, k), v.members[k];
            p < |entries| && WellFormedMember(src, m) && Node(hash, src, entries, p + 1, m.value) &&
            entries[p].start == m.key.start && entries[p].end == m.key.end && IsEscaped(entries[p]) == m.key.escaped &&
            (hash.Some? ==> entries[p].next == HashOf(hash.value, src[m.key.start + 1..m.key.end - 1])) &&
            KeyAt(at, v.members, k + 1) == p + 1 + |Layout(m.value)|
  {
    hide StoredAt, Layout, LayoutMembers, LayoutMember, IsToken, HashOf;
    ObjectParts(v, k);
    WellFormedMemberAt(src, v.members, k);
    var m := v.members[k];
    var before, after := [Layout(v)[0]] + LayoutMembers(v.members[..k]), LayoutMembers(v.members[k + 1..]);
    StoredPart(hash, src, entries, at, before, LayoutMember(m), after);
    KeyAndValue(hash, src, entries, at + |before|, m);
  }

  lemma FirstStored(hash: Option<Mixer>, src: bytes, entries: seq<Entry>, p: nat, t: seq<Entry>)
    requires StoredAt(hash, src, entries, p, t) && t != []
    ensures p < |entries| && entries[p] == Stored(hash, src, t[0])
  {
    assert entries[p + 0] == Stored(hash, src, t[0]);
  }

  lemma KeyAndValue(hash: Option<Mixer>, src: bytes, entries: seq<Entry>, p: nat, m: Member)
    requires StoredAt(hash, src, entries, p, LayoutMember(m))
    ensures entries[p] == Stored(hash, src, KeyEntry(m.key)) && StoredAt(hash, src, entries, p + 1, Layout(m.value))
    ensures IsToken(src, m.key.start, m.key.end, m.key.escaped) ==>
              entries[p].start == m.key.start && entries[p].end == m.key.end && IsEscaped(entries[p]) == m.key.escaped &&
              (hash.Some? ==> entries[p].next == HashOf(hash.value, src[m.key.start + 1..m.key.end - 1]))
  {
    hide IsToken, HashOf, Stored, Layout, StoredAt;
    var key, body := [KeyEntry(m.key)], Layout(m.value);
    assert LayoutMember(m) == [] + key + body == key + body + [];
    StoredPart(hash, src, entries, p, [], key, body);
    StoredPart(hash, src, entries, p, key, body, []);
    FirstStored(hash, src, entries, p, key);
    if IsToken(src, m.key.start, m.key.end, m.key.escaped) {
      KeyStored(hash, src, m.key);
    }
  }
}
