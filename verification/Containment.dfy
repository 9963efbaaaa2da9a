/**
 JSONB-compatible containment over two tapes: what it means on value trees, where the last duplicate of
 a key wins and arrays ignore order, and that the iterator-driven search decides exactly that.
 */
module Containment {
  import opened Json
  import opened Tape
  import opened Strings
  import opened KeyHash
  import opened Lookup
  import opened Routes
  import opened Decimal
  import opened NumberEqual
  import opened Window
  import opened Index

  // ---- What containment means -----------------------------------------------------------------------------

  /** The text of a string spelled between two quotes. */
  ghost function SpanText(src: bytes, start: nat, end: nat): bytes {
    if start + 2 <= end <= |src| && WellEscaped(src, start + 1, end - 1) then TokenText(src, start, end) else []
  }

  ghost function KeyText(src: bytes, m: Member): bytes {
    SpanText(src, m.key.start, m.key.end)
  }

  ghost function NumberValue(src: bytes, start: nat, end: nat): real {
    if start <= end <= |src| && IsNumber(src[start..end]) then Denotes(src[start..end]) else 0.0
  }

  /** Scalars are equal when their kinds and their exact values are, however they are spelled. */
  ghost predicate SameScalar(s: bytes, a: Value, t: bytes, b: Value) {
    a.Scalar? && b.Scalar? && a.kind == b.kind &&
    match a.kind
    case Null => true
    case Bool => ByteAt(s, a.start, TRUE[0]) == ByteAt(t, b.start, TRUE[0])
    case Number => NumberValue(s, a.start, a.end) == NumberValue(t, b.start, b.end)
    case String => SpanText(s, a.start, a.end) == SpanText(t, b.start, b.end)
    case _ => false
  }

  /** No later member has the same key. */
  ghost predicate IsLast(src: bytes, members: seq<Member>, k: int) {
    0 <= k < |members| && forall j | k < j < |members| :: KeyText(src, members[j]) != KeyText(src, members[k])
  }

  /** The needle n of document t lies in the haystack h of document s. */
  ghost predicate Contained(s: bytes, h: Value, t: bytes, n: Value)
    decreases n, 0
  {
    match n
    case Scalar(_, _, _, _) => SameScalar(s, h, t, n)
    case Arr(_, _, items) => h.Arr? && forall j | 0 <= j < |items| :: InSomeItem(s, h.items, t, items[j])
    case Obj(_, _, members) => h.Obj? && forall k | IsLast(t, members, k) :: InMember(s, h.members, t, members[k])
  }

  /** Some element of the same kind contains n. */
  ghost predicate InSomeItem(s: bytes, items: seq<Value>, t: bytes, n: Value)
    decreases n, 1
  {
    exists i :: 0 <= i < |items| && KindOf(items[i]) == KindOf(n) && Contained(s, items[i], t, n)
  }

  /** The last member with m's key contains m's value. */
  ghost predicate InMember(s: bytes, members: seq<Member>, t: bytes, m: Member)
    decreases m, 2
  {
    exists i :: IsLast(s, members, i) && KeyText(s, members[i]) == KeyText(t, m) && ValueIn(s, members[i].value, t, m)
  }

  ghost predicate ValueIn(s: bytes, h: Value, t: bytes, m: Member)
    decreases m, 1
  {
    match m case Member(_, n) => Contained(s, h, t, n)
  }

  /** At the top level an array also contains its scalar elements. */
  ghost predicate ContainedAtTop(s: bytes, h: Value, t: bytes, n: Value) {
    if h.Arr? && n.Scalar? && n.kind in {Null, Bool, Number, String}
    then exists i :: 0 <= i < |h.items| && SameScalar(s, h.items[i], t, n)
    else Contained(s, h, t, n)
  }

  // ---- A preorder -----------------------------------------------------------------------------------------------

  lemma {:induction false} ContainsItself(s: bytes, v: Value)
    requires WellFormed(s, v)
    ensures Contained(s, v, s, v)
    decreases v
  {
    match v
    case Scalar(_, _, _, _) =>
    case Arr(_, _, items) =>
      forall j | 0 <= j < |items|
        ensures InSomeItem(s, items, s, items[j])
      {
        WellFormedItem(s, items, j);
        ContainsItself(s, items[j]);
      }
    case Obj(_, _, members) =>
      forall k | IsLast(s, members, k)
        ensures InMember(s, members, s, members[k])
      {
        WellFormedMemberAt(s, members, k);
        ContainsItself(s, members[k].value);
        assert ValueIn(s, members[k].value, s, members[k]);
      }
  }

  lemma {:induction false} ContainmentChains(s: bytes, a: Value, t: bytes, b: Value, u: bytes, c: Value)
    requires Contained(s, a, t, b) && Contained(t, b, u, c)
    ensures Contained(s, a, u, c)
    decreases c
  {
    match c
    case Scalar(_, _, _, _) =>
    case Arr(_, _, items) =>
      forall j | 0 <= j < |items|
        ensures InSomeItem(s, a.items, u, items[j])
      {
        assert InSomeItem(t, b.items, u, items[j]);
        var q :| 0 <= q < |b.items| && KindOf(b.items[q]) == KindOf(items[j]) && Contained(t, b.items[q], u, items[j]);
        assert InSomeItem(s, a.items, t, b.items[q]);
        var p :| 0 <= p < |a.items| && KindOf(a.items[p]) == KindOf(b.items[q]) && Contained(s, a.items[p], t, b.items[q]);
        ContainmentChains(s, a.items[p], t, b.items[q], u, items[j]);
      }
    case Obj(_, _, members) =>
      forall k | IsLast(u, members, k)
        ensures InMember(s, a.members, u, members[k])
      {
        assert InMember(t, b.members, u, members[k]);
        var q :| IsLast(t, b.members, q) && KeyText(t, b.members[q]) == KeyText(u, members[k]) && ValueIn(t, b.members[q].value, u, members[k]);
        assert InMember(s, a.members, t, b.members[q]);
        var p :| IsLast(s, a.members, p) && KeyText(s, a.members[p]) == KeyText(t, b.members[q]) && ValueIn(s, a.members[p].value, t, b.members[q]);
        ContainmentChains(s, a.members[p].value, t, b.members[q].value, u, members[k].value);
        assert ValueIn(s, a.members[p].value, u, members[k]);
      }
  }

  /** Containment at the top level is reflexive. */
  lemma ContainsItselfAtTop(s: bytes, v: Value)
    requires WellFormed(s, v)
    ensures ContainedAtTop(s, v, s, v)
  {
    ContainsItself(s, v);
  }

  /** And transitive, though only at the top does an array contain a scalar. */
  lemma ContainmentChainsAtTop(s: bytes, a: Value, t: bytes, b: Value, u: bytes, c: Value)
    requires WellFormed(u, c) && ContainedAtTop(s, a, t, b) && ContainedAtTop(t, b, u, c)
    ensures ContainedAtTop(s, a, u, c)
  {
    if b.Arr? && c.Scalar? {
      var q :| 0 <= q < |b.items| && SameScalar(t, b.items[q], u, c);
      assert InSomeItem(s, a.items, t, b.items[q]);
      var p :| 0 <= p < |a.items| && KindOf(a.items[p]) == KindOf(b.items[q]) && Contained(s, a.items[p], t, b.items[q]);
      assert SameScalar(s, a.items[p], u, c);
    } else if a.Arr? && c.Scalar? {
      var p :| 0 <= p < |a.items| && SameScalar(s, a.items[p], t, b);
      assert SameScalar(s, a.items[p], u, c);
    } else {
      ContainmentChains(s, a, t, b, u, c);
    }
  }

  // ---- Documents ------------------------------------------------------------------------------------------------

  /** An indexed document; `hashed` once its keys carry hashes. */
  datatype Doc = Doc(src: bytes, entries: seq<Entry>, mixer: Mixer, hashed: bool)

  function HashesOf(d: Doc): Option<Mixer> {
    if d.hashed then Some(d.mixer) else None
  }

  /** Every number of the tree is a number token. */
  predicate Numeric(src: bytes, v: Value)
    decreases v, 0
  {
    match v
    case Scalar(k, start, end, _) => k == Number ==> start <= end <= |src| && IsNumber(src[start..end])
    case Arr(_, _, items) => AllNumeric(src, items)
    case Obj(_, _, members) => NumericMembers(src, members)
  }

  predicate AllNumeric(src: bytes, items: seq<Value>)
    decreases items, 0
  {
    forall i | 0 <= i < |items| :: Numeric(src, items[i])
  }

  predicate NumericMembers(src: bytes, members: seq<Member>)
    decreases members, 0
  {
    forall k | 0 <= k < |members| :: NumericMember(src, members[k])
  }

  predicate NumericMember(src: bytes, m: Member)
    decreases m, 0
  {
    match m case Member(_, value) => Numeric(src, value)
  }

  lemma NumberCut(s: bytes, i: nat)
    requires i < |s|
    ensures var t := ScanNumber(s, i); t.NumberToken? ==> IsNumber(s[i..t.end])
  {
    var t := ScanNumber(s, i);
    if t.NumberToken? {
      NumberAlone(s[i..t.end], s, i);
    }
  }

  lemma ScalarNumeric(s: bytes, i: nat)
    requires i < |s| && ParseScalar(s, i).Good?
    ensures Numeric(s, ParseScalar(s, i).val)
  {
    hide IsNumber, ScanNumber, ScanString;
    NumberCut(s, i);
  }

  lemma {:induction false} ParsedNumeric(s: bytes, i: nat, d: nat, max: nat)
    requires i <= |s|
    ensures var r := ParseValue(s, i, d, max); r.Good? ==> Numeric(s, r.val)
    decreases |s| - i, 0
  {
    hide ParseScalar, IsNumber;
    var r := ParseValue(s, i, d, max);
    if r.Good? {
      if s[i] != LBRACE && s[i] != LBRACKET {
        ScalarNumeric(s, i);
      } else {
        var j := SkipSpace(s, i + 1);
        if s[i] == LBRACKET && !ByteAt(s, j, RBRACKET) {
          ElementsNumeric(s, j, d + 1, max);
        } else if s[i] == LBRACE && !ByteAt(s, j, RBRACE) {
          MembersNumeric(s, j, d + 1, max);
        }
      }
    }
  }

  lemma {:induction false} ElementsNumeric(s: bytes, i: nat, d: nat, max: nat)
    requires i <= |s|
    ensures var r := ParseElements(s, i, d, max); r.Good? ==> AllNumeric(s, r.val)
    decreases |s| - i, 1
  {
    var v := ParseValue(s, i, d, max);
    if v.Good? {
      ParsedNumeric(s, i, d, max);
      var tail := ArrayTail(s, v.end, d, max);
      if tail.Good? && tail.val != [] {
        ElementsNumeric(s, SkipSpace(s, SkipSpace(s, v.end) + 1), d, max);
        assert AllNumeric(s, tail.val);
      }
    }
  }

  lemma {:induction false} MembersNumeric(s: bytes, i: nat, d: nat, max: nat)
    requires i <= |s|
    ensures var r := ParseMembers(s, i, d, max); r.Good? ==> NumericMembers(s, r.val)
    decreases |s| - i, 1
  {
    hide ParseKey;
    var k := ParseKey(s, i);
    if k.Good? {
      var v := ParseValue(s, k.end, d, max);
      if v.Good? {
        ParsedNumeric(s, k.end, d, max);
        var tail := ObjectTail(s, v.end, d, max);
        if tail.Good? && tail.val != [] {
          MembersNumeric(s, SkipSpace(s, SkipSpace(s, v.end) + 1), d, max);
          assert NumericMembers(s, tail.val);
        }
      }
    }
  }

  /** The value v is stored at entry `at` of the document. */
  ghost predicate Stands(d: Doc, at: nat, v: Value) {
    Node(HashesOf(d), d.src, d.entries, at, v) && Numeric(d.src, v) && |d.src| < TWO_TO_THE_62
  }

  // ---- Strings compared without building them -----------------------------------------------------------------

  class JSONStringByteIter {
    const src: bytes
    const end: nat
    var i: nat
    var encoded: bytes
    var pos: nat

    ghost predicate Valid()
      reads this
    {
      i <= end <= |src| && WellEscaped(src, i, end) && pos <= |encoded|
    }

    /** The bytes still to come. */
    ghost function Rest(): bytes
      reads this
      requires Valid()
    {
      encoded[pos..] + Decode(src, i, end)
    }

    constructor (src: bytes, start: nat, end: nat)
      requires start <= end <= |src| && WellEscaped(src, start, end)
      ensures Valid() && Rest() == Decode(src, start, end)
    {
      this.src, this.end, i, encoded, pos := src, end, start, [], 0;
    }

    /** The next decoded byte, if there is one. */
    method Next() returns (b: byte, ok: bool)
      requires Valid()
      modifies this
      ensures Valid() && ok == (old(Rest()) != []) && (ok ==> old(Rest()) == [b] + Rest())
    {
      hide Decode, WellEscaped, EscapeLength;
      if pos < |encoded| {
        b := encoded[pos];
        assert encoded[pos..] == [b] + encoded[pos + 1..];
        pos := pos + 1;
        return b, true;
      }
      assert encoded[pos..] == [];
      AtEnd(src, i, end);
      if i == end {
        return 0, false;
      }
      var text, n := DecodeNext(src, i, end);
      i, encoded, pos := i + n, text, 1;
      assert text == [text[0]] + text[1..];
      return text[0], true;
    }

    lemma AtEnd(s: bytes, i: nat, end: nat)
      requires i <= end <= |s| && WellEscaped(s, i, end)
      ensures i == end ==> Decode(s, i, end) == []
    {
    }
  }

  lemma HeadAndTail(c: byte, x: bytes, d: byte, y: bytes)
    ensures [c] + x == [d] + y <==> c == d && x == y
  {
    assert ([c] + x)[0] == c && ([c] + x)[1..] == x && ([d] + y)[0] == d && ([d] + y)[1..] == y;
  }

  /** Compares two escaped tokens byte by byte. */
  method RawJSONStringEqual(s: bytes, a: Entry, t: bytes, b: Entry) returns (equal: bool)
    requires IsToken(s, a.start, a.end, IsEscaped(a)) && IsToken(t, b.start, b.end, IsEscaped(b))
    ensures equal == (TokenText(s, a.start, a.end) == TokenText(t, b.start, b.end))
  {
    hide Decode, WellEscaped;
    var x := new JSONStringByteIter(s, a.start + 1, a.end - 1);
    var y := new JSONStringByteIter(t, b.start + 1, b.end - 1);
    while true
      invariant x != y && fresh(x) && fresh(y) && x.Valid() && y.Valid()
      invariant TokenText(s, a.start, a.end) == TokenText(t, b.start, b.end) <==> x.Rest() == y.Rest()
      decreases |x.Rest()|
    {
      var c, more := x.Next();
      var d, also := y.Next();
      HeadAndTail(c, x.Rest(), d, y.Rest());
      if more != also || (more && c != d) {
        return false;
      }
      if !more {
        return true;
      }
    }
  }

  /** Compares decoded strings, building a text for neither. */
  method StringNodesEqual(s: bytes, a: Entry, t: bytes, b: Entry) returns (equal: bool)
    requires IsToken(s, a.start, a.end, IsEscaped(a)) && IsToken(t, b.start, b.end, IsEscaped(b))
    ensures equal == (SpanText(s, a.start, a.end) == SpanText(t, b.start, b.end))
  {
    hide Decode, WellEscaped;
    if !IsEscaped(a) {
      equal := TapeKeyEqual(t, b.start, b.end, IsEscaped(b), s[a.start + 1..a.end - 1]);
    } else if !IsEscaped(b) {
      equal := TapeKeyEqual(s, a.start, a.end, IsEscaped(a), t[b.start + 1..b.end - 1]);
    } else {
      equal := RawJSONStringEqual(s, a, t, b);
    }
  }

  lemma EntryOf(d: Doc, at: nat, v: Value)
    requires Stands(d, at, v)
    ensures at < |d.entries|
    ensures var e := d.entries[at];
            e.Kind() == KindCode(KindOf(v)) && e.start == v.start && e.end == v.end && e.next == |Layout(v)| &&
            (v.Arr? ==> e.Count() == |v.items|) && (v.Obj? ==> e.Count() == |v.members| && AllTokens(d.src, v.members)) &&
            (v.Scalar? ==> v.kind != Array && v.kind != Object) &&
            (v.Scalar? && v.kind == String ==> IsToken(d.src, e.start, e.end, IsEscaped(e))) &&
            (v.Scalar? && v.kind == Number ==> e.start <= e.end <= |d.src| && IsNumber(d.src[e.start..e.end]))
  {
    hide Layout, IsToken, IsNumber, StoredAt, Countable;
    HeaderOf(HashesOf(d), d.src, d.entries, at, v);
    if v.Obj? {
      TokensOf(d.src, v);
    }
  }

  lemma SameKinds(j: Kind, k: Kind)
    ensures KindCode(j) == KindCode(k) <==> j == k
    ensures KindCode(k) == KIND_NULL <==> k == Null
    ensures KindCode(k) == KIND_BOOL <==> k == Bool
    ensures KindCode(k) == KIND_NUMBER <==> k == Number
    ensures KindCode(k) == KIND_STRING <==> k == String
    ensures KindCode(k) == KIND_ARRAY <==> k == Array
    ensures KindCode(k) == KIND_OBJECT <==> k == Object
  {
  }

  /** Compares two scalars of documents. */
  method ScalarNodesEqual(h: Doc, hat: nat, n: Doc, at: nat, ghost hv: Value, ghost nv: Value) returns (equal: bool)
    requires Stands(h, hat, hv) && Stands(n, at, nv)
    ensures equal == SameScalar(h.src, hv, n.src, nv)
  {
    hide Stands, IsToken, IsNumber, Denotes, Layout, SpanText, KindCode;
    EntryOf(h, hat, hv);
    EntryOf(n, at, nv);
    SameKinds(KindOf(hv), KindOf(nv));
    var a, b := h.entries[hat], n.entries[at];
    if a.Kind() != b.Kind() {
      return false;
    }
    if a.Kind() == KIND_NULL {
      equal := true;
    } else if a.Kind() == KIND_BOOL {
      equal := ByteAt(h.src, a.start, TRUE[0]) == ByteAt(n.src, b.start, TRUE[0]);
    } else if a.Kind() == KIND_NUMBER {
      ShortSource(h, hat, hv);
      ShortSource(n, at, nv);
      equal := JSONNumberEqual(h.src[a.start..a.end], n.src[b.start..b.end]);
    } else if a.Kind() == KIND_STRING {
      equal := StringNodesEqual(h.src, a, n.src, b);
    } else {
      equal := false;
    }
  }

  lemma ShortSource(d: Doc, at: nat, v: Value)
    requires Stands(d, at, v)
    ensures |d.src| < TWO_TO_THE_62
  {
  }

  // ---- Searching --------------------------------------------------------------------------------------------------

  /** The member a lookup settles on is the last one with its key. */
  lemma LookupIsLast(src: bytes, members: seq<Member>, key: bytes)
    requires AllTokens(src, members)
    ensures var r := LastNamed(src, members, key, |members|);
            (r.Some? ==> IsLast(src, members, r.value) && KeyText(src, members[r.value]) == key) &&
            forall k | IsLast(src, members, k) && KeyText(src, members[k]) == key :: r == Some(k)
    ensures LastNamed(src, members, key, |members|).None? ==> forall k | 0 <= k < |members| :: KeyText(src, members[k]) != key
  {
    hide TokenText;
    LastWins(src, members, key, |members|);
    forall k | 0 <= k < |members|
      ensures KeyText(src, members[k]) == Name(src, members[k])
    {
      assert WellFormedMember(src, members[k]);
    }
  }

  lemma {:induction false} KeysApart(at: nat, members: seq<Member>, j: nat, k: nat)
    requires j < k <= |members|
    ensures KeyAt(at, members, j) < KeyAt(at, members, k)
  {
    MembersSplit(members, k - 1);
    if j < k - 1 {
      KeysApart(at, members, j, k - 1);
    }
  }

  /** The element k of an array stands right after its predecessors. */
  lemma ItemStands(d: Doc, at: nat, v: Value, k: nat)
    requires Stands(d, at, v) && v.Arr? && k < |v.items|
    ensures Stands(d, ItemAt(at, v.items, k), v.items[k])
    ensures ItemAt(at, v.items, k + 1) == ItemAt(at, v.items, k) + |Layout(v.items[k])|
  {
    hide Node, Layout;
    ItemNode(HashesOf(d), d.src, d.entries, at, v, k);
    assert AllNumeric(d.src, v.items);
  }

  /** The member k of an object: its key's entry, and its value right after. */
  lemma MemberStands(d: Doc, at: nat, v: Value, k: nat)
    requires Stands(d, at, v) && v.Obj? && k < |v.members|
    ensures var p, m := KeyAt(at, v.members, k), v.members[k];
            p < |d.entries| && Stands(d, p + 1, m.value) && KeyAt(at, v.members, k + 1) == p + 1 + |Layout(m.value)|
    ensures var e := d.entries[KeyAt(at, v.members, k)];
            IsToken(d.src, e.start, e.end, IsEscaped(e)) && KeyText(d.src, v.members[k]) == SpanText(d.src, e.start, e.end)
  {
    hide Node, Layout, KeyAt, SpanText;
    MemberNode(HashesOf(d), d.src, d.entries, at, v, k);
    assert NumericMembers(d.src, v.members);
    assert NumericMember(d.src, v.members[k]);
  }

  lemma FirstPlaces(at: nat, items: seq<Value>, members: seq<Member>)
    ensures ItemAt(at, items, 0) == at + 1 && KeyAt(at, members, 0) == at + 1
  {
    assert items[..0] == [] && members[..0] == [];
  }

  /** Looks a key up by its token, escaped as it may be. */
  method ObjectGetEscapedKey(d: Doc, at: nat, s: bytes, key: Entry, ghost v: Value) returns (r: Option<nat>)
    requires Stands(d, at, v) && v.Obj? && AllTokens(d.src, v.members) && IsToken(s, key.start, key.end, IsEscaped(key))
    ensures r == ValueEntry(at, v.members, LastNamed(d.src, v.members, SpanText(s, key.start, key.end), |v.members|))
  {
    hide Stands, IsToken, SpanText, KeyAt, WellFormedMember, Layout;
    ghost var ms, text := v.members, SpanText(s, key.start, key.end);
    EntryOf(d, at, v);
    FirstPlaces(at, [], ms);
    r := None;
    var p: nat, k: nat := at + 1, 0;
    while k < d.entries[at].Count()
      invariant k <= |ms| && p == KeyAt(at, ms, k) && r == ValueEntry(at, ms, LastNamed(d.src, ms, text, k))
    {
      MemberStands(d, at, v, k);
      EntryOf(d, p + 1, ms[k].value);
      NameIsKeyText(d.src, ms, k);
      var same := StringNodesEqual(d.src, d.entries[p], s, key);
      if same {
        r := Some(p + 1);
      }
      p := p + 1 + d.entries[p + 1].next;
      k := k + 1;
    }
  }

  lemma NameIsKeyText(src: bytes, members: seq<Member>, k: nat)
    requires k < |members| && AllTokens(src, members)
    ensures Name(src, members[k]) == KeyText(src, members[k])
  {
    assert WellFormedMember(src, members[k]);
  }

  /** An unescaped token spells its own bytes. */
  lemma CleanSpan(s: bytes, key: Entry)
    requires IsToken(s, key.start, key.end, IsEscaped(key)) && !IsEscaped(key)
    ensures key.start + 2 <= key.end <= |s| && SpanText(s, key.start, key.end) == s[key.start + 1..key.end - 1]
  {
    hide Decode, WellEscaped;
  }

  lemma StandsNode(d: Doc, at: nat, v: Value)
    requires Stands(d, at, v)
    ensures Node(HashesOf(d), d.src, d.entries, at, v)
  {
    hide Node, Numeric;
  }

  /** The value entry of the last member with the key spelled by the token. */
  method MemberWithKey(d: Doc, at: nat, s: bytes, key: Entry, ghost v: Value) returns (r: Option<nat>)
    requires Stands(d, at, v) && v.Obj? && AllTokens(d.src, v.members) && IsToken(s, key.start, key.end, IsEscaped(key))
    ensures r == ValueEntry(at, v.members, LastNamed(d.src, v.members, SpanText(s, key.start, key.end), |v.members|))
  {
    hide Stands, Node, SpanText, IsToken, KeyAt, LastNamed, WellFormedMember;
    if IsEscaped(key) {
      r := ObjectGetEscapedKey(d, at, s, key, v);
    } else {
      CleanSpan(s, key);
      StandsNode(d, at, v);
      r := Get(d.src, d.entries, at, s[key.start + 1..key.end - 1], d.mixer, d.hashed, v);
    }
  }

  /** Every effective needle member, in the order of the tape, against the last haystack member with its key. */
  method ObjectContains(h: Doc, hat: nat, n: Doc, at: nat, ghost hv: Value, ghost nv: Value) returns (contained: bool)
    requires Stands(h, hat, hv) && Stands(n, at, nv) && hv.Obj? && nv.Obj?
    ensures contained == Contained(h.src, hv, n.src, nv)
    decreases nv, 0
  {
    hide Stands, IsToken, SpanText, KeyAt, WellFormedMember, Layout, KeyText, Contained, InMember, IsLast, LastNamed;
    ghost var hms, nms := hv.members, nv.members;
    EntryOf(h, hat, hv);
    EntryOf(n, at, nv);
    FirstPlaces(at, [], nms);
    var p: nat, k: nat := at + 1, 0;
    while k < n.entries[at].Count()
      invariant k <= |nms| && p == KeyAt(at, nms, k)
      invariant forall j | 0 <= j < k && IsLast(n.src, nms, j) :: InMember(h.src, hms, n.src, nms[j])
    {
      MemberStands(n, at, nv, k);
      EntryOf(n, p + 1, nms[k].value);
      var found := MemberWithKey(h, hat, n.src, n.entries[p], hv);
      if found.None? {
        MissingKey(h.src, hv, n.src, nv, k);
        return false;
      }
      ghost var i := LastNamed(h.src, hms, KeyText(n.src, nms[k]), |hms|).value;
      MemberStands(h, hat, hv, i);
      var inside := NodeContains(h, found.value, n, p + 1, hms[i].value, nms[k].value);
      MemberVerdict(h.src, hms, n.src, nms[k], i);
      if !inside {
        var effective := MemberWithKey(n, at, n.src, n.entries[p], nv);
        EffectiveMember(n.src, at, nms, k);
        if effective == Some(p + 1) {
          NotContained(h.src, hv, n.src, nv, k);
          return false;
        }
      }
      p := p + 1 + n.entries[p + 1].next;
      k := k + 1;
    }
    AllContained(h.src, hv, n.src, nv);
    contained := true;
  }

  lemma MissingKey(s: bytes, h: Value, t: bytes, n: Value, k: nat)
    requires h.Obj? && n.Obj? && k < |n.members| && AllTokens(s, h.members) && AllTokens(t, n.members)
    requires LastNamed(s, h.members, KeyText(t, n.members[k]), |h.members|).None?
    ensures !Contained(s, h, t, n)
  {
    hide KeyText, WellFormedMember;
    var key := KeyText(t, n.members[k]);
    LookupIsLast(s, h.members, key);
    LookupIsLast(t, n.members, key);
    var last := LastNamed(t, n.members, key, |n.members|).value;
    assert !InMember(s, h.members, t, n.members[last]);
  }

  lemma MemberVerdict(s: bytes, members: seq<Member>, t: bytes, m: Member, i: nat)
    requires AllTokens(s, members) && LastNamed(s, members, KeyText(t, m), |members|) == Some(i)
    ensures InMember(s, members, t, m) <==> Contained(s, members[i].value, t, m.value)
  {
    hide KeyText, WellFormedMember, Contained;
    LookupIsLast(s, members, KeyText(t, m));
    assert ValueIn(s, members[i].value, t, m) == Contained(s, members[i].value, t, m.value);
  }

  /** The member found in the needle by its own key is the member itself exactly when it is the last with the key. */
  lemma EffectiveMember(t: bytes, at: nat, members: seq<Member>, k: nat)
    requires k < |members| && AllTokens(t, members)
    ensures ValueEntry(at, members, LastNamed(t, members, KeyText(t, members[k]), |members|)) == Some(KeyAt(at, members, k) + 1) <==> IsLast(t, members, k)
  {
    hide KeyText, WellFormedMember, KeyAt;
    LookupIsLast(t, members, KeyText(t, members[k]));
    var r := LastNamed(t, members, KeyText(t, members[k]), |members|).value;
    if k < r {
      KeysApart(at, members, k, r);
    }
  }

  lemma NotContained(s: bytes, h: Value, t: bytes, n: Value, k: nat)
    requires n.Obj? && h.Obj? && IsLast(t, n.members, k) && !InMember(s, h.members, t, n.members[k])
    ensures !Contained(s, h, t, n)
  {
  }

  lemma AllContained(s: bytes, h: Value, t: bytes, n: Value)
    requires n.Obj? && h.Obj? && forall k | 0 <= k < |n.members| && IsLast(t, n.members, k) :: InMember(s, h.members, t, n.members[k])
    ensures Contained(s, h, t, n)
  {
    hide InMember;
  }

  /** Every needle element against the haystack elements of its kind. */
  method ArrayContains(h: Doc, hat: nat, n: Doc, at: nat, ghost hv: Value, ghost nv: Value) returns (contained: bool)
    requires Stands(h, hat, hv) && Stands(n, at, nv) && hv.Arr? && nv.Arr?
    ensures contained == Contained(h.src, hv, n.src, nv)
    decreases nv, 0
  {
    hide Stands, Layout, ItemAt, InSomeItem;
    EntryOf(n, at, nv);
    FirstPlaces(at, nv.items, []);
    var p: nat, j: nat := at + 1, 0;
    while j < n.entries[at].Count()
      invariant j <= |nv.items| && p == ItemAt(at, nv.items, j)
      invariant forall k | 0 <= k < j :: InSomeItem(h.src, hv.items, n.src, nv.items[k])
    {
      ItemStands(n, at, nv, j);
      EntryOf(n, p, nv.items[j]);
      var found := ItemContaining(h, hat, n, p, hv, nv.items[j]);
      if !found {
        return false;
      }
      p := p + n.entries[p].next;
      j := j + 1;
    }
    contained := true;
  }

  /** A haystack element of n's kind that contains it. */
  method ItemContaining(h: Doc, hat: nat, n: Doc, at: nat, ghost hv: Value, ghost nv: Value) returns (found: bool)
    requires Stands(h, hat, hv) && Stands(n, at, nv) && hv.Arr?
    ensures found == InSomeItem(h.src, hv.items, n.src, nv)
    decreases nv, 2
  {
    hide Stands, Layout, ItemAt, Contained, KindCode;
    EntryOf(n, at, nv);
    EntryOf(h, hat, hv);
    FirstPlaces(hat, hv.items, []);
    var p: nat, i: nat := hat + 1, 0;
    while i < h.entries[hat].Count()
      invariant i <= |hv.items| && p == ItemAt(hat, hv.items, i)
      invariant forall k | 0 <= k < i :: !(KindOf(hv.items[k]) == KindOf(nv) && Contained(h.src, hv.items[k], n.src, nv))
    {
      ItemStands(h, hat, hv, i);
      EntryOf(h, p, hv.items[i]);
      SameKinds(KindOf(hv.items[i]), KindOf(nv));
      if h.entries[p].Kind() == n.entries[at].Kind() {
        var inside := NodeContains(h, p, n, at, hv.items[i], nv);
        if inside {
          return true;
        }
      }
      p := p + h.entries[p].next;
      i := i + 1;
    }
    found := false;
  }

  /** Containment below the top level. */
  method NodeContains(h: Doc, hat: nat, n: Doc, at: nat, ghost hv: Value, ghost nv: Value) returns (contained: bool)
    requires Stands(h, hat, hv) && Stands(n, at, nv)
    ensures contained == Contained(h.src, hv, n.src, nv)
    decreases nv, 1
  {
    hide Stands, Layout, KindCode, SameScalar, InSomeItem, InMember;
    EntryOf(h, hat, hv);
    EntryOf(n, at, nv);
    SameKinds(KindOf(hv), KindOf(nv));
    SameKinds(KindOf(nv), KindOf(hv));
    if n.entries[at].Kind() == KIND_OBJECT {
      if h.entries[hat].Kind() != KIND_OBJECT {
        return false;
      }
      contained := ObjectContains(h, hat, n, at, hv, nv);
    } else if n.entries[at].Kind() == KIND_ARRAY {
      if h.entries[hat].Kind() != KIND_ARRAY {
        return false;
      }
      contained := ArrayContains(h, hat, n, at, hv, nv);
    } else {
      contained := ScalarNodesEqual(h, hat, n, at, hv, nv);
    }
  }

  /** Containment of a node in a node. */
  method Contains(h: Doc, hat: nat, n: Doc, at: nat, ghost hv: Value, ghost nv: Value) returns (contained: bool)
    requires Stands(h, hat, hv) && Stands(n, at, nv)
    ensures contained == ContainedAtTop(h.src, hv, n.src, nv)
  {
    hide Stands, Layout, KindCode, SameScalar, Contained, ItemAt;
    EntryOf(h, hat, hv);
    EntryOf(n, at, nv);
    SameKinds(KindOf(hv), KindOf(nv));
    SameKinds(KindOf(nv), KindOf(hv));
    var kind := n.entries[at].Kind();
    if h.entries[hat].Kind() == KIND_ARRAY && (kind == KIND_NULL || kind == KIND_BOOL || kind == KIND_NUMBER || kind == KIND_STRING) {
      FirstPlaces(hat, hv.items, []);
      var p: nat, i: nat := hat + 1, 0;
      while i < h.entries[hat].Count()
        invariant i <= |hv.items| && p == ItemAt(hat, hv.items, i)
        invariant forall k | 0 <= k < i :: !SameScalar(h.src, hv.items[k], n.src, nv)
      {
        ItemStands(h, hat, hv, i);
        EntryOf(h, p, hv.items[i]);
        var equal := ScalarNodesEqual(h, p, n, at, hv.items[i], nv);
        if equal {
          return true;
        }
        p := p + h.entries[p].next;
        i := i + 1;
      }
      return false;
    }
    contained := NodeContains(h, hat, n, at, hv, nv);
  }

  /** A document whose source and counts fit their words; its tape then does too. */
  predicate Indexable(src: bytes, doc: Option<Value>) {
    |src| < TWO_TO_THE_32 && doc.Some? && Countable(doc.value)
  }

  /** Validates and indexes one operand. */
  method ContainsIndex(src: bytes) returns (entries: seq<Entry>, ok: bool)
    ensures var doc := ParseDocument(src, DEFAULT_MAX_DEPTH);
            (ok <==> Indexable(src, doc)) &&
            (ok ==> WellFormed(src, doc.value) && Numeric(src, doc.value) && Countable(doc.value) && entries == Layout(doc.value))
  {
    hide ParseValue, WellFormed, Numeric, Countable, Layout;
    entries := [];
    var n, good := RequiredIndexEntries(src);
    if !good {
      return [], false;
    }
    ParsedWellFormed(src, SkipSpace(src, 0), 0, DEFAULT_MAX_DEPTH);
    ParsedNumeric(src, SkipSpace(src, 0), 0, DEFAULT_MAX_DEPTH);
    HalfDocument(src, DEFAULT_MAX_DEPTH);
    var storage := new Entry[n](_ => Entry(0, 0, 0, 0));
    var err, used := BuildIndex(src, storage, 0);
    ok := err.NoError?;
    entries := storage[..used];
  }

  /** Containment of one document in another, from their bytes. */
  method RawContains(haystack: bytes, needle: bytes, mixer: Mixer) returns (contained: bool, ok: bool)
    ensures var h, n := ParseDocument(haystack, DEFAULT_MAX_DEPTH), ParseDocument(needle, DEFAULT_MAX_DEPTH);
            (ok <==> Indexable(haystack, h) && Indexable(needle, n)) &&
            (ok ==> contained == ContainedAtTop(haystack, h.value, needle, n.value))
  {
    hide ParseDocument, WellFormed, Numeric, ContainedAtTop;
    var a, aok := ContainsIndex(haystack);
    if !aok {
      return false, false;
    }
    var b, bok := ContainsIndex(needle);
    if !bok {
      return false, false;
    }
    ghost var hv, nv := ParseDocument(haystack, DEFAULT_MAX_DEPTH).value, ParseDocument(needle, DEFAULT_MAX_DEPTH).value;
    var h, n := Doc(haystack, a, mixer, false), Doc(needle, b, mixer, false);
    contained := Contains(h, 0, n, 0, hv, nv);
    ok := true;
  }
}
