/**
 The four member lookups of a tape object. Each returns the value entry of the last member whose
 decoded name equals the query.
 */
module Routes {
  import opened Json
  import opened Tape
  import opened Strings
  import opened KeyHash
  import opened Lookup

  predicate AllTokens(src: bytes, members: seq<Member>) {
    forall k | 0 <= k < |members| :: WellFormedMember(src, members[k])
  }

  function Name(src: bytes, m: Member): bytes
    requires WellFormedMember(src, m)
  {
    TokenText(src, m.key.start, m.key.end)
  }

  /** The last of the first n members named `key`. */
  function LastNamed(src: bytes, members: seq<Member>, key: bytes, n: nat): (r: Option<nat>)
    requires n <= |members| && AllTokens(src, members)
    ensures r.Some? ==> r.value < n
  {
    if n == 0 then None
    else if Name(src, members[n - 1]) == key then Some(n - 1)
    else LastNamed(src, members, key, n - 1)
  }

  /** Last duplicate wins: the member found carries the name, and none after it does. */
  lemma {:induction false} LastWins(src: bytes, members: seq<Member>, key: bytes, n: nat)
    requires n <= |members| && AllTokens(src, members)
    ensures var r := LastNamed(src, members, key, n);
            (r.Some? ==> Name(src, members[r.value]) == key) &&
            forall k | (if r.Some? then r.value < k else 0 <= k) && k < n :: Name(src, members[k]) != key
  {
    hide Name, WellFormedMember;
    if n > 0 {
      LastWins(src, members, key, n - 1);
    }
  }

  /** The value entry of the member a lookup settles on. */
  function ValueEntry(at: nat, members: seq<Member>, r: Option<nat>): Option<nat>
    requires r.Some? ==> r.value < |members|
  {
    if r.None? then None else Some(KeyAt(at, members, r.value) + 1)
  }

  lemma TokensOf(src: bytes, v: Value)
    requires v.Obj? && WellFormed(src, v)
    ensures AllTokens(src, v.members)
  {
    forall k | 0 <= k < |v.members|
      ensures WellFormedMember(src, v.members[k])
    {
      WellFormedMemberAt(src, v.members, k);
    }
  }

  /** An object all of whose values are single entries. */
  predicate FlatMembers(members: seq<Member>) {
    forall k | 0 <= k < |members| :: |Layout(members[k].value)| == 1
  }

  lemma {:induction false} MembersAtLeastTwo(members: seq<Member>)
    ensures |LayoutMembers(members)| >= 2 * |members|
  {
    if members != [] {
      MembersAtLeastTwo(members[1..]);
    }
  }

  /** The size test for flat objects is exact. */
  lemma FlatObject(start: nat, end: nat, members: seq<Member>)
    ensures |Layout(Obj(start, end, members))| == 2 * |members| + 1 <==> FlatMembers(members)
  {
    forall k | 0 <= k < |members|
      ensures |LayoutMembers(members)| >= 2 * |members| + |Layout(members[k].value)| - 1
    {
      MembersSplit(members, k);
      MembersAtLeastTwo(members[..k]);
      MembersAtLeastTwo(members[k + 1..]);
      assert LayoutMember(members[k]) == [KeyEntry(members[k].key)] + Layout(members[k].value);
    }
    if FlatMembers(members) {
      FlatPrefix(members, |members|);
      assert members[..|members|] == members;
    }
  }

  /** Positions in a flat object are a fixed stride. */
  lemma FlatKey(at: nat, members: seq<Member>, k: nat)
    requires k <= |members| && FlatMembers(members)
    ensures KeyAt(at, members, k) == at + 2 * k + 1
  {
    FlatPrefix(members, k);
  }

  lemma {:induction false} FlatPrefix(members: seq<Member>, k: nat)
    requires k <= |members| && FlatMembers(members)
    ensures |LayoutMembers(members[..k])| == 2 * k
  {
    if k > 0 {
      FlatPrefix(members, k - 1);
      MembersSplit(members, k - 1);
      assert LayoutMember(members[k - 1]) == [KeyEntry(members[k - 1].key)] + Layout(members[k - 1].value);
    }
  }

  // ---- One member -----------------------------------------------------------------------------------

  /** Compares the name stored at p, skipping it when an unescaped name has the wrong length. */
  method MatchesPlain(src: bytes, entries: seq<Entry>, p: nat, key: bytes, ghost hash: Option<Mixer>, ghost m: Member) returns (matched: bool)
    requires p < |entries| && WellFormedMember(src, m)
    requires entries[p].start == m.key.start && entries[p].end == m.key.end && IsEscaped(entries[p]) == m.key.escaped
    ensures matched == (Name(src, m) == key)
  {
    var e := entries[p];
    if !IsEscaped(e) && e.end - e.start != |key| + 2 {
      return false;
    }
    matched := TapeKeyEqual(src, e.start, e.end, IsEscaped(e), key);
  }

  /** Compares the name stored at p, skipping it when an unescaped name has another hash. */
  method MatchesHashed(src: bytes, entries: seq<Entry>, p: nat, key: bytes, queryHash: nat, ghost mixer: Mixer, ghost m: Member) returns (matched: bool)
    requires p < |entries| && WellFormedMember(src, m) && queryHash == HashOf(mixer, key)
    requires entries[p].start == m.key.start && entries[p].end == m.key.end && IsEscaped(entries[p]) == m.key.escaped
    requires entries[p].next == HashOf(mixer, src[m.key.start + 1..m.key.end - 1])
    ensures matched == (Name(src, m) == key)
  {
    var e := entries[p];
    if !IsEscaped(e) && e.next != queryHash {
      return false;
    }
    matched := TapeKeyEqual(src, e.start, e.end, IsEscaped(e), key);
  }

  // ---- Plain tapes -------------------------------------------------------------------------------------

  /** Backward scan of a flat object: the first match is the last duplicate. */
  method ScanFlatPlain(src: bytes, entries: seq<Entry>, at: nat, key: bytes, count: nat, ghost v: Value) returns (r: Option<nat>)
    requires Node(None, src, entries, at, v) && v.Obj? && count == |v.members| && FlatMembers(v.members) && AllTokens(src, v.members)
    ensures r == ValueEntry(at, v.members, LastNamed(src, v.members, key, count))
  {
    hide StoredAt, Layout, WellFormed, WellFormedMember, Countable, Name;
    ghost var ms := v.members;
    hide KeyAt, FlatMembers;
    var member: nat := count;
    while member > 0
      invariant member <= count && LastNamed(src, ms, key, count) == LastNamed(src, ms, key, member)
    {
      member := member - 1;
      FlatKey(at, ms, member);
      MemberNode(None, src, entries, at, v, member);
      var matched := MatchesPlain(src, entries, at + 2 * member + 1, key, None, ms[member]);
      if matched {
        return Some(at + 2 * member + 2);
      }
    }
    return None;
  }

  lemma FirstKey(at: nat, members: seq<Member>)
    ensures KeyAt(at, members, 0) == at + 1
  {
    assert members[..0] == [];
  }

  /** Forward scan along the value sizes, keeping the latest match. */
  method ScanLinkedPlain(src: bytes, entries: seq<Entry>, at: nat, key: bytes, count: nat, ghost v: Value) returns (r: Option<nat>)
    requires Node(None, src, entries, at, v) && v.Obj? && count == |v.members| && AllTokens(src, v.members)
    ensures r == ValueEntry(at, v.members, LastNamed(src, v.members, key, count))
  {
    hide StoredAt, Layout, WellFormed, WellFormedMember, Countable, Name, KeyAt;
    ghost var ms := v.members;
    FirstKey(at, ms);
    r := None;
    var p: nat, member: nat := at + 1, 0;
    while member < count
      invariant member <= count && r == ValueEntry(at, ms, LastNamed(src, ms, key, member))
      invariant p == KeyAt(at, ms, member)
    {
      MemberNode(None, src, entries, at, v, member);
      HeaderOf(None, src, entries, p + 1, ms[member].value);
      var matched := MatchesPlain(src, entries, p, key, None, ms[member]);
      if matched {
        r := Some(p + 1);
      }
      p := p + 1 + entries[p + 1].next;
      member := member + 1;
    }
  }

  /** The lookup without key hashes. */
  method GetPlain(src: bytes, entries: seq<Entry>, at: nat, key: bytes, count: nat, ghost v: Value) returns (r: Option<nat>)
    requires Node(None, src, entries, at, v) && v.Obj? && count == |v.members| > 0
    ensures AllTokens(src, v.members)
    ensures r == ValueEntry(at, v.members, LastNamed(src, v.members, key, count))
  {
    TokensOf(src, v);
    HeaderOf(None, src, entries, at, v);
    FlatObject(v.start, v.end, v.members);
    if entries[at].next == 2 * count + 1 {
      r := ScanFlatPlain(src, entries, at, key, count, v);
    } else {
      r := ScanLinkedPlain(src, entries, at, key, count, v);
    }
  }

  // ---- Enriched tapes -----------------------------------------------------------------------------------

  /** Verifies the candidates among members hi - 1 down to lo of a flat object. */
  method VerifyFlatRange(src: bytes, entries: seq<Entry>, at: nat, hi: nat, lo: nat, key: bytes, queryHash: nat, mixer: Mixer, ghost v: Value)
    returns (r: Option<nat>)
    requires Node(Some(mixer), src, entries, at, v) && v.Obj? && lo <= hi <= |v.members| && FlatMembers(v.members)
    requires queryHash == HashOf(mixer, key) && AllTokens(src, v.members)
    ensures r.Some? ==> r == ValueEntry(at, v.members, LastNamed(src, v.members, key, hi))
    ensures r.None? ==> LastNamed(src, v.members, key, hi) == LastNamed(src, v.members, key, lo)
  {
    hide StoredAt, Layout, WellFormed, WellFormedMember, Countable, Name, HashOf;
    ghost var ms := v.members;
    hide KeyAt, FlatMembers;
    var member: nat := hi;
    while member > lo
      invariant lo <= member <= hi && LastNamed(src, ms, key, hi) == LastNamed(src, ms, key, member)
    {
      member := member - 1;
      FlatKey(at, ms, member);
      MemberNode(Some(mixer), src, entries, at, v, member);
      var matched := MatchesHashed(src, entries, at + 2 * member + 1, key, queryHash, mixer, ms[member]);
      if matched {
        return Some(at + 2 * member + 2);
      }
    }
    return None;
  }

  /** An unescaped name with another hash is not the query. */
  lemma NotCandidate(src: bytes, entries: seq<Entry>, at: nat, k: nat, key: bytes, mixer: Mixer, v: Value)
    requires Node(Some(mixer), src, entries, at, v) && v.Obj? && k < |v.members| && AllTokens(src, v.members) && FlatMembers(v.members)
    ensures var p := at + 2 * k + 1;
            p < |entries| && (!IsEscaped(entries[p]) && entries[p].next != HashOf(mixer, key) ==> Name(src, v.members[k]) != key)
  {
    FlatKey(at, v.members, k);
    MemberNode(Some(mixer), src, entries, at, v, k);
  }

  /** Flat backward scan, testing four members at a time for a candidate. */
  method ScanFlatHash(src: bytes, entries: seq<Entry>, at: nat, count: nat, key: bytes, queryHash: nat, mixer: Mixer, ghost v: Value)
    returns (r: Option<nat>)
    requires Node(Some(mixer), src, entries, at, v) && v.Obj? && count == |v.members| > 0 && FlatMembers(v.members)
    requires queryHash == HashOf(mixer, key) && AllTokens(src, v.members)
    ensures r == ValueEntry(at, v.members, LastNamed(src, v.members, key, count))
  {
    hide StoredAt, Layout, WellFormed, WellFormedMember, Countable, Name, HashOf;
    ghost var ms := v.members;
    hide KeyAt, FlatMembers;
    var m: nat := count;
    while m >= 4
      invariant m <= count && LastNamed(src, ms, key, count) == LastNamed(src, ms, key, m)
    {
      NotCandidate(src, entries, at, m - 1, key, mixer, v);
      NotCandidate(src, entries, at, m - 2, key, mixer, v);
      NotCandidate(src, entries, at, m - 3, key, mixer, v);
      NotCandidate(src, entries, at, m - 4, key, mixer, v);
      var k3, k2, k1, k0 := entries[at + 2 * m - 1], entries[at + 2 * m - 3], entries[at + 2 * m - 5], entries[at + 2 * m - 7];
      if k3.next == queryHash || k2.next == queryHash || k1.next == queryHash || k0.next == queryHash ||
         IsEscaped(k3) || IsEscaped(k2) || IsEscaped(k1) || IsEscaped(k0) {
        r := VerifyFlatRange(src, entries, at, m, m - 4, key, queryHash, mixer, v);
        if r.Some? {
          return;
        }
      } else {
        assert LastNamed(src, ms, key, m) == LastNamed(src, ms, key, m - 2);
        assert LastNamed(src, ms, key, m - 2) == LastNamed(src, ms, key, m - 4);
      }
      m := m - 4;
    }
    r := VerifyFlatRange(src, entries, at, m, 0, key, queryHash, mixer, v);
  }

  /** Forward scan along the value sizes, gated by the stored hashes. */
  method ScanLinkedHash(src: bytes, entries: seq<Entry>, at: nat, key: bytes, queryHash: nat, count: nat, mixer: Mixer, ghost v: Value)
    returns (r: Option<nat>)
    requires Node(Some(mixer), src, entries, at, v) && v.Obj? && count == |v.members| && AllTokens(src, v.members)
    requires queryHash == HashOf(mixer, key)
    ensures r == ValueEntry(at, v.members, LastNamed(src, v.members, key, count))
  {
    hide StoredAt, Layout, WellFormed, WellFormedMember, Countable, Name, KeyAt, HashOf;
    ghost var ms := v.members;
    FirstKey(at, ms);
    r := None;
    var p: nat, member: nat := at + 1, 0;
    while member < count
      invariant member <= count && r == ValueEntry(at, ms, LastNamed(src, ms, key, member))
      invariant p == KeyAt(at, ms, member)
    {
      MemberNode(Some(mixer), src, entries, at, v, member);
      HeaderOf(Some(mixer), src, entries, p + 1, ms[member].value);
      var matched := MatchesHashed(src, entries, p, key, queryHash, mixer, ms[member]);
      if matched {
        r := Some(p + 1);
      }
      p := p + 1 + entries[p + 1].next;
      member := member + 1;
    }
  }

  /** The hash-gated lookup. */
  method GetHashedQuery(src: bytes, entries: seq<Entry>, at: nat, key: bytes, queryHash: nat, count: nat, mixer: Mixer, ghost v: Value)
    returns (r: Option<nat>)
    requires Node(Some(mixer), src, entries, at, v) && v.Obj? && count == |v.members| > 0 && queryHash == HashOf(mixer, key)
    ensures AllTokens(src, v.members)
    ensures r == ValueEntry(at, v.members, LastNamed(src, v.members, key, count))
  {
    TokensOf(src, v);
    HeaderOf(Some(mixer), src, entries, at, v);
    FlatObject(v.start, v.end, v.members);
    if entries[at].next == 2 * count + 1 {
      r := ScanFlatHash(src, entries, at, count, key, queryHash, mixer, v);
    } else {
      r := ScanLinkedHash(src, entries, at, key, queryHash, count, mixer, v);
    }
  }

  /** The last member named `key`: which route runs depends only on how the tape was built. */
  method Get(src: bytes, entries: seq<Entry>, at: nat, key: bytes, mixer: Mixer, ghost hashed: bool, ghost v: Value) returns (r: Option<nat>)
    requires Node(if hashed then Some(mixer) else None, src, entries, at, v)
    ensures v.Obj? ==> AllTokens(src, v.members)
    ensures r == if v.Obj? then ValueEntry(at, v.members, LastNamed(src, v.members, key, |v.members|)) else None
  {
    HeaderOf(if hashed then Some(mixer) else None, src, entries, at, v);
    if v.Obj? {
      TokensOf(src, v);
    }
    var e := entries[at];
    if e.Kind() != KIND_OBJECT || e.Count() == 0 {
      return None;
    }
    if IsEscaped(e) {
      var queryHash := HashKeyContent(mixer, key);
      r := GetHashedQuery(src, entries, at, key, queryHash, e.Count(), mixer, v);
    } else {
      r := GetPlain(src, entries, at, key, e.Count(), v);
    }
  }

  // ---- Array elements ---------------------------------------------------------------------------------------

  lemma {:induction false} ItemsAtLeastOne(items: seq<Value>)
    ensures |LayoutItems(items)| >= |items|
  {
    if items != [] {
      ItemsAtLeastOne(items[1..]);
    }
  }

  /** In an array of the minimal size every element is one entry, so positions are a fixed stride. */
  lemma {:induction false} FlatArray(items: seq<Value>, k: nat)
    requires |LayoutItems(items)| == |items| && k <= |items|
    ensures |LayoutItems(items[..k])| == k
  {
    assert items == items[..k] + items[k..];
    ItemsAppend(items[..k], items[k..]);
    ItemsAtLeastOne(items[..k]);
    ItemsAtLeastOne(items[k..]);
  }

  /** The index-th array element. */
  method ElementAt(src: bytes, entries: seq<Entry>, at: nat, index: int, ghost hash: Option<Mixer>, ghost v: Value) returns (r: Option<nat>)
    requires Node(hash, src, entries, at, v)
    ensures r == if v.Arr? && 0 <= index < |v.items| then Some(ItemAt(at, v.items, index)) else None
  {
    HeaderOf(hash, src, entries, at, v);
    var e := entries[at];
    if e.Kind() != KIND_ARRAY || index < 0 || index >= e.Count() {
      return None;
    }
    if e.next == e.Count() + 1 {
      FlatArray(v.items, index);
      return Some(at + index + 1);
    }
    var p := at + 1;
    var k := 0;
    while k < index
      invariant 0 <= k <= index && p == ItemAt(at, v.items, k)
    {
      ItemNode(hash, src, entries, at, v, k);
      HeaderOf(hash, src, entries, p, v.items[k]);
      p := p + entries[p].next;
      k := k + 1;
    }
    return Some(p);
  }
}
