/**
 The open-addressed lookup table over one object: unescaped names hash into a table at no more than
 half load, escaped names sit in a side list. A lookup returns the member a naive last-match scan
 returns, and both probing loops terminate because the table always has an empty slot.
 */
module Probe {
  import opened Json
  import opened Tape
  import opened Strings
  import opened KeyHash
  import opened Lookup
  import opened Routes

  datatype Slot = Slot(hash: nat, off: nat)

  // ---- Capacity ------------------------------------------------------------------------------------

  function Pow2(k: nat): nat {
    if k == 0 then 1 else 2 * Pow2(k - 1)
  }

  /** Number of bits of x. */
  function BitLen(x: nat): nat {
    if x == 0 then 0 else 1 + BitLen(x / 2)
  }

  function ProbeCapacity(count: nat): nat
    requires count > 0
  {
    Pow2(BitLen(2 * count - 1))
  }

  lemma {:induction false} BitLenBounds(x: nat)
    ensures x < Pow2(BitLen(x)) && (x > 0 ==> Pow2(BitLen(x)) <= 2 * x)
  {
    if x > 0 {
      BitLenBounds(x / 2);
    }
  }

  /** The table is a power of two between twice and four times the member count. */
  lemma CapacityHalfLoad(count: nat)
    requires count > 0
    ensures 2 * count <= ProbeCapacity(count) < 4 * count
    ensures exists k :: ProbeCapacity(count) == Pow2(k)
  {
    BitLenBounds(2 * count - 1);
  }

  // ---- Probe sequences -------------------------------------------------------------------------------

  /** The slot j steps from `home`, around a table of c slots. */
  function Pos(home: nat, j: nat, c: nat): (s: nat)
    requires home < c && j < c
    ensures s < c
  {
    if home + j < c then home + j else home + j - c
  }

  /** How many steps from `home` the slot s is. */
  function Steps(home: nat, s: nat, c: nat): (j: nat)
    requires home < c && s < c
    ensures j < c && Pos(home, j, c) == s
  {
    if s >= home then s - home else s + c - home
  }

  predicate Used(t: seq<Slot>, s: nat) {
    s < |t| && t[s].off != 0
  }

  function UsedCount(t: seq<Slot>): nat {
    if t == [] then 0 else (if t[0].off != 0 then 1 else 0) + UsedCount(t[1..])
  }

  lemma {:induction false} SomeFree(t: seq<Slot>) returns (s: nat)
    requires UsedCount(t) < |t|
    ensures s < |t| && !Used(t, s)
  {
    if t[0].off == 0 {
      s := 0;
    } else {
      s := SomeFree(t[1..]);
      s := s + 1;
    }
  }

  lemma {:induction false} UseOne(t: seq<Slot>, s: nat, slot: Slot)
    requires s < |t| && slot.off != 0
    ensures UsedCount(t[s := slot]) == UsedCount(t) + if Used(t, s) then 0 else 1
  {
    if s == 0 {
      assert t[0 := slot][1..] == t[1..];
    } else {
      assert t[s := slot][1..] == t[1..][s - 1 := slot];
      UseOne(t[1..], s - 1, slot);
    }
  }

  // ---- The table's meaning ---------------------------------------------------------------------------

  /** Offset of member k's name from the object's header; never zero. */
  function Off(members: seq<Member>, k: nat): (o: nat)
    requires k <= |members|
    ensures o > 0
  {
    KeyAt(0, members, k)
  }

  lemma {:induction false} OffsIncrease(members: seq<Member>, j: nat, k: nat)
    requires j < k <= |members|
    ensures Off(members, j) < Off(members, k)
  {
    MembersSplit(members, k - 1);
    if j < k - 1 {
      OffsIncrease(members, j, k - 1);
    }
  }

  /** The last unescaped one of the first n members named `key`. */
  function LastClean(src: bytes, members: seq<Member>, key: bytes, n: nat): (r: Option<nat>)
    requires n <= |members| && AllTokens(src, members)
    ensures r.Some? ==> r.value < n
  {
    if n == 0 then None
    else if !members[n - 1].key.escaped && Name(src, members[n - 1]) == key then Some(n - 1)
    else LastClean(src, members, key, n - 1)
  }

  /** Slot s holds the last of the first n members with its name; `owner` says which member that is. */
  predicate Holds(m: Mixer, src: bytes, members: seq<Member>, n: nat, t: seq<Slot>, owner: seq<nat>, place: seq<nat>, s: nat)
    requires n <= |members| && AllTokens(src, members) && |owner| == |t| && s < |t| && |place| == n
  {
    owner[s] < n && place[owner[s]] == s && !members[owner[s]].key.escaped &&
    t[s] == Slot(HashOf(m, Name(src, members[owner[s]])), Off(members, owner[s])) &&
    LastClean(src, members, Name(src, members[owner[s]]), n) == Some(owner[s])
  }

  function Home(t: seq<Slot>, hash: nat): (h: nat)
    requires |t| > 0
    ensures h < |t|
  {
    hash % |t|
  }

  /** No slot before s on its probe sequence is free. */
  predicate Chained(t: seq<Slot>, s: nat)
    requires s < |t|
  {
    forall j | 0 <= j < Steps(Home(t, t[s].hash), s, |t|) :: Used(t, Pos(Home(t, t[s].hash), j, |t|))
  }

  /** The table after its first n members: `place` is where each unescaped member's name is kept. */
  predicate TableOf(m: Mixer, src: bytes, members: seq<Member>, n: nat, t: seq<Slot>, owner: seq<nat>, place: seq<nat>) {
    n <= |members| && AllTokens(src, members) && |owner| == |t| > 0 && |place| == n && UsedCount(t) <= n &&
    (forall s | 0 <= s < |t| && Used(t, s) :: Holds(m, src, members, n, t, owner, place, s) && Chained(t, s)) &&
    (forall k | 0 <= k < n && !members[k].key.escaped ::
      Used(t, place[k]) && owner[place[k]] < n && Name(src, members[owner[place[k]]]) == Name(src, members[k]))
  }

  /** A probe for `key` that has passed j used slots without meeting it. */
  predicate Passed(src: bytes, members: seq<Member>, t: seq<Slot>, owner: seq<nat>, home: nat, j: nat, key: bytes)
    requires AllTokens(src, members) && |owner| == |t| && home < |t| && j < |t|
  {
    forall i | 0 <= i < j ::
      var s := Pos(home, i, |t|);
      Used(t, s) && (owner[s] < |members| ==> Name(src, members[owner[s]]) != key)
  }

  /** A used slot comes before any free slot of its probe sequence. */
  lemma ChainedBefore(t: seq<Slot>, s: nat, j: nat)
    requires s < |t| && j < |t| && Used(t, s) && Chained(t, s) && !Used(t, Pos(Home(t, t[s].hash), j, |t|))
    ensures Steps(Home(t, t[s].hash), s, |t|) < j
  {
    var home := Home(t, t[s].hash);
    assert Pos(home, Steps(home, s, |t|), |t|) == s;
  }

  /** A probe that reaches a free slot has missed nothing. */
  lemma Absent(m: Mixer, src: bytes, members: seq<Member>, n: nat, t: seq<Slot>, owner: seq<nat>, place: seq<nat>, j: nat, key: bytes)
    requires TableOf(m, src, members, n, t, owner, place)
    requires j < |t| && Passed(src, members, t, owner, Home(t, HashOf(m, key)), j, key)
    requires !Used(t, Pos(Home(t, HashOf(m, key)), j, |t|))
    ensures forall s | 0 <= s < |t| && Used(t, s) :: Name(src, members[owner[s]]) != key
    ensures LastClean(src, members, key, n).None?
  {
    hide Name, WellFormedMember, HashOf;
    var home := Home(t, HashOf(m, key));
    forall s | 0 <= s < |t| && Used(t, s)
      ensures Holds(m, src, members, n, t, owner, place, s) && Name(src, members[owner[s]]) != key
    {
      assert Holds(m, src, members, n, t, owner, place, s) && Chained(t, s);
      if t[s].hash == HashOf(m, key) {
        ChainedBefore(t, s, j);
        assert Pos(home, Steps(home, s, |t|), |t|) == s;
      }
    }
    NoneClean(src, members, key, n, owner, place, t);
  }

  lemma {:induction false} NoneClean(src: bytes, members: seq<Member>, key: bytes, n: nat, owner: seq<nat>, place: seq<nat>, t: seq<Slot>)
    requires n <= |members| && n <= |place| && AllTokens(src, members) && |owner| == |t|
    requires forall s | 0 <= s < |t| && Used(t, s) :: owner[s] < |members| && Name(src, members[owner[s]]) != key
    requires forall k | 0 <= k < n && !members[k].key.escaped :: Used(t, place[k]) && Name(src, members[owner[place[k]]]) == Name(src, members[k])
    ensures LastClean(src, members, key, n).None?
  {
    hide Name, WellFormedMember;
    if n > 0 {
      NoneClean(src, members, key, n - 1, owner, place, t);
    }
  }

  /** While a free slot exists, a probe that has passed only used slots has not gone all the way round. */
  lemma MoreToProbe(src: bytes, members: seq<Member>, t: seq<Slot>, owner: seq<nat>, home: nat, j: nat, key: bytes)
    requires AllTokens(src, members) && |owner| == |t| && home < |t| && j < |t| && UsedCount(t) < |t|
    requires Passed(src, members, t, owner, home, j, key) && Used(t, Pos(home, j, |t|))
    ensures j + 1 < |t|
  {
    var free := SomeFree(t);
    var d := Steps(home, free, |t|);
    assert d > j;
  }

  /** Using more slots breaks no chain. */
  lemma ChainKept(t: seq<Slot>, u: seq<Slot>, s: nat)
    requires |u| == |t| && s < |t| && Chained(t, s) && u[s].hash == t[s].hash
    requires forall r | 0 <= r < |t| && Used(t, r) :: Used(u, r)
    ensures Chained(u, s)
  {
    forall j | 0 <= j < Steps(Home(u, u[s].hash), s, |u|)
      ensures Used(u, Pos(Home(u, u[s].hash), j, |u|))
    {
      assert Used(t, Pos(Home(t, t[s].hash), j, |t|));
    }
  }

  /** Storing member n in the free slot its probe reached. */
  lemma InsertFree(m: Mixer, src: bytes, members: seq<Member>, n: nat, t: seq<Slot>, owner: seq<nat>, place: seq<nat>, j: nat)
    requires TableOf(m, src, members, n, t, owner, place) && n < |members| && !members[n].key.escaped && j < |t|
    requires var key := Name(src, members[n]);
             Passed(src, members, t, owner, Home(t, HashOf(m, key)), j, key) && !Used(t, Pos(Home(t, HashOf(m, key)), j, |t|))
    ensures var hash := HashOf(m, Name(src, members[n]));
            var s := Pos(Home(t, hash), j, |t|);
            TableOf(m, src, members, n + 1, t[s := Slot(hash, Off(members, n))], owner[s := n], place + [s])
  {
    hide Name, WellFormedMember, HashOf, Off;
    var key := Name(src, members[n]);
    var hash := HashOf(m, key);
    var home := Home(t, hash);
    var s := Pos(home, j, |t|);
    var t', owner', place' := t[s := Slot(hash, Off(members, n))], owner[s := n], place + [s];
    Absent(m, src, members, n, t, owner, place, j, key);
    UseOne(t, s, Slot(hash, Off(members, n)));
    forall r | 0 <= r < |t| && Used(t', r)
      ensures Holds(m, src, members, n + 1, t', owner', place', r) && Chained(t', r)
    {
      if r == s {
        assert Steps(home, s, |t|) == j;
        forall i | 0 <= i < j
          ensures Used(t', Pos(home, i, |t|))
        {
          assert Used(t, Pos(home, i, |t|));
        }
      } else {
        assert Used(t, r);
        assert Holds(m, src, members, n, t, owner, place, r);
        ChainKept(t, t', r);
      }
    }
  }

  /** Storing member n over an earlier member with the same name. */
  lemma InsertOver(m: Mixer, src: bytes, members: seq<Member>, n: nat, t: seq<Slot>, owner: seq<nat>, place: seq<nat>, s: nat)
    requires TableOf(m, src, members, n, t, owner, place) && n < |members| && !members[n].key.escaped
    requires Used(t, s) && owner[s] < n && Name(src, members[owner[s]]) == Name(src, members[n])
    ensures TableOf(m, src, members, n + 1, t[s := t[s].(off := Off(members, n))], owner[s := n], place + [s])
  {
    hide Name, WellFormedMember, HashOf, Off;
    var t', owner', place' := t[s := t[s].(off := Off(members, n))], owner[s := n], place + [s];
    UseOne(t, s, t[s].(off := Off(members, n)));
    assert Holds(m, src, members, n, t, owner, place, s) && Chained(t, s);
    forall r | 0 <= r < |t| && Used(t', r)
      ensures Holds(m, src, members, n + 1, t', owner', place', r) && Chained(t', r)
    {
      assert Used(t, r) && Holds(m, src, members, n, t, owner, place, r);
      ChainKept(t, t', r);
      if r != s {
        assert place[owner[r]] == r && place[owner[s]] == s;
      }
    }
  }

  /** An escaped member leaves the table alone. */
  lemma PassEscaped(m: Mixer, src: bytes, members: seq<Member>, n: nat, t: seq<Slot>, owner: seq<nat>, place: seq<nat>)
    requires TableOf(m, src, members, n, t, owner, place) && n < |members| && members[n].key.escaped
    ensures TableOf(m, src, members, n + 1, t, owner, place + [0])
  {
    hide Name, WellFormedMember, HashOf, Off;
    forall r | 0 <= r < |t| && Used(t, r)
      ensures Holds(m, src, members, n + 1, t, owner, place + [0], r) && Chained(t, r)
    {
      assert Holds(m, src, members, n, t, owner, place, r) && Chained(t, r);
    }
  }

  // ---- Building and searching -----------------------------------------------------------------------

  lemma KeyAtOff(at: nat, members: seq<Member>, k: nat)
    requires k <= |members|
    ensures KeyAt(at, members, k) == at + Off(members, k)
  {
  }

  lemma CleanName(src: bytes, m: Member)
    requires WellFormedMember(src, m) && !m.key.escaped
    ensures m.key.start + 2 <= m.key.end <= |src| && Name(src, m) == src[m.key.start + 1..m.key.end - 1]
  {
    hide WellEscaped, Decode;
  }

  /** The content bytes of an unescaped stored name are the name. */
  lemma TableSizes(m: Mixer, src: bytes, members: seq<Member>, n: nat, t: seq<Slot>, owner: seq<nat>, place: seq<nat>)
    requires TableOf(m, src, members, n, t, owner, place)
    ensures n <= |members| && AllTokens(src, members) && |owner| == |t| && |place| == n && UsedCount(t) <= n
    ensures forall s | 0 <= s < |t| && Used(t, s) :: Holds(m, src, members, n, t, owner, place, s)
  {
  }

  lemma CleanContent(hash: Option<Mixer>, src: bytes, entries: seq<Entry>, at: nat, v: Value, k: nat)
    requires Node(hash, src, entries, at, v) && v.Obj? && k < |v.members| && !v.members[k].key.escaped
    ensures var p := at + Off(v.members, k);
            p < |entries| && entries[p].start + 2 <= entries[p].end <= |src| && WellFormedMember(src, v.members[k]) &&
            Name(src, v.members[k]) == src[entries[p].start + 1..entries[p].end - 1]
  {
    hide StoredAt, Layout, WellFormed, Countable, Name, WellFormedMember, KeyAt;
    MemberNode(hash, src, entries, at, v, k);
    KeyAtOff(at, v.members, k);
    CleanName(src, v.members[k]);
  }

  lemma NodeTokens(hash: Option<Mixer>, src: bytes, entries: seq<Entry>, at: nat, v: Value)
    requires Node(hash, src, entries, at, v) && v.Obj?
    ensures AllTokens(src, v.members)
  {
    TokensOf(src, v);
  }

  /** The size stored with a member's value leads to the next member's name. */
  lemma NextOff(hash: Option<Mixer>, src: bytes, entries: seq<Entry>, at: nat, v: Value, k: nat)
    requires Node(hash, src, entries, at, v) && v.Obj? && k < |v.members|
    ensures var p := at + Off(v.members, k) + 1;
            p < |entries| && Off(v.members, k) + 1 + entries[p].next == Off(v.members, k + 1)
  {
    hide StoredAt, Layout, WellFormed, Countable, KeyAt, WellFormedMember;
    MemberNode(hash, src, entries, at, v, k);
    KeyAtOff(at, v.members, k);
    KeyAtOff(at, v.members, k + 1);
    HeaderOf(hash, src, entries, at + Off(v.members, k) + 1, v.members[k].value);
  }

  class ObjectProbe {
    const src: bytes
    const entries: seq<Entry>
    const at: nat
    const table: array<Slot>
    var escaped: seq<nat>
    ghost var owner: seq<nat>
    ghost var place: seq<nat>

    /** The side list names exactly the escaped ones of the first n members, in document order. */
    ghost predicate Lists(members: seq<Member>, n: nat)
      reads this
      requires n <= |members|
    {
      var ks := EscapedOnes(members, n);
      |escaped| == |ks| && forall i | 0 <= i < |ks| :: escaped[i] == Off(members, ks[i])
    }

    ghost predicate Built(hash: Option<Mixer>, mixer: Mixer, v: Value, n: nat)
      reads this, table
    {
      Node(hash, src, entries, at, v) && (hash.Some? ==> hash.value == mixer) && v.Obj? && n <= |v.members| && 2 * |v.members| <= table.Length &&
      TableOf(mixer, src, v.members, n, table[..], owner, place) && Lists(v.members, n)
    }

    /** An empty table. */
    constructor (src: bytes, entries: seq<Entry>, at: nat, mixer: Mixer, count: nat, ghost hash: Option<Mixer>, ghost v: Value)
      requires Node(hash, src, entries, at, v) && (hash.Some? ==> hash.value == mixer) && v.Obj? && count == |v.members| > 0
      ensures this.src == src && this.entries == entries && this.at == at
      ensures Built(hash, mixer, v, 0) && fresh(table) && table.Length == ProbeCapacity(count)
    {
      this.src, this.entries, this.at := src, entries, at;
      CapacityHalfLoad(count);
      TokensOf(src, v);
      var slots := new Slot[ProbeCapacity(count)](_ => Slot(0, 0));
      table := slots;
      escaped, place := [], [];
      owner := seq(ProbeCapacity(count), _ => 0);
      new;
      NoneUsed(table[..]);
    }

    /** Probes for the slot that keeps member n's name, or the first free one. */
    method FindSlot(hash: nat, off: nat, ghost plain: Option<Mixer>, ghost mixer: Mixer, ghost v: Value, ghost n: nat)
      returns (idx: nat, same: bool, ghost j: nat)
      requires Built(plain, mixer, v, n) && n < |v.members| && !v.members[n].key.escaped
      requires hash == HashOf(mixer, Name(src, v.members[n])) && off == Off(v.members, n)
      ensures idx < table.Length
      ensures same ==> Used(table[..], idx) && owner[idx] < n && Name(src, v.members[owner[idx]]) == Name(src, v.members[n])
      ensures !same ==> j < table.Length && idx == Pos(Home(table[..], hash), j, table.Length) && !Used(table[..], idx) &&
                        Passed(src, v.members, table[..], owner, Home(table[..], hash), j, Name(src, v.members[n]))
    {
      hide Name, WellFormedMember, HashOf, Off, Node, TableOf;
      TableSizes(mixer, src, v.members, n, table[..], owner, place);
      ghost var ms, key, t := v.members, Name(src, v.members[n]), table[..];
      idx, j := hash % table.Length, 0;
      while true
        invariant j < |t| && idx == Pos(Home(t, hash), j, |t|) && Passed(src, ms, t, owner, Home(t, hash), j, key)
        decreases |t| - j
      {
        var slot := table[idx];
        if slot.off == 0 {
          return idx, false, j;
        }
        assert Used(t, idx);
        assert Holds(mixer, src, ms, n, t, owner, place, idx);
        if slot.hash == hash {
          CleanContent(plain, src, entries, at, v, owner[idx]);
          CleanContent(plain, src, entries, at, v, n);
          var prev, cur := entries[at + slot.off], entries[at + off];
          if src[prev.start + 1..prev.end - 1] == src[cur.start + 1..cur.end - 1] {
            return idx, true, j;
          }
        }
        MoreToProbe(src, ms, t, owner, Home(t, hash), j, key);
        idx := if idx + 1 == table.Length then 0 else idx + 1;
        j := j + 1;
      }
    }

    /** Inserts unescaped member n, replacing an earlier member with identical bytes. */
    method ProbeInsert(hash: nat, off: nat, ghost plain: Option<Mixer>, ghost mixer: Mixer, ghost v: Value, ghost n: nat)
      requires Built(plain, mixer, v, n) && n < |v.members| && !v.members[n].key.escaped
      requires hash == HashOf(mixer, Name(src, v.members[n])) && off == Off(v.members, n)
      modifies this`owner, this`place, table
      ensures Built2(plain, mixer, v, n + 1) && escaped == old(escaped)
    {
      hide Name, WellFormedMember, HashOf, Off, Node, Passed, Holds, TableOf, Pos;
      ghost var ms, t := v.members, table[..];
      TableSizes(mixer, src, ms, n, t, owner, place);
      var idx, same;
      ghost var j;
      idx, same, j := FindSlot(hash, off, plain, mixer, v, n);
      var slot := if same then table[idx].(off := off) else Slot(hash, off);
      if same {
        InsertOver(mixer, src, ms, n, t, owner, place, idx);
      } else {
        InsertFree(mixer, src, ms, n, t, owner, place, j);
      }
      table[idx] := slot;
      owner, place := owner[idx := n], place + [idx];
      assert table[..] == t[idx := slot];
    }

    /** As Built, with the side list still one member behind. */
    ghost predicate Built2(hash: Option<Mixer>, mixer: Mixer, v: Value, n: nat)
      reads this, table
    {
      Node(hash, src, entries, at, v) && (hash.Some? ==> hash.value == mixer) && v.Obj? && n <= |v.members| && 2 * |v.members| <= table.Length &&
      TableOf(mixer, src, v.members, n, table[..], owner, place)
    }

    /** Takes member n, whose name is stored at offset `off`, into the table or the side list. */
    method AddMember(off: nat, hashed: bool, mixer: Mixer, ghost plain: Option<Mixer>, ghost v: Value, ghost n: nat)
      requires Built(plain, mixer, v, n) && n < |v.members| && off == Off(v.members, n) && hashed == plain.Some?
      modifies this`owner, this`place, this`escaped, table
      ensures Built(plain, mixer, v, n + 1)
    {
      hide Name, WellFormedMember, HashOf, Off, StoredAt, Layout, WellFormed, Countable, KeyAt;
      MemberNode(plain, src, entries, at, v, n);
      KeyAtOff(at, v.members, n);
      var e := entries[at + off];
      if IsEscaped(e) {
        PassEscaped(mixer, src, v.members, n, table[..], owner, place);
        escaped, place := escaped + [off], place + [0];
      } else {
        CleanContent(plain, src, entries, at, v, n);
        var hash := e.next;
        if !hashed {
          hash := HashKeyContent(mixer, src[e.start + 1..e.end - 1]);
        }
        ProbeInsert(hash, off, plain, mixer, v, n);
      }
    }

    /** Probes the table for `key`: the offset of the last unescaped member with that name, or zero. */
    method FindClean(key: bytes, hash: nat, ghost plain: Option<Mixer>, ghost mixer: Mixer, ghost v: Value) returns (best: nat)
      requires v.Obj? && Built(plain, mixer, v, |v.members|) && hash == HashOf(mixer, key)
      ensures best == OffOf(v.members, LastClean(src, v.members, key, |v.members|))
    {
      hide Name, WellFormedMember, HashOf, Off, Node;
      ghost var ms, t := v.members, table[..];
      var idx := hash % table.Length;
      ghost var j := 0;
      while true
        invariant j < |t| && idx == Pos(Home(t, hash), j, |t|) && Passed(src, ms, t, owner, Home(t, hash), j, key)
        decreases |t| - j
      {
        var slot := table[idx];
        if slot.off == 0 {
          Absent(mixer, src, ms, |ms|, t, owner, place, j, key);
          return 0;
        }
        assert Used(t, idx) && Holds(mixer, src, ms, |ms|, t, owner, place, idx);
        if slot.hash == hash {
          CleanContent(plain, src, entries, at, v, owner[idx]);
          var e := entries[at + slot.off];
          if src[e.start + 1..e.end - 1] == key {
            return slot.off;
          }
        }
        MoreToProbe(src, ms, t, owner, Home(t, hash), j, key);
        idx := if idx + 1 == table.Length then 0 else idx + 1;
        j := j + 1;
      }
    }

    /** Compares the name stored at offset `off`. */
    method NameAtEquals(off: nat, key: bytes, ghost plain: Option<Mixer>, ghost v: Value, ghost k: nat) returns (equal: bool)
      requires Node(plain, src, entries, at, v) && v.Obj? && AllTokens(src, v.members) && k < |v.members| && off == Off(v.members, k)
      ensures equal == (Name(src, v.members[k]) == key)
    {
      hide HashOf, Off, StoredAt, Layout, WellFormed, Countable, KeyAt;
      MemberNode(plain, src, entries, at, v, k);
      KeyAtOff(at, v.members, k);
      var e := entries[at + off];
      equal := TapeKeyEqual(src, e.start, e.end, IsEscaped(e), key);
    }

    /** The last member named `key`, as a naive scan would find it. */
    method Get(key: bytes, mixer: Mixer, ghost plain: Option<Mixer>, ghost v: Value) returns (r: Option<nat>)
      requires v.Obj? && Built(plain, mixer, v, |v.members|)
      ensures r == ValueEntry(at, v.members, LastNamed(src, v.members, key, |v.members|))
    {
      hide Name, WellFormedMember, HashOf, Off, StoredAt, Layout, WellFormed, Countable, KeyAt, TableOf, Node, LastClean, LastIn, EscapedOnes, LastNamed;
      NodeTokens(plain, src, entries, at, v);
      ghost var ms := v.members;
      ghost var ks := EscapedOnes(ms, |ms|);
      var hash := HashKeyContent(mixer, key);
      var best := FindClean(key, hash, plain, mixer, v);
      ghost var found := LastClean(src, ms, key, |ms|);
      NothingYet(src, ms, key, ks, found);
      var i := 0;
      while i < |escaped|
        invariant 0 <= i <= |escaped| == |ks|
        invariant found == Later(LastClean(src, ms, key, |ms|), LastIn(src, ms, key, ks[..i])) && (found.Some? ==> found.value < |ms|)
        invariant best == OffOf(ms, found)
      {
        var off, k := escaped[i], ks[i];
        KeepLatest(src, ms, key, i, found);
        if off > best {
          var equal := NameAtEquals(off, key, plain, v, k);
          if equal {
            best := off;
            found := Some(k);
          }
        }
        i := i + 1;
      }
      LastOfBoth(src, ms, key, |ms|);
      assert ks[..|ks|] == ks;
      if found.Some? {
        KeyAtOff(at, ms, found.value);
      }
      return if best == 0 then None else Some(at + best + 1);
    }
  }

  /** Builds the table of a non-empty object. */
  method BuildObjectProbe(src: bytes, entries: seq<Entry>, at: nat, mixer: Mixer, ghost hash: Option<Mixer>, ghost v: Value) returns (p: ObjectProbe)
    requires Node(hash, src, entries, at, v) && (hash.Some? ==> hash.value == mixer) && v.Obj? && |v.members| > 0
    ensures p.src == src && p.entries == entries && p.at == at && p.Built(hash, mixer, v, |v.members|)
  {
    hide Name, WellFormedMember, HashOf, Off, StoredAt, Layout, WellFormed, Countable, KeyAt, TableOf, Node, AllTokens, ObjectProbe.Built;
    HeaderOf(hash, src, entries, at, v);
    var count := entries[at].Count();
    var hashed := IsEscaped(entries[at]);
    p := new ObjectProbe(src, entries, at, mixer, count, hash, v);
    FirstKey(at, v.members);
    KeyAtOff(at, v.members, 0);
    var off, member := 1, 0;
    while member < count
      invariant member <= count && off == Off(v.members, member)
      invariant p.src == src && p.entries == entries && p.at == at && p.Built(hash, mixer, v, member) && fresh(p) && fresh(p.table)
    {
      p.AddMember(off, hashed, mixer, hash, v, member);
      NextOff(hash, src, entries, at, v, member);
      off := off + 1 + entries[at + off + 1].next;
      member := member + 1;
    }
  }

  /** The escaped ones of the first n members, in order. */
  function EscapedOnes(members: seq<Member>, n: nat): (ks: seq<nat>)
    requires n <= |members|
    ensures forall i | 0 <= i < |ks| :: ks[i] < n
  {
    if n == 0 then []
    else EscapedOnes(members, n - 1) + if members[n - 1].key.escaped then [n - 1] else []
  }

  /** The last of the listed members named `key`. */
  function LastIn(src: bytes, members: seq<Member>, key: bytes, ks: seq<nat>): (r: Option<nat>)
    requires AllTokens(src, members) && forall i | 0 <= i < |ks| :: ks[i] < |members|
    ensures r.Some? ==> r.value < |members|
  {
    if ks == [] then None
    else if Name(src, members[ks[|ks| - 1]]) == key then Some(ks[|ks| - 1])
    else LastIn(src, members, key, ks[..|ks| - 1])
  }

  /** The side list is in document order. */
  lemma {:induction false} EscapedIncrease(members: seq<Member>, n: nat, i: nat, j: nat)
    requires n <= |members| && i < j < |EscapedOnes(members, n)|
    ensures EscapedOnes(members, n)[i] < EscapedOnes(members, n)[j]
  {
    if j < |EscapedOnes(members, n - 1)| {
      EscapedIncrease(members, n - 1, i, j);
    }
  }

  lemma {:induction false} LastInListed(src: bytes, members: seq<Member>, key: bytes, ks: seq<nat>)
    requires AllTokens(src, members) && forall i | 0 <= i < |ks| :: ks[i] < |members|
    ensures var r := LastIn(src, members, key, ks); r.Some? ==> exists i :: 0 <= i < |ks| && ks[i] == r.value
  {
    hide Name, WellFormedMember;
    if ks != [] && LastIn(src, members, key, ks).Some? {
      if Name(src, members[ks[|ks| - 1]]) != key {
        LastInListed(src, members, key, ks[..|ks| - 1]);
        var i :| 0 <= i < |ks| - 1 && ks[..|ks| - 1][i] == LastIn(src, members, key, ks).value;
        assert ks[i] == LastIn(src, members, key, ks).value;
      }
    }
  }

  /** A match among the escaped members before the i-th comes before the i-th. */
  lemma LastInBelow(src: bytes, members: seq<Member>, key: bytes, n: nat, i: nat)
    requires n <= |members| && AllTokens(src, members) && i < |EscapedOnes(members, n)|
    ensures var ks := EscapedOnes(members, n);
            var r := LastIn(src, members, key, ks[..i]);
            r.Some? ==> r.value < ks[i]
  {
    hide Name, WellFormedMember;
    var ks := EscapedOnes(members, n);
    var r := LastIn(src, members, key, ks[..i]);
    if r.Some? {
      LastInListed(src, members, key, ks[..i]);
      var j :| 0 <= j < i && ks[..i][j] == r.value;
      EscapedIncrease(members, n, j, i);
    }
  }

  /** One more escaped member considered, as the lookup does by comparing offsets. */
  lemma KeepLatest(src: bytes, members: seq<Member>, key: bytes, i: nat, found: Option<nat>)
    requires AllTokens(src, members)
    requires var ks := EscapedOnes(members, |members|);
             i < |ks| && found == Later(LastClean(src, members, key, |members|), LastIn(src, members, key, ks[..i]))
    ensures var ks := EscapedOnes(members, |members|);
            var later := Later(LastClean(src, members, key, |members|), LastIn(src, members, key, ks[..i + 1]));
            later == if Off(members, ks[i]) > OffOf(members, found) && Name(src, members[ks[i]]) == key then Some(ks[i]) else found
  {
    hide Name, WellFormedMember, Off;
    var ks := EscapedOnes(members, |members|);
    assert ks[..i + 1][..i] == ks[..i];
    LastInBelow(src, members, key, |members|, i);
    if found.Some? {
      OffOrder(members, found.value, ks[i]);
    }
  }

  lemma NothingYet(src: bytes, members: seq<Member>, key: bytes, ks: seq<nat>, found: Option<nat>)
    requires AllTokens(src, members)
    ensures LastIn(src, members, key, ks[..0]).None? && found == Later(found, LastIn(src, members, key, ks[..0]))
  {
  }

  function Later(a: Option<nat>, b: Option<nat>): Option<nat> {
    if a.None? then b else if b.None? then a else if a.value < b.value then b else a
  }

  /** The offset of the member found, or zero. */
  function OffOf(members: seq<Member>, r: Option<nat>): nat
    requires r.Some? ==> r.value < |members|
  {
    if r.None? then 0 else Off(members, r.value)
  }

  lemma LastOfMore(src: bytes, members: seq<Member>, key: bytes, ks: seq<nat>, k: nat)
    requires AllTokens(src, members) && k < |members| && forall i | 0 <= i < |ks| :: ks[i] < |members|
    ensures LastIn(src, members, key, ks + [k]) == if Name(src, members[k]) == key then Some(k) else LastIn(src, members, key, ks)
  {
    hide Name, WellFormedMember;
    assert (ks + [k])[..|ks|] == ks;
  }

  /** Searching the unescaped and the escaped members apart and keeping the later match is one last-match scan. */
  lemma {:induction false} LastOfBoth(src: bytes, members: seq<Member>, key: bytes, n: nat)
    requires n <= |members| && AllTokens(src, members)
    ensures LastNamed(src, members, key, n) == Later(LastClean(src, members, key, n), LastIn(src, members, key, EscapedOnes(members, n)))
    ensures var r := LastIn(src, members, key, EscapedOnes(members, n)); r.Some? ==> r.value < n
  {
    hide Name, WellFormedMember;
    if n > 0 {
      LastOfBoth(src, members, key, n - 1);
      var ks := EscapedOnes(members, n - 1);
      if members[n - 1].key.escaped {
        LastOfMore(src, members, key, ks, n - 1);
      } else {
        assert EscapedOnes(members, n) == ks;
      }
    }
  }

  lemma OffOrder(members: seq<Member>, j: nat, k: nat)
    requires j < |members| && k < |members|
    ensures j < k <==> Off(members, j) < Off(members, k)
  {
    if j < k {
      OffsIncrease(members, j, k);
    } else if k < j {
      OffsIncrease(members, k, j);
    }
  }

  lemma {:induction false} NoneUsed(t: seq<Slot>)
    requires forall s | 0 <= s < |t| :: t[s].off == 0
    ensures UsedCount(t) == 0
  {
    if t != [] {
      NoneUsed(t[1..]);
    }
  }
}
