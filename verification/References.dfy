/**
 Tracked references and their nested scopes as values: aliasing, keys, parent chains, what clearing removes,
 and what any sequence of tracker operations comes to or which of them it refuses.
 */
module References {
  import Json

  datatype Kind = NoKind | SliceRef | MapRef | PointerRef

  datatype Reference = Reference(kind: Kind, scope: nat, owner: nat, ptr: nat, span: nat)

  datatype Scope = Scope(owner: nat, parent: nat)

  const NO_REFERENCE := Reference(NoKind, 0, 0, 0, 0)
  const NO_SCOPE := Scope(0, 0)
  const SLOTS: nat := 16
  const TWO_TO_THE_64 := Json.TWO_TO_THE_64

  // ---- Aliasing ------------------------------------------------------------------------------------------

  /** The end of a range, saturating at the top of the address space. */
  function RangeEnd(start: nat, span: nat): nat {
    if start + span >= TWO_TO_THE_64 then TWO_TO_THE_64 - 1 else start + span
  }

  predicate RangesAlias(a: nat, aSpan: nat, b: nat, bSpan: nat) {
    aSpan != 0 && bSpan != 0 && a < RangeEnd(b, bSpan) && b < RangeEnd(a, aSpan)
  }

  predicate Within(x: nat, start: nat, span: nat) {
    start <= x < start + span
  }

  /** For storage that does not wrap around, ranges alias exactly when they share a byte. */
  lemma SharedByte(a: nat, aSpan: nat, b: nat, bSpan: nat)
    requires a + aSpan < TWO_TO_THE_64 && b + bSpan < TWO_TO_THE_64
    ensures RangesAlias(a, aSpan, b, bSpan) <==> exists x :: Within(x, a, aSpan) && Within(x, b, bSpan)
  {
    if RangesAlias(a, aSpan, b, bSpan) {
      var x := if a < b then b else a;
      assert Within(x, a, aSpan) && Within(x, b, bSpan);
    }
  }

  predicate ReferencesAlias(p: Reference, r: Reference) {
    if p.kind.MapRef? || r.kind.MapRef? then p.kind.MapRef? && r.kind.MapRef? && p.ptr == r.ptr
    else if p.span == 0 || r.span == 0 then p.kind.PointerRef? && r.kind.PointerRef? && p.ptr == r.ptr
    else RangesAlias(p.ptr, p.span, r.ptr, r.span)
  }

  lemma AliasSymmetric(p: Reference, r: Reference)
    ensures ReferencesAlias(p, r) == ReferencesAlias(r, p)
  {
  }

  /** The storage lies below the top of the address space. */
  predicate Fits(r: Reference) {
    r.ptr + r.span < TWO_TO_THE_64
  }

  /**
   Two references are to the same storage: maps when they are the same map, storage of no bytes when two pointers are
   equal, and anything else when a byte belongs to both.
   */
  ghost predicate SameStorage(p: Reference, r: Reference) {
    if p.kind.MapRef? || r.kind.MapRef? then p.kind.MapRef? && r.kind.MapRef? && p.ptr == r.ptr
    else if p.span == 0 || r.span == 0 then p.kind.PointerRef? && r.kind.PointerRef? && p.ptr == r.ptr
    else exists x | r.ptr <= x < r.ptr + r.span :: Within(x, p.ptr, p.span)
  }

  lemma AliasIsSameStorage(p: Reference, r: Reference)
    requires Fits(p) && Fits(r)
    ensures ReferencesAlias(p, r) <==> SameStorage(p, r)
  {
    if p.span != 0 && r.span != 0 {
      SharedByte(p.ptr, p.span, r.ptr, r.span);
      if x :| r.ptr <= x < r.ptr + r.span && Within(x, p.ptr, p.span) {
        assert Within(x, r.ptr, r.span);
      }
    }
  }

  /** The destination test by distances that wrap around 64 bits. */
  predicate DestinationAlias(dest: nat, destSpan: nat, ptr: nat, span: nat) {
    dest != 0 && ((ptr - dest) % TWO_TO_THE_64 < destSpan || (dest - ptr) % TWO_TO_THE_64 < span)
  }

  /** For storage that does not wrap around, the distances test whether one range starts inside the other: whether they share a byte. */
  lemma DestinationShared(dest: nat, destSpan: nat, ptr: nat, span: nat)
    requires dest != 0 && dest + destSpan < TWO_TO_THE_64 && ptr + span < TWO_TO_THE_64
    ensures DestinationAlias(dest, destSpan, ptr, span) <==> Within(ptr, dest, destSpan) || Within(dest, ptr, span)
    ensures destSpan > 0 && span > 0 ==> (DestinationAlias(dest, destSpan, ptr, span) <==> RangesAlias(dest, destSpan, ptr, span))
  {
    var forward, backward := (ptr - dest) % TWO_TO_THE_64, (dest - ptr) % TWO_TO_THE_64;
    if ptr >= dest {
      assert forward == ptr - dest;
      assert ptr > dest ==> backward == TWO_TO_THE_64 - (ptr - dest);
    } else {
      assert backward == dest - ptr;
      assert forward == TWO_TO_THE_64 - (dest - ptr);
    }
  }

  /** One of the two starts inside the other. */
  predicate StartsInside(dest: nat, destSpan: nat, r: Reference) {
    dest != 0 && (dest <= r.ptr < dest + destSpan || r.ptr <= dest < r.ptr + r.span)
  }

  lemma DestinationIsShared(dest: nat, destSpan: nat, r: Reference)
    requires dest + destSpan < TWO_TO_THE_64 && Fits(r)
    ensures DestinationAlias(dest, destSpan, r.ptr, r.span) <==> StartsInside(dest, destSpan, r)
  {
    if dest != 0 {
      DestinationShared(dest, destSpan, r.ptr, r.span);
    }
  }

  // ---- References as a keyed list ----------------------------------------------------------------------------

  predicate SameKey(p: Reference, r: Reference) {
    p.kind == r.kind && p.scope == r.scope && p.owner == r.owner
  }

  ghost predicate UniqueKeys(refs: seq<Reference>) {
    forall i, j | 0 <= i < j < |refs| :: !SameKey(refs[i], refs[j])
  }

  /** No two tracked references to live storage share it. */
  ghost predicate NoAliases(refs: seq<Reference>) {
    forall i, j | 0 <= i < j < |refs| && refs[i].ptr != 0 && refs[j].ptr != 0 :: !ReferencesAlias(refs[i], refs[j])
  }

  /** Some tracked reference of another key shares r's storage. */
  predicate Taken(refs: seq<Reference>, r: Reference) {
    exists i :: 0 <= i < |refs| && !SameKey(refs[i], r) && ReferencesAlias(refs[i], r)
  }

  /** Another reference, of another kind, scope or owner, is to the storage of r. */
  ghost predicate OwnedElsewhere(refs: seq<Reference>, r: Reference) {
    exists p | p in refs :: (p.kind, p.scope, p.owner) != (r.kind, r.scope, r.owner) && SameStorage(p, r)
  }

  ghost predicate AllFit(refs: seq<Reference>) {
    forall p | p in refs :: Fits(p)
  }

  lemma TakenIsOwned(refs: seq<Reference>, r: Reference)
    requires AllFit(refs) && Fits(r)
    ensures Taken(refs, r) <==> OwnedElsewhere(refs, r)
  {
    forall p | p in refs
      ensures ReferencesAlias(p, r) <==> SameStorage(p, r)
    {
      AliasIsSameStorage(p, r);
    }
    hide ReferencesAlias, SameStorage;
    if Taken(refs, r) {
      var i :| 0 <= i < |refs| && !SameKey(refs[i], r) && ReferencesAlias(refs[i], r);
      assert refs[i] in refs;
    }
    if OwnedElsewhere(refs, r) {
      var p :| p in refs && (p.kind, p.scope, p.owner) != (r.kind, r.scope, r.owner) && SameStorage(p, r);
      var i :| 0 <= i < |refs| && refs[i] == p;
      assert !SameKey(refs[i], r) && ReferencesAlias(refs[i], r);
    }
  }

  lemma SeenMeans(refs: seq<Reference>, r: Reference)
    ensures AllFit(refs) && Fits(r) ==> (Taken(refs, r) <==> OwnedElsewhere(refs, r))
  {
    if AllFit(refs) && Fits(r) {
      TakenIsOwned(refs, r);
    }
  }

  /** Of live storage below the top of the address space, no byte and no map is tracked twice, and no kind, scope and owner is. */
  ghost predicate OneOwner(refs: seq<Reference>) {
    forall i, j | 0 <= i < j < |refs| ::
      (refs[i].kind, refs[i].scope, refs[i].owner) != (refs[j].kind, refs[j].scope, refs[j].owner) &&
      (refs[i].ptr != 0 && refs[j].ptr != 0 && Fits(refs[i]) && Fits(refs[j]) ==> !SameStorage(refs[i], refs[j]))
  }

  lemma UnsharedBytes(refs: seq<Reference>)
    requires UniqueKeys(refs) && NoAliases(refs)
    ensures OneOwner(refs)
  {
    forall i, j | 0 <= i < j < |refs|
      ensures (refs[i].kind, refs[i].scope, refs[i].owner) != (refs[j].kind, refs[j].scope, refs[j].owner)
      ensures refs[i].ptr != 0 && refs[j].ptr != 0 && Fits(refs[i]) && Fits(refs[j]) ==> !SameStorage(refs[i], refs[j])
    {
      hide ReferencesAlias, SameStorage;
      assert !SameKey(refs[i], refs[j]);
      if Fits(refs[i]) && Fits(refs[j]) {
        AliasIsSameStorage(refs[i], refs[j]);
      }
    }
  }

  /** r in place of the reference with its key, or at the end. */
  function Upsert(refs: seq<Reference>, r: Reference): seq<Reference> {
    if refs == [] then [r] else if SameKey(refs[0], r) then [r] + refs[1..] else [refs[0]] + Upsert(refs[1..], r)
  }

  /** r in place of the reference with its key, if there is one. */
  function Update(refs: seq<Reference>, r: Reference): seq<Reference> {
    if refs == [] then [] else if SameKey(refs[0], r) then [r] + refs[1..] else [refs[0]] + Update(refs[1..], r)
  }

  lemma {:induction false} UpsertAt(refs: seq<Reference>, r: Reference, k: nat)
    requires k <= |refs| && (forall i | 0 <= i < k :: !SameKey(refs[i], r)) && (k < |refs| ==> SameKey(refs[k], r))
    ensures Upsert(refs, r) == if k < |refs| then refs[k := r] else refs + [r]
    ensures Update(refs, r) == if k < |refs| then refs[k := r] else refs
  {
    if k > 0 {
      UpsertAt(refs[1..], r, k - 1);
      assert k < |refs| ==> refs[k := r] == [refs[0]] + refs[1..][k - 1 := r];
      assert refs == [refs[0]] + refs[1..];
    }
  }

  lemma KeyPosition(refs: seq<Reference>, r: Reference) returns (k: nat)
    ensures k <= |refs| && (forall i | 0 <= i < k :: !SameKey(refs[i], r)) && (k < |refs| ==> SameKey(refs[k], r))
  {
    k := 0;
    while k < |refs| && !SameKey(refs[k], r)
      invariant k <= |refs| && forall i | 0 <= i < k :: !SameKey(refs[i], r)
    {
      k := k + 1;
    }
  }

  /** Admitting a reference that is not taken keeps keys unique and storage unshared. */
  lemma UpsertKeeps(refs: seq<Reference>, r: Reference)
    requires UniqueKeys(refs)
    ensures UniqueKeys(Upsert(refs, r)) && UniqueKeys(Update(refs, r))
    ensures NoAliases(refs) && (r.ptr == 0 || !Taken(refs, r)) ==> NoAliases(Upsert(refs, r)) && NoAliases(Update(refs, r))
  {
    hide ReferencesAlias, UniqueKeys, NoAliases, Taken, Upsert, Update;
    var k := KeyPosition(refs, r);
    UpsertAt(refs, r, k);
    PutKeepsKeys(refs, r, k);
    if NoAliases(refs) && (r.ptr == 0 || !Taken(refs, r)) {
      PutKeepsStorage(refs, r, k);
    }
  }

  lemma PutKeepsKeys(refs: seq<Reference>, r: Reference, k: nat)
    requires UniqueKeys(refs) && k <= |refs| && (forall i | 0 <= i < k :: !SameKey(refs[i], r)) && (k < |refs| ==> SameKey(refs[k], r))
    ensures if k < |refs| then UniqueKeys(refs[k := r]) else UniqueKeys(refs + [r])
  {
  }

  lemma PutKeepsStorage(refs: seq<Reference>, r: Reference, k: nat)
    requires UniqueKeys(refs) && NoAliases(refs) && (r.ptr == 0 || !Taken(refs, r))
    requires k <= |refs| && (forall i | 0 <= i < k :: !SameKey(refs[i], r)) && (k < |refs| ==> SameKey(refs[k], r))
    ensures if k < |refs| then NoAliases(refs[k := r]) else NoAliases(refs + [r])
  {
    hide ReferencesAlias;
    forall i | 0 <= i < |refs| && i != k
      ensures r.ptr != 0 ==> !ReferencesAlias(refs[i], r) && !ReferencesAlias(r, refs[i])
    {
      AliasSymmetric(refs[i], r);
      assert !SameKey(refs[i], r);
    }
  }

  // ---- Scopes and their parent chains -------------------------------------------------------------------------

  /** Parents have smaller ranks, so parent chains end. */
  ghost predicate Ranked(s: seq<Scope>, rank: seq<nat>) {
    |rank| == |s| && forall i | 0 <= i < |s| :: s[i].parent <= |s| && (s[i].parent != 0 ==> rank[s[i].parent - 1] < rank[i])
  }

  function RankOf(rank: seq<nat>, id: nat): nat
    requires id <= |rank|
  {
    if id == 0 then 0 else rank[id - 1] + 1
  }

  /** A scope and its ancestors, innermost first. */
  ghost function Chain(s: seq<Scope>, rank: seq<nat>, id: nat): (c: seq<nat>)
    requires Ranked(s, rank) && id <= |s|
    ensures id != 0 ==> c != [] && c[0] == id
    ensures id == 0 ==> c == []
    ensures forall x | x in c :: 0 < x <= |s| && RankOf(rank, x) <= RankOf(rank, id)
    decreases RankOf(rank, id)
  {
    if id == 0 then [] else [id] + Chain(s, rank, s[id - 1].parent)
  }

  predicate LiveScope(s: seq<Scope>, id: nat) {
    0 < id <= |s| && s[id - 1].owner != 0
  }

  /** An ancestor's chain is part of its descendant's. */
  lemma {:induction false} ChainOfMember(s: seq<Scope>, rank: seq<nat>, id: nat, x: nat, y: nat)
    requires Ranked(s, rank) && id <= |s| && x in Chain(s, rank, id) && y in Chain(s, rank, x)
    ensures y in Chain(s, rank, id)
    decreases RankOf(rank, id)
  {
    if x != id {
      ChainOfMember(s, rank, s[id - 1].parent, x, y);
    }
  }

  /** t is s with some slots cleared. */
  ghost predicate Cut(s: seq<Scope>, t: seq<Scope>) {
    |s| == |t| && forall i | 0 <= i < |s| :: t[i] == s[i] || t[i] == NO_SCOPE
  }

  /** Clearing slots only shortens chains. */
  lemma {:induction false} CutChain(s: seq<Scope>, t: seq<Scope>, rank: seq<nat>, id: nat)
    requires Ranked(s, rank) && Cut(s, t) && id <= |s|
    ensures Ranked(t, rank) && forall x | x in Chain(t, rank, id) :: x in Chain(s, rank, id)
    decreases RankOf(rank, id)
  {
    if id != 0 {
      CutChain(s, t, rank, s[id - 1].parent);
    }
  }

  /** Chains that lose no slot stay as they were. */
  lemma {:induction false} UncutChain(s: seq<Scope>, t: seq<Scope>, rank: seq<nat>, id: nat)
    requires Ranked(s, rank) && Cut(s, t) && id <= |s| && Ranked(t, rank)
    requires forall x | x in Chain(s, rank, id) :: t[x - 1] == s[x - 1]
    ensures Chain(t, rank, id) == Chain(s, rank, id)
    decreases RankOf(rank, id)
  {
    if id != 0 {
      assert Chain(s, rank, id) == [id] + Chain(s, rank, s[id - 1].parent);
      assert id in Chain(s, rank, id);
      UncutChain(s, t, rank, s[id - 1].parent);
    }
  }

  /** A scope strictly below the target is not on a chain that has the target at most as its head. */
  lemma AncestorKept(s: seq<Scope>, rank: seq<nat>, current: nat, x: nat, target: nat)
    requires Ranked(s, rank) && current <= |s| && x in Chain(s, rank, current) && (target in Chain(s, rank, current) ==> target == current)
    ensures x == target || target !in Chain(s, rank, x)
  {
    if target in Chain(s, rank, x) {
      ChainOfMember(s, rank, current, x, target);
    }
  }

  /** t is s with some slots strictly below the target cleared. */
  ghost predicate CutBelow(s: seq<Scope>, t: seq<Scope>, rank: seq<nat>, target: nat)
    requires Ranked(s, rank)
  {
    |s| == |t| && forall i | 0 <= i < |s| :: t[i] == s[i] || (t[i] == NO_SCOPE && i + 1 != target && target in Chain(s, rank, i + 1))
  }

  lemma TargetUncut(s: seq<Scope>, t: seq<Scope>, rank: seq<nat>, target: nat)
    requires Ranked(s, rank) && CutBelow(s, t, rank, target) && 0 < target <= |s|
    ensures t[target - 1] == s[target - 1]
  {
  }

  /** An open chain is not cut, and neither is the target. */
  lemma OpenUncut(s: seq<Scope>, t: seq<Scope>, rank: seq<nat>, target: nat, current: nat)
    requires Ranked(s, rank) && Ranked(t, rank) && CutBelow(s, t, rank, target) && current <= |s|
    requires target in Chain(s, rank, current) ==> target == current
    ensures Chain(t, rank, current) == Chain(s, rank, current) && forall x | x in Chain(s, rank, current) :: t[x - 1] == s[x - 1]
  {
    forall x | x in Chain(s, rank, current)
      ensures t[x - 1] == s[x - 1]
    {
      AncestorKept(s, rank, current, x, target);
    }
    UncutChain(s, t, rank, current);
  }

  /** Scopes of references outside the target are not cut. */
  lemma OutsideUncut(refs: seq<Reference>, s: seq<Scope>, t: seq<Scope>, rank: seq<nat>, target: nat)
    requires Ranked(s, rank) && CutBelow(s, t, rank, target)
    requires forall i | 0 <= i < |refs| :: refs[i].scope == 0 || LiveScope(s, refs[i].scope)
    requires forall i | 0 <= i < |refs| :: refs[i].scope <= |s|
    ensures forall i | 0 <= i < |Outside(refs, s, rank, target)| ::
              var r := Outside(refs, s, rank, target)[i];
              r.scope == 0 || LiveScope(t, r.scope)
  {
    OutsideKeeps(refs, s, rank, target);
    forall i | 0 <= i < |Outside(refs, s, rank, target)|
      ensures Outside(refs, s, rank, target)[i].scope == 0 || LiveScope(t, Outside(refs, s, rank, target)[i].scope)
    {
      var r := Outside(refs, s, rank, target)[i];
      assert r in refs && target !in Chain(s, rank, r.scope);
      if r.scope != 0 {
        assert t[r.scope - 1] == s[r.scope - 1];
      }
    }
  }

  /** The references whose scope is neither the target nor below it. */
  ghost function Outside(refs: seq<Reference>, s: seq<Scope>, rank: seq<nat>, target: nat): seq<Reference>
    requires Ranked(s, rank) && forall i | 0 <= i < |refs| :: refs[i].scope <= |s|
  {
    if refs == [] then []
    else
      var last := refs[|refs| - 1];
      Outside(refs[..|refs| - 1], s, rank, target) + if target in Chain(s, rank, last.scope) then [] else [last]
  }

  lemma NoneOutside(s: seq<Scope>, rank: seq<nat>, target: nat)
    requires Ranked(s, rank)
    ensures Outside([], s, rank, target) == []
  {
  }

  lemma OutsideMore(refs: seq<Reference>, s: seq<Scope>, rank: seq<nat>, target: nat, k: nat)
    requires Ranked(s, rank) && k < |refs| && forall i | 0 <= i < |refs| :: refs[i].scope <= |s|
    ensures Outside(refs[..k + 1], s, rank, target) ==
            Outside(refs[..k], s, rank, target) + if target in Chain(s, rank, refs[k].scope) then [] else [refs[k]]
  {
    assert refs[..k + 1][..k] == refs[..k];
  }

  /** What stays is outside, was there before, and keeps its keys unique and its storage unshared. */
  lemma {:induction false} OutsideKeeps(refs: seq<Reference>, s: seq<Scope>, rank: seq<nat>, target: nat)
    requires Ranked(s, rank) && forall i | 0 <= i < |refs| :: refs[i].scope <= |s|
    ensures forall r | r in Outside(refs, s, rank, target) :: r in refs && target !in Chain(s, rank, r.scope)
    ensures UniqueKeys(refs) ==> UniqueKeys(Outside(refs, s, rank, target))
    ensures NoAliases(refs) ==> NoAliases(Outside(refs, s, rank, target))
  {
    if refs == [] {
      NoneOutside(s, rank, target);
    } else {
      hide Chain, UniqueKeys, NoAliases;
      var front := refs[..|refs| - 1];
      FrontKeeps(refs);
      OutsideKeeps(front, s, rank, target);
      OneMoreKept(refs, Outside(front, s, rank, target));
    }
  }

  lemma FrontKeeps(refs: seq<Reference>)
    requires refs != []
    ensures UniqueKeys(refs) ==> UniqueKeys(refs[..|refs| - 1])
    ensures NoAliases(refs) ==> NoAliases(refs[..|refs| - 1])
  {
  }

  /** Appending the last reference to a kept part of the others keeps keys unique and storage disjoint. */
  lemma OneMoreKept(refs: seq<Reference>, kept: seq<Reference>)
    requires refs != [] && forall r | r in kept :: r in refs[..|refs| - 1]
    ensures UniqueKeys(refs) && UniqueKeys(kept) ==> UniqueKeys(kept + [refs[|refs| - 1]])
    ensures NoAliases(refs) && NoAliases(kept) ==> NoAliases(kept + [refs[|refs| - 1]])
  {
    hide ReferencesAlias;
    var last := refs[|refs| - 1];
    forall k | 0 <= k < |kept|
      ensures UniqueKeys(refs) ==> !SameKey(kept[k], last)
      ensures NoAliases(refs) && kept[k].ptr != 0 && last.ptr != 0 ==> !ReferencesAlias(kept[k], last)
    {
      assert kept[k] in kept;
      var i :| 0 <= i < |refs| - 1 && refs[i] == kept[k];
    }
  }

  // ---- Which slots clearing frees --------------------------------------------------------------------------------

  /** The slots that id's chain passes before the target, innermost first. */
  ghost function Path(s: seq<Scope>, rank: seq<nat>, target: nat, id: nat): (p: seq<nat>)
    requires Ranked(s, rank) && id <= |s|
    ensures forall x | x in p :: 0 < x <= |s| && x != target
    decreases RankOf(rank, id)
  {
    if id == 0 || id == target then [] else [id] + Path(s, rank, target, s[id - 1].parent)
  }

  /** The slot lies strictly below the target and its chain passes no later slot before the target. */
  ghost predicate Freed(s: seq<Scope>, rank: seq<nat>, target: nat, id: nat)
    requires Ranked(s, rank) && id <= |s|
  {
    id != target && target in Chain(s, rank, id) && forall x | x in Path(s, rank, target, id) :: x <= id
  }

  /** The scopes with the freed slots from k on blank. */
  ghost function FreedFrom(s: seq<Scope>, rank: seq<nat>, target: nat, k: nat): (t: seq<Scope>)
    requires Ranked(s, rank)
    ensures |t| == |s| && forall i | 0 <= i < |s| :: t[i] == if i >= k && Freed(s, rank, target, i + 1) then NO_SCOPE else s[i]
  {
    seq(|s|, i requires 0 <= i < |s| => if i >= k && Freed(s, rank, target, i + 1) then NO_SCOPE else s[i])
  }

  lemma FreedBelow(s: seq<Scope>, rank: seq<nat>, target: nat, k: nat)
    requires Ranked(s, rank)
    ensures var t := FreedFrom(s, rank, target, k); CutBelow(s, t, rank, target) && Cut(s, t) && Ranked(t, rank)
  {
    hide Chain, Path;
  }

  lemma PathStep(s: seq<Scope>, rank: seq<nat>, target: nat, id: nat)
    requires Ranked(s, rank) && 0 < id <= |s| && id != target
    ensures Path(s, rank, target, id) == [id] + Path(s, rank, target, s[id - 1].parent)
  {
  }

  lemma PathMembers(s: seq<Scope>, rank: seq<nat>, target: nat, id: nat)
    requires Ranked(s, rank) && 0 < id <= |s| && id != target
    ensures id in Path(s, rank, target, id)
    ensures forall x | x in Path(s, rank, target, s[id - 1].parent) :: x in Path(s, rank, target, id)
    ensures forall x | x in Path(s, rank, target, id) :: x == id || x in Path(s, rank, target, s[id - 1].parent)
  {
    PathStep(s, rank, target, id);
  }

  lemma NoPath(s: seq<Scope>, rank: seq<nat>, target: nat)
    requires Ranked(s, rank) && target <= |s|
    ensures Path(s, rank, target, target) == []
  {
  }

  /** After some slots were cleared a scope still reaches the target exactly when its path lost none. */
  lemma {:induction false} StillBelow(s: seq<Scope>, t: seq<Scope>, rank: seq<nat>, target: nat, id: nat)
    requires Ranked(s, rank) && Ranked(t, rank) && Cut(s, t) && id <= |s|
    ensures target in Chain(t, rank, id) <==>
            target in Chain(s, rank, id) && forall x | x in Path(s, rank, target, id) :: t[x - 1] == s[x - 1]
    decreases RankOf(rank, id)
  {
    hide Chain, Path;
    NoChain(s, rank);
    NoChain(t, rank);
    if id == target {
      NoPath(s, rank, target);
    } else if id != 0 {
      PathMembers(s, rank, target, id);
      ChainMembers(s, rank, id - 1, target);
      ChainMembers(t, rank, id - 1, target);
      if t[id - 1] == s[id - 1] {
        var p := s[id - 1].parent;
        StillBelow(s, t, rank, target, p);
        forall x | x in Path(s, rank, target, p) && t[x - 1] != s[x - 1]
          ensures x in Path(s, rank, target, id)
        {
        }
      }
    }
  }

  /** The latest slot of a path is freed. */
  lemma {:induction false} Latest(s: seq<Scope>, rank: seq<nat>, target: nat, id: nat) returns (y: nat)
    requires Ranked(s, rank) && id <= |s| && id != target && target in Chain(s, rank, id)
    ensures y in Path(s, rank, target, id) && y in Chain(s, rank, id) && Freed(s, rank, target, y)
    ensures forall x | x in Path(s, rank, target, id) :: x <= y
    ensures forall x | x in Path(s, rank, target, y) :: x in Path(s, rank, target, id)
    decreases RankOf(rank, id)
  {
    hide Chain, Path;
    NoChain(s, rank);
    var p := s[id - 1].parent;
    ChainMembers(s, rank, id - 1, target);
    HeadOfChain(s, rank, id);
    PathMembers(s, rank, target, id);
    y := id;
    if p == target {
      NoPath(s, rank, target);
    } else {
      var z := Latest(s, rank, target, p);
      if id < z {
        y := z;
      }
    }
  }

  /** Whether the descending loop clears a slot is settled by the scopes as they were before it. */
  lemma FreedStep(s: seq<Scope>, rank: seq<nat>, target: nat, id: nat)
    requires Ranked(s, rank) && 0 < id <= |s|
    ensures var t := FreedFrom(s, rank, target, id);
            Ranked(t, rank) && Freed(s, rank, target, id) == (id != target && target in Chain(t, rank, id))
    ensures var t := FreedFrom(s, rank, target, id);
            FreedFrom(s, rank, target, id - 1) == if Freed(s, rank, target, id) then t[id - 1 := NO_SCOPE] else t
  {
    hide Chain, Path, CutBelow;
    var t := FreedFrom(s, rank, target, id);
    FreedBelow(s, rank, target, id);
    StillBelow(s, t, rank, target, id);
    if id != target && target in Chain(s, rank, id) {
      var y := Latest(s, rank, target, id);
      ProperSlot(s, rank, target, y);
      assert id < y ==> t[y - 1] == NO_SCOPE;
    }
  }

  /** A slot below another one is not blank. */
  lemma ProperSlot(s: seq<Scope>, rank: seq<nat>, target: nat, id: nat)
    requires Ranked(s, rank) && 0 < id <= |s| && id != target && target in Chain(s, rank, id)
    ensures s[id - 1] != NO_SCOPE
  {
    ChainMembers(s, rank, id - 1, target);
    NoChain(s, rank);
  }

  /** Blank slots are below nothing. */
  lemma BlankUnfreed(s: seq<Scope>, rank: seq<nat>, target: nat, used: nat)
    requires Ranked(s, rank) && forall i | used <= i < |s| :: s[i] == NO_SCOPE
    ensures FreedFrom(s, rank, target, used) == s
  {
    hide Chain, Path;
  }

  /** Every slot below the target is freed if and only if slots below it that are not its children have earlier parents. */
  lemma AllFreed(s: seq<Scope>, rank: seq<nat>, target: nat)
    requires Ranked(s, rank)
    ensures (forall id | 0 < id <= |s| && id != target && target in Chain(s, rank, id) :: FreedFrom(s, rank, target, 0)[id - 1] == NO_SCOPE) <==>
            (forall id | 0 < id <= |s| && id != target && target in Chain(s, rank, id) :: s[id - 1].parent == target || s[id - 1].parent < id)
  {
    hide Chain, Path;
    if forall id | 0 < id <= |s| && id != target && target in Chain(s, rank, id) :: s[id - 1].parent == target || s[id - 1].parent < id {
      forall id | 0 < id <= |s| && id != target && target in Chain(s, rank, id)
        ensures FreedFrom(s, rank, target, 0)[id - 1] == NO_SCOPE
      {
        EarlierParents(s, rank, target, id);
      }
    } else {
      var id :| 0 < id <= |s| && id != target && target in Chain(s, rank, id) && s[id - 1].parent != target && s[id - 1].parent >= id;
      LateParent(s, rank, target, id);
    }
  }

  lemma {:induction false} EarlierParents(s: seq<Scope>, rank: seq<nat>, target: nat, id: nat)
    requires Ranked(s, rank) && 0 < id <= |s| && id != target && target in Chain(s, rank, id)
    requires forall x | 0 < x <= |s| && x != target && target in Chain(s, rank, x) :: s[x - 1].parent == target || s[x - 1].parent < x
    ensures Freed(s, rank, target, id)
    decreases RankOf(rank, id)
  {
    var p := s[id - 1].parent;
    ChainMembers(s, rank, id - 1, target);
    NoChain(s, rank);
    assert Path(s, rank, target, id) == [id] + Path(s, rank, target, p);
    if p != target {
      EarlierParents(s, rank, target, p);
    }
  }

  /** A slot whose parent comes later and is not the target survives. */
  lemma LateParent(s: seq<Scope>, rank: seq<nat>, target: nat, id: nat)
    requires Ranked(s, rank) && 0 < id <= |s| && id != target && target in Chain(s, rank, id) && s[id - 1].parent != target && s[id - 1].parent >= id
    ensures !Freed(s, rank, target, id) && FreedFrom(s, rank, target, 0)[id - 1] != NO_SCOPE
  {
    var p := s[id - 1].parent;
    HeadOfChain(s, rank, id);
    ProperSlot(s, rank, target, id);
    assert Path(s, rank, target, id) == [id] + Path(s, rank, target, p);
    assert Path(s, rank, target, p)[0] == p;
    assert p in Path(s, rank, target, id) && p != id;
  }

  // ---- A free slot taken by a new scope ---------------------------------------------------------------------------

  /** Ranks after slot k became a child of `parent`: everything at or below the slot moves up. */
  ghost function Raised(s: seq<Scope>, rank: seq<nat>, k: nat, parent: nat): (r: seq<nat>)
    requires Ranked(s, rank) && k < |s| && parent <= |s|
    ensures |r| == |rank|
  {
    seq(|rank|, i requires 0 <= i < |rank| => if k + 1 in Chain(s, rank, i + 1) then rank[i] + RankOf(rank, parent) else rank[i])
  }

  /** Reusing a dead slot keeps parent chains acyclic, because the current chain holds no dead slot. */
  lemma ReuseRanked(s: seq<Scope>, rank: seq<nat>, k: nat, owner: nat, parent: nat)
    requires Ranked(s, rank) && k < |s| && s[k].parent == 0 && parent <= |s| && k + 1 !in Chain(s, rank, parent)
    ensures Ranked(s[k := Scope(owner, parent)], Raised(s, rank, k, parent))
  {
    var t, r := s[k := Scope(owner, parent)], Raised(s, rank, k, parent);
    forall i | 0 <= i < |s| && t[i].parent != 0
      ensures t[i].parent <= |s| && r[t[i].parent - 1] < r[i]
    {
      RaisedOrder(s, rank, k, parent, i);
    }
  }

  lemma RaisedOrder(s: seq<Scope>, rank: seq<nat>, k: nat, parent: nat, i: nat)
    requires Ranked(s, rank) && k < |s| && s[k].parent == 0 && parent <= |s| && k + 1 !in Chain(s, rank, parent) && i < |s|
    ensures var r := Raised(s, rank, k, parent);
            var p := if i == k then parent else s[i].parent;
            p != 0 ==> r[p - 1] < r[i]
  {
    hide Chain, Raised;
    var p := if i == k then parent else s[i].parent;
    ChainMembers(s, rank, i, k + 1);
    RaisedAt(s, rank, k, parent, i);
    if p != 0 {
      RaisedAt(s, rank, k, parent, p - 1);
    }
  }

  lemma RaisedAt(s: seq<Scope>, rank: seq<nat>, k: nat, parent: nat, j: nat)
    requires Ranked(s, rank) && k < |s| && parent <= |s| && j < |s|
    ensures Raised(s, rank, k, parent)[j] == rank[j] + if k + 1 in Chain(s, rank, j + 1) then RankOf(rank, parent) else 0
  {
  }

  lemma ChainMembers(s: seq<Scope>, rank: seq<nat>, i: nat, x: nat)
    requires Ranked(s, rank) && i < |s|
    ensures x in Chain(s, rank, i + 1) <==> x == i + 1 || x in Chain(s, rank, s[i].parent)
  {
    assert Chain(s, rank, i + 1) == [i + 1] + Chain(s, rank, s[i].parent);
  }

  /** Chains that do not pass through the reused slot are unchanged. */
  lemma {:induction false} ReuseChain(s: seq<Scope>, rank: seq<nat>, k: nat, owner: nat, parent: nat, id: nat)
    requires Ranked(s, rank) && k < |s| && s[k].parent == 0 && parent <= |s| && k + 1 !in Chain(s, rank, parent)
    requires id <= |s| && k + 1 !in Chain(s, rank, id)
    ensures Ranked(s[k := Scope(owner, parent)], Raised(s, rank, k, parent))
    ensures Chain(s[k := Scope(owner, parent)], Raised(s, rank, k, parent), id) == Chain(s, rank, id)
    decreases RankOf(rank, id)
  {
    ReuseRanked(s, rank, k, owner, parent);
    if id != 0 {
      ReuseChain(s, rank, k, owner, parent, s[id - 1].parent);
    }
  }

  lemma HeadOfChain(s: seq<Scope>, rank: seq<nat>, id: nat)
    requires Ranked(s, rank) && 0 < id <= |s|
    ensures Chain(s, rank, id) == [id] + Chain(s, rank, s[id - 1].parent) && id in Chain(s, rank, id)
    ensures id !in Chain(s, rank, s[id - 1].parent)
  {
  }

  /** A new slot at the end changes no chain. */
  lemma {:induction false} GrowChain(s: seq<Scope>, rank: seq<nat>, id: nat)
    requires Ranked(s, rank) && id <= |s|
    ensures Ranked(s + [NO_SCOPE], rank + [0]) && Chain(s + [NO_SCOPE], rank + [0], id) == Chain(s, rank, id)
    decreases RankOf(rank, id)
  {
    if id != 0 {
      GrowChain(s, rank, s[id - 1].parent);
    }
  }

  /** The chain of the scope that took the slot. */
  lemma OccupiedChain(s: seq<Scope>, rank: seq<nat>, k: nat, owner: nat, parent: nat)
    requires Ranked(s, rank) && k < |s| && s[k].parent == 0 && parent <= |s| && k + 1 !in Chain(s, rank, parent)
    ensures var t, r := s[k := Scope(owner, parent)], Raised(s, rank, k, parent);
            Ranked(t, r) && Chain(t, r, k + 1) == [k + 1] + Chain(s, rank, parent)
  {
    ReuseChain(s, rank, k, owner, parent, parent);
    HeadOfChain(s[k := Scope(owner, parent)], Raised(s, rank, k, parent), k + 1);
  }

  /** Moving one reference down over the gap left by dropped ones. */
  lemma MoveDown(t: seq<Reference>, write: nat, read: nat)
    requires write <= read < |t|
    ensures var u := t[write := t[read]];
            u[..write + 1] == t[..write] + [t[read]] && u[read + 1..] == t[read + 1..] && (write == read ==> u == t)
  {
  }

  /** What a decode asks of the tracker. */
  datatype Step =
    | Scoped(owner: nat, body: seq<Step>)
    | See(kind: Kind, owner: nat, ptr: nat, span: nat, wide: bool, dest: nat, destSpan: nat)
    | Store(kind: Kind, owner: nat, ptr: nat, span: nat, live: bool)
    | Clear(owner: nat)

  // ---- The tracker's state as a value ---------------------------------------------------------------------------------

  /** The references, every scope slot, ranks that order the parents, and the scope the decode is in. */
  datatype State = State(refs: seq<Reference>, scopes: seq<Scope>, rank: seq<nat>, current: nat)

  /** Dead slots are blank, parent chains end, the open chain is live, keys are unique, and references live in live scopes. */
  ghost predicate Sound(x: State) {
    Ranked(x.scopes, x.rank) && x.current <= |x.scopes| && UniqueKeys(x.refs) &&
    (forall i | 0 <= i < |x.scopes| && x.scopes[i].owner == 0 :: x.scopes[i] == NO_SCOPE) &&
    (forall y | y in Chain(x.scopes, x.rank, x.current) :: LiveScope(x.scopes, y)) &&
    forall i | 0 <= i < |x.refs| :: x.refs[i].scope == 0 || LiveScope(x.scopes, x.refs[i].scope)
  }

  /** The open scopes, innermost first. */
  ghost function Opened(x: State): seq<nat>
    requires Ranked(x.scopes, x.rank) && x.current <= |x.scopes|
  {
    Chain(x.scopes, x.rank, x.current)
  }

  /** The first slot from i on that holds the scope, or the number of slots. */
  function FirstScope(s: seq<Scope>, scope: Scope, i: nat): (k: nat)
    requires i <= |s|
    ensures i <= k <= |s| && (k < |s| ==> s[k] == scope) && forall j | i <= j < k :: s[j] != scope
    decreases |s| - i
  {
    if i == |s| || s[i] == scope then i else FirstScope(s, scope, i + 1)
  }

  /** The first slot from i on with the owner, or the number of slots; owner 0 marks dead slots. */
  function FirstOwned(s: seq<Scope>, owner: nat, i: nat): (k: nat)
    requires i <= |s|
    ensures i <= k <= |s| && (k < |s| ==> s[k].owner == owner) && forall j | i <= j < k :: s[j].owner != owner
    decreases |s| - i
  {
    if i == |s| || s[i].owner == owner then i else FirstOwned(s, owner, i + 1)
  }

  lemma FirstIs(s: seq<Scope>, owner: nat, k: nat)
    requires k <= |s| && (k < |s| ==> s[k].owner == owner) && forall j | 0 <= j < k :: s[j].owner != owner
    ensures FirstOwned(s, owner, 0) == k
  {
  }

  /** The references at or below the target are gone, and so are the slots below it that the descending loop still reaches. */
  ghost function Cleared(x: State, target: nat): State
    requires Sound(x)
  {
    x.(refs := Outside(x.refs, x.scopes, x.rank, target), scopes := FreedFrom(x.scopes, x.rank, target, 0))
  }

  /** Clearing keeps the state sound and the open scopes open, unless the target encloses the current scope. */
  lemma ClearedSound(x: State, target: nat)
    requires Sound(x) && 0 < target <= |x.scopes| && (target in Opened(x) ==> target == x.current)
    ensures Sound(Cleared(x, target)) && Opened(Cleared(x, target)) == Opened(x)
    ensures Cleared(x, target).scopes[target - 1] == x.scopes[target - 1] && |Cleared(x, target).scopes| == |x.scopes|
    ensures forall r | r in Cleared(x, target).refs :: r in x.refs && target !in Chain(x.scopes, x.rank, r.scope)
    ensures NoAliases(x.refs) ==> NoAliases(Cleared(x, target).refs)
  {
    hide Chain, Outside, FreedFrom, UniqueKeys, NoAliases;
    var s, t := x.scopes, Cleared(x, target).scopes;
    OutsideKeeps(x.refs, s, x.rank, target);
    FreedBelow(s, x.rank, target, 0);
    OpenUncut(s, t, x.rank, target, x.current);
    OutsideUncut(x.refs, s, t, x.rank, target);
    OutsideScopes(x.refs, s, x.rank, target);
    TargetUncut(s, t, x.rank, target);
  }

  /** Chains whose slots are all live lost none. */
  lemma {:induction false} LiveUncut(s: seq<Scope>, t: seq<Scope>, rank: seq<nat>, id: nat)
    requires Ranked(s, rank) && Cut(s, t) && Ranked(t, rank) && id <= |s| && forall x | x in Chain(t, rank, id) :: LiveScope(t, x)
    ensures Chain(t, rank, id) == Chain(s, rank, id)
    decreases RankOf(rank, id)
  {
    if id != 0 {
      HeadOfChain(s, rank, id);
      HeadOfChain(t, rank, id);
      hide Chain;
      assert LiveScope(t, id);
      LiveUncut(s, t, rank, s[id - 1].parent);
    }
  }

  /** Clearing keeps the state sound if and only if the target does not strictly enclose the current scope. */
  lemma SoundExactly(x: State, target: nat)
    requires Sound(x) && 0 < target <= |x.scopes|
    ensures Sound(Cleared(x, target)) <==> (target in Opened(x) ==> target == x.current)
  {
    hide Chain, Outside, Path, FreedFrom, UniqueKeys, NoAliases;
    if target in Opened(x) && target != x.current {
      var s, t := x.scopes, FreedFrom(x.scopes, x.rank, target, 0);
      FreedBelow(s, x.rank, target, 0);
      var y := Latest(s, x.rank, target, x.current);
      assert t[y - 1] == NO_SCOPE && !LiveScope(t, y);
      if Sound(Cleared(x, target)) {
        LiveUncut(s, t, x.rank, x.current);
      }
    } else {
      ClearedSound(x, target);
    }
  }

  /**
   Slots 2 and 4 are children of slot 1, and slot 3 is a child of slot 4. Clearing slot 1 blanks slot 4 first, so
   slot 3 is no longer seen to lie below slot 1 and stays, with a blank parent.
   */
  lemma DeadScopeStays(s: seq<Scope>, rank: seq<nat>)
    requires Ranked(s, rank) && |s| >= 4 && s[0].parent == 0 && s[1].parent == 1 && s[2].parent == 4 && s[3].parent == 1
    requires forall i | 4 <= i < |s| :: s[i] == NO_SCOPE
    ensures 1 in Chain(s, rank, 3) && FreedFrom(s, rank, 1, 0) == s[1 := NO_SCOPE][3 := NO_SCOPE]
  {
    hide Chain, Path;
    NoChain(s, rank);
    NoPath(s, rank, 1);
    forall id | 1 < id <= |s|
      ensures 1 in Chain(s, rank, id) <==> id <= 4
      ensures id == 2 || id == 4 ==> Path(s, rank, 1, id) == [id]
    {
      ChainMembers(s, rank, id - 1, 1);
      ChainMembers(s, rank, 3, 1);
      ChainMembers(s, rank, 0, 1);
      PathStep(s, rank, 1, id);
    }
    PathStep(s, rank, 1, 3);
    PathStep(s, rank, 1, 4);
    assert 4 in Path(s, rank, 1, 3);
    assert !Freed(s, rank, 1, 1) && Freed(s, rank, 1, 2) && !Freed(s, rank, 1, 3) && Freed(s, rank, 1, 4);
    var t := FreedFrom(s, rank, 1, 0);
    assert forall i | 4 <= i < |s| :: !Freed(s, rank, 1, i + 1) && t[i] == s[i];
    assert t == s[1 := NO_SCOPE][3 := NO_SCOPE];
  }

  lemma OutsideScopes(refs: seq<Reference>, s: seq<Scope>, rank: seq<nat>, target: nat)
    requires Ranked(s, rank) && forall i | 0 <= i < |refs| :: refs[i].scope <= |s|
    ensures forall i | 0 <= i < |Outside(refs, s, rank, target)| :: Outside(refs, s, rank, target)[i] in refs
  {
    OutsideKeeps(refs, s, rank, target);
  }

  /** The slot as a new scope of `owner` below the current one; a slot past the last is a new one. */
  ghost function Occupied(x: State, index: nat, owner: nat): State
    requires Sound(x) && index <= |x.scopes| && (index < |x.scopes| ==> x.scopes[index].owner == 0)
  {
    var s := if index == |x.scopes| then x.scopes + [NO_SCOPE] else x.scopes;
    var rank := if index == |x.scopes| then x.rank + [0] else x.rank;
    GrowChain(x.scopes, x.rank, x.current);
    x.(scopes := s[index := Scope(owner, x.current)], rank := Raised(s, rank, index, x.current), current := index + 1)
  }

  lemma OccupiedSound(x: State, index: nat, owner: nat)
    requires Sound(x) && owner != 0 && index <= |x.scopes| && (index < |x.scopes| ==> x.scopes[index].owner == 0)
    ensures var y := Occupied(x, index, owner);
            Sound(y) && Opened(y) == [y.current] + Opened(x) && forall r | r in y.refs :: r in x.refs && r.scope != y.current
  {
    hide Chain, UniqueKeys, Raised;
    GrowChain(x.scopes, x.rank, x.current);
    var s := if index == |x.scopes| then x.scopes + [NO_SCOPE] else x.scopes;
    var rank := if index == |x.scopes| then x.rank + [0] else x.rank;
    OccupiedChain(s, rank, index, owner, x.current);
  }

  /** Enters the scope of `owner` inside the current one, cleared if it exists, in the first dead slot otherwise. */
  ghost function Begun(x: State, owner: nat): State
    requires Sound(x) && owner != 0
  {
    var index := FirstScope(x.scopes, Scope(owner, x.current), 0);
    if index < |x.scopes| then Cleared(x, index + 1).(current := index + 1)
    else Occupied(x, FirstOwned(x.scopes, 0, 0), owner)
  }

  /** Entering the scope in the slot after clearing it. */
  lemma ReenteredSound(x: State, index: nat)
    requires Sound(x) && index < |x.scopes| && x.scopes[index].owner != 0 && x.scopes[index].parent == x.current
    ensures var y := Cleared(x, index + 1).(current := index + 1);
            Sound(y) && Opened(y) == [index + 1] + Opened(x) && (forall r | r in y.refs :: r in x.refs && r.scope != index + 1) &&
            (NoAliases(x.refs) ==> NoAliases(y.refs))
  {
    hide Chain, Outside, FreedFrom, UniqueKeys, NoAliases, Ranked;
    HeadOfChain(x.scopes, x.rank, index + 1);
    ClearedSound(x, index + 1);
    var y := Cleared(x, index + 1);
    HeadOfChain(y.scopes, y.rank, index + 1);
    forall r | r in y.refs
      ensures r in x.refs && r.scope != index + 1
    {
      assert index + 1 !in Chain(x.scopes, x.rank, r.scope);
    }
  }

  /** A scope directly below the current one is not open. */
  lemma NotOpen(x: State, index: nat)
    requires Sound(x) && index < |x.scopes| && x.scopes[index].parent == x.current
    ensures index + 1 !in Opened(x)
  {
    HeadOfChain(x.scopes, x.rank, index + 1);
  }

  lemma BegunSound(x: State, owner: nat)
    requires Sound(x) && owner != 0
    ensures var y := Begun(x, owner);
            Sound(y) && Opened(y) == [y.current] + Opened(x) && (forall r | r in y.refs :: r in x.refs && r.scope != y.current) &&
            (NoAliases(x.refs) ==> NoAliases(y.refs))
  {
    hide Sound, Opened, Cleared, Occupied, NoAliases;
    SoundScopes(x);
    var index := FirstScope(x.scopes, Scope(owner, x.current), 0);
    if index < |x.scopes| {
      ReenteredSound(x, index);
    } else {
      OccupiedSound(x, FirstOwned(x.scopes, 0, 0), owner);
      OccupiedRefs(x, FirstOwned(x.scopes, 0, 0), owner);
    }
  }

  /** The scope just entered has a positive id. */
  lemma BegunCurrent(x: State, owner: nat)
    requires Sound(x) && owner != 0
    ensures Begun(x, owner).current != 0
  {
  }

  lemma NoChain(s: seq<Scope>, rank: seq<nat>)
    requires Ranked(s, rank)
    ensures Chain(s, rank, 0) == []
  {
  }

  lemma SoundScopes(x: State)
    requires Sound(x)
    ensures Ranked(x.scopes, x.rank) && x.current <= |x.scopes|
  {
  }

  lemma OccupiedRefs(x: State, index: nat, owner: nat)
    requires Sound(x) && index <= |x.scopes| && (index < |x.scopes| ==> x.scopes[index].owner == 0)
    ensures Occupied(x, index, owner).refs == x.refs
  {
  }

  // ---- Whole runs -------------------------------------------------------------------------------------------------------

  /** Whether an admission test answers that the storage is taken: by the root destination or by another key. */
  predicate Claimed(refs: seq<Reference>, r: Reference, wide: bool, dest: nat, destSpan: nat) {
    ((r.kind.PointerRef? || r.kind.SliceRef?) && (wide || DestinationAlias(dest, destSpan, r.ptr, r.span))) || Taken(refs, r)
  }

  /** r tracked under its key; a reference that was not tracked is only added if `add`. */
  ghost function Tracked(x: State, r: Reference, add: bool): State {
    x.(refs := if add then Upsert(x.refs, r) else Update(x.refs, r))
  }

  lemma {:induction false} TrackedFrom(refs: seq<Reference>, r: Reference)
    ensures forall p | p in Upsert(refs, r) || p in Update(refs, r) :: p == r || p in refs
  {
    if refs != [] {
      TrackedFrom(refs[1..], r);
      assert refs == [refs[0]] + refs[1..];
    }
  }

  lemma TrackedSound(x: State, r: Reference, add: bool)
    requires Sound(x) && r.scope == x.current
    ensures Sound(Tracked(x, r, add)) && Opened(Tracked(x, r, add)) == Opened(x)
    ensures NoAliases(x.refs) && (r.ptr == 0 || !Taken(x.refs, r)) ==> NoAliases(Tracked(x, r, add).refs)
  {
    hide UniqueKeys, NoAliases, Taken, Upsert, Update;
    UpsertKeeps(x.refs, r);
    TrackedFrom(x.refs, r);
    CurrentLive(x);
    TrackedScopes(x, r, if add then Upsert(x.refs, r) else Update(x.refs, r));
  }

  lemma TrackedScopes(x: State, r: Reference, refs: seq<Reference>)
    requires forall i | 0 <= i < |x.refs| :: x.refs[i].scope == 0 || LiveScope(x.scopes, x.refs[i].scope)
    requires (r.scope == 0 || LiveScope(x.scopes, r.scope)) && forall p | p in refs :: p == r || p in x.refs
    ensures forall i | 0 <= i < |refs| :: refs[i].scope == 0 || LiveScope(x.scopes, refs[i].scope)
  {
    forall i | 0 <= i < |refs|
      ensures refs[i].scope == 0 || LiveScope(x.scopes, refs[i].scope)
    {
      assert refs[i] in refs;
    }
  }

  lemma CurrentLive(x: State)
    requires Sound(x)
    ensures x.current == 0 || LiveScope(x.scopes, x.current)
  {
  }

  /** Leaving a scope for the one that encloses it. */
  lemma LeftSound(x: State, y: State)
    requires Sound(x) && Sound(y) && y.current != 0 && Opened(y) == [y.current] + Opened(x)
    ensures Sound(y.(current := x.current)) && Opened(y.(current := x.current)) == Opened(x)
  {
    HeadOfChain(y.scopes, y.rank, y.current);
    var p := y.scopes[y.current - 1].parent;
    assert Chain(y.scopes, y.rank, p) == Opened(y)[1..] == Opened(x);
    SameHead(y.scopes, y.rank, p, x.scopes, x.rank, x.current);
    assert forall z | z in Opened(x) :: z in Opened(y);
  }

  lemma SameHead(s: seq<Scope>, rank: seq<nat>, id: nat, t: seq<Scope>, ranks: seq<nat>, x: nat)
    requires Ranked(s, rank) && Ranked(t, ranks) && id <= |s| && x <= |t| && Chain(s, rank, id) == Chain(t, ranks, x)
    ensures id == x
  {
    if id != 0 {
      assert Chain(s, rank, id)[0] == id;
    }
    if x != 0 {
      assert Chain(t, ranks, x)[0] == x;
    }
  }

  /**
   What one step comes to. Refused are a scope or a clearing without an owner, storing storage that another key
   holds, clearing an owner whose scope strictly encloses the current one, and a scope whose body is refused.
   */
  ghost function StepOn(x: State, step: Step): (y: Json.Option<State>)
    requires Sound(x)
    ensures y.Some? ==> Sound(y.value) && y.value.current == x.current && Opened(y.value) == Opened(x)
    ensures y.Some? && NoAliases(x.refs) ==> NoAliases(y.value.refs)
    decreases step, 0
  {
    match step
    case Scoped(owner, body) =>
      if owner == 0 then Json.None
      else
        BegunSound(x, owner);
        var y := Run(Begun(x, owner), body);
        if y.None? then Json.None
        else
          LeftSound(x, y.value);
          Json.Some(y.value.(current := x.current))
    case See(kind, owner, ptr, span, wide, dest, destSpan) =>
      var r := Reference(kind, x.current, owner, ptr, span);
      TrackedSound(x, r, true);
      Json.Some(if Claimed(x.refs, r, wide, dest, destSpan) then x else Tracked(x, r, true))
    case Store(kind, owner, ptr, span, live) =>
      var r := Reference(kind, x.current, owner, ptr, span);
      TrackedSound(x, r, live);
      if ptr != 0 && Taken(x.refs, r) then Json.None else Json.Some(Tracked(x, r, live))
    case Clear(owner) =>
      var index := FirstOwned(x.scopes, owner, 0);
      if owner == 0 then Json.None
      else if index == |x.scopes| then Json.Some(x)
      else if index + 1 in Opened(x) && index + 1 != x.current then Json.None
      else
        ClearedSound(x, index + 1);
        Json.Some(Cleared(x, index + 1))
  }

  /** What the steps come to, unless one of them is refused. */
  ghost function Run(x: State, steps: seq<Step>): (y: Json.Option<State>)
    requires Sound(x)
    ensures y.Some? ==> Sound(y.value) && y.value.current == x.current && Opened(y.value) == Opened(x)
    ensures y.Some? && NoAliases(x.refs) ==> NoAliases(y.value.refs)
    decreases steps, 0
  {
    if steps == [] then Json.Some(x)
    else
      var y := StepOn(x, steps[0]);
      if y.None? then Json.None else Run(y.value, steps[1..])
  }

  /** Clearing an owner, spelled out. */
  lemma ClearStep(x: State, owner: nat)
    requires Sound(x) && owner != 0
    ensures var index := FirstOwned(x.scopes, owner, 0);
            StepOn(x, Clear(owner)) ==
            if index == |x.scopes| then Json.Some(x)
            else if index + 1 in Opened(x) && index + 1 != x.current then Json.None
            else Json.Some(Cleared(x, index + 1))
    ensures var index := FirstOwned(x.scopes, owner, 0);
            NoAliases(x.refs) && index < |x.scopes| && (index + 1 in Opened(x) ==> index + 1 == x.current) ==>
              Sound(Cleared(x, index + 1)) && NoAliases(Cleared(x, index + 1).refs) && Opened(Cleared(x, index + 1)) == Opened(x) && Cleared(x, index + 1).current == x.current
  {
    hide Sound, Chain, Outside, FreedFrom, NoAliases, UniqueKeys, FirstOwned;
    SoundScopes(x);
    var index := FirstOwned(x.scopes, owner, 0);
    if index < |x.scopes| && (index + 1 in Opened(x) ==> index + 1 == x.current) {
      ClearedSound(x, index + 1);
    }
  }

  // ---- A run that leaves a dead scope behind ---------------------------------------------------------------------------

  /** The tracker before any step. */
  ghost function Fresh(): (x: State)
    ensures Sound(x) && Opened(x) == [] && NoAliases(x.refs)
  {
    State([], seq(SLOTS, _ => NO_SCOPE), seq(SLOTS, _ => 0), 0)
  }

  /** Some ranks and no references go with these scopes. */
  ghost predicate Stands(y: Json.Option<State>, s: seq<Scope>, current: nat) {
    y.Some? && Sound(y.value) && y.value.refs == [] && y.value.scopes == s && y.value.current == current
  }

  /** Entering a new scope takes the first dead slot. */
  lemma Enters(x: State, owner: nat, k: nat)
    requires Stands(Json.Some(x), x.scopes, x.current) && owner != 0 && k < |x.scopes| && x.scopes[k] == NO_SCOPE
    requires (forall j | 0 <= j < k :: x.scopes[j].owner != 0) && forall j | 0 <= j < |x.scopes| :: x.scopes[j] != Scope(owner, x.current)
    ensures Stands(Json.Some(Begun(x, owner)), x.scopes[k := Scope(owner, x.current)], k + 1)
  {
    hide Chain, UniqueKeys, Raised;
    BegunSound(x, owner);
    FirstIs(x.scopes, 0, k);
  }

  /** A scope around a body, step by step. */
  lemma Passes(x: State, owner: nat, body: seq<Step>, s: seq<Scope>)
    requires Sound(x) && owner != 0 && Sound(Begun(x, owner)) && Stands(Run(Begun(x, owner), body), s, Begun(x, owner).current)
    ensures Stands(StepOn(x, Scoped(owner, body)), s, x.current)
  {
    hide Chain, Begun, UniqueKeys;
  }

  lemma PassesNew(x: State, owner: nat, k: nat)
    requires Stands(Json.Some(x), x.scopes, x.current) && owner != 0 && k < |x.scopes| && x.scopes[k] == NO_SCOPE
    requires (forall j | 0 <= j < k :: x.scopes[j].owner != 0) && forall j | 0 <= j < |x.scopes| :: x.scopes[j] != Scope(owner, x.current)
    ensures Stands(StepOn(x, Scoped(owner, [])), x.scopes[k := Scope(owner, x.current)], x.current)
  {
    hide Begun, Sound, StepOn;
    Enters(x, owner, k);
    Passes(x, owner, [], x.scopes[k := Scope(owner, x.current)]);
  }

  lemma RunStep(x: State, steps: seq<Step>)
    requires Sound(x) && steps != [] && StepOn(x, steps[0]).Some?
    ensures Run(x, steps) == Run(StepOn(x, steps[0]).value, steps[1..])
  {
  }

  /** Four slots, chains of at most three scopes. */
  function Four(a: Scope, b: Scope, c: Scope, d: Scope): (s: seq<Scope>)
    ensures |s| == SLOTS && s[0] == a && s[1] == b && s[2] == c && s[3] == d && forall i | 4 <= i < SLOTS :: s[i] == NO_SCOPE
  {
    [a, b, c, d] + seq(SLOTS - 4, _ => NO_SCOPE)
  }

  const T_SCOPE := Scope(1, 0)
  const A_SCOPE := Scope(2, 1)
  const X_SCOPE := Scope(4, 2)
  const B_SCOPE := Scope(3, 1)
  const Y_SCOPE := Scope(5, 4)

  /** Clearing slot 2 frees slot 3, its only child. */
  lemma FreesOnlyChild(rank: seq<nat>)
    requires Ranked(Four(T_SCOPE, A_SCOPE, X_SCOPE, B_SCOPE), rank)
    ensures FreedFrom(Four(T_SCOPE, A_SCOPE, X_SCOPE, B_SCOPE), rank, 2, 0) == Four(T_SCOPE, A_SCOPE, NO_SCOPE, B_SCOPE)
  {
    hide Chain, Path;
    var s := Four(T_SCOPE, A_SCOPE, X_SCOPE, B_SCOPE);
    NoChain(s, rank);
    NoPath(s, rank, 2);
    PathStep(s, rank, 2, 3);
    forall id | 0 < id <= |s|
      ensures 2 in Chain(s, rank, id) <==> id == 2 || id == 3
    {
      ChainMembers(s, rank, 0, 2);
      ChainMembers(s, rank, 1, 2);
      ChainMembers(s, rank, id - 1, 2);
    }
    assert Freed(s, rank, 2, 3);
    assert FreedFrom(s, rank, 2, 0) == Four(T_SCOPE, A_SCOPE, NO_SCOPE, B_SCOPE);
  }

  /** Clearing slot 4 frees nothing. */
  lemma FreesNone(rank: seq<nat>)
    requires Ranked(Four(T_SCOPE, A_SCOPE, NO_SCOPE, B_SCOPE), rank)
    ensures FreedFrom(Four(T_SCOPE, A_SCOPE, NO_SCOPE, B_SCOPE), rank, 4, 0) == Four(T_SCOPE, A_SCOPE, NO_SCOPE, B_SCOPE)
  {
    hide Chain, Path;
    var s := Four(T_SCOPE, A_SCOPE, NO_SCOPE, B_SCOPE);
    NoChain(s, rank);
    forall id | 0 < id <= |s|
      ensures 4 in Chain(s, rank, id) <==> id == 4
    {
      ChainMembers(s, rank, 0, 4);
      ChainMembers(s, rank, id - 1, 4);
    }
    assert FreedFrom(s, rank, 4, 0) == s;
  }

  /** Clearing an owner that does not enclose the current scope, without references to drop. */
  lemma Clears(x: State, owner: nat, s: seq<Scope>)
    requires Stands(Json.Some(x), x.scopes, x.current) && owner != 0 && FirstOwned(x.scopes, owner, 0) < |x.scopes|
    requires FirstOwned(x.scopes, owner, 0) + 1 !in Opened(x) && FreedFrom(x.scopes, x.rank, FirstOwned(x.scopes, owner, 0) + 1, 0) == s
    ensures Stands(StepOn(x, Clear(owner)), s, x.current)
  {
    hide Chain, UniqueKeys, FreedFrom, NoAliases;
    var index := FirstOwned(x.scopes, owner, 0);
    ClearedSound(x, index + 1);
    NoneOutside(x.scopes, x.rank, index + 1);
  }

  /** Entering a scope that is there. */
  lemma Reenters(x: State, owner: nat, index: nat)
    requires Stands(Json.Some(x), x.scopes, x.current) && owner != 0 && index < |x.scopes| && x.scopes[index] == Scope(owner, x.current)
    requires (forall j | 0 <= j < index :: x.scopes[j] != Scope(owner, x.current)) && FreedFrom(x.scopes, x.rank, index + 1, 0) == x.scopes
    ensures Stands(Json.Some(Begun(x, owner)), x.scopes, index + 1)
  {
    hide Chain, UniqueKeys, FreedFrom, NoAliases;
    BegunSound(x, owner);
    assert FirstScope(x.scopes, Scope(owner, x.current), 0) == index;
    NoneOutside(x.scopes, x.rank, index + 1);
  }

  function OuterBody(): seq<Step> {
    [Scoped(2, [Scoped(4, [])]), Scoped(3, []), Clear(2), Scoped(3, [Scoped(5, [])])]
  }

  lemma OuterRuns(x: State)
    requires Stands(Json.Some(x), Four(T_SCOPE, NO_SCOPE, NO_SCOPE, NO_SCOPE), 1)
    ensures Stands(Run(x, OuterBody()), Four(T_SCOPE, A_SCOPE, Y_SCOPE, B_SCOPE), 1)
  {
    hide Sound, Begun, StepOn, Run, Four;
    var y := FirstRuns(x);
    RunStep(x, OuterBody());
    PassesNew(y, 3, 3);
    assert Four(T_SCOPE, A_SCOPE, X_SCOPE, NO_SCOPE)[3 := B_SCOPE] == Four(T_SCOPE, A_SCOPE, X_SCOPE, B_SCOPE);
    var z := StepOn(y, Scoped(3, [])).value;
    RunStep(y, OuterBody()[1..]);
    assert OuterBody()[1..][1..] == [Clear(2), Scoped(3, [Scoped(5, [])])];
    SecondRuns(z);
  }

  lemma FirstRuns(x: State) returns (y: State)
    requires Stands(Json.Some(x), Four(T_SCOPE, NO_SCOPE, NO_SCOPE, NO_SCOPE), 1)
    ensures Stands(Json.Some(y), Four(T_SCOPE, A_SCOPE, X_SCOPE, NO_SCOPE), 1) && StepOn(x, Scoped(2, [Scoped(4, [])])) == Json.Some(y)
  {
    hide Sound, Begun, StepOn, Run, Four;
    Enters(x, 2, 1);
    assert Four(T_SCOPE, NO_SCOPE, NO_SCOPE, NO_SCOPE)[1 := A_SCOPE] == Four(T_SCOPE, A_SCOPE, NO_SCOPE, NO_SCOPE);
    var a := Begun(x, 2);
    PassesNew(a, 4, 2);
    assert Four(T_SCOPE, A_SCOPE, NO_SCOPE, NO_SCOPE)[2 := X_SCOPE] == Four(T_SCOPE, A_SCOPE, X_SCOPE, NO_SCOPE);
    RunOne(a, Scoped(4, []));
    Passes(x, 2, [Scoped(4, [])], Four(T_SCOPE, A_SCOPE, X_SCOPE, NO_SCOPE));
    y := StepOn(x, Scoped(2, [Scoped(4, [])])).value;
  }

  lemma RunOne(x: State, step: Step)
    requires Sound(x) && StepOn(x, step).Some?
    ensures Run(x, [step]) == StepOn(x, step)
  {
  }

  lemma SecondRuns(x: State)
    requires Stands(Json.Some(x), Four(T_SCOPE, A_SCOPE, X_SCOPE, B_SCOPE), 1)
    ensures Stands(Run(x, [Clear(2), Scoped(3, [Scoped(5, [])])]), Four(T_SCOPE, A_SCOPE, Y_SCOPE, B_SCOPE), 1)
  {
    hide Begun, StepOn, Run, Four, FirstOwned;
    SoundScopes(x);
    FreesOnlyChild(x.rank);
    FirstIs(x.scopes, 2, 1);
    HeadOfChain(x.scopes, x.rank, 1);
    NoChain(x.scopes, x.rank);
    Clears(x, 2, Four(T_SCOPE, A_SCOPE, NO_SCOPE, B_SCOPE));
    var y := StepOn(x, Clear(2)).value;
    RunStep(x, [Clear(2), Scoped(3, [Scoped(5, [])])]);
    ThirdRuns(y);
    RunOne(y, Scoped(3, [Scoped(5, [])]));
    assert [Clear(2), Scoped(3, [Scoped(5, [])])][1..] == [Scoped(3, [Scoped(5, [])])];
  }

  lemma ThirdRuns(x: State)
    requires Stands(Json.Some(x), Four(T_SCOPE, A_SCOPE, NO_SCOPE, B_SCOPE), 1)
    ensures Stands(StepOn(x, Scoped(3, [Scoped(5, [])])), Four(T_SCOPE, A_SCOPE, Y_SCOPE, B_SCOPE), 1)
  {
    hide Sound, Begun, StepOn, Run, Four, FreedFrom;
    SoundScopes(x);
    FreesNone(x.rank);
    Reenters(x, 3, 3);
    var b := Begun(x, 3);
    PassesNew(b, 5, 2);
    assert Four(T_SCOPE, A_SCOPE, NO_SCOPE, B_SCOPE)[2 := Y_SCOPE] == Four(T_SCOPE, A_SCOPE, Y_SCOPE, B_SCOPE);
    RunOne(b, Scoped(5, []));
    Passes(x, 3, [Scoped(5, [])], Four(T_SCOPE, A_SCOPE, Y_SCOPE, B_SCOPE));
  }

  lemma ClearsOuter(x: State)
    requires Stands(Json.Some(x), Four(T_SCOPE, A_SCOPE, Y_SCOPE, B_SCOPE), 0)
    ensures Stands(StepOn(x, Clear(1)), Four(T_SCOPE, NO_SCOPE, Y_SCOPE, NO_SCOPE), 0)
  {
    hide Sound, StepOn, Four, FreedFrom, FirstOwned;
    SoundScopes(x);
    DeadScopeStays(x.scopes, x.rank);
    NoChain(x.scopes, x.rank);
    FirstIs(x.scopes, 1, 0);
    assert Four(T_SCOPE, A_SCOPE, Y_SCOPE, B_SCOPE)[1 := NO_SCOPE][3 := NO_SCOPE] == Four(T_SCOPE, NO_SCOPE, Y_SCOPE, NO_SCOPE);
    Clears(x, 1, Four(T_SCOPE, NO_SCOPE, Y_SCOPE, NO_SCOPE));
  }

  /**
   A run of nested scopes from the empty tracker after which clearing the owner of slot 1 leaves slot 3, two levels
   below it, behind with a blank parent.
   */
  lemma DeadScopeReached()
    ensures Stands(Run(Fresh(), [Scoped(1, OuterBody())]), Four(T_SCOPE, A_SCOPE, Y_SCOPE, B_SCOPE), 0)
    ensures Stands(Run(Fresh(), [Scoped(1, OuterBody()), Clear(1)]), Four(T_SCOPE, NO_SCOPE, Y_SCOPE, NO_SCOPE), 0)
  {
    hide Sound, Begun, StepOn, Run, Four;
    var x := Fresh();
    Enters(x, 1, 0);
    assert x.scopes[0 := T_SCOPE] == Four(T_SCOPE, NO_SCOPE, NO_SCOPE, NO_SCOPE);
    OuterRuns(Begun(x, 1));
    Passes(x, 1, OuterBody(), Four(T_SCOPE, A_SCOPE, Y_SCOPE, B_SCOPE));
    RunOne(x, Scoped(1, OuterBody()));
    var y := StepOn(x, Scoped(1, OuterBody())).value;
    ClearsOuter(y);
    RunStep(x, [Scoped(1, OuterBody()), Clear(1)]);
    assert [Scoped(1, OuterBody()), Clear(1)][1..] == [Clear(1)];
    RunOne(y, Clear(1));
  }
}
