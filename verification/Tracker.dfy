/**
 The Replace-mode alias tracker: which destination already owns which storage, grouped in nested
 scopes. Over every run tracked keys stay unique, references live in live scopes, parent chains never
 cycle, clearing a scope removes exactly the references below it, and no two live references share
 storage.
 */
module Tracker {
  import opened References

  // ---- The tracker ----------------------------------------------------------------------------------------------------

  class ReplaceTracker {
    const refs: array<Reference>
    const scopes: array<Scope>
    var overflow: seq<Reference>
    var scopeOverflow: seq<Scope>
    var count: nat
    var scopeCount: nat
    var currentScope: nat
    ghost var rank: seq<nat>

    /** All reference slots, the fixed table first. */
    ghost function Slots(): seq<Reference>
      reads this, refs
    {
      refs[..] + overflow
    }

    ghost function Refs(): seq<Reference>
      reads this, refs
      requires count <= |Slots()|
    {
      Slots()[..count]
    }

    /** All scope slots; scope ids are one more than slot numbers. */
    ghost function Scopes(): seq<Scope>
      reads this, scopes
    {
      scopes[..] + scopeOverflow
    }

    ghost predicate Shape()
      reads this, refs, scopes
    {
      refs.Length == scopes.Length == SLOTS && count <= |Slots()| && scopeCount <= |Scopes()| && Ranked(Scopes(), rank) &&
      (forall i | 0 <= i < |Scopes()| :: (Scopes()[i].owner == 0 || i >= scopeCount) ==> Scopes()[i] == NO_SCOPE)
    }

    /** The state the tables hold. */
    ghost function Now(): State
      reads this, refs, scopes
      requires count <= |Slots()|
    {
      State(Refs(), Scopes(), rank, currentScope)
    }

    ghost predicate Valid()
      reads this, refs, scopes
    {
      Shape() && Sound(Now())
    }

    /** The open scopes, innermost first. */
    ghost function Open(): seq<nat>
      reads this, refs, scopes
      requires Shape() && currentScope <= |Scopes()|
    {
      Opened(Now())
    }

    constructor ()
      ensures Valid() && Now() == Fresh() && fresh(refs) && fresh(scopes)
    {
      refs := new Reference[SLOTS](_ => NO_REFERENCE);
      scopes := new Scope[SLOTS](_ => NO_SCOPE);
      overflow, scopeOverflow, count, scopeCount, currentScope := [], [], 0, 0, 0;
      rank := seq(SLOTS, _ => 0);
    }

    // ---- Slot access --------------------------------------------------------------------------------------------------

    method ReferenceAt(index: nat) returns (r: Reference)
      requires Shape() && index < |Slots()|
      ensures r == Slots()[index]
    {
      r := if index < refs.Length then refs[index] else overflow[index - refs.Length];
    }

    method SetReferenceAt(index: nat, r: Reference)
      requires Shape() && index < |Slots()|
      modifies this`overflow, refs
      ensures Slots() == old(Slots())[index := r] && Shape()
    {
      if index < refs.Length {
        refs[index] := r;
      } else {
        overflow := overflow[index - refs.Length := r];
      }
    }

    method AppendReference(r: Reference)
      requires Shape()
      modifies this`overflow, this`count, refs
      ensures Shape() && Refs() == old(Refs()) + [r]
    {
      if count < refs.Length {
        refs[count] := r;
      } else {
        var index := count - refs.Length;
        if index == |overflow| {
          overflow := overflow + [r];
        } else {
          overflow := overflow[index := r];
        }
      }
      count := count + 1;
      assert Slots()[..count] == old(Slots()[..count]) + [r];
    }

    method ScopeAt(index: nat) returns (s: Scope)
      requires Shape() && index < |Scopes()|
      ensures s == Scopes()[index]
    {
      s := if index < scopes.Length then scopes[index] else scopeOverflow[index - scopes.Length];
    }

    /** Overwrites or appends a scope slot; the caller keeps ranks in order. */
    method SetScopeAt(index: nat, s: Scope)
      requires scopes.Length == SLOTS && index <= |Scopes()|
      modifies this`scopeOverflow, scopes
      ensures Scopes() == if index < old(|Scopes()|) then old(Scopes())[index := s] else old(Scopes()) + [s]
    {
      if index < scopes.Length {
        scopes[index] := s;
      } else {
        var i := index - scopes.Length;
        if i == |scopeOverflow| {
          scopeOverflow := scopeOverflow + [s];
        } else {
          scopeOverflow := scopeOverflow[i := s];
        }
      }
    }

    /** Whether `ancestor` is on scope's parent chain; the walk ends because ranks fall. */
    method DescendsFrom(scope: nat, ancestor: nat) returns (below: bool)
      requires Shape() && scope <= |Scopes()|
      ensures below == (ancestor in Chain(Scopes(), rank, scope))
    {
      var id: nat := scope;
      while id != 0
        invariant id <= |Scopes()| && (ancestor in Chain(Scopes(), rank, scope)) == (ancestor in Chain(Scopes(), rank, id))
        decreases RankOf(rank, id)
      {
        if id == ancestor {
          return true;
        }
        var s := ScopeAt(id - 1);
        id := s.parent;
      }
      return false;
    }

    // ---- References -----------------------------------------------------------------------------------------------------

    /** Looks r up: whether its storage is taken, and otherwise which position has its key. */
    method Examine(r: Reference) returns (taken: bool, same: nat)
      requires Valid()
      ensures taken == Taken(Refs(), r)
      ensures !taken ==> same <= |Refs()| && (forall i | 0 <= i < same :: !SameKey(Refs()[i], r)) && (same < |Refs()| ==> SameKey(Refs()[same], r))
    {
      ghost var refs := Refs();
      same := count;
      var i := 0;
      while i < count
        invariant i <= count && (same == count || same < i)
        invariant forall k | 0 <= k < i && k != same :: !SameKey(refs[k], r) && !ReferencesAlias(refs[k], r)
        invariant same < i ==> SameKey(refs[same], r)
      {
        var previous := ReferenceAt(i);
        if SameKey(previous, r) {
          same := i;
        } else if ReferencesAlias(previous, r) {
          assert !SameKey(refs[i], r) && ReferencesAlias(refs[i], r);
          return true, same;
        }
        i := i + 1;
      }
      return false, same;
    }

    /** Whether r's storage already belongs to another destination; if not, r is tracked. */
    method ReferenceSeen(r: Reference) returns (seen: bool)
      requires Valid() && r.scope == currentScope
      modifies this`overflow, this`count, refs
      ensures Valid() && seen == Taken(old(Refs()), r)
      ensures AllFit(old(Refs())) && Fits(r) ==> seen == OwnedElsewhere(old(Refs()), r)
      ensures Now() == if seen then old(Now()) else Tracked(old(Now()), r, true)
    {
      hide Taken, OwnedElsewhere, AllFit, Fits, Sound, Ranked;
      SeenMeans(Refs(), r);
      seen := Admit(r);
    }

    /** Tracks r unless its storage is taken. */
    method Admit(r: Reference) returns (seen: bool)
      requires Valid() && r.scope == currentScope
      modifies this`overflow, this`count, refs
      ensures Valid() && seen == Taken(old(Refs()), r)
      ensures Now() == if seen then old(Now()) else Tracked(old(Now()), r, true)
    {
      hide Chain, Taken;
      var same;
      seen, same := Examine(r);
      if !seen {
        TrackedSound(Now(), r, true);
        UpsertAt(Refs(), r, same);
        Put(r, same);
      }
    }

    /** Stores r at the position of its key, or at the end. */
    method Put(r: Reference, same: nat)
      requires Shape() && same <= |Refs()|
      modifies this`overflow, this`count, refs
      ensures Shape() && Refs() == if same < old(|Refs()|) then old(Refs())[same := r] else old(Refs()) + [r]
    {
      hide Ranked;
      if same < count {
        SetReferenceAt(same, r);
      } else {
        AppendReference(r);
      }
    }

    /** The position of r's key, or the number of references. */
    method FindKey(r: Reference) returns (same: nat)
      requires Valid()
      ensures same <= |Refs()| && (forall i | 0 <= i < same :: !SameKey(Refs()[i], r)) && (same < |Refs()| ==> SameKey(Refs()[same], r))
    {
      same := 0;
      while same < count
        invariant same <= count && forall i | 0 <= i < same :: !SameKey(Refs()[i], r)
      {
        var previous := ReferenceAt(same);
        if SameKey(previous, r) {
          return;
        }
        same := same + 1;
      }
    }

    /** Records the storage a destination holds now. */
    method StoreReference(r: Reference, live: bool)
      requires Valid() && r.scope == currentScope
      modifies this`overflow, this`count, refs
      ensures Valid() && Now() == Tracked(old(Now()), r, live)
    {
      hide Chain, Taken;
      TrackedSound(Now(), r, live);
      var same := FindKey(r);
      UpsertAt(Refs(), r, same);
      if same < count || live {
        Put(r, same);
      }
    }

    // ---- Scopes -----------------------------------------------------------------------------------------------------------

    /** Drops the references at or below the target scope, keeping the others in order. */
    method CompactReferences(target: nat)
      requires Shape() && forall i | 0 <= i < |Refs()| :: Refs()[i].scope <= |Scopes()|
      modifies this`overflow, this`count, refs
      ensures Shape() && Refs() == Outside(old(Refs()), Scopes(), rank, target)
    {
      hide Chain, Outside, Ranked;
      ghost var before, slots := Refs(), Slots();
      ghost var s := Scopes();
      NoneOutside(s, rank, target);
      var write, read := 0, 0;
      assert before[..0] == [];
      while read < count
        invariant write <= read <= count == old(count) && |Slots()| == |slots| && Slots()[read..] == slots[read..]
        invariant Slots()[..write] == Outside(before[..read], s, rank, target)
      {
        var r := ReferenceAt(read);
        assert r == Slots()[read..][0] == slots[read] == before[read];
        assert Slots()[read..][1..] == Slots()[read + 1..] && slots[read..][1..] == slots[read + 1..];
        OutsideMore(before, s, rank, target, read);
        var below := DescendsFrom(r.scope, target);
        if !below {
          MoveDown(Slots(), write, read);
          if write != read {
            SetReferenceAt(write, r);
          }
          write := write + 1;
        }
        read := read + 1;
      }
      assert before[..read] == before;
      BlankFrom(write);
      count := write;
    }

    method BlankFrom(write: nat)
      requires Shape() && write <= count
      modifies this`overflow, refs
      ensures Shape() && |Slots()| == old(|Slots()|) && Slots()[..write] == old(Slots()[..write])
    {
      var index := write;
      while index < count
        invariant write <= index <= count && Shape() && |Slots()| == old(|Slots()|) && Slots()[..write] == old(Slots()[..write])
      {
        ghost var kept := Slots()[..write];
        SetReferenceAt(index, NO_REFERENCE);
        assert Slots()[..write] == kept;
        index := index + 1;
      }
    }

    /** Clears the scopes below the target, in descending id order; a chain cut on the way hides lower-numbered ones. */
    method CutScopes(target: nat)
      requires Shape() && target <= scopeCount
      modifies this`scopeOverflow, scopes
      ensures Shape() && Scopes() == FreedFrom(old(Scopes()), rank, target, 0)
    {
      hide Chain, Path, Freed, FreedFrom;
      ghost var s := Scopes();
      BlankUnfreed(s, rank, target, scopeCount);
      var id: nat := scopeCount;
      while id > 0
        invariant id <= scopeCount && Shape() && Scopes() == FreedFrom(s, rank, target, id)
      {
        FreedStep(s, rank, target, id);
        if id != target {
          var below := DescendsFrom(id, target);
          if below {
            SetScopeAt(id - 1, NO_SCOPE);
          }
        }
        id := id - 1;
      }
    }

    /** Forgets dead slots at the end. */
    method TrimScopes()
      requires Shape()
      modifies this`scopeCount
      ensures Shape() && scopeCount <= old(scopeCount)
    {
      while scopeCount > 0
        invariant Shape() && scopeCount <= old(scopeCount)
      {
        var last := ScopeAt(scopeCount - 1);
        if last.owner != 0 {
          return;
        }
        scopeCount := scopeCount - 1;
      }
    }

    /**
     Clears the target scope: exactly the references at or below it go. The tracker stays valid if and only if the
     target does not strictly enclose the current scope; then every open scope stays open.
     */
    method ClearScope(target: nat)
      requires Valid() && 0 < target <= scopeCount
      modifies this`overflow, this`count, this`scopeOverflow, this`scopeCount, refs, scopes
      ensures Shape() && Now() == Cleared(old(Now()), target)
      ensures Valid() <==> (target in old(Open()) ==> target == currentScope)
    {
      hide Outside, Chain, FreedFrom, UniqueKeys;
      SoundExactly(Now(), target);
      CompactReferences(target);
      CutScopes(target);
      TrimScopes();
    }

    /** Enters the scope of `owner` inside the current one, with no reference of its own. */
    method BeginScope(owner: nat) returns (previous: nat)
      requires Valid() && owner != 0
      modifies this
      modifies refs, scopes
      ensures Valid() && previous == old(currentScope) && Now() == Begun(old(Now()), owner)
    {
      hide Chain, Outside, FreedFrom, UniqueKeys;
      previous := currentScope;
      BegunSound(Now(), owner);
      var index := FindScope(owner, previous);
      if index < scopeCount {
        Reenter(index);
      } else {
        index := FindFree();
        Occupy(index, owner);
      }
    }

    /** The first slot of owner's scope below `parent`, or the number of slots in use. */
    method FindScope(owner: nat, parent: nat) returns (index: nat)
      requires Shape() && owner != 0
      ensures index <= scopeCount && FirstScope(Scopes(), Scope(owner, parent), 0) == if index < scopeCount then index else |Scopes()|
    {
      hide Ranked;
      index := 0;
      while index < scopeCount
        invariant index <= scopeCount && forall j | 0 <= j < index :: Scopes()[j] != Scope(owner, parent)
      {
        var s := ScopeAt(index);
        if s.owner == owner && s.parent == parent {
          return;
        }
        index := index + 1;
      }
    }

    /** The first dead slot; the next new one when all are live. */
    method FindFree() returns (index: nat)
      requires Shape()
      ensures index <= scopeCount && index == FirstOwned(Scopes(), 0, 0)
    {
      hide Ranked;
      index := 0;
      while index < scopeCount
        invariant index <= scopeCount && forall j | 0 <= j < index :: Scopes()[j].owner != 0
      {
        var s := ScopeAt(index);
        if s.owner == 0 {
          FirstIs(Scopes(), 0, index);
          return;
        }
        index := index + 1;
      }
      FirstIs(Scopes(), 0, index);
    }

    /** The slot of the first scope of `owner`, or the number of slots in use. */
    method FindOwner(owner: nat) returns (index: nat)
      requires Shape() && owner != 0
      ensures index <= scopeCount && FirstOwned(Scopes(), owner, 0) == if index < scopeCount then index else |Scopes()|
    {
      hide Ranked;
      index := 0;
      while index < scopeCount
        invariant index <= scopeCount && forall j | 0 <= j < index :: Scopes()[j].owner != owner
      {
        var s := ScopeAt(index);
        if s.owner == owner {
          return;
        }
        index := index + 1;
      }
    }

    /** Enters a scope that exists below the current one, after clearing it. */
    method Reenter(index: nat)
      requires Valid() && index < scopeCount && Scopes()[index].owner != 0 && Scopes()[index].parent == currentScope
      modifies this, refs, scopes
      ensures Valid() && Now() == Cleared(old(Now()), index + 1).(current := index + 1)
    {
      hide Sound, Opened, Cleared, Ranked;
      ReenteredSound(Now(), index);
      NotOpen(Now(), index);
      ClearScope(index + 1);
      currentScope := index + 1;
    }

    /** Takes a dead slot, or the next new one, for a scope below the current one. */
    method Occupy(index: nat, owner: nat)
      requires Valid() && owner != 0 && index <= scopeCount && index == FirstOwned(Scopes(), 0, 0)
      modifies this, refs, scopes
      ensures Valid() && Now() == Occupied(old(Now()), index, owner)
    {
      hide Chain, UniqueKeys, Raised;
      ghost var next := Occupied(Now(), index, owner);
      OccupiedSound(Now(), index, owner);
      if index == scopeCount {
        scopeCount := scopeCount + 1;
      }
      ghost var s := Scopes();
      SetScopeAt(index, Scope(owner, currentScope));
      assert index == |s| ==> s + [Scope(owner, currentScope)] == (s + [NO_SCOPE])[index := Scope(owner, currentScope)];
      currentScope := index + 1;
      rank := next.rank;
    }

    /** Leaves the current scope for the one that encloses it. */
    method EndScope(previous: nat, ghost before: State)
      requires Valid() && Sound(before) && currentScope != 0 && previous == before.current && Open() == [currentScope] + Opened(before)
      modifies this`currentScope
      ensures Valid() && Now() == old(Now()).(current := previous)
    {
      hide Chain, UniqueKeys;
      LeftSound(before, Now());
      currentScope := previous;
    }

    /** Clears the first scope that belongs to `owner`; the tracker stays valid unless that strictly encloses the current one. */
    method ClearOwnerScope(owner: nat)
      requires Valid() && owner != 0
      modifies this`overflow, this`count, this`scopeOverflow, this`scopeCount, refs, scopes
      ensures var index := FirstOwned(old(Scopes()), owner, 0);
              Shape() && Now() == if index == |old(Scopes())| then old(Now()) else Cleared(old(Now()), index + 1)
      ensures var index := FirstOwned(old(Scopes()), owner, 0);
              Valid() <==> (index < |old(Scopes())| && index + 1 in old(Open()) ==> index + 1 == old(currentScope))
    {
      hide Chain, Outside, FreedFrom, UniqueKeys, Sound, Cleared;
      var index := FindOwner(owner);
      if index < scopeCount {
        ClearScope(index + 1);
      }
    }

    /** The whole admission test: pointers and slices must not touch the root destination either. */
    method ReplaceReferenceSeen(r: Reference, wide: bool, dest: nat, destSpan: nat) returns (seen: bool)
      requires Valid() && r.scope == currentScope
      modifies this`overflow, this`count, refs
      ensures Valid() && seen == Claimed(old(Refs()), r, wide, dest, destSpan)
      ensures AllFit(old(Refs())) && Fits(r) && dest + destSpan < TWO_TO_THE_64 ==>
        (seen <==> ((r.kind.PointerRef? || r.kind.SliceRef?) && (wide || StartsInside(dest, destSpan, r))) || OwnedElsewhere(old(Refs()), r))
      ensures Now() == if seen then old(Now()) else Tracked(old(Now()), r, true)
    {
      hide Chain, Taken, UniqueKeys, OwnedElsewhere;
      SeenMeans(Refs(), r);
      if Fits(r) && dest + destSpan < TWO_TO_THE_64 {
        DestinationIsShared(dest, destSpan, r);
      }
      if (r.kind.PointerRef? || r.kind.SliceRef?) && (wide || DestinationAlias(dest, destSpan, r.ptr, r.span)) {
        return true;
      }
      seen := ReferenceSeen(r);
    }

    // ---- Whole runs ---------------------------------------------------------------------------------------------------------

    /**
     Runs any decode: scopes nest as calls do. It goes through exactly when no step is refused, and then leaves
     the tracker in the state the steps come to; up to a refused step every invariant of the tracker is kept.
     */
    method Execute(steps: seq<Step>) returns (ok: bool)
      requires Valid() && NoAliases(Refs())
      modifies this, refs, scopes
      ensures Valid() && NoAliases(Refs()) && Open() == old(Open()) && currentScope == old(currentScope)
      ensures OneOwner(Refs())
      ensures ok == Run(old(Now()), steps).Some? && (ok ==> Now() == Run(old(Now()), steps).value)
      decreases steps, 0
    {
      hide NoAliases, Opened, StepOn, OneOwner, UniqueKeys, Ranked, Chain;
      UnsharedBytes(Refs());
      if steps == [] {
        return true;
      }
      ok := ExecuteStep(steps[0]);
      UnsharedBytes(Refs());
      if ok {
        ok := Execute(steps[1..]);
      }
    }

    method ExecuteStep(step: Step) returns (ok: bool)
      requires Valid() && NoAliases(Refs())
      modifies this, refs, scopes
      ensures Valid() && NoAliases(Refs()) && Open() == old(Open()) && currentScope == old(currentScope)
      ensures ok == StepOn(old(Now()), step).Some? && (ok ==> Now() == StepOn(old(Now()), step).value)
      decreases step, 0
    {
      hide Chain, Taken, NoAliases, UniqueKeys, Outside, FreedFrom;
      match step
      case Scoped(owner, body) =>
        if owner == 0 {
          return false;
        }
        ok := ExecuteScoped(owner, body);
      case See(kind, owner, ptr, span, wide, dest, destSpan) =>
        TrackedSound(Now(), Reference(kind, currentScope, owner, ptr, span), true);
        var seen := ReplaceReferenceSeen(Reference(kind, currentScope, owner, ptr, span), wide, dest, destSpan);
        ok := true;
      case Store(kind, owner, ptr, span, live) =>
        var r := Reference(kind, currentScope, owner, ptr, span);
        TrackedSound(Now(), r, live);
        var taken, same := Examine(r);
        ok := ptr == 0 || !taken;
        if ok {
          StoreReference(r, live);
        }
      case Clear(owner) =>
        if owner == 0 {
          return false;
        }
        ok := ExecuteClear(owner);
    }

    /** One scope and its body; the scope is left even when the body stops early. */
    method ExecuteScoped(owner: nat, body: seq<Step>) returns (ok: bool)
      requires Valid() && NoAliases(Refs()) && owner != 0
      modifies this, refs, scopes
      ensures Valid() && NoAliases(Refs()) && Open() == old(Open()) && currentScope == old(currentScope)
      ensures var step := Scoped(owner, body);
              ok == StepOn(old(Now()), step).Some? && (ok ==> Now() == StepOn(old(Now()), step).value)
      decreases body, 1
    {
      hide Sound, NoAliases, Opened, Begun, Run;
      ghost var before := Now();
      BegunSound(before, owner);
      BegunCurrent(before, owner);
      var previous := BeginScope(owner);
      ok := Execute(body);
      LeftSound(before, Now());
      EndScope(previous, before);
    }

    method ExecuteClear(owner: nat) returns (ok: bool)
      requires Valid() && NoAliases(Refs()) && owner != 0
      modifies this, refs, scopes
      ensures Valid() && NoAliases(Refs()) && Open() == old(Open()) && currentScope == old(currentScope)
      ensures ok == StepOn(old(Now()), Clear(owner)).Some? && (ok ==> Now() == StepOn(old(Now()), Clear(owner)).value)
    {
      hide Sound, Cleared, StepOn, NoAliases, Ranked, Chain;
      ClearStep(Now(), owner);
      SoundScopes(Now());
      var index := FindOwner(owner);
      if index < scopeCount && currentScope != index + 1 {
        var encloses := DescendsFrom(currentScope, index + 1);
        if encloses {
          return false;
        }
      }
      ClearOwnerScope(owner);
      ok := true;
    }
  }
}
