/**
 Following pointers to the value to decode: the two-speed walk that finds pointer types which never
 reach a value, and the walk through a destination's pointers and interfaces, which allocates through
 nil pointers and still always ends.
 */
module Chains {

  datatype TypeKind = PointerKind | PointerReplaceKind | InterfaceKind | ValueKind

  /** A finite graph of compiled types; `elem` is what a pointer type points to. */
  datatype Types = Types(kinds: seq<TypeKind>, elem: seq<nat>)

  predicate Closed(g: Types) {
    |g.kinds| == |g.elem| && forall t | 0 <= t < |g.elem| :: g.elem[t] < |g.elem|
  }

  predicate IsPointer(g: Types, t: nat)
    requires Closed(g) && t < |g.elem|
  {
    g.kinds[t].PointerKind? || g.kinds[t].PointerReplaceKind?
  }

  /** The k-th type down the chain of pointees. */
  function Nth(g: Types, t: nat, k: nat): (u: nat)
    requires Closed(g) && t < |g.elem|
    ensures u < |g.elem|
  {
    if k == 0 then t else g.elem[Nth(g, t, k - 1)]
  }

  /** The chain of pointees never leaves pointer types. */
  ghost predicate NeverLeaves(g: Types, t: nat)
    requires Closed(g) && t < |g.elem|
  {
    forall k: nat :: IsPointer(g, Nth(g, t, k))
  }

  // ---- Any walk in a finite space comes back -----------------------------------------------------------

  /** Among n + 1 values below n, two are equal. */
  lemma {:induction false} Pigeonhole(xs: seq<nat>, n: nat) returns (i: nat, j: nat)
    requires |xs| > n && forall k | 0 <= k < |xs| :: xs[k] < n
    ensures i < j < |xs| && xs[i] == xs[j]
    decreases n
  {
    var last := |xs| - 1;
    j := last;
    i := 0;
    while i < last && xs[i] != xs[last]
      invariant i <= last && forall k | 0 <= k < i :: xs[k] != xs[last]
    {
      i := i + 1;
    }
    if i == last {
      // no other value equals the last one, so the rest fits below n - 1 once the largest takes its place
      var rest := seq(last, k requires 0 <= k < last => if xs[k] == n - 1 then xs[last] else xs[k]);
      i, j := Pigeonhole(rest, n - 1);
    }
  }

  lemma {:induction false} NthAdd(g: Types, t: nat, j: nat, k: nat)
    requires Closed(g) && t < |g.elem|
    ensures Nth(g, t, j + k) == Nth(g, Nth(g, t, j), k)
  {
    if k > 0 {
      NthAdd(g, t, j, k - 1);
    }
  }

  /** Once two positions agree, all later ones repeat with their distance. */
  lemma {:induction false} Repeats(g: Types, t: nat, i: nat, period: nat, k: nat)
    requires Closed(g) && t < |g.elem| && Nth(g, t, i) == Nth(g, t, i + period) && k >= i
    ensures Nth(g, t, k) == Nth(g, t, k + period)
    decreases k
  {
    if k > i {
      Repeats(g, t, i, period, k - 1);
    }
  }

  lemma {:induction false} RepeatsMany(g: Types, t: nat, i: nat, period: nat, k: nat, m: nat)
    requires Closed(g) && t < |g.elem| && Nth(g, t, i) == Nth(g, t, i + period) && k >= i
    ensures Nth(g, t, k) == Nth(g, t, k + m * period)
  {
    hide Nth, Closed;
    if m > 0 {
      var far := (m - 1) * period;
      assert m * period == far + period;
      RepeatsMany(g, t, i, period, k, m - 1);
      Repeats(g, t, i, period, k + far);
    }
  }

  /** The two walks, one twice as fast, meet after at most as many steps as there are types. */
  lemma Meeting(g: Types, t: nat) returns (m: nat)
    requires Closed(g) && t < |g.elem|
    ensures 0 < m <= |g.elem| && Nth(g, t, m) == Nth(g, t, 2 * m)
  {
    var n := |g.elem|;
    var xs := seq(n + 1, k requires 0 <= k <= n => Nth(g, t, k));
    var i, j := Pigeonhole(xs, n);
    var period := j - i;
    var q := j / period;
    m := q * period;
    assert i < m <= j by {
      Multiple(j, period);
    }
    RepeatsMany(g, t, i, period, m, q);
    assert m + q * period == 2 * m;
  }

  /** The largest multiple of p up to x. */
  lemma Multiple(x: nat, p: nat)
    requires p > 0
    ensures x / p * p <= x < x / p * p + p
  {
  }

  // ---- Pointer types that never reach a value ------------------------------------------------------------

  lemma {:induction false} CycleNeverLeaves(g: Types, t: nat, m: nat, k: nat)
    requires Closed(g) && t < |g.elem| && m > 0 && Nth(g, t, m) == Nth(g, t, 2 * m)
    requires forall j | 0 <= j < 2 * m :: IsPointer(g, Nth(g, t, j))
    ensures IsPointer(g, Nth(g, t, k))
    decreases k
  {
    if k >= 2 * m {
      Repeats(g, t, m, m, k - m);
      CycleNeverLeaves(g, t, m, k - m);
    }
  }

  /** True exactly when the chain of pointees never leaves pointer types. */
  method TypedPointerChainCycle(g: Types, t: nat) returns (cyclic: bool)
    requires Closed(g) && t < |g.elem|
    ensures cyclic <==> NeverLeaves(g, t)
  {
    var slow, fast := t, t;
    ghost var j := 0;
    ghost var meet := Meeting(g, t);
    while IsPointer(g, fast)
      invariant slow == Nth(g, t, j) && fast == Nth(g, t, 2 * j) && j < meet
      invariant forall k | 0 <= k < 2 * j :: IsPointer(g, Nth(g, t, k))
      decreases meet - j
    {
      assert IsPointer(g, Nth(g, t, 2 * j));
      fast := g.elem[fast];
      assert fast == Nth(g, t, 2 * j + 1);
      if !IsPointer(g, fast) {
        return false;
      }
      fast := g.elem[fast];
      slow := g.elem[slow];
      j := j + 1;
      assert fast == Nth(g, t, 2 * j);
      if fast == slow {
        forall k: nat
          ensures IsPointer(g, Nth(g, t, k))
        {
          CycleNeverLeaves(g, t, j, k);
        }
        return true;
      }
    }
    assert !IsPointer(g, Nth(g, t, 2 * j));
    return false;
  }

  /** A chain that leaves pointer types does so within as many steps as there are types. */
  lemma LeavesSoon(g: Types, t: nat) returns (k: nat)
    requires Closed(g) && t < |g.elem| && !NeverLeaves(g, t)
    ensures !IsPointer(g, Nth(g, t, k)) && forall j | 0 <= j < k :: IsPointer(g, Nth(g, t, j))
  {
    var far: nat :| !IsPointer(g, Nth(g, t, far));
    k := 0;
    while IsPointer(g, Nth(g, t, k))
      invariant k <= far && forall j | 0 <= j < k :: IsPointer(g, Nth(g, t, j))
      decreases far - k
    {
      k := k + 1;
    }
  }

  lemma NextLeaves(g: Types, t: nat)
    requires Closed(g) && t < |g.elem| && !NeverLeaves(g, t) && IsPointer(g, t)
    ensures !NeverLeaves(g, g.elem[t])
  {
    var k := LeavesSoon(g, t);
    assert k > 0;
    NthAdd(g, t, 1, k - 1);
    assert Nth(g, t, 1) == g.elem[t];
  }

  // ---- Walking a destination ---------------------------------------------------------------------------------

  /** What a location holds: a pointer, an interface holding a pointer with its dynamic pointee type, or neither. */
  datatype Cell = Pointing(addr: nat) | Dynamic(node: nat, addr: nat)

  /** Where the walk stands: a type and the address of a location of that type. */
  datatype Place = Place(node: nat, addr: nat)

  /** Locations not in the map hold nil; every address in use is below `next`. */
  datatype Memory = Memory(cells: map<nat, Cell>, next: nat)

  ghost predicate Sound(g: Types, m: Memory) {
    forall a | a in m.cells :: a < m.next && m.cells[a].addr < m.next && (m.cells[a].Dynamic? ==> m.cells[a].node < |g.elem|)
  }

  predicate InRange(g: Types, m: Memory, p: Place) {
    p.node < |g.elem| && p.addr < m.next
  }

  /** The walk passes on from p without allocating. */
  predicate Moves(g: Types, m: Memory, p: Place)
    requires Closed(g) && p.node < |g.elem|
  {
    p.addr in m.cells &&
    ((g.kinds[p.node].PointerKind? && m.cells[p.addr].Pointing?) || (g.kinds[p.node].InterfaceKind? && m.cells[p.addr].Dynamic?))
  }

  /** The place after p; a place the walk does not pass on from is its own successor. */
  function Step(g: Types, m: Memory, p: Place): Place
    requires Closed(g) && p.node < |g.elem|
  {
    if !Moves(g, m, p) then p
    else if m.cells[p.addr].Pointing? then Place(g.elem[p.node], m.cells[p.addr].addr)
    else Place(m.cells[p.addr].node, m.cells[p.addr].addr)
  }

  /** The k-th place of the walk over unchanged memory. */
  function Visit(g: Types, m: Memory, p: Place, k: nat): (q: Place)
    requires Closed(g) && Sound(g, m) && InRange(g, m, p)
    ensures InRange(g, m, q)
  {
    if k == 0 then p else Step(g, m, Visit(g, m, p, k - 1))
  }

  /** The walk goes on for ever. */
  ghost predicate Endless(g: Types, m: Memory, p: Place)
    requires Closed(g) && Sound(g, m) && InRange(g, m, p)
  {
    forall k: nat :: Moves(g, m, Visit(g, m, p, k))
  }

  /** The k-th step is reached, goes through an interface, and lands in a pointer type that never reaches a value. */
  ghost predicate EntersTypeCycle(g: Types, m: Memory, p: Place, k: nat)
    requires Closed(g) && Sound(g, m) && InRange(g, m, p)
  {
    (forall j | 0 <= j <= k :: Moves(g, m, Visit(g, m, p, j))) && g.kinds[Visit(g, m, p, k).node].InterfaceKind? &&
    NeverLeaves(g, Visit(g, m, p, k + 1).node)
  }

  /** What makes a destination impossible to decode into. */
  ghost predicate Hopeless(g: Types, m: Memory, p: Place)
    requires Closed(g) && Sound(g, m) && InRange(g, m, p)
  {
    NeverLeaves(g, p.node) || Endless(g, m, p) || exists k: nat :: EntersTypeCycle(g, m, p, k)
  }

  lemma NoWayOut(g: Types, m: Memory, p: Place)
    requires Closed(g) && Sound(g, m) && InRange(g, m, p) && NeverLeaves(g, p.node)
    ensures Hopeless(g, m, p)
  {
  }

  lemma {:induction false} VisitRepeats(g: Types, m: Memory, p: Place, i: nat, period: nat, k: nat)
    requires Closed(g) && Sound(g, m) && InRange(g, m, p) && Visit(g, m, p, i) == Visit(g, m, p, i + period) && k >= i
    ensures Visit(g, m, p, k) == Visit(g, m, p, k + period)
    decreases k
  {
    if k > i {
      VisitRepeats(g, m, p, i, period, k - 1);
    }
  }

  function Encode(g: Types, p: Place): nat
    requires p.node < |g.elem|
  {
    p.node + |g.elem| * p.addr
  }

  lemma EncodeInjective(g: Types, p: Place, q: Place)
    requires p.node < |g.elem| && q.node < |g.elem| && Encode(g, p) == Encode(g, q)
    ensures p == q
  {
    var n := |g.elem|;
    assert (p.addr - q.addr) * n == q.node - p.node;
    if p.addr != q.addr {
      Apart(p.addr - q.addr, n);
    }
  }

  lemma Apart(d: int, n: int)
    requires d != 0 && n > 0
    ensures d * n >= n || d * n <= -n
  {
  }

  lemma EncodeBelow(g: Types, m: Memory, p: Place)
    requires InRange(g, m, p)
    ensures Encode(g, p) < |g.elem| * m.next
  {
    assert |g.elem| * p.addr + |g.elem| == |g.elem| * (p.addr + 1);
    assert |g.elem| * (p.addr + 1) <= |g.elem| * m.next;
  }

  /** The walk over unchanged memory comes back after at most as many steps as there are places. */
  lemma ComesBack(g: Types, m: Memory, p: Place) returns (i: nat, period: nat)
    requires Closed(g) && Sound(g, m) && InRange(g, m, p)
    ensures period > 0 && i + period <= |g.elem| * m.next && Visit(g, m, p, i) == Visit(g, m, p, i + period)
  {
    var n := |g.elem| * m.next;
    var xs := seq(n + 1, k requires 0 <= k <= n => Encode(g, Visit(g, m, p, k)));
    forall k | 0 <= k < |xs|
      ensures xs[k] < n
    {
      EncodeBelow(g, m, Visit(g, m, p, k));
    }
    var j;
    i, j := Pigeonhole(xs, n);
    period := j - i;
    EncodeInjective(g, Visit(g, m, p, i), Visit(g, m, p, j));
  }

  /** A walk that is back where it was, having moved on at every step, goes on for ever. */
  lemma {:induction false} BackAgain(g: Types, m: Memory, p: Place, i: nat, period: nat, k: nat)
    requires Closed(g) && Sound(g, m) && InRange(g, m, p) && period > 0 && Visit(g, m, p, i) == Visit(g, m, p, i + period)
    requires forall j | 0 <= j < i + period :: Moves(g, m, Visit(g, m, p, j))
    ensures Moves(g, m, Visit(g, m, p, k))
    decreases k
  {
    if k >= i + period {
      VisitRepeats(g, m, p, i, period, k - period);
      BackAgain(g, m, p, i, period, k - period);
    }
  }

  datatype ChainResult = HandOff(node: nat, dst: nat) | CyclicChain

  /** The walk passes k places and stops at the next one, a nil pointer included. */
  ghost predicate StopsAt(g: Types, m: Memory, p: Place, k: nat)
    requires Closed(g) && Sound(g, m) && InRange(g, m, p)
  {
    (forall j | 0 <= j < k :: Moves(g, m, Visit(g, m, p, j))) && !Moves(g, m, Visit(g, m, p, k))
  }

  /** From a nil pointer of type t, storage is allocated down to the first type u that is not a plain pointer. */
  ghost predicate Pointee(g: Types, t: nat, u: nat)
    requires Closed(g) && t < |g.elem|
  {
    exists d: nat :: d > 0 && Allocated(g, t, u, d) && !g.kinds[u].PointerKind?
  }

  ghost predicate Allocated(g: Types, t: nat, u: nat, d: nat)
    requires Closed(g) && t < |g.elem|
  {
    u == Nth(g, t, d) && forall j | 0 <= j < d :: g.kinds[Nth(g, t, j)].PointerKind?
  }

  /** Where a walk that stops hands over: the place itself, or the storage below a nil pointer. */
  ghost predicate HandsOver(g: Types, m: Memory, p: Place, r: ChainResult)
    requires Closed(g) && Sound(g, m) && InRange(g, m, p)
  {
    r.HandOff? && exists k: nat :: StopsAt(g, m, p, k) && HandsOverAt(g, m, Visit(g, m, p, k), r)
  }

  ghost predicate HandsOverAt(g: Types, m: Memory, q: Place, r: ChainResult)
    requires Closed(g) && q.node < |g.elem|
  {
    r.HandOff? && if g.kinds[q.node].PointerKind? then Pointee(g, q.node, r.node) && r.dst >= m.next else r == HandOff(q.node, q.addr)
  }

  /** No place so far led through an interface into a pointer type that never reaches a value. */
  ghost predicate NoTypeCycleYet(g: Types, m: Memory, p: Place, k: nat)
    requires Closed(g) && Sound(g, m) && InRange(g, m, p)
  {
    forall j | 0 <= j < k :: !EntersTypeCycle(g, m, p, j)
  }

  lemma NotHopeless(g: Types, m: Memory, p: Place, k: nat)
    requires Closed(g) && Sound(g, m) && InRange(g, m, p) && !NeverLeaves(g, p.node)
    requires StopsAt(g, m, p, k) && NoTypeCycleYet(g, m, p, k)
    ensures !Hopeless(g, m, p)
  {
    forall j: nat
      ensures !EntersTypeCycle(g, m, p, j)
    {
      if j >= k {
        assert !Moves(g, m, Visit(g, m, p, k));
      }
    }
  }

  /** An anchor phase longer than the number of places would have met its anchor again. */
  lemma PhaseEnds(g: Types, m: Memory, p: Place, q: nat, span: nat)
    requires Closed(g) && Sound(g, m) && InRange(g, m, p) && q + 1 == span
    requires forall j | q < j <= q + span :: Visit(g, m, p, j) != Visit(g, m, p, q)
    ensures span <= |g.elem| * m.next
  {
    var i, period := ComesBack(g, m, p);
    if span > |g.elem| * m.next {
      VisitRepeats(g, m, p, i, period, q);
    }
  }

  class ChainDecoder {
    const g: Types
    var cells: map<nat, Cell>
    var next: nat

    ghost function Now(): Memory
      reads this
    {
      Memory(cells, next)
    }

    ghost predicate Valid()
      reads this
    {
      Closed(g) && Sound(g, Now())
    }

    /** Gives the nil pointer at dst fresh storage. */
    method AllocateTypedPointer(dst: nat) returns (pointer: nat)
      requires Valid() && dst < next
      modifies this
      ensures Valid() && pointer == old(next) && next == old(next) + 1 && cells == old(cells)[dst := Pointing(pointer)]
    {
      pointer := next;
      cells := cells[dst := Pointing(pointer)];
      next := next + 1;
    }

    /** Before any allocation: k places passed, and no type cycle met. */
    ghost predicate Passed(m: Memory, p: Place, here: Place, k: nat)
      reads this
      requires Closed(g) && Sound(g, m) && InRange(g, m, p)
    {
      Now() == m && InRange(g, m, here) && here == Visit(g, m, p, k) && !NeverLeaves(g, here.node) &&
      (forall j | 0 <= j < k :: Moves(g, m, Visit(g, m, p, j))) && NoTypeCycleYet(g, m, p, k)
    }

    /** After the walk stopped at a nil pointer: d levels allocated, here a fresh location, the next value type `left` levels down. */
    ghost predicate Allocating(m: Memory, p: Place, here: Place, k: nat, d: nat, left: nat)
      reads this
      requires Closed(g) && Sound(g, m) && InRange(g, m, p)
    {
      var t := Visit(g, m, p, k).node;
      StopsAt(g, m, p, k) && g.kinds[t].PointerKind? && !Hopeless(g, m, p) && here.node < |g.elem| &&
      0 < d <= left && Allocated(g, t, here.node, d) && !g.kinds[Nth(g, t, left)].PointerKind? &&
      m.next <= here.addr < next && here.addr !in cells
    }

    lemma LevelsLeft(m: Memory, p: Place, here: Place, k: nat, d: nat, left: nat)
      requires Closed(g) && Sound(g, m) && InRange(g, m, p) && Allocating(m, p, here, k, d, left)
      ensures d <= left
    {
    }

    ghost predicate Standing(m: Memory, p: Place, here: Place, k: nat, allocating: bool, d: nat, left: nat)
      reads this
      requires Closed(g) && Sound(g, m) && InRange(g, m, p)
    {
      if allocating then Allocating(m, p, here, k, d, left) else Passed(m, p, here, k)
    }

    /** One step from a place: on, or the end of the walk. */
    method Advance(node: nat, dst: nat, ghost m: Memory, ghost p: Place, ghost k: nat, ghost allocating: bool, ghost d: nat, ghost left: nat)
      returns (verdict: Verdict, node': nat, dst': nat, ghost allocating': bool, ghost d': nat, ghost left': nat)
      requires Valid() && Sound(g, m) && InRange(g, m, p) && !NeverLeaves(g, p.node) && dst < next
      requires Standing(m, p, Place(node, dst), k, allocating, d, left)
      modifies this
      ensures Valid() && next >= old(next) && (allocating ==> allocating')
      ensures verdict.Stop? ==> node' == node && dst' == dst && !Hopeless(g, m, p) && HandsOver(g, m, p, HandOff(node, dst))
      ensures verdict.TypeCycle? ==> Hopeless(g, m, p) && Now() == m
      ensures verdict.Go? ==> Standing(m, p, Place(node', dst'), if allocating' then k else k + 1, allocating', d', left') && dst' < next
      ensures verdict.Go? && allocating' ==> dst' >= old(next) && (allocating ==> d' == d + 1 && left' == left)
    {
      node', dst', allocating', d', left' := node, dst, allocating, d, left;
      if g.kinds[node].PointerKind? {
        if dst in cells && cells[dst].Pointing? {
          NextLeaves(g, node);
          Onward(m, p, Place(node, dst), k);
          return Go, g.elem[node], cells[dst].addr, false, d, left;
        }
        if !allocating {
          NotHopeless(g, m, p, k);
          left' := LeavesSoon(g, node);
          d' := 0;
        }
        dst' := AllocateTypedPointer(dst);
        return Go, g.elem[node], dst', true, d' + 1, left';
      } else if g.kinds[node].InterfaceKind? {
        if dst !in cells || !cells[dst].Dynamic? {
          HandOffHere(m, p, Place(node, dst), k, allocating, d, left);
          return Stop, node, dst, allocating, d, left;
        }
        node', dst' := cells[dst].node, cells[dst].addr;
        assert Place(node', dst') == Visit(g, m, p, k + 1);
        var cyclic := TypedPointerChainCycle(g, node');
        if cyclic {
          assert EntersTypeCycle(g, m, p, k);
          return TypeCycle, node, dst, allocating, d, left;
        }
        Onward(m, p, Place(node, dst), k);
        return Go, node', dst', false, d, left;
      } else {
        HandOffHere(m, p, Place(node, dst), k, allocating, d, left);
        return Stop, node, dst, allocating, d, left;
      }
    }

    /** A step that enters no type cycle. */
    lemma Onward(m: Memory, p: Place, here: Place, k: nat)
      requires Valid() && Sound(g, m) && InRange(g, m, p) && Passed(m, p, here, k) && Moves(g, m, here) && !NeverLeaves(g, Step(g, m, here).node)
      ensures Passed(m, p, Step(g, m, here), k + 1)
    {
      assert Visit(g, m, p, k + 1) == Step(g, m, here);
    }

    /** What it means to stop at a place that is no plain pointer. */
    lemma HandOffHere(m: Memory, p: Place, here: Place, k: nat, allocating: bool, d: nat, left: nat)
      requires Valid() && Sound(g, m) && InRange(g, m, p) && here.node < |g.elem| && !g.kinds[here.node].PointerKind? && !NeverLeaves(g, p.node)
      requires Standing(m, p, here, k, allocating, d, left) && (!allocating ==> !Moves(g, m, here))
      ensures !Hopeless(g, m, p) && HandsOver(g, m, p, HandOff(here.node, here.addr))
    {
      if !allocating {
        assert StopsAt(g, m, p, k);
        NotHopeless(g, m, p, k);
      } else {
        assert Pointee(g, Visit(g, m, p, k).node, here.node);
      }
      assert HandsOverAt(g, m, Visit(g, m, p, k), HandOff(here.node, here.addr));
    }

    /** The anchor at position q has not been met again by position k. */
    ghost predicate Anchored(m: Memory, p: Place, anchor: Place, k: nat, q: nat, span: nat)
      reads this
      requires Closed(g) && Sound(g, m) && InRange(g, m, p)
    {
      anchor == Visit(g, m, p, q) && q + 1 == span && q <= k < q + span &&
      (forall j | q < j <= k :: Visit(g, m, p, j) != Visit(g, m, p, q)) && (span == 1 || span <= 2 * (|g.elem| * m.next))
    }

    /** One place later, not the anchor's: the phase goes on, or a new one starts here. */
    lemma NextAnchor(m: Memory, p: Place, anchor: Place, here: Place, k: nat, q: nat, span: nat)
      requires Valid() && Sound(g, m) && InRange(g, m, p) && Anchored(m, p, anchor, k, q, span) && here == Visit(g, m, p, k + 1) && here != anchor
      ensures if k + 1 - q == span then Anchored(m, p, here, k + 1, k + 1, 2 * span) else Anchored(m, p, anchor, k + 1, q, span)
    {
      if k + 1 - q == span {
        PhaseEnds(g, m, p, q, span);
      }
    }

    /** Meeting the anchor again proves the walk endless. */
    lemma MetAgain(m: Memory, p: Place, here: Place, k: nat, q: nat, span: nat)
      requires Valid() && Sound(g, m) && InRange(g, m, p) && Passed(m, p, here, k + 1) && Anchored(m, p, here, k, q, span)
      ensures Hopeless(g, m, p)
    {
      forall j: nat
        ensures Moves(g, m, Visit(g, m, p, j))
      {
        BackAgain(g, m, p, q, k + 1 - q, j);
      }
    }

    /**
     Follows pointers and interfaces to the place to decode into. It always ends, and reports an error exactly when a
     pointer type on the way never reaches a value or the places repeat; memory changes only below a nil pointer.
     */
    method DecodePointerChain(start: nat, target: nat) returns (r: ChainResult)
      requires Valid() && start < |g.elem| && target < next
      modifies this
      ensures Valid()
      ensures r.CyclicChain? <==> Hopeless(g, old(Now()), Place(start, target))
      ensures r.HandOff? ==> HandsOver(g, old(Now()), Place(start, target), r)
      ensures r.CyclicChain? ==> Now() == old(Now())
    {
      hide Allocating, Hopeless, HandsOver;
      var cyclic := TypedPointerChainCycle(g, start);
      if cyclic {
        NoWayOut(g, Now(), Place(start, target));
        return CyclicChain;
      }
      ghost var m, p := Now(), Place(start, target);
      ghost var limit := |g.elem| * next;
      var node: nat, dst: nat := start, target;
      var anchorType: nat, anchorDst: nat := start, target;
      var span: nat, distance: nat := 1, 0;
      ghost var k: nat, q: nat, allocating, d: nat, left: nat := 0, 0, false, 0, 0;
      while true
        invariant Valid() && distance < span && anchorDst < next && dst < next && (allocating ==> d <= left)
        invariant Standing(m, p, Place(node, dst), k, allocating, d, left)
        invariant !allocating ==> Anchored(m, p, Place(anchorType, anchorDst), k, q, span) && k == q + distance
        decreases if allocating then 0 else 1, if allocating then left - d else 4 * limit + 4 - k
      {
        ghost var was, top := allocating, next;
        var verdict;
        verdict, node, dst, allocating, d, left := Advance(node, dst, m, p, k, allocating, d, left);
        if verdict.Stop? {
          return HandOff(node, dst);
        }
        if verdict.TypeCycle? {
          return CyclicChain;
        }
        distance := distance + 1;
        if node == anchorType && dst == anchorDst {
          MetAgain(m, p, Place(node, dst), k, q, span);
          return CyclicChain;
        }
        if !allocating {
          NextAnchor(m, p, Place(anchorType, anchorDst), Place(node, dst), k, q, span);
          k := k + 1;
        }
        if distance == span {
          anchorType, anchorDst := node, dst;
          span, distance, q := 2 * span, 0, k;
        }
        if allocating {
          LevelsLeft(m, p, Place(node, dst), k, d, left);
        }
      }
    }
  }

  datatype Verdict = Go | Stop | TypeCycle
}
