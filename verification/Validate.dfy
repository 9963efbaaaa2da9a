/**
 The recursive validator: it accepts what the grammar accepts and, as a counting pass, sizes the
 storage of the structural index exactly.
 */
module Validate {
  import opened Json
  import opened Tape
  import opened Scan

  /** Array elements anywhere in a tree. */
  function ElementCount(v: Value): nat
    decreases v, 1
  {
    match v
    case Scalar(_, _, _, _) => 0
    case Arr(_, _, items) => |items| + ElementCounts(items)
    case Obj(_, _, members) => ElementCountsOf(members)
  }

  function ElementCounts(items: seq<Value>): nat
    decreases items, 0
  {
    if items == [] then 0 else ElementCount(items[0]) + ElementCounts(items[1..])
  }

  function ElementCountIn(m: Member): nat
    decreases m, 0
  {
    match m case Member(_, value) => ElementCount(value)
  }

  function ElementCountsOf(members: seq<Member>): nat
    decreases members, 0
  {
    if members == [] then 0 else ElementCountIn(members[0]) + ElementCountsOf(members[1..])
  }

  /** Object members anywhere in a tree. */
  function MemberCount(v: Value): nat
    decreases v, 1
  {
    match v
    case Scalar(_, _, _, _) => 0
    case Arr(_, _, items) => MemberCounts(items)
    case Obj(_, _, members) => |members| + MemberCountsOf(members)
  }

  function MemberCounts(items: seq<Value>): nat
    decreases items, 0
  {
    if items == [] then 0 else MemberCount(items[0]) + MemberCounts(items[1..])
  }

  function MemberCountIn(m: Member): nat
    decreases m, 0
  {
    match m case Member(_, value) => MemberCount(value)
  }

  function MemberCountsOf(members: seq<Member>): nat
    decreases members, 0
  {
    if members == [] then 0 else MemberCountIn(members[0]) + MemberCountsOf(members[1..])
  }

  /** One entry for the root, one for each array element, two for each object member. */
  lemma {:induction false} LayoutSize(v: Value)
    ensures |Layout(v)| == 1 + ElementCount(v) + 2 * MemberCount(v)
    decreases v, 1
  {
    match v
    case Scalar(_, _, _, _) =>
    case Arr(_, _, items) => ItemsSize(items);
    case Obj(_, _, members) => MembersSize(members);
  }

  lemma {:induction false} ItemsSize(items: seq<Value>)
    ensures |LayoutItems(items)| == |items| + ElementCounts(items) + 2 * MemberCounts(items)
    decreases items, 0
  {
    if items != [] {
      LayoutSize(items[0]);
      ItemsSize(items[1..]);
    }
  }

  lemma {:induction false} MemberSize(m: Member)
    ensures |LayoutMember(m)| == 2 + ElementCountIn(m) + 2 * MemberCountIn(m)
    decreases m, 0
  {
    match m case Member(_, value) => LayoutSize(value);
  }

  lemma {:induction false} MembersSize(members: seq<Member>)
    ensures |LayoutMembers(members)| == 2 * |members| + ElementCountsOf(members) + 2 * MemberCountsOf(members)
    decreases members, 0
  {
    if members != [] {
      MemberSize(members[0]);
      MembersSize(members[1..]);
    }
  }

  /** `all` ends where its remainder `rest` does, and holds that many more elements and members. */
  predicate ItemsAhead(all: Parsed<seq<Value>>, rest: Parsed<seq<Value>>, elements: int, members: int) {
    all.Good? == rest.Good? &&
    (all.Good? ==> (
      all.end == rest.end &&
      |all.val| + ElementCounts(all.val) == elements + |rest.val| + ElementCounts(rest.val) &&
      MemberCounts(all.val) == members + MemberCounts(rest.val)))
  }

  predicate MembersAhead(all: Parsed<seq<Member>>, rest: Parsed<seq<Member>>, elements: int, members: int) {
    all.Good? == rest.Good? &&
    (all.Good? ==> (
      all.end == rest.end &&
      |all.val| + MemberCountsOf(all.val) == members + |rest.val| + MemberCountsOf(rest.val) &&
      ElementCountsOf(all.val) == elements + ElementCountsOf(rest.val)))
  }

  /** One element, then a comma and the remaining elements, or the closing bracket. */
  lemma ElementsStep(s: bytes, i: nat, d: nat, max: nat)
    requires i <= |s|
    ensures var v := ParseValue(s, i, d, max);
            var r := ParseElements(s, i, d, max);
            if v.Bad? then r.Bad?
            else
              var j := SkipSpace(s, v.end);
              if ByteAt(s, j, COMMA) then
                ItemsAhead(r, ParseElements(s, SkipSpace(s, j + 1), d, max), 1 + ElementCount(v.val), MemberCount(v.val))
              else if ByteAt(s, j, RBRACKET) then
                ItemsAhead(r, Good([], j + 1), 1 + ElementCount(v.val), MemberCount(v.val))
              else r.Bad?
  {
    var v := ParseValue(s, i, d, max);
    if v.Good? {
      var t := ArrayTail(s, v.end, d, max);
      assert t.Good? ==> ([v.val] + t.val)[1..] == t.val;
    }
  }

  /** One member, then a comma and the remaining members, or the closing brace. */
  lemma MembersStep(s: bytes, i: nat, d: nat, max: nat)
    requires i <= |s|
    ensures var k := ParseKey(s, i);
            var r := ParseMembers(s, i, d, max);
            if k.Bad? then r.Bad?
            else
              var v := ParseValue(s, k.end, d, max);
              if v.Bad? then r.Bad?
              else
                var j := SkipSpace(s, v.end);
                if ByteAt(s, j, COMMA) then
                  MembersAhead(r, ParseMembers(s, SkipSpace(s, j + 1), d, max), ElementCount(v.val), 1 + MemberCount(v.val))
                else if ByteAt(s, j, RBRACE) then
                  MembersAhead(r, Good([], j + 1), ElementCount(v.val), 1 + MemberCount(v.val))
                else r.Bad?
  {
    var k := ParseKey(s, i);
    if k.Good? {
      var v := ParseValue(s, k.end, d, max);
      if v.Good? {
        var t := ObjectTail(s, v.end, d, max);
        assert t.Good? ==> ([Member(k.val, v.val)] + t.val)[1..] == t.val;
      }
    }
  }

  class Validator {
    const src: bytes
    const maxDepth: nat
    var i: nat
    var values: nat
    var members: nat

    ghost predicate Valid()
      reads this
    {
      i <= |src|
    }

    constructor (src: bytes, start: nat, maxDepth: nat)
      requires start <= |src|
      ensures this.src == src && i == start && this.maxDepth == maxDepth && values == 0 && members == 0
    {
      this.src, i, this.maxDepth, values, members := src, start, maxDepth, 0, 0;
    }

    method Space()
      requires Valid()
      modifies this`i
      ensures Valid() && i == SkipSpace(src, old(i))
    {
      i := SkipSpaceWords(src, i);
    }

    method Scalar() returns (ok: bool)
      requires i < |src| && src[i] != LBRACE && src[i] != LBRACKET
      modifies this`i
      ensures Valid() && ok == ParseScalar(src, old(i)).Good? && (ok ==> i == ParseScalar(src, old(i)).end)
    {
      if src[i] == QUOTE {
        var end, escaped;
        end, escaped, ok := ScanStringChecked(src, i + 1);
        i := if ok then end else i;
      } else if src[i] == TRUE[0] || src[i] == NULL[0] {
        ok := LiteralAt(src, i, if src[i] == TRUE[0] then TRUE else NULL);
        i := if ok then i + 4 else i;
      } else if src[i] == FALSE[0] {
        ok := LiteralAt(src, i, FALSE);
        i := if ok then i + 5 else i;
      } else {
        var end, integer;
        end, integer, ok := ScanNumberFastTagged(src, i);
        i := if ok then end else i;
      }
    }

    method Value(depth: nat) returns (ok: bool)
      requires Valid() && depth <= maxDepth
      modifies this
      ensures Valid()
      ensures var r := ParseValue(src, old(i), depth, maxDepth);
              ok == r.Good? &&
              (ok ==> i == r.end && values == old(values) + ElementCount(r.val) && members == old(members) + MemberCount(r.val))
      decreases |src| - i, 0
    {
      if i >= |src| {
        return false;
      }
      if src[i] == LBRACKET {
        ok := ArrayValue(depth + 1);
      } else if src[i] == LBRACE {
        ok := ObjectValue(depth + 1);
      } else {
        ok := Scalar();
      }
    }

    method ArrayValue(depth: nat) returns (ok: bool)
      requires i < |src| && src[i] == LBRACKET && 0 < depth <= maxDepth + 1
      modifies this
      ensures Valid()
      ensures var r := ParseValue(src, old(i), depth - 1, maxDepth);
              ok == r.Good? &&
              (ok ==> i == r.end && values == old(values) + ElementCount(r.val) && members == old(members) + MemberCount(r.val))
      decreases |src| - i - 1, 2
    {
      if depth > maxDepth {
        return false;
      }
      i := i + 1;
      Space();
      if i < |src| && src[i] == RBRACKET {
        i := i + 1;
        return true;
      }
      ghost var goal := ParseElements(src, i, depth, maxDepth);
      assert ParseValue(src, old(i), depth - 1, maxDepth) == if goal.Bad? then Bad else Good(Arr(old(i), goal.end, goal.val), goal.end);
      hide ParseElements, ParseValue;
      var more := true;
      ghost var first := i;
      while more
        invariant first <= i <= |src|
        invariant ItemsAhead(goal, if more then ParseElements(src, i, depth, maxDepth) else Good([], i), values - old(values), members - old(members))
        decreases |src| - i
      {
        ok, more := Element(depth);
        if !ok {
          return;
        }
      }
      return true;
    }

    /** One array element and what follows it; `more` after a comma. */
    method Element(depth: nat) returns (ok: bool, more: bool)
      requires Valid() && depth <= maxDepth
      modifies this
      ensures Valid()
      ensures var r := ParseElements(src, old(i), depth, maxDepth);
              if !ok then r.Bad?
              else
                old(i) < i &&
                ItemsAhead(r, if more then ParseElements(src, i, depth, maxDepth) else Good([], i), values - old(values), members - old(members))
      decreases |src| - i, 1
    {
      hide ParseElements, ParseValue;
      ElementsStep(src, i, depth, maxDepth);
      ok := Value(depth);
      if !ok {
        return false, false;
      }
      values := values + 1;
      Space();
      if i >= |src| || (src[i] != COMMA && src[i] != RBRACKET) {
        return false, false;
      }
      more := src[i] == COMMA;
      i := i + 1;
      if more {
        Space();
      }
    }

    method MemberKey() returns (ok: bool)
      requires Valid()
      modifies this`i
      ensures Valid()
      ensures ok == ParseKey(src, old(i)).Good? && (ok ==> i == ParseKey(src, old(i)).end)
    {
      if i >= |src| || src[i] != QUOTE {
        return false;
      }
      var end, escaped;
      end, escaped, ok := ScanStringChecked(src, i + 1);
      if !ok {
        return;
      }
      i := end;
      Space();
      if i >= |src| || src[i] != COLON {
        return false;
      }
      i := i + 1;
      Space();
    }

    method ObjectValue(depth: nat) returns (ok: bool)
      requires i < |src| && src[i] == LBRACE && 0 < depth <= maxDepth + 1
      modifies this
      ensures Valid()
      ensures var r := ParseValue(src, old(i), depth - 1, maxDepth);
              ok == r.Good? &&
              (ok ==> i == r.end && values == old(values) + ElementCount(r.val) && members == old(members) + MemberCount(r.val))
      decreases |src| - i - 1, 2
    {
      if depth > maxDepth {
        return false;
      }
      i := i + 1;
      Space();
      if i < |src| && src[i] == RBRACE {
        i := i + 1;
        return true;
      }
      ghost var goal := ParseMembers(src, i, depth, maxDepth);
      assert ParseValue(src, old(i), depth - 1, maxDepth) == if goal.Bad? then Bad else Good(Obj(old(i), goal.end, goal.val), goal.end);
      hide ParseMembers, ParseValue;
      var more := true;
      ghost var first := i;
      while more
        invariant first <= i <= |src|
        invariant MembersAhead(goal, if more then ParseMembers(src, i, depth, maxDepth) else Good([], i), values - old(values), members - old(members))
        decreases |src| - i
      {
        ok, more := OneMember(depth);
        if !ok {
          return;
        }
      }
      return true;
    }

    /** One object member and what follows it; `more` after a comma. */
    method OneMember(depth: nat) returns (ok: bool, more: bool)
      requires Valid() && depth <= maxDepth
      modifies this
      ensures Valid()
      ensures var r := ParseMembers(src, old(i), depth, maxDepth);
              if !ok then r.Bad?
              else
                old(i) < i &&
                MembersAhead(r, if more then ParseMembers(src, i, depth, maxDepth) else Good([], i), values - old(values), members - old(members))
      decreases |src| - i, 1
    {
      hide ParseMembers, ParseValue;
      MembersStep(src, i, depth, maxDepth);
      ok := MemberKey();
      if !ok {
        return false, false;
      }
      ok := Value(depth);
      if !ok {
        return false, false;
      }
      members := members + 1;
      Space();
      if i >= |src| || (src[i] != COMMA && src[i] != RBRACE) {
        return false, false;
      }
      more := src[i] == COMMA;
      i := i + 1;
      if more {
        Space();
      }
    }
  }
}
