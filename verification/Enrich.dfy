/**
 The pass that stores key hashes in a finished tape, in place.
 */
module Enrich {
  import opened Json
  import opened Tape
  import opened KeyHash
  import opened Lookup
  import opened Routes

  predicate KeySpan(src: bytes, e: Entry) {
    IsKeyEntry(e) ==> e.start + 2 <= e.end <= |src|
  }

  predicate KeySpans(src: bytes, t: seq<Entry>) {
    forall k | 0 <= k < |t| :: KeySpan(src, t[k])
  }

  lemma NotKey(count: nat, kind: nat, flags: nat, e: Entry)
    requires count <= INFO_MAX_COUNT && kind < 8 && flags < 8 && e.info == PackInfo(count, kind, flags)
    ensures IsKeyEntry(e) <==> flags / FLAG_KEY % 2 == 1
    ensures e.Kind() == kind
  {
    UnpackInfo(count, kind, flags, e);
  }

  /** Every key entry of a tape spans a name between two quotes inside the source. */
  lemma {:induction false} KeysSpan(src: bytes, v: Value)
    requires WellFormed(src, v) && Countable(v)
    ensures KeySpans(src, Layout(v))
    decreases v, 1
  {
    match v
    case Scalar(k, start, end, flag) =>
      NotKey(0, KindCode(k), ScalarFlags(k, flag), ScalarEntry(k, start, end, flag));
    case Arr(start, end, items) =>
      NotKey(|items|, KIND_ARRAY, 0, Layout(v)[0]);
      KeysSpanItems(src, items);
    case Obj(start, end, members) =>
      NotKey(|members|, KIND_OBJECT, 0, Layout(v)[0]);
      KeysSpanMembers(src, members);
  }

  lemma {:induction false} KeysSpanItems(src: bytes, items: seq<Value>)
    requires WellFormedItems(src, items) && CountableItems(items)
    ensures KeySpans(src, LayoutItems(items))
    decreases items, 0
  {
    if items != [] {
      KeysSpan(src, items[0]);
      KeysSpanItems(src, items[1..]);
    }
  }

  lemma {:induction false} KeysSpanMember(src: bytes, m: Member)
    requires WellFormedMember(src, m) && CountableMember(m)
    ensures KeySpans(src, LayoutMember(m))
    decreases m, 0
  {
    match m
    case Member(key, value) =>
      KeysSpan(src, value);
  }

  lemma {:induction false} KeysSpanMembers(src: bytes, members: seq<Member>)
    requires WellFormedMembers(src, members) && CountableMembers(members)
    ensures KeySpans(src, LayoutMembers(members))
    decreases members, 0
  {
    if members != [] {
      KeysSpanMember(src, members[0]);
      KeysSpanMembers(src, members[1..]);
    }
  }

  /** Hashes the content of one stored name, from one register load when the source reaches that far. */
  method HashStoredName(m: Mixer, src: bytes, e: Entry) returns (hash: nat)
    requires e.start + 2 <= e.end <= |src|
    ensures hash == HashOf(m, ContentOf(src, e))
  {
    var length := e.end - e.start - 2;
    if length <= 8 && e.start + 9 <= |src| {
      var word := src[e.start + 1..e.start + 9];
      assert word[..length] == src[e.start + 1..e.end - 1];
      hash := HashKeyContentWord(m, word, length);
    } else {
      hash := HashKeyContent(m, src[e.start + 1..e.end - 1]);
    }
  }

  /** Stores the hash of every name and marks every object; what the tape represents stays the same. */
  method EnrichKeyHashes(m: Mixer, src: bytes, entries: array<Entry>, ghost v: Value)
    requires WellFormed(src, v) && Countable(v) && entries[..] == Layout(v)
    modifies entries
    ensures forall k | 0 <= k < entries.Length :: entries[k] == Enriched(m, src, old(entries[k]))
    ensures Node(Some(m), src, entries[..], 0, v)
  {
    hide HashOf, WellFormed, Countable, Layout, ContentOf;
    KeysSpan(src, v);
    ghost var t := entries[..];
    var i := 0;
    while i < entries.Length
      invariant 0 <= i <= entries.Length == |t|
      invariant forall k | 0 <= k < i :: entries[k] == Enriched(m, src, t[k])
      invariant forall k | i <= k < |t| :: entries[k] == t[k]
    {
      var e := entries[i];
      assert KeySpan(src, t[i]);
      if e.Flags() / FLAG_KEY % 2 == 1 {
        var hash := HashStoredName(m, src, e);
        entries[i] := e.(next := hash);
      } else if e.Kind() == KIND_OBJECT && e.Flags() % 2 == 0 {
        entries[i] := e.(info := e.info + FLAGS_UNIT);
      }
      i := i + 1;
    }
  }

  /** A lookup in any node of the tree finds the same member before and after enrichment. */
  method GetEitherWay(m: Mixer, src: bytes, entries: array<Entry>, at: nat, key: bytes, ghost root: Value, ghost v: Value)
    returns (before: Option<nat>, after: Option<nat>)
    requires WellFormed(src, root) && Countable(root) && entries[..] == Layout(root)
    requires Node(None, src, entries[..], at, v)
    modifies entries
    ensures before == after
    ensures v.Obj? ==> AllTokens(src, v.members)
    ensures after == if v.Obj? then ValueEntry(at, v.members, LastNamed(src, v.members, key, |v.members|)) else None
  {
    hide HashOf, WellFormed, Countable, Layout, Enriched;
    before := Get(src, entries[..], at, key, m, false, v);
    ghost var t := entries[..];
    EnrichKeyHashes(m, src, entries, root);
    EnrichedNode(m, src, t, entries[..], at, v);
    after := Get(src, entries[..], at, key, m, true, v);
  }

  lemma EnrichedNode(m: Mixer, src: bytes, t: seq<Entry>, u: seq<Entry>, at: nat, v: Value)
    requires Node(None, src, t, at, v) && |u| == |t| && forall k | 0 <= k < |t| :: u[k] == Enriched(m, src, t[k])
    ensures Node(Some(m), src, u, at, v)
  {
    hide HashOf, WellFormed, Countable, Layout, Enriched;
  }
}
