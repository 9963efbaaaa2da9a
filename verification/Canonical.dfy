/**
 The canonical form: compact text with strings re-encoded and every object's members sorted stably by decoded
 key. It is a normal form: idempotent, and equal exactly for documents that differ only in whitespace,
 escape spelling and the order of members with different keys.
 */
module Canonical {
  import opened Json
  import opened Tape
  import opened Strings
  import opened Lookup
  import opened Quoting
  import opened Documents
  import opened Sorting
  import opened Containment
  import opened Utf8
  import opened Index
  import Forms

  const PLAIN := Style(false, false)

  // ---- What a document says -----------------------------------------------------------------------------------

  ghost function Cut(s: bytes, start: nat, end: nat): bytes {
    if start <= end <= |s| then s[start..end] else []
  }

  /** The value as a tree: strings decoded, numbers as spelled. */
  ghost function Meaning(s: bytes, v: Value): Tree {
    match v
    case Scalar(Bool, start, _, _) => BoolValue(ByteAt(s, start, TRUE[0]))
    case Scalar(Number, start, end, _) => NumberText(Cut(s, start, end))
    case Scalar(String, start, end, _) => Text(PLAIN, SpanText(s, start, end))
    case Scalar(_, _, _, _) => NullValue
    case Arr(_, _, items) => List(seq(|items|, i requires 0 <= i < |items| => Meaning(s, items[i])))
    case Obj(_, _, members) => Dict(seq(|members|, i requires 0 <= i < |members| => Documents.Entry(PLAIN, KeyText(s, members[i]), Meaning(s, members[i].value))))
  }

  function EntriesOf(members: seq<Keyed<Tree>>): seq<Documents.Entry> {
    seq(|members|, i requires 0 <= i < |members| => Documents.Entry(PLAIN, members[i].key, members[i].item))
  }

  /** Every object's members in stable key order. */
  ghost function Sorted(t: Tree): Tree {
    match t
    case List(items) => List(seq(|items|, i requires 0 <= i < |items| => Sorted(items[i])))
    case Dict(entries) => Dict(EntriesOf(SortByKey(seq(|entries|, i requires 0 <= i < |entries| => Keyed(entries[i].key, Sorted(entries[i].value))))))
    case _ => t
  }

  /** The members of an object before they are sorted, their values sorted. */
  ghost function Members(entries: seq<Documents.Entry>): seq<Keyed<Tree>> {
    seq(|entries|, i requires 0 <= i < |entries| => Keyed(entries[i].key, Sorted(entries[i].value)))
  }

  ghost function CanonicalForm(src: bytes, max: nat): Option<bytes> {
    var doc := ParseDocument(src, max);
    if doc.None? then None else Some(Render(Sorted(Meaning(src, doc.value))))
  }

  // ---- Trees of documents ---------------------------------------------------------------------------------------

  /** Strings are valid UTF-8 in the plain style, number tokens are numbers, and containers nest at most h deep. */
  ghost predicate Clean(t: Tree, h: nat)
    decreases t, 0
  {
    match t
    case Text(style, text) => style == PLAIN && ValidUtf8(text, 0)
    case NumberText(token) => Decimal.IsNumber(token)
    case List(items) => h > 0 && forall i | 0 <= i < |items| :: Clean(items[i], h - 1)
    case Dict(entries) => h > 0 && forall i | 0 <= i < |entries| :: CleanEntry(entries[i], h - 1)
    case _ => true
  }

  ghost predicate CleanEntry(e: Documents.Entry, h: nat)
    decreases e, 0
  {
    match e case Entry(style, key, value) => style == PLAIN && ValidUtf8(key, 0) && Clean(value, h)
  }

  lemma {:induction false} CleanProper(t: Tree, h: nat)
    requires Clean(t, h)
    ensures Proper(t) && Height(t) <= h
    decreases t, 1
  {
    hide Decimal.IsNumber, ValidUtf8;
    match t
    case List(items) => CleanProperItems(items, h - 1);
    case Dict(entries) => CleanProperEntries(entries, h - 1);
    case _ =>
  }

  lemma {:induction false} CleanProperItems(items: seq<Tree>, h: nat)
    requires forall i | 0 <= i < |items| :: Clean(items[i], h)
    ensures ProperItems(items) && HeightOfItems(items) <= h
    decreases items, 0
  {
    hide Proper, Height;
    if items != [] {
      CleanProper(items[0], h);
      CleanProperItems(items[1..], h);
    }
  }

  lemma {:induction false} CleanProperEntry(e: Documents.Entry, h: nat)
    requires CleanEntry(e, h)
    ensures ProperEntry(e) && HeightOfEntry(e) <= h
    decreases e, 0
  {
    match e case Entry(_, _, value) => CleanProper(value, h);
  }

  lemma {:induction false} CleanProperEntries(entries: seq<Documents.Entry>, h: nat)
    requires forall i | 0 <= i < |entries| :: CleanEntry(entries[i], h)
    ensures ProperEntries(entries) && HeightOfEntries(entries) <= h
    decreases entries, 0
  {
    if entries != [] {
      CleanProperEntry(entries[0], h);
      CleanProperEntries(entries[1..], h);
    }
  }

  // ---- Sorting a clean tree ---------------------------------------------------------------------------------------

  lemma SortedDict(entries: seq<Documents.Entry>)
    ensures Sorted(Dict(entries)) == Dict(EntriesOf(SortByKey(Members(entries))))
  {
    assert Members(entries) == seq(|entries|, i requires 0 <= i < |entries| => Keyed(entries[i].key, Sorted(entries[i].value)));
  }

  lemma {:induction false} CleanSorted(t: Tree, h: nat)
    requires Clean(t, h)
    ensures Clean(Sorted(t), h)
    decreases t
  {
    hide ValidUtf8, Decimal.IsNumber;
    match t
    case List(items) =>
      forall i | 0 <= i < |items|
        ensures Clean(Sorted(items[i]), h - 1)
      {
        CleanSorted(items[i], h - 1);
      }
    case Dict(entries) =>
      var members := Members(entries);
      forall i | 0 <= i < |entries|
        ensures ValidUtf8(entries[i].key, 0) && Clean(Sorted(entries[i].value), h - 1)
      {
        assert CleanEntry(entries[i], h - 1);
        CleanSorted(entries[i].value, h - 1);
      }
      SortedDict(entries);
      var sorted := SortByKey(members);
      forall i | 0 <= i < |sorted|
        ensures CleanEntry(EntriesOf(sorted)[i], h - 1)
      {
        var k := SortedFrom(members, i);
      }
    case _ =>
  }

  /** Sorting twice is sorting once. */
  lemma {:induction false} SortedTwice(t: Tree)
    ensures Sorted(Sorted(t)) == Sorted(t)
    decreases t
  {
    match t
    case List(items) =>
      forall i | 0 <= i < |items|
        ensures Sorted(Sorted(items[i])) == Sorted(items[i])
      {
        SortedTwice(items[i]);
      }
      assert Sorted(Sorted(t)) == Sorted(t);
    case Dict(entries) =>
      var members := Members(entries);
      var sorted := SortByKey(members);
      forall i | 0 <= i < |sorted|
        ensures Sorted(sorted[i].item) == sorted[i].item
      {
        var k := SortedFrom(members, i);
        SortedTwice(entries[k].value);
      }
      SortedDict(entries);
      SortedDict(EntriesOf(sorted));
      assert Members(EntriesOf(sorted)) == sorted;
      Sorting.Sorted(members);
      Sorting.Sorted(sorted);
      OrderedUnique(SortByKey(sorted), sorted);
    case _ =>
  }

  // ---- Documents that say the same ---------------------------------------------------------------------------------

  /** How many members before i have its key. */
  ghost function RankOf(entries: seq<Documents.Entry>, i: nat): nat
    requires i < |entries|
  {
    Earlier(entries, i, entries[i].key)
  }

  /** How many of the first n members have the key. */
  ghost function Earlier(entries: seq<Documents.Entry>, n: nat, key: bytes): nat
    requires n <= |entries|
  {
    if n == 0 then 0 else Earlier(entries, n - 1, key) + if entries[n - 1].key == key then 1 else 0
  }

  ghost predicate SameKey(a: seq<Documents.Entry>, i: nat, b: seq<Documents.Entry>, j: nat)
    requires i < |a| && j < |b|
  {
    a[i].key == b[j].key && RankOf(a, i) == RankOf(b, j)
  }

  /**
   The same value up to the order of members with different keys: every key occurs equally often, and the n-th
   member with a key says the same on both sides.
   */
  ghost predicate Alike(t: Tree, u: Tree)
    decreases t
  {
    match t
    case List(items) => u.List? && |u.items| == |items| && forall i | 0 <= i < |items| :: Alike(items[i], u.items[i])
    case Dict(entries) =>
      u.Dict? && (forall key :: Earlier(entries, |entries|, key) == Earlier(u.entries, |u.entries|, key)) &&
      forall i, j | 0 <= i < |entries| && 0 <= j < |u.entries| && SameKey(entries, i, u.entries, j) :: Alike(entries[i].value, u.entries[j].value)
    case _ => u == t
  }

  lemma {:induction false} UnderPrefix(entries: seq<Documents.Entry>, n: nat, key: bytes)
    requires n <= |entries|
    ensures |Under(Members(entries)[..n], key)| == Earlier(entries, n, key)
    ensures forall i | 0 <= i < n && entries[i].key == key ::
              RankOf(entries, i) < Earlier(entries, n, key) && Under(Members(entries)[..n], key)[RankOf(entries, i)] == Sorted(entries[i].value)
  {
    hide Sorted;
    var ms := Members(entries);
    if n > 0 {
      UnderPrefix(entries, n - 1, key);
      assert ms[..n] == ms[..n - 1] + [ms[n - 1]];
      UnderLast(ms[..n - 1], ms[n - 1], key);
    }
  }

  lemma {:induction false} UnderLast<T>(s: seq<Keyed<T>>, x: Keyed<T>, key: bytes)
    ensures Under(s + [x], key) == Under(s, key) + if x.key == key then [x.item] else []
  {
    if s == [] {
      assert s + [x] == [x];
    } else {
      UnderLast(s[1..], x, key);
      assert (s + [x])[1..] == s[1..] + [x];
    }
  }

  /** The members with a key, by rank. */
  lemma UnderByRank(entries: seq<Documents.Entry>, key: bytes)
    ensures |Under(Members(entries), key)| == Earlier(entries, |entries|, key)
    ensures forall i | 0 <= i < |entries| && entries[i].key == key ::
              RankOf(entries, i) < Earlier(entries, |entries|, key) && Under(Members(entries), key)[RankOf(entries, i)] == Sorted(entries[i].value)
  {
    UnderPrefix(entries, |entries|, key);
    assert Members(entries)[..|entries|] == Members(entries);
  }

  /** Every rank below the count is taken. */
  lemma {:induction false} RankTaken(entries: seq<Documents.Entry>, n: nat, key: bytes, r: nat) returns (i: nat)
    requires n <= |entries| && r < Earlier(entries, n, key)
    ensures i < n && entries[i].key == key && RankOf(entries, i) == r
  {
    if entries[n - 1].key == key && r == Earlier(entries, n - 1, key) {
      i := n - 1;
    } else {
      i := RankTaken(entries, n - 1, key, r);
    }
  }

  lemma EntriesMembers(a: seq<Keyed<Tree>>, b: seq<Keyed<Tree>>)
    requires EntriesOf(a) == EntriesOf(b)
    ensures a == b
  {
    assert |a| == |EntriesOf(a)| == |EntriesOf(b)| == |b|;
    forall i | 0 <= i < |a|
      ensures a[i] == b[i]
    {
      assert EntriesOf(a)[i] == EntriesOf(b)[i];
    }
  }

  lemma {:induction false} SameWhenAlike(t: Tree, u: Tree)
    requires Alike(t, u)
    ensures Sorted(t) == Sorted(u)
    decreases t
  {
    match t
    case List(items) =>
      forall i | 0 <= i < |items|
        ensures Sorted(items[i]) == Sorted(u.items[i])
      {
        SameWhenAlike(items[i], u.items[i]);
      }
    case Dict(entries) =>
      var a, b := Members(entries), Members(u.entries);
      forall key
        ensures Under(a, key) == Under(b, key)
      {
        UnderByRank(entries, key);
        UnderByRank(u.entries, key);
        forall r | 0 <= r < |Under(a, key)|
          ensures Under(a, key)[r] == Under(b, key)[r]
        {
          var i := RankTaken(entries, |entries|, key, r);
          var j := RankTaken(u.entries, |u.entries|, key, r);
          assert SameKey(entries, i, u.entries, j);
          SameWhenAlike(entries[i].value, u.entries[j].value);
        }
      }
      Sorting.Sorted(a);
      Sorting.Sorted(b);
      OrderedUnique(SortByKey(a), SortByKey(b));
      SortedDict(entries);
      SortedDict(u.entries);
    case _ =>
  }

  lemma {:induction false} AlikeWhenSame(t: Tree, u: Tree)
    requires Sorted(t) == Sorted(u)
    ensures Alike(t, u)
    decreases t
  {
    match t
    case List(items) =>
      assert |items| == |Sorted(t).items| == |Sorted(u).items| == |u.items|;
      forall i | 0 <= i < |items|
        ensures Alike(items[i], u.items[i])
      {
        assert Sorted(t).items[i] == Sorted(u).items[i];
        AlikeWhenSame(items[i], u.items[i]);
      }
    case Dict(entries) =>
      SortedDict(entries);
      assert u.Dict?;
      SortedDict(u.entries);
      var a, b := Members(entries), Members(u.entries);
      EntriesMembers(SortByKey(a), SortByKey(b));
      Sorting.Sorted(a);
      Sorting.Sorted(b);
      forall key
        ensures Earlier(entries, |entries|, key) == Earlier(u.entries, |u.entries|, key)
      {
        UnderByRank(entries, key);
        UnderByRank(u.entries, key);
        assert Under(SortByKey(a), key) == Under(a, key) && Under(SortByKey(b), key) == Under(b, key);
      }
      forall i, j | 0 <= i < |entries| && 0 <= j < |u.entries| && SameKey(entries, i, u.entries, j)
        ensures Alike(entries[i].value, u.entries[j].value)
      {
        var key := entries[i].key;
        UnderByRank(entries, key);
        UnderByRank(u.entries, key);
        assert Under(SortByKey(a), key) == Under(a, key) && Under(SortByKey(b), key) == Under(b, key);
        AlikeWhenSame(entries[i].value, u.entries[j].value);
      }
    case _ =>
  }

  /** Sorting forgets exactly the order of members with different keys. */
  lemma SortedAlike(t: Tree, u: Tree)
    ensures Sorted(t) == Sorted(u) <==> Alike(t, u)
  {
    if Sorted(t) == Sorted(u) {
      AlikeWhenSame(t, u);
    }
    if Alike(t, u) {
      SameWhenAlike(t, u);
    }
  }

  // ---- What the grammar accepts means a clean tree ---------------------------------------------------------------

  lemma TextClean(s: bytes, i: nat)
    requires i < |s| && s[i] == QUOTE && ScanString(s, i + 1).StringToken?
    ensures ValidUtf8(SpanText(s, i, ScanString(s, i + 1).end), 0)
  {
    hide ScanString, ValidUtf8, Decode, WellEscaped;
    TokenUtf8(s, i + 1);
    TokenLength(s, i + 1);
  }

  lemma TokenLength(s: bytes, i: nat)
    requires i <= |s| && ScanString(s, i).StringToken?
    ensures i < ScanString(s, i).end
  {
  }

  lemma ScalarClean(s: bytes, i: nat, h: nat)
    requires i < |s| && ParseScalar(s, i).Good?
    ensures Clean(Meaning(s, ParseScalar(s, i).val), h)
  {
    hide ScanString, ScanNumber, ValidUtf8, Decimal.IsNumber, SpanText;
    if s[i] == QUOTE {
      TextClean(s, i);
    }
    NumberCut(s, i);
  }

  lemma {:induction false} ParsedClean(s: bytes, i: nat, d: nat, max: nat)
    requires i <= |s| && d <= max
    ensures var r := ParseValue(s, i, d, max); r.Good? ==> Clean(Meaning(s, r.val), max - d)
    decreases |s| - i, 0
  {
    hide ParseScalar, ValidUtf8, Decimal.IsNumber, SpanText;
    var r := ParseValue(s, i, d, max);
    if r.Good? {
      if s[i] != LBRACE && s[i] != LBRACKET {
        ScalarClean(s, i, max - d);
      } else {
        var j := SkipSpace(s, i + 1);
        if s[i] == LBRACKET && !ByteAt(s, j, RBRACKET) {
          ElementsClean(s, j, d + 1, max);
        } else if s[i] == LBRACE && !ByteAt(s, j, RBRACE) {
          MembersClean(s, j, d + 1, max);
        }
      }
    }
  }

  ghost predicate CleanItems(s: bytes, items: seq<Value>, h: nat) {
    forall k | 0 <= k < |items| :: Clean(Meaning(s, items[k]), h)
  }

  ghost predicate CleanMembers(s: bytes, members: seq<Member>, h: nat) {
    forall k | 0 <= k < |members| :: ValidUtf8(KeyText(s, members[k]), 0) && Clean(Meaning(s, members[k].value), h)
  }

  lemma {:induction false} ElementsClean(s: bytes, i: nat, d: nat, max: nat)
    requires i <= |s| && d <= max
    ensures var r := ParseElements(s, i, d, max); r.Good? ==> CleanItems(s, r.val, max - d)
    decreases |s| - i, 1
  {
    hide Clean, Meaning;
    var v := ParseValue(s, i, d, max);
    if v.Good? {
      ParsedClean(s, i, d, max);
      var tail := ArrayTail(s, v.end, d, max);
      if tail.Good? && tail.val != [] {
        ElementsClean(s, SkipSpace(s, SkipSpace(s, v.end) + 1), d, max);
        assert CleanItems(s, tail.val, max - d);
      }
    }
  }

  lemma KeyClean(s: bytes, i: nat)
    requires i <= |s| && ParseKey(s, i).Good?
    ensures ValidUtf8(SpanText(s, ParseKey(s, i).val.start, ParseKey(s, i).val.end), 0)
  {
    hide ScanString, ValidUtf8, SpanText;
    TextClean(s, i);
  }

  lemma {:induction false} MembersClean(s: bytes, i: nat, d: nat, max: nat)
    requires i <= |s| && d <= max
    ensures var r := ParseMembers(s, i, d, max); r.Good? ==> CleanMembers(s, r.val, max - d)
    decreases |s| - i, 1
  {
    hide ParseKey, Clean, Meaning, ValidUtf8, SpanText;
    var k := ParseKey(s, i);
    if k.Good? {
      var v := ParseValue(s, k.end, d, max);
      if v.Good? {
        KeyClean(s, i);
        ParsedClean(s, k.end, d, max);
        var tail := ObjectTail(s, v.end, d, max);
        if tail.Good? && tail.val != [] {
          MembersClean(s, SkipSpace(s, SkipSpace(s, v.end) + 1), d, max);
          assert CleanMembers(s, tail.val, max - d);
        }
      }
    }
  }

  // ---- What a spelled tree means ------------------------------------------------------------------------------------

  lemma {:induction false} SpelledItem(s: bytes, vs: seq<Value>, items: seq<Tree>, k: nat)
    requires SpellsItems(s, vs, items) && k < |items|
    ensures |vs| == |items| && Spells(s, vs[k], items[k])
  {
    hide Spells;
    if k > 0 {
      SpelledItem(s, vs[1..], items[1..], k - 1);
    }
  }

  lemma {:induction false} SpelledEntry(s: bytes, ms: seq<Member>, entries: seq<Documents.Entry>, k: nat)
    requires SpellsEntries(s, ms, entries) && k < |entries|
    ensures |ms| == |entries| && SpellsEntry(s, ms[k], entries[k])
  {
    hide SpellsEntry;
    if k > 0 {
      SpelledEntry(s, ms[1..], entries[1..], k - 1);
    }
  }

  lemma ValidText(text: bytes)
    requires ValidUtf8(text, 0)
    ensures Repaired(text, 0) == text
  {
    RepairedValid(text, 0);
    assert text[0..] == text;
  }

  lemma {:induction false} SpelledMeaning(s: bytes, v: Value, t: Tree, h: nat)
    requires Spells(s, v, t) && Clean(t, h)
    ensures Meaning(s, v) == t
    decreases t, 0
  {
    hide ValidUtf8, Repaired, Decode, WellEscaped, Decimal.IsNumber;
    match t
    case Text(_, text) => ValidText(text);
    case NumberText(_) =>
    case BoolValue(b) => assert s[v.start..v.end][0] == s[v.start];
    case NullValue =>
    case List(items) =>
      forall k | 0 <= k < |items|
        ensures |v.items| == |items| && Meaning(s, v.items[k]) == items[k]
      {
        SpelledItem(s, v.items, items, k);
        SpelledMeaning(s, v.items[k], items[k], h - 1);
      }
      assert Meaning(s, v).items == items;
    case Dict(entries) =>
      forall k | 0 <= k < |entries|
        ensures |v.members| == |entries| && Meaning(s, v).entries[k] == entries[k]
      {
        SpelledEntry(s, v.members, entries, k);
        EntryMeaning(s, v.members[k], entries[k], h - 1);
      }
      assert Meaning(s, v).entries == entries;
  }

  lemma {:induction false} EntryMeaning(s: bytes, m: Member, e: Documents.Entry, h: nat)
    requires SpellsEntry(s, m, e) && CleanEntry(e, h)
    ensures Documents.Entry(PLAIN, KeyText(s, m), Meaning(s, m.value)) == e
    decreases e, 0
  {
    hide ValidUtf8, Repaired, Decode, WellEscaped, Meaning;
    match e
    case Entry(_, key, value) =>
      ValidText(key);
      SpelledMeaning(s, m.value, value, h);
  }

  /** The rendered text of a clean tree means that tree. */
  lemma RenderedMeaning(t: Tree, h: nat)
    requires Clean(t, h)
    ensures var doc := ParseDocument(Render(t), h); doc.Some? && Meaning(Render(t), doc.value) == t
  {
    hide Spells, Clean, Render, Meaning, Proper, Height;
    CleanProper(t, h);
    DocumentReads(t, h);
    SpelledMeaning(Render(t), ParseDocument(Render(t), h).value, t, h);
  }

  // ---- A normal form -----------------------------------------------------------------------------------------------------

  lemma CanonicalTree(src: bytes, max: nat)
    requires ParseDocument(src, max).Some?
    ensures var t := Sorted(Meaning(src, ParseDocument(src, max).value)); Clean(t, max) && CanonicalForm(src, max) == Some(Render(t))
  {
    hide Clean, Sorted, Meaning, ParseValue;
    ParsedClean(src, SkipSpace(src, 0), 0, max);
    CleanSorted(Meaning(src, ParseDocument(src, max).value), max);
  }

  /** The canonical form is a document whose canonical form is itself. */
  lemma CanonicalIdempotent(src: bytes, max: nat)
    requires ParseDocument(src, max).Some?
    ensures CanonicalForm(src, max).Some? && CanonicalForm(CanonicalForm(src, max).value, max) == CanonicalForm(src, max)
  {
    hide Clean, Sorted, Meaning, ParseDocument, Render;
    CanonicalTree(src, max);
    var t := Meaning(src, ParseDocument(src, max).value);
    RenderedMeaning(Sorted(t), max);
    SortedTwice(t);
  }

  /** Canonical strings write every printable ASCII character but the quote and the backslash as it is. */
  lemma PlainCharacters(s: bytes, i: nat)
    requires i < |s| && 0x20 <= s[i] < 0x80 && s[i] != 0x22 && s[i] != 0x5C
    ensures UnitText(PLAIN, s, i) == [s[i]]
  {
    WrittenToTheLetter(PLAIN, s, i);
  }

  /** In every object of the tree the keys ascend byte by byte. */
  ghost predicate Ascending(t: Tree)
    decreases t
  {
    match t
    case List(items) => forall i | 0 <= i < |items| :: Ascending(items[i])
    case Dict(entries) =>
      (forall i | 0 <= i < |entries| :: Ascending(entries[i].value)) &&
      forall i, j | 0 <= i < j < |entries| :: Ascends(entries[i].key, entries[j].key)
    case _ => true
  }

  lemma {:induction false} SortedAscends(t: Tree)
    ensures Ascending(Sorted(t))
    decreases t
  {
    match t
    case List(items) =>
      forall i | 0 <= i < |items|
        ensures Ascending(Sorted(items[i]))
      {
        SortedAscends(items[i]);
      }
    case Dict(entries) =>
      var members := Members(entries);
      SortedDict(entries);
      KeysAscend(members);
      var sorted := SortByKey(members);
      forall i | 0 <= i < |sorted|
        ensures Ascending(EntriesOf(sorted)[i].value)
      {
        var k := SortedFrom(members, i);
        SortedAscends(entries[k].value);
      }
    case _ =>
  }

  /**
   The canonical form is a document that says what the source says, members with equal keys in their order, and
   whose keys ascend in every object.
   */
  lemma CanonicalAscends(src: bytes, max: nat)
    requires ParseDocument(src, max).Some?
    ensures CanonicalForm(src, max).Some?
    ensures var out := CanonicalForm(src, max).value;
            var doc := ParseDocument(out, max);
            doc.Some? && Ascending(Meaning(out, doc.value)) && Alike(Meaning(src, ParseDocument(src, max).value), Meaning(out, doc.value))
  {
    hide Clean, Sorted, Meaning, ParseDocument, Render, Ascending, Alike;
    CanonicalTree(src, max);
    var t := Meaning(src, ParseDocument(src, max).value);
    RenderedMeaning(Sorted(t), max);
    SortedAscends(t);
    SortedTwice(t);
    SortedAlike(t, Sorted(t));
  }

  /** The canonical form holds no whitespace outside its tokens. */
  lemma CanonicalCompact(src: bytes, max: nat) returns (f: Forms.Form)
    requires ParseDocument(src, max).Some?
    ensures Forms.Correct(f) && Forms.Compact(f) && CanonicalForm(src, max) == Some(Forms.Spelled(f))
  {
    hide Clean, Sorted, Meaning, ParseDocument, Render, Proper, Height, Forms.Correct, Forms.Compact, Forms.Spelled;
    CanonicalTree(src, max);
    var t := Sorted(Meaning(src, ParseDocument(src, max).value));
    CleanProper(t, max);
    f := Forms.CompactForm(t);
  }

  lemma SameText(t: Tree, u: Tree, h: nat)
    requires Clean(t, h) && Clean(u, h)
    ensures Render(t) == Render(u) <==> t == u
  {
    hide Clean, Meaning, ParseDocument, Render;
    RenderedMeaning(t, h);
    RenderedMeaning(u, h);
  }

  /** Canonical forms are equal exactly when the documents say the same up to the order of members with different keys. */
  lemma CanonicalEqual(a: bytes, b: bytes, max: nat)
    requires ParseDocument(a, max).Some? && ParseDocument(b, max).Some?
    ensures CanonicalForm(a, max) == CanonicalForm(b, max) <==>
            Alike(Meaning(a, ParseDocument(a, max).value), Meaning(b, ParseDocument(b, max).value))
  {
    hide Clean, Sorted, Meaning, ParseDocument, Render, Alike;
    CanonicalTree(a, max);
    CanonicalTree(b, max);
    var t, u := Meaning(a, ParseDocument(a, max).value), Meaning(b, ParseDocument(b, max).value);
    SameText(Sorted(t), Sorted(u), max);
    SortedAlike(t, u);
  }

  // ---- Writing the form ----------------------------------------------------------------------------------------------------

  /** The decoded text of a string's entry. */
  method NodeText(s: bytes, e: Tape.Entry) returns (text: bytes)
    requires IsToken(s, e.start, e.end, IsEscaped(e))
    ensures text == SpanText(s, e.start, e.end)
  {
    hide Decode, WellEscaped;
    if !IsEscaped(e) {
      text := s[e.start + 1..e.end - 1];
    } else {
      text := DecodeText(s, e.start + 1, e.end - 1);
    }
  }

  method AppendScalar(dst: bytes, d: Doc, at: nat, ghost v: Value) returns (out: bytes)
    requires Stands(d, at, v) && v.Scalar?
    ensures out == dst + Render(Sorted(Meaning(d.src, v)))
  {
    hide Stands, IsToken, Decimal.IsNumber, Layout, SpanText, KindCode, Quoted;
    EntryOf(d, at, v);
    SameKinds(KindOf(v), v.kind);
    var e := d.entries[at];
    if e.Kind() == KIND_BOOL {
      out := dst + if ByteAt(d.src, e.start, TRUE[0]) then TRUE else FALSE;
    } else if e.Kind() == KIND_NUMBER {
      out := dst + d.src[e.start..e.end];
    } else if e.Kind() == KIND_STRING {
      var text := NodeText(d.src, e);
      out := AppendJSONString(dst, text, PLAIN);
    } else {
      out := dst + NULL;
    }
  }

  /** What is still to be written of a list of which i elements are out. */
  ghost function ItemsLeft(items: seq<Tree>, i: nat): bytes
    requires i <= |items|
  {
    if i == |items| then [] else (if i > 0 then [COMMA] else []) + RenderItems(items[i..])
  }

  ghost function EntriesLeft(entries: seq<Documents.Entry>, i: nat): bytes
    requires i <= |entries|
  {
    if i == |entries| then [] else (if i > 0 then [COMMA] else []) + RenderEntries(entries[i..])
  }

  lemma ItemWritten(out: bytes, items: seq<Tree>, i: nat)
    requires i < |items|
    ensures out + ItemsLeft(items, i) == out + (if i > 0 then [COMMA] else []) + Render(items[i]) + ItemsLeft(items, i + 1)
  {
    hide Render;
    var rest, comma := items[i..], if i > 0 then [COMMA] else [];
    assert rest[1..] == items[i + 1..];
    Join(out, comma, Render(items[i]), ItemsLeft(items, i + 1));
    assert |rest| > 1 ==> Render(rest[0]) + [COMMA] + RenderItems(rest[1..]) == Render(rest[0]) + ([COMMA] + RenderItems(rest[1..]));
    assert Render(rest[0]) + [] == Render(rest[0]);
  }

  lemma EntryWritten(out: bytes, entries: seq<Documents.Entry>, i: nat)
    requires i < |entries|
    ensures out + EntriesLeft(entries, i) == out + (if i > 0 then [COMMA] else []) + RenderEntry(entries[i]) + EntriesLeft(entries, i + 1)
  {
    hide RenderEntry;
    var rest, comma := entries[i..], if i > 0 then [COMMA] else [];
    assert rest[1..] == entries[i + 1..];
    Join(out, comma, RenderEntry(entries[i]), EntriesLeft(entries, i + 1));
    assert |rest| > 1 ==> RenderEntry(rest[0]) + [COMMA] + RenderEntries(rest[1..]) == RenderEntry(rest[0]) + ([COMMA] + RenderEntries(rest[1..]));
    assert RenderEntry(rest[0]) + [] == RenderEntry(rest[0]);
  }

  lemma Join(a: bytes, b: bytes, c: bytes, d: bytes)
    ensures a + (b + (c + d)) == a + b + c + d
  {
  }

  method AppendArray(dst: bytes, d: Doc, at: nat, ghost v: Value) returns (out: bytes)
    requires Stands(d, at, v) && v.Arr?
    ensures out == dst + Render(Sorted(Meaning(d.src, v)))
    decreases v, 0
  {
    hide Stands, Layout, ItemAt, RenderItems, Meaning, Sorted, Render, ItemsLeft;
    EntryOf(d, at, v);
    FirstPlaces(at, v.items, []);
    ListMeaning(d.src, v);
    ghost var items := Sorted(Meaning(d.src, v)).items;
    ghost var goal := dst + [LBRACKET] + ItemsLeft(items, 0);
    out := dst + [LBRACKET];
    var p: nat, i: nat := at + 1, 0;
    while i < d.entries[at].Count()
      invariant i <= |v.items| == |items| && p == ItemAt(at, v.items, i)
      invariant goal == out + ItemsLeft(items, i)
    {
      ItemStands(d, at, v, i);
      EntryOf(d, p, v.items[i]);
      ItemWritten(out, items, i);
      ItemMeaning(d.src, v, i);
      if i > 0 {
        out := out + [COMMA];
      }
      out := AppendCanonical(out, d, p, v.items[i]);
      p := p + d.entries[p].next;
      i := i + 1;
    }
    Closed(dst, items, out);
    out := out + [RBRACKET];
  }

  lemma ListMeaning(s: bytes, v: Value)
    requires v.Arr?
    ensures Sorted(Meaning(s, v)).List? && |Sorted(Meaning(s, v)).items| == |v.items|
  {
  }

  lemma ItemMeaning(s: bytes, v: Value, i: nat)
    requires v.Arr? && i < |v.items|
    ensures Sorted(Meaning(s, v)).List? && |Sorted(Meaning(s, v)).items| == |v.items|
    ensures Sorted(Meaning(s, v)).items[i] == Sorted(Meaning(s, v.items[i]))
  {
  }

  lemma Closed(dst: bytes, items: seq<Tree>, out: bytes)
    requires dst + [LBRACKET] + ItemsLeft(items, 0) == out + ItemsLeft(items, |items|)
    ensures dst + Render(List(items)) == out + [RBRACKET]
  {
    hide RenderItems;
    NothingRendered();
    assert items[0..] == items;
    assert ItemsLeft(items, 0) == RenderItems(items);
    assert dst + ([LBRACKET] + RenderItems(items) + [RBRACKET]) == dst + [LBRACKET] + RenderItems(items) + [RBRACKET];
    assert out + [] == out;
  }

  lemma ClosedDict(dst: bytes, entries: seq<Documents.Entry>, out: bytes)
    requires dst + [LBRACE] + EntriesLeft(entries, 0) == out + EntriesLeft(entries, |entries|)
    ensures dst + Render(Dict(entries)) == out + [RBRACE]
  {
    hide RenderEntries;
    NothingRendered();
    assert entries[0..] == entries;
    assert EntriesLeft(entries, 0) == RenderEntries(entries);
    assert dst + ([LBRACE] + RenderEntries(entries) + [RBRACE]) == dst + [LBRACE] + RenderEntries(entries) + [RBRACE];
    assert out + [] == out;
  }

  ghost function KeyedValues(s: bytes, members: seq<Member>): seq<Keyed<Value>> {
    seq(|members|, i requires 0 <= i < |members| => Keyed(KeyText(s, members[i]), members[i].value))
  }

  /** Every member's decoded key, with the entry of its value. */
  method MembersOf(d: Doc, at: nat, ghost v: Value) returns (members: seq<Keyed<nat>>)
    requires Stands(d, at, v) && v.Obj?
    ensures Parallel(members, KeyedValues(d.src, v.members), (p, x) => Stands(d, p, x))
  {
    hide Stands, Layout, KeyAt, SpanText, KeyText, WellFormedMember, IsToken;
    EntryOf(d, at, v);
    FirstPlaces(at, [], v.members);
    members := [];
    var p: nat, i: nat := at + 1, 0;
    while i < d.entries[at].Count()
      invariant i <= |v.members| && p == KeyAt(at, v.members, i) && |members| == i
      invariant forall k | 0 <= k < i :: members[k].key == KeyText(d.src, v.members[k]) && Stands(d, members[k].item, v.members[k].value)
    {
      MemberStands(d, at, v, i);
      EntryOf(d, p + 1, v.members[i].value);
      var key := NodeText(d.src, d.entries[p]);
      members := members + [Keyed(key, p + 1)];
      p := p + 1 + d.entries[p + 1].next;
      i := i + 1;
    }
  }

  lemma ObjectMeaning(s: bytes, v: Value)
    requires v.Obj?
    ensures Meaning(s, v).Dict? && Sorted(Meaning(s, v)) == Dict(EntriesOf(SortByKey(Members(Meaning(s, v).entries))))
    ensures Parallel(KeyedValues(s, v.members), Members(Meaning(s, v).entries), (x, t) => t == Sorted(Meaning(s, x)))
  {
    SortedDict(Meaning(s, v).entries);
  }

  /** The sorted members, the values they stand for, and the entries they are written as go together. */
  lemma SortedTogether(d: Doc, v: Value, members: seq<Keyed<nat>>)
    requires v.Obj? && Parallel(members, KeyedValues(d.src, v.members), (p, x) => Stands(d, p, x))
    ensures Sorted(Meaning(d.src, v)).Dict?
    ensures var s, values, entries := SortByKey(members), SortByKey(KeyedValues(d.src, v.members)), Sorted(Meaning(d.src, v)).entries;
            |s| == |values| == |entries| &&
            forall i | 0 <= i < |s| ::
              Stands(d, s[i].item, values[i].item) && entries[i] == Documents.Entry(PLAIN, s[i].key, Sorted(Meaning(d.src, values[i].item)))
  {
    hide Stands, Meaning, Sorted, SortByKey;
    ObjectMeaning(d.src, v);
    SortParallel(members, KeyedValues(d.src, v.members), (p, x) => Stands(d, p, x));
    SortParallel(KeyedValues(d.src, v.members), Members(Meaning(d.src, v).entries), (x, t) => t == Sorted(Meaning(d.src, x)));
  }

  lemma ValueInside(s: bytes, v: Value, i: nat)
    requires v.Obj? && i < |SortByKey(KeyedValues(s, v.members))|
    ensures SortByKey(KeyedValues(s, v.members))[i].item < v
  {
    var k := SortedFrom(KeyedValues(s, v.members), i);
    assert KeyedValues(s, v.members)[k].item == v.members[k].value;
  }

  method AppendObject(dst: bytes, d: Doc, at: nat, ghost v: Value) returns (out: bytes)
    requires Stands(d, at, v) && v.Obj?
    ensures out == dst + Render(Sorted(Meaning(d.src, v)))
    decreases v, 0
  {
    hide Stands, RenderEntries, SortByKey, Sorted, Meaning, EntriesLeft, Render, Quoted, KeyedValues;
    var members := MembersOf(d, at, v);
    SortedTogether(d, v, members);
    ghost var values, entries := SortByKey(KeyedValues(d.src, v.members)), Sorted(Meaning(d.src, v)).entries;
    members := SortByKey(members);
    ghost var goal := dst + [LBRACE] + EntriesLeft(entries, 0);
    out := dst + [LBRACE];
    var i: nat := 0;
    while i < |members|
      invariant i <= |members| && goal == out + EntriesLeft(entries, i)
    {
      EntryWritten(out, entries, i);
      ValueInside(d.src, v, i);
      if i > 0 {
        out := out + [COMMA];
      }
      ghost var before := out;
      out := AppendJSONString(out, members[i].key, PLAIN);
      out := out + [COLON];
      out := AppendCanonical(out, d, members[i].item, values[i].item);
      OneEntry(before, members[i].key, Sorted(Meaning(d.src, values[i].item)));
      i := i + 1;
    }
    ClosedDict(dst, entries, out);
    out := out + [RBRACE];
  }

  lemma OneEntry(a: bytes, key: bytes, t: Tree)
    ensures a + RenderEntry(Documents.Entry(PLAIN, key, t)) == a + Quoted(PLAIN, key) + [COLON] + Render(t)
  {
    hide Quoted, Render;
    var q := Quoted(PLAIN, key);
    assert a + (q + [COLON] + Render(t)) == a + q + [COLON] + Render(t);
  }

  /** Appends the canonical text of the value at the entry. */
  method AppendCanonical(dst: bytes, d: Doc, at: nat, ghost v: Value) returns (out: bytes)
    requires Stands(d, at, v)
    ensures out == dst + Render(Sorted(Meaning(d.src, v)))
    decreases v, 1
  {
    hide Stands, Sorted, Meaning, Render, KindCode;
    EntryOf(d, at, v);
    SameKinds(KindOf(v), KindOf(v));
    if d.entries[at].Kind() == KIND_ARRAY {
      out := AppendArray(dst, d, at, v);
    } else if d.entries[at].Kind() == KIND_OBJECT {
      out := AppendObject(dst, d, at, v);
    } else {
      out := AppendScalar(dst, d, at, v);
    }
  }

  /** Indexes a document into storage that doubles until the tape fits. */
  method ParseOptions(src: bytes, maxDepth: int) returns (entries: seq<Tape.Entry>, ok: bool)
    ensures var doc := ParseDocument(src, MaxDepthOrDefault(maxDepth));
            (ok <==> Indexable(src, doc)) && (ok ==> entries == Layout(doc.value))
  {
    hide ParseDocument, Layout, Countable;
    ghost var doc := ParseDocument(src, MaxDepthOrDefault(maxDepth));
    if doc.Some? {
      HalfDocument(src, MaxDepthOrDefault(maxDepth));
    }
    var estimate := |src| / 8 + 8;
    entries := [];
    while true
      invariant estimate >= 8
      invariant Indexable(src, doc) ==> estimate < TWO_TO_THE_32
      decreases TWO_TO_THE_32 - estimate
    {
      var storage := new Tape.Entry[estimate](_ => Tape.Entry(0, 0, 0, 0));
      var err, n := BuildIndex(src, storage, maxDepth);
      if err.NoError? {
        return storage[..n], true;
      }
      if !err.IndexFull? {
        return [], false;
      }
      estimate := 2 * estimate;
    }
  }

  /** The canonical form of a document, appended to dst; dst as it was when the document is not valid or too large to index. */
  method AppendCanonicalize(dst: bytes, src: bytes) returns (out: bytes, ok: bool)
    ensures ok <==> Indexable(src, ParseDocument(src, DEFAULT_MAX_DEPTH))
    ensures ok ==> CanonicalForm(src, DEFAULT_MAX_DEPTH).Some? && out == dst + CanonicalForm(src, DEFAULT_MAX_DEPTH).value
    ensures ok ==> |dst| <= |out|
    ensures ok ==>
      var doc := ParseDocument(out[|dst|..], DEFAULT_MAX_DEPTH);
      doc.Some? && Ascending(Meaning(out[|dst|..], doc.value)) &&
      Alike(Meaning(src, ParseDocument(src, DEFAULT_MAX_DEPTH).value), Meaning(out[|dst|..], doc.value))
    ensures !ok ==> out == dst
  {
    hide ParseValue, Layout, WellFormed, Numeric, Countable, Render, Sorted, Meaning;
    var entries, good := ParseOptions(src, 0);
    if !good {
      return dst, false;
    }
    ghost var v := ParseDocument(src, DEFAULT_MAX_DEPTH).value;
    ParsedWellFormed(src, SkipSpace(src, 0), 0, DEFAULT_MAX_DEPTH);
    ParsedNumeric(src, SkipSpace(src, 0), 0, DEFAULT_MAX_DEPTH);
    var d := Doc(src, entries, KeyHash.Mixer(n => n, (n: nat, w: KeyHash.Word) => n, n => n), false);
    out := AppendCanonical(dst, d, 0, v);
    ok := true;
    CanonicalAscends(src, DEFAULT_MAX_DEPTH);
    assert out[|dst|..] == CanonicalForm(src, DEFAULT_MAX_DEPTH).value;
  }
}
