/**
 JSON texts as section 2 of RFC 8259 writes them, token by token with the insignificant whitespace around each:
 the documents the grammar accepts are exactly these, and the tree it yields is the one written down.
 */
module Forms {
  import opened Json
  import opened Quoting
  import Lexicon
  import Numerals
  import Decimal
  import Documents
  import Window

  type Piece = Lexicon.Piece

  /** A value as it is written; `gap` is what stands between the brackets of an empty container. */
  datatype Form =
    | TextForm(pieces: seq<Piece>)
    | NumberForm(numeral: Numerals.Numeral)
    | TrueForm
    | FalseForm
    | NullForm
    | ListForm(gap: bytes, slots: seq<Slot>)
    | DictForm(gap: bytes, pairs: seq<Pair>)

  /** An array element with the whitespace before and after it. */
  datatype Slot = Slot(before: bytes, form: Form, after: bytes)

  /** An object member with the whitespace before and after its name and its value. */
  datatype Pair = Pair(before: bytes, name: seq<Piece>, between: bytes, behind: bytes, form: Form, after: bytes)

  /** Insignificant whitespace: space, horizontal tab, line feed and carriage return. */
  predicate IsGapByte(c: byte) {
    c == 0x20 || c == 0x09 || c == 0x0A || c == 0x0D
  }

  predicate IsGap(g: bytes) {
    forall k | 0 <= k < |g| :: IsGapByte(g[k])
  }

  // ---- The text of a form ---------------------------------------------------------------------------------------

  function SpelledName(name: seq<Piece>): bytes {
    [0x22] + Lexicon.SpelledAll(name) + [0x22]
  }

  function Spelled(f: Form): bytes
    decreases f, 1
  {
    match f
    case TextForm(pieces) => SpelledName(pieces)
    case NumberForm(numeral) => Numerals.Spelled(numeral)
    case TrueForm => [0x74, 0x72, 0x75, 0x65]
    case FalseForm => [0x66, 0x61, 0x6C, 0x73, 0x65]
    case NullForm => [0x6E, 0x75, 0x6C, 0x6C]
    case ListForm(gap, slots) => [0x5B] + if slots == [] then gap + [0x5D] else SpelledSlots(slots)
    case DictForm(gap, pairs) => [0x7B] + if pairs == [] then gap + [0x7D] else SpelledPairs(pairs)
  }

  function SpelledSlot(s: Slot): bytes
    decreases s, 0
  {
    match s case Slot(before, form, after) => before + (Spelled(form) + after)
  }

  /** Elements with their commas, through the closing bracket. */
  function SpelledSlots(slots: seq<Slot>): bytes
    decreases slots, 0
  {
    if slots == [] then [] else SpelledSlot(slots[0]) + if |slots| == 1 then [0x5D] else [0x2C] + SpelledSlots(slots[1..])
  }

  function SpelledPair(p: Pair): bytes
    decreases p, 0
  {
    match p case Pair(before, name, between, behind, form, after) =>
      before + (SpelledName(name) + (between + ([0x3A] + (behind + (Spelled(form) + after)))))
  }

  /** Members with their commas, through the closing brace. */
  function SpelledPairs(pairs: seq<Pair>): bytes
    decreases pairs, 0
  {
    if pairs == [] then [] else SpelledPair(pairs[0]) + if |pairs| == 1 then [0x7D] else [0x2C] + SpelledPairs(pairs[1..])
  }

  ghost predicate Correct(f: Form)
    decreases f, 1
  {
    match f
    case TextForm(pieces) => Lexicon.AllCorrect(pieces)
    case NumberForm(numeral) => Numerals.Correct(numeral)
    case ListForm(gap, slots) => IsGap(gap) && CorrectSlots(slots)
    case DictForm(gap, pairs) => IsGap(gap) && CorrectPairs(pairs)
    case _ => true
  }

  ghost predicate CorrectSlot(s: Slot)
    decreases s, 0
  {
    match s case Slot(before, form, after) => IsGap(before) && Correct(form) && IsGap(after)
  }

  ghost predicate CorrectSlots(slots: seq<Slot>)
    decreases slots, 0
  {
    slots == [] || (CorrectSlot(slots[0]) && CorrectSlots(slots[1..]))
  }

  ghost predicate CorrectPair(p: Pair)
    decreases p, 0
  {
    match p case Pair(before, name, between, behind, form, after) =>
      IsGap(before) && Lexicon.AllCorrect(name) && IsGap(between) && IsGap(behind) && Correct(form) && IsGap(after)
  }

  ghost predicate CorrectPairs(pairs: seq<Pair>)
    decreases pairs, 0
  {
    pairs == [] || (CorrectPair(pairs[0]) && CorrectPairs(pairs[1..]))
  }

  function Max(a: nat, b: nat): nat {
    if a >= b then a else b
  }

  /** Containers on the longest path. */
  function Height(f: Form): nat
    decreases f, 1
  {
    match f
    case ListForm(_, slots) => 1 + HeightOfSlots(slots)
    case DictForm(_, pairs) => 1 + HeightOfPairs(pairs)
    case _ => 0
  }

  function HeightOfSlot(s: Slot): nat
    decreases s, 0
  {
    match s case Slot(_, form, _) => Height(form)
  }

  function HeightOfSlots(slots: seq<Slot>): nat
    decreases slots, 0
  {
    if slots == [] then 0 else Max(HeightOfSlot(slots[0]), HeightOfSlots(slots[1..]))
  }

  function HeightOfPair(p: Pair): nat
    decreases p, 0
  {
    match p case Pair(_, _, _, _, form, _) => Height(form)
  }

  function HeightOfPairs(pairs: seq<Pair>): nat
    decreases pairs, 0
  {
    if pairs == [] then 0 else Max(HeightOfPair(pairs[0]), HeightOfPairs(pairs[1..]))
  }

  // ---- The tree of a form written at a position ---------------------------------------------------------------------

  function TreeOf(f: Form, at: nat): Value
    decreases f, 1
  {
    var end := at + |Spelled(f)|;
    match f
    case TextForm(pieces) => Scalar(String, at, end, Lexicon.AnyEscape(pieces))
    case NumberForm(numeral) => Scalar(Number, at, end, numeral.fraction.None? && numeral.power.None?)
    case TrueForm => Scalar(Bool, at, end, false)
    case FalseForm => Scalar(Bool, at, end, false)
    case NullForm => Scalar(Null, at, end, false)
    case ListForm(_, slots) => Arr(at, end, ItemsOf(slots, at + 1))
    case DictForm(_, pairs) => Obj(at, end, MembersOf(pairs, at + 1))
  }

  function ItemOf(s: Slot, at: nat): Value
    decreases s, 0
  {
    match s case Slot(before, form, _) => TreeOf(form, at + |before|)
  }

  function ItemsOf(slots: seq<Slot>, at: nat): seq<Value>
    decreases slots, 0
  {
    if slots == [] then [] else [ItemOf(slots[0], at)] + ItemsOf(slots[1..], at + |SpelledSlot(slots[0])| + 1)
  }

  function MemberOf(p: Pair, at: nat): Member
    decreases p, 0
  {
    match p
    case Pair(before, name, between, behind, form, _) =>
      var start := at + |before|;
      var end := start + |SpelledName(name)|;
      Member(Key(start, end, Lexicon.AnyEscape(name)), TreeOf(form, end + |between| + 1 + |behind|))
  }

  function MembersOf(pairs: seq<Pair>, at: nat): seq<Member>
    decreases pairs, 0
  {
    if pairs == [] then [] else [MemberOf(pairs[0], at)] + MembersOf(pairs[1..], at + |SpelledPair(pairs[0])| + 1)
  }

  // ---- Forms are read ---------------------------------------------------------------------------------------------

  lemma {:induction false} GapSkipped(s: bytes, i: nat, g: bytes)
    requires At(s, i, g) && IsGap(g) && (i + |g| < |s| ==> !IsGapByte(s[i + |g|]))
    ensures i + |g| <= |s| && SkipSpace(s, i) == i + |g|
    decreases |g|
  {
    if g != [] {
      AtByte(s, i, g, 0);
      assert g == [g[0]] + g[1..];
      AtParts(s, i, [g[0]], g[1..]);
      GapSkipped(s, i + 1, g[1..]);
    }
  }

  /** No value starts with whitespace or with punctuation that could come in its place. */
  predicate Starts(c: byte) {
    !IsGapByte(c) && c != 0x5D && c != 0x7D && c != 0x2C
  }

  lemma FormStarts(f: Form)
    requires Correct(f)
    ensures Spelled(f) != [] && Starts(Spelled(f)[0])
  {
  }

  lemma TextReads(s: bytes, i: nat, pieces: seq<Piece>)
    requires Lexicon.AllCorrect(pieces) && At(s, i, SpelledName(pieces))
    ensures var end := i + |SpelledName(pieces)|;
            i < end <= |s| && s[i] == 0x22 && ScanString(s, i + 1) == StringToken(end, Lexicon.AnyEscape(pieces))
  {
    hide Lexicon.AllCorrect, Lexicon.SpelledAll, ScanString, At;
    var body := Lexicon.SpelledAll(pieces) + [0x22];
    assert SpelledName(pieces) == [0x22] + body;
    AtParts(s, i, [0x22], body);
    AtByte(s, i, [0x22], 0);
    Lexicon.PiecesRead(s, i + 1, pieces);
  }

  lemma NumberReads(s: bytes, i: nat, n: Numerals.Numeral)
    requires Numerals.Correct(n) && At(s, i, Numerals.Spelled(n)) && Documents.Ends(s, i + |Numerals.Spelled(n)|)
    ensures var end := i + |Numerals.Spelled(n)|;
            i < end <= |s| && ParseScalar(s, i) == Good(Scalar(Number, i, end, n.fraction.None? && n.power.None?), end) && s[i] != 0x5B && s[i] != 0x7B
  {
    hide ScanNumber, At, ParseScalar, Numerals.Correct, Numerals.Spelled;
    var token := Numerals.Spelled(n);
    Numerals.SpellingReads(n);
    Documents.NumberStarts(token);
    Documents.AtWithin(s, i, token);
    Documents.NumberFollowed(token, s, i);
    AtByte(s, i, token, 0);
    Documents.NumberScalar(s, i);
  }

  lemma WordReads(s: bytes, i: nat, f: Form)
    requires (f.TrueForm? || f.FalseForm? || f.NullForm?) && At(s, i, Spelled(f))
    ensures i < |s| && ParseScalar(s, i) == Good(TreeOf(f, i), i + |Spelled(f)|) && s[i] != 0x5B && s[i] != 0x7B
  {
    AtByte(s, i, Spelled(f), 0);
  }

  /** Nothing that could continue a number follows. */
  predicate Apart(s: bytes, f: Form, end: nat) {
    f.NumberForm? ==> Documents.Ends(s, end)
  }

  lemma {:induction false} FormReads(s: bytes, i: nat, f: Form, d: nat, max: nat)
    requires Correct(f) && At(s, i, Spelled(f)) && Apart(s, f, i + |Spelled(f)|) && d + Height(f) <= max
    ensures i <= |s| && ParseValue(s, i, d, max) == Good(TreeOf(f, i), i + |Spelled(f)|)
    decreases f, 2
  {
    hide ParseElements, ParseMembers, SkipSpace, ScanString, ScanNumber, SpelledName, At, Numerals.Spelled, Numerals.Correct, Lexicon.AllCorrect,
      SpelledSlots, SpelledPairs, CorrectSlots, CorrectPairs, HeightOfSlots, HeightOfPairs, ItemsOf, MembersOf;
    match f
    case TextForm(pieces) => TextReads(s, i, pieces);
    case NumberForm(numeral) => NumberReads(s, i, numeral);
    case ListForm(_, _) => ListReads(s, i, f, d, max);
    case DictForm(_, _) => DictReads(s, i, f, d, max);
    case _ => WordReads(s, i, f);
  }

  lemma {:induction false} ListReads(s: bytes, i: nat, f: Form, d: nat, max: nat)
    requires f.ListForm? && Correct(f) && At(s, i, Spelled(f)) && d + Height(f) <= max
    ensures i <= |s| && ParseValue(s, i, d, max) == Good(TreeOf(f, i), i + |Spelled(f)|)
    decreases f, 1
  {
    hide At, ParseElements, SpelledSlots, CorrectSlots, HeightOfSlots, ItemsOf, IsGap, SkipSpace;
    var slots := f.slots;
    var body := if slots == [] then f.gap + [0x5D] else SpelledSlots(slots);
    AtParts(s, i, [0x5B], body);
    AtByte(s, i, [0x5B], 0);
    if slots == [] {
      AtParts(s, i + 1, f.gap, [0x5D]);
      AtByte(s, i + 1 + |f.gap|, [0x5D], 0);
      GapSkipped(s, i + 1, f.gap);
      NoItems(i + 1);
    } else {
      SlotsRead(s, i + 1, slots, d + 1, max);
    }
  }

  lemma NoItems(at: nat)
    ensures ItemsOf([], at) == [] && MembersOf([], at) == []
  {
  }

  lemma {:induction false} SlotsRead(s: bytes, i: nat, slots: seq<Slot>, d: nat, max: nat)
    requires slots != [] && CorrectSlots(slots) && At(s, i, SpelledSlots(slots)) && d + HeightOfSlots(slots) <= max
    ensures i <= |s|
    ensures var j := SkipSpace(s, i);
            j < |s| && s[j] != 0x5D && ParseElements(s, j, d, max) == Good(ItemsOf(slots, i), i + |SpelledSlots(slots)|)
    decreases slots, 3
  {
    hide *;
    SlotParts(slots);
    var slot, more := slots[0], |slots| > 1;
    var rest := if more then [0x2C] + SpelledSlots(slots[1..]) else [0x5D];
    AtParts(s, i, SpelledSlot(slot), rest);
    var j := SlotReads(s, i, slot, rest, d, max);
    if more {
      AtParts(s, j, [0x2C], SpelledSlots(slots[1..]));
      AtByte(s, j, [0x2C], 0);
      SlotsRead(s, j + 1, slots[1..], d, max);
    } else {
      AtByte(s, j, [0x5D], 0);
      assert slots[1..] == [];
      NoItems(j + 1);
    }
    IsByte(s, j);
    ElementStep(s, SkipSpace(s, i), d, max);
    ItemsStep(slots, i);
  }

  lemma SlotParts(slots: seq<Slot>)
    requires slots != [] && CorrectSlots(slots)
    ensures CorrectSlot(slots[0]) && CorrectSlots(slots[1..]) && HeightOfSlot(slots[0]) <= HeightOfSlots(slots) && HeightOfSlots(slots[1..]) <= HeightOfSlots(slots)
    ensures SpelledSlots(slots) == SpelledSlot(slots[0]) + if |slots| > 1 then [0x2C] + SpelledSlots(slots[1..]) else [0x5D]
  {
  }

  lemma ItemsStep(slots: seq<Slot>, at: nat)
    requires slots != []
    ensures ItemsOf(slots, at) == [ItemOf(slots[0], at)] + ItemsOf(slots[1..], at + |SpelledSlot(slots[0])| + 1)
  {
  }

  lemma ElementStep(s: bytes, i: nat, d: nat, max: nat)
    requires i <= |s| && ParseValue(s, i, d, max).Good?
    ensures var v := ParseValue(s, i, d, max);
            var j := SkipSpace(s, v.end);
            var r := ParseElements(s, i, d, max);
            if ByteAt(s, j, COMMA) then
              var rest := ParseElements(s, SkipSpace(s, j + 1), d, max);
              r == if rest.Bad? then Bad else Good([v.val] + rest.val, rest.end)
            else if ByteAt(s, j, RBRACKET) then r == Good([v.val] + [], j + 1)
            else r.Bad?
  {
    hide ParseValue, SkipSpace;
  }

  /** An element in place, up to the comma or bracket behind it. */
  lemma {:induction false} SlotReads(s: bytes, i: nat, slot: Slot, rest: bytes, d: nat, max: nat) returns (j: nat)
    requires CorrectSlot(slot) && At(s, i, SpelledSlot(slot)) && At(s, i + |SpelledSlot(slot)|, rest) && d + HeightOfSlot(slot) <= max
    requires rest != [] && (rest[0] == 0x2C || rest[0] == 0x5D || rest[0] == 0x7D)
    ensures j == i + |SpelledSlot(slot)| < |s| && SkipSpace(s, i) < |s| && s[SkipSpace(s, i)] != 0x5D
    ensures var v := ParseValue(s, SkipSpace(s, i), d, max); v.Good? && v.val == ItemOf(slot, i) && SkipSpace(s, v.end) == j
    decreases slot, 2
  {
    hide At, SkipSpace, ParseValue, Correct, Height, IsGap, Spelled, TreeOf;
    var Slot(before, form, after) := slot;
    AtParts(s, i, before, Spelled(form) + after);
    var k := i + |before|;
    ValueReads(s, k, form, after, rest, d, max);
    GapSkipped(s, i, before);
    j := k + |Spelled(form)| + |after|;
  }

  /** A value in place, and the whitespace behind it. */
  lemma {:induction false} ValueReads(s: bytes, k: nat, form: Form, after: bytes, rest: bytes, d: nat, max: nat)
    requires Correct(form) && IsGap(after) && At(s, k, Spelled(form) + after) && At(s, k + |Spelled(form) + after|, rest) && d + Height(form) <= max
    requires rest != [] && (rest[0] == 0x2C || rest[0] == 0x5D || rest[0] == 0x7D)
    ensures k < |s| && Starts(s[k]) && ParseValue(s, k, d, max) == Good(TreeOf(form, k), k + |Spelled(form)|)
    ensures var j := k + |Spelled(form)| + |after|; j < |s| && SkipSpace(s, k + |Spelled(form)|) == j
    decreases form, 3
  {
    hide At, SkipSpace, ParseValue, Correct, Height, Spelled, TreeOf;
    AtParts(s, k, Spelled(form), after);
    var e := k + |Spelled(form)|;
    AtByte(s, e + |after|, rest, 0);
    GapSkipped(s, e, after);
    if after != [] {
      AtByte(s, e, after, 0);
    }
    FormStarts(form);
    AtByte(s, k, Spelled(form), 0);
    FormReads(s, k, form, d, max);
  }

  lemma {:induction false} DictReads(s: bytes, i: nat, f: Form, d: nat, max: nat)
    requires f.DictForm? && Correct(f) && At(s, i, Spelled(f)) && d + Height(f) <= max
    ensures i <= |s| && ParseValue(s, i, d, max) == Good(TreeOf(f, i), i + |Spelled(f)|)
    decreases f, 1
  {
    hide At, ParseMembers, SpelledPairs, CorrectPairs, HeightOfPairs, MembersOf, IsGap, SkipSpace;
    var pairs := f.pairs;
    var body := if pairs == [] then f.gap + [0x7D] else SpelledPairs(pairs);
    AtParts(s, i, [0x7B], body);
    AtByte(s, i, [0x7B], 0);
    if pairs == [] {
      AtParts(s, i + 1, f.gap, [0x7D]);
      AtByte(s, i + 1 + |f.gap|, [0x7D], 0);
      GapSkipped(s, i + 1, f.gap);
      NoItems(i + 1);
    } else {
      PairsRead(s, i + 1, pairs, d + 1, max);
    }
  }

  lemma {:induction false} PairsRead(s: bytes, i: nat, pairs: seq<Pair>, d: nat, max: nat)
    requires pairs != [] && CorrectPairs(pairs) && At(s, i, SpelledPairs(pairs)) && d + HeightOfPairs(pairs) <= max
    ensures i <= |s|
    ensures var j := SkipSpace(s, i);
            j < |s| && s[j] != 0x7D && ParseMembers(s, j, d, max) == Good(MembersOf(pairs, i), i + |SpelledPairs(pairs)|)
    decreases pairs, 3
  {
    hide *;
    PairParts(pairs);
    var pair, more := pairs[0], |pairs| > 1;
    var rest := if more then [0x2C] + SpelledPairs(pairs[1..]) else [0x7D];
    AtParts(s, i, SpelledPair(pair), rest);
    var j := PairReads(s, i, pair, rest, d, max);
    if more {
      AtParts(s, j, [0x2C], SpelledPairs(pairs[1..]));
      AtByte(s, j, [0x2C], 0);
      PairsRead(s, j + 1, pairs[1..], d, max);
    } else {
      AtByte(s, j, [0x7D], 0);
      assert pairs[1..] == [];
      NoItems(j + 1);
    }
    IsByte(s, j);
    MemberStep(s, SkipSpace(s, i), d, max);
    MembersStep(pairs, i);
  }

  lemma PairParts(pairs: seq<Pair>)
    requires pairs != [] && CorrectPairs(pairs)
    ensures CorrectPair(pairs[0]) && CorrectPairs(pairs[1..]) && HeightOfPair(pairs[0]) <= HeightOfPairs(pairs) && HeightOfPairs(pairs[1..]) <= HeightOfPairs(pairs)
    ensures SpelledPairs(pairs) == SpelledPair(pairs[0]) + if |pairs| > 1 then [0x2C] + SpelledPairs(pairs[1..]) else [0x7D]
  {
  }

  lemma MembersStep(pairs: seq<Pair>, at: nat)
    requires pairs != []
    ensures MembersOf(pairs, at) == [MemberOf(pairs[0], at)] + MembersOf(pairs[1..], at + |SpelledPair(pairs[0])| + 1)
  {
  }

  lemma MemberStep(s: bytes, i: nat, d: nat, max: nat)
    requires i <= |s| && ParseKey(s, i).Good? && ParseValue(s, ParseKey(s, i).end, d, max).Good?
    ensures var k := ParseKey(s, i);
            var v := ParseValue(s, k.end, d, max);
            var j := SkipSpace(s, v.end);
            var r := ParseMembers(s, i, d, max);
            if ByteAt(s, j, COMMA) then
              var rest := ParseMembers(s, SkipSpace(s, j + 1), d, max);
              r == if rest.Bad? then Bad else Good([Member(k.val, v.val)] + rest.val, rest.end)
            else if ByteAt(s, j, RBRACE) then r == Good([Member(k.val, v.val)] + [], j + 1)
            else r.Bad?
  {
    hide ParseKey, ParseValue, SkipSpace;
  }

  /** A member in place, up to the comma or brace behind it. */
  lemma {:induction false} PairReads(s: bytes, i: nat, pair: Pair, rest: bytes, d: nat, max: nat) returns (j: nat)
    requires CorrectPair(pair) && At(s, i, SpelledPair(pair)) && At(s, i + |SpelledPair(pair)|, rest) && d + HeightOfPair(pair) <= max
    requires rest != [] && (rest[0] == 0x2C || rest[0] == 0x7D)
    ensures j == i + |SpelledPair(pair)| < |s| && SkipSpace(s, i) < |s| && s[SkipSpace(s, i)] == 0x22
    ensures var k := ParseKey(s, SkipSpace(s, i));
            k.Good? &&
            var v := ParseValue(s, k.end, d, max);
            v.Good? && Member(k.val, v.val) == MemberOf(pair, i) && SkipSpace(s, v.end) == j
    decreases pair, 2
  {
    hide At, SkipSpace, ParseKey, ParseValue, Correct, Height, IsGap, Spelled, SpelledName, TreeOf;
    var Pair(before, name, between, behind, form, after) := pair;
    var e := Spelled(form) + after;
    PairText(pair, e);
    var head := before + (SpelledName(name) + (between + ([0x3A] + behind)));
    AtParts(s, i, head, e);
    var m := i + |head|;
    ValueReads(s, m, form, after, rest, d, max);
    NameReads(s, i, before, name, between, behind);
    j := m + |Spelled(form)| + |after|;
  }

  lemma PairText(p: Pair, e: bytes)
    requires e == Spelled(p.form) + p.after
    ensures SpelledPair(p) == p.before + (SpelledName(p.name) + (p.between + ([0x3A] + p.behind))) + e
  {
    hide Spelled, SpelledName;
    Regroup(p.before, SpelledName(p.name), p.between, p.behind, e);
  }

  lemma Regroup(a: bytes, b: bytes, c: bytes, d: bytes, e: bytes)
    ensures a + (b + (c + ([0x3A] + (d + e)))) == a + (b + (c + ([0x3A] + d))) + e
  {
    assert [0x3A] + (d + e) == [0x3A] + d + e;
    assert c + ([0x3A] + d + e) == c + ([0x3A] + d) + e;
  }

  /** A name in place, with its colon and the whitespace around both. */
  lemma NameReads(s: bytes, i: nat, before: bytes, name: seq<Piece>, between: bytes, behind: bytes)
    requires IsGap(before) && Lexicon.AllCorrect(name) && IsGap(between) && IsGap(behind)
    requires At(s, i, before + (SpelledName(name) + (between + ([0x3A] + behind))))
    requires var m := i + |before| + |SpelledName(name)| + |between| + 1 + |behind|; m < |s| && !IsGapByte(s[m])
    ensures var k, n := i + |before|, |SpelledName(name)|;
            SkipSpace(s, i) == k < |s| && s[k] == 0x22 &&
            ParseKey(s, k) == Good(Key(k, k + n, Lexicon.AnyEscape(name)), k + n + |between| + 1 + |behind|)
  {
    hide At, SkipSpace, ParseKey, IsGap, SpelledName;
    var b := between + ([0x3A] + behind);
    AtParts(s, i, before, SpelledName(name) + b);
    var k := i + |before|;
    AtParts(s, k, SpelledName(name), b);
    TextReads(s, k, name);
    GapSkipped(s, i, before);
    ColonReads(s, k + |SpelledName(name)|, between, behind);
    KeyStep(s, k);
  }

  lemma ColonReads(s: bytes, e: nat, between: bytes, behind: bytes)
    requires IsGap(between) && IsGap(behind) && At(s, e, between + ([0x3A] + behind))
    requires var m := e + |between| + 1 + |behind|; m < |s| && !IsGapByte(s[m])
    ensures var c := e + |between|;
            SkipSpace(s, e) == c && ByteAt(s, c, COLON) && SkipSpace(s, c + 1) == c + 1 + |behind|
  {
    hide At, SkipSpace, IsGap;
    AtParts(s, e, between, [0x3A] + behind);
    AtParts(s, e + |between|, [0x3A], behind);
    AtByte(s, e + |between|, [0x3A], 0);
    GapSkipped(s, e, between);
    GapSkipped(s, e + |between| + 1, behind);
  }

  lemma KeyStep(s: bytes, i: nat)
    requires i < |s| && s[i] == 0x22 && ScanString(s, i + 1).StringToken?
    ensures var t := ScanString(s, i + 1);
            var j := SkipSpace(s, t.end);
            ByteAt(s, j, COLON) ==> ParseKey(s, i) == Good(Key(i, t.end, t.escaped), SkipSpace(s, j + 1))
  {
    hide ScanString, SkipSpace;
  }

  // ---- What is read is a form ---------------------------------------------------------------------------------------

  /** Skipped bytes are whitespace. */
  lemma {:induction false} GapOf(s: bytes, i: nat)
    requires i <= |s|
    ensures IsGap(s[i..SkipSpace(s, i)])
    decreases |s| - i
  {
    if i < |s| && IsSpace(s[i]) {
      GapOf(s, i + 1);
      var j := SkipSpace(s, i);
      assert s[i..j] == [s[i]] + s[i + 1..j];
    }
  }

  lemma NameOf(s: bytes, i: nat) returns (name: seq<Piece>)
    requires i < |s| && s[i] == QUOTE && ScanString(s, i + 1).StringToken?
    ensures var t := ScanString(s, i + 1);
            Lexicon.AllCorrect(name) && SpelledName(name) == s[i..t.end] && t.escaped == Lexicon.AnyEscape(name)
  {
    hide ScanString, Lexicon.AllCorrect, Lexicon.SpelledAll;
    name := Lexicon.PiecesOf(s, i + 1);
    var end := ScanString(s, i + 1).end;
    var body := Lexicon.SpelledAll(name) + [0x22];
    assert s[i..end] == [s[i]] + s[i + 1..end];
    assert [0x22] + body == SpelledName(name);
    assert At(s, i + 1, body);
    Lexicon.PiecesRead(s, i + 1, name);
  }

  lemma NumeralOf(s: bytes, i: nat) returns (n: Numerals.Numeral)
    requires i <= |s| && ScanNumber(s, i).NumberToken?
    ensures var t := ScanNumber(s, i);
            Numerals.Correct(n) && Numerals.Spelled(n) == s[i..t.end] && t.integer == (n.fraction.None? && n.power.None?)
  {
    hide Numerals.Correct, Numerals.Spelled, ScanFraction;
    var token := s[i..ScanNumber(s, i).end];
    Window.NumberAlone(token, s, i);
    hide ScanNumber;
    n := Numerals.SpellingOf(token);
    Numerals.SpellingReads(n);
  }

  lemma {:induction false} FormOf(s: bytes, i: nat, d: nat, max: nat) returns (f: Form)
    requires i <= |s| && ParseValue(s, i, d, max).Good?
    ensures var v := ParseValue(s, i, d, max);
            Correct(f) && Spelled(f) == s[i..v.end] && TreeOf(f, i) == v.val && Height(f) <= if d <= max then max - d else 0
    decreases |s| - i, 0
  {
    hide ScanString, ScanNumber, SkipSpace, ParseElements, ParseMembers, SpelledName, Lexicon.AllCorrect, Numerals.Correct, Numerals.Spelled;
    var v := ParseValue(s, i, d, max);
    if s[i] == LBRACE {
      f := DictOf(s, i, d, max);
    } else if s[i] == LBRACKET {
      f := ListOf(s, i, d, max);
    } else if s[i] == QUOTE {
      var name := NameOf(s, i);
      f := TextForm(name);
    } else if s[i] == TRUE[0] {
      f := TrueForm;
    } else if s[i] == FALSE[0] {
      f := FalseForm;
    } else if s[i] == NULL[0] {
      f := NullForm;
    } else {
      var n := NumeralOf(s, i);
      f := NumberForm(n);
    }
  }

  lemma {:induction false} ListOf(s: bytes, i: nat, d: nat, max: nat) returns (f: Form)
    requires i < |s| && s[i] == LBRACKET && ParseValue(s, i, d, max).Good?
    ensures var v := ParseValue(s, i, d, max);
            Correct(f) && Spelled(f) == s[i..v.end] && TreeOf(f, i) == v.val && Height(f) <= if d <= max then max - d else 0
    decreases |s| - i - 1, 3
  {
    hide ParseElements, SpelledSlots, CorrectSlots, HeightOfSlots, ItemsOf, IsGap, SkipSpace;
    var j := SkipSpace(s, i + 1);
    GapOf(s, i + 1);
    var end := ParseValue(s, i, d, max).end;
    assert s[i..end] == [s[i]] + s[i + 1..end];
    if ByteAt(s, j, RBRACKET) {
      f := ListForm(s[i + 1..j], []);
      NoItems(i + 1);
      NoSlots();
      assert s[i + 1..end] == s[i + 1..j] + [s[j]];
    } else {
      var slots := SlotsOf(s, i + 1, d + 1, max);
      f := ListForm([], slots);
      EmptyGap();
    }
  }

  lemma NoSlots()
    ensures CorrectSlots([]) && HeightOfSlots([]) == 0 && CorrectPairs([]) && HeightOfPairs([]) == 0
  {
  }

  lemma EmptyGap()
    ensures IsGap([])
  {
  }

  /** The elements that follow an opening bracket or a comma at i - 1. */
  lemma {:induction false} SlotsOf(s: bytes, i: nat, d: nat, max: nat) returns (slots: seq<Slot>)
    requires i <= |s| && ParseElements(s, SkipSpace(s, i), d, max).Good?
    ensures var r := ParseElements(s, SkipSpace(s, i), d, max);
            slots != [] && CorrectSlots(slots) && SpelledSlots(slots) == s[i..r.end] && ItemsOf(slots, i) == r.val &&
            HeightOfSlots(slots) <= if d <= max then max - d else 0
    decreases |s| - i, 2
  {
    hide *;
    var j := SkipSpace(s, i);
    FirstElement(s, j, d, max);
    ElementStep(s, j, d, max);
    var k := SkipSpace(s, ParseValue(s, j, d, max).end);
    var slot := SlotAt(s, i, d, max);
    var rest := [];
    if k < |s| && s[k] == 0x2C {
      IsByte(s, k);
      rest := SlotsOf(s, k + 1, d, max);
    } else {
      IsByte(s, k);
      NoSlots();
      NoItems(k + 1);
    }
    JoinSlots(s, i, k, ParseElements(s, j, d, max).end, slot, rest);
    slots := [slot] + rest;
  }

  lemma IsByte(s: bytes, k: nat)
    ensures ByteAt(s, k, COMMA) == (k < |s| && s[k] == 0x2C) && ByteAt(s, k, RBRACKET) == (k < |s| && s[k] == 0x5D)
    ensures ByteAt(s, k, RBRACE) == (k < |s| && s[k] == 0x7D)
  {
  }

  /** One element, from the whitespace before it to the one behind it. */
  lemma {:induction false} SlotAt(s: bytes, i: nat, d: nat, max: nat) returns (slot: Slot)
    requires i <= |s| && ParseValue(s, SkipSpace(s, i), d, max).Good?
    ensures var v := ParseValue(s, SkipSpace(s, i), d, max);
            CorrectSlot(slot) && SpelledSlot(slot) == s[i..SkipSpace(s, v.end)] && ItemOf(slot, i) == v.val &&
            HeightOfSlot(slot) <= if d <= max then max - d else 0
    decreases |s| - i, 1
  {
    hide *;
    var j := SkipSpace(s, i);
    var e := ParseValue(s, j, d, max).end;
    var f := FormOf(s, j, d, max);
    var k := SkipSpace(s, e);
    GapOf(s, i);
    GapOf(s, e);
    SlotOf(s, i, j, e, k, f);
    slot := Slot(s[i..j], f, s[e..k]);
  }

  lemma JoinSlots(s: bytes, i: nat, k: nat, end: nat, slot: Slot, rest: seq<Slot>)
    requires i <= k < end <= |s| && CorrectSlot(slot) && SpelledSlot(slot) == s[i..k] && CorrectSlots(rest)
    requires if rest == [] then s[k] == 0x5D && end == k + 1 else s[k] == 0x2C && SpelledSlots(rest) == s[k + 1..end]
    ensures var slots := [slot] + rest;
            CorrectSlots(slots) && SpelledSlots(slots) == s[i..end] && (HeightOfSlots(slots) == HeightOfSlot(slot) || HeightOfSlots(slots) == HeightOfSlots(rest)) &&
            ItemsOf(slots, i) == [ItemOf(slot, i)] + ItemsOf(rest, k + 1)
  {
    hide CorrectSlot, SpelledSlot, HeightOfSlot, ItemOf;
    var slots := [slot] + rest;
    assert slots[1..] == rest;
    SlotsBuilt(slots);
    ItemsStep(slots, i);
    assert s[k..end] == [s[k]] + s[k + 1..end];
    assert s[i..end] == s[i..k] + s[k..end];
  }

  lemma FirstElement(s: bytes, i: nat, d: nat, max: nat)
    requires i <= |s| && ParseElements(s, i, d, max).Good?
    ensures ParseValue(s, i, d, max).Good?
  {
  }

  lemma SlotOf(s: bytes, i: nat, j: nat, e: nat, k: nat, f: Form)
    requires i <= j <= e <= k <= |s| && Spelled(f) == s[j..e] && Correct(f) && IsGap(s[i..j]) && IsGap(s[e..k])
    ensures var slot := Slot(s[i..j], f, s[e..k]);
            CorrectSlot(slot) && SpelledSlot(slot) == s[i..k] && HeightOfSlot(slot) == Height(f) && ItemOf(slot, i) == TreeOf(f, j)
  {
    hide Spelled, Correct, Height, TreeOf;
  }

  lemma SlotsBuilt(slots: seq<Slot>)
    requires slots != [] && CorrectSlot(slots[0]) && CorrectSlots(slots[1..])
    ensures CorrectSlots(slots) && HeightOfSlots(slots) == Max(HeightOfSlot(slots[0]), HeightOfSlots(slots[1..]))
    ensures SpelledSlots(slots) == SpelledSlot(slots[0]) + if |slots| > 1 then [0x2C] + SpelledSlots(slots[1..]) else [0x5D]
  {
  }

  lemma {:induction false} DictOf(s: bytes, i: nat, d: nat, max: nat) returns (f: Form)
    requires i < |s| && s[i] == LBRACE && ParseValue(s, i, d, max).Good?
    ensures var v := ParseValue(s, i, d, max);
            Correct(f) && Spelled(f) == s[i..v.end] && TreeOf(f, i) == v.val && Height(f) <= if d <= max then max - d else 0
    decreases |s| - i - 1, 3
  {
    hide ParseMembers, SpelledPairs, CorrectPairs, HeightOfPairs, MembersOf, IsGap, SkipSpace;
    var j := SkipSpace(s, i + 1);
    GapOf(s, i + 1);
    var end := ParseValue(s, i, d, max).end;
    assert s[i..end] == [s[i]] + s[i + 1..end];
    if ByteAt(s, j, RBRACE) {
      f := DictForm(s[i + 1..j], []);
      NoItems(i + 1);
      NoSlots();
      assert s[i + 1..end] == s[i + 1..j] + [s[j]];
    } else {
      var pairs := PairsOf(s, i + 1, d + 1, max);
      f := DictForm([], pairs);
      EmptyGap();
    }
  }

  /** The members that follow an opening brace or a comma at i - 1. */
  lemma {:induction false} PairsOf(s: bytes, i: nat, d: nat, max: nat) returns (pairs: seq<Pair>)
    requires i <= |s| && ParseMembers(s, SkipSpace(s, i), d, max).Good?
    ensures var r := ParseMembers(s, SkipSpace(s, i), d, max);
            pairs != [] && CorrectPairs(pairs) && SpelledPairs(pairs) == s[i..r.end] && MembersOf(pairs, i) == r.val &&
            HeightOfPairs(pairs) <= if d <= max then max - d else 0
    decreases |s| - i, 2
  {
    hide *;
    var h := SkipSpace(s, i);
    FirstMember(s, h, d, max);
    MemberStep(s, h, d, max);
    var k := SkipSpace(s, ParseValue(s, ParseKey(s, h).end, d, max).end);
    var pair := PairOf(s, i, d, max);
    var rest := [];
    IsByte(s, k);
    if k < |s| && s[k] == 0x2C {
      rest := PairsOf(s, k + 1, d, max);
    } else {
      NoSlots();
      NoItems(k + 1);
    }
    JoinPairs(s, i, k, ParseMembers(s, h, d, max).end, pair, rest);
    pairs := [pair] + rest;
  }

  lemma JoinPairs(s: bytes, i: nat, k: nat, end: nat, pair: Pair, rest: seq<Pair>)
    requires i <= k < end <= |s| && CorrectPair(pair) && SpelledPair(pair) == s[i..k] && CorrectPairs(rest)
    requires if rest == [] then s[k] == 0x7D && end == k + 1 else s[k] == 0x2C && SpelledPairs(rest) == s[k + 1..end]
    ensures var pairs := [pair] + rest;
            CorrectPairs(pairs) && SpelledPairs(pairs) == s[i..end] && (HeightOfPairs(pairs) == HeightOfPair(pair) || HeightOfPairs(pairs) == HeightOfPairs(rest)) &&
            MembersOf(pairs, i) == [MemberOf(pair, i)] + MembersOf(rest, k + 1)
  {
    hide CorrectPair, SpelledPair, HeightOfPair, MemberOf;
    var pairs := [pair] + rest;
    assert pairs[1..] == rest;
    PairsBuilt(pairs);
    MembersStep(pairs, i);
    assert s[k..end] == [s[k]] + s[k + 1..end];
    assert s[i..end] == s[i..k] + s[k..end];
  }

  lemma FirstMember(s: bytes, i: nat, d: nat, max: nat)
    requires i <= |s| && ParseMembers(s, i, d, max).Good?
    ensures ParseKey(s, i).Good? && ParseValue(s, ParseKey(s, i).end, d, max).Good?
  {
  }

  lemma PairsBuilt(pairs: seq<Pair>)
    requires pairs != [] && CorrectPair(pairs[0]) && CorrectPairs(pairs[1..])
    ensures CorrectPairs(pairs) && HeightOfPairs(pairs) == Max(HeightOfPair(pairs[0]), HeightOfPairs(pairs[1..]))
    ensures SpelledPairs(pairs) == SpelledPair(pairs[0]) + if |pairs| > 1 then [0x2C] + SpelledPairs(pairs[1..]) else [0x7D]
  {
  }

  /** One member, from the whitespace before its name to the one behind its value. */
  lemma {:induction false} PairOf(s: bytes, i: nat, d: nat, max: nat) returns (pair: Pair)
    requires i <= |s| && ParseKey(s, SkipSpace(s, i)).Good? && ParseValue(s, ParseKey(s, SkipSpace(s, i)).end, d, max).Good?
    ensures var key := ParseKey(s, SkipSpace(s, i));
            var v := ParseValue(s, key.end, d, max);
            CorrectPair(pair) && SpelledPair(pair) == s[i..SkipSpace(s, v.end)] && MemberOf(pair, i) == Member(key.val, v.val) &&
            HeightOfPair(pair) <= if d <= max then max - d else 0
    decreases |s| - i, 1
  {
    hide *;
    var h := SkipSpace(s, i);
    KeyParts(s, h);
    var j := ParseKey(s, h).end;
    var v := ParseValue(s, j, d, max).end;
    var name := NameOf(s, h);
    var f := FormOf(s, j, d, max);
    var e := ScanString(s, h + 1).end;
    var c, k := SkipSpace(s, e), SkipSpace(s, v);
    GapOf(s, i);
    GapOf(s, e);
    GapOf(s, c + 1);
    GapOf(s, v);
    PairOfParts(s, i, h, e, c, j, v, k, name, f);
    pair := Pair(s[i..h], name, s[e..c], s[c + 1..j], f, s[v..k]);
  }

  lemma PairOfParts(s: bytes, i: nat, h: nat, e: nat, c: nat, j: nat, v: nat, k: nat, name: seq<Piece>, f: Form)
    requires i <= h <= e <= c < j <= v <= k <= |s| && s[c] == 0x3A && SpelledName(name) == s[h..e] && Spelled(f) == s[j..v]
    requires IsGap(s[i..h]) && Lexicon.AllCorrect(name) && IsGap(s[e..c]) && IsGap(s[c + 1..j]) && Correct(f) && IsGap(s[v..k])
    ensures var pair := Pair(s[i..h], name, s[e..c], s[c + 1..j], f, s[v..k]);
            CorrectPair(pair) && SpelledPair(pair) == s[i..k] && HeightOfPair(pair) == Height(f) &&
            MemberOf(pair, i) == Member(Key(h, e, Lexicon.AnyEscape(name)), TreeOf(f, j))
  {
    hide IsGap, Spelled, SpelledName, Correct, Height, TreeOf, Lexicon.AllCorrect;
    PairSlices(s, i, h, e, c, j, v, k);
  }

  lemma KeyParts(s: bytes, i: nat)
    requires i <= |s| && ParseKey(s, i).Good?
    ensures i < |s| && s[i] == QUOTE && ScanString(s, i + 1).StringToken?
    ensures var t := ScanString(s, i + 1);
            var c := SkipSpace(s, t.end);
            c < |s| && s[c] == 0x3A && ParseKey(s, i) == Good(Key(i, t.end, t.escaped), SkipSpace(s, c + 1))
  {
    hide ScanString, SkipSpace;
  }

  lemma PairSlices(s: bytes, i: nat, h: nat, e: nat, c: nat, j: nat, v: nat, k: nat)
    requires i <= h <= e <= c < j <= v <= k <= |s| && s[c] == 0x3A
    ensures s[i..h] + (s[h..e] + (s[e..c] + ([0x3A] + (s[c + 1..j] + (s[j..v] + s[v..k]))))) == s[i..k]
  {
    assert s[j..v] + s[v..k] == s[j..k];
    assert s[c + 1..j] + s[j..k] == s[c + 1..k];
    assert [0x3A] + s[c + 1..k] == s[c..k];
    assert s[e..c] + s[c..k] == s[e..k];
    assert s[h..e] + s[e..k] == s[h..k];
  }

  // ---- Documents ---------------------------------------------------------------------------------------------------

  ghost predicate Writes(s: bytes, before: bytes, f: Form, after: bytes) {
    IsGap(before) && Correct(f) && IsGap(after) && s == before + Spelled(f) + after
  }

  /** The text of a form between any whitespace is a document, and its tree is the tree of the form. */
  lemma FormIsDocument(s: bytes, before: bytes, f: Form, after: bytes, max: nat)
    requires Writes(s, before, f, after) && Height(f) <= max
    ensures ParseDocument(s, max) == Some(TreeOf(f, |before|))
  {
    hide SkipSpace, ParseValue, Correct, Spelled, Height, TreeOf, IsGap;
    var text := Spelled(f);
    var i, e := |before|, |before| + |Spelled(f)|;
    FormStarts(f);
    assert s[0..i] == before && s[i..e] == text && s[e..e + |after|] == after && s[i] == text[0];
    GapSkipped(s, 0, before);
    GapSkipped(s, e, after);
    if after != [] {
      assert s[e] == after[0];
      FirstGapByte(after);
    }
    FormReads(s, i, f, 0, max);
  }

  lemma FirstGapByte(g: bytes)
    requires IsGap(g) && g != []
    ensures IsGapByte(g[0])
  {
  }

  /** Every document is the text of a form between some whitespace. */
  lemma DocumentIsForm(s: bytes, max: nat) returns (before: bytes, f: Form, after: bytes)
    requires ParseDocument(s, max).Some?
    ensures Writes(s, before, f, after) && Height(f) <= max && ParseDocument(s, max) == Some(TreeOf(f, |before|))
  {
    hide SkipSpace, ParseValue, Correct, Spelled, Height, TreeOf, IsGap;
    var i := SkipSpace(s, 0);
    var v := ParseValue(s, i, 0, max);
    f := FormOf(s, i, 0, max);
    before, after := s[..i], s[v.end..];
    GapOf(s, 0);
    GapOf(s, v.end);
    assert s[0..i] == before && s[v.end..|s|] == after;
  }

  /** The grammar accepts exactly the texts of forms, and the tree it yields is the tree of the form. */
  lemma DocumentsAreForms(s: bytes, max: nat, v: Value)
    ensures ParseDocument(s, max) == Some(v) <==>
            exists before, f, after :: Writes(s, before, f, after) && Height(f) <= max && v == TreeOf(f, |before|)
  {
    hide ParseDocument, Writes, Height, TreeOf;
    if ParseDocument(s, max) == Some(v) {
      var before, f, after := DocumentIsForm(s, max);
    }
    if before, f, after :| Writes(s, before, f, after) && Height(f) <= max && v == TreeOf(f, |before|) {
      FormIsDocument(s, before, f, after, max);
    }
  }

  // ---- Compact text ---------------------------------------------------------------------------------------------------

  /** No whitespace around any token. */
  predicate Compact(f: Form)
    decreases f, 1
  {
    match f
    case ListForm(gap, slots) => gap == [] && CompactSlots(slots)
    case DictForm(gap, pairs) => gap == [] && CompactPairs(pairs)
    case _ => true
  }

  predicate CompactSlot(s: Slot)
    decreases s, 0
  {
    match s case Slot(before, form, after) => before == after == [] && Compact(form)
  }

  predicate CompactSlots(slots: seq<Slot>)
    decreases slots, 0
  {
    slots == [] || (CompactSlot(slots[0]) && CompactSlots(slots[1..]))
  }

  predicate CompactPair(p: Pair)
    decreases p, 0
  {
    match p case Pair(before, _, between, behind, form, after) => before == between == behind == after == [] && Compact(form)
  }

  predicate CompactPairs(pairs: seq<Pair>)
    decreases pairs, 0
  {
    pairs == [] || (CompactPair(pairs[0]) && CompactPairs(pairs[1..]))
  }

  lemma QuotedName(style: Style, text: bytes) returns (name: seq<Piece>)
    ensures Lexicon.AllCorrect(name) && SpelledName(name) == Quoted(style, text)
  {
    hide SpelledName, Escaped, Repaired, ScanString, Lexicon.AllCorrect;
    var s := Quoted(style, text);
    assert s[0..0 + |s|] == s;
    QuotedRoundTrip(style, text, s, 0);
    name := NameOf(s, 0);
  }

  /** The compact text of a tree is the text of a form without whitespace. */
  lemma {:induction false} CompactForm(t: Documents.Tree) returns (f: Form)
    requires Documents.Proper(t)
    ensures Correct(f) && Compact(f) && Spelled(f) == Documents.Render(t)
    decreases t, 2
  {
    hide SpelledSlots, SpelledPairs, CorrectSlots, CorrectPairs, CompactSlots, CompactPairs, Documents.RenderItems, Documents.RenderEntries,
      Lexicon.AllCorrect, SpelledName, Quoted, Decimal.IsNumber, Numerals.Correct, Numerals.Spelled;
    match t
    case Text(style, text) =>
      var name := QuotedName(style, text);
      f := TextForm(name);
    case NumberText(token) =>
      var n := Numerals.SpellingOf(token);
      f := NumberForm(n);
    case BoolValue(b) => f := if b then TrueForm else FalseForm;
    case NullValue => f := NullForm;
    case List(items) =>
      EmptyGap();
      NoSlots();
      NothingCompact();
      if items == [] {
        f := ListForm([], []);
      } else {
        var slots := CompactItems(items);
        f := ListForm([], slots);
        assert [0x5B] + (Documents.RenderItems(items) + [0x5D]) == Documents.Render(t);
      }
    case Dict(entries) =>
      EmptyGap();
      NoSlots();
      NothingCompact();
      if entries == [] {
        f := DictForm([], []);
      } else {
        var pairs := CompactEntries(entries);
        f := DictForm([], pairs);
        assert [0x7B] + (Documents.RenderEntries(entries) + [0x7D]) == Documents.Render(t);
      }
  }

  lemma NothingCompact()
    ensures CompactSlots([]) && CompactPairs([]) && Documents.RenderItems([]) == [] && Documents.RenderEntries([]) == []
  {
  }

  lemma {:induction false} CompactItems(items: seq<Documents.Tree>) returns (slots: seq<Slot>)
    requires items != [] && Documents.ProperItems(items)
    ensures slots != [] && CorrectSlots(slots) && CompactSlots(slots) && SpelledSlots(slots) == Documents.RenderItems(items) + [0x5D]
    decreases items, 1
  {
    hide Documents.Proper, Documents.Render, Correct, Compact, Spelled;
    var f := CompactForm(items[0]);
    var slot, rest := Slot([], f, []), [];
    EmptyGap();
    NoSlots();
    NothingCompact();
    assert SpelledSlot(slot) == Spelled(f);
    if |items| > 1 {
      rest := CompactItems(items[1..]);
    }
    slots := [slot] + rest;
    assert slots[1..] == rest;
    SlotsBuilt(slots);
  }

  lemma {:induction false} CompactEntry(e: Documents.Entry) returns (p: Pair)
    requires Documents.ProperEntry(e)
    ensures CorrectPair(p) && CompactPair(p) && SpelledPair(p) == Documents.RenderEntry(e)
    decreases e, 1
  {
    hide Documents.Proper, Documents.Render, Correct, Compact, Spelled, SpelledName, Lexicon.AllCorrect, Quoted;
    match e
    case Entry(style, key, value) =>
      var name := QuotedName(style, key);
      var f := CompactForm(value);
      EmptyGap();
      p := Pair([], name, [], [], f, []);
      PairText(p, Spelled(f));
      assert Spelled(f) == Spelled(p.form) + p.after;
      assert SpelledPair(p) == SpelledName(name) + [0x3A] + Spelled(f);
  }

  lemma {:induction false} CompactEntries(entries: seq<Documents.Entry>) returns (pairs: seq<Pair>)
    requires entries != [] && Documents.ProperEntries(entries)
    ensures pairs != [] && CorrectPairs(pairs) && CompactPairs(pairs) && SpelledPairs(pairs) == Documents.RenderEntries(entries) + [0x7D]
    decreases entries, 1
  {
    hide Documents.ProperEntry, Documents.RenderEntry, CorrectPair, CompactPair, SpelledPair;
    var pair := CompactEntry(entries[0]);
    var rest := [];
    NoSlots();
    NothingCompact();
    if |entries| > 1 {
      rest := CompactEntries(entries[1..]);
    }
    pairs := [pair] + rest;
    assert pairs[1..] == rest;
    PairsBuilt(pairs);
  }
}
