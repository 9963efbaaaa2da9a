/**
 Compact text of a value tree, and the proof that the grammar reads it back: the same shape, the same
 decoded strings, the same number spellings.
 */
module Documents {
  import opened Json
  import opened Strings
  import opened Quoting
  import opened Window
  import opened Brackets
  import Decimal

  /** A value as a caller describes it, token by token. */
  datatype Tree =
    | Text(style: Style, text: bytes)
    | NumberText(token: bytes)
    | BoolValue(b: bool)
    | NullValue
    | List(items: seq<Tree>)
    | Dict(entries: seq<Entry>)

  datatype Entry = Entry(style: Style, key: bytes, value: Tree)

  function Render(t: Tree): bytes
    decreases t, 1
  {
    match t
    case Text(style, text) => Quoted(style, text)
    case NumberText(token) => token
    case BoolValue(b) => if b then TRUE else FALSE
    case NullValue => NULL
    case List(items) => [LBRACKET] + RenderItems(items) + [RBRACKET]
    case Dict(entries) => [LBRACE] + RenderEntries(entries) + [RBRACE]
  }

  function RenderItems(items: seq<Tree>): bytes
    decreases items, 0
  {
    if items == [] then [] else if |items| == 1 then Render(items[0]) else Render(items[0]) + [COMMA] + RenderItems(items[1..])
  }

  function RenderEntry(e: Entry): bytes
    decreases e, 0
  {
    match e case Entry(style, key, value) => Quoted(style, key) + [COLON] + Render(value)
  }

  function RenderEntries(entries: seq<Entry>): bytes
    decreases entries, 0
  {
    if entries == [] then [] else if |entries| == 1 then RenderEntry(entries[0]) else RenderEntry(entries[0]) + [COMMA] + RenderEntries(entries[1..])
  }

  /** Number tokens are numbers. */
  predicate Proper(t: Tree)
    decreases t, 1
  {
    match t
    case NumberText(token) => Decimal.IsNumber(token)
    case List(items) => ProperItems(items)
    case Dict(entries) => ProperEntries(entries)
    case _ => true
  }

  predicate ProperItems(items: seq<Tree>)
    decreases items, 0
  {
    items == [] || (Proper(items[0]) && ProperItems(items[1..]))
  }

  predicate ProperEntry(e: Entry)
    decreases e, 0
  {
    match e case Entry(_, _, value) => Proper(value)
  }

  predicate ProperEntries(entries: seq<Entry>)
    decreases entries, 0
  {
    entries == [] || (ProperEntry(entries[0]) && ProperEntries(entries[1..]))
  }

  function Max(a: nat, b: nat): nat {
    if a >= b then a else b
  }

  /** Containers on the longest path. */
  function Height(t: Tree): nat
    decreases t, 1
  {
    match t
    case List(items) => 1 + HeightOfItems(items)
    case Dict(entries) => 1 + HeightOfEntries(entries)
    case _ => 0
  }

  function HeightOfItems(items: seq<Tree>): nat
    decreases items, 0
  {
    if items == [] then 0 else Max(Height(items[0]), HeightOfItems(items[1..]))
  }

  function HeightOfEntry(e: Entry): nat
    decreases e, 0
  {
    match e case Entry(_, _, value) => Height(value)
  }

  function HeightOfEntries(entries: seq<Entry>): nat
    decreases entries, 0
  {
    if entries == [] then 0 else Max(HeightOfEntry(entries[0]), HeightOfEntries(entries[1..]))
  }

  // ---- What a parsed value spells --------------------------------------------------------------------------

  /** v, parsed from s, is the value that t describes. */
  predicate Spells(s: bytes, v: Value, t: Tree)
    decreases t, 1
  {
    match t
    case Text(_, text) =>
      v.Scalar? && v.kind == String && v.start + 2 <= v.end <= |s| && WellEscaped(s, v.start + 1, v.end - 1) && TokenText(s, v.start, v.end) == Repaired(text, 0)
    case NumberText(token) => v.Scalar? && v.kind == Number && v.start <= v.end <= |s| && s[v.start..v.end] == token
    case BoolValue(b) => v.Scalar? && v.kind == Bool && v.start <= v.end <= |s| && s[v.start..v.end] == if b then TRUE else FALSE
    case NullValue => v.Scalar? && v.kind == Null
    case List(items) => v.Arr? && SpellsItems(s, v.items, items)
    case Dict(entries) => v.Obj? && SpellsEntries(s, v.members, entries)
  }

  predicate SpellsItems(s: bytes, vs: seq<Value>, items: seq<Tree>)
    decreases items, 0
  {
    |vs| == |items| && (items == [] || (Spells(s, vs[0], items[0]) && SpellsItems(s, vs[1..], items[1..])))
  }

  predicate SpellsEntry(s: bytes, m: Member, e: Entry)
    decreases e, 0
  {
    match e
    case Entry(_, key, value) =>
      m.key.start + 2 <= m.key.end <= |s| && WellEscaped(s, m.key.start + 1, m.key.end - 1) &&
      TokenText(s, m.key.start, m.key.end) == Repaired(key, 0) && Spells(s, m.value, value)
  }

  predicate SpellsEntries(s: bytes, ms: seq<Member>, entries: seq<Entry>)
    decreases entries, 0
  {
    |ms| == |entries| && (entries == [] || (SpellsEntry(s, ms[0], entries[0]) && SpellsEntries(s, ms[1..], entries[1..])))
  }

  // ---- Tokens in place -----------------------------------------------------------------------------------------

  /** Nothing that could continue a number stands at i. */
  predicate Ends(s: bytes, i: nat) {
    i >= |s| || !IsNumberByte(s[i])
  }

  lemma {:induction false} DigitsFollowed(w: bytes, s: bytes, a: nat, i: nat)
    requires Within(w, s, a) && i <= |w| && Ends(s, a + |w|)
    ensures SkipDigits(s, a + i) == a + SkipDigits(w, i)
    decreases |w| - i
  {
    if i < |w| && IsDigit(w[i]) {
      DigitsFollowed(w, s, a, i + 1);
    }
  }

  lemma ExponentFollowed(w: bytes, s: bytes, a: nat, i: nat, integer: bool)
    requires Within(w, s, a) && i <= |w| && Ends(s, a + |w|) && ScanExponent(w, i, integer).NumberToken?
    ensures ScanExponent(s, a + i, integer) == NumberToken(a + ScanExponent(w, i, integer).end, ScanExponent(w, i, integer).integer)
  {
    if i < |w| {
      DigitsFollowed(w, s, a, if i + 1 < |w| && (w[i + 1] == PLUS || w[i + 1] == MINUS) then i + 2 else i + 1);
    }
  }

  lemma FractionFollowed(w: bytes, s: bytes, a: nat, i: nat)
    requires Within(w, s, a) && i <= |w| && Ends(s, a + |w|) && ScanFraction(w, i).NumberToken?
    ensures ScanFraction(s, a + i) == NumberToken(a + ScanFraction(w, i).end, ScanFraction(w, i).integer)
  {
    if i < |w| && w[i] == DOT {
      DigitsFollowed(w, s, a, i + 1);
      ExponentFollowed(w, s, a, SkipDigits(w, i + 1), false);
    } else {
      ExponentFollowed(w, s, a, i, true);
    }
  }

  /** A number token keeps its end when no number byte follows it. */
  lemma NumberFollowed(w: bytes, s: bytes, a: nat)
    requires Within(w, s, a) && Ends(s, a + |w|) && ScanNumber(w, 0).NumberToken?
    ensures ScanNumber(s, a) == NumberToken(a + ScanNumber(w, 0).end, ScanNumber(w, 0).integer)
  {
    hide ScanFraction;
    var j := if ByteAt(w, 0, MINUS) then 1 else 0;
    DigitsFollowed(w, s, a, j);
    FractionFollowed(w, s, a, if w[j] == DIGIT0 then j + 1 else SkipDigits(w, j));
  }

  lemma AtWithin(s: bytes, p: nat, t: bytes)
    requires At(s, p, t)
    ensures Within(t, s, p)
  {
    forall k | 0 <= k < |t|
      ensures t[k] == s[p + k]
    {
      AtByte(s, p, t, k);
    }
  }

  lemma AtText(s: bytes, i: nat, t: bytes)
    requires At(s, i, t)
    ensures i + |t| <= |s| && s[i..i + |t|] == t
  {
  }

  lemma NumberReads(s: bytes, i: nat, token: bytes)
    requires Decimal.IsNumber(token) && At(s, i, token) && Ends(s, i + |token|)
    ensures i < |s| && ParseScalar(s, i).Good? && ParseScalar(s, i).end == i + |token| && Spells(s, ParseScalar(s, i).val, NumberText(token))
    ensures s[i] != LBRACE && s[i] != LBRACKET
  {
    hide ScanNumber, At, ParseScalar;
    NumberStarts(token);
    AtWithin(s, i, token);
    NumberFollowed(token, s, i);
    AtByte(s, i, token, 0);
    NumberScalar(s, i);
    AtText(s, i, token);
  }

  lemma NumberScalar(s: bytes, i: nat)
    requires i < |s| && (s[i] == MINUS || IsDigit(s[i])) && ScanNumber(s, i).NumberToken?
    ensures var t := ScanNumber(s, i); ParseScalar(s, i) == Good(Scalar(Number, i, t.end, t.integer), t.end)
  {
    hide ScanNumber;
  }

  lemma NumberStarts(token: bytes)
    requires Decimal.IsNumber(token)
    ensures token != [] && (token[0] == MINUS || IsDigit(token[0]))
  {
    hide ScanFraction;
  }

  lemma LiteralReads(s: bytes, i: nat, t: Tree)
    requires (t.BoolValue? || t.NullValue?) && At(s, i, Render(t))
    ensures i < |s| && ParseScalar(s, i).Good? && ParseScalar(s, i).end == i + |Render(t)| && Spells(s, ParseScalar(s, i).val, t)
    ensures s[i] != LBRACE && s[i] != LBRACKET
  {
    AtByte(s, i, Render(t), 0);
  }

  lemma TextReads(s: bytes, i: nat, style: Style, text: bytes)
    requires At(s, i, Quoted(style, text))
    ensures i < |s| && ParseScalar(s, i).Good? && ParseScalar(s, i).end == i + |Quoted(style, text)| && Spells(s, ParseScalar(s, i).val, Text(style, text))
    ensures s[i] == QUOTE
  {
    hide ScanString, WellEscaped, Decode, Escaped, Repaired;
    QuotedRoundTrip(style, text, s, i);
  }

  /** Compact text starts with a byte that is neither whitespace nor a closing bracket. */
  predicate Opens(c: byte) {
    !IsSpace(c) && c != RBRACKET && c != RBRACE && c != COMMA
  }

  lemma FirstByte(t: Tree)
    requires Proper(t)
    ensures Render(t) != [] && Opens(Render(t)[0])
  {
    hide ScanFraction;
  }

  lemma NoSpace(s: bytes, i: nat)
    requires i < |s| && !IsSpace(s[i])
    ensures SkipSpace(s, i) == i
  {
  }

  // ---- The grammar reads compact text --------------------------------------------------------------------------------

  /**
   Compact text anywhere in the input is one value of the grammar, and that value spells the tree it was rendered from,
   as long as no number byte follows it and the nesting fits.
   */
  lemma {:induction false} TreeReads(s: bytes, i: nat, t: Tree, d: nat, max: nat)
    requires Proper(t) && At(s, i, Render(t)) && Ends(s, i + |Render(t)|) && d + Height(t) <= max
    ensures var r := ParseValue(s, i, d, max);
            r.Good? && r.end == i + |Render(t)| && Spells(s, r.val, t)
    decreases t, 2
  {
    match t
    case Text(style, text) => TextReads(s, i, style, text);
    case NumberText(token) => NumberReads(s, i, token);
    case BoolValue(_) => LiteralReads(s, i, t);
    case NullValue => LiteralReads(s, i, t);
    case List(items) => ListReads(s, i, items, d, max);
    case Dict(entries) => DictReads(s, i, entries, d, max);
  }

  lemma NothingRendered()
    ensures RenderItems([]) == [] && RenderEntries([]) == []
  {
  }

  lemma {:induction false} ListReads(s: bytes, i: nat, items: seq<Tree>, d: nat, max: nat)
    requires ProperItems(items) && At(s, i, Render(List(items))) && d + 1 + HeightOfItems(items) <= max
    ensures var r := ParseValue(s, i, d, max);
            r.Good? && r.end == i + |Render(List(items))| && Spells(s, r.val, List(items))
    decreases items, 3
  {
    hide At, ParseElements, RenderItems, ProperItems, HeightOfItems;
    var body := RenderItems(items) + [RBRACKET];
    assert Render(List(items)) == [LBRACKET] + body;
    AtParts(s, i, [LBRACKET], body);
    AtByte(s, i, [LBRACKET], 0);
    if items == [] {
      NothingRendered();
      AtByte(s, i + 1, body, 0);
      NoSpace(s, i + 1);
    } else {
      ItemsRead(s, i + 1, items, d + 1, max);
      ItemsOpen(items);
      AtByte(s, i + 1, body, 0);
      NoSpace(s, i + 1);
    }
  }

  lemma ItemsOpen(items: seq<Tree>)
    requires ProperItems(items) && items != []
    ensures RenderItems(items) != [] && Opens(RenderItems(items)[0])
  {
    hide Proper, Render;
    FirstByte(items[0]);
  }

  lemma ItemsParts(items: seq<Tree>)
    requires items != []
    ensures ProperItems(items) ==> Proper(items[0]) && ProperItems(items[1..])
    ensures Height(items[0]) <= HeightOfItems(items) && HeightOfItems(items[1..]) <= HeightOfItems(items)
    ensures RenderItems(items) + [RBRACKET] ==
            Render(items[0]) + if |items| == 1 then [RBRACKET] else [COMMA] + (RenderItems(items[1..]) + [RBRACKET])
  {
    hide Render, Proper, Height;
    if |items| > 1 {
      assert Render(items[0]) + [COMMA] + RenderItems(items[1..]) + [RBRACKET] == Render(items[0]) + ([COMMA] + (RenderItems(items[1..]) + [RBRACKET]));
    }
  }

  /** An element followed by the closing bracket, or by a comma and more elements, without whitespace. */
  lemma ElementsNext(s: bytes, i: nat, d: nat, max: nat)
    requires i <= |s| && ParseValue(s, i, d, max).Good?
    ensures var v, r := ParseValue(s, i, d, max), ParseElements(s, i, d, max);
            (ByteAt(s, v.end, RBRACKET) ==> r == Good([v.val] + [], v.end + 1)) &&
            (ByteAt(s, v.end, COMMA) && v.end + 1 < |s| && !IsSpace(s[v.end + 1]) ==>
               (var rest := ParseElements(s, v.end + 1, d, max); rest.Good? ==> r == Good([v.val] + rest.val, rest.end)))
  {
    hide ParseValue, SkipSpace;
    var v := ParseValue(s, i, d, max);
    if v.end < |s| && !IsSpace(s[v.end]) {
      NoSpace(s, v.end);
      if v.end + 1 < |s| && !IsSpace(s[v.end + 1]) {
        NoSpace(s, v.end + 1);
      }
    }
  }

  lemma MembersNext(s: bytes, i: nat, d: nat, max: nat)
    requires i <= |s| && ParseKey(s, i).Good? && ParseValue(s, ParseKey(s, i).end, d, max).Good?
    ensures var k := ParseKey(s, i);
            var v, r := ParseValue(s, k.end, d, max), ParseMembers(s, i, d, max);
            (ByteAt(s, v.end, RBRACE) ==> r == Good([Member(k.val, v.val)] + [], v.end + 1)) &&
            (ByteAt(s, v.end, COMMA) && v.end + 1 < |s| && !IsSpace(s[v.end + 1]) ==>
               (var rest := ParseMembers(s, v.end + 1, d, max); rest.Good? ==> r == Good([Member(k.val, v.val)] + rest.val, rest.end)))
  {
    hide ParseValue, ParseKey, SkipSpace;
    var v := ParseValue(s, ParseKey(s, i).end, d, max);
    if v.end < |s| && !IsSpace(s[v.end]) {
      NoSpace(s, v.end);
      if v.end + 1 < |s| && !IsSpace(s[v.end + 1]) {
        NoSpace(s, v.end + 1);
      }
    }
  }

  lemma {:induction false} ItemsRead(s: bytes, i: nat, items: seq<Tree>, d: nat, max: nat)
    requires items != [] && ProperItems(items) && At(s, i, RenderItems(items) + [RBRACKET]) && d + HeightOfItems(items) <= max
    ensures var r := ParseElements(s, i, d, max);
            r.Good? && r.end == i + |RenderItems(items)| + 1 && SpellsItems(s, r.val, items)
    decreases items, 0
  {
    hide At, ParseValue, ParseElements, Render, Proper, Height, Spells, SpellsItems, SkipSpace, RenderItems, ProperItems, HeightOfItems;
    var first := items[0];
    var tail := RenderItems(items[1..]) + [RBRACKET];
    var after := if |items| == 1 then [RBRACKET] else [COMMA] + tail;
    ItemsParts(items);
    AtParts(s, i, Render(first), after);
    var e := i + |Render(first)|;
    AtByte(s, e, after, 0);
    TreeReads(s, i, first, d, max);
    ElementsNext(s, i, d, max);
    var v := ParseValue(s, i, d, max).val;
    if |items| == 1 {
      ItemsLast(s, v, items);
    } else {
      AtParts(s, e, [COMMA], tail);
      ItemsOpen(items[1..]);
      AtByte(s, e + 1, tail, 0);
      ItemsRead(s, e + 1, items[1..], d, max);
      ItemsMore(s, v, ParseElements(s, e + 1, d, max).val, items);
    }
  }

  lemma ItemsMore(s: bytes, v: Value, rest: seq<Value>, items: seq<Tree>)
    requires items != [] && Spells(s, v, items[0]) && SpellsItems(s, rest, items[1..])
    ensures SpellsItems(s, [v] + rest, items)
  {
    hide Spells;
    assert ([v] + rest)[1..] == rest;
  }

  lemma ItemsLast(s: bytes, v: Value, items: seq<Tree>)
    requires |items| == 1 && Spells(s, v, items[0])
    ensures SpellsItems(s, [v] + [], items)
  {
    hide Spells;
    assert [v] + [] == [v] && [v][1..] == [] && items[1..] == [];
  }

  lemma {:induction false} DictReads(s: bytes, i: nat, entries: seq<Entry>, d: nat, max: nat)
    requires ProperEntries(entries) && At(s, i, Render(Dict(entries))) && d + 1 + HeightOfEntries(entries) <= max
    ensures var r := ParseValue(s, i, d, max);
            r.Good? && r.end == i + |Render(Dict(entries))| && Spells(s, r.val, Dict(entries))
    decreases entries, 3
  {
    hide At, ParseMembers, RenderEntries, ProperEntries, HeightOfEntries;
    var body := RenderEntries(entries) + [RBRACE];
    assert Render(Dict(entries)) == [LBRACE] + body;
    AtParts(s, i, [LBRACE], body);
    AtByte(s, i, [LBRACE], 0);
    if entries == [] {
      NothingRendered();
      AtByte(s, i + 1, body, 0);
      NoSpace(s, i + 1);
    } else {
      EntriesRead(s, i + 1, entries, d + 1, max);
      EntriesOpen(entries);
      AtByte(s, i + 1, body, 0);
      NoSpace(s, i + 1);
    }
  }

  lemma EntriesOpen(entries: seq<Entry>)
    requires entries != []
    ensures RenderEntries(entries) != [] && RenderEntries(entries)[0] == QUOTE
  {
    hide Escaped;
  }

  lemma EntriesParts(entries: seq<Entry>)
    requires entries != []
    ensures ProperEntries(entries) ==> ProperEntry(entries[0]) && ProperEntries(entries[1..])
    ensures HeightOfEntry(entries[0]) <= HeightOfEntries(entries) && HeightOfEntries(entries[1..]) <= HeightOfEntries(entries)
    ensures RenderEntries(entries) + [RBRACE] ==
            RenderEntry(entries[0]) + if |entries| == 1 then [RBRACE] else [COMMA] + (RenderEntries(entries[1..]) + [RBRACE])
  {
    hide RenderEntry, ProperEntry, HeightOfEntry;
    if |entries| > 1 {
      assert RenderEntry(entries[0]) + [COMMA] + RenderEntries(entries[1..]) + [RBRACE] == RenderEntry(entries[0]) + ([COMMA] + (RenderEntries(entries[1..]) + [RBRACE]));
    }
  }

  lemma KeyReads(s: bytes, i: nat, style: Style, key: bytes)
    requires At(s, i, Quoted(style, key) + [COLON])
    requires var e := i + |Quoted(style, key)|; e + 1 < |s| ==> !IsSpace(s[e + 1])
    ensures var k := ParseKey(s, i);
            k.Good? && k.end == i + |Quoted(style, key)| + 1 && k.val.start == i && i + 2 <= k.val.end == i + |Quoted(style, key)| <= |s| &&
            WellEscaped(s, i + 1, k.val.end - 1) && TokenText(s, i, k.val.end) == Repaired(key, 0)
  {
    hide ScanString, WellEscaped, Decode, Escaped, Repaired, At;
    var e := i + |Quoted(style, key)|;
    AtParts(s, i, Quoted(style, key), [COLON]);
    QuotedRoundTrip(style, key, s, i);
    AtByte(s, e, [COLON], 0);
    NoSpace(s, e);
    if e + 1 < |s| {
      NoSpace(s, e + 1);
    }
  }

  lemma {:induction false} EntriesRead(s: bytes, i: nat, entries: seq<Entry>, d: nat, max: nat)
    requires entries != [] && ProperEntries(entries) && At(s, i, RenderEntries(entries) + [RBRACE]) && d + HeightOfEntries(entries) <= max
    ensures var r := ParseMembers(s, i, d, max);
            r.Good? && r.end == i + |RenderEntries(entries)| + 1 && SpellsEntries(s, r.val, entries)
    decreases entries, 1
  {
    hide At, RenderEntry, ProperEntry, HeightOfEntry, SpellsEntry, SpellsEntries, RenderEntries, ProperEntries, HeightOfEntries,
         ParseKey, ParseValue, ParseMembers, SkipSpace, IsSpace, IsNumberByte;
    EntriesParts(entries);
    EntriesPlace(s, i, entries);
    EntryReads(s, i, entries[0], d, max);
    MembersNext(s, i, d, max);
    var k := ParseKey(s, i);
    var m := Member(k.val, ParseValue(s, k.end, d, max).val);
    if |entries| == 1 {
      EntriesLast(s, m, entries);
    } else {
      var e := i + |RenderEntry(entries[0])|;
      EntriesRead(s, e + 1, entries[1..], d, max);
      EntriesMore(s, m, ParseMembers(s, e + 1, d, max).val, entries);
    }
  }

  /** Where the first entry and what follows it lie. */
  lemma EntriesPlace(s: bytes, i: nat, entries: seq<Entry>)
    requires entries != [] && At(s, i, RenderEntries(entries) + [RBRACE])
    ensures var e := i + |RenderEntry(entries[0])|;
            At(s, i, RenderEntry(entries[0])) && e < |s| && Ends(s, e) &&
            if |entries| == 1 then s[e] == RBRACE && |RenderEntries(entries)| == e - i
            else s[e] == COMMA && e + 1 < |s| && !IsSpace(s[e + 1]) && At(s, e + 1, RenderEntries(entries[1..]) + [RBRACE]) &&
                 i + |RenderEntries(entries)| == e + 1 + |RenderEntries(entries[1..])|
  {
    hide At, RenderEntry, RenderEntries;
    var after := if |entries| == 1 then [RBRACE] else [COMMA] + (RenderEntries(entries[1..]) + [RBRACE]);
    EntriesParts(entries);
    AtParts(s, i, RenderEntry(entries[0]), after);
    var e := i + |RenderEntry(entries[0])|;
    AtByte(s, e, after, 0);
    if |entries| > 1 {
      AtParts(s, e, [COMMA], RenderEntries(entries[1..]) + [RBRACE]);
      EntriesOpen(entries[1..]);
      AtByte(s, e + 1, RenderEntries(entries[1..]) + [RBRACE], 0);
    }
  }

  lemma EntriesLast(s: bytes, m: Member, entries: seq<Entry>)
    requires |entries| == 1 && SpellsEntry(s, m, entries[0])
    ensures SpellsEntries(s, [m] + [], entries)
  {
    hide SpellsEntry;
    assert [m] + [] == [m] && [m][1..] == [] && entries[1..] == [];
  }

  lemma EntriesMore(s: bytes, m: Member, rest: seq<Member>, entries: seq<Entry>)
    requires entries != [] && SpellsEntry(s, m, entries[0]) && SpellsEntries(s, rest, entries[1..])
    ensures SpellsEntries(s, [m] + rest, entries)
  {
    hide SpellsEntry;
    assert ([m] + rest)[1..] == rest;
  }

  lemma {:induction false} EntryReads(s: bytes, i: nat, en: Entry, d: nat, max: nat)
    requires ProperEntry(en) && At(s, i, RenderEntry(en)) && Ends(s, i + |RenderEntry(en)|) && d + HeightOfEntry(en) <= max
    ensures var k := ParseKey(s, i);
            k.Good? &&
            var v := ParseValue(s, k.end, d, max);
            v.Good? && v.end == i + |RenderEntry(en)| && SpellsEntry(s, Member(k.val, v.val), en)
    decreases en, 0
  {
    hide At, Quoted, ParseKey, ParseValue, Spells, WellEscaped, Decode;
    match en
    case Entry(style, key, value) =>
      var name := Quoted(style, key) + [COLON];
      AtParts(s, i, name, Render(value));
      FirstByte(value);
      AtByte(s, i + |name|, Render(value), 0);
      KeyReads(s, i, style, key);
      TreeReads(s, i + |name|, value, d, max);
  }

  /** Compact text is a document that spells its tree. */
  lemma DocumentReads(t: Tree, max: nat)
    requires Proper(t) && Height(t) <= max
    ensures var doc := ParseDocument(Render(t), max); doc.Some? && Spells(Render(t), doc.value, t)
  {
    var s := Render(t);
    FirstByte(t);
    NoSpace(s, 0);
    assert s[0..|s|] == s;
    TreeReads(s, 0, t, 0, max);
  }
}
