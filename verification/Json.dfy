/**
 The reference the rest of the project is proved against: the JSON grammar of sections 2 to 7 of
 RFC 8259 over byte sequences, as a recursive parser that yields a value tree.

 Trees keep source spans, and duplicate members in document order. Every parsing function takes
 the depth `d` (containers already open) and the limit `max`.
 */
module Json {

  type byte = b: int | 0 <= b < 0x100

  type bytes = seq<byte>

  datatype Option<+T> = None | Some(value: T)

  const TWO_TO_THE_64: nat := 0x1_0000_0000_0000_0000
  const MAX_INT: nat := 0x7FFF_FFFF_FFFF_FFFF

  const DEFAULT_MAX_DEPTH: nat := 10000

  const TAB: byte := 0x09
  const LF: byte := 0x0A
  const CR: byte := 0x0D
  const SPACE: byte := 0x20
  const QUOTE: byte := 0x22
  const PLUS: byte := 0x2B
  const COMMA: byte := 0x2C
  const MINUS: byte := 0x2D
  const DOT: byte := 0x2E
  const SLASH: byte := 0x2F
  const DIGIT0: byte := 0x30
  const DIGIT9: byte := 0x39
  const COLON: byte := 0x3A
  const LBRACKET: byte := 0x5B
  const BACKSLASH: byte := 0x5C
  const RBRACKET: byte := 0x5D
  const LOWER_U: byte := 0x75
  const LBRACE: byte := 0x7B
  const RBRACE: byte := 0x7D

  const TRUE: bytes := [0x74, 0x72, 0x75, 0x65]
  const FALSE: bytes := [0x66, 0x61, 0x6C, 0x73, 0x65]
  const NULL: bytes := [0x6E, 0x75, 0x6C, 0x6C]

  // ---- Lexical level -------------------------------------------------------------------------

  predicate IsSpace(c: byte) {
    c == SPACE || c == LF || c == CR || c == TAB
  }

  predicate IsDigit(c: byte) {
    DIGIT0 <= c <= DIGIT9
  }

  /** Bytes that end a clean run inside a string: quote, backslash, control or non-ASCII. */
  predicate IsStringSpecial(c: byte) {
    c == QUOTE || c == BACKSLASH || c < 0x20 || c >= 0x80
  }

  function SkipSpace(s: bytes, i: nat): (j: nat)
    requires i <= |s|
    ensures i <= j <= |s|
    decreases |s| - i
  {
    if i < |s| && IsSpace(s[i]) then SkipSpace(s, i + 1) else i
  }

  function SkipDigits(s: bytes, i: nat): (j: nat)
    requires i <= |s|
    ensures i <= j <= |s|
    decreases |s| - i
  {
    if i < |s| && IsDigit(s[i]) then SkipDigits(s, i + 1) else i
  }

  predicate DigitAt(s: bytes, i: nat) {
    i < |s| && IsDigit(s[i])
  }

  predicate ByteAt(s: bytes, i: nat, c: byte) {
    i < |s| && s[i] == c
  }

  predicate LiteralAt(s: bytes, i: nat, lit: bytes) {
    i + |lit| <= |s| && s[i..i + |lit|] == lit
  }

  datatype NumberToken = BadNumber | NumberToken(end: nat, integer: bool)

  /** The optional exponent of section 6, starting at i. */
  function ScanExponent(s: bytes, i: nat, integer: bool): (t: NumberToken)
    requires i <= |s|
    ensures t.NumberToken? ==> i <= t.end <= |s|
  {
    if i < |s| && (s[i] == 0x65 || s[i] == 0x45) then
      var j := if i + 1 < |s| && (s[i + 1] == PLUS || s[i + 1] == MINUS) then i + 2 else i + 1;
      if DigitAt(s, j) then NumberToken(SkipDigits(s, j), false) else BadNumber
    else NumberToken(i, integer)
  }

  /** The optional fraction and exponent of section 6, starting at i. */
  function ScanFraction(s: bytes, i: nat): (t: NumberToken)
    requires i <= |s|
    ensures t.NumberToken? ==> i <= t.end <= |s|
  {
    if i < |s| && s[i] == DOT then
      if DigitAt(s, i + 1) then ScanExponent(s, SkipDigits(s, i + 1), false) else BadNumber
    else ScanExponent(s, i, true)
  }

  /** A number token at i (section 6); `integer` means neither fraction nor exponent. */
  function ScanNumber(s: bytes, i: nat): (t: NumberToken)
    requires i <= |s|
    ensures t.NumberToken? ==> i < t.end <= |s|
  {
    var j := if ByteAt(s, i, MINUS) then i + 1 else i;
    if !DigitAt(s, j) then BadNumber
    else if s[j] == DIGIT0 then ScanFraction(s, j + 1)
    else ScanFraction(s, SkipDigits(s, j))
  }

  /** The value of a hexadecimal digit, or 16 for any other byte. */
  function HexDigit(c: byte): (v: nat)
    ensures v <= 16
  {
    if DIGIT0 <= c <= DIGIT9 then c - DIGIT0
    else if 0x61 <= c <= 0x66 then c - 0x61 + 10
    else if 0x41 <= c <= 0x46 then c - 0x41 + 10
    else 16
  }

  /** Four hexadecimal digits at i, or 0x10000 when they are not all there. */
  function Hex4(s: bytes, i: nat): (u: nat)
    ensures u <= 0x10000
    ensures u < 0x10000 ==> i + 4 <= |s|
  {
    if i + 4 <= |s| && HexDigit(s[i]) < 16 && HexDigit(s[i + 1]) < 16 &&
       HexDigit(s[i + 2]) < 16 && HexDigit(s[i + 3]) < 16
    then HexDigit(s[i]) * 0x1000 + HexDigit(s[i + 1]) * 0x100 + HexDigit(s[i + 2]) * 0x10 + HexDigit(s[i + 3])
    else 0x10000
  }

  predicate IsSimpleEscape(c: byte) {
    c == QUOTE || c == BACKSLASH || c == SLASH || c == 0x62 || c == 0x66 || c == 0x6E || c == 0x72 || c == 0x74
  }

  /** A unicode escape at i whose four digits are `u`: the high half of a pair needs its low half. */
  function UnicodeEscapeLength(s: bytes, i: nat): (n: nat)
    requires i <= |s|
    ensures n == 0 || n == 6 || n == 12
    ensures i + n <= |s|
  {
    var u := Hex4(s, i + 2);
    if u == 0x10000 then 0
    else if 0xD800 <= u <= 0xDBFF then
      if i + 12 <= |s| && s[i + 6] == BACKSLASH && s[i + 7] == LOWER_U && 0xDC00 <= Hex4(s, i + 8) <= 0xDFFF then 12 else 0
    else if 0xDC00 <= u <= 0xDFFF then 0
    else 6
  }

  /** Length of the escape sequence whose backslash is at i (section 7), or 0 if malformed. */
  function EscapeLength(s: bytes, i: nat): (n: nat)
    requires i <= |s|
    ensures n == 0 || n == 2 || n == 6 || n == 12
    ensures i + n <= |s|
  {
    if i + 1 >= |s| then 0
    else if IsSimpleEscape(s[i + 1]) then 2
    else if s[i + 1] == LOWER_U then UnicodeEscapeLength(s, i)
    else 0
  }

  predicate Continuation(s: bytes, i: nat) {
    i < |s| && 0x80 <= s[i] <= 0xBF
  }

  predicate ByteIn(s: bytes, i: nat, lo: byte, hi: byte) {
    i < |s| && lo <= s[i] <= hi
  }

  /** Length of the well-formed UTF-8 sequence at i, or 0. */
  function Utf8Length(s: bytes, i: nat): (n: nat)
    requires i < |s|
    ensures n <= 4 && i + n <= |s|
  {
    var c := s[i];
    if c < 0x80 then 1
    else if 0xC2 <= c <= 0xDF then if Continuation(s, i + 1) then 2 else 0
    else if 0xE0 <= c <= 0xEF then
      var lo: byte := if c == 0xE0 then 0xA0 else 0x80;
      var hi: byte := if c == 0xED then 0x9F else 0xBF;
      if ByteIn(s, i + 1, lo, hi) && Continuation(s, i + 2) then 3 else 0
    else if 0xF0 <= c <= 0xF4 then
      var lo: byte := if c == 0xF0 then 0x90 else 0x80;
      var hi: byte := if c == 0xF4 then 0x8F else 0xBF;
      if ByteIn(s, i + 1, lo, hi) && Continuation(s, i + 2) && Continuation(s, i + 3) then 4 else 0
    else 0
  }

  datatype StringToken = BadString | StringToken(end: nat, escaped: bool)

  /** The rest of a string from interior position i through its closing quote (section 7). */
  function ScanString(s: bytes, i: nat): (t: StringToken)
    requires i <= |s|
    ensures t.StringToken? ==> i < t.end <= |s| && s[t.end - 1] == QUOTE
    decreases |s| - i
  {
    if i >= |s| then BadString
    else if s[i] == QUOTE then StringToken(i + 1, false)
    else if s[i] == BACKSLASH then
      var n := EscapeLength(s, i);
      if n == 0 then BadString
      else
        var t := ScanString(s, i + n);
        if t.BadString? then BadString else StringToken(t.end, true)
    else if s[i] < 0x20 then BadString
    else
      var n := Utf8Length(s, i);
      if n == 0 then BadString else ScanString(s, i + n)
  }

  // ---- Value trees ---------------------------------------------------------------------------

  datatype Kind = Null | Bool | Number | String | Array | Object

  /** A source span; `flag` is the escaped bit of a string or the plain-integer bit of a number. */
  datatype Value =
    | Scalar(kind: Kind, start: nat, end: nat, flag: bool)
    | Arr(start: nat, end: nat, items: seq<Value>)
    | Obj(start: nat, end: nat, members: seq<Member>)

  datatype Key = Key(start: nat, end: nat, escaped: bool)

  datatype Member = Member(key: Key, value: Value)

  datatype Parsed<+T> = Bad | Good(val: T, end: nat)

  function KindOf(v: Value): Kind {
    match v
    case Scalar(k, _, _, _) => k
    case Arr(_, _, _) => Array
    case Obj(_, _, _) => Object
  }

  // ---- Grammar -------------------------------------------------------------------------------

  /** One value whose first byte is at i. */
  function ParseValue(s: bytes, i: nat, d: nat, max: nat): (r: Parsed<Value>)
    requires i <= |s|
    ensures r.Good? ==> i < r.end <= |s| && r.val.start == i && r.val.end == r.end
    decreases |s| - i, 0
  {
    if i >= |s| then Bad
    else if s[i] == LBRACE then
      if d >= max then Bad
      else
        var j := SkipSpace(s, i + 1);
        if ByteAt(s, j, RBRACE) then Good(Obj(i, j + 1, []), j + 1)
        else
          var r := ParseMembers(s, j, d + 1, max);
          if r.Bad? then Bad else Good(Obj(i, r.end, r.val), r.end)
    else if s[i] == LBRACKET then
      if d >= max then Bad
      else
        var j := SkipSpace(s, i + 1);
        if ByteAt(s, j, RBRACKET) then Good(Arr(i, j + 1, []), j + 1)
        else
          var r := ParseElements(s, j, d + 1, max);
          if r.Bad? then Bad else Good(Arr(i, r.end, r.val), r.end)
    else ParseScalar(s, i)
  }

  function ParseScalar(s: bytes, i: nat): (r: Parsed<Value>)
    requires i < |s|
    ensures r.Good? ==> i < r.end <= |s| && r.val.Scalar? && r.val.start == i && r.val.end == r.end
  {
    if s[i] == QUOTE then
      var t := ScanString(s, i + 1);
      if t.BadString? then Bad else Good(Scalar(String, i, t.end, t.escaped), t.end)
    else if s[i] == TRUE[0] then
      if LiteralAt(s, i, TRUE) then Good(Scalar(Bool, i, i + 4, false), i + 4) else Bad
    else if s[i] == FALSE[0] then
      if LiteralAt(s, i, FALSE) then Good(Scalar(Bool, i, i + 5, false), i + 5) else Bad
    else if s[i] == NULL[0] then
      if LiteralAt(s, i, NULL) then Good(Scalar(Null, i, i + 4, false), i + 4) else Bad
    else
      var t := ScanNumber(s, i);
      if t.BadNumber? then Bad else Good(Scalar(Number, i, t.end, t.integer), t.end)
  }

  /** One or more array elements, the first at i, through the closing bracket. */
  function ParseElements(s: bytes, i: nat, d: nat, max: nat): (r: Parsed<seq<Value>>)
    requires i <= |s|
    ensures r.Good? ==> i < r.end <= |s| && |r.val| > 0
    decreases |s| - i, 1
  {
    var first := ParseValue(s, i, d, max);
    if first.Bad? then Bad
    else
      var rest := ArrayTail(s, first.end, d, max);
      if rest.Bad? then Bad else Good([first.val] + rest.val, rest.end)
  }

  /** What may follow a complete array element ending at i. */
  function ArrayTail(s: bytes, i: nat, d: nat, max: nat): (r: Parsed<seq<Value>>)
    requires i <= |s|
    ensures r.Good? ==> i < r.end <= |s|
    decreases |s| - i, 2
  {
    var j := SkipSpace(s, i);
    if ByteAt(s, j, COMMA) then ParseElements(s, SkipSpace(s, j + 1), d, max)
    else if ByteAt(s, j, RBRACKET) then Good([], j + 1)
    else Bad
  }

  /** A member name at i with its colon; `end` is the first byte of the member's value. */
  function ParseKey(s: bytes, i: nat): (r: Parsed<Key>)
    requires i <= |s|
    ensures r.Good? ==> i < r.val.end < r.end <= |s| && r.val.start == i
  {
    if !ByteAt(s, i, QUOTE) then Bad
    else
      var t := ScanString(s, i + 1);
      if t.BadString? then Bad
      else
        var j := SkipSpace(s, t.end);
        if ByteAt(s, j, COLON) then Good(Key(i, t.end, t.escaped), SkipSpace(s, j + 1)) else Bad
  }

  /** One or more object members, the first at i, through the closing brace. */
  function ParseMembers(s: bytes, i: nat, d: nat, max: nat): (r: Parsed<seq<Member>>)
    requires i <= |s|
    ensures r.Good? ==> i < r.end <= |s| && |r.val| > 0
    decreases |s| - i, 1
  {
    var key := ParseKey(s, i);
    if key.Bad? then Bad
    else
      var value := ParseValue(s, key.end, d, max);
      if value.Bad? then Bad
      else
        var rest := ObjectTail(s, value.end, d, max);
        if rest.Bad? then Bad else Good([Member(key.val, value.val)] + rest.val, rest.end)
  }

  /** What may follow a complete member ending at i. */
  function ObjectTail(s: bytes, i: nat, d: nat, max: nat): (r: Parsed<seq<Member>>)
    requires i <= |s|
    ensures r.Good? ==> i < r.end <= |s|
    decreases |s| - i, 2
  {
    var j := SkipSpace(s, i);
    if ByteAt(s, j, COMMA) then ParseMembers(s, SkipSpace(s, j + 1), d, max)
    else if ByteAt(s, j, RBRACE) then Good([], j + 1)
    else Bad
  }

  /** A JSON text: one value with surrounding whitespace (section 2). */
  function ParseDocument(s: bytes, max: nat): (r: Option<Value>) {
    var v := ParseValue(s, SkipSpace(s, 0), 0, max);
    if v.Good? && SkipSpace(s, v.end) == |s| then Some(v.val) else None
  }

  // ---- Raising the depth limit changes no successful parse --------------------------------------

  lemma {:induction false} DeeperValue(s: bytes, i: nat, d: nat, max: nat, more: nat)
    requires i <= |s| && max <= more
    ensures ParseValue(s, i, d, max).Good? ==> ParseValue(s, i, d, more) == ParseValue(s, i, d, max)
    decreases |s| - i, 0
  {
    if i < |s| && d < max {
      var j := SkipSpace(s, i + 1);
      if s[i] == LBRACE {
        DeeperMembers(s, j, d + 1, max, more);
      } else if s[i] == LBRACKET {
        DeeperElements(s, j, d + 1, max, more);
      }
    }
  }

  lemma {:induction false} DeeperElements(s: bytes, i: nat, d: nat, max: nat, more: nat)
    requires i <= |s| && max <= more
    ensures ParseElements(s, i, d, max).Good? ==> ParseElements(s, i, d, more) == ParseElements(s, i, d, max)
    decreases |s| - i, 1
  {
    DeeperValue(s, i, d, max, more);
    var first := ParseValue(s, i, d, max);
    if first.Good? {
      var j := SkipSpace(s, first.end);
      if ByteAt(s, j, COMMA) {
        DeeperElements(s, SkipSpace(s, j + 1), d, max, more);
      }
    }
  }

  lemma {:induction false} DeeperMembers(s: bytes, i: nat, d: nat, max: nat, more: nat)
    requires i <= |s| && max <= more
    ensures ParseMembers(s, i, d, max).Good? ==> ParseMembers(s, i, d, more) == ParseMembers(s, i, d, max)
    decreases |s| - i, 1
  {
    var key := ParseKey(s, i);
    if key.Good? {
      DeeperValue(s, key.end, d, max, more);
      var value := ParseValue(s, key.end, d, max);
      if value.Good? {
        var j := SkipSpace(s, value.end);
        if ByteAt(s, j, COMMA) {
          DeeperMembers(s, SkipSpace(s, j + 1), d, max, more);
        }
      }
    }
  }

  /** A document accepted under one limit is accepted, with the same tree, under every larger one. */
  lemma DeeperDocument(s: bytes, max: nat, more: nat)
    requires max <= more
    ensures ParseDocument(s, max).Some? ==> ParseDocument(s, more) == ParseDocument(s, max)
  {
    DeeperValue(s, SkipSpace(s, 0), 0, max, more);
  }
}
