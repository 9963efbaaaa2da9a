/**
 The owned-string arena: strings handed out by a decode point into append-only blocks. Over every run
 no byte of a string already handed out changes, whether blocks are appended to, replaced, lent to the
 dynamic parser, or left half written by a parse that fails.
 */
module Arena {
  import opened Json
  import opened Scan
  import opened Strings

  const SEED: nat := 2048
  const HEADROOM: nat := 2048
  const OWNED_BLOCK: nat := 0x4000

  // ---- Strings handed out -----------------------------------------------------------------------------------

  /** A string handed out, and the text it had then. */
  datatype View = View(arr: array<byte>, start: nat, end: nat, text: bytes)

  ghost function Arrays(views: seq<View>): set<object> {
    set v | v in views :: v.arr
  }

  /** Every string handed out still has its text. */
  ghost predicate Intact(views: seq<View>)
    reads Arrays(views)
  {
    forall v | v in views :: v.start <= v.end <= v.arr.Length && v.arr[v.start..v.end] == v.text
  }

  /** No string handed out reaches beyond `limit` in the array. */
  ghost predicate Below(views: seq<View>, arr: array<byte>, limit: nat) {
    forall v | v in views && v.arr == arr :: v.end <= limit
  }

  lemma IntactBelow(views: seq<View>, arr: array<byte>)
    requires Intact(views)
    ensures Below(views, arr, arr.Length)
  {
  }

  lemma BelowHanded(views: seq<View>, t: Text, arr: array<byte>, limit: nat)
    requires Below(views, arr, limit)
    ensures (t.Owned? ==> t.view.arr != arr) ==> Below(views + Handed(t), arr, limit)
  {
  }

  // ---- Slices ---------------------------------------------------------------------------------------------------

  /** A block's bytes up to `len`, with room up to `cap`. */
  datatype Slice = Slice(arr: array<byte>, len: nat, cap: nat)

  ghost predicate Fits(s: Slice) {
    s.len <= s.cap <= s.arr.Length
  }

  /** Appends in place, or into a fresh array when the capacity does not suffice; strings below `base` stay as they are. */
  method Append(s: Slice, text: bytes, ghost base: nat, ghost views: seq<View>) returns (t: Slice)
    requires Fits(s) && Intact(views) && base <= s.len && Below(views, s.arr, base)
    modifies s.arr
    ensures Fits(t) && t.len == s.len + |text| && t.arr[base..t.len] == old(s.arr[base..s.len]) + text
    ensures if s.len + |text| <= s.cap then t.arr == s.arr else fresh(t.arr) && t.arr !in Arrays(views)
    ensures Intact(views) && Below(views, t.arr, base)
  {
    if s.len + |text| <= s.cap {
      forall k | 0 <= k < |text| {
        s.arr[s.len + k] := text[k];
      }
      t := s.(len := s.len + |text|);
      assert t.arr[base..t.len] == old(s.arr[base..s.len]) + text;
      forall v | v in views
        ensures v.start <= v.end <= v.arr.Length && v.arr[v.start..v.end] == v.text
      {
        assert old(v.arr[v.start..v.end]) == v.text;
      }
    } else {
      var room: nat :| room >= s.len + |text|;
      var grown := new byte[room];
      forall k | 0 <= k < s.len + |text| {
        grown[k] := if k < s.len then s.arr[k] else text[k - s.len];
      }
      t := Slice(grown, s.len + |text|, room);
      assert t.arr[base..t.len] == old(s.arr[base..s.len]) + text;
    }
  }

  // ---- Decoding as the parser goes ----------------------------------------------------------------------------

  /** The token from `start` is the token from i, and what it denotes is `sofar` and then what the bytes from i denote. */
  ghost predicate Decoding(s: bytes, start: nat, i: nat, sofar: bytes) {
    start <= i <= |s| &&
    var t, u := ScanString(s, start), ScanString(s, i);
    (t.StringToken? <==> u.StringToken?) &&
    (t.StringToken? ==>
      t.end == u.end && WellEscaped(s, start, t.end - 1) && WellEscaped(s, i, t.end - 1) &&
      Decode(s, start, t.end - 1) == sofar + Decode(s, i, t.end - 1))
  }

  lemma DecodingStarts(s: bytes, start: nat)
    requires start <= |s|
    ensures Decoding(s, start, start, [])
  {
    if ScanString(s, start).StringToken? {
      TokenInterior(s, start);
    }
  }

  lemma DecodingBounds(s: bytes, start: nat, i: nat, sofar: bytes)
    requires Decoding(s, start, i, sofar)
    ensures start <= i <= |s|
  {
  }

  /** Bytes without escapes denote themselves. */
  lemma DecodingRun(s: bytes, start: nat, i: nat, j: nat, sofar: bytes)
    requires Decoding(s, start, i, sofar) && i <= j <= |s| && ScanString(s, i) == ScanString(s, j)
    requires forall k | i <= k < j :: s[k] != BACKSLASH
    ensures Decoding(s, start, j, sofar + s[i..j])
  {
    hide ScanString, Decode, WellEscaped;
    var u := ScanString(s, j);
    if u.StringToken? {
      TokenInterior(s, j);
      AsciiOrTail(s, i, j, u.end - 1);
      assert sofar + (s[i..j] + Decode(s, j, u.end - 1)) == sofar + s[i..j] + Decode(s, j, u.end - 1);
    }
  }

  lemma EscapeScanned(s: bytes, i: nat)
    requires i < |s| && s[i] == BACKSLASH
    ensures EscapeLength(s, i) == 0 ==> ScanString(s, i).BadString?
    ensures var n := EscapeLength(s, i); n > 0 ==> ScanString(s, i) == Mark(ScanString(s, i + n), true)
  {
  }

  lemma EscapeDecoded(s: bytes, i: nat, end: nat)
    requires i < end <= |s| && s[i] == BACKSLASH && WellEscaped(s, i, end)
    ensures var n := EscapeLength(s, i);
            n > 0 && i + n <= end && WellEscaped(s, i + n, end) && Decode(s, i, end) == EscapeText(s, i) + Decode(s, i + n, end)
  {
  }

  lemma DecodingEscape(s: bytes, start: nat, i: nat, sofar: bytes)
    requires Decoding(s, start, i, sofar) && i < |s| && s[i] == BACKSLASH
    ensures EscapeLength(s, i) == 0 ==> ScanString(s, start).BadString?
    ensures EscapeLength(s, i) > 0 ==> Decoding(s, start, i + EscapeLength(s, i), sofar + EscapeText(s, i))
  {
    hide ScanString, Decode, WellEscaped, EscapeLength, EscapeText;
    EscapeScanned(s, i);
    var u := ScanString(s, i);
    if u.StringToken? {
      TokenLong(s, i);
      EscapeDecoded(s, i, u.end - 1);
      var rest := Decode(s, i + EscapeLength(s, i), u.end - 1);
      assert sofar + (EscapeText(s, i) + rest) == sofar + EscapeText(s, i) + rest;
    }
  }

  /** A unicode escape away from surrogates is six bytes and denotes its code point. */
  lemma PlainEscape(s: bytes, i: nat)
    requires i + 6 <= |s| && s[i] == BACKSLASH && s[i + 1] == LOWER_U
    ensures Hex4(s, i + 2) == 0x10000 ==> EscapeLength(s, i) == 0
    ensures var u := Hex4(s, i + 2); u < 0x10000 && !(0xD800 <= u < 0xE000) ==> EscapeLength(s, i) == 6 && EscapeText(s, i) == EncodeRune(u)
  {
  }

  lemma UnicodeEscape(s: bytes, i: nat)
    requires i + 6 <= |s| && s[i] == BACKSLASH && s[i + 1] == LOWER_U
    ensures EscapeLength(s, i) == UnicodeEscapeLength(s, i)
  {
  }

  lemma TokenLong(s: bytes, i: nat)
    requires i < |s| && s[i] == BACKSLASH && ScanString(s, i).StringToken?
    ensures i < ScanString(s, i).end - 1
  {
  }

  /** At the closing quote all is decoded. */
  lemma DecodingEnds(s: bytes, start: nat, i: nat, sofar: bytes)
    requires Decoding(s, start, i, sofar) && i < |s| && s[i] == QUOTE
    ensures ScanString(s, start).StringToken? && ScanString(s, start).end == i + 1
    ensures WellEscaped(s, start, i) && Decode(s, start, i) == sofar
  {
    assert ScanString(s, i) == StringToken(i + 1, false);
    assert Decode(s, i, i) == [];
  }

  lemma DecodingFails(s: bytes, start: nat, i: nat, sofar: bytes)
    requires Decoding(s, start, i, sofar) && (i == |s| || ScanString(s, i).BadString?)
    ensures ScanString(s, start).BadString?
  {
  }

  lemma NoEscape(s: bytes, i: nat, j: nat)
    requires i <= j <= |s| && forall k | i <= k < j :: !IsStringSpecial(s[k])
    ensures forall k | i <= k < j :: s[k] != BACKSLASH
  {
  }

  lemma QuoteStops(s: bytes, i: nat)
    requires i < |s| && s[i] == QUOTE
    ensures ScanString(s, i) == StringToken(i + 1, false)
  {
  }

  lemma StopsAt(s: bytes, i: nat)
    requires i < |s| && s[i] < 0x20
    ensures ScanString(s, i).BadString?
  {
  }

  // ---- The dynamic parser ---------------------------------------------------------------------------------------

  /** What a parse returns: nothing to keep, a piece of the source, or a string in a block. */
  datatype Text = Nothing | FromSource(start: nat, end: nat) | Owned(view: View)

  ghost predicate Means(src: bytes, t: Text, text: bytes) {
    match t
    case Nothing => text == []
    case FromSource(start, end) => start <= end <= |src| && text == src[start..end]
    case Owned(v) => v.text == text
  }

  function Handed(t: Text): seq<View> {
    if t.Owned? then [t.view] else []
  }

  /** A piece of text met by the dynamic parser: a clean span, or a token to decode. */
  datatype Part = Span(start: nat, end: nat) | TokenAt(i: nat)

  predicate Lies(src: bytes, p: Part) {
    if p.Span? then p.start <= p.end <= |src| else p.i < |src|
  }

  /** What the part denotes, unless its token is invalid. */
  function Denoted(src: bytes, p: Part): Option<bytes>
    requires Lies(src, p)
  {
    match p
    case Span(start, end) => Some(src[start..end])
    case TokenAt(i) =>
      var t := ScanString(src, i + 1);
      if t.BadString? then None else
      TokenInterior(src, i + 1);
      Some(Decode(src, i + 1, t.end - 1))
  }

  class Parser {
    const src: bytes
    const zeroCopy: bool
    var i: nat
    var strings: Option<Slice>

    ghost predicate Valid(views: seq<View>)
      reads this, Arrays(views)
    {
      Intact(views) && (strings.Some? ==> Fits(strings.value) && Below(views, strings.value.arr, strings.value.len))
    }

    ghost function Storage(): set<object>
      reads this
    {
      if strings.Some? then {strings.value.arr} else {}
    }

    constructor (src: bytes, zeroCopy: bool, strings: Option<Slice>, i: nat)
      ensures this.src == src && this.zeroCopy == zeroCopy && this.strings == strings && this.i == i
    {
      this.src, this.zeroCopy, this.strings, this.i := src, zeroCopy, strings, i;
    }

    /** The current block; a fresh one when there is none or too little room is left. */
    method ArenaBlock(ghost views: seq<View>) returns (out: Slice)
      requires Valid(views)
      modifies this`strings
      ensures Valid(views) && strings == Some(out)
      ensures old(strings) == strings || (fresh(out.arr) && out.len == 0)
    {
      if strings.None? {
        var capacity := if SEED > |src| then |src| + 1 else SEED;
        var arr := new byte[capacity];
        strings := Some(Slice(arr, 0, capacity));
      } else if strings.value.cap >= HEADROOM && strings.value.cap - strings.value.len < HEADROOM {
        var arr := new byte[2 * strings.value.cap];
        strings := Some(Slice(arr, 0, arr.Length));
      }
      out := strings.value;
    }

    /** The current block if it has room for that many bytes, or a larger fresh one. */
    method RoomFor(need: nat, ghost views: seq<View>) returns (out: Slice)
      requires Valid(views)
      modifies this`strings
      ensures Valid(views) && Fits(out) && Below(views, out.arr, out.len) && need <= out.cap - out.len
      ensures strings == old(strings) || fresh(Storage())
      ensures old(strings) == Some(out) || fresh(out.arr)
    {
      out := ArenaBlock(views);
      if out.cap - out.len < need {
        var capacity := if 2 * out.cap < need + HEADROOM then need + HEADROOM else 2 * out.cap;
        var arr := new byte[capacity];
        out := Slice(arr, 0, capacity);
      }
    }

    /** An unescaped span of the source: itself, or a copy in the arena. */
    method PlainString(start: nat, end: nat, ghost views: seq<View>) returns (t: Text)
      requires Valid(views) && start <= end <= |src|
      modifies this`strings, Storage()
      ensures Valid(views + Handed(t)) && Means(src, t, src[start..end])
      ensures Storage() <= old(Storage()) || fresh(Storage())
      ensures (t.FromSource? ==> zeroCopy) && (t.Owned? ==> Storage() == {t.view.arr})
    {
      assert views + [] == views;
      if start == end {
        return Nothing;
      }
      if zeroCopy {
        return FromSource(start, end);
      }
      var out := RoomFor(end - start, views);
      var base := out.len;
      out := Append(out, src[start..end], base, views);
      strings := Some(out);
      t := Owned(View(out.arr, base, out.len, src[start..end]));
    }

    /** Text under construction from `base` on, above every string handed out. */
    ghost predicate Building(views: seq<View>, out: Slice, base: nat)
      reads this, Arrays(views)
    {
      Valid(views) && Fits(out) && base <= out.len && Below(views, out.arr, base)
    }

    /** Adds the pending piece of the source to the text, opening a text in the arena if there is none yet. */
    method Keep(open: Option<Slice>, base: nat, from: nat, ghost views: seq<View>) returns (out: Slice, base': nat)
      requires from <= i <= |src| && Valid(views) && (open.Some? ==> Building(views, open.value, base))
      modifies this`strings, Storage(), if open.Some? then {open.value.arr} else {}
      ensures Building(views, out, base') && (old(strings) == strings || fresh(Storage()))
      ensures out.arr[base'..out.len] == (if open.Some? then old(open.value.arr[base..open.value.len]) else []) + src[from..i]
      ensures if open.Some? then base' == base && (out.arr == open.value.arr || fresh(out.arr)) else out.arr in old(Storage()) || fresh(out.arr)
    {
      base' := base;
      if open.Some? {
        out := open.value;
      } else {
        out := ArenaBlock(views);
        base' := out.len;
      }
      out := Append(out, src[from..i], base', views);
    }

    /** Adds the text of the escape of n bytes at i and passes it. */
    method PassEscape(open: Slice, base: nat, text: bytes, n: nat, ghost start: nat, ghost views: seq<View>) returns (out: Slice)
      requires i < |src| && src[i] == BACKSLASH && n == EscapeLength(src, i) > 0 && text == EscapeText(src, i)
      requires Building(views, open, base) && Decoding(src, start, i, open.arr[base..open.len])
      modifies this`i, open.arr
      ensures Building(views, out, base) && (out.arr == open.arr || fresh(out.arr))
      ensures i == old(i) + n && Decoding(src, start, i, out.arr[base..out.len])
    {
      hide Decoding, EscapeText, EscapeLength;
      DecodingEscape(src, start, i, open.arr[base..open.len]);
      out := Append(open, text, base, views);
      i := i + n;
    }

    /** Unicode escapes in a row away from the end of the source, up to the first surrogate. */
    method FastEscapes(open: Slice, base: nat, ghost start: nat, ghost views: seq<View>) returns (out: Slice, ok: bool)
      requires Building(views, open, base) && Decoding(src, start, i, open.arr[base..open.len])
      modifies this`i, open.arr
      ensures Building(views, out, base) && (out.arr == open.arr || fresh(out.arr))
      ensures if ok then old(i) <= i && Decoding(src, start, i, out.arr[base..out.len]) else ScanString(src, start).BadString?
    {
      hide Decoding, EncodeRune, EscapeLength, EscapeText;
      out := open;
      while i + 8 <= |src| && src[i] == BACKSLASH && src[i + 1] == LOWER_U
        invariant old(i) <= i && Building(views, out, base) && (out.arr == open.arr || fresh(out.arr))
        invariant Decoding(src, start, i, out.arr[base..out.len])
        decreases |src| - i
      {
        DecodingEscape(src, start, i, out.arr[base..out.len]);
        PlainEscape(src, i);
        var u := Hex4(src, i + 2);
        if u == 0x10000 {
          return out, false;
        }
        if 0xD800 <= u < 0xE000 {
          break;
        }
        out := PassEscape(out, base, EncodeRune(u), 6, start, views);
      }
      ok := true;
    }

    /** The unicode escapes in a row at i. */
    method AppendUnicodeEscapeRun(open: Slice, base: nat, ghost start: nat, ghost views: seq<View>) returns (out: Slice, ok: bool)
      requires i + 6 <= |src| && src[i] == BACKSLASH && src[i + 1] == LOWER_U
      requires Building(views, open, base) && Decoding(src, start, i, open.arr[base..open.len])
      modifies this`i, open.arr
      ensures Building(views, out, base) && (out.arr == open.arr || fresh(out.arr))
      ensures if ok then old(i) < i && Decoding(src, start, i, out.arr[base..out.len]) else ScanString(src, start).BadString?
    {
      hide Decoding, EncodeRune, EscapeLength, EscapeText;
      out, ok := FastEscapes(open, base, start, views);
      if !ok {
        return;
      }
      while i + 6 <= |src| && src[i] == BACKSLASH && src[i + 1] == LOWER_U
        invariant Building(views, out, base) && (out.arr == open.arr || fresh(out.arr))
        invariant Decoding(src, start, i, out.arr[base..out.len])
        invariant old(i) <= i
        decreases |src| - i
      {
        DecodingEscape(src, start, i, out.arr[base..out.len]);
        UnicodeEscape(src, i);
        var n := CheckUnicodeEscape(src, i);
        if n == 0 {
          return out, false;
        }
        out := PassEscape(out, base, EscapeText(src, i), n, start, views);
      }
    }

    /** The escape whose backslash is at i. */
    method AppendEscape(open: Slice, base: nat, ghost start: nat, ghost views: seq<View>) returns (out: Slice, ok: bool)
      requires i < |src| && src[i] == BACKSLASH
      requires Building(views, open, base) && Decoding(src, start, i, open.arr[base..open.len])
      modifies this`i, open.arr
      ensures Building(views, out, base) && (out.arr == open.arr || fresh(out.arr))
      ensures if ok then old(i) < i && Decoding(src, start, i, out.arr[base..out.len]) else ScanString(src, start).BadString?
    {
      hide Decoding;
      out := open;
      DecodingEscape(src, start, i, open.arr[base..open.len]);
      var n := EscapeLength(src, i);
      if n == 0 {
        return out, false;
      }
      out := PassEscape(out, base, EscapeText(src, i), n, start, views);
      ok := true;
    }

    /** The text so far: what is in the arena from `base` on, and the pending piece of the source. */
    ghost function Sofar(open: Option<Slice>, base: nat, chunk: nat): bytes
      requires chunk <= i <= |src| && (open.Some? ==> Fits(open.value) && base <= open.value.len)
      reads this, if open.Some? then {open.value.arr} else {}
    {
      (if open.Some? then open.value.arr[base..open.value.len] else []) + src[chunk..i]
    }

    ghost predicate Reading(views: seq<View>, start: nat, chunk: nat, open: Option<Slice>, base: nat)
      reads this, Arrays(views), if open.Some? then {open.value.arr} else {}
    {
      Valid(views) && start <= chunk <= i <= |src| && (open.Some? ==> Building(views, open.value, base)) &&
      (open.None? ==> chunk == start && ScanString(src, start) == ScanString(src, i)) && Decoding(src, start, i, Sofar(open, base, chunk))
    }

    lemma ReadingStarts(views: seq<View>)
      requires Valid(views) && i <= |src|
      ensures Reading(views, i, i, None, 0)
    {
      DecodingStarts(src, i);
      assert [] + src[i..i] == [];
    }

    lemma ReadingFails(start: nat, chunk: nat, open: Option<Slice>, base: nat, views: seq<View>)
      requires Reading(views, start, chunk, open, base) && i >= |src|
      ensures ScanString(src, start).BadString?
    {
      DecodingFails(src, start, i, Sofar(open, base, chunk));
    }

    /** At the closing quote all is decoded: the source itself spells it unless a text was opened for an escape. */
    lemma ReadingEnds(start: nat, chunk: nat, open: Option<Slice>, base: nat, views: seq<View>)
      requires Reading(views, start, chunk, open, base) && i < |src| && src[i] == QUOTE
      ensures start <= chunk <= i && Valid(views) && (open.Some? ==> Building(views, open.value, base))
      ensures ScanString(src, start) == StringToken(i + 1, ScanString(src, start).escaped) && WellEscaped(src, start, i)
      ensures open.None? ==> !ScanString(src, start).escaped && Decode(src, start, i) == src[start..i]
      ensures open.Some? ==> Decode(src, start, i) == open.value.arr[base..open.value.len] + src[chunk..i]
    {
      hide Decoding, ScanString, Decode, WellEscaped;
      QuoteStops(src, i);
      DecodingEnds(src, start, i, Sofar(open, base, chunk));
      assert [] + src[chunk..i] == src[chunk..i];
    }

    /** Moves on over bytes that denote themselves. */
    method RunOn(j: nat, ghost start: nat, ghost chunk: nat, ghost open: Option<Slice>, ghost base: nat, ghost views: seq<View>)
      requires Reading(views, start, chunk, open, base) && i <= j <= |src| && ScanString(src, i) == ScanString(src, j)
      requires forall k | i <= k < j :: src[k] != BACKSLASH
      modifies this`i
      ensures Reading(views, start, chunk, open, base) && i == j
    {
      hide Decoding, ScanString;
      DecodingRun(src, start, i, j, Sofar(open, base, chunk));
      ghost var head := if open.Some? then open.value.arr[base..open.value.len] else [];
      assert src[chunk..j] == src[chunk..i] + src[i..j];
      assert head + src[chunk..i] + src[i..j] == head + src[chunk..j];
      i := j;
    }

    /** The escapes at i, with the pending piece before them; unicode escapes are taken in a row when nothing was skipped to reach them. */
    method Escapes(open: Option<Slice>, base: nat, chunk: nat, inRow: bool, ghost start: nat, ghost views: seq<View>)
      returns (out: Slice, base': nat, ok: bool)
      requires Reading(views, start, chunk, open, base) && i < |src| && src[i] == BACKSLASH
      modifies this`i, this`strings, Storage(), if open.Some? then {open.value.arr} else {}
      ensures if ok then old(i) < i && Reading(views, start, i, Some(out), base') else Valid(views) && ScanString(src, start).BadString?
      ensures (old(strings) == strings || fresh(Storage())) && (out.arr in old(Storage()) || open == Some(out) || fresh(out.arr) || (open.Some? && out.arr == open.value.arr))
    {
      hide Decoding, ScanString;
      out, base' := Keep(open, base, chunk, views);
      if inRow && i + 6 <= |src| && src[i + 1] == LOWER_U {
        out, ok := AppendUnicodeEscapeRun(out, base', start, views);
      } else {
        out, ok := AppendEscape(out, base', start, views);
      }
      if ok {
        ghost var text := out.arr[base'..out.len];
        DecodingBounds(src, start, i, text);
        assert text + src[i..i] == text;
      }
    }

    /** Ends the text in the arena with the pending piece of the source. */
    method HandOut(open: Slice, base: nat, chunk: nat, ghost views: seq<View>) returns (t: Text)
      requires Building(views, open, base) && chunk <= i <= |src|
      modifies this`strings, open.arr
      ensures Valid(views + Handed(t)) && Means(src, t, old(open.arr[base..open.len]) + src[chunk..i]) && t.Owned? && Storage() == {t.view.arr}
      ensures fresh(Storage()) || Storage() == {open.arr}
    {
      var out := Append(open, src[chunk..i], base, views);
      strings := Some(out);
      t := Owned(View(out.arr, base, out.len, out.arr[base..out.len]));
    }

    /** The closing quote at i: the text is handed out. */
    method Close(open: Option<Slice>, base: nat, chunk: nat, start: nat, ghost views: seq<View>) returns (t: Text)
      requires Reading(views, start, chunk, open, base) && i < |src| && src[i] == QUOTE
      modifies this`i, this`strings, Storage(), if open.Some? then {open.value.arr} else {}
      ensures ScanString(src, start) == StringToken(i, ScanString(src, start).escaped) && i == old(i) + 1 && WellEscaped(src, start, i - 1)
      ensures Valid(views + Handed(t)) && Means(src, t, Decode(src, start, i - 1))
      ensures (t.FromSource? ==> zeroCopy) && (t.Owned? ==> Storage() == {t.view.arr}) && (ScanString(src, start).escaped ==> t.Owned?)
      ensures Storage() <= old(Storage()) || fresh(Storage()) || (open.Some? && Storage() == {open.value.arr})
    {
      hide Decoding, ScanString, Decode, WellEscaped, Reading, Building, Fits, Below, Means;
      ReadingEnds(start, chunk, open, base, views);
      if open.None? {
        t := PlainString(start, i, views);
      } else {
        t := HandOut(open.value, base, chunk, views);
      }
      i := i + 1;
    }

    /** Moves on to the next quote, backslash, control or multi-byte sequence. */
    method SkipClean(ghost start: nat, ghost chunk: nat, ghost open: Option<Slice>, ghost base: nat, ghost views: seq<View>)
      requires Reading(views, start, chunk, open, base)
      modifies this`i
      ensures Reading(views, start, chunk, open, base) && old(i) <= i && (i < |src| ==> IsStringSpecial(src[i]))
    {
      hide Decoding, ScanString, Sofar;
      var j := FindStringSpecial(src, i);
      NoEscape(src, i, j);
      RunOn(j, start, chunk, open, base, views);
    }

    /** The run of multi-byte sequences at i; a control byte or a malformed sequence fails. */
    method Sequences(ghost start: nat, ghost chunk: nat, ghost open: Option<Slice>, ghost base: nat, ghost views: seq<View>) returns (ok: bool)
      requires Reading(views, start, chunk, open, base) && i < |src| && (src[i] < 0x20 || src[i] >= 0x80)
      modifies this`i
      ensures if ok then Reading(views, start, chunk, open, base) && old(i) < i else ScanString(src, start).BadString?
      ensures Valid(views)
    {
      hide Decoding, ScanString;
      ghost var sofar := Sofar(open, base, chunk);
      if src[i] < 0x20 {
        StopsAt(src, i);
        DecodingFails(src, start, i, sofar);
        return false;
      }
      var next, bad := ScanStringUnicodeRun(src, i);
      if bad.Some? {
        DecodingFails(src, start, i, sofar);
        return false;
      }
      RunOn(next, start, chunk, open, base, views);
      ok := true;
    }

    /**
     Decodes the string at i: it succeeds exactly on a valid token and hands out its text. A failure keeps no
     half-written text, and either way every string handed out before stays as it was.
     */
    method ParseString(ghost views: seq<View>) returns (ok: bool, t: Text)
      requires Valid(views) && i < |src|
      modifies this`i, this`strings, Storage()
      ensures ok == ScanString(src, old(i) + 1).StringToken?
      ensures ok ==> i == ScanString(src, old(i) + 1).end && Valid(views + Handed(t))
      ensures ok ==> (t.FromSource? ==> zeroCopy) && (t.Owned? ==> Storage() == {t.view.arr}) && (ScanString(src, old(i) + 1).escaped ==> t.Owned?)
      ensures ok ==> WellEscaped(src, old(i) + 1, i - 1) && Means(src, t, Decode(src, old(i) + 1, i - 1))
      ensures !ok ==> Valid(views)
      ensures Storage() <= old(Storage()) || fresh(Storage())
    {
      hide Decoding, ScanString, Decode, WellEscaped, Sofar, Means, Fits, Building;
      i := i + 1;
      var start, chunk := i, i;
      var open: Option<Slice>, base: nat := None, 0;
      ReadingStarts(views);
      while true
        invariant start == old(i) + 1 && Reading(views, start, chunk, open, base)
        invariant old(strings) == strings || fresh(Storage())
        invariant open.Some? ==> open.value.arr in old(Storage()) || fresh(open.value.arr)
        decreases |src| - i
      {
        var inRow := i < |src| && src[i] == BACKSLASH;
        if !inRow {
          SkipClean(start, chunk, open, base, views);
        }
        if i >= |src| {
          ReadingFails(start, chunk, open, base, views);
          return false, Nothing;
        }
        if src[i] == QUOTE {
          t := Close(open, base, chunk, start, views);
          return true, t;
        }
        if src[i] == BACKSLASH {
          var out, good;
          out, base, good := Escapes(open, base, chunk, inRow, start, views);
          if !good {
            return false, Nothing;
          }
          open, chunk := Some(out), i;
        } else {
          var good := Sequences(start, chunk, open, base, views);
          if !good {
            return false, Nothing;
          }
        }
      }
    }

    /** The text of one part, by what it denotes. */
    method ParsePart(part: Part, ghost views: seq<View>) returns (ok: bool, t: Text)
      requires Valid(views) && Lies(src, part)
      modifies this`i, this`strings, Storage()
      ensures ok == Denoted(src, part).Some? && Valid(views + if ok then Handed(t) else [])
      ensures ok ==> Means(src, t, Denoted(src, part).value) && (t.Owned? ==> Storage() == {t.view.arr}) && (Escaped(src, part) ==> t.Owned?)
      ensures Storage() <= old(Storage()) || fresh(Storage())
    {
      hide Decode, ScanString, WellEscaped, Means;
      assert views + [] == views;
      match part
      case Span(start, end) =>
        t := PlainString(start, end, views);
        ok := true;
      case TokenAt(at) =>
        i := at;
        ok, t := ParseString(views);
    }
  }

  // ---- The cursor -------------------------------------------------------------------------------------------------

  class Block {
    const arr: array<byte>
    var used: nat

    /** A block with at least the capacity asked for. */
    constructor (capacity: nat)
      ensures fresh(arr) && arr.Length >= capacity && used == 0
    {
      var room: nat :| room >= capacity;
      arr, used := new byte[room], 0;
    }
  }

  /** The part is a token with an escape, which no piece of the source spells. */
  predicate Escaped(src: bytes, p: Part)
    requires Lies(src, p)
  {
    p.TokenAt? && ScanString(src, p.i + 1).StringToken? && ScanString(src, p.i + 1).escaped
  }

  predicate AllLie(src: bytes, parts: seq<Part>) {
    forall k | 0 <= k < |parts| :: Lies(src, parts[k])
  }

  /** The texts of the parts, up to the first invalid one. */
  ghost predicate Yields(src: bytes, parts: seq<Part>, texts: seq<Text>)
    requires AllLie(src, parts)
  {
    |texts| <= |parts| &&
    (forall k | 0 <= k < |texts| :: Denoted(src, parts[k]).Some? && Means(src, texts[k], Denoted(src, parts[k]).value)) &&
    (|texts| < |parts| ==> Denoted(src, parts[|texts|]).None?)
  }

  function AllHanded(texts: seq<Text>): seq<View> {
    if texts == [] then [] else AllHanded(texts[..|texts| - 1]) + Handed(texts[|texts| - 1])
  }

  lemma HandedNone()
    ensures AllHanded([]) == []
  {
  }

  lemma HandedMore(texts: seq<Text>, t: Text)
    ensures AllHanded(texts + [t]) == AllHanded(texts) + Handed(t)
  {
    assert (texts + [t])[..|texts|] == texts;
  }

  datatype Step =
    | CopySpan(start: nat, end: nat)
    | ParseToken(i: nat, hint: int, decodedCapacity: int)
    | LendToParser(parts: seq<Part>, lend: bool)

  function Parts(s: Step): seq<Part> {
    match s
    case CopySpan(start, end) => [Span(start, end)]
    case ParseToken(i, _, _) => [TokenAt(i)]
    case LendToParser(parts, _) => parts
  }

  lemma OneLies(src: bytes, step: Step)
    requires AllLie(src, Parts(step)) && !step.LendToParser?
    ensures Lies(src, Parts(step)[0])
  {
  }

  lemma NoneFrom(src: bytes, part: Part)
    requires Lies(src, part) && Denoted(src, part).None?
    ensures Yields(src, [part], []) && AllHanded([]) == []
  {
  }

  ghost predicate Possible(src: bytes, steps: seq<Step>) {
    forall k | 0 <= k < |steps| :: AllLie(src, Parts(steps[k]))
  }

  /** The string, if it has storage of its own, still reads as it did when handed out. */
  ghost predicate Reads(t: Text)
    reads if t.Owned? then {t.view.arr} else {}
  {
    t.Owned? ==> t.view.start <= t.view.end <= t.view.arr.Length && t.view.arr[t.view.start..t.view.end] == t.view.text
  }

  lemma {:induction false} HandedAmong(texts: seq<Text>, k: nat)
    requires k < |texts| && texts[k].Owned?
    ensures texts[k].view in AllHanded(texts)
  {
    if k < |texts| - 1 {
      HandedAmong(texts[..|texts| - 1], k);
    }
  }

  class Cursor {
    const src: bytes
    const zeroCopy: bool
    var strings: Block?
    ghost var views: seq<View>

    ghost predicate Valid()
      reads this, strings, Arrays(views)
    {
      Intact(views) && (strings != null ==> strings.used <= strings.arr.Length && Below(views, strings.arr, strings.used))
    }

    ghost function Storage(): set<object>
      reads this
    {
      if strings != null then {strings, strings.arr} else {}
    }

    constructor (src: bytes, zeroCopy: bool)
      ensures Valid() && this.src == src && this.zeroCopy == zeroCopy && strings == null && views == []
    {
      this.src, this.zeroCopy, strings, views := src, zeroCopy, null, [];
    }

    method EnsureStringArenaCapacity(need: nat)
      requires Valid()
      modifies this`strings
      ensures Valid() && strings != null && strings.arr.Length - strings.used >= need
      ensures strings == old(strings) || (fresh(strings) && fresh(strings.arr))
    {
      if strings == null {
        var capacity := if SEED > |src| then |src| + 1 else SEED;
        strings := new Block(if capacity < need then need else capacity);
      } else if strings.arr.Length - strings.used < need {
        strings := new Block(if OWNED_BLOCK < need + HEADROOM then need + HEADROOM else OWNED_BLOCK);
      }
    }

    /** Copies a span of the source into the block. */
    method OwnedString(start: nat, end: nat) returns (t: Text)
      requires Valid() && start <= end <= |src|
      modifies this, Storage()
      ensures Valid() && views == old(views) + Handed(t) && Means(src, t, src[start..end])
      ensures strings == old(strings) || fresh(Storage())
      ensures t.FromSource? ==> zeroCopy
    {
      assert views + [] == views;
      if start == end {
        return Nothing;
      }
      if zeroCopy {
        return FromSource(start, end);
      }
      EnsureStringArenaCapacity(end - start);
      var block := strings;
      var offset := block.used;
      ghost var before := views;
      var out := Append(Slice(block.arr, offset, block.arr.Length), src[start..end], offset, before);
      block.used := out.len;
      t := Owned(View(block.arr, offset, block.used, block.arr[offset..block.used]));
      views := views + [t.view];
    }

    /** Decodes the string at i into the block, which keeps the text only if the parser stayed within it. */
    method ParseOwnedString(i: nat, hint: int, decodedCapacity: int) returns (ok: bool, t: Text)
      requires Valid() && i < |src|
      modifies this, Storage()
      ensures Valid() && ok == Denoted(src, TokenAt(i)).Some?
      ensures views == old(views) + (if ok then Handed(t) else []) && (ok ==> Means(src, t, Denoted(src, TokenAt(i)).value))
      ensures ok && Escaped(src, TokenAt(i)) ==> t.Owned?
      ensures strings == old(strings) || fresh(Storage())
    {
      hide Means, Denoted;
      var start := i + 1;
      var end := if hint < start || hint > |src| then |src| else hint;
      var room := if decodedCapacity < 0 || decodedCapacity > end - start then end - start else decodedCapacity;
      EnsureStringArenaCapacity(room + HEADROOM);
      var block := strings;
      var p := new Parser(src, true, Some(Slice(block.arr, block.used, block.arr.Length)), i);
      ok, t := p.ParsePart(TokenAt(i), views);
      assert views + [] == views;
      if ok {
        BelowHanded(views, t, block.arr, block.used);
        views := views + Handed(t);
      }
      Return(p, block);
    }

    /** Takes the block back: what the parser used of it is used, unless it went on elsewhere. */
    method Return(p: Parser, block: Block)
      requires p.Valid(views) && strings == block && block.used <= block.arr.Length
      requires (p.strings.Some? && p.strings.value.arr == block.arr) || Below(views, block.arr, block.used)
      modifies block
      ensures Valid()
    {
      if p.strings.Some? && p.strings.value.arr == block.arr {
        block.used := p.strings.value.len;
      }
    }

    /** Lends the block to the dynamic parser, sealed meanwhile, and takes it back even after a failure. */
    method Lend(parts: seq<Part>, lend: bool) returns (texts: seq<Text>)
      requires Valid() && AllLie(src, parts)
      modifies this, Storage()
      ensures Valid() && views == old(views) + AllHanded(texts) && Yields(src, parts, texts)
      ensures strings == old(strings) || fresh(Storage())
    {
      hide Yields, AllHanded, AllLie;
      var p;
      if !lend {
        p := new Parser(src, zeroCopy, None, 0);
        texts := ParseParts(p, parts);
        return;
      }
      EnsureStringArenaCapacity(HEADROOM);
      var block := strings;
      p := new Parser(src, zeroCopy, Some(Slice(block.arr, block.used, block.arr.Length)), 0);
      block.used := block.arr.Length;
      IntactBelow(views, block.arr);
      texts := ParseParts(p, parts);
      IntactBelow(views, block.arr);
      Return(p, block);
    }

    method ParseParts(p: Parser, parts: seq<Part>) returns (texts: seq<Text>)
      requires p.Valid(views) && p.src == src && Valid() && AllLie(src, parts)
      requires p.Storage() <= Storage()
      modifies p, this`views, p.Storage()
      ensures p.Valid(views) && views == old(views) + AllHanded(texts) && Yields(src, parts, texts)
      ensures strings != null && strings.arr !in old(p.Storage()) ==> Below(views, strings.arr, strings.used)
    {
      hide Means, Denoted, Below, AllHanded;
      texts := [];
      HandedNone();
      assert views + [] == views;
      while |texts| < |parts|
        invariant |texts| <= |parts| && p.Valid(views) && views == old(views) + AllHanded(texts)
        invariant forall k | 0 <= k < |texts| :: Denoted(src, parts[k]).Some? && Means(src, texts[k], Denoted(src, parts[k]).value)
        invariant p.Storage() <= old(p.Storage()) || fresh(p.Storage())
        invariant strings != null && strings.arr !in old(p.Storage()) ==> Below(views, strings.arr, strings.used)
      {
        ghost var before := views;
        var ok, t := p.ParsePart(parts[|texts|], views);
        if !ok {
          assert views + [] == views;
          return;
        }
        if strings != null && strings.arr !in old(p.Storage()) {
          BelowHanded(views, t, strings.arr, strings.used);
        }
        views := views + Handed(t);
        HandedMore(texts, t);
        assert before + Handed(t) == old(views) + (AllHanded(texts) + Handed(t));
        texts := texts + [t];
      }
    }

    method Perform(step: Step) returns (texts: seq<Text>)
      requires Valid() && AllLie(src, Parts(step))
      modifies this, Storage()
      ensures Valid() && views == old(views) + AllHanded(texts) && Yields(src, Parts(step), texts)
      ensures strings == old(strings) || fresh(Storage())
    {
      hide AllHanded, Yields;
      match step
      case CopySpan(start, end) =>
        OneLies(src, step);
        var t := OwnedString(start, end);
        texts := One(t, Span(start, end));
      case ParseToken(i, hint, decodedCapacity) =>
        OneLies(src, step);
        var ok, t := ParseOwnedString(i, hint, decodedCapacity);
        if ok {
          texts := One(t, TokenAt(i));
        } else {
          NoneFrom(src, TokenAt(i));
          texts := [];
        }
      case LendToParser(parts, lend) =>
        texts := Lend(parts, lend);
    }

    method One(t: Text, part: Part) returns (texts: seq<Text>)
      requires Lies(src, part) && Denoted(src, part).Some? && Means(src, t, Denoted(src, part).value)
      ensures texts == [t] && AllHanded(texts) == Handed(t) && Yields(src, [part], texts)
    {
      texts := [t];
      assert texts[..0] == [];
    }

    /** Runs any steps: at the end every string any of them handed out still reads as what it denotes. */
    method Execute(steps: seq<Step>) returns (results: seq<seq<Text>>)
      requires Valid() && Possible(src, steps)
      modifies this, Storage()
      ensures Valid() && |results| == |steps|
      ensures forall k | 0 <= k < |steps| :: AllLie(src, Parts(steps[k])) && Yields(src, Parts(steps[k]), results[k])
      ensures forall k, j | 0 <= k < |results| && 0 <= j < |results[k]| :: Reads(results[k][j])
    {
      hide Yields, AllLie;
      results := [];
      while |results| < |steps|
        invariant |results| <= |steps| && Valid() && (strings == old(strings) || fresh(Storage()))
        invariant forall k | 0 <= k < |results| :: AllLie(src, Parts(steps[k])) && Yields(src, Parts(steps[k]), results[k])
        invariant forall k, j | 0 <= k < |results| && 0 <= j < |results[k]| && results[k][j].Owned? :: results[k][j].view in views
      {
        var texts := Perform(steps[|results|]);
        forall j | 0 <= j < |texts| && texts[j].Owned?
          ensures texts[j].view in views
        {
          HandedAmong(texts, j);
        }
        results := results + [texts];
      }
    }
  }
}
