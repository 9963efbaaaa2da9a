/**
 Building a structural index in caller-provided storage, and sizing that storage.
 */
module Index {
  import opened Json
  import opened Tape
  import opened Scan
  import opened Builder
  import opened Validate
  import Forms

  function MaxDepthOrDefault(maxDepth: int): nat {
    if maxDepth <= 0 then DEFAULT_MAX_DEPTH else maxDepth
  }

  /** Every word of an entry fits its 32 bits. */
  predicate Fits32(e: Entry) {
    e.start < TWO_TO_THE_32 && e.end < TWO_TO_THE_32 && e.next < TWO_TO_THE_32 && e.info < TWO_TO_THE_32
  }

  /** The fast builder, with the whitespace around the value. */
  method ParseFast(b: TapeBuilder) returns (status: Status)
    requires b.Valid() && b.n == 0 && b.i == 0
    modifies b, b.entries
    ensures b.Valid()
    ensures var doc := ParseDocument(b.src, b.maxDepth);
            (status.Ok? ==> doc.Some? && Countable(doc.value) && b.Contents() == Layout(doc.value)) &&
            (status.Invalid? && doc.Some? ==> !Countable(doc.value) || Nesting(doc.value) > FAST_WALK_MAX_DEPTH) &&
            (status.Full? && doc.Some? ==> |Layout(doc.value)| > b.entries.Length)
  {
    var i := SkipSpaceFast(b.src, b.i);
    b.i := i;
    if i >= |b.src| {
      return Invalid;
    }
    status := b.WalkFast();
    if !status.Ok? {
      return;
    }
    i := SkipSpaceFast(b.src, b.i);
    b.i := i;
    return if i != |b.src| then Invalid else Ok;
  }

  // ---- Entries are at most half the bytes ------------------------------------------------------------------

  /** An entry takes two bytes of its container: itself and a separator or bracket. */
  lemma {:induction false} HalfValue(s: bytes, i: nat, d: nat, max: nat)
    requires i <= |s|
    ensures var r := ParseValue(s, i, d, max); r.Good? ==> 2 * |Layout(r.val)| <= r.end - i + 1
    decreases |s| - i, 0
  {
    if i < |s| && d < max {
      var j := SkipSpace(s, i + 1);
      if s[i] == LBRACE {
        HalfMembers(s, j, d + 1, max);
      } else if s[i] == LBRACKET {
        HalfElements(s, j, d + 1, max);
      }
    }
  }

  lemma {:induction false} HalfElements(s: bytes, i: nat, d: nat, max: nat)
    requires i <= |s|
    ensures var r := ParseElements(s, i, d, max); r.Good? ==> 2 * |LayoutItems(r.val)| <= r.end - i
    decreases |s| - i, 1
  {
    HalfValue(s, i, d, max);
    var first := ParseValue(s, i, d, max);
    if first.Good? {
      var j := SkipSpace(s, first.end);
      if ByteAt(s, j, COMMA) {
        HalfElements(s, SkipSpace(s, j + 1), d, max);
      }
      var rest := ArrayTail(s, first.end, d, max);
      if rest.Good? {
        assert ([first.val] + rest.val)[1..] == rest.val;
      }
    }
  }

  lemma {:induction false} HalfMembers(s: bytes, i: nat, d: nat, max: nat)
    requires i <= |s|
    ensures var r := ParseMembers(s, i, d, max); r.Good? ==> 2 * |LayoutMembers(r.val)| <= r.end - i
    decreases |s| - i, 1
  {
    var key := ParseKey(s, i);
    if key.Good? {
      HalfValue(s, key.end, d, max);
      var value := ParseValue(s, key.end, d, max);
      if value.Good? {
        var j := SkipSpace(s, value.end);
        if ByteAt(s, j, COMMA) {
          HalfMembers(s, SkipSpace(s, j + 1), d, max);
        }
        hide ParseValue, ParseKey, SkipSpace, Layout;
        var rest := ObjectTail(s, value.end, d, max);
        if rest.Good? {
          var m := Member(key.val, value.val);
          assert ([m] + rest.val)[1..] == rest.val;
          assert LayoutMembers([m] + rest.val) == LayoutMember(m) + LayoutMembers(rest.val);
        }
      }
    }
  }

  /** A document has at most half as many entries as bytes, rounded up. */
  lemma HalfDocument(s: bytes, max: nat)
    requires ParseDocument(s, max).Some?
    ensures 2 * |Layout(ParseDocument(s, max).value)| <= |s| + 1
  {
    HalfValue(s, SkipSpace(s, 0), 0, max);
  }

  /**
   Builds the index: the fast walk first and the diagnostic parser for what it declines. The verdict
   is exact, and the tape is the preorder layout of the document's tree whichever builder made it.
   */
  method BuildIndex(src: bytes, storage: array<Entry>, maxDepth: int) returns (err: BuildError, n: nat)
    modifies storage
    ensures n <= storage.Length
    ensures |src| < TWO_TO_THE_32 && storage.Length < TWO_TO_THE_32 ==>
      var doc := ParseDocument(src, MaxDepthOrDefault(maxDepth));
      (err.NoError? <==> doc.Some? && Countable(doc.value) && |Layout(doc.value)| <= storage.Length) &&
      (err.NoError? ==> storage[..n] == Layout(doc.value)) &&
      (err.SyntaxError? ==> doc.None?) &&
      (err.IndexFull? && doc.Some? ==> |Layout(doc.value)| > storage.Length) &&
      (err.IndexTooLarge? && doc.Some? ==> !Countable(doc.value))
    ensures |src| >= TWO_TO_THE_32 || storage.Length >= TWO_TO_THE_32 ==> err.IndexTooLarge?
  {
    if |src| >= TWO_TO_THE_32 || storage.Length >= TWO_TO_THE_32 {
      return IndexTooLarge, 0;
    }
    var b := new TapeBuilder(src, storage, MaxDepthOrDefault(maxDepth));
    var status := ParseFast(b);
    if status.Ok? {
      return NoError, b.n;
    }
    if status.Full? {
      return IndexFull, 0;
    }
    b := new TapeBuilder(src, storage, MaxDepthOrDefault(maxDepth));
    err := b.Parse();
    n := if err.NoError? then b.n else 0;
  }

  /** Validates src and returns the exact storage length for BuildIndex. */
  method RequiredIndexEntries(src: bytes) returns (n: nat, ok: bool)
    ensures var doc := ParseDocument(src, DEFAULT_MAX_DEPTH);
            ok == doc.Some? && (ok ==> n == |Layout(doc.value)|)
  {
    n := 0;
    var v := new Validator(src, 0, DEFAULT_MAX_DEPTH);
    v.Space();
    ok := v.Value(0);
    if !ok {
      return;
    }
    ghost var tree := ParseValue(src, SkipSpace(src, 0), 0, DEFAULT_MAX_DEPTH).val;
    v.Space();
    LayoutSize(tree);
    return 1 + v.values + 2 * v.members, v.i == |src|;
  }

  /**
   Both builders agree: on storage that the fast walk does not exhaust, a document that neither
   nests beyond the fixed stacks nor overflows a count gets, from both, entry for entry one tape.
   */
  method BuildBothWays(src: bytes, first: array<Entry>, second: array<Entry>, maxDepth: nat) returns (fast: TapeBuilder, exact: TapeBuilder, status: Status, err: BuildError)
    requires |src| < TWO_TO_THE_32 && first.Length < TWO_TO_THE_32 && second.Length == first.Length && first != second
    modifies first, second
    ensures fast.Valid() && exact.Valid()
    ensures status.Ok? ==> err.NoError? && fast.Contents() == exact.Contents()
    ensures var doc := ParseDocument(src, maxDepth);
            err.NoError? ==> doc.Some? && (Nesting(doc.value) <= FAST_WALK_MAX_DEPTH ==> status.Ok?)
  {
    fast := new TapeBuilder(src, first, maxDepth);
    status := ParseFast(fast);
    exact := new TapeBuilder(src, second, maxDepth);
    err := exact.Parse();
  }

  // ---- Every word the builders write fits in 32 bits ----------------------------------------------

  lemma {:induction false} ValueFits(s: bytes, i: nat, d: nat, max: nat)
    requires i <= |s| < TWO_TO_THE_32
    ensures var r := ParseValue(s, i, d, max);
            r.Good? && Countable(r.val) && |Layout(r.val)| < TWO_TO_THE_32 ==> forall e | e in Layout(r.val) :: Fits32(e)
    decreases |s| - i, 0
  {
    var r := ParseValue(s, i, d, max);
    if r.Good? && Countable(r.val) && |Layout(r.val)| < TWO_TO_THE_32 {
      if r.val.Scalar? {
        UnpackInfo(0, KindCode(r.val.kind), ScalarFlags(r.val.kind, r.val.flag), Layout(r.val)[0]);
      } else {
        var count := if r.val.Arr? then |r.val.items| else |r.val.members|;
        UnpackInfo(count, if r.val.Arr? then KIND_ARRAY else KIND_OBJECT, 0, Layout(r.val)[0]);
        var j := SkipSpace(s, i + 1);
        if r.val.Arr? && !ByteAt(s, j, RBRACKET) {
          ElementsFit(s, j, d + 1, max);
        } else if r.val.Obj? && !ByteAt(s, j, RBRACE) {
          MembersFit(s, j, d + 1, max);
        }
      }
    }
  }

  lemma {:induction false} ElementsFit(s: bytes, i: nat, d: nat, max: nat)
    requires i <= |s| < TWO_TO_THE_32
    ensures var r := ParseElements(s, i, d, max);
            r.Good? && CountableItems(r.val) && |LayoutItems(r.val)| < TWO_TO_THE_32 ==> forall e | e in LayoutItems(r.val) :: Fits32(e)
    decreases |s| - i, 1
  {
    var v := ParseValue(s, i, d, max);
    if v.Good? {
      ValueFits(s, i, d, max);
      var tail := ArrayTail(s, v.end, d, max);
      if tail.Good? {
        assert ([v.val] + tail.val)[1..] == tail.val;
        if tail.val != [] {
          ElementsFit(s, SkipSpace(s, SkipSpace(s, v.end) + 1), d, max);
        }
      }
    }
  }

  lemma {:induction false} MembersFit(s: bytes, i: nat, d: nat, max: nat)
    requires i <= |s| < TWO_TO_THE_32
    ensures var r := ParseMembers(s, i, d, max);
            r.Good? && CountableMembers(r.val) && |LayoutMembers(r.val)| < TWO_TO_THE_32 ==> forall e | e in LayoutMembers(r.val) :: Fits32(e)
    decreases |s| - i, 1
  {
    var k := ParseKey(s, i);
    if k.Good? {
      var v := ParseValue(s, k.end, d, max);
      if v.Good? {
        ValueFits(s, k.end, d, max);
        var tail := ObjectTail(s, v.end, d, max);
        if tail.Good? {
          var m := Member(k.val, v.val);
          assert ([m] + tail.val)[1..] == tail.val;
          UnpackInfo(0, KIND_STRING, KeyFlags(k.val.escaped), KeyEntry(k.val));
          if tail.val != [] {
            MembersFit(s, SkipSpace(s, SkipSpace(s, v.end) + 1), d, max);
          }
          var rest := LayoutMembers(tail.val);
          assert LayoutMembers([m] + tail.val) == [KeyEntry(k.val)] + Layout(v.val) + rest;
          assert CountableMembers([m] + tail.val) ==> CountableMember(m) && CountableMembers(tail.val);
          if CountableMembers([m] + tail.val) && |LayoutMembers([m] + tail.val)| < TWO_TO_THE_32 {
            forall e | e in LayoutMembers([m] + tail.val)
              ensures Fits32(e)
            {
              assert e == KeyEntry(k.val) || e in Layout(v.val) || e in rest;
            }
          }
        }
      }
    }
  }

  /** Every word of the tape of a countable document below 2^32 bytes fits 32 bits. */
  lemma DocumentFits(s: bytes, max: nat)
    requires |s| < TWO_TO_THE_32 && ParseDocument(s, max).Some? && Countable(ParseDocument(s, max).value)
    ensures forall e | e in Layout(ParseDocument(s, max).value) :: Fits32(e)
  {
    HalfDocument(s, max);
    ValueFits(s, SkipSpace(s, 0), 0, max);
  }

  /** With the default depth, a source is a document exactly when it writes a value that nests at most ten thousand deep. */
  lemma AcceptedExactly(s: bytes, maxDepth: int)
    ensures ParseDocument(s, MaxDepthOrDefault(maxDepth)).Some? <==>
            exists before, f, after :: Forms.Writes(s, before, f, after) && Forms.Height(f) <= if maxDepth <= 0 then 10000 else maxDepth
  {
    hide ParseDocument, Forms.Writes, Forms.Height;
    var max := MaxDepthOrDefault(maxDepth);
    if ParseDocument(s, max).Some? {
      var before, f, after := Forms.DocumentIsForm(s, max);
    }
    if before, f, after :| Forms.Writes(s, before, f, after) && Forms.Height(f) <= max {
      Forms.FormIsDocument(s, before, f, after, max);
    }
  }
}
