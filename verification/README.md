# vibejson, verified

A Dafny model of the core of vibejson, a JSON library for Go whose fast paths each promise to agree with something
simple. One specification comes first: the grammar and value tree of RFC 8259 in `Json.dfy`, duplicate members in
order. Everything else is proved against it, and it is proved itself to accept and yield exactly what the productions
of the RFC write, byte by byte (`Numerals`, `Lexicon`, `Forms`).

- **Structural index** (`Tape`, `Scan`, `Builder`, `Validate`, `Index`): the goto machine with fixed stacks and the
  parser that threads its stack through unfinished entries both build exactly the preorder layout of the tree.
- **Lookups** (`Strings`, `KeyHash`, `Lookup`, `Routes`, `Enrich`, `Probe`, `Pointers`): every route over the tape, and
  the open-addressed table, return the last member with a name.
- **One pass over raw bytes** (`Seeker`, `Brackets`, `Skip`, `Window`, `Frames`, `Streams`): pointer lookup while
  validating, bracket skipping in blocks, and a reader whose values do not depend on how its input is split.
- **Exact numbers** (`Decimal`, `NumberEqual`, `Words`, `Printing`, `Integers`): comparing decimals with unbounded
  exponents, and printing and reading integers through word arithmetic.
- **Encode plans** (`Fusion`, `WideNames`): flattening nested structs, and running the flat
  programs, nested in one another, with names stored as 16-byte blocks.
- **Stateful decoding** (`References`, `Tracker`, `Chains`, `Arena`): alias tracking over whole runs, pointer chains
  that always end, and strings that are never overwritten.
- **Writing and comparing documents** (`Quoting`, `Documents`, `Writing`, `Utf8`, `Sorting`, `Canonical`,
  `Containment`): the token writer read back, the canonical form as a normal form, containment as a preorder.

Objects that the library updates in place are classes with their fields, loops are loops with invariants, and each is
tied to a function of the grammar or of the old state. The clock, the network and the contents of `io.Reader` and
`io.Writer` are parameters: a read is any non-empty chunk or the end, a write succeeds or the sink breaks for good.

`dafny verify dfyconfig.toml` checks the project.

## Findings

- **Fusion leaves a stray comma** (`typed_compile.go:603-605`). The leading comma is stripped from the first flattened
  field only. A struct whose only field `x` is an empty struct has no flattened field, so the comma stays in its closing
  literal: the flat program writes `{,"x":{}}` where nested encoding writes `{"x":{}}` (`Fusion.StrayExample`). For all
  values, the two agree if and only if the value holds no struct that has fields but no leaves (`Fusion.FusionExact`).
- **Unsigned decoders refuse minus zero** (`decoder_cursor_scalar.go:311-314`), although its value lies in every range
  (`Integers.MinusZeroRefused`). They accept an integer token if and only if it has no sign and lies in range
  (`Integers.Uint`).
- **Clearing a scope may keep dead scopes below it** (`typed_compiled_value.go:477-481`). Slots are cleared in
  descending order, and a slot cleared on the way cuts the chains of those below it. With slots 2 and 4 below slot 1 and
  slot 3 below slot 4, clearing slot 1 frees 2 and 4 and leaves 3 with a blank parent (`References.DeadScopeStays`); a
  run of nested scopes gets there (`References.DeadScopeReached`). A slot is freed if and only if it lies strictly below
  the target and its chain passes no later slot before the target (`Tracker.ReplaceTracker.CutScopes`); all of them are
  freed if and only if every one that is no child of the target has an earlier parent (`References.AllFreed`).
  References are removed all the same.

## Model

| member | source | states |
|---|---|---|
| Forms.FormIsDocument | validate.go:106-132 | the text of any value, written token by token with any run of the bytes 20, 09, 0A and 0D around every token, is a document within its depth, with exactly the tree that was written |
| Forms.DocumentIsForm | validate.go:106-132 | every document the grammar accepts is such a text |
| Forms.DocumentsAreForms | space.go:6-30 | the grammar yields a tree for a source if and only if the source is such a text of that tree, kinds, spans, escaped and integer flags, member names and their order included |
| Forms.CompactForm | encode.go:20-66 | the compact text of any tree is such a text without whitespace around any token |
| Numerals.SpellingReads | validate.go:252-294 | sign, digits, fraction, letter, sign and digits of an exponent, put one after the other, are a number token; its value is all digits as one number, shifted by the written exponent less the length of the fraction, and it is an integer token when the last two are missing |
| Numerals.NumberTokens | validate.go:252-294 | the number tokens are exactly these spellings |
| Lexicon.EscapeReads | strings_decode.go:9-76 | each two-byte escape, the escape of any code point that is no surrogate and the pair of escapes of any code point beyond FFFF, hexadecimal digits in either case, has its length and decodes to the UTF-8 whose payload bits give the code point back |
| Lexicon.OneEncoding | strings_decode.go:9-76 | bytes whose payload bits, weighted, give a code point back are its one UTF-8 encoding |
| Lexicon.PiecesRead | strings_decode.go:78-126 | any sequence of characters and escapes up to a closing quote, anywhere in a source, is scanned to its end and decodes to the UTF-8 of its code points, one after the other |
| Lexicon.StandsForOne | strings_decode.go:78-126 | characters and escapes stand for one text only |
| Lexicon.StringReads | validate.go:296-327 | a quoted sequence of characters and escapes is a string token that decodes to their text |
| Lexicon.StringTokens | validate.go:296-370 | the string tokens are exactly the quoted sequences of correct characters and escapes |
| Json.DeeperDocument | validate.go:106-132 | a document accepted under a depth limit is accepted with the same tree under every larger limit |
| Scan.ScanNumberFastTagged | valid_fast.go:197-241 | the number scanner of the tape builders accepts exactly the number tokens of the grammar, with the same end and the same plain-integer flag, although it takes eight digits at a time where it can |
| Scan.ScanJSONStringFastFrom | valid_fast.go:304-387 | the string scanner that validates UTF-8 and escapes in runs accepts exactly the string tokens of the grammar, with the same end and escaped flag |
| Scan.ScanStringUnicodeRun | x/scanner/scan_generic.go:175-185 | a run it passes changes nothing about how the string scans and holds no escape; a run it rejects makes the whole token invalid |
| Scan.ScanDigitsLong | number_digits.go:94-106 | the eight-at-a-time digit scan ends where the digits end |
| Validate.Validator.Value | validate.go:106-132 | the recursive validator accepts exactly the values of the grammar within the depth limit, ends where they end, and counts their elements and members |
| Validate.Validator.ArrayValue | validate.go:142-184 | the array branch accepts exactly the arrays of the grammar and adds exactly their elements to the counters |
| Validate.Validator.ObjectValue | validate.go:186-240 | the object branch accepts exactly the objects of the grammar and adds exactly their members to the counters |
| Validate.LayoutSize | validate.go:63-79 | the counters of one validation pass determine the length of the tape layout: one entry for the value, one per element, two per member |
| Tape.UnpackInfo | index.go:76-97 | packed count, kind and flags are recovered exactly, and fit 32 bits |
| Builder.ScopeStack.Push | index.go:274-456 | pushing on the three parallel fixed-size stacks is pushing on the one stack of scopes they represent |
| Builder.TapeBuilder.StringFast | index.go:232-267 | a string token is recorded as one entry with its span and escaped flag, or rejected exactly when the grammar rejects it or storage is full |
| Builder.TapeBuilder.StepContainer | index.go:274-456 | opening a container in the goto machine keeps the invariant that what is on the tape plus what the grammar still yields is the goal; failures are explained by the goal |
| Builder.TapeBuilder.StepScopeEnd | index.go:274-456 | after a value, the comma, the closing bracket or the wrong byte leads to the next state whose meaning is the same goal, the closed header holding its end, count and size |
| Builder.TapeBuilder.WalkFast | index.go:274-456 | when the fast walk succeeds, the tape is exactly the preorder layout of the grammar's value; when it does not, the value is invalid, too large, or nested beyond the fixed stacks, or storage is too short |
| Builder.TapeBuilder.PushContainer | index.go:711-715 | the parent's entry number is parked in the new header's next word |
| Builder.TapeBuilder.FinishContainer | index.go:700-707 | closing a container takes the parent back out of the threaded next word and leaves end and subtree size in its place, so the tape is the layout of the closed value |
| Builder.TapeBuilder.ObjectKey | index.go:643-666 | a member name with its colon is recorded exactly when the grammar reads one |
| Builder.TapeBuilder.Advance | index.go:484-568 | counting a finished value and going on keeps the goal; every error says what is wrong with it |
| Builder.TapeBuilder.Parse | index.go:484-568 | the diagnostic parser, whose stack lives in the next words of unfinished entries, accepts exactly the documents of the grammar and leaves their layout with every next word restored; each error is exact |
| Index.ParseFast | index.go:216-229 | the fast builder with surrounding whitespace: success means a document and its layout |
| Index.BuildIndex | index.go:100-150 | the index is built if and only if the document is valid, countable and fits the storage, and is then its layout, whichever builder made it; each error names its cause |
| Index.AcceptedExactly | index.go:100-150 | under a depth option, zero and less for ten thousand, the documents are exactly the texts that write a value nested no deeper |
| Index.BuildBothWays | index.go:216-229 | both builders, run on the same document, leave the same tape entry for entry; within the fixed stacks the fast one accepts whenever the other does |
| Index.RequiredIndexEntries | index.go:154-160 | the count computed without building is the exact length of the layout, and is given exactly for documents |
| Index.HalfDocument | index.go:154-160 | a document has at most half as many tape entries as bytes, rounded up |
| Index.DocumentFits | index.go:76-97 | every word of every entry of the tape of a countable document below 2^32 bytes fits 32 bits |
| KeyHash.HashKeyContent | index_keyhash.go:53-79 | the word-at-a-time hash of a key's bytes is the hash of its zero-padded words, for any mixing arithmetic, through every gathering of a short key |
| KeyHash.HashKeyContentWord | index_keyhash.go:87-90 | hashing a key from one register load agrees with hashing its bytes |
| Enrich.EnrichKeyHashes | index_keyhash.go:103-127 | the in-place pass rewrites each key's next word and each object's mark and nothing else; what the tape represents is unchanged |
| Enrich.GetEitherWay | index_keyhash.go:103-127 | a lookup in any node of the tree finds the same member before and after enrichment |
| Strings.TapeKeyEqual | node.go:437-478 | comparing a raw key with a query while decoding it agrees with comparing the decoded text |
| Strings.DecodeText | strings_decode.go:78-108 | decoding an interior piece by piece gives the text its escapes denote |
| Strings.TokenInterior | strings_decode.go:78-126 | every token the scanner accepts has a well-escaped interior, and an unescaped one denotes its own bytes |
| Routes.LastWins | node.go:246-255 | the member a lookup denotes carries the name and no later member does |
| Routes.FlatObject | node.go:270-304 | next equals 2 * count + 1 exactly when every value of the object is one entry |
| Routes.FlatArray | node.go:229-243 | in an array of minimal size positions are a fixed stride |
| Routes.GetPlain | node.go:270-304 | the lookup without hashes, flat or linked, returns the last member whose decoded name equals the query |
| Routes.VerifyFlatRange | index_tapescan.go:58-70 | checking a range of candidates backward finds its last match or rules it out |
| Routes.ScanFlatHash | index_tapescan.go:31-52 | the four-at-a-time hash scan returns the last member with the name, hash collisions and escaped names included |
| Routes.GetHashedQuery | node.go:307-331 | the hash-gated lookup, flat or linked, returns the last member whose decoded name equals the query |
| Routes.Get | node.go:246-255 | all four routes return the last member with the name |
| Routes.ElementAt | node.go:229-243 | the element at an index, by stride or by links, or nothing out of range |
| Probe.CapacityHalfLoad | index_probe.go:31-33 | the capacity is a power of two at most half full |
| Probe.ObjectProbe.FindSlot | index_probe.go:101-120 | the insertion probe ends, at the slot that keeps the same name or at the first free slot of its probe sequence |
| Probe.ObjectProbe.ProbeInsert | index_probe.go:101-120 | inserting keeps the table an exact account of the members so far, each distinct unescaped name mapped to its last member |
| Probe.BuildObjectProbe | index_probe.go:56-98 | the finished table and the side list of escaped names account for every member |
| Probe.ObjectProbe.Get | index_probe.go:123-160 | the probe returns the member a naive last-match scan returns, duplicates, escaped names and hash collisions included, and its loop ends |
| Pointers.PointerToTheLetter | raw.go:740-761 | a pointer denotes tokens exactly when it is a slash before each of some raw tokens, every tilde in them before a zero or a one, whose texts the tokens are: all ~1 replaced by slashes, then all ~0 by tildes |
| Pointers.ReadsReferenceToken | pointer.go:110-141 | reading a token from the left, escape by escape, is those two replacements, and fails exactly when a tilde stands before anything else |
| Pointers.IndexToTheLetter | pointer.go:155-175 | a token is an index exactly when it is the decimal, without a leading zero, of a number below 2^63, and the end of the array exactly when it is a dash |
| Pointers.PointerRoundTrip | pointer.go:110-141 | escaping tokens into a pointer and reading the pointer back are inverse to each other, in both directions |
| Pointers.ClassifyPointerIndex | pointer.go:155-175 | a token is classified as an index, the dash or no index exactly as its digits say, overflow included |
| Pointers.UnescapePointerToken | pointer.go:110-141 | unescaping a token gives its text, or fails exactly on a tilde that starts no escape |
| Pointers.ValidatePointerSyntax | raw.go:740-761 | the syntax check accepts exactly the pointers that denote a token sequence |
| Pointers.CompilePointer | pointer.go:34-76 | compiling succeeds exactly on valid pointers and yields their tokens with hash and index class |
| Pointers.PointerTokens | node.go:388-424 | a compiled pointer leads to the value, absence or index error that walking the tree with the last duplicate winning gives |
| Pointers.Pointer | node.go:336-379 | resolving a pointer while reading it agrees with walking the tree, and bad syntax anywhere is an error even after a failed lookup |
| Seeker.KeyMatches | raw.go:670-680 | a name in the source matches a token exactly when its decoded text equals it |
| Seeker.RawSeeker.FindArray | raw.go:363-429 | searching an array validates all of it and gives the verdict of the addressed element |
| Seeker.RawSeeker.FindObject | raw.go:431-507 | searching an object validates all of it; a later duplicate replaces an earlier duplicate's verdict, its pointer error included |
| Seeker.GetRaw | raw.go:288-323 | the one-pass lookup returns exactly the span, absence, pointer error or syntax error that parsing first and walking after gives, in this order of precedence |
| Seeker.LookUpBothWays | raw.go:288-323 | on every indexable document the one-pass lookup and the lookup over the index agree |
| Brackets.ContainerCloses | stream_cursor.go:186-243 | a valid container within its depth budget closes exactly where counting brackets outside strings says |
| Skip.SkipValidString | stream_cursor.go:246-263 | skipping a valid string by looking for unescaped quotes ends where the token ends |
| Skip.SkipValidContainer | stream_cursor.go:186-243 | the bytewise counter stops at the byte that closes the container, on any bytes |
| Skip.SkipValidValue | stream_cursor.go:186-243 | on any valid value that whitespace, a comma, a closing bracket or the end follows, the bytewise skipper stops where the grammar does; on any bytes it stops as counted |
| Skip.BlockMasks | raw_trusted.go:291-355 | the bracket masks of a block and the string state it hands to the next block, by their meaning |
| Skip.SkipComposite | raw_trusted.go:291-355 | the block loop with popcounts and bit walks stops exactly where counting one byte at a time does, or at the first bracket over the budget |
| Skip.SkipBothWays | raw_trusted.go:291-355 | on a valid container within the budget, the block skipper, the bytewise skipper and the grammar stop at the same byte |
| Window.ValueWindow | stream_reader.go:351-452 | a window onto the stream sees the same value as the stream does, unless the value touches the end of the window |
| Window.NumberAlone | number_equal.go:105-135 | a number token cut out of its input is a number token |
| Frames.FrameCovers | stream_reader.go:67-84 | a valid value that shows its own end is framed exactly; a number lies within its frame |
| Frames.ValueFrame.Scan | stream_reader.go:113-175 | scanning one refill advances the frame as scanning the whole stream would |
| Frames.ScanInPieces | stream_reader.go:113-175 | scanning over any sequence of refills finds the end that one scan of everything finds |
| Streams.Reader.Fill | stream_reader.go:607-652 | refilling moves or grows the buffer without changing the bytes it stands for, and gains a byte or learns that there is none |
| Streams.Reader.ScanFrame | stream_reader.go:456-482 | a frame found in the window settles whether the value is valid and where it ends |
| Streams.Reader.Next | stream_reader.go:351-452 | each call delivers the next value of the stream, its failure or its end, at offsets that do not depend on how the source splits its bytes |
| Streams.Reader.Bytes | stream_reader.go:230-235 | the bytes of the current value are those of the stream at its span |
| Streams.ReadAll | stream_reader.go:351-452 | for every way a source may split its bytes, the delivered spans are those of the stream, and reading fails exactly when they stop at an invalid value |
| Decimal.NormalFormUnique | number_equal.go:105-135 | two scaled digit strings without outer zeros denote one rational number exactly when digits and weight agree |
| NumberEqual.ParseDecNumber | number_equal.go:16-102 | parsing a token finds its sign, significant digits, weight of the first one, and exponent digits of any number |
| NumberEqual.DigitsAdd | number_equal.go:215-232 | adding a word to a digit string of any length is exact and leaves no leading zero |
| NumberEqual.DigitsSub | number_equal.go:234-255 | subtracting a smaller word from a digit string of any length is exact and leaves no leading zero |
| NumberEqual.DecWeightTerm | number_equal.go:154-181 | the weight of an unbounded exponent is represented exactly, as a word or as digits |
| NumberEqual.DecWeightEqual | number_equal.go:137-150 | weights compare equal exactly when the integers they stand for are |
| NumberEqual.JSONNumberEqual | number_equal.go:105-135 | two number tokens shorter than 2^62 bytes compare equal if and only if they denote the same rational number, exponents of any length included |
| NumberEqual.AppendDecimalUint64 | number_equal.go:201-213 | the digits appended are the decimal of the word without leading zeros |
| Words.EightDigits | number_digits.go:124-128 | three wrapping multiplications reduce eight ASCII digits to the number they write |
| Words.DigitMask | number_digits.go:83-85 | the first byte the digit mask marks, carries and borrows included, is the first byte that is no digit |
| Words.EightStored | simd/digits.go:41-44 | the reciprocal multiplications of the printer write every value below 10^8 as its eight digits |
| Words.Encoded | simd/digits.go:76-84 | two values below 10000 become their eight digits by parallel reciprocal division in one word |
| Printing.EstimateRight | encoder_int.go:52-55 | for every bit length from 7 to 64, 1233 / 4096 estimates the number of decimal digits right or one too many |
| Printing.OnlyDecimal | encoder_int.go:31-102 | digits without a leading zero that write v are the printed form: a number has one decimal |
| Printing.CountDigits | encoder_int.go:139-143 | bit length and one comparison give the exact number of digits |
| Printing.StoreShort | encoder_int.go:57-102 | storing pairs of digits from the end fills exactly the digits counted |
| Printing.Store16Digits | simd/digits.go:52-59 | a value below 10^16 is written as sixteen digits |
| Printing.AppendCompactUint9 | encoder_int.go:107-118 | nine digits as one and eight |
| Printing.AppendCompactUint10 | encoder_int.go:124-136 | ten digits as a pair and eight |
| Printing.AppendCompactUintLarge | encoder_int.go:139-159 | eleven digits and more, cut from or followed by a block of sixteen; the block stays within the capacity checked |
| Printing.AppendCompactUint | encoder_int.go:31-102 | every uint64 is appended as its one decimal without leading zeros, through every branch |
| Printing.AppendCompactInt | encoder_int.go:161-167 | every int64 is appended as its decimal with a sign, the least one included, whose negation wraps around |
| Printing.AppendCommaCompactUint | encoder_int.go:171-194 | the variant with a leading comma appends the same decimal |
| Integers.ShortRun | decoder_cursor_scalar.go:236-247 | one to seven digits before any other byte are read in one step from a shifted word |
| Integers.TrailingRun | number_digits.go:200-203 | up to eight digits at the end of a word load are read whatever the other bytes are |
| Integers.SixteenDigits | number_digits.go:191-195 | sixteen digits are read as two words |
| Integers.LeadingBlock | decoder_cursor_scalar.go:236-262 | the short, the eight-digit and the sixteen-digit path each read a prefix of the run exactly |
| Integers.DigitRun | decoder_cursor_scalar.go:236-273 | the run is read exactly, or reported as too large exactly when it exceeds the limit, through blocks and cutoffs |
| Integers.Int | decoder_cursor_scalar.go:198-292 | a signed integer of each width decodes if and only if an integer token stands there whose value lies in range; the value and the position are exact and a failure changes neither |
| Integers.Uint | decoder_cursor_scalar.go:295-373 | an unsigned integer of each width decodes if and only if an integer token without a sign stands there whose value lies in range |
| Integers.MinusZeroRefused | decoder_cursor_scalar.go:311-314 | minus zero is refused by the unsigned decoders although its value lies in every range |
| Integers.IntegerShape | validate.go:252-294 | an integer token is a run of digits without a redundant leading zero that no fraction or exponent continues |
| Integers.ParseTapeDigitsUint64 | number_digits.go:213-241 | up to nineteen digits are read exactly through word loads that end at the number, near the start of the document too |
| Integers.TapeUint64 | node.go:115-132 | a tape integer is read if and only if it is below 2^64 |
| Integers.TapeInt64 | node.go:135-156 | a tape integer is read if and only if it lies in the int64 range |
| Integers.PrintedToken | encoder_int.go:161-167 | a printed integer, wherever it stands alone, is an integer token of that value |
| Integers.IntRoundTrip | encoder_int.go:161-167 | printing any int64 and reading it back gives it again, by the decoder of every width it fits and by the tape reader |
| Integers.UintRoundTrip | encoder_int.go:31-102 | printing any uint64 and reading it back gives it again, by the decoder of every width it fits and by the tape reader |
| Fusion.FuseSimpleStructFields | typed_encode_plan.go:104-162 | the flattening loop computes the fused program: brace, name and separators moved into literals, offsets composed |
| Fusion.FuseMeaning | typed_encode_plan.go:104-162 | a fused program writes what the unfused fields write and checks the depth the nested structs would reach |
| Fusion.StripMeaning | typed_compile.go:603-605 | dropping the comma of the first name is dropping the first byte of the fields |
| Fusion.FusionPreserves | encoder_execute_record.go:10-108 | the flat pair program fails exactly when nested encoding fails, depth limit included; without structs whose fields are all leafless structs it writes the same bytes |
| Fusion.FusionExact | encoder_execute_record_specialized.go:12-108 | for every value, the flat program and nested encoding write the same bytes if and only if the value holds no struct that has fields but no leaves |
| Fusion.StrayExample | typed_compile.go:603-605 | a struct whose only field is an empty struct: the flat program writes a stray comma |
| WideNames.MinimumSound | typed_encode_plan.go:177-195 | the minimum output analysis is a lower bound for everything a leaf can write |
| WideNames.AllowWideNames | typed_compile.go:606-641 | the backward pass allows a wide store exactly when the bytes that follow reach past the block |
| WideNames.PackNames | typed_compile.go:606-641 | every packed block starts with its field's name |
| WideNames.WideIsSafe | typed_compile.go:606-641 | where a wide store is allowed, what follows for any value covers the block |
| WideNames.Buffer.AppendName | encoder_execute_record_specialized.go:110-123 | a name is appended, and a wide store touches no byte beyond its block |
| WideNames.ProgramMinimum | typed_encode_plan.go:177-195 | whatever a compiled program writes is at least as long as the analysis says |
| WideNames.EncodePairs | encoder_execute_record_specialized.go:12-108 | a flat program, its names stored as blocks, fails exactly when its meaning does; otherwise the buffer gains exactly its text and no byte past the result differs afterwards |
| WideNames.EncodeMembers | encoder_execute_record.go:10-108 | a struct with conditional fields: the first name that is written loses its comma |
| WideNames.EncodeProgram | encoder_execute_record.go:10-108 | any compiled program, structs nested in structs included, appends exactly what its meaning is, and block stores at every level leave no trace past the result |
| WideNames.EncodeNode | encoder_execute_record.go:10-108 | compiled, flattened and run with block stores, a value of any type is written as nested encoding writes it if and only if it holds no struct that has fields but no leaves, and no other byte of the buffer changes |
| References.SharedByte | typed_compiled_value.go:553-566 | ranges alias exactly when they share a byte, for storage that does not wrap around |
| References.AliasIsSameStorage | typed_compiled_value.go:533-551 | two references alias exactly when they are to the same map, equal pointers to nothing, or share a byte, for storage that does not wrap around |
| References.UnsharedBytes | typed_compiled_value.go:289-340 | what the tracker keeps means that no byte and no map lies in two live references, and no kind, scope and owner occurs twice |
| References.DestinationShared | typed_compiled_value.go:342-355 | two unsigned distances tell whether the storage and the root destination share a byte |
| References.UpsertKeeps | typed_compiled_value.go:262-287 | admitting a reference that is not taken keeps keys unique and live storage unshared |
| References.ReuseRanked | typed_compiled_value.go:371-401 | reusing a dead slot keeps every parent chain acyclic |
| References.FreedStep | typed_compiled_value.go:477-481 | what the descending loop sees at a slot is settled by the scopes before the loop: the slot is cleared exactly when it lies strictly below the target and its chain passes no later slot before the target |
| References.AllFreed | typed_compiled_value.go:477-481 | every slot below the target is freed if and only if every such slot that is no child of the target has a parent with a smaller id |
| References.DeadScopeStays | typed_compiled_value.go:477-481 | scopes among which one survives below the cleared target |
| References.DeadScopeReached | typed_compiled_value.go:450-486 | a run from the empty tracker that ends with a dead scope left below a cleared one |
| References.SoundExactly | typed_compiled_value.go:460-486 | clearing a scope keeps the tracker sound if and only if it does not strictly enclose the current one |
| References.ClearedSound | typed_compiled_value.go:460-486 | clearing a scope that does not strictly enclose the current one keeps the open scopes open and the target in place, and the references that stay are old ones outside it |
| References.OutsideKeeps | typed_compiled_value.go:460-475 | what clearing keeps was there before, lies outside the target, and stays unique and unshared |
| References.BegunSound | typed_compiled_value.go:371-401 | entering a scope keeps the tracker sound and leaves no reference of the scope behind |
| References.LeftSound | typed_compiled_value.go:403-407 | leaving a scope returns to the scopes that were open |
| References.Run | typed_compiled_value.go:262-407 | what any sequence of steps comes to, or that one is refused: soundness, the open scopes and unshared storage survive every run |
| Tracker.ReplaceTracker.ReferenceSeen | typed_compiled_value.go:289-340 | a reference is refused exactly when a reference of another kind, scope or owner shares a byte of its storage, is to the same map, or is an equal pointer to nothing; otherwise it is tracked under its key |
| Tracker.ReplaceTracker.ReplaceReferenceSeen | typed_compiled_value.go:289-340 | the whole admission test: that, or a pointer or slice that starts inside the root destination or holds its start |
| Tracker.ReplaceTracker.StoreReference | typed_compiled_value.go:262-287 | a refresh replaces the reference with its key, and adds one only if live |
| Tracker.ReplaceTracker.DescendsFrom | typed_compiled_value.go:488-496 | the parent walk ends and tells whether the ancestor is on the chain |
| Tracker.ReplaceTracker.CompactReferences | typed_compiled_value.go:460-475 | compacting in place keeps exactly the references outside the target, in order |
| Tracker.ReplaceTracker.CutScopes | typed_compiled_value.go:477-481 | exactly the slots are cleared that lie strictly below the target and whose chain, as it was before the loop, passes no later slot before the target |
| Tracker.ReplaceTracker.ClearScope | typed_compiled_value.go:460-486 | the whole state after clearing any scope, and that the tracker stays valid if and only if it did not strictly enclose the current one |
| Tracker.ReplaceTracker.BeginScope | typed_compiled_value.go:371-401 | the whole state after entering an existing, a reused or a new scope |
| Tracker.ReplaceTracker.EndScope | typed_compiled_value.go:403-407 | the whole state after leaving a scope |
| Tracker.ReplaceTracker.ClearOwnerScope | typed_compiled_value.go:450-458 | the first scope of the owner is cleared, whichever it is; the tracker stays valid exactly when that did not strictly enclose the current one |
| Tracker.ReplaceTracker.Execute | typed_compiled_value.go:262-407 | a run of nested scopes, admissions, refreshes and clearings goes through if and only if no step is refused, then holds exactly the state the steps come to; always no byte has two live owners, no key occurs twice, references live in live scopes and parent chains end |
| Chains.TypedPointerChainCycle | typed_compiled_value.go:983-997 | two walkers of different speed report a cycle exactly when the type never leaves pointer kinds |
| Chains.ChainDecoder.DecodePointerChain | typed_compiled_value.go:1004-1054 | the walk always ends, nil pointers it allocates included, reports an error exactly when a pointer-only type or the chain of places is cyclic, and otherwise hands over the place a plain walk reaches |
| Chains.ChainDecoder.AllocateTypedPointer | typed_compiled_value.go:1482-1488 | allocation links one fresh location and changes nothing else |
| Arena.Append | parser.go:135-200 | appending in place or into a larger array changes no byte of any string handed out before |
| Arena.Parser.ArenaBlock | parser.go:122-133 | a block with too little room is replaced, never overwritten |
| Arena.Parser.PlainString | string_views.go:14-34 | an unescaped span is handed out as a copy in the arena, or as the source itself in zero-copy mode only |
| Arena.Parser.AppendUnicodeEscapeRun | parser.go:202-254 | unicode escapes in a row decode to their text, or the token is invalid |
| Arena.Parser.ParseString | parser.go:135-200 | a string decodes if and only if it is a valid token, to the text it denotes; an escaped one is always owned, and a failed parse leaves every earlier string alone |
| Arena.Cursor.EnsureStringArenaCapacity | decoder_cursor.go:760-781 | the block has the room asked for, old or fresh |
| Arena.Cursor.OwnedString | decoder_cursor.go:603-616 | a copied span is handed out above every string of the block |
| Arena.Cursor.ParseOwnedString | decoder_cursor.go:461-483 | a decoded string is handed out from the block or from where the parser moved to; only in the first case is the block used further |
| Arena.Cursor.Lend | decoder_cursor.go:675-685 | a block lent to the dynamic parser is sealed and taken back, its strings kept even when the parser moved on or failed |
| Arena.Cursor.Return | decoder_cursor.go:721-729 | taking the block back restores the used prefix only when no relocation occurred |
| Arena.Cursor.Execute | decoder_cursor.go:461-483 | over any run of copies, decodes and lendings every string handed out still reads, at the end, as what its token or span denotes |
| Quoting.WrittenToTheLetter | encode.go:111-163 | the bytes written for each character: seven two-byte escapes, lower-case four-digit ones for other control characters, U+2028, U+2029 and invalid bytes, and in the HTML style for the three special in HTML, everything else as it is |
| Quoting.QuotedSafe | encoder_string.go:97-215 | in the HTML style the output holds no angle bracket and no ampersand |
| Quoting.AppendJSONString | encoder_string.go:97-215 | the run-copying encoder writes the quoted form of the text, byte by byte as specified |
| Quoting.QuotedRoundTrip | encode.go:111-163 | a quoted text, wherever it stands, is one string token that decodes to the text with invalid bytes replaced: to the text itself when it is valid UTF-8 |
| Documents.DocumentReads | encode.go:20-66 | the compact text of a tree is a document that spells the tree |
| Writing.Writer.BeforeValue | stream_writer.go:265-291 | a value may come exactly where the calls so far allow one, and its separator is then written |
| Writing.Writer.AfterValue | stream_writer.go:294-301 | a finished value is counted in its container, or ends the top level |
| Writing.Writer.Scalar | stream_writer.go:174-233 | a scalar is accepted exactly where a value may come while the sink holds, and what is emitted is the text of the calls |
| Writing.Writer.Int | stream_writer.go:183-189 | an int64 is written as its decimal where a value may come |
| Writing.Writer.Uint | stream_writer.go:192-198 | a uint64 is written as its decimal where a value may come |
| Writing.Writer.BeginObject | stream_writer.go:108-115 | an object is opened exactly where a value may come |
| Writing.Writer.BeginArray | stream_writer.go:132-139 | an array is opened exactly where a value may come |
| Writing.Writer.EndObject | stream_writer.go:118-129 | the innermost object is closed exactly when it waits for no value, while the sink holds |
| Writing.Writer.EndArray | stream_writer.go:142-153 | the innermost array is closed, while the sink holds |
| Writing.Writer.Key | stream_writer.go:156-171 | a name is accepted exactly in an object that waits for no value |
| Writing.Writer.Newline | stream_writer.go:86-96 | a line ends only between top-level values |
| Writing.Writer.Flush | stream_writer.go:249-257 | after a flush the sink holds exactly the text of the calls |
| Writing.WriteThenRead | stream_writer.go:249-257 | whatever was written and flushed, a reader of the sink delivers exactly the values the calls describe, a last one without a line feed included |
| Utf8.TokenUtf8 | strings_decode.go:78-126 | what a string token denotes is valid UTF-8, escapes included |
| Sorting.KeysAscend | encode.go:212-216 | of any two sorted keys the earlier is a prefix of the later or has the smaller byte where they first differ |
| Sorting.Sorted | encode.go:212-216 | the stable sort keeps what each key holds in order |
| Sorting.OrderedUnique | encode.go:212-216 | an ordered sequence is determined by what it holds under each key |
| Canonical.SortedTwice | encode.go:196-230 | sorting the members of a tree twice is sorting them once |
| Canonical.SortedAlike | encode.go:196-230 | sorting forgets exactly the order of members with different keys |
| Canonical.RenderedMeaning | encode.go:20-66 | compact text of a clean tree parses to a document that means the tree again |
| Canonical.CanonicalIdempotent | encode.go:184-190 | the canonical form of any document is a document whose canonical form is itself |
| Canonical.CanonicalEqual | encode.go:196-230 | canonical forms are equal bytes if and only if the documents mean the same up to the order of members with different keys: whitespace and escape spelling never matter |
| Canonical.AppendCanonical | encode.go:196-230 | the recursive writer over the tape appends the rendering of the sorted tree |
| Canonical.ParseOptions | parser.go:50-103 | doubling storage ends with the tape of the document if and only if the document can be indexed |
| Canonical.CanonicalAscends | encode.go:196-230 | the canonical form is a document that says what its source says, members with equal keys in their order, and whose keys ascend byte by byte in every object |
| Canonical.CanonicalCompact | encode.go:184-190 | the canonical form holds no whitespace around any token |
| Canonical.PlainCharacters | encode.go:111-163 | canonical strings write every printable ASCII character but the quote and the backslash as it is, those special in HTML too |
| Canonical.AppendCanonicalize | encode.go:184-190 | the canonical form is appended if and only if the document can be indexed, and is such a document; otherwise dst is unchanged |
| Containment.RawJSONStringEqual | contains.go:185-210 | two escaped strings compare equal byte by byte exactly when their texts are equal |
| Containment.JSONStringByteIter.Next | contains.go:221-252 | the iterator yields the decoded bytes in order |
| Containment.StringNodesEqual | contains.go:168-181 | strings compare by decoded text in every combination of spellings |
| Containment.ScalarNodesEqual | contains.go:144-165 | scalars compare by kind and exact value |
| Containment.ObjectContains | contains.go:75-104 | an object contains another exactly when every distinct key's last value is contained in the last value under that key |
| Containment.ArrayContains | contains.go:122-141 | an array contains another exactly when every element is contained in some element of its kind |
| Containment.NodeContains | contains.go:55-72 | structural containment decides the recursive definition on value trees |
| Containment.Contains | contains.go:12-30 | the top-level rule adds scalars contained in arrays |
| Containment.RawContains | contains.go:33-43 | from the bytes of two documents, the verdict is given if and only if both can be indexed, and is exact |
| Containment.ContainsItselfAtTop | contains.go:12-30 | containment is reflexive |
| Containment.ContainmentChainsAtTop | contains.go:12-30 | containment is transitive, the top-level rule included |

## Left out

- SIMD kernels, bitmap and position engines, and the copy of the fast walk that only differs in its digit scanner; masks inside strings are taken by their meaning on validated bytes.
- `unsafe` pointers, reflection and memory layout: sources are byte sequences, types a finite graph, destinations abstract addresses with spans.
- Floating point: parsing, scaling and shortest formatting.
- Error texts, offsets, lines and columns; the error paths of fused and unfused encoding name members differently.
- The constants of the key hash: every result holds for any mixing arithmetic.
- The compiled-pointer variant of the one-pass seeker and its mode that stops after the first match.
- Reader errors other than the end of input, size limits, typed decoding from the reader, and closing it.
- The dispatch of encoder operations in pairs, inline maps and pointer hops: an encode operation is any function of address and, for leaves that recurse, depth; conditional fields are an arbitrary predicate. What slices, maps and array elements hold is part of a leaf.
- Marshalers, pools, plan caches, time formatting, and the raw token of the writer that is not validated.
- Iterators by name: their stepping over sizes is inside the lookups, containment and the canonical form; the column extraction is left out.
- Tracker.ReplaceTracker.Execute: a run stops at the first clearing of an owner whose scope strictly encloses the current one, where the code goes on although the tracker is no longer sound (References.SoundExactly says exactly there); both table halves are searched in one loop.
- Printing.AppendCompactUint: the fallback for short capacity is the library's printer, taken to write the decimal.
- Arena.Cursor.Lend: whether a value is worth lending the block for is left open; both choices are covered.
- Sorting.Sorted: the library's stable sort is modelled by insertion, which OrderedUnique shows to be no restriction.
- Writing.Writer.Scalar: numbers other than integers are given as tokens.
