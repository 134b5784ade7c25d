# sJson: a verified model

A Dafny model of the JSON library in `src/sJson.c`: the iterative parser, the two-pass string decoder, the number
scanner, the bounded writer with its measuring mode, key sorting and ASCII mode, the introsort and the hash-ordered
object index, the arena allocator, and `json_equal`. Code that works in place is modelled in place: classes with the
source's fields, arrays, and loops with invariants. Each such method is proved against a specification function, and the
properties the library is for are proved about that function.

| Part | Files |
|---|---|
| Bytes, error codes, trees and limits | `Base.dfy`, `Tree.dfy` |
| Characters, byte by byte as RFC 8259 lists them | `Lexical.dfy` |
| UTF-8 (RFC 3629) and FNV-1a | `Utf8.dfy`, `Fnv.dfy` |
| Strings: decoder, and section 7 of RFC 8259 | `StringLex.dfy`, `StringGrammar.dfy` |
| Numbers: scanner, and section 6 of RFC 8259 | `Numbers.dfy`, `NumberGrammar.dfy` |
| Parser: the stack machine, the language it accepts, the grammar of RFC 8259, both inclusions | `Parser.dfy`, `ParserSpec.dfy`, `Grammar.dfy`, `ParserComplete.dfy`, `ParserSound.dfy`, `ParserExact.dfy` |
| What the errors of the parser mean | `ParserLimits.dfy`, `ParserErrors.dfy` |
| Key order, introsort, objects and their index | `KeyOrder.dfy`, `Sort.dfy`, `OrderedMap.dfy`, `Objects.dfy` |
| Writer: its text, arrangements of members, the code, measuring, errors | `WriterSpec.dfy`, `Arrangement.dfy`, `Writer.dfy`, `Measure.dfy`, `WriteErrors.dfy` |
| Whitespace and escapes of written text, the round trip, the limits to the last unit | `Layout.dfy`, `RoundTrip.dfy`, `Boundaries.dfy` |
| Equality: the canonical text, and the laws of equality | `Equality.dfy`, `KeySets.dfy`, `EqualityLaws.dfy` |
| Arena: states, runs and replay, the linked chain | `ArenaSpec.dfy`, `ArenaRuns.dfy`, `Arena.dfy` |

The main results, from the outside in:

- `ParserExact.ParseIffDerives`: a text is accepted with tree `t` exactly when it derives `t` under the grammar of
  RFC 8259 and `t` is within the limits; `Parser.Parse` computes that by the loop over an explicit stack.
- `RoundTrip.WriteThenParse`: under every combination of options, parsing complete output gives back the value as it was
  written, exactly when the value is within the parser's limits. `RoundTrip.ParseWriteParse`: every accepted text whose
  doubles survive rendering can be written and read back to the same tree.
- `Equality.EqualIffSameText`: on values with unique keys and no doubles, `json_equal` holds exactly when the compact
  key-sorted outputs are the same bytes.
- `EqualityLaws.SymmetricIffUniqueKeys`: symmetry of `json_equal` is false in general, because keys are looked up one way.
  A value that equals some value is equalled back by everything it equals if and only if no object in it repeats a key;
  `EqualityLaws.SymmetricIffUniqueKeysDoubles` is the same with doubles. `EqualityLaws.TransitiveIffExactInts`: with
  doubles, transitivity holds if and only if different integers convert to different doubles.
  `EqualityLaws.EqualIsEquivalence`: without doubles, reflexivity below the depth limit, symmetry and transitivity.
- `NumberGrammar.NumberDenotes`: whatever path computes it, the number returned for a literal is the exact rational that
  section 6 of RFC 8259 gives to the literal, if the floating-point services are exact; signs are kept, also of zero.
- `ParserLimits.DepthErrorExact`, `ParserLimits.NodeErrorExact` and `ParserErrors.EofErrorExact`: these errors are
  reported exactly when more depth, more nodes, or more text would change the outcome. `Boundaries` says where the limits
  lie, and `WriteErrors.WriteStops` that the writer stops at the first value that cannot be written.
- `Writer.Write` and `Measure.WriteArena`: what fits is written whole; compact output that does not fit stops as a prefix with
  `JSON_ERR_BUFFER_TOO_SMALL`; the measure is the length of every write.
- `Sort.SortIndices`: sorted, a permutation, at most `8 n (ilog2 n + 1)` comparisons at the default
  threshold and a like bound for every threshold from 3 on, recursion at most `ilog2 n` deep.
- `Objects.RunThenGet`: after any sequence of sets and finalizations, lookup answers as an abstract map does.
- `ArenaRuns.EveryRunIsLive` and `ArenaRuns.Replay`: live regions stay aligned, in bounds and disjoint; repeating a run after a
  reset gives the same places without asking the backing allocator. `ArenaRuns.OneCall`: requests that fit together in one
  block make at most one call to the backing allocator.

Conventions. Bytes are integers below 256 and texts are sequences of bytes. `At(s, i, u)` says that `u` occurs in `s` at `i`.
The limits `JSON_MAX_DEPTH`, `JSON_MAX_NODES`, `JSON_MAX_ARRAY_LEN` and `JSON_MAX_STRING_LEN` are parameters. Floating-point
services (`strtod`, rendering, scaling by a power of ten, comparison) are functions in the parameter `Pal`. Answers of
allocators are boolean parameters where failure is modelled. Alignment, header size and minimum block of the arena are
a configuration parameter (8, 24 and 4096 by default); objects and the writer sort with the default threshold 16.

## Model

| member | source | states |
|---|---|---|
| Utf8.EncodeInto | src/sJson.c:928-952 | for every code point, surrogates included, stores exactly its bytes at the given place and nothing else; answers 0 above 0x10FFFF |
| Utf8.EncodedCodeAccepted | src/sJson.c:928-978 | what is stored for a code point is accepted by the decoder exactly when it is a scalar value |
| Utf8.Utf8Decode | src/sJson.c:954-978 | the loop over continuation bytes computes the decoding function on which the codec theorems rest |
| Utf8.DecodeAcceptsExactly | src/sJson.c:954-978 | decoding succeeds exactly where a UTF8-char of section 4 of RFC 3629 starts, and consumes exactly that character |
| Utf8.DecodeEncoded | src/sJson.c:928-978 | decoding an encoded scalar value gives it back with its length, wherever it occurs |
| Utf8.DecodeSound | src/sJson.c:954-978 | what the decoder accepts is the encoding of the value it returns |
| Utf8.EncodingDigits | src/sJson.c:928-952 | the payload bits of an encoding are the base-64 digits of the code point, the first byte carrying the highest, as in the table of section 3 of RFC 3629 |
| KeyOrder.EncodingOrder | src/sJson.c:928-952 | the byte order of encoded characters is the order of their code points |
| Utf8.EncodingIsUtf8Char | src/sJson.c:928-952 | encodings are shortest form, without surrogates, at most 0x10FFFF |
| Utf8.Utf8CharIsEncoding | src/sJson.c:928-952 | every UTF8-char of RFC 3629 is the encoding of a scalar value |
| Utf8.IsValidUtf8 | src/sJson.c:980-990 | the loop answers true exactly for concatenations of well-formed characters |
| Utf8.EncodeDecoded | src/sJson.c:954-990 | encoding the decoded characters of a valid string gives back its bytes |
| Utf8.DecodeEncodedAll | src/sJson.c:928-990 | a text that ends in encoded characters is valid from there and decodes to them |
| Utf8.ValidIffEncoding | src/sJson.c:980-990 | the valid strings are exactly the encodings of sequences of scalar values |
| Utf8.ValidConcat | src/sJson.c:980-990 | valid strings are closed under concatenation |
| Fnv.Fnv1a | src/sJson.c:632-646 | the loop computes the 32-bit FNV-1a fold of the bytes |
| Fnv.XorBits | src/sJson.c:638-646 | the exclusive or of a round, bit by bit |
| Fnv.KnownHashes | src/sJson.c:632-646 | published hash values: the offset basis for no bytes, 0xE40C292C for "a" |
| Lexical.SpaceAgrees | src/sJson.c:889-893 | the parser skips exactly space, tab, line feed and carriage return |
| Lexical.EscapesAgree | src/sJson.c:1019-1024 | the eight two-character escapes, with their meanings |
| Lexical.HexAgrees | src/sJson.c:900-926 | four hexadecimal digits of either case, and the number they spell |
| Lexical.PairsAgree | src/sJson.c:1034-1056 | the two halves of a surrogate pair, and the character it encodes |
| Lexical.NumberCharactersAgree | src/sJson.c:1228-1306 | the ten digits, and both letters of an exponent |
| StringLex.ParseHex4 | src/sJson.c:908-926 | accepts exactly four hexadecimal digits inside the text and returns their value |
| StringLex.MeasureUnicodeEscape | src/sJson.c:1025-1065 | pass 1 on a \u escape: same errors as the decoding, its source length and the length of its UTF-8 form |
| StringLex.MeasureItem | src/sJson.c:1008-1090 | one turn of pass 1: error, source length and output length of the next character, and the running hash of raw bytes |
| StringLex.MeasureString | src/sJson.c:1007-1096 | pass 1 accepts the literals that section 7 admits, with their decoded length, closing quote and, without escapes, their hash |
| StringLex.CopyRun | src/sJson.c:1163-1166 | copying a multi-byte character byte by byte yields exactly its bytes |
| StringLex.PassesAgree | src/sJson.c:1007-1168 | on every literal that pass 1 accepts, pass 2 copies exactly the decoded content up to the same quote |
| StringLex.CopyEscape | src/sJson.c:1124-1161 | stores exactly the decoded escape behind what was stored before |
| StringLex.CopyString | src/sJson.c:1112-1168 | fills the allocated buffer exactly, to its last byte, and stops at the closing quote |
| StringLex.ParseString | src/sJson.c:992-1178 | value, position or error of the literal, the length limit included; the stored hash is FNV-1a of the value on both paths |
| StringGrammar.ItemComplete | src/sJson.c:1008-1090 | where a grammatical character stands, the decoder takes exactly it and yields what it denotes |
| StringGrammar.ItemSound | src/sJson.c:1008-1090 | every character that the decoder takes is grammatical, with that text and meaning |
| StringGrammar.ContentComplete | src/sJson.c:992-1178 | a grammatical literal is decoded to what section 7 of RFC 8259 says it denotes |
| StringGrammar.ContentSound | src/sJson.c:992-1178 | whatever is accepted is a grammatical literal with that meaning |
| StringGrammar.MeaningIsUtf8 | src/sJson.c:992-1178 | decoded strings are valid UTF-8 |
| Numbers.NineteenDigits | src/sJson.c:1240-1246 | counting 19 significant digits decides whether the digits stay below 10^19, and whether they are all zero |
| Numbers.FastDigit | src/sJson.c:1240-1246 | with 64-bit wrap-around in the arithmetic, the accumulator still holds the exact value of all digits while its flag is true |
| Numbers.FastDigits | src/sJson.c:1256-1260 | consumes exactly the run of digits and keeps the accumulator exact |
| Numbers.ScanWhole | src/sJson.c:1228-1264 | the sign and integer part: exact errors, and an exact accumulator |
| Numbers.ScanFraction | src/sJson.c:1266-1281 | the fraction: exact errors, digits counted and accumulated |
| Numbers.ScanExponent | src/sJson.c:1299-1306 | the exponent value is exact unless a digit comes after it passed 1000, and never exceeds 10009 |
| Numbers.ParseNumber | src/sJson.c:1210-1367 | value, position or error of the literal: integers exact or overflow, doubles by zero, scaling or strtod as the digits require |
| NumberGrammar.NumberComplete | src/sJson.c:1228-1310 | a number of section 6 of RFC 8259 followed by something else is scanned into exactly its parts |
| NumberGrammar.NumberSound | src/sJson.c:1228-1310 | whatever is scanned is a number of section 6 of RFC 8259 with those parts |
| NumberGrammar.DecimalDecomposition | src/sJson.c:1240-1308 | the exact rational value of a literal is plus or minus mantissa times ten to the kept exponent, zero exactly when no digit is significant |
| NumberGrammar.TextValueIsExact | src/sJson.c:1228-1308 | the parts that the scanner keeps have the rational value that the literal writes |
| NumberGrammar.NumberDenotes | src/sJson.c:1203-1367 | a literal becomes an integer exactly when it has neither fraction nor exponent; integer or double, by zero, scaling or strtod, the result denotes the literal's exact value |
| NumberGrammar.NumberKeepsSign | src/sJson.c:1308-1345 | a double has the sign of its literal, also when it is zero |
| NumberGrammar.ZeroKeepsSign | src/sJson.c:1197-1200 | on the fast path a literal of value zero becomes the zero of its sign |
| NumberGrammar.NumberAtDenotes | src/sJson.c:1210-1367 | whatever the scanner returns stands in the text as a literal of that value, and ends there |
| NumberGrammar.NumberErrors | src/sJson.c:1308-1365 | overflow exactly for integers beyond 64 bits; a double is refused exactly when strtod fails and the fast path did not apply |
| NumberGrammar.IntTextIsNumber | src/sJson.c:2117-2149 | what jw_int64 writes is a grammatical literal that denotes its argument, with a minus exactly for negative numbers |
| ParserComplete.ValueComplete | src/sJson.c:1514-1798 | wherever a derivation of a value within the limits occurs, the parse yields its meaning, its end and its node count |
| ParserComplete.DocumentComplete | src/sJson.c:1456-1816 | every derivation within the limits is accepted with its meaning |
| ParserSound.ValueSound | src/sJson.c:1514-1798 | every parsed value comes with a derivation of exactly the consumed text, within the limits |
| ParserExact.DocumentSound | src/sJson.c:1456-1816 | every accepted text has a derivation, the tree is within the limits and its nodes are counted |
| ParserExact.ParseIffDerives | src/sJson.c:1456-1816 | accepted with tree t exactly when the text derives t and t is within the limits; node_count grows by the nodes of t |
| ParserExact.Unambiguous | src/sJson.c:1456-1816 | a text derives at most one tree |
| Grammar.LiteralNames | src/sJson.c:1524-1539 | the three literal names |
| ParserLimits.MoreRoom | src/sJson.c:1456-1816 | raising limits changes the outcome only if it was the error of a raised limit |
| ParserLimits.DepthErrorExact | src/sJson.c:1551-1745 | DEPTH_EXCEEDED exactly when some greater depth limit alone gives another outcome |
| ParserLimits.NodeErrorExact | src/sJson.c:1514-1521 | NODE_LIMIT exactly when some greater node limit alone gives another outcome |
| ParserErrors.EofErrorExact | src/sJson.c:1503-1511 | UNEXPECTED_EOF exactly when the text is refused for another reason once an inadmissible byte follows |
| ParserErrors.FirstNode | src/sJson.c:1503-1521 | without a node left, blank texts end too early and all others hit the node limit |
| ParserErrors.ErrorHasCause | src/sJson.c:1456-1816 | string, number and overflow errors come from a string, a number or a long container in the text; no other codes occur |
| ParserErrors.ContentError | src/sJson.c:1008-1096 | refused content is a run of grammatical characters and then what the error says: the end, an ill-formed UTF-8 sequence, or a control character or backslash where no character stands |
| Boundaries.StringBoundary | src/sJson.c:1097-1101 | a string is read back exactly when its decoded length is within the limit |
| Boundaries.ArrayBoundary | src/sJson.c:1551-1714 | a flat array is read back exactly within depth 2, the length limit itself, and one node per item and one more |
| Boundaries.ObjectBoundary | src/sJson.c:1583-1789 | a flat object likewise, with keys under the string limit and not counted as nodes |
| Boundaries.DepthBoundary | src/sJson.c:1551-1714 | k + 1 nested arrays are read back exactly within depth k + 2 and k + 1 nodes |
| Parser.GrowCap | src/sJson.c:1402-1427 | with 32-bit doubling: fails exactly at the limit, otherwise eight, the double, or the limit, and always more than before |
| Parser.AddTo | src/sJson.c:1631-1652 | the waiting container gains exactly the value, under its pending key for an object, or overflows exactly at the length limit |
| Parser.SkipWhitespace | src/sJson.c:879-896 | stops at the first byte that is not whitespace (which bytes are is `Lexical.SpaceAgrees`) |
| Parser.ExpectKeyword | src/sJson.c:1489-1496 | true exactly when the rest of the literal name stands at the position |
| Parser.Machine.constructor | src/sJson.c:1484-1487 | the initial stack stands for parsing a value at position 0 |
| Parser.Machine.DeliverToParent | src/sJson.c:1618-1658 | handing a finished value down does not change what the parse will return; the fallback arm is unreachable |
| Parser.Machine.StepArrayCont | src/sJson.c:1661-1714 | a comma or bracket after an item: the invariant holds, the position grows, the result of the parse is unchanged |
| Parser.Machine.StepKey | src/sJson.c:1716-1729 | reading a key: the same three facts, or the parse's own error |
| Parser.Machine.StepColon | src/sJson.c:1731-1745 | the colon and the push of a value frame: the same three facts |
| Parser.Machine.StepObjectCont | src/sJson.c:1747-1789 | a comma or brace after a member: the same three facts |
| Parser.Machine.Scalar | src/sJson.c:1524-1549 | literals, strings and numbers give what the grammar-level parse gives at that position |
| Parser.Machine.OpenArray | src/sJson.c:1551-1581 | depth is tested before the empty array is recognized; otherwise an item frame and a value frame stand for the rest |
| Parser.Machine.OpenObject | src/sJson.c:1583-1609 | the same for objects, with a key frame |
| Parser.Machine.StepScalar | src/sJson.c:1524-1659 | a scalar is parsed, counted as a node and delivered: invariant, progress, unchanged result |
| Parser.Machine.StepValue | src/sJson.c:1514-1659 | a value: invariant, progress, unchanged result; the node limit is tested first |
| Parser.Machine.Run | src/sJson.c:1498-1798 | the loop ends and returns what the initial stack stands for; every frame below the top waits with a container of its kind and the fallback states do not occur |
| Parser.Parse | src/sJson.c:1456-1816 | json_parse: tree and node count, or error, for every text; trailing bytes are refused |
| KeyOrder.CompareBytesZero | src/sJson.c:667-674 | the byte order identifies keys |
| KeyOrder.CompareBytesTransitive | src/sJson.c:667-674 | the byte order is transitive |
| KeyOrder.CompareIsBefore | src/sJson.c:667-674 | a key is smaller exactly when, where the two first differ, it ends or has the smaller byte |
| KeyOrder.HashedIsBefore | src/sJson.c:654-675 | the index order: the smaller hash first, and the byte order among equal hashes |
| KeyOrder.LeOrder | src/sJson.c:654-675 | json__key_cmp is a total preorder for both comparators |
| Sort.Insert | src/sJson.c:684-692 | one insertion leaves the longer prefix sorted and rearranged, with at most one comparison per earlier entry |
| Sort.InsertionSort | src/sJson.c:677-693 | sorted, a permutation, at most n(n-1)/2 comparisons |
| Sort.SiftDown | src/sJson.c:696-717 | restores the heap from one bad root, two comparisons a level at most |
| Sort.BuildHeap | src/sJson.c:729-733 | the loop from the middle down makes a heap |
| Sort.ExtractOne | src/sJson.c:736-739 | one extraction puts the greatest remaining entry in front of the sorted tail and keeps the heap |
| Sort.HeapSort | src/sJson.c:719-740 | sorted, a permutation, at most 3 n ilog2(n) comparisons |
| Sort.ComputeIlog2 | src/sJson.c:743-748 | the number of halvings, which is the floor of the binary logarithm: 2^r <= n < 2^(r+1) |
| Sort.MedianOfThree | src/sJson.c:772-787 | leaves the pivot next to the end with sentinels at both ends |
| Sort.ScanUp | src/sJson.c:793-793 | stops at or before the right scan on an entry not below the pivot; never leaves the range |
| Sort.ScanDown | src/sJson.c:794-794 | stops inside the range on an entry not above the pivot; never wraps below zero |
| Sort.Partition | src/sJson.c:772-800 | the pivot ends strictly inside the range with smaller entries before and greater ones after it |
| Sort.Divide | src/sJson.c:772-811 | one turn: only the smaller side is recursed into, the rest is in its final place, the comparison budget is kept |
| Sort.Introsort | src/sJson.c:750-813 | sorted and a permutation whichever algorithm finishes each part, within the comparison budget, recursion at most ilog2 of the length, for every threshold from 3 on |
| Sort.SortIndices | src/sJson.c:815-846 | with limit 2 ilog2(n): sorted, permuted, at most a constant (8 for the default threshold) times n (ilog2(n)+1) comparisons, recursion depth at most ilog2(n) |
| OrderedMap.FindPut | src/sJson.c:2526-2574 | after a put, the key has the new value and every other key its old one |
| OrderedMap.KeysPut | src/sJson.c:2526-2574 | a put keeps the order of keys, appends at most one, and keeps keys unique |
| Objects.BinarySearch | src/sJson.c:1929-1963 | finds a pair with the key exactly when one exists, on any index sorted by hash and bytes |
| Objects.IndexKept | src/sJson.c:2549-2553 | changing values only cannot make the index stale |
| Objects.JsonObj.constructor | src/sJson.c:2502-2507 | a new object is the empty map |
| Objects.JsonObj.Grow | src/sJson.c:1429-1454 | fails exactly at the limit or when the arena refuses; otherwise eight, the double, or the limit; keeps every pair and drops the index |
| Objects.JsonObj.Scan | src/sJson.c:1916-1926 | the first pair with the key, by hash and bytes, or none |
| Objects.JsonObj.Set | src/sJson.c:2526-2574 | puts on success, changes nothing on failure, and fails exactly for the stated reasons; an index marked sorted is never stale |
| Objects.SetReasons | src/sJson.c:2526-2574 | the reason of each failure of a set: INVALID_UTF8, OVERFLOW and OOM, each with its exact condition |
| Objects.JsonObj.Finalize | src/sJson.c:815-846 | builds a sorted permutation of all pairs as index; contents unchanged; fails only when the arena refuses |
| Objects.JsonObj.Get | src/sJson.c:1899-1964 | succeeds exactly when the scan would, with a value of that key; the same value as the scan when keys are unique or no index is used |
| OrderedMap.RunIsOrderedMap | src/sJson.c:2526-2574 | over every run: unique keys, in order of first insertion, lookup equal to that of an abstract map |
| Objects.Apply | src/sJson.c:2526-2574 | one operation puts or leaves the pairs as its success says, succeeds only if the limits allow it, and then unless the arena refuses |
| Objects.Run | src/sJson.c:2526-2574 | every run of sets and finalizations leaves exactly the pairs of its successful sets, and succeeds unless a limit or the arena forbids |
| Objects.RunThenGet | src/sJson.c:1899-1964 | after any run, finalized or not, a lookup answers as the abstract map |
| ArenaSpec.AlignUp | src/sJson.c:457-461 | for every alignment: a multiple of the alignment, the next one unless the addition wraps |
| ArenaSpec.FirstFit | src/sJson.c:600-606 | the first block from the current one on that has room |
| ArenaRuns.AllocKeeps | src/sJson.c:579-620 | every request keeps the invariant; a failed one changes nothing; one backing call at most, and only then a new block |
| ArenaRuns.AllocPlace | src/sJson.c:579-620 | the granted region is the unused end of its block, everything else is untouched |
| ArenaRuns.AllocOutcome | src/sJson.c:579-613 | a request is served exactly when no sum wraps around and a block from the current one on has room or the allocator grants one; the allocator is asked exactly when none has room |
| ArenaRuns.AddedBlock | src/sJson.c:463-491 | a block added for a request has the arena's block size if the request fits in one, otherwise the least aligned size that holds it |
| ArenaRuns.OneCall | src/sJson.c:463-620 | from every state, requests that fit together in one block make at most one backing call |
| ArenaRuns.NoCall | src/sJson.c:592-600 | requests that the current block can hold together make none |
| ArenaRuns.StepKeepsLive | src/sJson.c:551-620 | allocation, reset and trim keep live regions aligned, inside their blocks and pairwise disjoint, total_bytes their sum, blocks after current unused |
| ArenaRuns.EveryRunIsLive | src/sJson.c:499-620 | that invariant holds after every run from json_arena_create |
| ArenaRuns.ReplayOne | src/sJson.c:579-620 | a request served from a chain is served at the same place from a longer unused chain, without a backing call |
| ArenaRuns.Replay | src/sJson.c:551-620 | repeating a served run after a reset gives every request the same block and offset with no backing call, and the same final state |
| Arena.BlockNew | src/sJson.c:463-491 | the code computes the capacity that `ArenaRuns.NewBlockSize` characterizes; one backing call unless the size would overflow |
| ArenaRuns.NewBlockSize | src/sJson.c:473-481 | fails exactly when the sum could wrap around; the block size, or the least aligned size above it |
| Arena.Arena.Create | src/sJson.c:499-533 | a new arena represents one empty block of the normalized size, or fails with the allocator; the header is given back exactly when only the block was refused |
| Arena.Arena.FindBlock | src/sJson.c:602-606 | the walk along the chain finds the first block with room, or stops at the last |
| Arena.Arena.Locate | src/sJson.c:592-613 | the chosen block has room; a new one is linked only behind the last block |
| Arena.Arena.Take | src/sJson.c:594-619 | the bump moves used, current and total_bytes together |
| Arena.Arena.Alloc | src/sJson.c:579-620 | block, offset and new state are those of the abstract allocation; the chain is only extended at its end |
| Arena.Arena.Reset | src/sJson.c:551-563 | the loop empties every block and keeps the whole chain; node_count is zero |
| Arena.Arena.Trim | src/sJson.c:565-577 | frees exactly the blocks after the first, each once, then resets, node_count included |
| Arena.Arena.Destroy | src/sJson.c:535-549 | frees exactly the blocks of the chain, each once |
| Arrangement.Arrange | src/sJson.c:2308-2324 | every value has an arrangement with sorted members |
| Arrangement.SortedKeysAscend | src/sJson.c:2312-2324 | under sort_keys no key of an object, at any level, is written after a key that it precedes in the byte order, by places |
| Arrangement.ItemsPrefix | src/sJson.c:2289-2301 | output already written for an array stays, and its error is the error of the whole |
| Arrangement.PairsPrefix | src/sJson.c:2326-2345 | the same for objects |
| Writer.JsonWriter.Put | src/sJson.c:2080-2087 | appends one byte if there is room, otherwise writes nothing and records the sticky error |
| Writer.JsonWriter.Puts | src/sJson.c:2089-2098 | appends the bytes that fit; succeeds exactly when all do |
| Writer.JsonWriter.Indent | src/sJson.c:2100-2114 | appends all the spaces when they fit |
| Writer.JsonWriter.PutU16 | src/sJson.c:2190-2197 | appends the four-digit escape of the code unit |
| Writer.JsonWriter.PutAscii | src/sJson.c:2223-2247 | appends the character, its two-character escape or its \u escape |
| Writer.JsonWriter.PutWide | src/sJson.c:2213-2219 | appends a non-ASCII character raw, or in ASCII mode as one or two \u escapes |
| Writer.JsonWriter.StringContent | src/sJson.c:2199-2251 | appends the escaped content up to the first invalid byte, with the matching status |
| Writer.JsonWriter.Digits | src/sJson.c:2132-2137 | fills the local buffer, never past its end, with the decimal digits in reverse |
| Writer.JsonWriter.Int64 | src/sJson.c:2117-2149 | appends the decimal text of every 64-bit integer, the least one included |
| Writer.JsonWriter.WriteDouble | src/sJson.c:2152-2187 | appends the rendering, with ".0" when it would read as an integer, or reports why not |
| Writer.JsonWriter.WriteItem | src/sJson.c:2289-2301 | one turn of the array loop, with line break and comma |
| Writer.JsonWriter.WriteArray | src/sJson.c:2284-2306 | appends the whole array, or a prefix of it with the right status |
| Writer.JsonWriter.WritePair | src/sJson.c:2326-2345 | one turn of the object loop, ignored statuses included |
| Writer.JsonWriter.WriteObject | src/sJson.c:2308-2351 | appends the whole object in sorted or stored order, or a prefix of it with the right status |
| Writer.JsonWriter.WriteValue | src/sJson.c:2253-2356 | appends the text of an arrangement of the value; depth and rendering errors stop it where the code stops |
| Writer.OrderPairs | src/sJson.c:2312-2324 | the written order is a permutation, with ascending key bytes when asked for |
| Writer.Write | src/sJson.c:2359-2390 | output that fits is written whole, counted and closed with NUL; compact output that does not fit is cut at the capacity with BUFFER_TOO_SMALL |
| Measure.SameLength | src/sJson.c:2253-2356 | sorting members changes neither the success nor the length of the output |
| Measure.SameDocument | src/sJson.c:2308-2397 | the measure, which skips the sort, is the length and outcome of every sorted write |
| Measure.MeasureText | src/sJson.c:2392-2397 | json_measure gives the length and the status of the output |
| Measure.WriteArena | src/sJson.c:2399-2424 | one byte more than the measure is always enough, for all options, and holds exactly the output and its NUL |
| RoundTrip.OutCharIsChar | src/sJson.c:2190-2251 | each written character is grammatical, denotes the character, and is escaped only where it must be, by the shortest escape, with lower-case digits; ASCII in ASCII mode |
| RoundTrip.StringLayout | src/sJson.c:2199-2251 | the escaped content of a string is grammatical and denotes exactly its bytes |
| RoundTrip.EscapeInverse | src/sJson.c:2199-2251 | reading the escaped content and a quote gives back the original bytes in both modes; ASCII mode writes only bytes below 0x80 |
| WriterSpec.ValidContent | src/sJson.c:2199-2251 | a string is written without error exactly when it is valid UTF-8 |
| RoundTrip.IntegerLiteral | src/sJson.c:1346-1365 | an integer literal of any length denotes its exact value within 64 bits and is an overflow otherwise |
| RoundTrip.IntegerRoundTrip | src/sJson.c:2117-2149 | reading what jw_int64 writes gives the number back |
| RoundTrip.ValueLayout | src/sJson.c:2253-2356 | the output for a value is a derivation of exactly that value, in every layout |
| RoundTrip.RenderedText | src/sJson.c:2152-2187 | whatever "%.17g" renders, the written text is a literal of a double with the same sign and value; only integers get ".0" |
| RoundTrip.WrittenTextDerives | src/sJson.c:2253-2390 | complete output derives the written value under RFC 8259, with exactly the line breaks, indentation, spaces and escapes that the options ask for |
| RoundTrip.SameNodes | src/sJson.c:2308-2345 | sorting members adds and removes no node |
| RoundTrip.SameFit | src/sJson.c:2308-2345 | sorting members does not change whether a value is within the parser's limits |
| RoundTrip.WritableIff | src/sJson.c:2253-2262 | given room, a value is written exactly when every level is below JSON_MAX_DEPTH |
| WriteErrors.WriteStops | src/sJson.c:2253-2356 | the error of a write, in every style: depth first, invalid UTF-8, a double without a rendering or with one of 32 bytes, at the first value in writing order that has one |
| RoundTrip.WriteThenParse | src/sJson.c:1456-2390 | parsing complete output gives back the written value exactly when the value is within the parser's limits |
| RoundTrip.LimitsSuffice | src/sJson.c:2253-2390 | every value within the parser's limits is written completely |
| RoundTrip.WriterOutrunsParser | src/sJson.c:1551-2262 | at every depth limit, an empty array at the last level is written but not read back |
| RoundTrip.ParsedIsSound | src/sJson.c:1456-1816 | everything the parser returns has 64-bit integers and valid UTF-8 in its strings and keys |
| RoundTrip.ParseWriteParse | src/sJson.c:1456-2390 | an accepted text whose doubles survive rendering is written under all options and read back as the written tree with the same node count |
| Equality.Equal | src/sJson.c:2586-2633 | the comparison by cases, for all pairs of values |
| Equality.EqualItems | src/sJson.c:2610-2615 | the array loop compares lengths and all items |
| Equality.EqualPairs | src/sJson.c:2616-2629 | the object loop looks up every key of the first object in the second |
| Equality.SameKeys | src/sJson.c:2616-2629 | pigeonhole: increasing key lists of equal length, one contained in the other, agree place by place |
| Equality.EqualSameForm | src/sJson.c:2586-2633 | equal values have the same recursively sorted form |
| Equality.SameFormEqual | src/sJson.c:2586-2633 | values with the same sorted form are equal |
| Equality.EqualIffSameText | src/sJson.c:2586-2635 | json_equal holds exactly when the compact key-sorted outputs are the same bytes |
| KeySets.SameKeySet | src/sJson.c:2616-2629 | pigeonhole: when n different keys are all found among n pairs, those pairs have exactly these keys, each once |
| EqualityLaws.EqualReverses | src/sJson.c:2586-2635 | a value without repeated keys equals only values without repeated keys, and they equal it, doubles included if their comparison is symmetric |
| EqualityLaws.RepetitionBreaksSymmetry | src/sJson.c:2586-2635 | a value that repeats a key at any level, and equals anything, equals a value that does not equal it |
| EqualityLaws.SymmetricIffUniqueKeys | src/sJson.c:2586-2635 | for values without doubles: equality with a value is always mutual if and only if no object in it repeats a key |
| EqualityLaws.SymmetricIffUniqueKeysDoubles | src/sJson.c:2586-2635 | the same with doubles, if their comparison is symmetric |
| EqualityLaws.ReflexiveIff | src/sJson.c:2586-2635 | a value with unique keys equals a copy of itself exactly when every level is below JSON_MAX_DEPTH |
| EqualityLaws.EqualTransitive | src/sJson.c:2586-2635 | json_equal is transitive, repeated keys or not: on values without doubles, and with them if the comparison of doubles is transitive and integers convert exactly |
| EqualityLaws.TransitiveIffExactInts | src/sJson.c:2593-2601 | with an equivalence on doubles: transitive on all values if and only if different 64-bit integers convert to different doubles |
| EqualityLaws.RoundingBreaksTransitivity | src/sJson.c:2593-2601 | where 2^53 and 2^53 + 1 convert to the same double, both equal it and not each other |
| EqualityLaws.IntegersCompareAsDoubles | src/sJson.c:2593-2601 | turning integers of the first value into doubles, wherever the second holds a double, changes nothing |
| EqualityLaws.IntegersCompareAsDoublesSecond | src/sJson.c:2593-2601 | the same for the second value |
| EqualityLaws.DoubleEquals | src/sJson.c:2593-2601 | a double equals exactly the doubles and converted integers that compare equal to it, in both orders |
| EqualityLaws.EqualIsEquivalence | src/sJson.c:2586-2635 | reflexivity below the depth limit, symmetry and transitivity from a value with unique keys and no doubles |
| EqualityLaws.DuplicateKeysBreakSymmetry | src/sJson.c:2616-2629 | a concrete pair that is equal in one order only, at every depth limit that admits a member |

## Left out

- Parser.Parse: does not model running out of arena memory, because a failed allocation only adds an early error return; limits keep `JSON_MAX_ARRAY_LEN` at most 2^31 so that the 32-bit doubling cannot wrap.
- Parser.Machine.Run: keeps containers in the frames as values, so the identity of nodes and the sharing of pointers are not captured; the end-of-input arm for a finished root cannot be reached and is not represented.
- Parser.GrowCap: the growth of the item table itself and a refused allocation are not represented, only the capacity and the overflow.
- Parser.AddTo: does not model a refused allocation when the table grows, like the rest of the parser.
- StringLex.ParseString: does not model a refused allocation of the output buffer, like the rest of the parser.
- Numbers.ParseNumber: the 32-bit exponent counter is an unbounded integer, which is exact for texts shorter than 2^31 - 10010 bytes; `JSON_FAST_FLOAT`, scaling and `strtod` are parameters, exact in `NumberGrammar.NumberDenotes`, so no rounding is claimed; a refused allocation for literals of 64 bytes and more is not modelled.
- Writer.Write: in pretty mode nothing is claimed when the output does not fit, because the code ignores failed indentation and may then report success; key-sort memory is assumed to be granted; keys are assumed to be valid UTF-8, as every constructor of objects checks.
- Writer.JsonWriter.WriteObject: assumes that the memory for the key order is granted; the code returns `JSON_ERR_OOM` otherwise.
- Writer.OrderPairs: assumes that the memory for the key order is granted.
- Writer.JsonWriter.WriteDouble: NaN tests and "%.17g" are one abstract rendering function; round trips of doubles need the hypothesis that a literal with the value and sign of the rendering is read as the same double.
- EqualityLaws.EqualTransitive: with doubles it needs that different integers convert to different doubles, which the conversion of C does not satisfy beyond 2^53; `EqualityLaws.TransitiveIffExactInts` shows that it is then false.
- Equality.Equal: equality of nodes by address is not represented; it can only matter for doubles, repeated keys or values deeper than the limit.
- Equality.EqualPairs: looks keys up by the linear scan; through the index of a finalized object a repeated key may find another of its pairs.
- Sort.SortIndices: comparisons in sift-down are counted as two a level, an upper bound.
- Arena.Arena.Alloc: the bytes of a block and zero filling are not represented; data offsets are relative to the block.
- Sort.Introsort: thresholds below 3 are not covered; the partition needs at least four entries for its sentinels.
- Arena.Arena.Destroy: the final release of the arena header is not represented.
- Null-pointer arguments, `json_error_str`, getters, `json_obj_iter`, type tests and `json_make_*` for scalars: one-branch facts.
- `json_arr_push`, `json_clone` and `json_path`: recursion or scanning that adds only easier members.
- Cyclic or shared values: values are finite trees.
- `line` and `col` of the lexer, the freestanding build, libc hooks, bindings, benchmarks, fuzzing and tests.
- 32-bit wrap-around of lengths outside the arena, the growth of tables and the number scanner: lengths are unbounded integers.
