# localcache, modelled and proved

A Dafny model of the parts of `localcache` that carry its promises, with proofs that the code keeps them. In these
parts a loop or an object that changes in the original is a method or a class here; each is proved against a function
that states what it computes, and the theorems are about those functions.

The model has six parts.

* **The payload codec** (`PayloadFormat`, `PayloadRoundTrip`, `PayloadCanonical`, `PayloadTheorems`, `PayloadVectors`,
  `PayloadDecoder`, `PayloadEncoder`, over `Bytes` and `Utf8`): the legacy wire format as two functions on typed values,
  the decoder and the encoder as classes with their cursor, level and element budget. Main results: the round trip
  before any suffix, canonical decoding in both directions, prefix behaviour, and the work bound on every input.
* **Path globs** (`GlobSyntax`, `GlobMatcher`, `GlobParser`, `GlobText`, `GlobExpansion`, `Glob`): the brace parser, the
  bounded expansion, the matcher with one remembered star, and the SQLite form. Main results: the matcher is sound and
  complete for the declarative relation, and the compiled glob selects what its pattern does, read character by
  character, in Rust and in SQLite.
* **The bounded store** (`UseTable`, `UseStatements`, `UseEviction`, `LruList`, `UseRefinement`, `UseRuns`, `UseImport`,
  `UseStore`, `UseReports`, `UseEngine`, `UseStamps`): one table of rows, each SQL statement as a method over it, each
  call as a transaction that is rolled back on error. Main results: every run refines a bounded move-to-front list under
  any clocks; a batch is a run of sets; eviction is exact, fair and reported in full; export and import keep the eviction
  order under an exact condition, which every store made with a clock that does not fall to before second 1 inside a
  write meets.
* **Queries** (`QueryOrder`, `QueryPages`, `QueryTiers`, `QueryAnswers`): late materialization in windows, and its
  agreement with decoding everything, which needs the stable sort to commute with dropping rows. A query returns exactly
  the candidates that satisfy its predicates, in the one order its keys allow.
* **The stored format** (`SealTags`, `Sealing`, `Decompression`, `PayloadPipeline`) **and key rotation**
  (`RotationSteps`, `RotationDraws`, `KeyRotation`): tags and associated data, sealing over any authenticated cipher,
  bounded decompression, the pipeline's round trip, and the paged sweep that seals a namespace again, whatever seal its
  rows had, each row with a nonce of its own.
* **Timestamps** (`Calendar`, `TimestampText`): days to dates, and text that reads back.

`dafny verify dfyconfig.toml` checks the project.

## What is assumed

* AES-256-GCM is any pair of functions with which opening inverts sealing (RFC 5116, sections 2.1 and 2.2; NIST SP
  800-38D, sections 7.1 and 7.2). That a text opens under no other key or associated data cannot be assumed of a cipher
  with a tag of fixed length, and is not: lemmas about it conclude that the text is refused or is a `Forgery`, one text
  that opens twice. A nonce is what the random source hands out, and it may fail.
* A compressor's frame yields what was compressed, and a size its header declares (RFC 8878, section 3.1.1.1.4) is the
  true one. Only the round trip of the pipeline uses this. The decompression loop is proved for every finite stream.
  Nothing is assumed of JSON, which writes several values alike: the pipeline hands it back the bytes it wrote.
* Row ids are fresh on insertion, and `(namespace, path)` is unique. The schema promises both.
* The clock is a parameter of every call that reads it, and nothing is assumed of it. Lemmas that say no call fails
  bound it, so that use values stay below 2^62; those about exports ask that it does not fall to before second 1 inside
  a write.
* Paths compare in any total preorder in queries (`Path::cmp` is one), and by scalar values in the rotation (SQLite's
  binary collation of UTF-8).

## Where the code and its documentation differ

* The codec's documentation says that what can be written can be read back. It names the exception itself: a sequence of
  zero-sized elements. `WrittenIsReadIff` gives the exact condition and `ZeroSizedElementsAreRefused` an instance.
* The documentation of export says that importing in order keeps the relative recency of entries. It does exactly when
  the exported seconds do not go down (`ExportImportKeepsOrderIff`). They never do for a store made by calls and imports,
  unless the clock fell to before second 1 between its two readings inside one write (`ReachableExportKeepsOrder`); with
  such a clock the order can be lost (`OrderCanBeLost`).
* The format's documentation says that a tag the build cannot decode is an unknown encoding whatever the key
  (`crates/localcache-format/src/lib.rs`, lines 278-279 and 398-399). Without a key, a sealed tag is reported as a missing
  key before its base is looked at (`UnknownTagIff`, `UnknownTagCanLookKeyless`).
* The rotation is documented to seal every entry of the namespace and to return their number. It relies on stored paths
  not being empty, and import does not check it. The number is right exactly when none is (`RotateEncryptionKey`), and a
  plain entry with an empty path can no longer be read by the engine that has just rotated (`EmptyPathIsLeftBehind`).
* A glob is documented to match alike in Rust and in SQLite. SQLite reads a text up to its first NUL, so for a candidate
  with one they need not agree (`CompiledMeans`, `NulTellsApart`); no file has such a path.

## Model

| member | source | states |
|---|---|---|
| `Utf8.ScalarRoundTrip` | crates/localcache-format/src/payload_codec/decoder.rs:176-192 | the encoding of a scalar value is well formed and stands for that value |
| `Utf8.ScalarCanonical` | crates/localcache-format/src/payload_codec/decoder.rs:129-137 | a well-formed sequence is the one encoding of its scalar value and as wide as its first byte says |
| `Utf8.DecodeOfEncode` | crates/localcache-format/src/payload_codec/decoder.rs:95-99 | every string reads back from its UTF-8 bytes |
| `Utf8.EncodeOfDecode` | crates/localcache-format/src/payload_codec/decoder.rs:95-99 | bytes accepted as UTF-8 are exactly the encoding of what they decode to |
| `Bytes.DecodeOfEncode` | crates/localcache-format/src/payload_codec.rs:12-18 | a number below 256^w reads back from its w little-endian bytes |
| `Bytes.EncodeOfDecode` | crates/localcache-format/src/payload_codec.rs:12-18 | w bytes are the little-endian form of the number they stand for |
| `PayloadDecoder.Decoder.constructor` | crates/localcache-format/src/payload_codec/decoder.rs:28-35 | a decoder starts with its whole input, at level 0, with the length of the input as its element budget |
| `PayloadDecoder.Decoder.Take` | crates/localcache-format/src/payload_codec/decoder.rs:37-45 | hands out the next n bytes or fails, and does no other work |
| `PayloadDecoder.Decoder.Number` | crates/localcache-format/src/payload_codec/decoder.rs:47-64 | a fixed-width little-endian number, or the error of too few bytes |
| `PayloadDecoder.Decoder.Count` | crates/localcache-format/src/payload_codec/decoder.rs:66-93 | a count within both the bytes left and the budget, which it takes from the budget; no element has been started by then |
| `PayloadDecoder.Decoder.ByteBuf` | crates/localcache-format/src/payload_codec/decoder.rs:207-210 | a length-prefixed buffer; the bytes it copies are bytes it consumed |
| `PayloadDecoder.Decoder.String` | crates/localcache-format/src/payload_codec/decoder.rs:95-99 | a length-prefixed string of valid UTF-8, or the format's error |
| `PayloadDecoder.Decoder.Char` | crates/localcache-format/src/payload_codec/decoder.rs:176-192 | one scalar value of one to four bytes, refused exactly when the bytes are not its UTF-8 |
| `PayloadDecoder.Decoder.Deserialize` | crates/localcache-format/src/payload_codec/decoder.rs:148-302 | the cursor computes the format's decoding of any type, restores its level, and works no more than it consumes and claims |
| `PayloadDecoder.Decoder.DeserializeBool` | crates/localcache-format/src/payload_codec/decoder.rs:155-161 | one byte 0 or 1, any other refused |
| `PayloadDecoder.Decoder.DeserializeOption` | crates/localcache-format/src/payload_codec/decoder.rs:212-218 | tag 0 or 1, and the value one level deeper after a 1 |
| `PayloadDecoder.Decoder.DeserializeNominal` | crates/localcache-format/src/payload_codec/decoder.rs:224-238 | a named struct costs a level, a unit struct nothing |
| `PayloadDecoder.Decoder.DeserializeEnum` | crates/localcache-format/src/payload_codec/decoder.rs:282-289 | a u32 variant index the type has, then that variant's fields, one level in all |
| `PayloadDecoder.Decoder.Nested` | crates/localcache-format/src/payload_codec/decoder.rs:112-124 | one level deeper, or the refusal of level 129 |
| `PayloadDecoder.Decoder.Fields` | crates/localcache-format/src/payload_codec/decoder.rs:101-110 | exactly the fields of the type, in order |
| `PayloadDecoder.Decoder.DeserializeSeq` | crates/localcache-format/src/payload_codec/decoder.rs:240-248 | the counted elements, one level deeper |
| `PayloadDecoder.Decoder.Elements` | crates/localcache-format/src/payload_codec/decoder.rs:304-322 | as many elements as were claimed, and no more |
| `PayloadDecoder.Decoder.DeserializeMap` | crates/localcache-format/src/payload_codec/decoder.rs:263-271 | the counted entries, one level deeper |
| `PayloadDecoder.Decoder.Entries` | crates/localcache-format/src/payload_codec/decoder.rs:329-351 | as many entries as were claimed, key before value |
| `PayloadDecoder.FromSlice` | crates/localcache-format/src/payload_codec.rs:190-193 | decodes as the format does, and on every input, refused or not, starts at most |input| elements, copies at most |input| bytes and nests at most 128 levels |
| `PayloadEncoder.Encoder.constructor` | crates/localcache-format/src/payload_codec/encoder.rs:20-26 | an encoder starts empty, at level 0 |
| `PayloadEncoder.Encoder.Enter` | crates/localcache-format/src/payload_codec/encoder.rs:28-35 | opens a level, or refuses the 129th and opens none |
| `PayloadEncoder.Encoder.SerializeBytes` | crates/localcache-format/src/payload_codec/encoder.rs:218-223 | appends the length and the bytes |
| `PayloadEncoder.Encoder.Serialize` | crates/localcache-format/src/payload_codec/encoder.rs:116-336 | appends exactly the format's encoding and closes every level it opened, or fails as the format does |
| `PayloadEncoder.Encoder.Nested` | crates/localcache-format/src/payload_codec/encoder.rs:41-47 | writes a value one level deeper |
| `PayloadEncoder.Encoder.SerializeFixed` | crates/localcache-format/src/payload_codec/encoder.rs:287-311 | a tuple, struct or variant: its parts in order under one level, after the variant index if it has one |
| `PayloadEncoder.Encoder.SerializeCounted` | crates/localcache-format/src/payload_codec/encoder.rs:280-318 | a sequence or map must declare a length and write as many elements (for a map, keys) as it declared |
| `PayloadEncoder.Encoder.Elements` | crates/localcache-format/src/payload_codec/encoder.rs:93-108 | appends the parts in order and counts them |
| `PayloadEncoder.ToVec` | crates/localcache-format/src/payload_codec.rs:183-188 | writes the format's encoding of the value, or fails as the format does |
| `PayloadRoundTrip.EncodeHasSize` | crates/localcache-format/src/payload_codec.rs:10-28 | an encoding is as long as the size of its value, whatever the level it starts at |
| `PayloadRoundTrip.RoundTrip` | crates/localcache-format/src/payload_codec/decoder.rs:148-302 | at any level, before any suffix and with any budget, what was written decodes to itself and leaves the suffix, exactly when the count checks allow it |
| `PayloadCanonical.Canonical` | crates/localcache-format/src/payload_codec/decoder.rs:148-302 | whatever decodes is the encoding of the value it decoded to, of the right type, with its counts paid from the budget |
| `PayloadTheorems.EncodableIff` | crates/localcache-format/src/payload_codec.rs:77-85 | a value can be written exactly when its declared lengths are true and it nests at most 128 levels deep |
| `PayloadTheorems.BytesPayForCounts` | crates/localcache-format/src/payload_codec/decoder.rs:66-75 | a value whose elements occupy bytes is longer than the sum of all its counts, so neither count check can fire on it |
| `PayloadTheorems.WrittenIsReadIff` | crates/localcache-format/src/payload_codec.rs:183-193 | what is written is read back exactly when the count checks allow it, and the only error otherwise is theirs |
| `PayloadTheorems.CodecRoundTrip` | crates/localcache-format/src/payload_codec.rs:183-193 | a value whose elements occupy bytes is written iff it nests at most 128 levels, and is then read back from any longer input, consuming exactly its encoding |
| `PayloadTheorems.ZeroSizedElementsAreRefused` | crates/localcache-format/src/payload_codec.rs:61-63 | the documented exception: ten zero-sized elements are written but not read back |
| `PayloadTheorems.DecodesIff` | crates/localcache-format/src/payload_codec.rs:190-193 | bytes decode to v leaving rest iff they are v's encoding followed by rest and the counts are within both checks |
| `PayloadTheorems.TrailingBytesAreIgnored` | crates/localcache-format/src/payload_codec.rs:59 | success on an input is the same success, with the same consumption, on any longer one, although both checks see the whole input |
| `PayloadTheorems.TruncationIsAnError` | crates/localcache-format/src/payload_codec.rs:57-58 | every proper prefix of what a decode consumed is an error |
| `PayloadTheorems.FitsMonotone` | crates/localcache-format/src/payload_codec/decoder.rs:66-75 | more bytes after a value never make a count check fire |
| `PayloadTheorems.EncodingIsInjective` | crates/localcache-format/src/payload_codec.rs:10-28 | no two values of a type have the same encoding |
| `PayloadVectors.PlainVectors` | crates/localcache-format/tests/fixtures/payload_codec/vectors.txt:1-67 | the recorded bytes of booleans, numbers, a character and the unit |
| `PayloadVectors.TextVectors` | crates/localcache-format/tests/fixtures/payload_codec/vectors.txt:51-57 | those of a string and a byte buffer: a length of eight bytes, then the bytes |
| `PayloadVectors.OptionVectors` | crates/localcache-format/tests/fixtures/payload_codec/vectors.txt:61-65 | those of options: a byte 0 or 1, then the value |
| `PayloadVectors.TupleVectors` | crates/localcache-format/tests/fixtures/payload_codec/vectors.txt:69-71 | those of a newtype and a tuple: no header |
| `PayloadVectors.VariantVectors` | crates/localcache-format/tests/fixtures/payload_codec/vectors.txt:80-82 | those of enums: an index of four bytes, then the fields |
| `PayloadVectors.SeqVectors` | crates/localcache-format/tests/fixtures/payload_codec/vectors.txt:88-89 | those of sequences: a count of eight bytes, then the elements |
| `PayloadVectors.MapVectors` | crates/localcache-format/src/payload_codec.rs:21-27 | a map's entry is its key, then its value |
| `PayloadVectors.ByteRefusals` | crates/localcache-format/src/payload_codec/decoder.rs:148-218 | bytes that are no boolean, no option's tag, too few or no character, each with its error |
| `PayloadVectors.CountRefusals` | crates/localcache-format/src/payload_codec/decoder.rs:66-99 | a count over the bytes left, one over the budget, and text that is not UTF-8, each with its error |
| `PayloadVectors.NestsIff` | crates/localcache-format/src/payload_codec.rs:77-85 | every kind of nesting costs exactly one level, in any mixture, and the 129th is refused |
| `GlobMatcher.LastStarSuffices` | crates/localcache/src/cache/glob.rs:215-227 | reaching another star, every match that retries an earlier one is still found by the later |
| `GlobMatcher.MatchesTokens` | crates/localcache/src/cache/glob.rs:199-235 | the matcher that remembers one star returns true exactly when the candidate is in the language of the tokens |
| `GlobMatcher.OnlyStars` | crates/localcache/src/cache/glob.rs:231-234 | at the end of the candidate, the rest of the pattern matches exactly when it is stars only |
| `GlobParser.PrintIsUnique` | crates/localcache/src/cache/glob.rs:91-139 | printing is injective on proper trees, whatever follows |
| `GlobParser.Parser.ParseSequence` | crates/localcache/src/cache/glob.rs:91-139 | the tree read prints as the text consumed, and a failure is the failure of the brace scan |
| `GlobParser.Parser.ParsePart` | crates/localcache/src/cache/glob.rs:98-135 | one token or group prints as the text consumed, and a failure is the failure of the brace scan |
| `GlobParser.Parser.ParseGroup` | crates/localcache/src/cache/glob.rs:107-121 | the branches of a group print as the text between its braces |
| `GlobParser.TextScans` | crates/localcache/src/cache/glob.rs:98-122 | the text of a tree is accepted by the brace scan exactly when the tree nests at most 32 groups deep |
| `GlobParser.ScansIff` | crates/localcache/src/cache/glob.rs:98-122 | the brace scan accepts exactly the texts whose braces balance at every point and never nest more than 32 deep |
| `GlobParser.TooDeepIff` | crates/localcache/src/cache/glob.rs:107-109 | it refuses a text as unsafe exactly when a brace too deep comes before any other fault, and otherwise as malformed |
| `GlobText.BranchesOf` | crates/localcache/src/cache/glob.rs:107-121 | cutting a group's text at the commas that are in no inner group gives the texts of its branches |
| `GlobText.PatternMeans` | crates/localcache/src/cache/glob.rs:91-139 | read character by character, with `*`, `?` and `{a,b}` as such, a pattern selects exactly what its tree denotes |
| `GlobParser.Parse` | crates/localcache/src/cache/glob.rs:82-89 | accepts exactly the texts of the trees that nest at most 32 groups deep, which are the patterns whose braces balance and nest so, and returns that tree |
| `GlobExpansion.ExpandCount` | crates/localcache/src/cache/glob.rs:142-190 | the expansion has as many alternatives as the product over groups of the sums over branches |
| `GlobExpansion.ExpandDenotes` | crates/localcache/src/cache/glob.rs:142-190 | some alternative matches exactly when the tree denotes the candidate |
| `GlobExpansion.CollapseDenotes` | crates/localcache/src/cache/glob.rs:192-197 | dropping a star after a star changes no language |
| `GlobExpansion.CollapseEachDenotes` | crates/localcache/src/cache/glob.rs:192-197 | nor does it change the language of a set of alternatives |
| `GlobExpansion.PushCrossCollapses` | crates/localcache/src/cache/glob.rs:174-184 | pushing token by token across a group join is collapsing the joined alternatives |
| `GlobExpansion.ExpandSequence` | crates/localcache/src/cache/glob.rs:142-190 | fails exactly when there are more than 256 alternatives, and otherwise returns the collapsed ones in order |
| `GlobExpansion.ExpandGroup` | crates/localcache/src/cache/glob.rs:152-164 | fails exactly when the branches together have more than 256 alternatives |
| `GlobExpansion.Combine` | crates/localcache/src/cache/glob.rs:174-184 | every prefix with every suffix, prefix-major |
| `GlobExpansion.ProperIsWellFormed` | crates/localcache/src/cache/glob.rs:107-121 | a parsed group has a branch, so no product of counts vanishes |
| `Glob.SqlitePattern` | crates/localcache/src/cache/glob.rs:237-248 | builds that pattern, with `[` written as a class of itself |
| `Glob.SqliteTextMeans` | crates/localcache/src/cache/glob.rs:237-248 | the SQLite pattern of an alternative selects exactly the texts of which SQLite, which stops at a NUL, reads what the alternative denotes |
| `Glob.BracelessIsSqlite` | crates/localcache/src/cache/glob.rs:29-47 | a pattern without braces and brackets selects what SQLite's GLOB selects with it as it stands |
| `Glob.Compile` | crates/localcache/src/cache/glob.rs:51-67 | every refusal and every success of compilation, with the count of alternatives; what it compiles selects exactly what the pattern selects, read character by character |
| `Glob.Matches` | crates/localcache/src/cache/glob.rs:36-41 | a candidate matches exactly when some alternative denotes it |
| `Glob.TreeIsUnique` | crates/localcache/src/cache/glob.rs:82-89 | a pattern has one tree |
| `Glob.CompiledMeans` | crates/localcache/src/cache/glob.rs:29-47 | the compiled glob selects exactly what the pattern selects, read character by character, and what its brace tree denotes: in Rust of the candidate, in SQLite of the candidate up to its first NUL |
| `Glob.NulTellsApart` | crates/localcache/src/cache/glob.rs:35-46 | for a candidate with a NUL the two forms need not agree |
| `UseTable.SortedIsUnique` | crates/localcache/src/db/repository.rs:159-165 | a namespace has one order by use value and id |
| `UseTable.UseOrder` | crates/localcache/src/db/repository.rs:159-165 | that order lists exactly the rows of the namespace |
| `UseTable.MaxUse` | crates/localcache/src/db/repository.rs:130-139 | the largest use value of the namespace, or 0 when it is empty |
| `UseStatements.RecordUseOrder` | crates/localcache/src/db/repository.rs:212-226 | a recorded use moves the row to the end of its namespace's order, whatever the clock says |
| `UseStatements.UpsertOrder` | crates/localcache/src/db/repository.rs:144-157 | so does a write, of a new row or over an old one |
| `UseStatements.DeleteOrder` | crates/localcache/src/db/repository.rs:286-298 | a deletion leaves the order of the rest |
| `UseEviction.OverfetchIsEnough` | crates/localcache/src/db/repository.rs:361-369 | fetching n + |protected| rows and filtering selects what an unbounded NOT IN selects |
| `UseEviction.EvictionFits` | crates/localcache/src/cache/engine.rs:1334-1364 | with room for the protected rows, exactly the excess goes and at most `max_entries` rows stay |
| `UseEviction.EvictionIsFair` | crates/localcache/src/db/repository.rs:347-369 | only unprotected rows of the namespace go, each older than every unprotected one that stays |
| `UseEviction.EvictionKeepsNewest` | crates/localcache/src/db/repository.rs:347-369 | when the protected rows are the newest, the newest `max_entries` rows are what stays |
| `LruList.KeepBeforePut` | crates/localcache/src/cache/engine.rs:478-523 | the stack property: cutting a list to its newest items before a write loses nothing that would be kept after it |
| `LruList.BatchIsSets` | crates/localcache/src/cache/engine.rs:553-654 | writes with the bound kept after each are writes with the bound kept once |
| `UseRefinement.UpsertView` | crates/localcache/src/db/repository.rs:232-280 | a write is a move to the front of the list |
| `UseRefinement.RecordUseView` | crates/localcache/src/db/repository.rs:212-226 | a use is a move to the front of the list |
| `UseRefinement.DeleteView` | crates/localcache/src/db/repository.rs:286-298 | a deletion drops the item from the list |
| `UseRefinement.EnforceView` | crates/localcache/src/cache/engine.rs:1343-1364 | enforcing the bound keeps the newest items of the list |
| `UseRuns.BatchIsNewest` | crates/localcache/src/cache/engine.rs:634-646 | after a batch the rows it wrote are the newest, and no more than its distinct paths |
| `UseRuns.StepRefines` | crates/localcache/src/cache/engine.rs:478-523 | every call that returns Ok does to the list what a bounded move-to-front list does |
| `UseRuns.WritesKeepBound` | crates/localcache/src/cache/engine.rs:478-523 | after an Ok write at most `max_entries` rows are left, and the row just set is the newest of them |
| `UseRuns.StepIsLocal` | crates/localcache/src/cache/engine.rs:1334-1342 | a call touches no other namespace |
| `UseRuns.StepUpTo` | crates/localcache/src/db/repository.rs:167-169 | below 2^62 no call fails for want of use values, and values grow by at most one for each use |
| `UseRuns.RunRefines` | crates/localcache/src/db/repository.rs:130-139 | over every run, under every clock and with other namespaces' calls in between, a namespace is the bounded list of its own calls, but for those that failed and read hits that found no use value left |
| `UseRuns.BoundedRunRefines` | crates/localcache/src/db/repository.rs:167-169 | none is left out while the largest clock plus the number of uses stays below 2^62 |
| `UseRuns.BatchIsARunOfSets` | crates/localcache/src/cache/engine.rs:553-654 | a batch that returns Ok with all its items encoded leaves the same entries in the same use order as setting them one by one |
| `UseReports.EvictionIsReported` | crates/localcache/src/db/repository.rs:370-410 | the paths reported are those of exactly the rows deleted, oldest use first |
| `UseReports.ReportIs` | crates/localcache/src/db/repository.rs:370-410 | there are as many of them as rows gone, and a path is one of them exactly when a row with it is gone |
| `UseReports.WriteReports` | crates/localcache/src/cache/engine.rs:1343-1364 | over a write and its eviction: a path is reported exactly when it was there before and is absent after |
| `UseReports.SetStores` | crates/localcache/src/db/repository.rs:144-157 | after an Ok set the entry and its stamp are those given, new row or overwritten |
| `UseReports.BatchStoresLast` | crates/localcache/src/cache/engine.rs:634-646 | after an Ok batch every path holds the last of its items that could be encoded, with its stamp |
| `UseReports.ImportRestoresLast` | crates/localcache/src/db/repository.rs:762-826 | after an Ok import every path holds its last record: entry, stamp, and the use value its seconds stand for |
| `UseStore.Store.NextUseValue` | crates/localcache/src/db/repository.rs:130-139 | max(clock, MAX + 1) over the namespace |
| `UseStore.Store.FindFile` | crates/localcache/src/db/repository.rs:261-267 | the row of a namespace and path |
| `UseStore.Store.OldestFirst` | crates/localcache/src/db/repository.rs:159-165 | the oldest rows of a namespace, up to a limit |
| `UseStore.Store.Count` | crates/localcache/src/cache/engine.rs:1351 | the number of rows of a namespace |
| `UseStore.Store.RecordUse` | crates/localcache/src/db/repository.rs:212-226 | takes the next use value, or fails at 2^62 and changes nothing |
| `UseStore.Store.WriteRow` | crates/localcache/src/db/repository.rs:144-157 | inserts a row, or overwrites the one of its key; returns its id |
| `UseStore.Store.Upsert` | crates/localcache/src/db/repository.rs:232-280 | a write that takes the next use value, or fails at 2^62 and changes nothing |
| `UseStore.Store.EvictLru` | crates/localcache/src/db/repository.rs:370-410 | over-selecting, filtering and deleting by chunks of 500 deletes exactly the oldest unprotected rows; returns their paths, oldest first |
| `UseStore.Store.ImportRows` | crates/localcache/src/db/repository.rs:768-826 | writes the records in order with the recency they stand for and returns the id of each, or stops at the first record whose recency cannot be expressed |
| `UseEngine.StepIsValid` | crates/localcache/src/cache/engine.rs:478-523 | every Ok call keeps keys unique, ids fresh and use values below 2^62 |
| `UseEngine.Engine.EnforceMaxEntries` | crates/localcache/src/cache/engine.rs:1343-1364 | evicts down to the bound; the paths returned are as many as the rows gone, those of exactly the rows gone, oldest use first |
| `UseEngine.Engine.Set` | crates/localcache/src/cache/engine.rs:478-523 | Ok means stored and bounded, and the paths reported are exactly those there before and absent after; Err means nothing changed |
| `UseEngine.Engine.Get` | crates/localcache/src/cache/engine.rs:315-365 | a hit records a use, a miss or an unreadable payload does not, and failing to record it fails no read |
| `UseEngine.Engine.Touch` | crates/localcache/src/cache/engine.rs:1307-1319 | a use of an entry that exists, whose failure is returned and changes nothing |
| `UseEngine.Engine.Remove` | crates/localcache/src/cache/engine.rs:660-667 | removes the entry of a path and says whether there was one |
| `UseEngine.Engine.WriteAll` | crates/localcache/src/cache/engine.rs:636-644 | writes items in order up to the first failure |
| `UseEngine.Engine.BatchSet` | crates/localcache/src/cache/engine.rs:553-654 | more distinct paths than the bound are refused before writing; Ok stores all that encoded, bounds, and reports the rest, and as evicted exactly the paths there before and absent after; Err changes nothing |
| `UseEngine.FailedAre` | crates/localcache/src/cache/engine.rs:622-632 | exactly the items whose payloads could not be encoded are reported |
| `UseEngine.FailedAscend` | crates/localcache/src/cache/engine.rs:628-632 | they are reported in the order of the items, each once |
| `UseEngine.FailedCount` | crates/localcache/src/cache/engine.rs:634-644 | every item is either reported or written |
| `UseEngine.Engine.ImportBounded` | crates/localcache/src/cache/engine/portable.rs:188-248 | unbound records on a keyed engine, recencies out of range and too many paths are refused before writing, in that order; on a keyed engine unbound records are refused exactly when some tag is not bound; Ok stores the last record of each path and bounds; Err changes nothing |
| `UseImport.UseValueOfRecord` | crates/localcache/src/db/repository.rs:174-191 | the second of last use times 10^6, defined exactly when it is not negative and the product is below 2^62, checked multiplication included |
| `UseImport.NoneUnboundIff` | crates/localcache/src/cache/engine/portable.rs:194-210 | no record counts as unbound exactly when every tag ends in the bound suffix |
| `UseImport.UnboundJoins` | crates/localcache/src/cache/engine/portable.rs:194-210 | the records counted are those whose tag does not, each once |
| `UseImport.ImportStores` | crates/localcache/src/db/repository.rs:762-826 | after an import each path has its last record, with the recency it was exported with, and no other row changes |
| `UseImport.ImportKeepsBound` | crates/localcache/src/cache/engine/portable.rs:173-187 | after an Ok import at most `max_entries` rows are left and every record's path is among them, however old its recency |
| `UseImport.ImportIsLocal` | crates/localcache/src/cache/engine/portable.rs:173-187 | an import touches no other namespace |
| `UseImport.ExportImportKeepsOrderIff` | crates/localcache/src/cache/engine/portable.rs:24-34 | export then import into an empty namespace with room keeps the eviction order exactly when the exported seconds do not go down |
| `UseImport.ExportIsAcceptedIff` | crates/localcache/src/db/repository.rs:174-191 | an export is refused for recency exactly when an entry used before second 1 has an `updated_at` out of range |
| `UseImport.UsedEntriesKeepOrder` | crates/localcache/src/cache/engine/portable.rs:89-94 | with all use values at least 10^6 an export is never refused and the eviction order is kept exactly |
| `UseStamps.ActsKeepStamps` | crates/localcache/src/db/repository.rs:232-259 | after every run of calls and imports in any namespaces, a row used before second 1 was written in second 0, as long as no write saw its clock fall to before second 1 between its two readings |
| `UseStamps.StampedExportRises` | crates/localcache/src/db/repository.rs:719-752 | then every exported record stands for the second of its row's last use: none is refused, and the seconds do not go down |
| `UseStamps.ReachableExportKeepsOrder` | crates/localcache/src/cache/engine/portable.rs:24-34 | so what such a run made is imported whole into an empty namespace with room, in its eviction order |
| `UseStamps.OrderCanBeLost` | crates/localcache/src/db/repository.rs:243-257 | two calls that lose the order: a clock that falls from second 100 to microsecond 5 inside one write |
| `QueryOrder.CompareFlips` | crates/localcache/src/cache/query/execution.rs:506-520 | swapping the entries reverses the comparison |
| `QueryOrder.CompareChains` | crates/localcache/src/cache/query/execution.rs:89-97 | the comparison by several keys is transitive, ascending and descending keys mixed |
| `QueryOrder.CompareIs` | crates/localcache/src/cache/query/execution.rs:506-520 | the comparison is lexicographic: the first key that tells two entries apart decides, growing when ascending and falling when descending, an absent field first |
| `QueryOrder.SortIsTheStableSort` | crates/localcache/src/cache/query/execution.rs:89-97 | the result is sorted and keeps every tie in order, and no other sequence does |
| `QueryOrder.SortIsStable` | crates/localcache/src/cache/query/execution.rs:249-257 | entries that compare equal keep the order they came in |
| `QueryOrder.SortCommutesWithFilter` | crates/localcache/src/cache/query/execution.rs:248-258 | sorting and then dropping is dropping and then sorting |
| `QueryOrder.MapSort` | crates/localcache/src/cache/query/execution.rs:87-98 | sorting rows by their keys does not depend on what else they carry |
| `QueryPages.PayloadsForIds` | crates/localcache/src/db/repository/candidates.rs:190-219 | chunk by chunk, exactly the payload rows of the ids, in any order |
| `QueryPages.FetchWindow` | crates/localcache/src/cache/query/execution.rs:310-315 | the payloads of a window by id, absent where there is none |
| `QueryPages.SliceIs` | crates/localcache/src/cache/query/execution.rs:260-272 | a page holds the values from the offset on, up to the limit |
| `QueryPages.ShortestIs` | crates/localcache/src/cache/query/execution.rs:274-284 | the shortest prefix with enough entries, told apart from every other prefix |
| `QueryPages.PageEndIsShortest` | crates/localcache/src/cache/query/execution.rs:274-284 | a page looks at no candidate more than it must |
| `QueryPages.ScanWindow` | crates/localcache/src/cache/query/execution.rs:316-351 | one window: misses and failures count for nothing, decoded entries first toward the offset and then toward the page |
| `QueryPages.Materialize` | crates/localcache/src/cache/query/execution.rs:285-358 | the page is the decodable candidates in order with offset dropped and limit taken; skipped are the failures in the shortest prefix that fills it; decodes are at most offset + limit + failures |
| `QueryTiers.OrderedIsDistinct` | crates/localcache/src/cache/query/execution.rs:87-98 | sorting keeps every candidate once |
| `QueryTiers.ExecuteTier1` | crates/localcache/src/cache/query/execution.rs:77-100 | sort the candidates, then materialize the page |
| `QueryTiers.DecodeAll` | crates/localcache/src/cache/query/execution.rs:198-246 | decodes every row in order: rows without payload vanish, failures are skipped, the rest must match every predicate |
| `QueryTiers.ExecuteTier3` | crates/localcache/src/cache/query/execution.rs:181-272 | decode everything, sort stably, slice |
| `QueryTiers.TiersAgree` | crates/localcache/src/cache/query/execution.rs:364-385 | with no predicate and no field key both tiers return the same entries for every offset and limit |
| `QueryTiers.TierOneSkipsNoMore` | crates/localcache/src/cache/query/execution.rs:364-385 | the first tier skips only what the third would, and the same without a limit |
| `QueryAnswers.VerdictIs` | crates/localcache/src/cache/query/execution.rs:198-246 | a row matches exactly when its payload decodes and its JSON makes every predicate true, and is skipped exactly when it does not decode or has no JSON that the query needs |
| `QueryAnswers.MatchesAreAnswers` | crates/localcache/src/cache/query/execution.rs:243-258 | the matches, sorted, are the entries of exactly the candidates that answer, by the query's keys read from their rows and JSON, ties in place |
| `QueryAnswers.AnswersAreUnique` | crates/localcache/src/cache/query/execution.rs:243-258 | only one sequence is that |
| `QueryAnswers.PageHoldsAnswers` | crates/localcache/src/cache/query/execution.rs:243-272 | every entry of a page is the answer of a candidate, and without offset and limit every answer is on it |
| `QueryAnswers.SkippedAreErrors` | crates/localcache/src/cache/query/execution.rs:198-242 | what is skipped is an error of a candidate, and all are skipped if the query looks inside payloads or has no limit |
| `QueryAnswers.ExecuteReport` | crates/localcache/src/cache/query/execution.rs:55-76 | whichever tier runs, the entries are the page of the answers: exactly the candidates whose payloads decode and satisfy every predicate, in the query's order; what is skipped is what is an error |
| `QueryAnswers.ExecuteQuery` | crates/localcache/src/cache/query/execution.rs:37-53 | Ok is that page; it fails with the error of a candidate, and on a query that looks inside payloads or has no limit exactly when there is one |
| `SealTags.ParseTagIff` | crates/localcache-format/src/lib.rs:126-138 | a tag parses as a base and a state exactly when it is written as them |
| `SealTags.BoundTagIs` | crates/localcache-format/src/lib.rs:161-174 | exactly the known base tags have a bound tag: themselves with the suffix |
| `SealTags.BoundTagParses` | crates/localcache-format/src/lib.rs:126-174 | a bound tag parses back to its base |
| `SealTags.AssociatedDataIsInjective` | crates/localcache-format/src/lib.rs:176-187 | no two pairs of tag and path share their associated data, as long as the tags hold no NUL |
| `SealTags.AssociatedDataIsText` | crates/localcache-format/src/lib.rs:176-187 | the associated data are the UTF-8 bytes of the context, the tag and the path with a NUL between them |
| `Sealing.SealedOpens` | crates/localcache-format/src/lib.rs:557-618 | a sealed text opens under its own key and associated data to what was sealed |
| `Sealing.ResealKeepsInner` | crates/localcache-format/src/lib.rs:634-667 | sealed again, a payload is bound, of the same base, and opens under the new key at its own path to the same inner bytes |
| `Sealing.ResealedOpensNowhereElse` | crates/localcache-format/src/lib.rs:634-667 | under another key, at another path or under another bound tag it is refused, or the cipher is forged |
| `Decompression.Buffer.ReserveExact` | crates/localcache-format/src/lib.rs:537-547 | a larger buffer with the same contents |
| `Decompression.Buffer.Extend` | crates/localcache-format/src/lib.rs:548 | appends without growing |
| `Decompression.YieldJoins` | crates/localcache-format/src/lib.rs:524-548 | what reads yield is what each of them yields, in order |
| `Decompression.DecompressBytes` | crates/localcache-format/src/lib.rs:497-551 | Ok exactly when the frame opens, no read fails, and neither the declared size nor the content is over the limit; then the whole content, for every chunking; otherwise which error; the capacity never exceeds the limit |
| `PayloadPipeline.EncodeIff` | crates/localcache-format/src/lib.rs:306-392 | a payload is stored exactly when it serializes, fits the limit if it is compressed, compresses, and a nonce is drawn if it is sealed; otherwise which error |
| `PayloadPipeline.EncodedAs` | crates/localcache-format/src/lib.rs:306-392 | the tag names codec, compression and seal; the bytes are the codec's, compressed if so, behind the nonce and sealed with tag and path if so |
| `PayloadPipeline.CompressedIsRead` | crates/localcache-format/src/lib.rs:306-311 | what encoding accepts to compress under a limit is handed back to the codec under the same limit |
| `PayloadPipeline.WholeRoundTrip` | crates/localcache-format/src/lib.rs:306-453 | compression and sealing are transparent under the same key, path and limit; in the binary format the value comes back exactly when the count checks let it pass |
| `PayloadPipeline.OccupyingIsRecoverable` | crates/localcache-format/src/payload_codec/decoder.rs:66-75 | values whose elements occupy bytes pass them |
| `PayloadPipeline.SealedIsReadOnlyAtHome` | crates/localcache-format/src/lib.rs:394-428 | a sealed payload is read with a key only under its own key, path and tag, or the cipher is forged |
| `PayloadPipeline.UnknownTagIff` | crates/localcache-format/src/lib.rs:394-414 | an undecodable tag is reported as unknown exactly when it is plain or there is a key, and otherwise as a missing key |
| `PayloadPipeline.UnknownTagCanLookKeyless` | crates/localcache-format/src/lib.rs:411-415 | a sealed tag of an unknown base, read without a key, is a missing key |
| `RotationSteps.PathLessIsStrict` | crates/localcache/src/db/repository.rs:644-648 | the path order is strict and total |
| `RotationSteps.PathLessChains` | crates/localcache/src/db/repository.rs:644-648 | the path order is transitive |
| `RotationSteps.RotatedOpens` | crates/localcache/src/cache/engine.rs:934-953 | a rotated row was readable with the old key or plain, and opens under the new key at its own path to what it held |
| `RotationSteps.HoldingIff` | crates/localcache-format/src/lib.rs:640-666 | what a row holds, said of its tag and bytes: plain content, a legacy seal without associated data, or a bound seal with its own |
| `RotationSteps.RotatedHolds` | crates/localcache-format/src/lib.rs:640-666 | a row that was plain, sealed in the legacy way or bound opens after the rotation under the new key, bound to its path, to exactly what it held, and nothing else of it changes |
| `RotationSteps.RotatedLegacyOpened` | crates/localcache-format/src/lib.rs:657 | a legacy row is rotated only if it opened without associated data |
| `RotationSteps.RotatedOpensNowhereElse` | crates/localcache/src/cache/engine.rs:934-953 | under another key, at another path or under another bound tag it does not open, or it is forged |
| `RotationSteps.RotatedIsReadOnlyAtHome` | crates/localcache-format/src/lib.rs:394-428 | so it is read with a key only under the new one, at its own path and under its own tag, or it is forged |
| `RotationSteps.SweepPage` | crates/localcache/src/cache/engine.rs:919-972 | a page moves the frontier: every row up to its last is rotated once, none after it, and the count grows by its rows |
| `RotationSteps.RotationKeepsUseOrder` | crates/localcache/src/db/repository.rs:686-700 | a rotation moves no entry in any use order |
| `RotationSteps.RotationKeepsValues` | crates/localcache/src/cache/engine.rs:836-869 | what an entry decoded to under the old key, or plain without one, it decodes to under the new key; only that opening inverts sealing is assumed of the cipher |
| `RotationSteps.EmptyPathIsLeftBehind` | crates/localcache/src/db/repository.rs:644-648 | a record with an empty path is imported, left as it was by the rotation, and refused as unsealed under the new key |
| `KeyRotation.KeyedEngine.NextByPath` | crates/localcache/src/db/repository.rs:678-684 | the next row of the namespace in path order |
| `KeyRotation.KeyedEngine.LoadPayloadPage` | crates/localcache/src/db/repository.rs:649-676 | a page of consecutive rows after the cursor, at least one if any is left, ended by the row limit, the byte limit or the namespace |
| `KeyRotation.KeyedEngine.ResealPage` | crates/localcache/src/cache/engine.rs:934-953 | every row of a page sealed again under the new key, or the first failure |
| `KeyRotation.KeyedEngine.WritePage` | crates/localcache/src/cache/engine.rs:955-966 | writes exactly the page's rows |
| `RotationDraws.PageHasOwnDraws` | crates/localcache-format/src/lib.rs:566-582 | each row is sealed with a draw of the random source that no other row of the rotation has |
| `KeyRotation.KeyedEngine.RotateEncryptionKey` | crates/localcache/src/cache/engine.rs:891-989 | Ok: every row with a non-empty path sealed again once, and the key replaced; the count returned is that of the namespace exactly when no stored path is empty; Err: nothing changed; and, nonces permitting, Ok exactly when every such row opens with the old key and has a known tag; for all page limits; what each row held, plain, legacy or bound, opens under the new key; a legacy row that does not open makes it fail; each row has its own nonce |
| `Calendar.DaysAreConsecutive` | crates/cli/src/text.rs:54-73 | for every integer day, its date is a date and the next day's date is the Gregorian successor |
| `Calendar.DayNumberOfDate` | crates/cli/src/text.rs:54-73 | no two days share a date |
| `TimestampText.YearBack` | crates/cli/src/text.rs:75-81 | every year reads back from its text |
| `TimestampText.SecondsBack` | crates/cli/src/text.rs:39-49 | every timestamp in seconds reads back from its text |
| `TimestampText.NanosecondsBack` | crates/cli/src/text.rs:30-37 | every timestamp in nanoseconds reads back from its text |
| `TimestampText.WithinYearText` | crates/cli/src/text.rs:39-49 | month, day, hour, minute and second, two digits each, in this order |
| `TimestampText.SecondsText` | crates/cli/src/text.rs:39-49 | the year of the day comes first |

## Left out

- SQLite itself: statements have contracts over a table in memory; query plans, locking, the busy timeout and schema migration are not modelled.
- UseEngine.Engine.Get: does not model a file row without a payload row, which is a miss; the store keeps the two as one row, as every write does. Queries do model a missing payload.
- 32-bit targets: `usize` is 64 bits wide, so `LengthOverflow` cannot happen; `offset + limit` and `n + |protected|` are not cut off at the largest `usize`.
- The serde visitors: a map is the sequence of its entries, so a target map that merges equal keys is outside the codec; `deserialize_any` and its kin, borrowed strings, size hints and the text of errors (with `bounded`) are left out.
- QueryAnswers.ExecuteReport: does not model tier 2, predicates and sort keys evaluated by SQLite's JSON functions on an engine without a key, because what those functions extract is SQLite's own.
- QueryAnswers.ExecuteQuery: leaves out the same tier.
- The path filters of a query: candidates are given, in path order. Glob filtering is proved on its own.
- QueryOrder.CompareChains: compares the numbers of JSON fields as reals, because a finite `f64` orders as the real it is; NaN cannot come from JSON.
- Decompression.DecompressBytes: takes a finite stream of reads, because a stream that is interrupted for ever never returns; the allocator gives exactly the capacity asked for.
- UseEngine.Engine.BatchSet: starts after the first pass over the files, whose failures depend on the file system and occupy no row.
- KeyRotation.KeyedEngine.RotateEncryptionKey: needs a row limit of at least 1; the original's is 1,000. With 0 the sweep would stop at once.
- Calendar.DaysAreConsecutive: counts days without bound; the original's 128-bit integers hold every day a 64-bit timestamp has.
- AES-GCM, zstd, Base64 and JSON internals, key erasure, and the random source that nonces are drawn from.
- Watching, directory walking, hashing, change detection, time to live and paged clean-up, engine pools and async wrappers, callbacks' effects, metrics and the command line: input and output, or easier siblings of what is proved.
