# A Dafny model of the prover node

This project models the parts of a zero-knowledge proving service whose correctness does not show in any
single function, and proves what they promise.

| file | what it models |
|---|---|
| `Positional.dfy`, `DecimalText.dfy` | numbers as digit strings in any base, modular arithmetic, decimal text |
| `Term.dfy` | the 64-bit packed term of a linear expression |
| `R1csFormat.dfy` | the iden3 `.r1cs` format: what a file stands for, a writer, a decoder on bytes that do not change |
| `R1csReader.dfy` | the reader of the node, which reverses the bytes of big integers where they lie and shares one growing coefficient table |
| `Circuit.dfy`, `Witness.dfy` | the rebuilt constraints, the witness split, and the theorem that joins file, witness and circuit |
| `JwtPadding.dfy` | recovering a message from its SHA-256 padding (section 5.1.1 of FIPS 180-4) |
| `Schema.dfy`, `TagTexts.dfy`, `SchemaFields.dfy`, `SchemaVisibility.dfy` | circuit schemas: parsing a circuit value, rebuilding a value from the schema, and what struct tags, schema fields and leaves say |
| `SchemaLeaves.dfy`, `SchemaRoundTrip.dfy`, `SchemaRebuild.dfy`, `SchemaExamples.dfy` | the round trip through a schema: when it panics, when it keeps a circuit, what it loses |
| `SchemaParser.dfy` | the parser and builder in the loop-and-counter form of the source, and the witness sequence |
| `ProofManager.dfy` | the cache of pushed and claimed proof hashes, with eviction, flush and restart |
| `ConnectionPool.dfy`, `Rpc.dfy` | the bounded channel pool and the retry loop that uses it |
| `NodeList.dfy` | the hub's registry and its proof-of-history chain |
| `OAuth.dfy`, `Base64Texts.dfy`, `KeyLimbs.dfy`, `Certificates.dfy` | key sets: base64url integers and texts, limbs, verification with one refresh, and keys from certificates |
| `Merkle.dfy`, `PublicKey.dfy`, `Parallelize.dfy` | the Merkle path check, limbs to public-key bytes, and the work split |

Objects whose methods update fields are classes; each method's `ensures` ties its new state to a function
of the old one, and the theorems are about runs of those functions. Go panics and Python exceptions are
results, not preconditions. Hash functions are parameters: a statement that needs collision freedom
returns the two colliding inputs instead of assuming there are none.

## Main results

* `Witness.Accepts`: reading a constraint file and a witness file and checking every assertion of the
  rebuilt circuit accepts exactly the vectors that satisfy the original constraints.
* `R1csReader.R1csReader.ReadR1CS` with `R1csFormat.FileRoundTrip`: the in-place reader inverts the
  writer, whatever the order, repetition and company of the sections.
* `SchemaRebuild.RoundTripIff`, `SchemaRoundTrip.PanicsIffNamedList` and
  `SchemaVisibility.VisibilityLaw`: for every circuit that parses, exactly when instantiation panics; for
  every one that can be built, exactly when parse, instantiate and parse again is parse; what each leaf is
  told.
* `TagTexts.TagReads`, `SchemaFields.SchemaSays`: what every struct tag and every field of a schema says.
* `TaskCache.CacheRefinesIdeal`, `FlushPersists`, `ClaimSpacing` and `RestartForgetsIff`, over every run
  of pushes, claims, lookups, flushes, cleanings and restarts.
* `ConnectionPool.PoolConserves` and `QueueIsFifo`, over every interleaving of acquire, wait, cancel,
  release and close.
* `JwtPadding.RecoveryInvertsPadding`: an exact condition on message length and filler; `SpelledRecovery`
  and `ParseUint8Iff` carry it to the decimal strings.
* `Merkle.Completeness`, `Binding` and `Soundness`; `NodeList.LiveIff` and
  `PohRepeatIsCollision`; `Certificates.VerifyCertifiedIff`; `PublicKey.BytesAreLimbsIff`.

## Where the code and what is said of it differ

* The schema keeps only the first element's shape of a list. `RoundTripIff`: a circuit that can be built
  survives the round trip exactly when it is uniform: in every list the elements have, relative to their
  own names, the leaves of the first. `RaggedListReadsBackIff`: a slice of slices of variables survives
  exactly when all its lengths are equal. For the leaves alone the same holds where every list on the
  builder's way starts with a leaf, or no two fields of a struct may give the same name;
  `ClashHidesLoss` shows a circuit with neither that keeps its leaves by accident, its first list losing
  a leaf name that its second one gains.
* `PanicsIffNamedList`: `Instantiate` panics exactly when the builder's way through the circuit - every
  field of a struct, the first element of a list that has a leaf - meets a list, other than a plain list
  of variables, in which that element is a variable (in Go, a list whose type is a defined type), or when
  the circuit has a leaf and is no struct, so that its one field has no name. A list met elsewhere does no
  harm.
* `RecoveryInvertsPadding`: messages of 2^29 bytes or more, and filler that is not a whole number of
  eight-byte blocks, are never recovered.
* `RestartForgetsIff`: spacing of claims survives a restart exactly when the snapshot keeps, for a claim
  whose minute is not over, an entry that is not PENDING and lives to the end of that minute. A file that
  has lost the entry is as bad as one that still says PENDING, since the hash can be pushed again.
  `RestartOffersIff`: without a push it can be claimed again exactly when the file says PENDING.
* `CloseStrandsWaiter` and `ClosedHandsOutNothing`: a caller can be waiting in `acquire` when the pool is
  closed, and is then never woken.
* `TextAmbiguousIff`: the sequence text of one-line names is also the text of other such names exactly when
  one of them, public or secret, is `secret:`, which a name tag allows.
* A live PENDING hash may be pushed again, because its value is 0 and Python takes it for false.

## Model

| member | source | states |
|---|---|---|
| Term.WithWireID | prover/circom-prover/lib/compiled/term.go:141-147 | panics exactly on ids outside 29 bits, negative ones included; else the wire field reads back the id and the other two fields keep their bits |
| Term.WithCoeffID | prover/circom-prover/lib/compiled/term.go:131-138 | the same for the 30-bit coefficient field |
| Term.PutVisibilityFields | prover/circom-prover/lib/compiled/term.go:112-128 | setting a visibility reads back, setting Unset changes nothing, the ids are kept |
| Term.VisibilityNumber | prover/circom-prover/lib/compiled/term.go:38-44 | the number each visibility is stored as, 1 to 4; Unset stores nothing |
| Term.ApplyChangesOneField | prover/circom-prover/lib/compiled/term.go:95-157 | each setter changes what its own getter returns and nothing else, on every 64-bit word |
| Term.SettersReadBack | prover/circom-prover/lib/compiled/term.go:95-157 | after any run of in-range setter calls, in any order, each field holds the argument of the last call that names it |
| Term.TermCell.SetWireID | prover/circom-prover/lib/compiled/term.go:141-147 | the update through the pointer: panic leaves the term alone |
| Term.TermCell.SetCoeffID | prover/circom-prover/lib/compiled/term.go:131-138 | the update through the pointer: panic leaves the term alone |
| Term.TermCell.SetVisibility | prover/circom-prover/lib/compiled/term.go:112-128 | the update through the pointer |
| Term.Pack | prover/circom-prover/lib/compiled/term.go:78-92 | panics exactly when an id does not fit; otherwise unpacking gives back ids and visibility, for all five visibilities |
| R1csFormat.NumIff | prover/circom-prover/src/utils/readCircomR1CS.go:17-22 | a fixed-width number is read exactly where its little-endian encoding stands |
| R1csFormat.CombinationIff | prover/circom-prover/src/utils/readCircomR1CS.go:54-69 | a linear combination decodes to c exactly when c fits the packed terms and its encoding stands there |
| R1csFormat.ConstraintsRead | prover/circom-prover/src/utils/readCircomR1CS.go:203-207 | decoded constraints fit, and their encoding is what was read |
| R1csFormat.ConstraintsWritten | prover/circom-prover/src/utils/readCircomR1CS.go:203-207 | written constraints that fit decode to themselves |
| R1csFormat.LabelsRead | prover/circom-prover/src/utils/readCircomR1CS.go:212-217 | decoded labels fit, and their encoding is what was read |
| R1csFormat.LabelsWritten | prover/circom-prover/src/utils/readCircomR1CS.go:212-217 | written labels decode to themselves |
| R1csFormat.HeaderIff | prover/circom-prover/src/utils/readCircomR1CS.go:167-188 | a header section is accepted exactly when it holds a header over the BN254 prime and ends where the section ends |
| R1csFormat.PrimeIsBn254 | prover/circom-prover/src/utils/readCircomR1CS.go:173 | the one accepted prime is the order of BN254's scalar field, as the curve family's polynomial gives it |
| R1csFormat.ToInt64Is | prover/circom-prover/src/utils/readCircomR1CS.go:152-165 | a section size is read as Go's signed 64-bit integer of the same bits |
| R1csFormat.TableSeparates | prover/circom-prover/src/utils/readCircomR1CS.go:152-165 | the sections a table records share no byte, when no size reads as negative |
| R1csFormat.TableOfSections | prover/circom-prover/src/utils/readCircomR1CS.go:152-165 | the table of a written file holds, for each kind, the payload of the last section of that kind |
| R1csFormat.DecodeIff | prover/circom-prover/src/utils/readCircomR1CS.go:126-220 | a file decodes to a system exactly when the system fits and each of the three sections holds its encoding from first byte to last |
| R1csFormat.FileRoundTrip | prover/circom-prover/src/utils/readCircomR1CS.go:126-220 | any file the writer produces, sections in any order and repeated among others, decodes to what was written |
| R1csReader.ReadUint32 | prover/circom-prover/src/utils/readCircomR1CS.go:17-19 | the four bytes at the cursor as a little-endian number, or a panic outside the buffer |
| R1csReader.ReadUint64 | prover/circom-prover/src/utils/readCircomR1CS.go:20-22 | the same for eight bytes |
| R1csReader.ReverseRange | prover/circom-prover/src/utils/readCircomR1CS.go:35-42 | the range is reversed in place and nothing else moves |
| R1csReader.ReadBigInt | prover/circom-prover/src/utils/readCircomR1CS.go:35-42 | the value is that of the little-endian bytes found at the call; only those bytes are rearranged, and not at all on a panic |
| R1csReader.TableGrows | prover/circom-prover/src/utils/readCircomR1CS.go:54-69 | appending coefficients never changes what a term already built stands for |
| R1csReader.R1csReader.ReadTerm | prover/circom-prover/src/utils/readCircomR1CS.go:57-67 | one coefficient is appended, the count stays the table's length, and the packed term points at it |
| R1csReader.R1csReader.ReadLC | prover/circom-prover/src/utils/readCircomR1CS.go:54-69 | same outcome as decoding the bytes found at the call; the table grows by the combination's coefficients in order, and the terms stand for it |
| R1csReader.R1csReader.ReadR1C | prover/circom-prover/src/utils/readCircomR1CS.go:71-78 | the same for three combinations, although each read rearranges bytes |
| R1csReader.R1csReader.ReadSections | prover/circom-prover/src/utils/readCircomR1CS.go:152-165 | the section loop builds the decoded table |
| R1csReader.R1csReader.ReadHeader | prover/circom-prover/src/utils/readCircomR1CS.go:167-188 | header, prime check and size check as on the original bytes; only the header section's bytes move |
| R1csReader.R1csReader.ReadCounts | prover/circom-prover/src/utils/readCircomR1CS.go:180-185 | the six counts in their order and widths |
| R1csReader.R1csReader.ReadConstraints | prover/circom-prover/src/utils/readCircomR1CS.go:200-210 | every packed constraint stands for the decoded one at its index, in the final table |
| R1csReader.R1csReader.ReadLabels | prover/circom-prover/src/utils/readCircomR1CS.go:212-217 | the labels of the buffer as it is now |
| R1csReader.R1csReader.ReadBody | prover/circom-prover/src/utils/readCircomR1CS.go:192-220 | after the prime was reversed, sections 2 and 3 are still read as the original bytes, when the three sections lie apart |
| R1csReader.ConstraintsMove | prover/circom-prover/src/utils/readCircomR1CS.go:35-42 | constraints that end where their section does decode alike after another section's bytes moved |
| R1csReader.LabelsMove | prover/circom-prover/src/utils/readCircomR1CS.go:35-42 | labels likewise |
| R1csReader.SectionsApart | prover/circom-prover/src/utils/readCircomR1CS.go:152-165 | the three known sections share no byte, missing ones included |
| R1csReader.R1csReader.ReadR1CS | prover/circom-prover/src/utils/readCircomR1CS.go:126-232 | errors up to the header are the decoder's, a file that does not begin with "r1cs" is refused as such; for files none of whose section sizes reads as negative, succeeds exactly when decoding the original bytes does, and builds constraints, labels and wire counts of exactly the decoded system |
| Circuit.SelectReadsJoin | prover/circom-prover/src/utils/readCircomR1CS.go:83-95 | the index remap of a split witness reads the unsplit vector at the wire's own index |
| Circuit.ProductsSum | prover/circom-prover/src/utils/readCircomR1CS.go:80-113 | the sum of the field products is the integer inner product modulo p |
| Circuit.AddUp | prover/circom-prover/src/utils/readCircomR1CS.go:97-112 | all four ways of adding, by number of terms, give the same sum modulo p |
| Circuit.SumConstraint | prover/circom-prover/src/utils/readCircomR1CS.go:80-113 | one side of a rebuilt constraint is <c, w> mod p on the unsplit vector, for any number of terms |
| Circuit.SatisfiesMeans | prover/circom-prover/src/utils/readCircomR1CS.go:115-124 | a constraint holds exactly when the prime divides the difference of its two sides |
| Circuit.Define | prover/circom-prover/src/utils/readCircomR1CS.go:115-124 | all assertions hold exactly when every constraint the packed terms stand for is satisfied by the unsplit vector |
| Witness.ParseWtns | prover/circom-prover/src/utils/utils.go:122-165 | errors by case; on success the split of the values first in the file, although each is reversed in place before it is read; for any two 32-bit counts, their sum wrapping as Go's does |
| Witness.PrivateOf | prover/circom-prover/src/utils/utils.go:149-162 | the private part is value 0 and everything after the public values, in order |
| Witness.SplitWhere | prover/circom-prover/src/utils/utils.go:139-162 | which value goes to which slot and which stay private, for any two 32-bit counts: slots by their sum, public values by one more, each wrapping on its own |
| Witness.SplitJoins | prover/circom-prover/src/utils/utils.go:139-164 | every public slot is filled exactly when there are more values than public wires, and then the two parts join to the original vector |
| Witness.WtnsRoundTrip | prover/circom-prover/src/utils/utils.go:122-165 | a witness file, its fields at the widths of the iden3 format, with any version, prime and spare bytes behind it, reads back its count and values |
| Witness.Accepts | prover/circom-prover/src/utils/readCircomR1CS.go:80-232 | end to end, for any witness file of the iden3 format: files read, witness split, assertions checked; accepted exactly when the original system is satisfied by the original vector |
| JwtPadding.ParsersAgree | prover/circom-prover/src/utils/utils.go:32-86 | a string the strict parser takes as a byte is the same byte to the lenient one |
| JwtPadding.ParseUint8Iff | prover/circom-prover/src/utils/utils.go:34-43 | the strict parser takes exactly the digit strings that spell, in base 10, a byte, and takes them as that byte |
| JwtPadding.AtoiReads | prover/circom-prover/src/utils/utils.go:77-86 | the lenient parser gives the number its digits spell after an optional sign, saturated to 64 bits, and 0 where it has no digit or a stray character before the overflow |
| JwtPadding.ParseAllIff | prover/circom-prover/src/utils/utils.go:32-43 | the strict buffer is b exactly when the strings spell the bytes of b, one each |
| JwtPadding.MergeAllReads | prover/circom-prover/src/utils/utils.go:77-86 | the lenient buffer has one byte for each string, the number it reads modulo 256 |
| JwtPadding.ParseSegments | prover/circom-prover/src/utils/utils.go:34-43 | the bytes of all segments in order, or failure when any string is not a byte |
| JwtPadding.ScanStops | prover/circom-prover/src/utils/utils.go:49-69 | the backward scan ends at the last block that is not zero, having skipped only zero bytes in whole blocks |
| JwtPadding.RecoverReads | prover/circom-prover/src/utils/utils.go:45-70 | what any buffer is recovered as: the four bytes that end its last eight-byte block that is not zero, in bits, are the length; a length beyond the buffer, a missing block and a short buffer are the three errors |
| JwtPadding.ReconstructJWT | prover/circom-prover/src/utils/utils.go:32-70 | parse errors, short buffers, lengths beyond the buffer and missing length fields by case, else the recovered prefix |
| JwtPadding.MergeJWT | prover/circom-prover/src/utils/utils.go:77-86 | the bytes of all segments with parse errors ignored |
| JwtPadding.BuffersAgree | prover/circom-prover/src/utils/utils.go:32-86 | the two readers build the same buffer whenever the strict one succeeds |
| JwtPadding.RecoveredIsPrefix | prover/circom-prover/src_cpu/main.go:199-266 | a recovered message is the prefix, of its own length, of the buffer the caller hashes |
| JwtPadding.RecoveryInvertsPadding | prover/circom-prover/src/utils/utils.go:45-70 | padding and then zero filler are undone exactly for messages below 2^29 bytes and filler in whole eight-byte blocks |
| JwtPadding.SpelledRecovery | prover/circom-prover/src/utils/utils.go:32-86 | segments that spell a padded message and whole blocks of zeros are recovered as the message, and merged as the bytes they spell |
| Tags.ReadTagName | prover/circom-prover/lib/schema/schema.go:225-255 | a name read from a tag has no comma and only valid characters, and is empty when no visibility is set |
| Tags.TagRoundTrip | prover/circom-prover/lib/schema/schema.go:172-190 | a printed tag reads back as the name and visibility it was printed from, with and without omitempty |
| TagTexts.PrintedTags | prover/circom-prover/lib/schema/schema.go:172-190 | what both tags of a generated field say: the gnark tag the name and, when set, the visibility, the JSON tag the name and `omitempty` on request; when each is left out |
| TagTexts.TagSplits | prover/circom-prover/lib/schema/tags.go:52-91 | every tag is a name and options joined by commas, none of which has a comma |
| TagTexts.TagReads | prover/circom-prover/lib/schema/schema.go:223-255 | what every tag says: nothing, a skip, secret when only white space follows the name or an option is `secret`, public when none is and one is `public`, else the error; the name exactly when it is valid |
| SchemaRoundTrip.OneField | prover/circom-prover/lib/schema/schema.go:195-377 | a value below the root gives at most one field, with the name, tag and visibility passed down; no field means no leaf |
| SchemaRoundTrip.ShapeFree | prover/circom-prover/lib/schema/schema.go:195-377 | what a value parses to depends on where it stands in names only |
| SchemaRoundTrip.ParseSeen | prover/circom-prover/lib/schema/schema.go:217-223 | fields tagged "-" change nothing, wherever they are |
| SchemaRoundTrip.LeafIffField | prover/circom-prover/lib/schema/schema.go:289-372 | a value gives the schema a field exactly when it gives the handler a leaf, and both exactly when a variable is reached |
| SchemaRoundTrip.FirstGives | prover/circom-prover/lib/schema/schema.go:348-374 | the one element field a list keeps is that of its first element with a leaf |
| SchemaRoundTrip.RoundTripValue | prover/circom-prover/lib/schema/schema.go:131-170 | the value built for the field of a uniform value parses back to that field with the same leaves |
| SchemaRoundTrip.RoundTripFields | prover/circom-prover/lib/schema/schema.go:131-150 | the struct built from the parsed fields of a uniform struct parses back to them with the same leaves |
| SchemaRoundTrip.RoundTripElems | prover/circom-prover/lib/schema/schema.go:152-170 | copies of the first element's shape parse to the leaves and first field of the uniform list they were built for |
| SchemaRoundTrip.SchemaRoundTrips | prover/circom-prover/lib/schema/schema.go:42-79 | for buildable uniform circuits, parsing what is instantiated gives the same schema, leaf names and visibilities, with and without omitempty |
| SchemaRoundTrip.NamesGood | prover/circom-prover/lib/schema/schema.go:222-301 | the fields a struct gives the schema have distinct names that are not empty |
| SchemaRoundTrip.PanicsIffNamedList | prover/circom-prover/lib/schema/schema.go:62-79 | for every circuit that parses, instantiating panics exactly when the builder meets a list, not a plain list of variables, whose first element with a leaf is a variable, or the circuit has a leaf and is no struct |
| SchemaRoundTrip.NamedListPanics | prover/circom-prover/lib/schema/schema.go:314-346 | a smallest circuit whose schema cannot be built |
| SchemaLeaves.LeavesAre | prover/circom-prover/lib/schema/schema.go:195-377 | what a value hands over is its relative leaves, each under the name it stands at |
| SchemaLeaves.ElemsSame | prover/circom-prover/lib/schema/schema.go:323-364 | two lists of one length hand over the same leaves exactly when their elements do, one by one |
| SchemaRebuild.RebuildIs | prover/circom-prover/lib/schema/schema.go:131-170 | what the builder makes of a parsed field, as a function of the value alone: leafless parts gone, list elements replaced by copies of the first one with a leaf |
| SchemaRebuild.RebuiltParses | prover/circom-prover/lib/schema/schema.go:62-79 | what is rebuilt parses wherever the original did |
| SchemaRebuild.KeptIsUniform | prover/circom-prover/lib/schema/schema.go:348-374 | with fields that cannot share names, a value that keeps its leaves when rebuilt is uniform |
| SchemaRebuild.SuffixKept | prover/circom-prover/lib/schema/schema.go:348-374 | if a value's leaves and its rebuilt ones end two equal sequences, whatever stands before, they are the same and the value is uniform, provided its lists start with a leaf |
| SchemaRebuild.SchemaKept | prover/circom-prover/lib/schema/schema.go:348-374 | a value whose field is kept when rebuilt has a leaf in the first element of every list on the builder's way |
| SchemaRebuild.PrefixFreeApart | prover/circom-prover/lib/schema/schema.go:381-390 | own names of which none begins another keep the fields of every struct from sharing names |
| SchemaRebuild.RoundTripIff | prover/circom-prover/lib/schema/schema.go:42-79 | for every buildable circuit that parses: what is rebuilt parses, and to the same schema and leaves exactly when the circuit is uniform; for the leaves alone exactly then too, if lists start with a leaf or fields cannot share names |
| SchemaExamples.RaggedListReadsBackIff | prover/circom-prover/lib/schema/schema.go:348-374 | a slice of slices of variables of any lengths survives the round trip, in schema or in leaves alone, exactly when the lengths are all equal |
| SchemaExamples.RaggedListDiffers | prover/circom-prover/lib/schema/schema.go:348-374 | its leaf counts before and after, for any lengths: their sum, and their number times the first that is not zero |
| SchemaExamples.ClashHidesLoss | prover/circom-prover/lib/schema/schema.go:381-390 | a circuit that is not uniform and keeps its leaves: two fields share a name, and a list starts with no leaf |
| SchemaVisibility.ConsistentStep | prover/circom-prover/lib/schema/schema.go:257-267 | the parser's check against the inherited visibility is exactly consistency of the whole path, and inheritance is the nearest explicit visibility |
| SchemaVisibility.NearestIsOnly | prover/circom-prover/lib/schema/schema.go:257-267 | on a path that parses, every explicit visibility equals the one the leaf gets |
| SchemaVisibility.ValueLaw | prover/circom-prover/lib/schema/schema.go:195-377 | the law below, for a value under any consistent path |
| SchemaVisibility.VisibilityLaw | prover/circom-prover/lib/schema/schema.go:42-53 | a circuit parses exactly when no path has an unknown option or mixes public and secret; the handler then sees each leaf once, in field order, with the name of its path and its nearest explicit visibility or Secret; the two counters sum to the number of leaves; what a field says explicitly is TagReads |
| SchemaFields.SchemaSays | prover/circom-prover/lib/schema/schema.go:195-377 | the schema of any circuit that parses says, field by field in order and at every depth, the name, tag, kind, visibility and length of what has a leaf, lists through their first element with one |
| SchemaFields.CountIs | prover/circom-prover/lib/schema/schema.go:204-219 | each counter is the number of leaves with its visibility |
| SchemaVisibility.MixedPathFails | prover/circom-prover/lib/schema/schema.go:257-261 | public and secret anywhere on one path fail the parse |
| SchemaParser.Walk.constructor | prover/circom-prover/lib/schema/schema.go:46-46 | counters at zero and nothing handled |
| SchemaParser.Walk.Handle | prover/circom-prover/lib/schema/schema.go:204-219 | one leaf: its counter and its name list grow, the others stay |
| SchemaParser.Walk.ParseInto | prover/circom-prover/lib/schema/schema.go:195-377 | appends to the list it is given exactly the fields of the specification, and hands over exactly its leaves; errors are the specification's |
| SchemaParser.Walk.ParseStruct | prover/circom-prover/lib/schema/schema.go:222-287 | the field loop, with its skip, its two errors and inheritance |
| SchemaParser.Walk.ParseList | prover/circom-prover/lib/schema/schema.go:323-364 | the element loops, keeping or dropping the element fields |
| SchemaParser.ParseCircuit | prover/circom-prover/lib/schema/schema.go:42-53 | fields and leaves of the specification; NbPublic and NbSecret count its leaves by visibility |
| SchemaParser.ToStructField | prover/circom-prover/lib/schema/schema.go:131-150 | panics exactly when some field cannot be built, bad names of nested fields included; else the filled slice is the specified struct, name, tag and type of each field |
| SchemaParser.FieldType | prover/circom-prover/lib/schema/schema.go:140-147 | the type of one field, or the panic |
| SchemaParser.StructType | prover/circom-prover/lib/schema/schema.go:69-77 | a struct type of fields, with reflect.StructOf's panics on empty and repeated names |
| SchemaParser.ArrayElementType | prover/circom-prover/lib/schema/schema.go:152-170 | panics exactly on a first sub-field that is a leaf or cannot be built; else the array type |
| SchemaParser.WriteSequence | prover/circom-prover/lib/schema/schema.go:85-128 | panics exactly when the schema cannot be instantiated; else the text lists the public leaves and then the secret leaves of the rebuilt circuit, in order, or is the parse error |
| SchemaParser.SequenceOfCircuit | prover/circom-prover/lib/schema/schema.go:81-128 | on the schema of any circuit that parses it never fails and panics exactly when the circuit is not buildable; for a uniform one the text is that of the circuit itself |
| SchemaParser.OneNamedText | prover/circom-prover/lib/schema/schema.go:104-126 | the whole text of a circuit with one variable of any name, public or secret |
| SchemaParser.NamesAre | prover/circom-prover/lib/schema/schema.go:88-102 | the names collected are those of the leaves with the visibility, each leaf's at its place among them |
| SchemaParser.TextDetermines | prover/circom-prover/lib/schema/schema.go:81-128 | two texts of one-line names are the same only for the same names, when neither has a public leaf called like the second heading |
| SchemaParser.TextAmbiguousIff | prover/circom-prover/lib/schema/schema.go:81-128 | the text of given one-line names is also that of others exactly when one of the given names, public or secret, is the second heading |
| SchemaParser.NamesClash | prover/circom-prover/lib/schema/schema.go:104-126 | two one-variable circuits, tagged `secret:,public` and `secret:,secret`, that parse and give the same text |
| TaskCache.ProofManager.constructor | prover/node/src/modules/proof_manager/main.py:22-30 | a new process sees the snapshot less what has expired, and is clean |
| TaskCache.ProofManager.Get | prover/node/src/modules/proof_manager/main.py:61-74 | the live value or None; an expired entry is evicted and marks the cache dirty |
| TaskCache.ProofManager.Set | prover/node/src/modules/proof_manager/main.py:76-81 | the entry expires ttl after now, or never |
| TaskCache.ProofManager.DropExpired | prover/node/src/modules/proof_manager/main.py:33-46 | what stays is exactly what is live |
| TaskCache.ProofManager.SaveCache | prover/node/src/modules/proof_manager/main.py:83-96 | nothing when clean; else eviction and a write, and the flag is cleared only when the write succeeded; that a flush then persists is FlushPersists |
| TaskCache.ProofManager.CleanExpired | prover/node/src/modules/proof_manager/main.py:108-118 | nothing when nothing has expired; else eviction, a dirty flag and a save |
| TaskCache.ProofManager.ClaimTask | prover/node/src/modules/proof_manager/main.py:120-127 | granted exactly on a live PENDING entry, which becomes RUNNING for a minute; the other replies by case, with no update |
| TaskCache.ProofManager.PushTask | prover/node/src/application/http_server/v1/main.py:259-275 | refused on a bad signature or a live RUNNING entry only; else PENDING for a minute |
| TaskCache.ClaimIsItsEvents | prover/node/src/modules/proof_manager/main.py:120-127 | a claim is its lookup and, when granted, its update, as steps of a run |
| TaskCache.PushIsItsEvents | prover/node/src/application/http_server/v1/main.py:259-275 | a push likewise |
| TaskCache.StepRefines | prover/node/src/modules/proof_manager/main.py:33-118 | every step keeps memory, and the file while clean, indistinguishable from a map nothing is evicted from |
| TaskCache.CacheRefinesIdeal | prover/node/src/modules/proof_manager/main.py:33-118 | at every later time every lookup answers as that map, which only a restart from a file that is behind takes back to the file; when the dirty flag is false, so does a process that reloads the file |
| TaskCache.FlushPersists | prover/node/src/modules/proof_manager/main.py:83-96 | over any run, after a flush whose write succeeds a process restarted at any later time answers every lookup as the ideal map did |
| TaskCache.CleanPersists | prover/node/src/modules/proof_manager/main.py:108-118 | so it does after a cleaning that found something expired and whose save succeeds |
| TaskCache.ExpiredLeaveMemory | prover/node/src/modules/proof_manager/main.py:33-46 | after a cleaning, and a flush of a changed cache, memory holds nothing that had expired |
| TaskCache.LookupForgets | prover/node/src/modules/proof_manager/main.py:61-74 | a lookup drops its key when that has expired, marking a change to be flushed, and changes nothing else |
| TaskCache.WrittenOnlyWhenDue | prover/node/src/modules/proof_manager/main.py:83-118 | the file is written only by a flush of a changed cache and a cleaning that finds something expired; otherwise both change nothing |
| TaskCache.LoadedIsClean | prover/node/src/modules/proof_manager/main.py:22-59 | a process that has only loaded its snapshot writes nothing at its next flush |
| TaskCache.ClaimLastsAMinute | prover/node/src/modules/proof_manager/main.py:120-127 | after a granted claim its hash is seen RUNNING for 60 seconds and then not at all; other hashes are seen as before |
| TaskCache.PushLastsAMinute | prover/node/src/application/http_server/v1/main.py:259-275 | after a granted push its hash is seen PENDING for 60 seconds and then not at all; other hashes are seen as before |
| TaskCache.PushAndClaim | prover/node/src/application/http_server/v1/main.py:259-275 | on a node without a snapshot a hash that is pushed can be claimed at once |
| TaskCache.RunSpaced | prover/node/src/modules/proof_manager/main.py:120-127 | the invariant behind the minute, over every run whose restarts keep the claims of the key: within the minute an entry that is not PENDING is held and no request works on the key |
| TaskCache.RunAlternating | prover/node/src/modules/proof_manager/main.py:120-127 | the invariant behind the push between two claims, over every run whose restarts offer no claimed key again |
| TaskCache.ClaimSpacing | prover/node/src/modules/proof_manager/main.py:120-127 | over every run whose restarts keep the claims of a hash, two successful claims of it are 60 seconds apart; if no restart offers it again, between them lies a push begun after the first claim's minute |
| TaskCache.CleanRunKeeps | prover/node/src/modules/proof_manager/main.py:48-96 | runs that restart only with the dirty flag cleared meet both conditions of ClaimSpacing |
| TaskCache.RestartAnswers | prover/node/src/modules/proof_manager/main.py:48-74 | after a restart a hash can be claimed exactly when the file maps it to a live PENDING entry, and is refused for a push exactly when it maps it to another live entry |
| TaskCache.RestartForgetsIff | prover/node/src/modules/proof_manager/main.py:48-59 | from any state such a run leads to, a restart can be followed by a second claim within the minute exactly when it comes within it and the file does not keep an entry for the hash that is not PENDING and lives to its end |
| TaskCache.RestartOffersIff | prover/node/src/modules/proof_manager/main.py:48-74 | for a key claimed and not pushed since, a restart can be followed by another claim without a push exactly when the file maps it to a live PENDING entry |
| TaskCache.StaleRestartForgetsClaim | prover/node/src/modules/proof_manager/main.py:48-59 | a run that forgets: a restart from an older snapshot, claims at seconds 1 and 2 |
| ConnectionPool.ConnectionPool.constructor | prover/node/src/modules/prover/circom/main.py:84-88 | warm-up creates min(initial size, limit) channels, none for negative sizes |
| ConnectionPool.ConnectionPool.Acquire | prover/node/src/modules/prover/circom/main.py:98-107 | closed, head of the queue, a new channel below the limit, or a wait; and the new state |
| ConnectionPool.ConnectionPool.Release | prover/node/src/modules/prover/circom/main.py:109-115 | to the queue's end, or closed when the pool is |
| ConnectionPool.ConnectionPool.Close | prover/node/src/modules/prover/circom/main.py:117-126 | drains the queue and closes exactly what was in it, in order |
| ConnectionPool.WarmUp | prover/node/src/modules/prover/circom/main.py:84-96 | a new pool has as many channels as asked for, up to the limit and none for a negative number, all idle in order of creation |
| ConnectionPool.CreatesIff | prover/node/src/modules/prover/circom/main.py:98-107 | a channel is created exactly when an open pool with none idle is asked for one below the limit |
| ConnectionPool.QueueIsFifo | prover/node/src/modules/prover/circom/main.py:98-115 | first in, first out over every run of an open pool: the channels taken and then those idle are the ones idle at first and then those released, in order |
| ConnectionPool.RunCallersApart | prover/node/src/modules/prover/circom/main.py:98-107 | over every run a caller waits, or holds one channel, but not both; one that is woken or cancelled waits no longer |
| ConnectionPool.StepConserved | prover/node/src/modules/prover/circom/main.py:98-126 | every step of every caller keeps the invariant of the next row |
| ConnectionPool.PoolConserves | prover/node/src/modules/prover/circom/main.py:84-126 | in every reachable state at most the limit was created, each created channel is once in the queue, with one holder, or closed, and after close the queue is empty |
| ConnectionPool.WaitOnlyWhenAllHeld | prover/node/src/modules/prover/circom/main.py:98-107 | a caller starts waiting only when all channels up to the limit are held |
| ConnectionPool.ReleaseWakesIff | prover/node/src/modules/prover/circom/main.py:98-115 | a released channel can be taken by a waiting caller exactly when the pool is open |
| ConnectionPool.ClosedHandsOutNothing | prover/node/src/modules/prover/gnark/main.py:82-110 | after close nothing is created or handed out, and a waiting caller waits until cancelled |
| ConnectionPool.CloseStrandsWaiter | prover/node/src/modules/prover/gnark/main.py:82-110 | a run from a new pool that ends closed, with every channel back and closed, and a caller still waiting |
| ConnectionPool.EveryChannelClosedOnce | prover/node/src/modules/prover/gnark/main.py:92-110 | when a closed pool has all channels back, each was closed exactly once |
| Rpc.LogBounds | prover/node/src/modules/prover/circom/main.py:187-227 | over any number of attempts each acquisition is followed at once by its release, and pauses sum to at most two seconds per retry |
| Rpc.LogIsSo | prover/node/src/modules/prover/circom/main.py:195-227 | the k-th attempt takes and returns its own channel, and the pause before the next is the smaller of base * 2^(k-1) and two seconds |
| Rpc.Attempts | prover/node/src/modules/prover/circom/main.py:195-227 | the loop stops at the first attempt that is not transient or has no retry left, with that attempt's result and the pauses in between |
| Rpc.StopsAtFirst | prover/node/src/modules/prover/circom/main.py:207-227 | the loop's stop condition holds of the first attempt that is not retried and of no other |
| Rpc.CallWithRetries | prover/node/src/modules/prover/gnark/main.py:171-206 | every attempt before the last was transient, the last one stops, and its outcome is the result; pauses and channels by attempt as in LogIsSo; at most retries + 1 attempts, at most 2 * retries seconds asleep, and exactly the acquired channels released on every way out |
| NodeList.NodeList.Add | hub/src/modules/node_list/main.py:41-57 | one entry at the hash of its addresses, proof chained to the last |
| NodeList.NodeList.Remove | hub/src/modules/node_list/main.py:59-61 | the entry is gone, an absent one is ignored, the chain is kept |
| NodeList.NodeList.RemoveInactiveNodes | hub/src/modules/node_list/main.py:70-72 | exactly the entries within the timeout stay, the chain is kept |
| NodeList.NodeList.SetTimeout | hub/src/modules/node_list/main.py:74-75 | the timeout and nothing else |
| NodeList.NodeList.GetNode | hub/src/modules/node_list/main.py:63-68 | all nodes when more are asked for than there are, else the nodes of the sample; no node twice |
| NodeList.ChainLinks | hub/src/modules/node_list/main.py:21-57 | each proof hashes its entry with the proof before it, across removals and expiry |
| NodeList.PohRepeatIsCollision | hub/src/modules/node_list/main.py:21-57 | equal proofs in one run, even for the same node in the same second, exhibit a hash collision |
| NodeList.LiveIff | hub/src/modules/node_list/main.py:41-75 | over any run an index is live exactly when some add hashes to it and since the last such add neither a removal of it nor a sweep beyond the timeout then in force came; the entry is that add's |
| NodeList.RunIndexed | hub/src/modules/node_list/main.py:32-57 | every live entry stands at the hash of its addresses and is that of some add of the run |
| NodeList.LiveEntriesDiffer | hub/src/modules/node_list/main.py:32-57 | one live entry per address pair, and distinct proofs unless the hash collides |
| Base64Url.TextRoundTrip | prover/node/src/modules/oauth_provider/x509_google/main.py:98-132 | bytes written as base64url, stripped of padding and read leniently with "==" come back, for every length |
| Base64Url.AlphabetIs | prover/node/src/modules/oauth_provider/x509_google/main.py:98-132 | the characters of the URL-safe alphabet (section 5 of RFC 4648) |
| Base64Url.GroupsSpell | prover/node/src/modules/oauth_provider/x509_google/main.py:98-132 | the characters of one, two or three bytes spell in base 64 what the bytes spell in base 256 |
| Base64Texts.SextetIs | prover/node/src/modules/oauth_provider/x509_google/main.py:118-121 | the reader takes each character of the alphabet as its place in it, and `+` and `/` as the last two |
| Base64Texts.DecodeReads | prover/node/src/modules/oauth_provider/x509_google/main.py:118-121 | what any text reads as: the bytes spelled by its letters before the first padding character that completes a group, or by all letters when none does and they come in whole groups; else an error |
| Base64Texts.SpelledOnce | prover/node/src/modules/oauth_provider/x509_google/main.py:118-121 | letters spell only one byte string |
| KeyEncoding.MinimalBytesValue | prover/node/src/modules/oauth_provider/x509_google/main.py:98-115 | the bytes of an integer spell it, big-endian |
| KeyEncoding.MinimalBytesShortest | prover/node/src/modules/oauth_provider/x509_google/main.py:98-115 | no shorter byte string does (section 2 of RFC 7518) |
| KeyEncoding.UintRoundTrip | prover/node/src/modules/oauth_provider/x509_google/main.py:98-132 | every integer written into a key reads back |
| KeyLimbs.ToCircomBigintBytes | prover/node/src/modules/oauth_provider/google/main.py:121-130 | the i-th limb is the decimal text of the i-th digit of the number in base 2^n |
| DecimalText.DecimalSpells | prover/node/src/modules/oauth_provider/google/main.py:121-130 | the text of a number spells it in base 10 without a leading zero |
| KeyLimbs.LimbsIdentify | prover/node/src/modules/oauth_provider/google/main.py:121-130 | limbs recompose modulo 2^(n*k), each is below 2^n, and equal limb lists mean equal residues, both ways |
| Provider.Provider.CheckOnce | prover/node/src/modules/oauth_provider/google/main.py:68-85 | malformed input is False, a missing key set or a bad key before the match raises, else the scan's answer |
| Provider.Provider.Verify | prover/node/src/modules/oauth_provider/google/main.py:52-66 | the refresh is made, stored and decides only when the cached keys answer False |
| Provider.ScanFinds | prover/node/src/modules/oauth_provider/google/main.py:76-85 | for any keys, True exactly when one matches before any that does not decode, False exactly when all decode and none matches |
| Provider.VerifyListed | prover/node/src/modules/oauth_provider/google/main.py:52-85 | for any cached set, refresh and submitted list, accepted exactly when a cached key matches before any that does not decode, or all cached keys decode without a match and the same holds of the fetched set; a submission that is no list of strings is refused |
| Certificates.CertsReadBack | prover/node/src/modules/oauth_provider/x509_google/main.py:89-132 | keys written from RSA certificates read back their moduli, one for one |
| Certificates.CertifiedLimbs | prover/node/src/modules/oauth_provider/x509_google/main.py:70-152 | the limbs of m are accepted exactly when some certificate agrees with m modulo 2^(n*k) |
| Certificates.VerifyCertified | prover/node/src/modules/oauth_provider/x509_google/main.py:54-152 | with usable certificates whose moduli fit the limbs, accepted exactly when m is a modulus of the cached or the fetched certificates |
| Certificates.VerifyCertifiedIff | prover/node/src/modules/oauth_provider/x509_google/main.py:54-152 | for any two batches of certificates, refused or not RSA included, exactly when the limbs of m are accepted |
| Merkle.LeafSum | prover/gnark-prover/src/tako_gnark_ecdsa/verify.go:20-27 | the hash of the one element, whatever was in the hasher |
| Merkle.NodeSum | prover/gnark-prover/src/tako_gnark_ecdsa/verify.go:31-38 | the hash of the two elements in order, whatever was in the hasher |
| Merkle.VerifyProof | prover/gnark-prover/src/tako_gnark_ecdsa/verify.go:44-67 | holds exactly when the index fits the depth and the fold of the path along its bits is the root |
| Merkle.Completeness | prover/gnark-prover/src/tako_gnark_ecdsa/verify.go:44-67 | the sibling path of every leaf of a perfect tree of any depth is accepted at its index |
| Merkle.PerfectLeaves | prover/gnark-prover/src/tako_gnark_ecdsa/verify.go:44-67 | a perfect tree has 2^depth leaves and its index numbers them from the left |
| Merkle.FoldBinds | prover/gnark-prover/src/tako_gnark_ecdsa/verify.go:56-63 | two different paths folding alike exhibit a collision at the level where they part |
| Merkle.Binding | prover/gnark-prover/src/tako_gnark_ecdsa/verify.go:44-67 | two different accepting paths of equal length for one root and index exhibit a collision |
| Merkle.Soundness | prover/gnark-prover/src/tako_gnark_ecdsa/verify.go:44-67 | an accepted path starts with the tree's own leaf at that index, or exhibits a collision |
| PublicKey.Recompose | prover/gnark-prover/src/tako_gnark_ecdsa/pub2addr.go:31-55 | four limbs by Horner's rule are their base-2^64 value modulo the curve's prime |
| PublicKey.PrimeIsSecp256k1 | prover/gnark-prover/src/tako_gnark_ecdsa/pub2addr.go:31-55 | the curve's prime is 2^256 - 2^32 - 977 |
| PublicKey.Pub2AddrHint | prover/gnark-prover/src/tako_gnark_ecdsa/pub2addr.go:25-81 | each half of the outputs is 32 bytes that spell, big-endian, the limbs' value modulo the prime; a wrong input count writes nothing |
| PublicKey.BytesAreLimbsIff | prover/gnark-prover/src/tako_gnark_ecdsa/pub2addr.go:31-78 | the bytes are the limbs written out exactly when their value is below the prime |
| PublicKey.BigEndianBytesToVar | prover/gnark-prover/src/tako_gnark_ecdsa/utils.go:35-44 | the first 20 variables recompose base 256 modulo the circuit's prime, and without reduction when they are bytes |
| PublicKey.AddressSplit | prover/gnark-prover/src/tako_gnark_ecdsa/utils.go:35-44 | the 20-byte split of an address below 2^160 recomposes to it |
| Parallelize.Parallelize | prover/circom-prover/lib/compiled/parallelize.go:9-44 | the ranges are consecutive from 0 to the count, none empty, lengths within one of each other, and as many as workers or iterations, whichever is fewer |
| Parallelize.ExactlyOneWorker | prover/circom-prover/lib/compiled/parallelize.go:9-44 | every iteration lies in exactly one range |

## Left out

- ReadR1CS: for files with a section size of 2^63 or more, which Go reads as negative, only the outcome up to the header is stated; beyond the header, which of the two errors is raised is not compared.
- ReadBigInt: a Go slice expression reaches up to the file buffer's capacity, so a number cut off by the end of the file may be read with zero bytes for the rest; the model panics at the file's length.
- ReadR1CS (magic check): for the same reason Go reports a file under four bytes as one with a bad header type, where the model panics; its debug log also indexes four bytes at the counts.
- ReadSections: Go's int overflow of the cursor near 2^63 is not modelled.
- ReadBody: a header with fewer variables than public wires makes Go allocate the wrapped 32-bit count; the model returns that count.
- WtnsRoundTrip: files of fields of 32 bytes; the source, like the model, reads any other file as if its fields had 32 bytes.
- ParseWtns: the array is all that slices of the file reach, spare capacity included; a file too short for its own count is read on into it. Allocation failures on a wrapped capacity are not modelled.
- SumConstraint: the circuit builder is the field it computes in; gnark's compilation and Groth16 are not modelled.
- Pack: the hint and debug helpers beside it are not modelled.
- RoundTripIff: for the leaves alone, its condition is sufficient and not shown necessary; ClashHidesLoss shows that some such condition is needed.
- ParseInto: an error returned by the handler, and the texts of the parser's errors, are not modelled; on an error the counters are dropped by the caller, so only the error is stated.
- ParseStruct: Go reflection beyond trees is not modelled (embedded and unexported fields, addressability, pointers).
- ToStructField: tags are key and value pairs, so quoting inside a tag text is not modelled; of reflect.StructOf's panics those on empty and repeated names are, those on names that are no exported Go identifiers are not.
- IsValidTag: which characters beyond ASCII are letters or digits is left open.
- WriteSequence: errors of the writer it is given are not modelled.
- Copy (schema.go): copying values between circuits by leaf order is not modelled.
- ClaimSpacing: across a restart it asks what RestartForgetsIff and RestartOffersIff show to be needed.
- ProofManager.constructor: a snapshot file left empty by a failed write raises an exception that the loader does not catch, so the process does not start; the model starts it with an empty cache.
- SaveCache: each cache method is one step; another thread inside `_drop_expired` or between the dump and the cleared flag is not modelled, nor are pickle bytes and the flush timer.
- PushTask: the signature check is a parameter, and the other HTTP and gRPC handlers are not modelled.
- Acquire: a failure to create a channel, channel options and TLS are not modelled, and the queue's choice among waiting callers is left open.
- CallWithRetries: a release interrupted by a cancellation is not modelled; each attempt's outcome is a parameter.
- VerifyProof: gnark's handling of a depth at or above the field's bit size, and the hash function itself, are not modelled.
- NewPoh: timestamps and the hash are parameters; the JSON text that is hashed is one value per document.
- GetNode: random sampling is a parameter.
- Verify: downloading and parsing key sets, X.509 and the RSA library's checks are parameters.
- Pub2AddrHint: Keccak, signature recovery and the hint registry are not modelled.
- Parallelize: goroutines and the wait group are not modelled, only the ranges they get.
- The hub's scheduler and API, the project manager, device selection, running counters, proof export, and the Telegram and private-prover copies of modelled code would add only easier members.
