# Verified model of the shibori engine core

This project models the parts of the shibori columnar engine in which its arithmetic, bit manipulation and
state live, and proves what callers rely on. Everything here is about the model; nothing was executed.

- **CRC32C** (`Words`, `Crc32c`, `Crc32cWide`, `Crc32cPolynomial`, `Crc32cPublished`, `Crc32cBursts`,
  `Crc32cHasher`). The reference is the bit-serial register. The table loop and the eight-bytes-at-a-time loop
  are methods proved to reach it, and it is proved to be the unique remainder of a polynomial division by the
  Castagnoli generator. The published checksum is pinned down from the message alone, as the complement of the
  remainder of a dividend written by exponents (section 12.1 of RFC 3720). Two messages that differ only
  within a 32-bit window are proved never to share a checksum.
- **Framing** (`Endian`, `RecordEnvelope`, `RecordSequence`, `Preamble`). The parsers are proved to be exact
  inverses of the encoders, the layouts are spelled out byte by byte, burst detection is carried up through
  the envelope parser, the preamble parser and the record verifier, and runs of the sequence tracker are
  characterised.
- **Resource budgets** (`ResourceProtocol`, `ResourceSafety`, `ResourceEffects`, `ResourceTree`,
  `ResourceRelease`, `ResourceReturns`, `Sums`, `ResourceBudget`, `ResourceLimits`). The protocol treats every
  locked region and every change of a reference count as one atomic step, so that a sequence of steps stands
  for any interleaving of any number of threads. Conservation, the capacity bound over a whole tree and
  unreachability of both termination guards are proved over all of them. Each step is proved to have exactly
  its effect, and from every reachable state everything can still be given back. `ResourceBudget` holds the
  same operations as one thread sees them, as methods of classes that share the protocol's charge and refund;
  the preconditions of its `Release`, `MoveAssign` and `Destroy` are the conservation facts the protocol
  proves of every reachable state.
- **Schemas** (`Utf8`, `Utf8Syntax`, `LogicalType`, `Metadata`, `SchemaCanonical`, `SchemaDecoder`,
  `Fingerprint`, `SchemaBuilder`). Strict text is proved to be both what encoding scalar values gives and what
  the octet grammar of RFC 3629 generates. The serializers are methods over a growing vector, proved against
  functions that give the canonical bytes. The repository never reads those bytes; a reader written from the
  published format alone, with literal tags and widths, is proved to give back exactly what was written, so
  the bytes identify the schema.
- **Columns and blocks** (`Validity`, `Column`, `Block`). The in-place bitmap builder refines a sequence of
  flags, validation is proved exact in both directions with the error it reports, what a column must hold is
  spelled out by kind code, and a finished block is proved to give its readers in-bounds, complete and
  correctly counted values.
- **Byte I/O** (`Cancellation`, `ByteSource`, `ByteSink`, `ByteRoundTrip`). The retry loops are proved against
  run functions over adapters. An adapter is either in memory or follows a script of arbitrary answers, and
  cancellation is seen after an arbitrary number of polls, so quantifying over scripts and schedules covers
  every behaviour.

Sums that a limit bounds are stated over the unbounded integers; the 64-bit guards of the program are proved
to decide them. A precondition is a class invariant or a size that the program's types impose (a vector has
fewer than 2^64 elements, a column passed a column builder), never an input the program handles.

One sentence of the documentation is not what the code does. `docs/resource-governance.md:49-50` says that
destroying the final child handle releases the parent's capacity; reservations and grandchildren also hold the
child's state, so the capacity stays charged until they are gone as well. The model follows the code:
`ResourceRelease.ReservationOutlivesHandle` is a run in which it stays charged, and
`ResourceRelease.DropReturnsFunding` says exactly when dropping a handle starts the release.

## Model

| member | source | states |
|---|---|---|
| `Outcomes.CheckedAdd` | src/checked_arithmetic.cpp:8-20 | succeeds exactly when the mathematical sum fits in 64 bits, with that sum; otherwise reports overflow |
| `Outcomes.CheckedMultiply` | src/checked_arithmetic.cpp:22-35 | succeeds exactly when the mathematical product fits in 64 bits, although the guard divides instead of multiplying |
| `Crc32c.MaskedStepIsBitStep` | src/integrity.cpp:24-25 | the branch-free masked step is the bit-serial step, for every register |
| `Crc32c.BitStepLinear` | src/integrity.cpp:24-25 | one step distributes over exclusive or |
| `Crc32c.BitStepInjective` | src/integrity.cpp:17-25 | one step can be undone, because bit 31 of the polynomial constant is set |
| `Crc32c.TableRemainder` | src/integrity.cpp:22-27 | the inner loop computes eight bit-serial steps from the index |
| `Crc32c.MakeCrc32cTable` | src/integrity.cpp:19-30 | every entry of the table is the register after eight bit-serial steps from its index |
| `Crc32c.TableStep` | src/integrity.cpp:55-57 | one lookup of the low byte and a shift does the work of eight bit-serial steps |
| `Crc32c.LookupStepCorrect` | src/integrity.cpp:55-57 | one turn of the update loop equals eight bit-serial steps on the register mixed with the byte |
| `Crc32c.PortableCrc32cUpdate` | src/integrity.cpp:51-60 | for every starting register and byte string the table loop reaches the bit-serial register |
| `Crc32c.CrcAppend` | src/integrity.cpp:91-99 | fragmented updates reach the register of one contiguous update |
| `Crc32c.FeedLinear` | src/integrity.cpp:51-60 | the register is linear over GF(2) in the starting register and the message together |
| `Crc32c.FeedInjective` | src/integrity.cpp:51-60 | for a fixed message different starting registers never meet |
| `Crc32cPolynomial.PolynomialIsGenerator` | src/integrity.cpp:17-17 | the reflected constant is the Castagnoli generator of section 12.1 of RFC 3720 without its leading term |
| `Crc32cPolynomial.DividendExponents` | src/integrity.cpp:51-60 | what is divided is the message in transmission order times x^32, plus the starting register at its head |
| `Crc32cPolynomial.RegisterIsRemainder` | src/integrity.cpp:51-60 | the register after any byte string is a remainder of that dividend by the generator over GF(2) |
| `Crc32cPolynomial.RemainderUnique` | src/integrity.cpp:51-60 | a dividend has at most one remainder of degree below 32 |
| `Crc32cPolynomial.CrcIsTheRemainder` | src/integrity.cpp:51-60 | a register is the result exactly when its polynomial is the remainder |
| `Crc32cPublished.ChecksumIsPublished` | include/shibori/engine/integrity.hpp:73-83 | a value is the finalized checksum exactly when its complement by 0xffffffff is the remainder, by the generator, of x^32 times the message with exponents n to n+31 flipped; the dividend is written down from the message alone |
| `Crc32cPublished.FlippedMessage` | include/shibori/engine/integrity.hpp:73-83 | for a message of at least 32 bits that dividend is x^32 times the message with its first 32 bits complemented |
| `Crc32cPublished.LongChecksumIsPublished` | include/shibori/engine/integrity.hpp:73-83 | the same theorem in that form for every message of at least four bytes, as section 12.1 of RFC 3720 has it |
| `Crc32cPublished.CheckValue` | tests/crc32c_test.cpp:33-40 | the checksum of the digits 1 to 9 is 0xe3069283 |
| `Crc32cWide.LoadWordBytes` | src/crc32c_x86.cpp:33-35 | feeding a little-endian loaded word bit by bit is feeding its eight bytes in memory order |
| `Crc32cWide.WideStep` | src/crc32c_x86.cpp:33-36 | one 64-bit instruction on a widened register advances it by the eight bytes loaded |
| `Crc32cWide.X86Crc32cUpdate` | src/crc32c_x86.cpp:25-48 | for every register and length the word loop with its byte tail reaches the same register as the byte loop |
| `Crc32cBursts.DifferenceReachesBack` | src/integrity.cpp:51-60 | registers that meet after at most 32 steps can only have differed in the bits those steps consumed |
| `Crc32cBursts.BurstDetected` | src/integrity.cpp:51-60 | messages of one length that differ, but only inside a window of at most 32 bits, reach different registers |
| `Crc32cBursts.ByteBurstDetected` | src/integrity.cpp:51-60 | the same for damage confined to four consecutive bytes |
| `Crc32cHashing.ChecksumRoundTrip` | include/shibori/engine/integrity.hpp:24-44 | a checksum survives being written and read as four little-endian bytes |
| `Crc32cHashing.ChecksumBytesRoundTrip` | include/shibori/engine/integrity.hpp:24-44 | four bytes survive being read and written as a checksum |
| `Crc32cHashing.CrcOfWord` | src/integrity.cpp:51-60 | feeding a word's four bytes is 32 steps of the register mixed with the word |
| `Crc32cHashing.ConstantResidue` | include/shibori/engine/integrity.hpp:73-75 | a message followed by four bytes reaches one constant register exactly when those bytes are its checksum |
| `Crc32cHashing.Crc32cHasher.constructor` | src/integrity.cpp:73-81 | a new hasher has hashed nothing, and uses the hardware loop exactly in automatic mode where it exists |
| `Crc32cHashing.Crc32cHasher.Update` | src/integrity.cpp:91-99 | either implementation extends the hashed string by exactly the new fragment |
| `Crc32cHashing.Crc32cHasher.Finalize` | include/shibori/engine/integrity.hpp:73-83 | the published checksum of everything hashed since the start or the last reset: its complement is the polynomial remainder that IsPublished spells out |
| `Crc32cHashing.Crc32cHasher.Reset` | include/shibori/engine/integrity.hpp:77-79 | nothing hashed any more |
| `Endian.DecodeEncode` | src/format/endian.hpp:13-43 | decoding an encoded value gives it back, at every width it fits in |
| `Endian.EncodeDecode` | src/format/endian.hpp:13-43 | encoding a decoded byte string gives it back |
| `Endian.EncodeInjective` | src/format/endian.hpp:13-43 | different values that fit never share an encoding |
| `Endian.DecodeField` | src/format/endian.cpp:9-21 | fails exactly on a truncated input and otherwise answers the value whose encoding the leading bytes are |
| `Endian.DecodeFieldInverse` | docs/format-primitives.md:7-10 | a field encoded at the front of a larger buffer decodes to its value, whatever follows |
| `Endian.DecodeU16` | src/format/endian.cpp:29-38 | the 16-bit value of the first two bytes, or a truncation error |
| `Endian.DecodeU32` | src/format/endian.cpp:40-52 | the 32-bit value of the first four bytes, or a truncation error |
| `Endian.DecodeU64` | src/format/endian.cpp:54-69 | the 64-bit value of the first eight bytes, or a truncation error |
| `Endian.DecodeU16Exact` | src/format/endian.cpp:29-38 | a two-byte field decodes to a value exactly when it is that value's encoding |
| `Endian.DecodeU64Exact` | src/format/endian.cpp:54-69 | an eight-byte field decodes to a value exactly when it is that value's encoding |
| `RecordEnvelopes.EncodeRecordEnvelope` | src/format/record.cpp:46-68 | the in-place encoder refuses reserved flags and otherwise produces the published 32-byte layout |
| `RecordEnvelopes.EnvelopeLayout` | src/format/record.cpp:55-67 | the 32 bytes by position: SHR1, type, flags, three little-endian integers, the published checksum of bytes 0 to 23 and the payload checksum |
| `RecordEnvelopes.FlagBits` | src/format/record.hpp:14-15 | flag bit 0 marks a mandatory record and every other bit is reserved |
| `RecordEnvelopes.ParseRecordEnvelope` | src/format/record.cpp:70-161 | the parser answers what the specification function answers, error codes included |
| `RecordEnvelopes.AdmittedExactly` | src/format/record.cpp:73-139 | the checks before the checksum admit an envelope exactly when the first 24 bytes are its header and it is within every bound |
| `RecordEnvelopes.ParseExact` | src/format/record.cpp:70-161 | parsing succeeds with an envelope exactly when the first 32 bytes are its encoding, no reserved flag is set, both lengths are within limits and the whole record fits in 64 bits |
| `RecordEnvelopes.SyncedHasHeader` | src/format/record.cpp:80-109 | whatever follows the sync bytes is the header of some envelope |
| `RecordEnvelopes.RefusalReasons` | src/format/record.cpp:73-150 | which error is reported: truncation, then sync, then reserved flags, limits, 64-bit overflow, and the checksum only last; each exactly when its condition holds of the envelope whose header was read |
| `RecordEnvelopes.EnvelopeBurstRejected` | src/format/record.cpp:141-150 | any burst of at most 32 bits inside bytes 0 to 27 of an accepted envelope, also one straddling message and checksum, is rejected under any limits, with a checksum mismatch unless an earlier check fires |
| `RecordEnvelopes.VerifyRecord` | src/format/record.cpp:163-190 | the verifier answers what the specification function answers |
| `RecordEnvelopes.VerifyExact` | src/format/record.cpp:163-190 | a record verifies exactly when the envelope bytes are an acceptable encoding, the lengths agree and the content has the stated checksum |
| `RecordEnvelopes.RecordRefusalReasons` | src/format/record.cpp:168-188 | the envelope's own reason, then content of other lengths than stated, then content whose published checksum is not the one stated |
| `RecordEnvelopes.ContentBurstRejected` | src/format/record.cpp:180-188 | a burst of at most 32 bits in the content of a verified record, even across the extension boundary, is a checksum mismatch |
| `RecordSequences.RecordSequenceTracker.Accept` | src/format/record.cpp:192-219 | acceptance advances the expected number by one; every rejection leaves it alone |
| `RecordSequences.AcceptedExactly` | src/format/record.cpp:192-219 | each answer and each error exactly, by type codes 1 to 6 and flag bit 0: wrong number, unknown mandatory type, last representable number, processed, skipped |
| `RecordSequences.KnownTypes` | src/format/record.cpp:23-34 | the known record types are the codes 1 to 6 |
| `RecordSequences.OfferAll` | src/format/record.cpp:192-219 | offering records to the tracker object follows the run function |
| `RecordSequences.TakenInSequence` | src/format/record.cpp:192-219 | after any run, in any order and with repeats, the accepted records are numbered 0, 1, ..., k-1 and the expected number is k |
| `RecordSequences.TakenInOfferedOrder` | src/format/record.cpp:192-219 | the accepted records are a subsequence of those offered |
| `RecordSequences.NothingMissed` | src/format/record.cpp:192-219 | after any run the next record is taken if it fits and otherwise changes nothing |
| `Preambles.EncodeFilePreamble` | src/format/preamble.cpp:28-53 | the in-place encoder produces the published 16-byte layout |
| `Preambles.PreambleLayout` | src/format/preamble.cpp:31-52 | the 16 bytes by position: SHIBORI and zero, two little-endian versions, the published checksum of bytes 0 to 11 |
| `Preambles.FormatOnePreamble` | docs/format-primitives.md:15-26 | the sixteen bytes of format 1.0, ending in eb bd c3 9e |
| `Preambles.ParseFilePreamble` | src/format/preamble.cpp:55-105 | the parser answers what the specification function answers, error codes included |
| `Preambles.PreambleExact` | src/format/preamble.cpp:55-105 | parsing succeeds exactly on encodings at major version 1, at every minor version |
| `Preambles.RefusalReasons` | src/format/preamble.cpp:57-91 | truncation, then a bad magic, then exactly a wrong checksum are reported before the version is judged |
| `Preambles.UnsupportedExactly` | src/format/preamble.cpp:82-98 | the unsupported-version error is reported exactly for intact preambles of another major version |
| `Preambles.PreambleBurstRejected` | src/format/preamble.cpp:82-91 | a burst of at most 32 bits in an intact preamble of any version is a bad magic or a checksum mismatch, never an accepted or an unsupported preamble |
| `ResourceProtocol.Charge` | src/resource.cpp:226-234 | with usage within capacity, a charge succeeds exactly when it is positive and fits, although the guard subtracts unsigned numbers |
| `ResourceProtocol.Refund` | src/resource.cpp:179-182 | a refund succeeds exactly when the guard before termination does not fire |
| `ResourceSafety.CreateRootKeeps` | src/resource.cpp:193-208 | creating a root keeps conservation, capacity bounds and reference counts of every account |
| `ResourceSafety.CreateChildKeeps` | src/resource.cpp:210-238 | creating or refusing a child keeps them |
| `ResourceSafety.ReserveKeeps` | src/resource.cpp:240-260 | reserving or being refused keeps them |
| `ResourceSafety.CopyHandleKeeps` | include/shibori/engine/resource.hpp:93-98 | copying a budget handle keeps them |
| `ResourceSafety.DropHandleKeeps` | include/shibori/engine/resource.hpp:93-98 | dropping a handle keeps them, also when it is the last reference and a destructor starts |
| `ResourceSafety.MoveConstructKeeps` | src/resource.cpp:150-152 | move construction keeps them |
| `ResourceSafety.MoveIntoKeeps` | src/resource.cpp:154-162 | the transfer after the release in a move assignment keeps them |
| `ResourceSafety.ReturnAmountKeeps` | src/resource.cpp:177-183 | the locked half of a release keeps them |
| `ResourceSafety.DropReservationKeeps` | src/resource.cpp:185-186 | dropping the reference afterwards keeps them, also when a destructor starts |
| `ResourceSafety.RefundParentKeeps` | src/resource.cpp:18-26 | the locked half of a destructor keeps them |
| `ResourceSafety.DropParentKeeps` | src/resource.cpp:18-32 | dropping the parent at the end of a destructor keeps them, also when the cascade goes on |
| `ResourceSafety.ReturnFits` | src/resource.cpp:179-181 | the first termination guard cannot fire in a state that satisfies the invariant |
| `ResourceSafety.RefundFits` | src/resource.cpp:21-23 | nor can the second |
| `ResourceSafety.StepKeeps` | src/resource.cpp:13-260 | every atomic step of every thread keeps the invariant |
| `ResourceSafety.EverySchedule` | src/resource.cpp:13-260 | on every interleaving usage equals unreleased reservations plus funding of live children, stays within capacity, and the process is never terminated |
| `ResourceEffects.ReturnAmountEffect` | src/resource.cpp:177-183 | the locked half of a release lowers the usage of its account by exactly the amount, takes it out of what is charged there, and touches nothing else |
| `ResourceEffects.DropReservationEffect` | src/resource.cpp:185-186 | the other half gives up one reference, and the last one starts the destructor |
| `ResourceEffects.DropHandleEffect` | include/shibori/engine/resource.hpp:93-98 | dropping a handle gives up one reference and nothing else |
| `ResourceEffects.RefundParentEffect` | src/resource.cpp:18-26 | a destructor returns exactly the account's whole capacity to its parent |
| `ResourceEffects.DropParentEffect` | src/resource.cpp:18-34 | and then gives up its reference to the parent |
| `ResourceEffects.CreateRootEffect` | src/resource.cpp:193-208 | a root of positive capacity is added unused; capacity zero changes nothing |
| `ResourceEffects.CreateChildEffect` | src/resource.cpp:210-238 | a child that fits is funded in full out of its parent and starts unused; one that does not fit changes nothing |
| `ResourceEffects.ReserveEffect` | src/resource.cpp:240-260 | a reservation that fits charges exactly its amount; one that does not fit changes nothing |
| `ResourceEffects.CopyHandleEffect` | include/shibori/engine/resource.hpp:93-98 | a copy of a handle adds one reference and nothing else |
| `ResourceEffects.MoveConstructEffect` | src/resource.cpp:150-152 | the charge moves to a new reservation, the source is left empty and no account changes |
| `ResourceEffects.MoveIntoEffect` | src/resource.cpp:157-159 | the charge moves over an empty reservation, the source is left empty and no account changes |
| `ResourceTrees.TreeBounded` | src/resource.cpp:210-260 | all active reservations anywhere in a tree add up to at most the usage of its root, hence its capacity |
| `ResourceTrees.EveryScheduleBounded` | src/resource.cpp:210-260 | the same on every interleaving, also when reservations outlive their budget handles |
| `ResourceTrees.IdleIsUnused` | src/resource.cpp:18-26 | an account with no active reservation and no funded child has usage zero |
| `ResourceTrees.DestructionProgresses` | src/resource.cpp:18-26 | every destructor step lowers the work left and gives nobody a new owner |
| `ResourceTrees.SomeDestructorRuns` | src/resource.cpp:18-26 | without owners some destructor can run until every account is gone |
| `ResourceTrees.CascadeFinishes` | src/resource.cpp:18-26 | once the last handle and reservation are gone the cascade ends with every account destroyed and unused |
| `ResourceReturns.SomeOwnerGivesBack` | src/resource.cpp:172-187 | while anybody holds a handle or a reservation, some owner can take a step that brings the end nearer |
| `ResourceReturns.EverythingReturns` | src/resource.cpp:13-260 | from every state any interleaving can reach, handle drops, releases and destructor steps alone lead to a state in which every account is destroyed and unused |
| `ResourceRelease.DropReturnsFunding` | src/resource.cpp:18-34 | dropping a handle starts the release of the account's funding exactly when no other handle, reservation or undestroyed child refers to the account, and changes no usage by itself |
| `ResourceRelease.ReservationOutlivesHandle` | docs/resource-governance.md:49-50 | a run after which a child has no handle left and its parent is still charged in full, so the documented release on the final handle does not hold |
| `ResourceBudgets.ResourceBudgetState.Destroy` | src/resource.cpp:18-26 | the destructor returns exactly its own funding to the parent |
| `ResourceBudgets.ResourceReservation.Release` | src/resource.cpp:172-187 | gives the whole amount back once; a second release changes nothing |
| `ResourceBudgets.ResourceReservation.MoveFrom` | src/resource.cpp:150-152 | takes over the charge and leaves the source empty |
| `ResourceBudgets.ResourceReservation.MoveAssign` | src/resource.cpp:154-162 | releases what was held, then takes over the other charge; assigning to itself changes nothing |
| `ResourceBudgets.ResourceBudget.CreateRoot` | src/resource.cpp:193-208 | a root is refused exactly at capacity zero and starts unused |
| `ResourceBudgets.ResourceBudget.CreateChild` | src/resource.cpp:210-238 | a child is funded in full out of what the parent has left, or the parent is untouched |
| `ResourceBudgets.ResourceBudget.Reserve` | src/resource.cpp:240-260 | a reservation charges exactly its amount, or the account is untouched |
| `ResourceBudgets.ResourceBudget.Available` | src/resource.cpp:275-278 | available and used add up to the capacity |
| `Limits.ValidateResourceLimits` | src/resource.cpp:101-139 | accepts exactly limits that are all positive and nest |
| `Limits.LimitRules` | src/resource.cpp:102-137 | all nine limits are positive and the byte limits nest, spelled out |
| `Utf8.DecodeEncoded` | src/block.cpp:30-68 | the encoding of a scalar value, followed by anything, decodes to it and its length |
| `Utf8.EncodeDecoded` | src/block.cpp:30-68 | whatever decodes is a scalar value and the bytes consumed are its encoding |
| `Utf8.PeelCharacter` | src/block.cpp:29-70 | a string is UTF-8 exactly when its first character decodes and the rest is UTF-8 |
| `Utf8.ScanCharacter` | src/block.cpp:30-67 | the byte-by-byte loop decodes one character and never reads past the end |
| `Utf8.ValidUtf8` | src/schema.cpp:18-61 | accepts a byte string exactly when it is the UTF-8 encoding, by sections 3 and 4 of RFC 3629, of some string of scalar values; one model serves both copies of the loop, in the schema and in the block source |
| `Utf8.EncodeInjective` | src/block.cpp:27-71 | that string of scalar values is unique |
| `Utf8Syntax.CharacterSyntax` | src/block.cpp:30-67 | the scan reads a character exactly where the octet grammar of section 4 of RFC 3629 has one, of the same length |
| `Utf8Syntax.GrammarExactly` | src/block.cpp:27-71 | what is accepted is exactly what that grammar generates |
| `LogicalTypes.FixedStorageHasWidth` | src/logical_type.cpp:181-206 | the types stored byte for byte are exactly those with a nonzero width |
| `LogicalTypes.CreatedExactly` | src/logical_type.cpp:22-138 | which kind codes and parameter codes go together, in numbers; everything else is refused |
| `LogicalTypes.WidthHoldsValues` | src/logical_type.cpp:181-206 | the width of each kind has exactly as many byte strings as the kind has bit patterns: 2^8, 2^16, 2^32, 2^64 or 2^128, and the declared width for fixed binary |
| `LogicalTypes.FixedSizeExactly` | src/logical_type.cpp:181-206 | n values take n, 2n, 4n, 8n, 16n or n times the declared bytes, by literal kind code |
| `LogicalTypes.FixedStorageKinds` | src/column.cpp:23-26 | every kind but bool, string and binary is stored byte for byte |
| `SchemaMetadata.TraversalUnique` | src/schema.cpp:156-159 | the sorted traversal is determined by the map, whatever the insertion order |
| `SchemaMetadata.LessIsLexicographic` | src/schema.cpp:16-16 | keys are ordered as unsigned byte strings, lexicographically: a proper prefix first, otherwise by the first byte that differs |
| `SchemaMetadata.KeyRules` | src/schema.cpp:63-79 | which keys are valid, in text: only shibori.engine/ may use the reserved shibori. prefix |
| `SchemaMetadata.InsertKeepsOrder` | src/schema.cpp:217-220 | inserting a new key keeps the traversal sorted and adds exactly that entry to the map |
| `SchemaMetadata.QualifiedBySlash` | src/schema.cpp:63-71 | the tests on the first slash accept exactly a nonempty namespace without slash, a slash and a nonempty name |
| `SchemaMetadata.ValidateKey` | src/schema.cpp:63-79 | accepts exactly qualified strict UTF-8 names outside the reserved namespace or in the engine's own |
| `SchemaMetadata.AddMetadataValue` | src/schema.cpp:204-228 | adds exactly one entry, or refuses a bad or repeated key and leaves the map as it was |
| `SchemaDecoder.ParametersRead` | src/schema.cpp:165-181 | a reader that switches on the literal tags 0 to 5 and their widths gets the parameters back, whatever follows |
| `SchemaDecoder.TypeRead` | src/schema.cpp:162-182 | the reader gets kind and parameters back, whatever follows |
| `SchemaDecoder.MetadataRead` | src/schema.cpp:154-160 | the reader gets every entry back in order, whatever follows |
| `SchemaDecoder.FieldRead` | src/schema.cpp:530-536 | the reader gets identifier, name, type, nullability and metadata back, whatever follows |
| `SchemaDecoder.CanonicalRead` | src/schema.cpp:521-537 | reading canonical bytes by the published format alone gives back exactly the fields and the metadata, for every schema whose sizes fit their prefixes |
| `SchemaDecoder.CanonicalInjective` | src/schema.cpp:521-537 | equal canonical bytes come from equal ordered fields and equal schema metadata |
| `Fingerprints.Recurrences` | src/schema.cpp:186-193 | both hashes by recurrence, with the start values in numbers |
| `Fingerprints.HashOperations` | src/schema.cpp:190-192 | the exclusive or and the two factors of the recurrences, in numbers |
| `Fingerprints.FirstMultiplyInjective` | src/schema.cpp:190-190 | multiplication by the first odd factor loses nothing modulo 2^64 |
| `Fingerprints.SecondMultiplyInjective` | src/schema.cpp:191-192 | nor does multiplication by the second |
| `Fingerprints.OneByteChangesHashes` | src/schema.cpp:186-193 | changing one byte changes both 64-bit hashes |
| `Fingerprints.OneByteChangesFingerprint` | src/schema.cpp:184-202 | byte strings of one length that differ in exactly one position have fingerprints that differ in both halves |
| `Fingerprints.HashBoth` | src/schema.cpp:186-193 | the loop computes both folds at once |
| `Fingerprints.MakeFingerprint` | src/schema.cpp:184-202 | the in-place writer produces both hashes, lowest byte first |
| `SchemaBuilders.MetadataSize` | src/schema.cpp:81-103 | the exact sum of all key and value sizes, or overflow exactly when it does not fit |
| `SchemaBuilders.ValidateMetadata` | src/schema.cpp:105-129 | accepts exactly when the aggregate stays within the limit; the error is overflow exactly when the aggregate does not fit in 64 bits |
| `SchemaBuilders.AppendInteger` | src/schema.cpp:131-139 | appends the value's little-endian bytes |
| `SchemaBuilders.AppendBytes` | src/schema.cpp:141-152 | appends an 8-byte length and the bytes |
| `SchemaBuilders.AppendMetadata` | src/schema.cpp:154-160 | appends an 8-byte count and every entry in key order |
| `SchemaBuilders.AppendType` | src/schema.cpp:162-182 | appends kind, alternative and the parameters of that alternative |
| `SchemaBuilders.AppendField` | src/schema.cpp:529-536 | appends identifier, name, type, nullability and metadata of one field |
| `SchemaBuilders.Serialize` | src/schema.cpp:521-537 | the loop over the growing vector writes the canonical bytes, and whoever knows the format reads fields and metadata back from them |
| `SchemaBuilders.PublishedSchemaReads` | src/schema.cpp:521-541 | the canonical bytes of every published schema read back, by the format alone, as its own content |
| `SchemaBuilders.LimitCountsEverything` | docs/schemas.md:10-11 | the metadata limit counts every field name, and every key and value of every field and of the schema |
| `SchemaBuilders.FieldBuilder.AddMetadata` | src/schema.cpp:310-320 | adds one entry before the end, and nothing after it |
| `SchemaBuilders.FieldBuilder.Finish` | src/schema.cpp:322-354 | publishes once, exactly with a nonzero identifier, a nonempty strict name and bytes within the limit; otherwise says which check failed first |
| `SchemaBuilders.SchemaBuilder.AddField` | src/schema.cpp:421-437 | appends a field unless finished |
| `SchemaBuilders.SchemaBuilder.AddMetadata` | src/schema.cpp:439-449 | adds one entry before the end, and nothing after it |
| `SchemaBuilders.SchemaBuilder.Repeats` | src/schema.cpp:479-485 | finds out whether an earlier field has the identifier or the name |
| `SchemaBuilders.SchemaBuilder.CheckFields` | src/schema.cpp:477-519 | accepts exactly distinct fields whose exact total is within the limit; otherwise names the first field refused and why |
| `SchemaBuilders.SchemaBuilder.Finish` | src/schema.cpp:451-548 | publishes once, exactly when limits are consistent, counts and bytes are within them and fields are distinct; otherwise says which check failed first |
| `SchemaBuilders.CanonicalIdentity` | src/schema.cpp:521-541 | two finished schemas have equal canonical bytes exactly when they agree on ordered fields and on every metadata map; equal content gives equal fingerprints |
| `SchemaBuilders.FieldsUnique` | src/schema.cpp:479-490 | in a published schema an identifier or a name belongs to one field |
| `Validities.PopcountIsRows` | src/column.cpp:199-202 | summing set bits byte by byte counts marked rows |
| `Validities.LastByteIsPadding` | src/column.cpp:188-198 | the masked test of the last byte tests exactly the rows past the end |
| `Validities.FromBitmap` | src/column.cpp:171-214 | accepts exactly a bitmap of the right size with clear padding; the null count is then the number of unmarked rows and never underflows |
| `Validities.AppendFlag` | src/column.cpp:275-280 | setting one bit in place appends one flag and disturbs no other row |
| `Validities.ValidityBuilder.constructor` | src/column.cpp:239-247 | a new builder holds no rows, with storage exactly when the size fits |
| `Validities.ValidityBuilder.Append` | src/column.cpp:262-282 | appends one flag while there is room |
| `Validities.ValidityBuilder.Finish` | src/column.cpp:284-297 | succeeds once, exactly when every row was appended; each row is then valid exactly as appended, and the null count is the number of false flags |
| `Columns.FixedWidthColumnBuilder.SetValidity` | src/column.cpp:372-381 | each part is set once |
| `Columns.FixedWidthColumnBuilder.SetValues` | src/column.cpp:382-391 | each part is set once |
| `Columns.FixedWidthColumnBuilder.Finish` | src/column.cpp:392-420 | a column is built exactly from complete parts with one row count |
| `Columns.BooleanColumnBuilder.SetValidity` | src/column.cpp:438-447 | each part is set once |
| `Columns.BooleanColumnBuilder.SetValues` | src/column.cpp:448-457 | each part is set once |
| `Columns.BooleanColumnBuilder.Finish` | src/column.cpp:458-489 | a column is built exactly from complete parts with one row count; its type is always boolean |
| `Columns.VariableWidthColumnBuilder.SetValidity` | src/column.cpp:512-521 | each part is set once |
| `Columns.VariableWidthColumnBuilder.SetOffsets` | src/column.cpp:522-531 | each part is set once |
| `Columns.VariableWidthColumnBuilder.SetPayload` | src/column.cpp:532-541 | each part is set once |
| `Columns.VariableWidthColumnBuilder.Finish` | src/column.cpp:542-570 | a column is built exactly from complete parts with one row count |
| `Columns.DenseCount` | src/block.cpp:260-273 | rows minus nulls never underflows and is the number of rows that hold a value |
| `Blocks.AddDecodedBytes` | src/block.cpp:73-93 | the running total accepts exactly sums within the limit, also at 64-bit extremes |
| `Blocks.ValidateFixed` | src/block.cpp:95-120 | accepts exactly one fixed-width value per valid row, of the literal width of its kind, within the limit; otherwise the reason is exact |
| `Blocks.ValidateBoolean` | src/block.cpp:122-153 | accepts exactly one bit per valid row with clear padding within the limit; otherwise the reason is exact |
| `Blocks.CheckOffsets` | src/block.cpp:173-189 | accepts exactly offsets that start at zero, never decrease and never span more than one record |
| `Blocks.CheckStrings` | src/block.cpp:219-235 | accepts exactly when every value between two offsets is UTF-8 |
| `Blocks.ValidateVariable` | src/block.cpp:155-237 | accepts exactly one ordered offset more than valid rows, ending at the payload size, strict text where promised, and both sums within the limit; otherwise the reason is exact |
| `Blocks.ValidateColumn` | src/block.cpp:239-291 | accepts exactly a column that fits its field and whose bytes keep the total within the limit; otherwise the reason is exact |
| `Blocks.TextsFitExactly` | src/block.cpp:155-237 | what variable-width columns must satisfy, spelled out over offsets, payload and strict text |
| `Blocks.FitsExactly` | src/block.cpp:245-290 | what any column must satisfy, spelled out by kind codes: rows, type, nullability, and exactly its valid rows' values |
| `Blocks.FinishedColumn` | src/block.cpp:434-450 | every column of a finished block satisfies it: 2n bytes for n valid int16 rows, and so on for every kind |
| `Blocks.DecodedBytesCounted` | src/block.cpp:263-271 | the decoded-bytes limit counts every byte of every bitmap, value buffer, offset table and payload |
| `Blocks.FinishedWithinLimits` | src/block.cpp:411-428 | a finished block has between one row and the limit, a column for each field, and no more decoded bytes than the limit |
| `Blocks.EveryFieldHasColumn` | src/block.cpp:423-439 | with unique identifiers, as many columns as fields means one column for every field, so the missing-column branch is dead |
| `Blocks.ValidateInOrder` | src/block.cpp:430-450 | accepts exactly when every column fits and the exact sum of all bytes is within the limit; otherwise names the first column refused and why |
| `Blocks.BlockBuilder.SetColumn` | src/block.cpp:379-398 | each field of the schema takes one column, once |
| `Blocks.BlockBuilder.Finish` | src/block.cpp:400-462 | publishes once, exactly when limits, row count, column count and every column are in order; otherwise says which check failed first |
| `Blocks.FindColumn` | src/block.cpp:339-346 | the scan answers the column of the first field with the identifier |
| `Blocks.FindsColumnSet` | src/block.cpp:339-346 | looking a field up in a finished block answers the column that was set for it |
| `Blocks.StoredCount` | src/block.cpp:273-289 | in a finished block every column stores exactly as many values as it has valid rows, or one per row without a bitmap |
| `Blocks.ValuesReadable` | src/block.cpp:347-365 | in a finished block every in-range variable-width value is read inside the payload, is within the record limit and is UTF-8 where that is promised |
| `Blocks.ValuesCoverPayload` | src/block.cpp:173-195 | in a finished block the values of a variable-width column joined in order are exactly its payload |
| `Blocks.SelectionExact` | src/block.cpp:347-358 | a selection succeeds exactly when it names a variable-width column and one of its stored values, and is otherwise an invalid configuration |
| `Cancellation.CancellationToken.IsCancelled` | src/io.cpp:47-49 | once raised, the flag stays raised |
| `ByteSources.ByteSource.Read` | src/io.cpp:297-320 | one call delivers the next chunk into the destination and touches nothing before it |
| `ByteSources.ByteSource.Seek` | src/io.cpp:330-344 | moves to any position up to the end, or leaves the source alone |
| `ByteSources.ReadRound` | src/io.cpp:137-165 | one turn of the loop ends the run or carries it further by the bytes received |
| `ByteSources.ReadExact` | src/io.cpp:131-168 | the loop ends, delivers and leaves the source as the run function says, for any adapter and any cancellation |
| `ByteSources.ReadExactAt` | src/io.cpp:201-218 | capability check, one poll, seek, then the loop |
| `ByteSources.CancelledReadDoesNothing` | src/io.cpp:136-139 | for every source, memory or scripted, a cancelled read of at least one byte reports the cancellation, delivers nothing and leaves the source untouched |
| `ByteSources.CancelledReadAtDoesNothing` | src/io.cpp:211-216 | a cancelled positioned read moves nothing |
| `ByteSources.SeekExactly` | src/io.cpp:330-344 | seeking past the end is refused and moves nothing; anything else moves exactly there |
| `ByteSources.MemoryReadAt` | src/io.cpp:201-218 | a positioned read succeeds exactly when all its bytes lie before the end; past the end it is refused, never clamped |
| `ByteSources.ScriptedReadAt` | src/io.cpp:206-210 | a source without seek capability is not asked for anything |
| `ByteSources.MemoryChunk` | src/io.cpp:304-319 | one call delivers the least of what is asked, the chunk size and what remains, and reports the end exactly when nothing remains after it |
| `ByteSources.MemoryReadIsContiguous` | src/io.cpp:131-168 | cancelled anywhere or not at all, a read from memory delivers the next bytes once each and advances by as many |
| `ByteSources.MemoryReadExact` | src/io.cpp:131-168 | a read from memory succeeds exactly when enough bytes remain, whatever the chunk size; otherwise it delivers what there is and reports the end |
| `ByteSources.ServedReadSucceeds` | src/io.cpp:136-166 | answers that serve the request are read to the last byte and nothing after them is consumed |
| `ByteSources.ScriptedReadExact` | src/io.cpp:131-168 | against any adapter a read succeeds exactly when its first answers serve the request, and then delivers precisely their bytes |
| `ByteSources.UnfinishedRead` | src/io.cpp:136-166 | as long as the answers advance, the loop has exactly their bytes and asks for the rest |
| `ByteSources.StoppingAnswer` | src/io.cpp:140-165 | how each kind of answer ends a read: an adapter error, too many bytes, none with or without the end, a short last answer, the completing one |
| `ByteSources.CancelledReadExact` | src/io.cpp:131-168 | against any script a read consumes at most as many answers as polls pass; one that needs more ends as cancelled with exactly their bytes, one that does not ends as if nobody had cancelled |
| `ByteSinks.ByteSink.Write` | src/io.cpp:381-424 | growing and copying in place lays one chunk over the old bytes, or refuses and changes nothing |
| `ByteSinks.ByteSink.Seek` | src/io.cpp:431-445 | moves to any position within the written bytes, or leaves the sink alone |
| `ByteSinks.WriteRound` | src/io.cpp:175-196 | one turn of the loop ends the run or carries it further by the bytes accepted |
| `ByteSinks.WriteAll` | src/io.cpp:170-199 | the loop ends and leaves the sink as the run function says, for any adapter and any cancellation |
| `ByteSinks.WriteAllAt` | src/io.cpp:220-237 | capability check, one poll, seek, then the loop |
| `ByteSinks.CancelledWriteDoesNothing` | src/io.cpp:175-178 | for every sink a cancelled write of at least one byte reports the cancellation and offers nothing |
| `ByteSinks.CancelledWriteAtDoesNothing` | src/io.cpp:230-235 | a cancelled positioned write moves nothing |
| `ByteSinks.SeekExactly` | src/io.cpp:431-445 | seeking past the written bytes is refused and moves nothing; anything else moves exactly there |
| `ByteSinks.ScriptedWriteAt` | src/io.cpp:225-229 | a sink without seek capability is not offered anything |
| `ByteSinks.MemoryChunk` | src/io.cpp:394-417 | one call takes the least of what is offered, the chunk size and the room, and a full sink refuses |
| `ByteSinks.OverlayTwice` | src/io.cpp:406-416 | chunk after chunk lays down the same bytes as all at once |
| `ByteSinks.MemoryWriteIsPrefix` | src/io.cpp:170-199 | cancelled anywhere or not at all, a write leaves a prefix of the data over the old bytes, keeps position, size and maximum size in order, and never meets the violated-invariant branch |
| `ByteSinks.MemoryWriteAll` | src/io.cpp:170-199 | a write to memory lays the longest fitting prefix over the old bytes and succeeds exactly when that is everything |
| `ByteSinks.ChunkSizeIsInvisible` | src/io.cpp:401-404 | the chunk size shows neither in the outcome nor in the bytes |
| `ByteSinks.ScriptedWriteAll` | src/io.cpp:170-199 | against any adapter a write succeeds exactly when its first answers take everything, and then the adapter has received the data once and in order |
| `ByteSinks.UnfinishedWrite` | src/io.cpp:175-196 | as long as the answers advance, the adapter has exactly their bytes and is offered the rest |
| `ByteSinks.StoppingAnswer` | src/io.cpp:179-195 | how each kind of answer ends a write: an adapter error, too large a count, a count of zero, the completing one |
| `ByteSinks.CancelledWriteAll` | src/io.cpp:170-199 | against any script a write makes at most as many calls as polls pass; one that needs more ends as cancelled with exactly the bytes taken, one that does not ends as if nobody had cancelled |
| `ByteSinks.ScriptedWriteIsPrefix` | src/io.cpp:170-199 | however a write ends, the adapter has received a prefix of the data and success means all of it |
| `ByteRoundTrip.MemoryWriteAt` | src/io.cpp:220-237 | a positioned write succeeds exactly when it starts within the written bytes and ends within the limit; beyond the bytes it is refused and changes nothing, beyond the limit it fills the sink |
| `ByteRoundTrip.WriteThenRead` | src/io.cpp:201-237 | whatever the two chunk sizes, reading back where a positioned write succeeded gives the written data |

## Left out

- Files, `errno` and platform seeks (`src/file_io.cpp`): foreign calls; the memory adapters carry the same contract.
- BLAKE3 hashing and the hexadecimal form of its digests: a wrapper around a library whose source is not part of this model.
- CPU feature detection: whether the hardware loop is available is a parameter of the hasher.
- Crc32cWide.X86Crc32cUpdate: the CRC32 instruction is specified as bit-serial steps over its operand, not derived from a processor description.
- Crc32cHashing.Crc32cHasher.constructor: builds the table for every hasher, where the program computes it once at compile time.
- Endian.DecodeField: shifts and masks of unsigned integers are written as quotients and remainders of 256, and the three widths share one definition.
- Error messages, operation tags, component and field identifiers inside errors, descriptions and version strings: only error codes are kept.
- Allocation failure and moved-from builders, schemas, columns and blocks; moved-from reservations are modelled.
- Real threads and memory ordering: locked regions and reference-count changes are atomic steps, the cancellation flag is read in program order.
- ResourceSafety.EverySchedule: the resource kind of an account is not part of the protocol state, because no step reads it.
- ResourceBudgets.ResourceBudgetState.Destroy: the class does not count references, so when it runs is decided by the protocol model, not by the class.
- ByteSources.ReadExactAt: scripted adapters have no seek capability, as the base class has none; only memory adapters seek. Position and size queries, flushing and the capability queries for them add only easy members. The same holds for ByteSinks.
- Sharing of immutable buffers (`ByteBuffer`, `OffsetBuffer`): a buffer is its contents. Vectors and maps that a class owns are sequence- and map-valued fields.
- Blocks.ValidateFixed: the branches for absent value, offset and payload buffers are dead for columns that left a column builder, and are not written out.
- SchemaMetadata.AddMetadataValue: an ordered map is the sorted sequence of its entries; how the tree that stores it is balanced is not modelled.
- Fingerprints.OneByteChangesFingerprint: says nothing of strings that differ in several places; the fingerprint resists neither chance collisions of those nor deliberate ones, and is not meant to.
- `checked_range` and the default limits: used by no modelled operation.
- Encodings, adaptive policy, codecs, directories, index and footer, which the documentation describes and no source implements.
