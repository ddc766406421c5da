# Senbei: models and proofs of its byte-exact core

Senbei is a static unpacker. This project models the algorithms in it that have
to be right to the byte, and proves what they are for. Code that works in place
is a method over an array (or a class with its fields), proved equal to a
specification function; what that function means is then proved in lemmas.

- **Huffman/LZ decompression.** One format, three decoders. `Format` is the format
  apart from any decoder: which symbol sequences are legal, and an equation for
  every byte of their output. `HuffmanTable` is the code table in the image and
  as a snapshot, `CodePath` what a code is; `WindowsDecompress` the in-place
  decompressor, the snapshot decompressor and their refinement, `WindowsFormat`
  exactly when they succeed; `AndroidDecoder` the lookup-and-refill decoder
  against a reader of single bits, `AndroidFormat` exactly when that one
  succeeds; `DecoderAgreement` the proof that the Windows decoder follows the
  Android one.
- **Deterministic fan-out.** `ParallelFor` sorts and carves the spans and runs
  workers as interleaved atomic steps. Every complete interleaving is proved to
  agree with the sequential loop.
- **ELF.** `ElfLayout` appends a load segment by any of its three strategies and
  reads the result back; `SymbolHash` builds the System V and GNU hash tables,
  and lookups on the bytes are proved to be searches.
- **Metadata.** `MetadataTokens` is the token restoration of the metadata tables,
  `MetadataFormat` what it does in terms of images, types and methods.
- **Container codec.** `Gf32`, `AndroidContainer`, `AndroidParser` and
  `AndroidSegment` are the field multiplication, the header and the segment
  transform, with their inverses; `Cbc` is cipher block chaining over any block
  function.
- **AES.** `Gf8` and `Aes` state FIPS 197, with its examples in `AesVectors`;
  `AesTables` builds the tables; `AesBlocks` and `AesChain` decrypt with them;
  `AesKey` recovers a key from a decryption schedule.
- **Small ciphers and codes.** `FeedbackCiphers`, `StreamCipher`, `StringCipher`,
  `Crc32`, `Bytecode`.
- **Sweeps and dates.** `FileRegions` and `CivilDate`.

`Bytes`, `Words` and `Wrappers` are shared arithmetic and result types.

## Choices that hold throughout

- Buffers are at most `MAX_IMAGE_SIZE` (2^30) bytes where the Windows primitives
  are concerned, so their wrapping 32-bit addresses never wrap; the one address
  that depends on untrusted table contents keeps its wrap (`HuffmanTable.Addr`).
  Values whose width matters are `bv8`/`bv32`, or integers with the overflow
  written out.
- A panic of the original is an outcome in the decompressors: `Fault` for a
  region that leaves the buffer, with the bytes written before it, `LeftTable`
  for an in-place walk that leaves the image, and the error `Overflow` for an
  overflow-checked shift or width in the Android decoder. In the ciphers it is
  a precondition: a region that is touched lies in the buffer.
- Sorting by a library routine is a function or a loop with the result proved
  sorted and a permutation; where the order of equal elements could matter, the
  sorted list is proved unique.
- Error texts are reduced to their kinds.

## Results that differ from what the code's own words suggest

- `senbei-metadata/src/structural.rs:100-103` calls the restoration idempotent. It is
  when no token field lies over a header, type or image field that the run
  reads, or when the tokens leave such fields as they were
  (`MetadataTokens.SecondRunIsIdentity`); `MetadataTokens.SecondRunMayFail` gives
  a file for which the second run is refused, and `SecondRunMaySucceed` one with
  an overlap that does no harm. With the header intact, the exact condition is
  that the types then own the methods so that each gets the same token
  (`SecondRunExactly`).
- The Android decoder refills to between 24 and 31 bits, depending on the bit it
  stands at, and refuses a longer code that the stream has (`RunFits`). That is
  the only difference from the bit-at-a-time reference (`DecodeLimited`), and
  `LongCodeRefused` and `LongCodeAccepted` show both sides with one 25-bit code.
- `decrypt_data6` is its own inverse exactly when the length byte is at most 95,
  that is, when the block does not contain its own length byte
  (`StreamCipher.InvolutionCondition`). The keystream byte that would hit it is
  0x38, and no two neighbouring keystream bytes are zero, so the other half is
  proved for every longer block.
- `file_regions` says it takes the smaller of two header ends; it uses only the
  end of the section table. A section that starts inside the headers lets a gap
  begin there, and `FileRegions.RegionsAreTheUncovered` states the exact set of
  bytes covered.
- `utc_parts` is exact for every 64-bit count, read as signed, whose year fits 32
  bits, and for no other (`CivilDate.UtcPartsIsExact`).

## Model

| member | source | states |
|---|---|---|
| HuffmanTable.TableSnapshot | senbei-crypto/src/windows/primitives.rs:652-678 | a copy is returned exactly when every entry reachable from the 256 roots lies in the buffer, and it is the least prefix of the table that holds them all |
| HuffmanTable.ReadCodeInPlace | senbei-crypto/src/windows/primitives.rs:459-493 | the walk in the image reads the code of the look-ahead, with its length, depth and range failures |
| HuffmanTable.ReadCodeFromSnapshot | senbei-crypto/src/windows/primitives.rs:686-760 | the walk in the snapshot reads the code of the look-ahead, or nothing for any failure |
| CodePath.ReadCodeIs | senbei-crypto/src/windows/primitives.rs:459-493 | a code is found exactly when a path leads by the bits of the look-ahead from its root to a leaf, at most 64 entries below the first child |
| HuffmanTable.CodesAgree | senbei-crypto/src/windows/primitives.rs:645-678 | in a closed table the two walks give the same code for every look-ahead, and neither leaves the table |
| WindowsDecompress.DecompressDetailed | senbei-crypto/src/windows/primitives.rs:419-633 | for any stale scratch contents and any regions, in the buffer or not, the buffer and the outcome are those of the specified run, a panic included; the loop ends because source bits left plus output bytes left shrink; the look-ahead never reads past the three zero bytes |
| WindowsDecompress.DecompressTbl | senbei-crypto/src/windows/primitives.rs:686-869 | the same for a table in a snapshot: true exactly when the run is complete, and the same panics on output that leaves the buffer |
| WindowsDecompress.EmitInto | senbei-crypto/src/windows/primitives.rs:500-612 | literal, length prefix, run fill by units of 1, 2 or 4 bytes, and bytewise back-reference, with every rejection in the order of the checks and what is written before a panic |
| WindowsFormat.DoneIs | senbei-crypto/src/windows/primitives.rs:419-633 | a run succeeds if and only if the source reads as a legal sequence of symbols, where a fill may reach the bytes before the output and a copy only output; the output then satisfies, byte for byte, the equations of the format, and all other bytes stay |
| WindowsFormat.CallsAre | senbei-crypto/src/windows/primitives.rs:419-869 | the same for whole calls of both decompressors, with a snapshot always and in place when the output stays clear of the table; an output or source outside the buffer never succeeds |
| WindowsDecompress.RunFrame | senbei-crypto/src/windows/primitives.rs:438-632 | only the output region changes, the run succeeds exactly when all of it is written, only a region that leaves the buffer can panic, and otherwise exactly the reported prefix changed |
| WindowsDecompress.RunOnSnapshot | senbei-crypto/src/windows/primitives.rs:635-869 | while the output stays clear of the table, the in-place run and the run on the snapshot agree in bytes, counts and failure, from any point of the stream |
| WindowsDecompress.SnapshotRefines | senbei-crypto/src/windows/primitives.rs:635-869 | for whole calls, with any snapshot the copy routine returns: both decompressors leave the same buffer and outcome for every source stream, and neither reads outside the image |
| AndroidDecoder.HuffmanLzDecoder.New | senbei-crypto/src/android/protector.rs:385-402 | a lookup entry is in use exactly when its 16 bits start with a code of 1 to 16 bits, and is that code; acceptance implies 768 bytes or more in whole entries; refusal only for a misshapen tree or a 16-bit word without a code of 1 to 31 bits |
| AndroidDecoder.HuffmanLzDecoder.DecodeSymbol | senbei-crypto/src/android/protector.rs:413-440 | the table-filling walk finds the tree's code when it is of at most 32 bits, refuses no code of at most 31, and a longer answer means that there is none |
| AndroidDecoder.HuffmanLzDecoder.Symbol | senbei-crypto/src/android/protector.rs:483-524 | lookup hit or slow walk, the result is the code at the low end of the buffer |
| CodePath.RefCodeIs | senbei-crypto/src/android/protector.rs:413-440 | the same for the bit-at-a-time reference, for codes of at most 255 bits |
| AndroidDecoder.HuffmanLzDecoder.Refill | senbei-crypto/src/android/protector.rs:475-482 | the buffer keeps holding exactly the `available` stream bits after the consumed ones, and holds 24 unless the source is used up |
| AndroidDecoder.LookupIsReference | senbei-crypto/src/android/protector.rs:475-530 | after a refill the code seen through the buffer is the code of the plain bit stream, and one is usable within the buffered bits exactly when the other is |
| AndroidDecoder.HuffmanLzDecoder.DecodeLimited | senbei-crypto/src/android/protector.rs:448-581 | it succeeds if and only if the size is within the limit, the bit-at-a-time reference decodes the source and uses it up, and no code read on the way is longer than the refilled buffer has room for at its bit; the bytes are then those of the reference |
| AndroidFormat.ReferenceIs | senbei-crypto/src/android/protector.rs:469-581 | the reference accepts a stream if and only if it is a legal sequence of symbols that ends in its last byte, fills and copies reaching output only, and gives the bytes that satisfy the equations of the format |
| AndroidDecoder.ShortCodesFit | senbei-crypto/src/android/protector.rs:475-524 | with codes of at most 24 bits the last condition holds for every stream that the reference decodes, so both accept the same |
| AndroidDecoder.LongStartDoesNotFit | senbei-crypto/src/android/protector.rs:475-524 | a stream that starts with a code of more than 24 bits is never accepted |
| AndroidDecoder.LongCodeRefused | senbei-crypto/src/android/protector.rs:475-524 | a tree with a 25-bit code and a stream that the reference decodes and the decoder refuses |
| AndroidDecoder.LongCodeAccepted | senbei-crypto/src/android/protector.rs:475-524 | the same tree and code one bit later: reference and decoder agree |
| AndroidDecoder.LongTreeIsGood | senbei-crypto/src/android/protector.rs:385-402 | every 16-bit word has a code of at most 31 bits in that tree, so the table filling accepts it |
| DecoderAgreement.SameCode | senbei-crypto/src/windows/primitives.rs:459-493 | a code that ends within the 32 look-ahead bits, counted from the byte it starts in, is read as the bit-level reference reads it, at every position |
| DecoderAgreement.WindowsFollowsReference | senbei-crypto/src/windows/primitives.rs:458-631 | the same for every stream that the bit-level reference decodes through codes inside the look-ahead |
| DecoderAgreement.ShortIsVisible | senbei-crypto/src/windows/primitives.rs:459-493 | codes of at most 25 bits always lie inside the look-ahead |
| DecoderAgreement.WindowsFollowsAndroid | senbei-crypto/src/windows/primitives.rs:458-631 | for codes of any length: whatever the Android decoder accepts, the in-place Windows decompressor accepts on the same source and tree, and writes exactly those bytes; a back-reference never overlaps its destination |
| ParallelFor.SpansDisjoint | senbei-engine/src/windows/parallel.rs:179-192 | comparing neighbours after sorting decides whether all spans are pairwise separate, empty ones included |
| ParallelFor.Carve | senbei-engine/src/windows/parallel.rs:65-89 | splitting in sorted order gives each block exactly its span, and no split underflows |
| ParallelFor.StepKeepsInv | senbei-engine/src/windows/parallel.rs:108-168 | every atomic step of any worker keeps the invariant: each block is with the iterator, with one worker, or has run once; its span is untouched before and final after; the slots hold real outcomes |
| ParallelFor.OverResult | senbei-engine/src/windows/parallel.rs:124-177 | when all workers have left: no block ran twice; success exactly when every block succeeds, each having run once; otherwise the failure of a block that ran, a panic winning over an error |
| ParallelFor.ParallelIsSequential | senbei-engine/src/windows/parallel.rs:36-177 | every complete interleaving, with a stop flag that may be seen late, gives the buffer and result of the sequential loop |
| ParallelFor.StepUsesWork | senbei-engine/src/windows/parallel.rs:124-166 | every step but a write inside a running block uses up work, so every fair run ends |
| ParallelFor.NeverBlocks | senbei-engine/src/windows/parallel.rs:124-166 | a worker that has not left can always take a step |
| ParallelFor.FirstFailureStays | senbei-engine/src/windows/parallel.rs:124-166 | over any run the slots keep the first error and the first panic, a raised flag stays raised, and a worker that failed takes no further block |
| ParallelFor.StopIsObeyed | senbei-engine/src/windows/parallel.rs:108-168 | once the flag is raised and seen, at most one more block is handed out for each worker that was past its check |
| ParallelFor.RunWorkers | senbei-engine/src/windows/parallel.rs:108-176 | the loop over workers, with any schedule and any intermediate writes of running blocks, terminates; success exactly when every block succeeds, and then with the sequential buffer; otherwise the status of a block that fails |
| ParallelFor.ParallelFor | senbei-engine/src/windows/parallel.rs:36-177 | separate spans: success exactly when every block succeeds, and then each span holds its block's result; otherwise each span holds that or is untouched, and no other byte changes; with one worker a failure is that of the first block that fails, all before it have succeeded and none behind it has run; overlapping or out-of-range spans: each block in turn gets the whole buffer as the one before left it, up to the first that fails |
| ParallelFor.Workers | senbei-engine/src/windows/parallel.rs:91-97 | one worker exactly with a cap of one or fewer than two loads of blocks; otherwise as many as the cap and the loads allow |
| ElfLayout.HeaderRoundTrip | senbei-elf/src/layout.rs:103-125 | a written program header reads back as the segment it was made from, and gives the address twice |
| ElfLayout.Reservation | senbei-elf/src/layout.rs:225-253 | zero exactly when one more table slot fits before every section with contents; otherwise the size of the grown table |
| ElfLayout.ReusableNoteProgramHeader | senbei-elf/src/layout.rs:266-300 | the note given up is one of at least two, lies inside a load segment, has the largest file offset of those that do and is the last at that offset; none is given up exactly when there are fewer than two or none inside a load segment; an error exactly when the range of a note overflows |
| ElfLayout.UpdatePtPhdr | senbei-elf/src/layout.rs:547-586 | with the table in the file, every PT_PHDR entry gets the new size twice and, when relocated, the new offset and address, its other bytes and every other byte of the file stay; otherwise it stops at the first entry that does not fit |
| ElfLayout.PhdrSlotSays | senbei-elf/src/layout.rs:562-583 | what an updated PT_PHDR reads back as, field by field |
| ElfLayout.AppendLoadSegment | senbei-elf/src/layout.rs:302-468 | the bytes and layout are those of the specified append, for every layout, request and buffer, errors included; on a described image it succeeds exactly when the request is acceptable |
| ElfLayout.AppendSucceeds | senbei-elf/src/layout.rs:302-468 | on a described image an append succeeds if and only if the segment has contents, no more of them than memory, a power-of-two alignment that offset and address agree on, lies in the file and below 2^64, is clear of every load segment, and the table has a place for which the caller reserved as much as needed: a slack slot in the file, a spare note, or a PT_PHDR and room in the segment |
| ElfLayout.AppendDescribes | senbei-elf/src/layout.rs:302-468 | in all three strategies the table the header then points to holds the old load segments and the new one as a multiset; the sections stay |
| ElfLayout.AppendFrame | senbei-elf/src/layout.rs:302-468 | reuse changes exactly the 56 bytes of the one entry; slack changes the new slot, the PT_PHDR entries as they must be told, and the count; relocation writes the new table, the old entries told of it and then the new one, and the two header words; nothing else |
| ElfLayout.AppendNamesTable | senbei-elf/src/layout.rs:302-586 | after an append every PT_PHDR names the table that the header words point to and its size, always after a relocation (with the address of the new segment) and otherwise if it did before |
| ElfLayout.AppendFailsCleanly | senbei-elf/src/layout.rs:302-468 | on a described image a refused append has changed no byte |
| ElfLayout.ChainDescribes | senbei-elf/src/layout.rs:302-468 | after any chain of appends clear of the ELF header the layout still describes the bytes, its segments are pairwise disjoint in the file and in memory, and PT_PHDRs that named the table still name it |
| ElfLayout.ParseLoads | senbei-elf/src/layout.rs:103-128 | wherever the table lies: it succeeds exactly when each entry can be read, each load segment with its contents stays in the file, and there is one; the result is those segments in order |
| ElfLayout.ReadLoadsAre | senbei-elf/src/layout.rs:103-128 | for a table inside the file these are its PT_LOAD entries, readable exactly when their contents are in the file |
| ElfLayout.ReadBack | senbei-elf/src/layout.rs:83-128 | following the header words of a described image gives the layout's segments |
| SymbolHash.ComputeElfHash | senbei-elf/src/hash.rs:4-16 | the running hash of the gABI; the top four bits are always clear |
| SymbolHash.ElfStepIs | senbei-elf/src/hash.rs:4-16 | one step in arithmetic: sixteen times the hash and the letter; what exceeds 28 bits comes back one digit up |
| SymbolHash.ElfOfPrintf | senbei-elf/src/hash.rs:104-104 | the published value of "printf" |
| SymbolHash.ElfOfJniOnLoad | senbei-elf/src/hash.rs:4-16 | the value of a name long enough for digits to come back |
| SymbolHash.GnuHashIs | senbei-elf/src/hash.rs:18-23 | 5381 in front of the letters, in base 33, modulo 2^32 |
| SymbolHash.GnuOfPrintf | senbei-elf/src/hash.rs:105-105 | the published value of "printf" |
| SymbolHash.InsertSymbol | senbei-elf/src/hash.rs:32-48 | walking to the end of the bucket's chain and linking there keeps every chain complete, increasing and ended by 0 |
| SymbolHash.SysvLookupCorrect | senbei-elf/src/hash.rs:24-61 | the gABI lookup on the table's bytes finds the first symbol of that name, or 0 when there is none |
| SymbolHash.BuildSysvHash | senbei-elf/src/hash.rs:24-61 | refused exactly below 2 or from 2^32 symbols; the two counts; every symbol lies on its bucket's chain and no other; lookups are searches |
| SymbolHash.GnuLookupCorrect | senbei-elf/src/hash.rs:63-96 | the GNU lookup through bloom word, bucket and marked chain finds the first symbol of that name, or 0 |
| SymbolHash.BuildGnuHash | senbei-elf/src/hash.rs:63-96 | the bloom word has exactly the bits of the names, and lookups on the bytes are searches |
| MetadataTokens.Deobfuscate | senbei-metadata/src/structural.rs:104-196 | the nested loops over images, types and methods compute the specified restoration or the specified error |
| MetadataFormat.RestoredIs | senbei-metadata/src/structural.rs:104-196 | a file is restored if and only if its header names whole tables inside it, every listed type and method exists, and every method is listed by one image through one type; the other errors exactly by magic number and version |
| MetadataFormat.RestoredToken | senbei-metadata/src/structural.rs:165-185 | the token written for a method is its distance from the least method of its image, counted from 1 and cut to 24 bits |
| MetadataFormat.RestoredReport | senbei-metadata/src/structural.rs:171-196 | the report counts the methods, the tokens that changed and the images that own a method |
| MetadataTokens.OwnedExactlyOnce | senbei-metadata/src/structural.rs:120-170 | on success each method is claimed by one type, owned by its image, and not below the image's first method |
| MetadataTokens.TokensDistinct | senbei-metadata/src/structural.rs:165-185 | below 2^24 methods no two methods of one image get the same token |
| MetadataTokens.TokensContiguous | senbei-metadata/src/structural.rs:165-185 | an image whose k methods are contiguous gets the rows 1 to k in order |
| MetadataTokens.RestoredBytes | senbei-metadata/src/structural.rs:165-196 | only token bytes change, every method has its token, and the report counts 0 exactly when nothing changed |
| MetadataTokens.SecondRunIsIdentity | senbei-metadata/src/structural.rs:98-196 | a second run is the identity with nothing to remap, when no token lies in a field that is read, or more generally when each such field keeps its bytes |
| MetadataTokens.SecondRunExactly | senbei-metadata/src/structural.rs:98-196 | as long as the header is not overwritten, the second run is the identity if and only if the ownership read from the first output gives the same tokens |
| MetadataTokens.FixedIffClean | senbei-metadata/src/structural.rs:98-196 | for every file: a run leaves it as it is if and only if it is well formed and every method has its token already |
| MetadataTokens.SecondRunMayFail | senbei-metadata/src/structural.rs:98-196 | without such a condition the second run can refuse the first one's output |
| MetadataTokens.SecondRunMaySucceed | senbei-metadata/src/structural.rs:98-196 | a file whose token covers a field that is read and changes bytes there, and the second run is still the identity |
| Gf32.MulFixed | senbei-crypto/src/android/protector.rs:82-97 | the loop stops when the multiplier is shifted out and gives the field product |
| Gf32.MulIsLinear | senbei-crypto/src/android/protector.rs:82-97 | the multiplication is linear over GF(2) |
| Gf32.MulIsBijective | senbei-crypto/src/android/protector.rs:1038-1058 | multiplying by the stated inverse constant undoes it on every word, and conversely |
| AndroidContainer.WordCodeInverts | senbei-crypto/src/android/protector.rs:1012-1036 | each of the three word codes and its encoder undo each other for every key and position |
| AndroidContainer.WordsInvert | senbei-crypto/src/android/protector.rs:1012-1036 | on data of any length the word transform is a bijection and leaves the last under four bytes alone |
| AndroidContainer.HeaderRoundTrip | senbei-crypto/src/android/protector.rs:275-356 | parsing an encoded header anywhere in a file recovers size, flag, tree and segment table, for every seed |
| AndroidContainer.ParseIs | senbei-crypto/src/android/protector.rs:275-356 | a file parses to a header if and only if that header, under some flag word with its count and flag, lies encoded there, with 1 to 255 segments, none empty or outside the file, and a tree of at most 0x1B00 bytes |
| AndroidContainer.KeysExample | senbei-crypto/src/android/protector.rs:275-330 | every key of one seed, worked out |
| AndroidContainer.WordsExample | senbei-crypto/src/android/protector.rs:586-617 | one word of each code, worked out |
| AndroidParser.ParseHeader | senbei-crypto/src/android/protector.rs:275-356 | the in-place loops over tree words, tree bytes, table words and segments give the specified header or error |
| AndroidSegment.TransformSegment | senbei-crypto/src/android/protector.rs:586-634 | word transform with its running registers, then optional block chaining; refused exactly above 2^32 words |
| AndroidSegment.TransformIs | senbei-crypto/src/android/protector.rs:592-634 | word by word and byte by byte: the words first, then block chaining of the decoded words, the first block alone |
| AndroidSegment.SegmentRoundTrip | senbei-crypto/src/android/protector.rs:1007-1036 | the transform undoes the protector for every seed, invertible block function and length, with or without the block cipher |
| Cbc.DecryptedBlocks | senbei-crypto/src/android/protector.rs:619-632 | each block is decrypted and added to the ciphertext block before it, nothing else changes |
| Cbc.DecryptedBytes | senbei-crypto/src/android/protector.rs:619-632 | byte by byte: the first block is only decrypted, each later one added to the ciphertext sixteen bytes earlier |
| Cbc.RoundTrip | senbei-crypto/src/windows/primitives.rs:236-254 | chained decryption undoes chained encryption over any number of blocks |
| Gf8.InverseIsUnique | senbei-crypto/src/windows/tables.rs:38-53 | every nonzero byte has exactly one multiplicative inverse, the one the specification names |
| Gf8.MulAssociative | senbei-crypto/src/windows/tables.rs:18-34 | the shift-and-add product is associative |
| AesTables.GfMul | senbei-crypto/src/windows/tables.rs:18-34 | the eight-step loop gives the field product |
| AesTables.SearchInverse | senbei-crypto/src/windows/tables.rs:41-53 | the search over all bytes always finds the inverse |
| AesTables.InvSboxTable | senbei-crypto/src/windows/tables.rs:38-77 | scattering the S-box gives the inverse affine map followed by the field inverse |
| AesTables.BuildTables | senbei-crypto/src/windows/tables.rs:88-128 | every entry of the five tables, as the words the rounds read |
| Aes.SboxInverts | senbei-crypto/src/windows/tables.rs:54-77 | the inverse S-box is the inverse permutation of the S-box |
| Aes.MixColumnInverts | senbei-crypto/src/android/protector.rs:99-115 | MixColumns and InvMixColumns undo each other on every column |
| Aes.InverseCipherInverts | senbei-crypto/src/windows/primitives.rs:159-233 | the Equivalent Inverse Cipher under the derived round keys undoes the cipher of FIPS 197, for every key schedule of any length |
| AesVectors.RoundExample | senbei-crypto/src/windows/tables.rs:18-77 | the first round of the example in appendix C.3 of FIPS 197 |
| AesVectors.KeyExpansionExample | senbei-crypto/src/android/protector.rs:169-182 | words 8 to 12 of the key expansion in appendix A.3 of FIPS 197 |
| AesVectors.StateOrder | senbei-crypto/src/windows/primitives.rs:159-175 | bytes fill a state column by column |
| AesBlocks.TableRound | senbei-crypto/src/windows/primitives.rs:176-205 | four table lookups and a key word are InvSubBytes, InvMixColumns and AddRoundKey of a column |
| AesBlocks.MiddleRound | senbei-crypto/src/windows/primitives.rs:176-205 | one turn of the loop is a round of the Equivalent Inverse Cipher, InvShiftRows included |
| AesBlocks.Rounds | senbei-crypto/src/windows/primitives.rs:169-228 | all rounds of a block are the Equivalent Inverse Cipher under the stored keys, for every round count |
| AesBlocks.DecryptionUndoesEncryption | senbei-crypto/src/windows/primitives.rs:159-233 | block decryption undoes block encryption on 16-byte strings |
| AesChain.AesDecrypt | senbei-crypto/src/windows/primitives.rs:238-254 | the loop over blocks with keys read from the same buffer, whatever the overlap |
| AesChain.AesDecryptKs | senbei-crypto/src/windows/primitives.rs:261-279 | with keys in a snapshot it is cipher block chaining with a zero vector (section 6.2 of NIST SP 800-38A) |
| AesChain.ChainedIsCbc | senbei-crypto/src/windows/primitives.rs:238-254 | with data and schedule apart the in-buffer loop is the same cipher block chaining |
| AesChain.ScheduleSnapshot | senbei-crypto/src/windows/primitives.rs:358-369 | a snapshot is taken exactly when header and keys fit and the round count is at most 64 |
| AesChain.SnapshotAgrees | senbei-crypto/src/windows/primitives.rs:256-369 | with data and schedule apart, both decryptions give the same bytes |
| AesChain.DecryptsEncryption | senbei-crypto/src/windows/primitives.rs:256-279 | data encrypted block by block under FIPS 197 decrypts to itself when the derived keys are stored |
| AesKey.KeyIsRecovered | senbei-crypto/src/android/protector.rs:169-182 | every 32-byte key is recovered from the decryption schedule of its AES-256 key expansion |
| AesKey.ImageYieldsKey | senbei-crypto/src/android/protector.rs:141-216 | if the decryption schedule of a key follows a usable marker, exactly that key is recovered |
| AesKey.ConfigIs | senbei-crypto/src/android/protector.rs:141-216 | a marker is accepted exactly when eight bytes precede it, the size word is 0 or 0xF4 and everything read lies in the image; the seeds and the flag are those around it |
| AesKey.MixBlock | senbei-crypto/src/android/protector.rs:99-115 | the doubling formulas are MixColumns |
| AesKey.ParseConfig | senbei-crypto/src/android/protector.rs:141-216 | no marker, several markers and one marker give the specified errors and configuration |
| CivilDate.YearStartCounts | senbei-io/src/logfile.rs:116-138 | the reference calendar counts 365 or 366 days per Gregorian year from the epoch both ways |
| CivilDate.CivilIsExact | senbei-io/src/logfile.rs:118-130 | before the year is cut to 32 bits: fields in range for month and leap year, and the same seconds back, for every signed count |
| CivilDate.UtcPartsIsExact | senbei-io/src/logfile.rs:116-138 | for every 64-bit count the fields are in range, and the seconds come back exactly when the year fits 32 bits |
| CivilDate.UtcPartsFinds | senbei-io/src/logfile.rs:116-138 | every valid date from 1970 on is found from its seconds |
| FeedbackCiphers.CellsRoundTrip | senbei-engine/src/windows/inspect.rs:2466-2477 | both feedback recurrences and their encoders undo each other for every key and number of words |
| FeedbackCiphers.NextKeyExample | senbei-crypto/src/windows/primitives.rs:891-933 | one key of each recurrence, worked out |
| FeedbackCiphers.DecodePayloadPrefix | senbei-crypto/src/windows/primitives.rs:914-933 | whole words decoded under the complement-of-size key; tail and everything else untouched |
| FeedbackCiphers.PayloadRoundTrip | senbei-engine/src/windows/inspect.rs:2466-2477 | a payload encoded into a file decodes to its plaintext |
| FeedbackCiphers.DecryptData1 | senbei-crypto/src/windows/primitives.rs:891-901 | the eight information words; the first is the key of the others |
| FeedbackCiphers.InfoRoundTrip | senbei-crypto/src/windows/primitives.rs:891-901 | the information header and its encoder undo each other |
| FeedbackCiphers.DecryptData3 | senbei-crypto/src/windows/primitives.rs:876-887 | each word of the described region is added to its key, rotated and reduced by its index |
| FeedbackCiphers.PositionExample | senbei-crypto/src/windows/primitives.rs:876-887 | the key and the plaintext of the fifth word, worked out |
| FeedbackCiphers.Data3IsBijective | senbei-crypto/src/windows/primitives.rs:876-887 | a bijection of its region for every key and rotation, and nothing else changes |
| StreamCipher.LfsrKeystream | senbei-crypto/src/windows/primitives.rs:140-153 | the nested loops give the keystream of the register |
| StreamCipher.NoZeroPair | senbei-crypto/src/windows/primitives.rs:140-153 | no two neighbouring keystream bytes are zero |
| StreamCipher.DecryptData6 | senbei-crypto/src/windows/primitives.rs:937-948 | as many keystream bytes as the length byte says are added, and nothing else changes |
| StreamCipher.InvolutionCondition | senbei-crypto/src/windows/primitives.rs:937-948 | applying it twice gives the block back if and only if the length byte is at most 95 |
| StringCipher.DecryptData7 | senbei-crypto/src/windows/primitives.rs:952-970 | the loop decodes exactly the bytes before the first zero byte |
| StringCipher.PartsAre | senbei-crypto/src/windows/primitives.rs:952-970 | the digits of a byte change places, and the key grows by 67 a byte |
| StringCipher.DecodeExample | senbei-crypto/src/windows/primitives.rs:952-970 | one plain byte and one that would become zero, worked out |
| StringCipher.LengthKept | senbei-crypto/src/windows/primitives.rs:952-970 | decoding and encoding never create an earlier zero byte and keep the terminator |
| StringCipher.StringRoundTrip | senbei-crypto/src/windows/primitives.rs:952-970 | a bijection on zero-terminated strings for every key |
| FileRegions.Sweep | senbei-engine/src/windows/inspect.rs:1065-1124 | gaps and overlay are those of the sorted raw ranges, cut at 64 gaps |
| FileRegions.RegionsAreTheUncovered | senbei-engine/src/windows/inspect.rs:1065-1124 | a byte is in a gap or in the overlay if and only if no section declares it and it lies behind the section table or behind a declared byte, for any unsorted, overlapping or truncated sections |
| FileRegions.RegionsAreApart | senbei-engine/src/windows/inspect.rs:1065-1124 | gaps are nonempty, ordered and pairwise apart, and the overlay follows them up to the end of the file |
| FileRegions.KindsAre | senbei-engine/src/windows/inspect.rs:1095-1123 | only a gap in front of the first range is a header gap, all others lie between sections, the rest is the overlay |
| FileRegions.SortedUnique | senbei-engine/src/windows/inspect.rs:1087-1087 | any sorting routine gives the same list of ranges |
| Crc32.BuildTable | senbei-crypto/src/windows/crc32.rs:1-19 | every entry is eight bitwise steps of its index |
| Crc32.TableValues | senbei-crypto/src/windows/crc32.rs:1-19 | two published table entries |
| Crc32.Append | senbei-crypto/src/windows/crc32.rs:23-29 | the table-driven sum is the reflected bit-at-a-time division (section 8 of RFC 1952) for all inputs |
| Crc32.LetterValue | senbei-crypto/src/windows/crc32.rs:23-33 | the published sum of the letter "a" |
| Crc32.Chained | senbei-crypto/src/windows/crc32.rs:23-29 | continuing a sum is summing the concatenation |
| Bytecode.Apply | senbei-crypto/src/windows/bytecode.rs:16-29 | the loop gives the effect of the operations in order |
| Bytecode.SumsAre | senbei-crypto/src/windows/bytecode.rs:16-29 | the four sums and differences as numbers cut to a byte |
| Bytecode.RotationByOne | senbei-crypto/src/windows/bytecode.rs:16-29 | a rotation by one as doubling or halving with the carry at the other end |
| Bytecode.RotationsAre | senbei-crypto/src/windows/bytecode.rs:16-29 | any rotation is that many by one, counted modulo 8 |
| Bytecode.EffectIsPermutation | senbei-crypto/src/windows/bytecode.rs:16-29 | every program is a permutation of the bytes, inverted by the undoing operations in reverse order |
| Bytecode.OpsLut.constructor | senbei-crypto/src/windows/bytecode.rs:42-50 | the table holds the effect on all 256 bytes |
| Bytecode.OpsLut.MapRegion | senbei-crypto/src/windows/bytecode.rs:54-58 | the region is mapped pointwise and nothing else changes |
| Bytecode.MappedInverts | senbei-crypto/src/windows/bytecode.rs:54-58 | mapping a region with the inverse program undoes the mapping |
| Bytecode.Generate | senbei-crypto/src/windows/bytecode.rs:61-119 | the cursor loop gives the operations up to the return, or nothing |
| Bytecode.PrintedParses | senbei-crypto/src/windows/bytecode.rs:61-119 | a printed program with any no-operations in it parses to its operations |
| Bytecode.ParsedIsPrinted | senbei-crypto/src/windows/bytecode.rs:61-119 | nothing but a printed program followed by a return is accepted |

## Left out

- Windows decompressors: the allocation failure of the scratch buffer is not modelled.
- AndroidDecoder.HuffmanLzDecoder.DecodeLimited: the memory reservation may fail in the original; only the entry ceiling is modelled. The original panics in overflow-checked builds where the model returns `Overflow`.
- ParallelFor.RunWorkers: a block's result is a function of its number and its span; the intermediate writes of running blocks into their spans are a parameter. Panic payloads and their capture, thread start-up and the environment's thread cap are parameters or left out.
- ElfLayout.ParseLoads: only the load-segment part of parsing; sections, section names and the ELF identification checks are not part of this model, and a section header keeps only its type, offset and size.
- ElfLayout.AppendDescribes: a relocated table that lands on the ELF header itself is excluded, as the header would then overwrite it.
- MetadataTokens.SecondRunIsIdentity: the condition on the first run is sufficient and can be checked beforehand; the equivalences are `SecondRunExactly` and, for a header that tokens do reach, `FixedIffClean` on the first run's output.
- The block cipher of the `aes` crate is any function on 16-byte blocks in `AndroidSegment`; the key enters through it.
- The protected-descriptor record, the writer records, and the container decoder that strings these steps together: compositions of what is proved here.
- Checksum wrappers that combine `Crc32.Append` with a stored descriptor, and the composite of AES, word cipher, byte program and decompression.
- The EXE and DLL pipelines, discovery, the integrity checker, the other metadata passes, archive reading, job handling, limits, reports, the command line, the web interface and all file system work.
