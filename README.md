# PNG structure-aware mutators, modelled in Dafny

The repository ships two AFL++ custom mutators that understand the chunk
structure of PNG files (part-d-mutator/png_mutator.c and the smaller
part-d-mutator/custom_mutator.c). Both take the fuzzer's input buffer and do
the same three things:

1. Parse it into an ordered list of chunks. After the 8-octet signature
   (section 5.2 of the PNG specification), each chunk is stored as a
   big-endian length, a 4-octet type, the payload and a big-endian CRC
   (sections 5.3 and 7.1).
2. Apply one randomly chosen structural edit to that list.
3. Serialise the list again into a scratch buffer of at most `max_size`
   octets. A chunk's CRC is recomputed unless the edit forced it to stay.

The model has six modules:

- `PngBytes` (png_bytes.dfy): octets, 32-bit big-endian fields, bit flips,
  `rand_range`, the CRC function, and the two array stores `memcpy` and
  `write_be32`.
- `PngChunks` (png_chunks.dfy): what both mutators share.
  - The chunk record.
  - `ScanFrom`, the pure specification of the cursor scan. Its length cap
    is 0x7FFFFFFF for png_mutator.c; for custom_mutator.c the cap is
    0xFFFFFFFF, so it never fires.
  - `Encode`, the pure specification of the capacity-bounded rebuild.
  - The lemmas that tie the two together: scan contents, bounds and the
    round trip.
  - The frame writer used by both rebuild loops.
- `PngMutatorSpec` and `PngMutator` (png_mutator_spec.dfy, png_mutator.dfy)
  cover png_mutator.c:
  - The spec module has one function per operator and per fuzz step, as a
    function of the input and the rand() outcomes, plus the lemmas that
    say what each one means.
  - The other module has the imperative code:
    - the chunk-list class `PngData`, with its cursor-loop parser, rebuild
      loop and in-place operators;
    - the raw-byte fallback `MutateRandom` on an array;
    - the `MutatorState` scratch buffer and its `Fuzz` entry point.

    Each method is proved to compute its spec function.
- `CustomMutatorSpec` and `CustomMutator` (custom_mutator_spec.dfy,
  custom_mutator.dfy) do the same for custom_mutator.c, and also compare
  its parser with the one in png_mutator.c.

Every rand() outcome is an explicit parameter of type `Word`, a value in
[0, 2^31 - 1]. `rand_range(m)` is modelled exactly: `w % m`, or 0 when m is
0. A loop that draws on every iteration takes a stream `nat -> Word`. No
probability distribution is modelled.

zlib's `crc32` is the undetermined function `PngBytes.Crc32`. No property
depends on its values: the round trips only say that a rebuilt chunk's CRC
is `ChunkCrc` of its type and payload.

`data` is the chunk's allocation and `length` the number of octets that are
serialised, with `length <= |data|`. `truncate_idat` lowers `length` without
touching the allocation, as the C code does.

Four behaviours of the code that are easy to misread:

- `mutate_chunk_data` targets the last non-empty chunk or the last
  non-empty IDAT chunk, because its search loop overwrites the index on
  every match.
- `duplicate_chunk` copies only the first `length` octets of the
  allocation. The copy therefore serialises exactly like its original, but
  its `data` may be shorter.
- `parse_png` in custom_mutator.c succeeds on a signature followed by no
  chunk at all.
- `drop_random_chunk` does not spare IEND.

## Model

| member | source | states |
|---|---|---|
| PngBytes.RandRange | part-d-mutator/png_mutator.c:71-74 | rand_range(m) is 0 when m is 0 and below m otherwise |
| PngBytes.ReadBe32 | part-d-mutator/png_mutator.c:53-55 | read_be32: definition; its properties are ReadOfBe32 and Be32OfRead |
| PngBytes.Be32 | part-d-mutator/png_mutator.c:57-62 | the four octets write_be32 stores, always exactly four; its properties are ReadOfBe32 and Be32OfRead |
| PngBytes.ReadOfBe32 | part-d-mutator/png_mutator.c:53-62 | write_be32 followed by read_be32 gives back the value |
| PngBytes.Be32OfRead | part-d-mutator/png_mutator.c:53-62 | read_be32 followed by write_be32 reproduces the four octets |
| PngBytes.FlipBit8 | part-d-mutator/png_mutator.c:254 | XOR of an octet with 1 << k, for k below 8, always changes the octet and stays in one octet |
| PngBytes.FlipBit32 | part-d-mutator/png_mutator.c:281 | XOR of a 32-bit value with 1u << k, for k below 32, always changes it and stays in 32 bits |
| PngBytes.WriteBe32 | part-d-mutator/png_mutator.c:57-62 | stores the four big-endian octets of v at pos and changes no other octet |
| PngBytes.CopyInto | part-d-mutator/png_mutator.c:153 | memcpy: the octets at pos become src and no other octet changes |
| PngChunks.ChunkCrc | part-d-mutator/png_mutator.c:64-69 | calculate_crc: definition, zlib's CRC over the type and the payload; its properties are ScanOfEncoded and StoredIsEncoded |
| PngChunks.TagAt | part-d-mutator/png_mutator.c:123 | the type tag copied out of the frame spells exactly the four octets at that place |
| PngChunks.TagOfBytes | part-d-mutator/png_mutator.c:142 | four octets equal to a tag read back as that tag, so the IEND comparison is a comparison of tags |
| PngChunks.FitCountBound | part-d-mutator/png_mutator.c:156-160 | the first i chunks fit in the room exactly when i is at most the number the rebuild loop writes before its break |
| PngChunks.SizeCovers | part-d-mutator/png_mutator.c:158 | each chunk's frame, 12 + length octets, is no longer than the frames of the whole list |
| PngChunks.Encode | part-d-mutator/png_mutator.c:149-176 | rebuild_png as a function of the list and maxsz: definition; its properties are EncodeBounds, EncodeFits, EncodeStops and EncodeOfReadBack |
| PngChunks.EncodeBounds | part-d-mutator/png_mutator.c:149-176 | the rebuild never exceeds maxsz; it writes nothing exactly when maxsz is below 8, and otherwise starts with the signature |
| PngChunks.EncodeFits | part-d-mutator/png_mutator.c:156-173 | with room for every chunk, the rebuild is the signature followed by every chunk's frame |
| PngChunks.EncodeStops | part-d-mutator/png_mutator.c:158-160 | when the rebuild leaves chunks out, the first one left out would overrun maxsz |
| PngChunks.EncodeNormalized | part-d-mutator/png_mutator.c:171 | for chunks whose CRC is not forced, writing them, or writing what they read back as, gives the same octets |
| PngChunks.StoredIsEncoded | part-d-mutator/png_mutator.c:171 | chunks whose stored CRC equals calculate_crc are rebuilt to exactly the octets they were parsed from |
| PngChunks.FitCountNormalized | part-d-mutator/png_mutator.c:156-160 | the rebuild loop writes as many chunks of a read-back list as of the list it was written from |
| PngChunks.EncodeOfReadBack | part-d-mutator/png_mutator.c:149-176 | for chunks whose CRC is not forced, rebuilding what a rebuild reads back as writes the same octets as rebuilding the chunks, at every capacity |
| PngChunks.ChunkAt | part-d-mutator/png_mutator.c:118-134 | the chunk read at a cursor owns exactly `length` octets and has its flag clear; its other properties are ChunkAtEncoded and ScanIsVerbatim |
| PngChunks.ScanFrom | part-d-mutator/png_mutator.c:114-144 | the cursor loop as a function of the buffer, the cursor and the length cap: definition; its properties are ScanFromShape, ScanInside, ScanIsVerbatim and ScanOfEncoded |
| PngChunks.ScanFromShape | part-d-mutator/png_mutator.c:114-143 | every scanned chunk keeps its stored CRC with the flag clear, owns exactly `length` octets within the cap, and only the last one can be IEND |
| PngChunks.ScanInside | part-d-mutator/png_mutator.c:114-121 | the scanned frames lie inside the buffer, and the scan ends after IEND or in front of a frame that does not fit |
| PngChunks.ScanIsVerbatim | part-d-mutator/png_mutator.c:118-133 | the scanned chunks, written back with their stored CRCs, are exactly the octets they were read from |
| PngChunks.ScanOfEncoded | part-d-mutator/png_mutator.c:106-176 | scanning what the rebuild wrote gives back every chunk with its length, type and serialised payload, and with the CRC that was written, when every length is within the cap and IEND is at most last |
| PngChunks.ScanOfFittingRebuild | part-d-mutator/png_mutator.c:106-176 | a rebuild with room for every chunk starts with the signature and scans back from offset 8 to the normalised chunks |
| PngChunks.Normalize | part-d-mutator/png_mutator.c:162-172 | a chunk as it reads back after being written keeps its length, type and serialised payload, has its flag clear, and its frame with its stored CRC is exactly what was written; with no forced CRC it serialises to the same octets as the chunk |
| PngChunks.ChunkAtEncoded | part-d-mutator/png_mutator.c:118-133 | reading a chunk at a place where the frame of c was written gives back c's length, and the chunk as Normalize says it reads back |
| PngChunks.RemoveAt | part-d-mutator/png_mutator.c:303-305 | the memmove that closes the gap keeps the earlier elements in place and shifts the later ones down by one |
| PngChunks.InsertAt | part-d-mutator/png_mutator.c:386-389 | the memmove that opens a gap puts x at k, keeps the earlier elements and shifts the later ones up by one |
| PngChunks.FindFirst | part-d-mutator/png_mutator.c:392-399 | the index of the first chunk that qualifies, with no qualifying chunk before it, or the count when none qualifies |
| PngChunks.FindLast | part-d-mutator/png_mutator.c:234-240 | the last qualifying chunk, with none after it, or no index exactly when no chunk qualifies |
| PngChunks.WriteFrame | part-d-mutator/png_mutator.c:162-172 | appends the length field, the tag, the first `length` payload octets and the chosen CRC, keeps the octets already written and every octet past the frame |
| PngMutatorSpec.ParsedChunks | part-d-mutator/png_mutator.c:106-147 | the chunks parse_png collects: definition; its properties are ParseFails and ParsedShape |
| PngMutatorSpec.Parse | part-d-mutator/png_mutator.c:106-147 | parse_png, None where it returns -1: definition; its properties are ParseFails, ParsedShape, ParseOfRebuild and RebuildOfParse |
| PngMutatorSpec.ParseFails | part-d-mutator/png_mutator.c:109-146 | parse_png fails exactly when the input is shorter than 8 octets, the signature differs, or not even the first frame fits |
| PngMutatorSpec.ParsedShape | part-d-mutator/png_mutator.c:114-143 | an accepted input holds its chunks verbatim, back to back from offset 8, with lengths at most 0x7FFFFFFF, stored CRCs, IEND at most last, and the scan stopping after IEND or in front of a frame that does not fit |
| PngMutatorSpec.ParseOfRebuild | part-d-mutator/png_mutator.c:106-176 | round trip: with no forced CRC, IEND at most last, lengths within the cap and room enough, parsing the rebuild gives back every length, type and payload, each CRC being calculate_crc of its type and payload |
| PngMutatorSpec.RebuildOfParse | part-d-mutator/png_mutator.c:106-176 | rebuilding a parse whose stored CRCs are correct reproduces the parsed part of the input |
| PngMutatorSpec.IhdrEdit | part-d-mutator/png_mutator.c:183-222 | the header edit keeps the allocation size and every octet from 13 on |
| PngMutatorSpec.IhdrEditFields | part-d-mutator/png_mutator.c:184-221 | each of the eight edits sets the named header field from its table, or to any octet, or sets width and height to 0xFFFFFFFF with depth and colour type 255, and keeps every other field |
| PngMutatorSpec.IhdrMutated | part-d-mutator/png_mutator.c:178-226 | mutate_ihdr on the chunk list: definition; its properties are IhdrMutatedShape and IhdrEditFields |
| PngMutatorSpec.IhdrMutatedShape | part-d-mutator/png_mutator.c:178-226 | mutate_ihdr keeps the count and every length, tag and CRC, edits only octets 0..12 of the first IHDR chunk with at least 13 octets, and changes nothing without one |
| PngMutatorSpec.DataTarget | part-d-mutator/png_mutator.c:231-244 | the chunk mutate_chunk_data edits: definition; its properties are DataTargetIs |
| PngMutatorSpec.DataTargetIs | part-d-mutator/png_mutator.c:229-244 | the edited chunk has a payload and no later chunk does (no later non-empty IDAT when the IDAT was taken); there is no target exactly when every chunk is empty |
| PngMutatorSpec.EditCount | part-d-mutator/png_mutator.c:247 | between 1 and length/10 + 1 edits |
| PngMutatorSpec.EditByte | part-d-mutator/png_mutator.c:250-268 | one edit keeps the allocation size and touches no octet at or past `length` |
| PngMutatorSpec.EditByteEffect | part-d-mutator/png_mutator.c:250-268 | an edit writes only its drawn position (two positions for a swap); bit flip, increment and decrement always change the octet, with 8-bit wrap-around; a swap is a permutation |
| PngMutatorSpec.ApplyEdits | part-d-mutator/png_mutator.c:249-269 | any number of edits keeps the allocation size and every octet at or past `length` |
| PngMutatorSpec.DataMutated | part-d-mutator/png_mutator.c:228-270 | mutate_chunk_data on the chunk list: definition; its properties are DataMutatedShape and EditByteEffect |
| PngMutatorSpec.DataMutatedShape | part-d-mutator/png_mutator.c:228-270 | mutate_chunk_data keeps the count and every length, tag and CRC, changes one chunk only, and changes it only below its length |
| PngMutatorSpec.CorruptCrc | part-d-mutator/png_mutator.c:276-284 | the new CRC field; the bit flip and the increment with 32-bit wrap-around always change it |
| PngMutatorSpec.CrcCorrupted | part-d-mutator/png_mutator.c:272-287 | corrupt_crc on the chunk list: definition; its properties are CrcCorruptedShape and CorruptCrc |
| PngMutatorSpec.CrcCorruptedShape | part-d-mutator/png_mutator.c:272-287 | corrupt_crc keeps the count and every other chunk, sets the flag and the new field on the drawn chunk, keeps its length, tag and payload, and its frame carries the new field |
| PngMutatorSpec.DeleteIndex | part-d-mutator/png_mutator.c:292-299 | the removed index lies in [1, n-1] |
| PngMutatorSpec.ChunkDeleted | part-d-mutator/png_mutator.c:289-306 | delete_chunk on the chunk list: definition; its properties are ChunkDeletedShape and DeleteIndex |
| PngMutatorSpec.ChunkDeletedShape | part-d-mutator/png_mutator.c:289-306 | below three chunks nothing happens; otherwise exactly one chunk other than the first is removed and the rest keep their order; after the IEND re-pick the index is at most n-2 |
| PngMutatorSpec.DuplicateOf | part-d-mutator/png_mutator.c:314-324 | the copy has the same length, tag, CRC and flag and serialises to exactly the same octets as the original, though its allocation holds only the first `length` octets |
| PngMutatorSpec.ChunkDuplicated | part-d-mutator/png_mutator.c:308-338 | duplicate_chunk on the chunk list: definition; its properties are ChunkDuplicatedShape |
| PngMutatorSpec.ChunkDuplicatedShape | part-d-mutator/png_mutator.c:308-338 | exactly one chunk is added, right after the drawn one; earlier and later chunks keep their places, shifted by one after it; the copy writes the same octets as its original |
| PngMutatorSpec.InsertTag | part-d-mutator/png_mutator.c:346-362 | mode 0 takes a tag from the seven ancillary names; the other modes build each octet from the drawn range |
| PngMutatorSpec.InsertLength | part-d-mutator/png_mutator.c:364-365 | the new length is 0, 1, 10 or 100, or the random slot, and always below 500 |
| PngMutatorSpec.NewChunk | part-d-mutator/png_mutator.c:343-374 | the chunk insert_random_chunk builds: definition; its properties are NewChunkIs, InsertTag and InsertLength |
| PngMutatorSpec.NewChunkIs | part-d-mutator/png_mutator.c:343-374 | the new chunk has flag clear, CRC calculate_crc of its tag and payload, exactly `length` octets below 500, an ancillary name in mode 0, upper-case letters in mode 1 and lower-case letters in mode 2 |
| PngMutatorSpec.ChunkInserted | part-d-mutator/png_mutator.c:340-390 | insert_random_chunk on the chunk list: definition; its properties are ChunkInsertedShape |
| PngMutatorSpec.ChunkInsertedShape | part-d-mutator/png_mutator.c:340-390 | below two chunks nothing happens; otherwise the new chunk lands at an index in [1, n-1], the earlier chunks stay, the later ones move up by one, and the last chunk stays last |
| PngMutatorSpec.IdatTruncated | part-d-mutator/png_mutator.c:392-400 | truncate_idat on the chunk list: definition; its properties are IdatTruncatedShape |
| PngMutatorSpec.IdatTruncatedShape | part-d-mutator/png_mutator.c:392-400 | only the first IDAT chunk longer than one octet changes, and only its length, to a value in [1, length-1]; its serialised payload becomes a prefix of the old one |
| PngMutatorSpec.RandomLength | part-d-mutator/png_mutator.c:403-405 | the length mutate_random returns: definition; its properties are RandomOutputLength |
| PngMutatorSpec.WriteCount | part-d-mutator/png_mutator.c:410 | between 1 and size/20 + 1 random writes |
| PngMutatorSpec.RandomWrites | part-d-mutator/png_mutator.c:410-414 | the random writes keep the buffer's length; their other property is RandomWritesOnlyDrawn |
| PngMutatorSpec.RandomOutput | part-d-mutator/png_mutator.c:402-416 | the octets mutate_random leaves: definition; its properties are RandomOutputLength and RandomWritesOnlyDrawn |
| PngMutatorSpec.RandomOutputLength | part-d-mutator/png_mutator.c:402-416 | a non-empty input keeps its length; an empty one becomes 1 to 100 octets, never more than maxsz |
| PngMutatorSpec.RandomWritesOnlyDrawn | part-d-mutator/png_mutator.c:410-414 | the random writes change only positions some write drew |
| PngMutatorSpec.Mutate | part-d-mutator/png_mutator.c:458-470 | the operator switch of afl_custom_fuzz: definition; its properties are MutateKeepsHead |
| PngMutatorSpec.MutateKeepsHead | part-d-mutator/png_mutator.c:458-470 | every operator choice moves the count by at most one and keeps the first chunk's tag |
| PngMutatorSpec.FuzzOutput | part-d-mutator/png_mutator.c:449-482 | the octets afl_custom_fuzz returns: definition; its properties are FuzzOutputShape and FuzzRebuildFallback |
| PngMutatorSpec.FuzzOutputShape | part-d-mutator/png_mutator.c:449-483 | with buf_size at most max_size, the result is at most max_size; a failed parse falls back to mutate_random on the input; a successful one is always rebuilt and starts with the signature |
| PngMutatorSpec.FuzzRebuildFallback | part-d-mutator/png_mutator.c:472-479 | the rebuild-returned-0 fallback, reached when max_size is below 8, runs mutate_random on the input and keeps its length |
| PngMutator.PngData.constructor | part-d-mutator/png_mutator.c:76-80 | png_data_init: an empty chunk list |
| PngMutator.PngData.AddChunk | part-d-mutator/png_mutator.c:94-104 | appends the chunk at the end |
| PngMutator.PngData.ParsePng | part-d-mutator/png_mutator.c:106-147 | the cursor loop leaves the scanned chunk list and returns 0 exactly when the parse succeeds, -1 otherwise |
| PngMutator.PngData.RebuildPng | part-d-mutator/png_mutator.c:149-176 | writes exactly Encode of the chunk list into out, returns its length, at most maxsz, and keeps every octet past it |
| PngMutator.PngData.MutateIhdr | part-d-mutator/png_mutator.c:178-226 | the chunk list becomes IhdrMutated of the old list |
| PngMutator.PngData.MutateChunkData | part-d-mutator/png_mutator.c:228-270 | the chunk list becomes DataMutated of the old list |
| PngMutator.PngData.FindDataTarget | part-d-mutator/png_mutator.c:231-244 | the search loop and the 60% choice give DataTarget |
| PngMutator.PngData.EditPayload | part-d-mutator/png_mutator.c:249-269 | the edit loop gives ApplyEdits of the drawn edits |
| PngMutator.PngData.ApplyMutation | part-d-mutator/png_mutator.c:458-470 | the operator switch gives Mutate of the old list |
| PngMutator.PngData.CorruptCrc | part-d-mutator/png_mutator.c:272-287 | the chunk list becomes CrcCorrupted of the old list |
| PngMutator.PngData.DeleteChunk | part-d-mutator/png_mutator.c:289-306 | the chunk list becomes ChunkDeleted of the old list |
| PngMutator.PngData.DuplicateChunk | part-d-mutator/png_mutator.c:308-338 | the chunk list becomes ChunkDuplicated of the old list |
| PngMutator.PngData.InsertRandomChunk | part-d-mutator/png_mutator.c:340-390 | the chunk list becomes ChunkInserted of the old list |
| PngMutator.PngData.TruncateIdat | part-d-mutator/png_mutator.c:392-400 | the chunk list becomes IdatTruncated of the old list |
| PngMutator.PngData.FindTruncatable | part-d-mutator/png_mutator.c:393-395 | the search loop finds the first IDAT chunk longer than one octet, or the count |
| PngMutator.MutateRandom | part-d-mutator/png_mutator.c:402-416 | returns RandomLength, leaves RandomOutput of the first `size` octets at the front of the buffer, and keeps the octets after the result |
| PngMutator.MutatorState.constructor | part-d-mutator/png_mutator.c:418-431 | afl_custom_init: no scratch buffer yet |
| PngMutator.MutatorState.Grow | part-d-mutator/png_mutator.c:439-447 | the scratch buffer grows to max_size when smaller and never shrinks |
| PngMutator.MutatorState.Fuzz | part-d-mutator/png_mutator.c:433-483 | the buffer size becomes the larger of the old size and max_size, and the returned octets are FuzzOutput |
| PngMutator.FuzzInto | part-d-mutator/png_mutator.c:449-482 | copy, parse, mutate, rebuild and the two mutate_random fallbacks leave FuzzOutput at the front of the buffer |
| CustomMutatorSpec.CustomParse | part-d-mutator/custom_mutator.c:51-91 | parse_png of custom_mutator.c, None where it returns false: definition; its properties are CustomParseSigned, CustomParsedShape, ParsersCompared and the round trips |
| CustomMutatorSpec.CustomParseSigned | part-d-mutator/custom_mutator.c:52-59 | once the signature matches, the parse is the scan from offset 8 |
| CustomMutatorSpec.CustomParsedShape | part-d-mutator/custom_mutator.c:51-91 | an accepted input holds its chunks verbatim, back to back from offset 8, with stored CRCs and flag clear, IEND at most last, and the scan stopping after IEND or in front of a frame that runs past the end |
| CustomMutatorSpec.ParsedFramesNoWrap | part-d-mutator/custom_mutator.c:70-102 | for an accepted input below 2^32 octets, every chunk's 12 + length stays below 2^32, so the 32-bit sum in rebuild_png does not wrap |
| CustomMutatorSpec.ScanCapsAgree | part-d-mutator/custom_mutator.c:70 | two caps that exceed every length a frame inside the buffer can declare give the same scan |
| CustomMutatorSpec.ParsersCompared | part-d-mutator/custom_mutator.c:51-91 | below 2 GiB the two parsers accept the same chunks; this one also accepts a signature followed by no chunk that fits (trailing octets allowed), which the other rejects, and that is the only difference |
| CustomMutatorSpec.CustomParseOfRebuild | part-d-mutator/custom_mutator.c:51-124 | round trip: with no forced CRC, IEND at most last and room enough, parsing the rebuild gives back every length, type and payload, each CRC being calculate_chunk_crc |
| CustomMutatorSpec.CustomRebuildOfParse | part-d-mutator/custom_mutator.c:51-124 | rebuilding a parse whose stored CRCs are correct reproduces the parsed part of the input |
| CustomMutatorSpec.HeaderEdit | part-d-mutator/custom_mutator.c:139-148 | the header edit keeps the allocation size |
| CustomMutatorSpec.HeaderEditFields | part-d-mutator/custom_mutator.c:139-148 | each of the five edits sets the width or height to the drawn value, the bit depth or colour type to its low octet, or width and height to 0xFFFFFFFF, keeps the other fields, and never touches octets from 10 on |
| CustomMutatorSpec.HeaderMutated | part-d-mutator/custom_mutator.c:135-152 | mutate_ihdr on the chunk list: definition; its properties are HeaderMutatedShape and HeaderEditFields |
| CustomMutatorSpec.HeaderMutatedShape | part-d-mutator/custom_mutator.c:135-152 | mutate_ihdr keeps the count and every length, tag and CRC, edits only octets 0..9 of the first IHDR chunk with at least 13 octets, and changes nothing without one |
| CustomMutatorSpec.DropIndex | part-d-mutator/custom_mutator.c:156 | the dropped index lies in [1, count-1] |
| CustomMutatorSpec.Dropped | part-d-mutator/custom_mutator.c:154-162 | drop_random_chunk on the chunk list: definition; its properties are DroppedShape and DropIndex |
| CustomMutatorSpec.DroppedShape | part-d-mutator/custom_mutator.c:154-162 | at most two chunks are left alone; otherwise exactly one chunk other than the first is removed and the others keep their order, and the last one, IEND included, can be the one removed |
| CustomMutatorSpec.CrcRandomized | part-d-mutator/custom_mutator.c:164-169 | corrupt_crc_randomly on the chunk list: definition; its properties are CrcRandomizedShape |
| CustomMutatorSpec.CrcRandomizedShape | part-d-mutator/custom_mutator.c:164-169 | one chunk gets the drawn CRC field and the flag; count, other chunks, and that chunk's length, tag and payload are kept |
| CustomMutatorSpec.CustomMutate | part-d-mutator/custom_mutator.c:197-204 | the operator switch of afl_custom_fuzz: definition; its properties are CustomMutateShape |
| CustomMutatorSpec.CustomMutateShape | part-d-mutator/custom_mutator.c:197-204 | no operator adds a chunk, at most one is removed, and the first chunk keeps its tag and length |
| CustomMutatorSpec.CustomFuzzOutput | part-d-mutator/custom_mutator.c:180-216 | the octets afl_custom_fuzz returns: definition; its properties are CustomFuzzOutputShape |
| CustomMutatorSpec.CustomFuzzOutputShape | part-d-mutator/custom_mutator.c:180-216 | a failed parse, or max_size below 8, gives back the input unchanged; otherwise the result is the rebuilt mutation, at most max_size and starting with the signature |
| CustomMutator.PngFile.constructor | part-d-mutator/custom_mutator.c:54-55 | an empty chunk list |
| CustomMutator.PngFile.ParsePng | part-d-mutator/custom_mutator.c:51-91 | returns true exactly when the parse succeeds and then holds the scanned chunks; on failure the list is untouched |
| CustomMutator.PngFile.RebuildPng | part-d-mutator/custom_mutator.c:93-124 | writes exactly Encode of the chunk list into out, returns its length, at most max_size, and keeps every octet past it |
| CustomMutator.PngFile.MutateIhdr | part-d-mutator/custom_mutator.c:135-152 | the chunk list becomes HeaderMutated of the old list |
| CustomMutator.PngFile.DropRandomChunk | part-d-mutator/custom_mutator.c:154-162 | the chunk list becomes Dropped of the old list |
| CustomMutator.PngFile.CorruptCrcRandomly | part-d-mutator/custom_mutator.c:164-169 | the chunk list becomes CrcRandomized of the old list |
| CustomMutator.PngFile.ApplyMutation | part-d-mutator/custom_mutator.c:197-204 | the operator switch gives CustomMutate of the old list |
| CustomMutator.CustomState.constructor | part-d-mutator/custom_mutator.c:171-178 | afl_custom_init: no scratch buffer yet |
| CustomMutator.CustomState.Fuzz | part-d-mutator/custom_mutator.c:180-216 | the scratch buffer never shrinks and reaches max_size; the result is CustomFuzzOutput; it is the first n octets of the scratch buffer exactly when the parse succeeds and max_size is at least 8, and otherwise the caller's own input with its own size |

## Left out

- Allocation failure (`malloc` and `realloc` returning NULL) and the
  array-doubling policy at every growth site of a chunk array:
  `png_data_add_chunk`, `duplicate_chunk` and `insert_random_chunk`
  (part-d-mutator/png_mutator.c:95-101, :326-332, :378-384) and the parse
  loop of part-d-mutator/custom_mutator.c:60-63. The chunk arrays are
  growable sequences. A scratch buffer that grows is a
  fresh array; the old contents need not survive, because `afl_custom_fuzz`
  overwrites them first.
- The unchecked `realloc` calls at part-d-mutator/custom_mutator.c:62 and
  :187 and the unchecked `malloc` calls at :77 and :173. They are modelled
  as if they succeed.
- The C library's PRNG state, `srand` and the seed. Every draw is a
  parameter in [0, 2^31 - 1], taking RAND_MAX as glibc's value.
- The values of zlib's `crc32`. `Crc32` is an undetermined function.
  `calculate_crc`'s test `d && len > 0` is the payload slice being empty or
  not.
- `afl_custom_deinit`, `afl_custom_describe`, the unused `add_buf`
  arguments, `png_data_free` and `free_png`. They hold no logic beyond
  releasing memory.
- Payloads are values, not pointers. No two chunks share an allocation,
  which matches the fresh `malloc` in every copying path.
- The unreachable `else return;` of `delete_chunk` (part-d-mutator/png_mutator.c:298):
  with at least three chunks the re-pick range is never empty.
- Conversions of `size_t` to `uint32_t` at `rand_range` calls, for counts or
  sizes of 2^32 or more, e.g. `rand_range(size/20 + 1)`. Within the model
  every count is exact.
- PngMutator.MutatorState.Fuzz: requires the input to be no longer than the
  scratch buffer after growing, because part-d-mutator/png_mutator.c:449
  copies `buf_size` octets into a `max_size` buffer. The overflow case is
  excluded, not modelled.
- CustomMutator.PngFile.RebuildPng: does not model the 32-bit wrap of
  `12 + chunk->length` at part-d-mutator/custom_mutator.c:102. For a length
  of 0xFFFFFFF4 or more the sum wraps, the size check passes and the
  `memcpy` runs past the buffer. Such a chunk can only be accepted from an
  input of 2^32 octets or more, because the parser's own bound check at
  :70 sums in `size_t`. The model uses the exact sum, so its bound `n <=
  max_size` is the code's behaviour only for inputs below 2^32 octets;
  CustomMutatorSpec.ParsedFramesNoWrap shows that there no frame length
  wraps, and no operator of this mutator changes a length. The same 32-bit
  sum at part-d-mutator/png_mutator.c:158 cannot wrap: parse_png caps
  lengths at 0x7FFFFFFF, inserted chunks are shorter than 500 octets, and
  truncate_idat only shortens.
- CustomMutator.CustomState.Fuzz: returns a flag that says whether the
  result is the scratch buffer or the caller's input, instead of an output
  pointer.
