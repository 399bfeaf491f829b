# Verified model of the firmware engine

A Dafny model of four parts of the firmware engine and its terminal view, and
proofs of what they promise. The model follows the code branch by branch; the
properties are stated for every input, every tree, every run of edits and every
graph.

1. **EFI/Tiano decompression.** `TianoFormat` reads the format of section 19.2 of
   the UEFI Specification, version 2.10, straight off the bit stream: a code set
   is a set of canonical codewords (`Canonical`), and a symbol is the one whose
   codeword the stream shows. `TianoDecoder` is the decoder with its 32-bit
   window, flat tables, shared `left`/`right` trees and copy loop, as a class over
   arrays; it is proved to compute that meaning (`BitStreams`, `BitWindow`,
   `CodeTree`, `CodeTables` carry the argument). `TianoEncoding` writes the format
   in every admissible way and proves that reading gives the text back;
   `TianoReach` shows that everything within the limits of the format can be
   written, and `TianoSample` fixes the widths of its fields.
2. **Edit, mark, rebuild.** `Ffs` has nodes, size fields and checksums (PI
   Specification, volume 3, sections 3.2.3 and 3.2.4), `Builder` the image that a
   tree defines, `BuilderLoops` the appending builder, `Compress` the sweep that
   fits a stream into its slot, `Ops` the edits. `LazyRebuild` proves that copying
   clean nodes loses nothing, `Locality` that edits stay inside their volumes,
   `FileCodec` and `HeaderFields` that built files and sections read back, `EditMeaning` what each edit does to
   every node. `Edits` and `Runs` prove of any run of edits that unmarked nodes are
   unaltered and marked nodes have marked ancestors, and, of runs without
   insertions behind a sibling and body-only replacements, that the builder never
   lacks an algorithm. `Places` and `Effects` prove where in the image an edit is
   found, and in which cases it is not.
3. **NVAR stores.** `NvarRecords` and `NvarReader` read, walk and flatten records,
   `NvarFormat` writes them and proves that they read back, `NvarTables` does so for
   nested stores with their GUID tables, `NvarGeometry` says when a write keeps them,
   `NvarEdit`, `NvarAgreement`, `NvarListing` and `NvarStore` set a variable in all
   stores of an image or in none.
4. **Form reference tree.** `FormTree` defines the rows of a cyclic graph of forms
   and proves that none is lost; `FormReferences` tells every row from the forms and
   edges alone; `FormRows` is the code that fills maps, queue, stack and rows.

`Words` has the machine words: bounded integers with shifts, "or", "and" and the
wrap-around that the code relies on. `Results` has options and results.

Three promises are false of the code, and the exact conditions are proved:

- Setting a variable adds offset and width in 64 bits. An offset within `width` of
  2^64 wraps, passes the size test, and the write starts in front of the data
  (`NvarAgreement.WrappedOffsetEscapes`). The write lies in the variable's data
  exactly if offset plus width is below 2^64 (`NvarEdit.TargetRange`). A build with
  overflow checks stops there instead.
- Setting a variable can change the record it lies in: if a record announces an
  extended header whose size is ignored, its last data bytes are that size, and new
  bytes can make it count (`NvarAgreement.ExposingWrite`). The records stay as they
  were exactly if that does not happen (`NvarGeometry.GeometryKept`).
- An edit that is accepted need not reach the image. Call a volume, a file, or a
  section other than one that cannot be compressed again open if it is not removed
  (`Places.Open`). What an edit puts below a child of the root that no later child is
  laid over is found in the image if every node in between is open
  (`Places.ImageShows`); if one is not, the image is as if the path was only marked
  (`Places.ImageHides`). `Effects` has this for each
  edit and kind of node, and a concrete image for every failure: a new body of a
  volume (`VolumeDropsBody`), a file inserted into padding (`PaddingHidesFile`), into
  a file with a body of its own (`LeafBodyDropped`), or in front of a volume at
  offset 0 (`HiddenBehindVolume`), and removed padding (`PaddingStays`). An accepted
  edit can also end in an image that does not build: `FullVolumeFails`,
  `EmptiedSectionFails`, `EditMeaning.AfterPackedSectionFails`,
  `Runs.PackedStoreFails`.

Inserting after a sibling marks that sibling, not only the nodes above it; the
model follows the code. `Edits.InsertKeepsGuarded` says when that does harm, and
`EditMeaning.AfterPackedSectionFails` shows an image that no longer builds.
Inserting after a sibling that is one past the end passes the index test and then
stops the program; the model has an error value for it, `EditMeaning.InsertPanics`
says exactly when that happens, and `EditMeaning.EmptyImagePanics` shows it.

A block header of the compressed format is called doubtful if the format gives it
no meaning although a decoder with 16-bit sums need not notice
(`TianoFormat.HeaderDoubtful`). On all other input the decompressor succeeds exactly
if the payload has a meaning.

## Model

| member | source | states |
|---|---|---|
| `BitWindow.TakeByte` | crates/uefi-engine/src/tiano.rs:74-92 | Moving a partly used byte into the window keeps it equal to the stream, although the byte is or-ed in whole and its used bits arrive a second time |
| `TianoDecoder.Decoder.FillBuf` | crates/uefi-engine/src/tiano.rs:74-92 | After any refill the 32-bit window is exactly the next 32 stream bits, most significant first and zero behind the compressed size, and the position has advanced by the requested count |
| `TianoDecoder.Decoder.GetBits` | crates/uefi-engine/src/tiano.rs:95-102 | Returns the next n stream bits as a number and advances by n |
| `Canonical.MatchUnique` | crates/uefi-engine/src/tiano.rs:127-231 | Under a complete code a stream position shows the codeword of at most one symbol |
| `Canonical.MatchExists` | crates/uefi-engine/src/tiano.rs:127-231 | Under a complete code every stream position shows the codeword of some symbol |
| `Canonical.PrefixFree` | crates/uefi-engine/src/tiano.rs:127-231 | No canonical codeword of a complete code is a prefix of another |
| `Canonical.FewInnerNodes` | crates/uefi-engine/src/tiano.rs:183-230 | A complete code over n symbols has fewer than n inner nodes below the flat table |
| `CodeTree.RoomForNode` | crates/uefi-engine/src/tiano.rs:183-230 | While a complete code is entered, the node numbers never run out |
| `CodeTree.LeafFound` | crates/uefi-engine/src/tiano.rs:203-227 | Following the bits of any entered long codeword from its flat cell through left and right ends at its symbol |
| `TianoDecoder.CountLengths` | crates/uefi-engine/src/tiano.rs:142-152 | Counts the symbols of every length, and fails exactly if some length is above 16 |
| `TianoDecoder.FirstPoints` | crates/uefi-engine/src/tiano.rs:154-159 | The 16-bit running sums are, modulo 2^16, the points that shorter codewords take |
| `CodeTables.PlantedDecodes` | crates/uefi-engine/src/tiano.rs:183-230 | A tree in which every symbol has been entered decodes every codeword of the code |
| `TianoDecoder.Decoder.MakeTable` | crates/uefi-engine/src/tiano.rs:127-231 | For every length list whose Kraft sum is exactly one, and any leftovers of earlier tables, the table is built, decodes every canonical codeword, and changes only nodes from the symbol count to twice the symbol count; any list with a length above 16 or whose Kraft sum is not a multiple of one is refused; a list without any codeword is accepted and leaves all cells as they were; on any input all cells stay below 2*NC-1 |
| `CodeTables.DecodesFrame` | crates/uefi-engine/src/tiano.rs:183-230 | Rebuilding a table whose nodes stay below 510 changes no lookup in the character tree, whose nodes start at 510 |
| `CodeTables.LookupStart` | crates/uefi-engine/src/tiano.rs:345-367 | The flat cell of the next bits is where the walk to the shown symbol starts, and what is left of the codeword is its length minus the table width |
| `TianoDecoder.Decoder.Lookup` | crates/uefi-engine/src/tiano.rs:347-364 | The flat cell and the left/right walk give the one symbol whose codeword the window shows; a returned symbol is below the limit on any input |
| `TianoDecoder.Decoder.ReadPtLen` | crates/uefi-engine/src/tiano.rs:235-277 | Reads exactly the code set that the format defines, stops at its last bit, and leaves the character table usable; refuses a header without a meaning unless it is doubtful |
| `TianoDecoder.Decoder.ReadClen` | crates/uefi-engine/src/tiano.rs:280-335 | Reads exactly the 510 character lengths that the run-length form defines and stops at its last bit; refuses a header without a meaning unless it is doubtful |
| `TianoDecoder.Decoder.DecodeC` | crates/uefi-engine/src/tiano.rs:338-367 | Returns the next symbol of the format, after the next block header where one is due; size field 0 counts 2^16 symbols; refuses a header without a meaning unless it is doubtful; a returned symbol is below 510 on any input |
| `TianoDecoder.Decoder.DecodeP` | crates/uefi-engine/src/tiano.rs:370-396 | Where a position code set is known, returns the next position of the format, which then always has one; below 2^30 on any input |
| `TianoDecoder.Decoder.CopyMatch` | crates/uefi-engine/src/tiano.rs:408-426 | Copies the byte one place past the position back, cut at the output size, and refuses exactly the matches that start before the output, whose 32-bit index wraps |
| `TianoFormat.SymbolShown` | crates/uefi-engine/src/tiano.rs:345-367 | In a valid code set every place of the stream shows a symbol, so only headers and distances can fail |
| `TianoFormat.CopyAt` | crates/uefi-engine/src/tiano.rs:408-426 | Every copied byte equals the byte at the match distance before it, which was written earlier |
| `TianoDecoder.Decoder.DecodeAll` | crates/uefi-engine/src/tiano.rs:399-428 | Ends on every input; success means that exactly the announced number of bytes was written; unless reading comes to a doubtful block header, it succeeds exactly if the format gives the stream a text, and the bytes are that text |
| `TianoDecoder.Decompress` | crates/uefi-engine/src/tiano.rs:434-478 | Returns the text that the payload stands for, and fails on every other payload but those that lead to a doubtful block header: one with a single symbol outside its set, with lengths whose Kraft sum is another multiple of one, or with a length above 16 behind those of the set; success means exactly the announced size; short, oversized and overlong headers are errors |
| `TianoEncoding.SymbolRoundTrip` | crates/uefi-engine/src/tiano.rs:345-367 | The canonical codeword of any symbol of any valid code set reads back as that symbol and takes exactly its length |
| `TianoEncoding.LensRoundTrip` | crates/uefi-engine/src/tiano.rs:247-276 | Any length list with the three-bit and unary form and the two-bit zero skip reads back, also when the skip passes the announced number |
| `TianoEncoding.PtRoundTrip` | crates/uefi-engine/src/tiano.rs:235-277 | Any extra or position set, complete or of one symbol, reads back from its header and reading stops at its last bit |
| `TianoEncoding.RunsRoundTrip` | crates/uefi-engine/src/tiano.rs:289-330 | Any list of zero runs and lengths that the announced number asks for reads back as the lengths it spells, cut to 510 if the last run is longer |
| `TianoEncoding.CharsRoundTrip` | crates/uefi-engine/src/tiano.rs:280-335 | Any character set reads back from its run-length header and reading stops at its last bit |
| `TianoEncoding.PlainForm` | crates/uefi-engine/src/tiano.rs:280-335 | Every complete character set has a run-length form |
| `TianoEncoding.TokenRoundTrip` | crates/uefi-engine/src/tiano.rs:399-428 | One encoded literal or match extends the output by what the token means |
| `TianoEncoding.PhantomSymbol` | crates/uefi-engine/src/tiano.rs:399-407 | The extra symbol read after the last literal comes from the zero padding and is dropped |
| `TianoEncoding.RoundTrip` | crates/uefi-engine/src/tiano.rs:434-478 | For every token list, every cut into blocks and every choice of valid code sets, the payload, with anything behind it, stands for exactly the expansion of the tokens |
| `TianoReach.EveryTokenListHasPayload` | crates/uefi-engine/src/tiano.rs:434-478 | Whatever literals, and matches of 3 to 256 bytes from positions below 2^14 under EFI or 2^30 under Tiano compression, a text of at most 536870912 bytes is made of: some payload stands for exactly that text |
| `TianoReach.EveryTextHasPayload` | crates/uefi-engine/src/tiano.rs:434-478 | Every byte string of at most 536870912 bytes is what some payload stands for |
| `TianoSample.HeaderShape` | crates/uefi-engine/src/tiano.rs:16-32 | The code sets of a block have 510 characters and 31 positions, and the set for the character lengths 19 symbols, announced in 5 bits |
| `TianoSample.DoubtfulHeader` | crates/uefi-engine/src/tiano.rs:235-335 | A doubtful block header has no meaning, because of a single symbol outside its set, a first length above 16 behind those of the set, or lengths with a Kraft sum that is another multiple of 2^16 than one |
| `TianoSample.DoubtfulReading` | crates/uefi-engine/src/tiano.rs:399-428 | Reading is doubtful only if it comes to such a header |
| `TianoSample.SampleDecodes` | crates/uefi-engine/src/tiano.rs:434-478 | A payload given byte by byte, one block under sets of one symbol, stands for its three characters |
| `Compress.FitMeaning` | crates/uefi-engine/src/compress.rs:114-153 | Over any codec a result decodes to the input, is the first candidate that fits the budget, filled up with zeros, as soon as one fits, and is otherwise a first shortest candidate, longer than the budget |
| `Compress.StreamHeader` | crates/uefi-engine/src/compress.rs:55-103 | The candidates are all combinations of up to 4 literal context and 2 position bits; the 13 bytes in front of the raw stream tell the parameters, the dictionary size and the input length |
| `Compress.EveryCombination` | crates/uefi-engine/src/compress.rs:119-127 | Each such combination is tried |
| `Compress.CompressLzmaFit` | crates/uefi-engine/src/compress.rs:114-153 | The sweep over the grid returns such a result |
| `Builder.AlignUp` | crates/uefi-engine/src/builder/align.rs:4-6 | The least multiple of the alignment that is not below the offset |
| `BuilderLoops.BuildVolume` | crates/uefi-engine/src/builder/mod.rs:60-91 | Appends the build of a volume to any buffer, whatever the length of the buffer before it is |
| `BuilderLoops.BuildTop` | crates/uefi-engine/src/builder/mod.rs:33-51 | Composes the builds of the children at their offsets, in order, over 0xFF |
| `BuilderLoops.BuildFile` | crates/uefi-engine/src/builder/mod.rs:93-124 | Appends the build of a file to any buffer |
| `BuilderLoops.BuildSection` | crates/uefi-engine/src/builder/mod.rs:126-169 | Appends the build of a section, or fails for want of an algorithm in the same cases |
| `BuilderLoops.BuildRecompressedGuided` | crates/uefi-engine/src/builder/mod.rs:178-204 | Appends the recompressed section, or fails in the same cases |
| `BuilderLoops.BuildImage` | crates/uefi-engine/src/builder/mod.rs:26-58 | The appending builder yields the image that the tree defines |
| `Ffs.ValidHeaderKept` | crates/uefi-engine/src/builder/mod.rs:214-260 | Size and checksum fields that are valid are written back unchanged |
| `Ffs.ValidSectionKept` | crates/uefi-engine/src/builder/mod.rs:228-241 | A section size field that is valid is written back unchanged |
| `LazyRebuild.Relaid` | crates/uefi-engine/src/builder/mod.rs:93-169 | Laying out a node whose stored bytes agree with its children reproduces its stored bytes |
| `LazyRebuild.LazyEqualsFull` | crates/uefi-engine/src/builder/mod.rs:60-169 | On a tree whose stored bytes agree with the children, turning any set of clean, uncompressed nodes from NoAction to Rebuild leaves every byte of the image as it was |
| `LazyRebuild.FullRebuild` | crates/uefi-engine/src/builder/mod.rs:26-169 | Copying clean nodes from their stored bytes gives the same image as rebuilding all of them |
| `LazyRebuild.NothingIsCopied` | crates/uefi-engine/src/builder/mod.rs:60-169 | That rebuild copies nothing but clean compressed or guided sections |
| `LazyRebuild.BuiltImageReady` | crates/uefi-engine/src/builder/mod.rs:93-124 | The condition of the lazy build is met: an image of a volume around any file that the builder wrote meets it |
| `Runs.LazyAfterEdits` | crates/uefi-engine/src/builder/mod.rs:26-169 | After any run of edits on a tree whose unmarked nodes agree with their children, copying clean nodes still gives the same image as rebuilding all of them |
| `Runs.ValidFileIsSettled` | crates/uefi-engine/src/ops.rs:27-80 | An inserted file with valid size and checksum fields meets the condition for that |
| `Locality.VolumeKeepsSize` | crates/uefi-engine/src/builder/mod.rs:60-91 | A volume that is not removed builds to exactly header, body and tail length, or fails |
| `Locality.VolumeLayout` | crates/uefi-engine/src/builder/mod.rs:60-91 | A dirty volume consists of its header, the builds of the kept children in order at multiples of 8 from its start, the empty byte everywhere else up to the body end, and its tail |
| `Locality.JoinLaid` | crates/uefi-engine/src/builder/mod.rs:102-109 | The contents of a file or section are the builds of all children in order, at multiples of 4, with zeros between them and nothing behind the last |
| `Locality.EditLocality` | crates/uefi-engine/src/builder/mod.rs:33-91 | Two trees that differ only inside some volumes give images of one size that agree outside the ranges of these volumes; where no other child overlaps such a volume, its range is its build |
| `Locality.GuidedKeepsSize` | crates/uefi-engine/src/builder/mod.rs:178-204 | A recompressed section keeps its length exactly if some candidate of the sweep fits the old payload |
| `FileCodec.HeaderSumIgnores` | crates/uefi-engine/src/builder/mod.rs:243-260 | The header sum does not depend on the two checksums and the state byte |
| `FileCodec.StateFlipKeepsValid` | crates/uefi-engine/src/ops.rs:51-55 | The state flip of an insertion keeps a valid header valid |
| `FileCodec.ChecksumsValid` | crates/uefi-engine/src/builder/mod.rs:243-260 | After the checksums are written the header sums to zero without the file checksum and the state byte, and the file checksum is that of the body if the attribute asks for it |
| `FileCodec.FileRoundTrip` | crates/uefi-engine/src/parser/file.rs:14-72 | A file that the builder wrote, at any place in any buffer, reads back with its GUID, type, header, body and tail exactly if its size is below 0xFFFFFF for a 24-byte header or 2^32 for a 32-byte one |
| `FileCodec.ParseErrors` | crates/uefi-engine/src/parser/file.rs:14-72 | A file is refused for its size exactly if that is less than its header, and as cut off exactly if header or size goes beyond the buffer |
| `HeaderFields.SectionRoundTrip` | crates/uefi-engine/src/builder/mod.rs:126-204 | A dirty section, plain or compressed again, reads back at any place of any buffer with its type and contents, and the size read is its length, exactly if that fits the field: below 0xFFFFFF, or below 2^32 under the large mark; all other header bytes stay |
| `HeaderFields.SectionSizeWritten` | crates/uefi-engine/src/builder/mod.rs:228-241 | The size field holds the length modulo 2^24, or modulo 2^32 under the large mark, and no other header byte changes |
| `HeaderFields.FrontPart` | crates/uefi-engine/src/builder/mod.rs:178-185 | What is in front of the data of a guided section is kept exactly if its data offset leaves room for GUID, offset and attributes and lies in the section |
| `HeaderFields.FileFields` | crates/uefi-engine/src/builder/mod.rs:93-124 | The header of a dirty file has its length in the size field of three or of eight bytes, both checksums, and all other bytes, the state among them, as before |
| `Ffs.AlgorithmGuids` | crates/uefi-engine/src/ffs.rs:23-51 | The algorithms that can be compressed with are those of three GUIDs, given by their texts |
| `Effects.BlockedMeaning` | crates/uefi-engine/src/builder/mod.rs:126-144 | A dirty section with sound contents fails for want of an algorithm exactly if it blocks edits |
| `Effects.BlockedSections` | crates/uefi-engine/src/ops.rs:166-176 | The sections that block edits: standard compression, and guided ones but those of the three algorithms |
| `EditMeaning.MutableMeaning` | crates/uefi-engine/src/ops.rs:153-182 | A path is accepted exactly if no region is on it, as far as it leads, and no section that cannot be compressed again is among the checked nodes |
| `EditMeaning.ObstacleMeaning` | crates/uefi-engine/src/ops.rs:153-182 | A path that is refused is refused for its first obstacle: as read-only for a region, else as behind a section that cannot be compressed again |
| `EditMeaning.InsertErrors` | crates/uefi-engine/src/ops.rs:27-80 | Which error an insertion ends in, the first reason counting: no file, no parent, an obstacle, a missing parent, a sibling too far behind |
| `EditMeaning.OtherErrors` | crates/uefi-engine/src/ops.rs:83-135 | Which error the other edits end in: a missing node, an obstacle, and for new contents no file |
| `Ops.ImageState.CheckMutable` | crates/uefi-engine/src/ops.rs:153-182 | The walk down the path decides that, and reports the first obstacle |
| `Ops.ImageState.Insert` | crates/uefi-engine/src/ops.rs:27-80 | The image holds the new tree on success, and the old tree with the reason on failure; what the new tree is, node by node, states EditMeaning.InsertMeaning |
| `Ops.ImageState.Remove` | crates/uefi-engine/src/ops.rs:83-91 | The image holds the new tree on success, and the old tree with the reason on failure; what the new tree is, node by node, states EditMeaning.RemoveMeaning |
| `Ops.ImageState.Replace` | crates/uefi-engine/src/ops.rs:94-121 | The image holds the new tree on success, and the old tree with the reason on failure; what the new tree is, node by node, states EditMeaning.ReplaceMeaning |
| `Ops.ImageState.Rebuild` | crates/uefi-engine/src/ops.rs:124-135 | The image holds the new tree on success, and the old tree with the reason on failure; what the new tree is, node by node, states EditMeaning.RebuildMeaning, and when it is the old one |
| `EditMeaning.MarkPathAt` | crates/uefi-engine/src/ops.rs:137-151 | Marking turns NoAction into Rebuild on the nodes of the path, as far as it leads, and changes nothing else of any node |
| `EditMeaning.InsertMeaning` | crates/uefi-engine/src/ops.rs:27-80 | The file becomes the last child, or stands before or after the sibling; the other children keep order and contents, the one that then stands at the last index is marked, and nodes outside the parent are marked at most |
| `EditMeaning.InsertedFile` | crates/uefi-engine/src/ops.rs:27-80 | The inserted node is the parsed file, action and state byte aside; the state byte 0x07 becomes 0xF8 exactly if the innermost volume on the way to the parent has free space of 0xFF |
| `EditMeaning.InsertPanics` | crates/uefi-engine/src/ops.rs:66-74 | Inserting stops the program exactly if it is to go behind a sibling that is one past the end of an existing, mutable parent |
| `EditMeaning.EmptyImagePanics` | crates/uefi-engine/src/ops.rs:66-74 | A concrete insertion that does |
| `EditMeaning.AfterPackedSectionFails` | crates/uefi-engine/src/ops.rs:66-75 | A concrete image that builds, and after a successful insertion behind a section that cannot be compressed again does not build any more |
| `EditMeaning.RemoveMeaning` | crates/uefi-engine/src/ops.rs:83-91 | The node is marked removed and the nodes above it dirty; every other action and all contents stay |
| `EditMeaning.ReplaceMeaning` | crates/uefi-engine/src/ops.rs:94-121 | The node has the new contents, no children and its old offset; nodes above it are marked, all others stay |
| `EditMeaning.RebuildMeaning` | crates/uefi-engine/src/ops.rs:124-135 | The node and those above it are marked, unless it is removed; all contents stay |
| `Edits.MarkMakesKnown` | crates/uefi-engine/src/ops.rs:137-151 | Marking the path makes up for whatever changed along it: every node left without a mark is an unaltered one |
| `Edits.DirtyIsMarked` | crates/uefi-engine/src/builder/mod.rs:210-212 | Where marked nodes have marked ancestors, the recursive dirtiness test is a look at one node |
| `Edits.VisibleMeaning` | crates/uefi-engine/src/builder/mod.rs:210-212 | Marked nodes have marked ancestors exactly if every unmarked node is clean to its leaves |
| `Edits.InsertKeepsGuarded` | crates/uefi-engine/src/ops.rs:27-80 | Inserting into a node or before a sibling makes no section that cannot be compressed again dirty, nor a region if these count; inserting after a sibling does so exactly if the sibling is such a node |
| `Edits.ReplaceKeepsGuarded` | crates/uefi-engine/src/ops.rs:94-121 | Replacing makes no section that cannot be compressed again dirty, nor a region if these count |
| `Edits.GuardedBuilds` | crates/uefi-engine/src/builder/mod.rs:126-144 | A tree in which no section that cannot be compressed again is dirty never fails to build for want of an algorithm |
| `Edits.BelowIsLocal` | crates/uefi-engine/src/ops.rs:27-135 | Edits below some volumes leave the image size and every image byte outside these volumes as before |
| `Places.OpenShows` | crates/uefi-engine/src/builder/mod.rs:60-204 | The build of a dirty volume, file or section that can be compressed again holds the builds of its children, but of those removed from a volume: as they are, or for a compressed section in what its payload decodes to |
| `Places.ClosedHides` | crates/uefi-engine/src/builder/mod.rs:33-169 | A dirty padding, free space, region, removed node or section that cannot be compressed again builds to the same whatever its children are |
| `Places.DirtyBelowPacked` | crates/uefi-engine/src/builder/mod.rs:130-144 | A compressed or guided section with something dirty in it is built as if it was marked itself |
| `Places.ComposeMeaning` | crates/uefi-engine/src/builder/mod.rs:33-51 | Every image byte is that of the last child that covers it, or 0xFF |
| `Places.RootShows` | crates/uefi-engine/src/builder/mod.rs:33-51 | The image has every byte of a child of the root that no later child is laid over, and so the whole build of the child where none is |
| `Places.RootHides` | crates/uefi-engine/src/builder/mod.rs:33-51 | A child of the root that later children are laid over altogether leaves no trace in the image |
| `Places.ImageShows` | crates/uefi-engine/src/builder/mod.rs:26-204 | Whatever node an edit puts below a child of the root that nothing is laid over: if all nodes in between are open, the image holds its build, after decoding where compressed sections are in between |
| `Places.ImageHides` | crates/uefi-engine/src/builder/mod.rs:26-169 | If one of the nodes in between is not open, the image is the same as if the edit had only marked the path |
| `Effects.BodyShows` | crates/uefi-engine/src/ops.rs:94-121 | The data of a body-only replacement stands in the build of the node exactly if the node is not a volume, not on top of the tree, not a compressed or guided section and its header has room for a size, or if the data is what the volume is filled with anyway, or empty on top of the tree |
| `Effects.BodyCounts` | crates/uefi-engine/src/ops.rs:94-121 | All data stands in the build exactly for those kinds of nodes; for all others, and only for them, all data of one length gives the same build |
| `Effects.ReplaceReaches` | crates/uefi-engine/src/ops.rs:94-121 | Under open nodes below a child of the root that nothing is laid over, the image holds the replaced node, and the data if the node carries a body, or the body of the new file |
| `Effects.InsertShows` | crates/uefi-engine/src/ops.rs:27-80 | For every kind of parent: an open one holds the build of the inserted file; one on top of the tree what no later child is laid over, and nothing if it is laid over altogether; any other builds as if only marked; and the own body of a file or plain section counts no longer |
| `Effects.InsertReaches` | crates/uefi-engine/src/ops.rs:27-80 | Under open nodes below a child of the root that nothing is laid over, the image holds the build of the inserted file, and its body |
| `Effects.InsertHidden` | crates/uefi-engine/src/ops.rs:27-80 | If the parent or a node above it is not open, the image is the same as if the parent was only marked |
| `Effects.VolumeInsertion` | crates/uefi-engine/src/ops.rs:27-80 | A file inserted into a volume on top of the tree, over which no later child is laid: the image has the build of the file at a multiple of 8 in the volume, and its size and all bytes outside the volume as before |
| `Effects.RemoveShows` | crates/uefi-engine/src/ops.rs:83-91 | Below a volume a removed node builds as if it was not there; elsewhere a removed volume, file or section builds to nothing, and any other removed node as if it was not removed |
| `Effects.JoinWithout` | crates/uefi-engine/src/builder/mod.rs:102-124 | The contents of a file or section around a child that builds to nothing are those without the child, with the padding in front of it if it is the last one |
| `Effects.VolumeDropsBody` | crates/uefi-engine/src/builder/mod.rs:60-91 | A concrete image in which any two new bodies of a volume, of one length, give the same image |
| `Effects.PaddingHidesFile` | crates/uefi-engine/src/builder/mod.rs:52-55 | A concrete image in which the file inserted into padding is not built |
| `Effects.PaddingStays` | crates/uefi-engine/src/ops.rs:83-91 | A concrete image in which removed padding is still built |
| `Effects.LeafBodyDropped` | crates/uefi-engine/src/builder/mod.rs:102-110 | A concrete image in which inserting into a file without children takes its own body out of the image |
| `Effects.HiddenBehindVolume` | crates/uefi-engine/src/ops.rs:65-76 | A concrete image in which the file inserted in front of a volume at offset 0 leaves no trace |
| `Effects.FullVolumeFails` | crates/uefi-engine/src/builder/mod.rs:78-90 | A concrete image that builds, and after a successful insertion into a full volume does not build any more |
| `Effects.EmptiedSectionFails` | crates/uefi-engine/src/builder/mod.rs:178-204 | A concrete image that builds, and after the removal of the only child of a compressed section does not build any more |
| `Runs.UnmarkedIsUnaltered` | crates/uefi-engine/src/ops.rs:27-151 | After any run of edits every node that may be copied from stored bytes is an unaltered node of the first tree or an inserted file |
| `Runs.MarksAreVisible` | crates/uefi-engine/src/ops.rs:27-151 | After any run of edits on a clean tree a node is marked exactly if something in its subtree is |
| `Runs.CleanIsVisible` | crates/uefi-engine/src/builder/mod.rs:210-212 | A tree without actions has no marked node below an unmarked one, so runs may start from it |
| `Runs.RunJoined` | crates/uefi-engine/src/ops.rs:27-135 | A run of edits is one edit after the other |
| `Runs.RunOfOne` | crates/uefi-engine/src/ops.rs:27-135 | An accepted edit leads to the tree that it gives, a refused one to the same tree |
| `Runs.RunOfSetting` | crates/uefi-engine/src/nvar.rs:549-650 | The same for setting a variable |
| `Runs.GuardedRunBuilds` | crates/uefi-engine/src/ops.rs:27-182 | No run of removals, rebuilds, full replacements, insertions into or before a node, and settings of variables brings the builder to a section that it cannot compress again, if no such section is dirty or itself a store at the start and none with the standard compression carries the GUID of an algorithm that is supported |
| `Runs.PackedStoreFails` | crates/uefi-engine/src/nvar.rs:498-524 | Without the condition on stores it can: a concrete image builds, setting a variable in a store that is itself a compressed section succeeds, and the image does not build any more |
| `Runs.RunIsLocal` | crates/uefi-engine/src/ops.rs:27-135 | After any run of edits inside some volumes, settings of variables that change no other live store among them, the image has its size and every byte outside these volumes as before |
| `Runs.ChangesMeaning` | crates/uefi-engine/src/nvar.rs:549-650 | A subtree is changed by setting a variable exactly if a live store in it is |
| `Runs.SetIsLocal` | crates/uefi-engine/src/nvar.rs:549-650 | Setting a variable changes no byte of the image outside the volumes on top of the tree that hold a live store that it changes, and not the size |
| `NvarFormat.EntryRoundTrip` | crates/uefi-engine/src/nvar.rs:25-104 | Any record that is written, named in ASCII or UCS-2 or data-only, with index or local GUID, with an extended header, without one, or announcing one whose size is ignored, at any place of any buffer, reads back with its geometry, name and data |
| `NvarFormat.EveryRecordIsWritten` | crates/uefi-engine/src/nvar.rs:25-104 | Whatever record is read, it is such a written one: the reader accepts no other bytes |
| `NvarFormat.WalkRoundTrip` | crates/uefi-engine/src/nvar.rs:117-125 | Any list of written records is walked as exactly these records |
| `NvarFormat.UnitsMeaning` | crates/uefi-engine/src/nvar.rs:59-66 | A name of 16-bit units is read unit by unit, low byte first |
| `NvarFormat.NamedMeaning` | crates/uefi-engine/src/nvar.rs:5-9 | A record is named exactly if attribute 0x80 is set and 0x08 is not |
| `NvarReader.ReadEntry` | crates/uefi-engine/src/nvar.rs:25-104 | The cursor code reads a record exactly where, and as, the record format has one |
| `NvarRecords.WalkTiles` | crates/uefi-engine/src/nvar.rs:117-125 | The records tile a prefix of the buffer without gaps, each is what is read at its place, and the walk stops where no record starts |
| `NvarReader.WalkRecords` | crates/uefi-engine/src/nvar.rs:117-125 | Ends on every buffer and returns those records |
| `NvarRecords.FlattenLaminar` | crates/uefi-engine/src/nvar.rs:202-228 | All flattened data lies in the buffer at depth at most MAX_DEPTH; two records are disjoint or the later lies in the data of the earlier and deeper; every nested record lies whole in the data of a parent one level up |
| `NvarReader.FlattenInto` | crates/uefi-engine/src/nvar.rs:208-228 | Appends exactly the flattened records, in pre-order |
| `NvarTables.TableRoundTrip` | crates/uefi-engine/src/nvar.rs:178-188 | A GUID table that is written at the end of anything, GUID 0 last, is read back |
| `NvarTables.FlattenMeaning` | crates/uefi-engine/src/nvar.rs:202-228 | A store flattens to its records and, behind each, those of the store in its data, down to four levels; an indexed record has the GUID that the table at the end of its own store holds under that number |
| `NvarTables.EveryBufferIsDescribed` | crates/uefi-engine/src/nvar.rs:202-228 | Every buffer is a store of that kind |
| `NvarTables.WrittenStore` | crates/uefi-engine/src/nvar.rs:178-266 | Any records, then anything in which none starts, then any table: a record of index k is looked up under its name and the GUID written as number k |
| `NvarRecords.FindVarMeaning` | crates/uefi-engine/src/nvar.rs:232-266 | A record is found exactly if it is the only match, nothing is found exactly if there is none, and otherwise the lookup fails |
| `NvarTables.FindByRecords` | crates/uefi-engine/src/nvar.rs:232-266 | A lookup finds a variable exactly if one record, in the store or nested in it, has the name and, if a GUID is given, an index that stands for it in the table of its own store, and then the data of that record; nothing exactly if there is no such record |
| `NvarReader.FindVariable` | crates/uefi-engine/src/nvar.rs:232-266 | Returns what the lookup defines |
| `NvarGeometry.EntryKept` | crates/uefi-engine/src/nvar.rs:25-104 | Changed data leaves the parsed record as it was exactly if it does not turn an ignored extended size into one that counts |
| `NvarGeometry.WalkKept` | crates/uefi-engine/src/nvar.rs:117-125 | Changed data in one record leaves the whole walk as it was exactly under the same condition |
| `NvarGeometry.GeometryKept` | crates/uefi-engine/src/nvar.rs:202-228 | A write into the data of a record, however deeply nested, keeps the records of every enclosing buffer exactly if no record on the way gets an extended size that it did not have |
| `NvarListing.StoresMeaning` | crates/uefi-engine/src/nvar.rs:296-323 | The search lists exactly the stores that no barrier hides |
| `NvarListing.ListingMeaning` | crates/uefi-engine/src/nvar.rs:296-337 | A store is in front of all barriers exactly if it is a file or section without children whose body starts with a record, and no section above it is compressed or guided other than under the GUID of a supported algorithm |
| `NvarListing.HitsAreListed` | crates/uefi-engine/src/nvar.rs:480-540 | A variable is edited only in stores that the listing shows |
| `NvarListing.CollectStoresInto` | crates/uefi-engine/src/nvar.rs:296-323 | Pushes exactly those paths, in tree order |
| `NvarListing.StoresInOrder` | crates/uefi-engine/src/nvar.rs:296-323 | Stores are listed in tree order |
| `NvarListing.HitsInOrder` | crates/uefi-engine/src/nvar.rs:480-540 | Stores are edited and reported in tree order |
| `NvarAgreement.HitsAreLive` | crates/uefi-engine/src/nvar.rs:480-540 | Only stores in front of every barrier that hold the variable are edited |
| `NvarAgreement.LiveIsHit` | crates/uefi-engine/src/nvar.rs:480-540 | Every store in front of the barriers is looked at, and edited if it holds the variable |
| `NvarAgreement.FailureIsLive` | crates/uefi-engine/src/nvar.rs:480-540 | The search fails only because a store in front of the barriers fails, and with its error |
| `NvarAgreement.FailureKinds` | crates/uefi-engine/src/nvar.rs:480-540 | A store fails because the name is ambiguous in it, or because the variable that it has cannot be edited there |
| `NvarAgreement.HiddenMeaning` | crates/uefi-engine/src/nvar.rs:480-540 | The barrier flag is set exactly if a store behind a barrier holds the variable |
| `NvarEdit.TargetRange` | crates/uefi-engine/src/nvar.rs:611-627 | The planned range always lies in the body; it lies in the data of the variable exactly if offset plus width does not wrap |
| `NvarAgreement.WrappedOffsetEscapes` | crates/uefi-engine/src/nvar.rs:509-514 | A concrete store and an offset near 2^64 that passes the size test: the edit succeeds and overwrites the byte in front of the data |
| `NvarEdit.PlansSetAll` | crates/uefi-engine/src/nvar.rs:611-645 | The planned writes, performed one by one with their marks, amount to setting the variable in all stores at once |
| `NvarAgreement.SetVariableMeaning` | crates/uefi-engine/src/nvar.rs:549-650 | Success exactly if no live store fails and some live store holds the variable; then it is set in all of them; never the late range error and never a panic; the barrier error exactly if the variable is only behind barriers |
| `NvarAgreement.SetAllAt` | crates/uefi-engine/src/nvar.rs:549-650 | For every node of the tree: live stores that hold the variable have the new bytes at the planned place, and every other body byte, every header, tail and shape is as before |
| `NvarAgreement.SetAllKeepsVisible` | crates/uefi-engine/src/nvar.rs:632-637 | A node without a mark after the edit is unaltered, and marked nodes keep marked ancestors |
| `NvarAgreement.SetKeepsGeometry` | crates/uefi-engine/src/nvar.rs:549-650 | After a successful edit every buffer from the store down to the variable has the same records, exactly if no ignored extended size was exposed, and so whenever no record on the way announces one |
| `NvarAgreement.ArgumentsMeaning` | crates/uefi-engine/src/nvar.rs:549-582 | Exactly the widths 1, 2, 4 and 8 with values that fit them and readable GUIDs are accepted, on writable images only, and the bytes written spell the value |
| `NvarAgreement.ValueIsRead` | crates/uefi-engine/src/nvar.rs:549-650 | After a successful edit every live store that holds the variable reads as the value at the offset in its data |
| `NvarAgreement.ExposingWrite` | crates/uefi-engine/src/nvar.rs:80-91 | A concrete store in which setting a variable succeeds, takes all data from its record, and makes the same edit fail from then on, because the new bytes make an ignored extended size count |
| `NvarStore.CollectVarHits` | crates/uefi-engine/src/nvar.rs:480-540 | The walk with its path stack and growing lists finds the hits that the tree defines |
| `NvarStore.NvarSet` | crates/uefi-engine/src/nvar.rs:549-650 | On success the image is the tree with the variable set everywhere and the result is the report of it; on any error the image is unchanged |
| `NvarAgreement.ReportMeaning` | crates/uefi-engine/src/nvar.rs:611-649 | The report names exactly the stores that hold the variable, and exactly the writes that changed bytes: where, from what and to what |
| `NvarAgreement.EffectiveInOrder` | crates/uefi-engine/src/nvar.rs:611-645 | The writes are reported in the order in which they are made |
| `FormTree.OrderOfAppearance` | crates/uefi-tui/src/forms.rs:91-98 | No formset comes twice, and formsets come in the order of their first forms |
| `FormTree.LastCounts` | crates/uefi-tui/src/forms.rs:124 | Of several forms with one id the last one is shown |
| `FormTree.KidsMeaning` | crates/uefi-tui/src/forms.rs:110-123 | A form refers to exactly the forms that an edge of its formset gives |
| `FormTree.KidsDistinct` | crates/uefi-tui/src/forms.rs:118-121 | A reference that several edges give is followed once |
| `FormReferences.KidsInOrder` | crates/uefi-tui/src/forms.rs:110-123 | References come in the order of the edges |
| `FormTree.QueueMeaning` | crates/uefi-tui/src/forms.rs:126-150 | The queue holds the starting forms and the forms that they do not reach |
| `FormTree.RootsMeaning` | crates/uefi-tui/src/forms.rs:126-130 | The starting forms are those of the formset that none of its edges leads to |
| `FormReferences.QueueInOrder` | crates/uefi-tui/src/forms.rs:126-150 | Starting forms and the forms that they do not reach come in the order of the input, starting forms first |
| `FormReferences.FormsInOrder` | crates/uefi-tui/src/forms.rs:91-98 | The forms of a formset keep the order of the input |
| `FormReferences.KidsRowsInOrder` | crates/uefi-tui/src/forms.rs:213-247 | Rows below a form come in the order of its references |
| `FormReferences.QueueRowsInOrder` | crates/uefi-tui/src/forms.rs:151-170 | Rows of a formset come in the order of its queue, and a form that was shown starts no rows again |
| `FormReferences.SetRowsInOrder` | crates/uefi-tui/src/forms.rs:100-108 | Rows come formset by formset |
| `FormRows.Reachable` | crates/uefi-tui/src/forms.rs:131-144 | The stack loop ends on every cyclic graph and finds exactly the forms that a path from a starting form reaches |
| `FormRows.MakeQueue` | crates/uefi-tui/src/forms.rs:126-150 | The queue is the starting forms and then, once each, the forms that they do not reach |
| `FormRows.RowBuilder.EmitForm` | crates/uefi-tui/src/forms.rs:173-252 | Ends on every cyclic graph, restores the path and the set of forms on it, and adds exactly the rows of the form |
| `FormRows.BuildTreeRows` | crates/uefi-tui/src/forms.rs:82-170 | Returns the rows of all formsets in order of first appearance |
| `FormTree.NoFormTwice` | crates/uefi-tui/src/forms.rs:173-252 | Every row belongs to a formset of the input, and the way to it is a path of different local forms, each referring to the next |
| `FormTree.TrailBound` | crates/uefi-tui/src/forms.rs:173-252 | No way to a row is longer than the formset has forms |
| `FormTree.RootsAreShown` | crates/uefi-tui/src/forms.rs:124-170 | In an expanded formset, whatever else is collapsed, every form that no edge leads to, or that such forms do not reach, has a row of its own among the rows of its formset |
| `FormTree.EveryFormIsShown` | crates/uefi-tui/src/forms.rs:82-270 | With all row keys expanded every form of every formset has a row of its own among the rows of its formset |
| `FormReferences.EveryReferenceIsShown` | crates/uefi-tui/src/forms.rs:209-247 | Below every expanded row of a form each of its edges has a row one level deeper: the row of the form of the formset, unless that is on the way already; else the row of the last form with the named formset and id; a row that leads nowhere exactly if there is none |
| `FormReferences.RowMeaning` | crates/uefi-tui/src/forms.rs:173-252 | Every row has key, title path, visibility, depth and expansion of the last form with its formset and id, or is that of an edge that leads to no form of the formset |
| `FormReferences.FormRowsAreShown` | crates/uefi-tui/src/forms.rs:99-170 | The rows of an expanded formset are its own row and then the rows that this speaks of |
| `FormReferences.NothingBelowCollapsed` | crates/uefi-tui/src/forms.rs:208-247 | No row stands below a collapsed form |
| `FormRows.CollectRowKeys` | crates/uefi-tui/src/forms.rs:258-270 | Returns the keys of all formsets and of all forms that are a parent of some edge |

## Left out

- MakeTable: decoding is claimed for Kraft sum exactly one. The sum is tested modulo 2^16, so all-zero lengths and some over-subscribed codes are accepted as well; for these only that all indices stay in range is proved, and for all-zero lengths that the cells of the previous table stay.
- Decompress: what is returned for a payload that leads to a doubtful block header is not stated beyond its size.
- GuardedRunBuilds: speaks of the error for want of an algorithm only; a run can still overfill a volume or empty a compressed section. Body-only replacement is excluded, because it leaves a guided section without contents to compress; insertion behind a sibling, because it marks the sibling.
- RunIsLocal: edits of the root's own children, other than insertions into them, are excluded, because these may change the image size.
- SetKeepsGeometry: speaks of the walks of the enclosing buffers. New data may itself look like a nested store, and a GUID table at the end of a buffer may overlap record data, so the flattened list may differ.
- NvarSet: stores are named by their paths in the report, not by descriptive text; buffers are assumed smaller than 2^63 bytes, as the allocator guarantees.
- CopyMatch: an index range that starts at the largest 32-bit number is refused before it is stepped; that a build with overflow checks may stop there is not modelled.
- Lookup: the three copies of the table walk in the source are one method here, and bodies of long loops are methods of their own.
- BuildNode: images, capsules and roots occur on top of the tree only, as the source asserts in debug builds.
- The tree is a value. An edit replaces the root value of `ImageState` instead of updating nodes in place, so sharing and in-place vector updates are not captured. Sequences that the source grows in place (output buffers, rows, paths) are variables or fields that are reassigned.
- The LZMA codec is any pair of a partial encoder and a partial decoder; that the decoder accepts zero padding is established by the round-trip check of the source, not assumed.
- Text decoding (UTF-8 and UTF-16 with replacement, GUID text) is any function; logs, descriptions and error texts are not modelled.
- Parsing of volumes, sections and whole images, and addressing by GUID, are not part of this model: paths are index lists, and parser output appears as conditions on trees with a family of trees that meet them.
- Address arithmetic other than that of `nvar_set` and 32-bit fields is on unbounded integers.
- Row keys of forms are values, not joined strings, so a formset GUID that contains the separator cannot clash; a row's path is the list of titles, not their joined text.
- The flat row list without references, form panels, NVAR listing rows, standard-defaults lookup, the 16-bit checksum and the plain compressor would add only easy members.
