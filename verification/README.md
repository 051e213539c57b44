# Decaf: a verified model of its self-contained cores

Decaf emulates a Wii U. This project models nine of its cores in Dafny and proves what they are for:

- **GPU surface tiling** (`Tiling`, `TilingInjective`, `TilingLimits`, `TilingHeights`, `TilingReference`, `FixedPoint`,
  `Blitting`, `SurfaceCopy`, `TileRoundTrip`, `ScaledCopies`, `Untiling`): the map from pixel coordinates to swizzled byte
  addresses, the loops that move pixels through it, and the fixed-point fast path. The map is the one plain arithmetic
  gives and injective in every tile mode, and tiling then untiling is the identity.
- **GFD files** (the modules whose names start with `Gfd`): a writer that back-patches relocations and a parser
  that follows them. Parsing a written file gives the file, up to exactly what the format loses; the parser is also
  described for every sequence of blocks, and the written bytes one by one.
- **FastRegionMap** (`RegionMap`, `RegionMapSafety`, `RegionMapRuns`, `RegionMapCalls`, `RegionMapClear`): a lock-free trie,
  as interleaved thread steps that refine one atomic map.
- **MemoryMap** (`Reservations` to `ReservationsFind`, `PageTable`, `PageTableExact`, `MemoryMap`): the free list as a
  canonical form of a set of addresses, first fit, and the mapping list as a function from addresses to memory.
- **CPU interrupts and timer** (`Interrupts`, `InterruptsSafety`, `InterruptsRuns`, `InterruptsCalls`, `InterruptsTimer`,
  `InterruptsBits`): two mutexes and two condition variables, with no lost wakeup, no lost or spurious bit, and no early,
  missed or repeated alarm over any interleaving.
- **PM4 command streams** (`Pm4Stream`, `Pm4Dispatch`, `Pm4Packets`, `Pm4Processor`, `Pm4Registers`, `Pm4Shadow`,
  `Pm4Machine`, `Pm4RoundTrip`): sizer, writer, reader and processor, submitted commands that arrive field by field, and
  registers that stay equal to their shadow in memory.
- **TeenyHeap** (`TeenyHeap`, `TeenyHeapLaws`, `TeenyHeapObject`): free and allocated blocks partition the buffer.
- **Instruction decoder** (`InstructionBits`, `Decoder`, `DecoderLaws`, `DecoderObject`): a trie that refines a linear scan.
- **Breakpoints** (`Breakpoints`, `BreakpointsRace`, `BreakpointsCalls`): code patching that the guest's own code survives, and list
  updates by compare-and-exchange.

`Machine`, `Products` and `Rounding` hold the arithmetic, `Wrappers` the option and result types. Every file belongs to the
project: `dafny verify dfyconfig.toml`, with or without `--warn-contradictory-assumptions`.

## How it is modelled

Code that updates objects is a class or a method with loops, proved to leave exactly the value a specification function
defines; the laws are lemmas about those functions. Concurrent code is a step machine: one action per atomic access, any
number of threads, and laws over every run. Machine words are integers with explicit `U32` and `U64` truncation. Failed
checks and exceptions are failure results.

Where a law does not hold of the code as it is, the code is kept, the law is stated as an if-and-only-if with a condition a
caller can check beforehand, and a lemma shows how it fails outside it: 12-byte pixels in macro tiles and wrapped slice sizes
(`DisjointIff`, `InjectiveIff`), heights that cut a tile row (`HeightIff`), wrapped products of the fast path (`FastPathIff`),
sizes above 2^16 in the general path (`ScaledIdentityIff`); mipmaps, NUL in names, GX2R buffers and uniform variables (GFD,
`RoundTripIff`); requests past the end of the address space, freed ranges that are partly free or touch free space around that
end, a search misled by wrapping or for the whole space, mappings that overlap, that end at the top or that reach past an
unmapped range (memory map: `AllocateIff`, `FreeIff`, `AllocateThenFree`, `FindIff`, `FindInRangeIff`, `MapExact`, `UnmapIff`,
`TranslateIs`); fields that do not fit and a cut packet that passes the length check (PM4: `CommandBack`, `CutPacket`); blocks
shorter than their padding and empty allocations (heap: `AllocIff`); a definition that begins another (decoder: `CompleteIff`).

Assumptions that the source leaves to its surroundings: `reserve(n)` on an empty vector gives capacity `n` (the GFD reader
compares capacities); the fields of the end-of-file header that the writer leaves unset are arbitrary; host memory calls
succeed; a macro-tiled buffer is rounded up to a whole stripe of 2048 bytes; surfaces are smaller than 2^61 bytes; the
debugger and the timer read shared pointers and clocks atomically; atomics are sequentially consistent.

## Model

| member | source | states |
|---|---|---|
| Tiling.BankSwappedWidth | src/libgpu/src/gpu_addrlibopt.cpp:388-418 | the halving loop ends with the fitted bank swap width: positive, and the base width halved exactly until it is below twice the pitch |
| TilingInjective.PixelIndexInjective | src/libgpu/src/gpu_addrlibopt.cpp:181-295 | pixels of one micro tile get distinct indices, for every pixel size, tile type and thickness |
| TilingInjective.RawChannelUnique | src/libgpu/src/gpu_addrlibopt.cpp:297-386 | inside one macro tile the pipe and bank of a pixel determine its micro tile, for aspect ratios 1, 2 and 4 |
| TilingInjective.FinalChannelUnique | src/libgpu/src/gpu_addrlibopt.cpp:530-612 | swizzle, slice rotation and bank swap permute the eight channels: equal final pipe and bank give equal raw pipe and bank |
| TilingInjective.MacroAddrInjective | src/libgpu/src/gpu_addrlibopt.cpp:480-612 | macro-tiled addresses of distinct (x, y, slice) differ, for every macro tile mode, pixel size, swizzle, aligned pitch and height |
| TilingInjective.AddrInBounds | src/libgpu/src/gpu_addrlibopt.cpp:420-612 | every pixel lies inside the buffer, on a multiple of its size, in every tile mode, except 12-byte pixels in macro tiles |
| TilingInjective.AddrInjective | src/libgpu/src/gpu_addrlibopt.cpp:420-612 | the address of a pixel determines the pixel, in every tile mode and for every pixel size, unless the slice size wraps and a second slab uses it |
| TilingInjective.PixelsDisjoint | src/libgpu/src/gpu_addrlibopt.cpp:420-612 | distinct pixels occupy disjoint byte ranges, in every tile mode, except 12-byte pixels in macro tiles |
| TilingLimits.DisjointIff | src/libgpu/src/gpu_addrlibopt.cpp:420-612 | for every aligned surface of any pixel size: no two pixels share a byte if and only if the slice size does not wrap (or there is one slab) and the pixels are not 12 bytes in macro tiles |
| TilingLimits.InjectiveIff | src/libgpu/src/gpu_addrlibopt.cpp:420-612 | for every aligned surface: no two pixels have the same address if and only if it is linear, has one slab, or its 32-bit slice size does not wrap |
| TilingLimits.Straddles | src/libgpu/src/gpu_addrlibopt.cpp:480-612 | on every macro-tiled surface of 12-byte pixels, a pixel that starts at byte 252 of a group runs into a pixel of the other pipe, whatever the swizzle |
| TilingLimits.ChannelOnto | src/libgpu/src/gpu_addrlibopt.cpp:530-612 | every bank and pipe occurs in every macro tile, whatever the swizzle, rotation and bank swap |
| TilingLimits.WrappedSliceCollides | src/libgpu/src/gpu_addrlibopt.cpp:443-612 | when the slice size wraps, the first pixel of the second slab lands on a pixel of the first, in micro and macro tiling |
| TilingHeights.HeightIff | src/libgpu/src/gpu_addrlibopt.cpp:443-478 | a micro-tiled surface of at least one tile row and more than one slab is addressed injectively if and only if its height is a whole number of tiles, or it is thin, one tile wide and stores its rows in order |
| TilingHeights.CutRowCollides | src/libgpu/src/gpu_addrlibopt.cpp:443-478 | otherwise a pixel of the cut last row lies on a pixel of the next slab |
| TilingReference.PlaceIs | src/libgpu/src/gpu_addrlibopt.cpp:181-295 | the index of a pixel in its micro tile, in plain arithmetic: depth in Morton order, other tiles in rows of 8, 4, 2 or 1 pixels that alternate by size (32 bits: x % 4 + 4 * (y % 2) + 8 * (x / 4 % 2) + 16 * (y / 2 % 4)), four layers one after the other |
| TilingReference.KeyIs | src/libgpu/src/gpu_addrlibopt.cpp:530-560 | swizzle and slab turn: each slab turns the channels by a bank in the 2D modes and by a pipe in the 3D ones |
| TilingReference.ChannelIs | src/libgpu/src/gpu_addrlibopt.cpp:297-386 | pipe and bank of a pixel before the bank swap, bit by bit as sums of its tile coordinates and the key |
| TilingReference.SwapBaseIs | src/libgpu/src/gpu_addrlibopt.cpp:388-418 | the width after which the bank order changes, by pixel size and tile shape |
| TilingReference.FitHalves | src/libgpu/src/gpu_addrlibopt.cpp:388-418 | fitting halves that width as often as the pitch needs and no more |
| TilingReference.BankIs | src/libgpu/src/gpu_addrlibopt.cpp:530-612 | of the four bank orders along a row, the middle two flip the low bit of the bank and the last two its high bit |
| TilingReference.AddrIs | src/libgpu/src/gpu_addrlibopt.cpp:420-612 | in every tile mode and for every pixel size, the address of a pixel is the one that plain arithmetic gives: tile number, place in the tile, and groups of 256 bytes that go round over the eight channels |
| TilingReference.RowNeighbours | src/libgpu/src/gpu_addrlibopt.cpp:420-612 | runs of eight pixels of 8 or 16 bits, four of 32 or 96 and two of 64 lie next to each other, pixel after pixel |
| TilingReference.ColumnNeighbours | src/libgpu/src/gpu_addrlibopt.cpp:420-612 | pixels of 128 bits lie next to each other in pairs of rows |
| FixedPoint.FastScaledExact | src/libgpu/src/gpu_addrlibopt.cpp:895-945 | the accumulated 32.32 coordinate is the exact quotient if and only if the dropped fractions have not summed up past its remainder; otherwise it is one less |
| FixedPoint.FastScaledBound | src/libgpu/src/gpu_addrlibopt.cpp:895-945 | the accumulated coordinate is the exact quotient or one less, and never leaves the source image |
| FixedPoint.FastScaledWholeStep | src/libgpu/src/gpu_addrlibopt.cpp:895-945 | the fast path is exact whenever the destination size divides the source size times 2^32 |
| FixedPoint.FastScaledLate | src/libgpu/src/gpu_addrlibopt.cpp:895-945 | scaling two pixels to six, pixel 3 reads source pixel 0 instead of 1 |
| FixedPoint.ScaledIdentityIff | src/libgpu/src/gpu_addrlibopt.cpp:732-746 | the general path keeps every coordinate of an unscaled copy if and only if the size is at most 2^16 |
| Blitting.CopiedPixel | src/libgpu/src/gpu_addrlibopt.cpp:732-746 | after a copy every destination pixel holds its source pixel, if destination pixels do not overlap |
| Blitting.CopiedFrame | src/libgpu/src/gpu_addrlibopt.cpp:732-746 | a byte that no destination pixel covers is unchanged |
| Blitting.SameCopy | src/libgpu/src/gpu_addrlibopt.cpp:732-746 | two loops that visit the same addresses leave the same destination |
| SurfaceCopy.CopyBytes | src/libgpu/src/gpu_addrlibopt.cpp:743-745 | one pixel is copied and nothing else changes |
| SurfaceCopy.CopySurfacePixels6 | src/libgpu/src/gpu_addrlibopt.cpp:710-749 | the nested loops leave exactly the copy through both address maps |
| SurfaceCopy.CopyRowLinear | src/libgpu/src/gpu_addrlibopt.cpp:930-942 | the inner loop with its accumulator leaves exactly one copied row |
| SurfaceCopy.CopySurfacePixelsLinear | src/libgpu/src/gpu_addrlibopt.cpp:895-945 | the fixed-point loops leave exactly the copy of the fast path |
| SurfaceCopy.CopySurfacePixels | src/libgpu/src/gpu_tiling.cpp:92-117 | mismatched or unknown pixel sizes are refused and change nothing; otherwise the fast path is taken exactly for two linear surfaces |
| SurfaceCopy.CopySlices | src/libgpu/src/gpu_tiling.cpp:200-208 | the slice loop copies every slice in turn |
| Untiling.ConvertFromTiled | src/libgpu/src/gpu_tiling.cpp:147-211 | untiling leaves every byte of every pixel of every slice of the linear image, which counts pixels row by row and slice by slice, equal to the byte of the texture at the place that plain arithmetic gives; several samples or an unknown pixel size change nothing |
| TileRoundTrip.FastPathIff | src/libgpu/src/gpu_addrlibopt.cpp:895-945 | for equal sizes the fast path visits every pixel of both surfaces where it lies if and only if no 32-bit product wraps: last column, row step, last source row |
| TileRoundTrip.SameVisitsIff | src/libgpu/src/gpu_addrlibopt.cpp:895-945 | for equal sizes of at most 2^16 the two paths visit the same addresses if and only if no product wraps |
| TileRoundTrip.FastPathExact | src/libgpu/src/gpu_addrlibopt.cpp:895-945 | then the fast path writes byte for byte what the general path writes |
| TileRoundTrip.FastRowsCollide | src/libgpu/src/gpu_addrlibopt.cpp:921-929 | rows of 2^28 pixels of 16 bytes: the fast path writes the second row over the first |
| TileRoundTrip.AllSlicePixels | src/libgpu/src/gpu_tiling.cpp:200-208 | after the slice loop every pixel of every slice equals the source pixel |
| TileRoundTrip.RoundTrip | src/libgpu/src/gpu_tiling.cpp:200-208 | copying every slice into any other layout and back restores every pixel of every slice |
| ScaledCopies.ScaledPixel | src/libgpu/src/gpu_addrlibopt.cpp:710-945 | a copy of any size gives destination pixel (x, y) the source pixel at the quotients of both coordinates, one earlier in the fast path exactly where its fractions have summed up |
| ScaledCopies.ScaledExact | src/libgpu/src/gpu_addrlibopt.cpp:732-746 | the general path takes exactly the quotient of a coordinate whose product fits 32 bits |
| ScaledCopies.ScaledWrapped | src/libgpu/src/gpu_addrlibopt.cpp:732-746 | and takes another pixel for one whose product does not fit |
| GfdBytes.PutWord | src/libgfd/src/gfd_write.cpp:22-27 | overwriting one word in a run of big-endian words replaces exactly that word |
| GfdBytes.ReadWordsOf | src/libgfd/src/gfd_read.cpp:38-49 | reading back a run of written words gives the words |
| GfdBytes.UpToNul | src/libgfd/src/gfd_write.cpp:38-45 | a C string is the longest prefix of a name without a NUL, and is the name exactly if the name has none |
| GfdBytes.CStringOf | src/libgfd/src/gfd_read.cpp:180-191 | a NUL-terminated string in the buffer is read back whole |
| GfdBlock.Tag | src/libgfd/src/gfd_write.cpp:220-229 | or-ing the patch mark keeps the low 20 bits of an offset |
| GfdBlock.UntagTag | src/libgfd/src/gfd_read.cpp:146-178 | masking a marked offset below 2^20 gives the offset |
| GfdBlockRoundTrip.ReadRecordOf | src/libgfd/src/gfd_read.cpp:193-221 | a linked record is read back, its name cut at the first NUL |
| GfdBlockRoundTrip.ReadRecordsOf | src/libgfd/src/gfd_read.cpp:193-375 | a linked run of records of any shape is read back in order |
| GfdBlockRoundTrip.ReadSectionOf | src/libgfd/src/gfd_read.cpp:193-375 | a list is read back through its table entry, whose pointer has a patch |
| GfdBlockRoundTrip.ReadSectionsOf | src/libgfd/src/gfd_read.cpp:433-438 | all lists of a header are read back, each through its own entry |
| GfdBlockRoundTrip.PatchTableCovers | src/libgfd/src/gfd_write.cpp:220-229 | the patch table names every pointer and every name of the block |
| GfdBlockRoundTrip.ReadPatchesOf | src/libgfd/src/gfd_read.cpp:146-165 | the patch table is found through the relocation header at the end of the block |
| GfdBlockRoundTrip.BlockRoundTrip | src/libgfd/src/gfd_read.cpp:388-455 | parsing the bytes of any encoded block, anywhere in a file, gives the block with names cut at NUL |
| GfdLinking.LinkTable | src/libgfd/src/gfd_write.cpp:220-224 | filling in the data patches in order turns the zeroed table into the linked one |
| GfdLinking.LinkNames | src/libgfd/src/gfd_write.cpp:226-229 | filling in the text patches in order turns the zeroed names into text pool offsets |
| GfdLinking.LinkBlock | src/libgfd/src/gfd_write.cpp:201-243 | back-patching, patch table and relocation header together give the closed form of the block |
| GfdWriter.BlockWriter.Write | src/libgfd/src/gfd_write.cpp:29-36 | appends one big-endian word |
| GfdWriter.BlockWriter.WriteAt | src/libgfd/src/gfd_write.cpp:22-27 | overwrites one word in place |
| GfdWriter.BlockWriter.WriteNullTerminatedString | src/libgfd/src/gfd_write.cpp:38-45 | appends the name up to its first NUL, and a NUL |
| GfdWriter.BlockWriter.WriteSection | src/libgfd/src/gfd_write.cpp:68-199 | appends the records of one list with zeros for names, and remembers exactly the patches they need |
| GfdWriter.BlockWriter.WriteText | src/libgfd/src/gfd_write.cpp:206-214 | appends the text pool and aims every name at its own string |
| GfdWriter.BlockWriter.WritePatches | src/libgfd/src/gfd_write.cpp:220-229 | fills in every patch of one kind and appends its part of the patch table |
| GfdWriter.BlockWriter.WriteRelocationData | src/libgfd/src/gfd_write.cpp:201-243 | turns the blank block into the finished one |
| GfdWriter.BlockWriter.WriteTable | src/libgfd/src/gfd_write.cpp:279-301 | writes the counts and zero pointers, and remembers where each pointer is |
| GfdWriter.BlockWriter.WriteSections | src/libgfd/src/gfd_write.cpp:313-319 | writes every list in order with all its patches |
| GfdWriter.WriteBlock | src/libgfd/src/gfd_write.cpp:245-322 | a shader header block comes out as its closed form |
| GfdFileWriter.HeaderSizes | src/libgfd/src/gfd_write.cpp:245-499 | the headers are 0x134, 0xE8, 0xC0 and 0x9C bytes, as both sides check |
| GfdFileWriter.FileWriter.WriteBlock | src/libgfd/src/gfd_write.cpp:501-516 | appends one numbered block |
| GfdFileWriter.FileWriter.WriteVertexShaders | src/libgfd/src/gfd_write.cpp:535-555 | header and program blocks of every vertex shader, in order |
| GfdFileWriter.FileWriter.WritePixelShaders | src/libgfd/src/gfd_write.cpp:557-577 | header and program blocks of every pixel shader, in order |
| GfdFileWriter.FileWriter.WriteGeometryShaders | src/libgfd/src/gfd_write.cpp:579-611 | header block, and program and copy program blocks only if not empty |
| GfdFileWriter.FileWriter.WriteTextures | src/libgfd/src/gfd_write.cpp:613-643 | header and image blocks, and a second image block for a mipmap |
| GfdFileWriter.WriteFile | src/libgfd/src/gfd_write.cpp:518-653 | the file comes out as its closed form |
| GfdFile.WrappedBlockRepeats | src/libgfd/src/gfd_read.cpp:802-809 | a skipped block changes nothing and leads the block loop back to its own header if and only if its size is 2^32 - 32 |
| GfdReader.MemoryFile.Read | src/libgfd/src/gfd_read.cpp:38-49 | one word, or a failure past the end, with the position moved by four in 32 bits |
| GfdReader.MemoryFile.CheckRelocation | src/libgfd/src/gfd_read.cpp:167-178 | finds a patch if and only if some patch is about the offset |
| GfdReader.MemoryFile.ReadName | src/libgfd/src/gfd_read.cpp:180-191 | follows a patched word to its string, and takes an unpatched one for no name |
| GfdReader.MemoryFile.ReadList | src/libgfd/src/gfd_read.cpp:193-375 | reads one list and comes back behind its table entry |
| GfdReader.MemoryFile.ReadBlockRelocations | src/libgfd/src/gfd_read.cpp:146-165 | finds the relocation header at the end of the block and reads its patches |
| GfdReader.MemoryFile.ReadHeader | src/libgfd/src/gfd_read.cpp:388-455 | reads a whole shader header and leaves the position at the end of the block |
| GfdReader.MemoryFile.ReadBytes | src/libgfd/src/gfd_read.cpp:51-63 | reads the bytes of a block, with the bounds check in 32 bits |
| GfdReader.MemoryFile.ReadTexture | src/libgfd/src/gfd_read.cpp:634-688 | reads a texture header and reserves its image and mipmap |
| GfdReader.MemoryFile.ReadProgramData | src/libgfd/src/gfd_read.cpp:741-807 | accepts program, image and mipmap data only with the reserved size, for the shader or texture read last; GfdReaderLaws.FileRead says which field each kind of block fills |
| GfdReader.MemoryFile.ReadBlockData | src/libgfd/src/gfd_read.cpp:741-807 | dispatches on the block type and leaves the position at the end of the block |
| GfdReader.MemoryFile.ReadAll | src/libgfd/src/gfd_read.cpp:718-813 | the block loop computes what the parser functions define, for files whose blocks do not wrap |
| GfdRoundTrip.VertexHeaderOf | src/libgfd/src/gfd_read.cpp:388-455 | a written vertex shader header reads back as that shader without its program |
| GfdRoundTrip.PixelHeaderOf | src/libgfd/src/gfd_read.cpp:471-525 | the same for pixel shaders |
| GfdRoundTrip.GeometryHeaderOf | src/libgfd/src/gfd_read.cpp:541-604 | the same for geometry shaders |
| GfdRoundTrip.TextureHeaderOf | src/libgfd/src/gfd_read.cpp:634-688 | a written texture header reads back |
| GfdRoundTrip.TextureRead | src/libgfd/src/gfd_write.cpp:613-643 | a texture reads back with its mipmap in place of its image, and is refused if they differ in length |
| GfdRoundTrip.RoundTrip | src/libgfd/src/gfd_read.cpp:718-813 | for every file without uniform variables, with block offsets below 2^20 and under 4 GB: parsing what writeFile builds gives the file as the format carries it, and fails exactly when some mipmap is not as long as its image |
| GfdRoundTrip.CleanIff | src/libgfd/src/gfd_read.cpp:718-813 | such a file reads back unchanged if and only if names are NUL-free, GX2R buffers empty and there are no mipmaps |
| GfdUniformVars.BlockMisread | src/libgfd/src/gfd_write.cpp:90-111 | in any shader header that parses, the first uniform variable comes back with its offset as its count and its block as its offset |
| GfdUniformVars.ReadBlocksKeeps | src/libgfd/src/gfd_read.cpp:718-813 | later blocks never change the variables of a shader that was read |
| GfdUniformVars.ChunksPass | src/libgfd/src/gfd_read.cpp:741-809 | if a file is read at all, every block is passed at its declared size and adds the shader its kind adds, however it was read |
| GfdUniformVars.UniformVarsMisread | src/libgfd/src/gfd_write.cpp:90-111 | a file with a shader whose first uniform variable does not have equal count, offset and block never comes back as it was, whatever else is in it |
| GfdUniformVars.RoundTripIff | src/libgfd/src/gfd_read.cpp:718-813 | a typed file with block offsets below 2^20 and under 4 GB, with no uniform variables or with such a shader, reads back unchanged if and only if it is clean and has no uniform variables |
| GfdUniformVars.OneUniformLost | src/libgfd/src/gfd_write.cpp:90-111 | a file of one pixel shader with one uniform variable of one element is written in 426 bytes and does not come back |
| GfdReaderLaws.FileRead | src/libgfd/src/gfd_read.cpp:718-813 | what the reader makes of any sequence of blocks, with any versions, pointer words, kinds and order, and whatever follows an end-of-file block: it accepts the file if and only if each block is of a supported version without pointers, or data of the size announced by the latest header it belongs to, or of a skipped kind; then there is one shader or texture per header, each with the last data of each kind before the next such header |
| GfdReaderLaws.FileRefused | src/libgfd/src/gfd_read.cpp:65-96 | a file with another magic, header size or version is refused |
| GfdReaderLaws.TextureBack | src/libgfd/src/gfd_read.cpp:634-716 | a texture header, an image block and a mipmap block of any bytes read back as that texture with both, if and only if they are as long as announced |
| GfdReaderLaws.OldPixelBack | src/libgfd/src/gfd_read.cpp:471-531 | a version 0 pixel shader header reads back with an empty GX2R buffer |
| GfdReaderLaws.VertexRead | src/libgfd/src/gfd_read.cpp:388-455 | a vertex shader header, uniform variables with all their words included, reads back exactly if its version is 1 and its pointers are zero |
| GfdReaderLaws.PixelRead | src/libgfd/src/gfd_read.cpp:471-525 | a pixel shader header of any version, likewise |
| GfdReaderLaws.GeometryRead | src/libgfd/src/gfd_read.cpp:541-604 | a geometry shader header, likewise |
| GfdLayout.FileStarts | src/libgfd/src/gfd_write.cpp:518-533 | a file starts with the bytes of Gfx2 and its version words |
| GfdLayout.BlockNumbered | src/libgfd/src/gfd_write.cpp:501-516 | blocks are numbered 0, 1, 2 and so on; block k carries its number, kind, size and index, and then its data |
| GfdLayout.BlockIndexed | src/libgfd/src/gfd_write.cpp:535-643 | every block carries the index of its shader or texture among those of its kind |
| GfdLayout.TagIs | src/libgfd/src/gfd_write.cpp:220-229 | a marked offset below 2^20 is the sum of mark and offset |
| GfdLayout.RelocationDelimits | src/libgfd/src/gfd_write.cpp:206-243 | the relocation header at the end of a block gives start and size of the text, the number of patches and where they start; the text ends where the patches start and they end at the header |
| GfdLayout.PatchMarks | src/libgfd/src/gfd_write.cpp:220-229 | each patch is the offset of a pointer or of a name, marked as such |
| GfdLayout.EntryLies | src/libgfd/src/gfd_write.cpp:279-301 | head, table entries (count, marked place of the first record) and tail of a block, each at its offset |
| GfdLayout.RecordLies | src/libgfd/src/gfd_write.cpp:68-199 | each record lies behind those before it, with the marked place of its name, where the name lies |
| RegionMap.SameWord | src/common/fastregionmap.h:48-53 | two locations share all three table indices exactly when they lie in the same word |
| RegionMapSafety.Swap1Keeps | src/common/fastregionmap.h:79-89 | publishing a directory by compare-and-exchange keeps every table owned once |
| RegionMapSafety.Drop1Keeps | src/common/fastregionmap.h:85-88 | the loser of the race deletes a table that is allocated and nobody else can reach |
| RegionMapSafety.Swap2Keeps | src/common/fastregionmap.h:93-103 | the same for publishing a leaf |
| RegionMapSafety.Drop2Keeps | src/common/fastregionmap.h:99-102 | the same for deleting a leaf |
| RegionMapSafety.StoreKeeps | src/common/fastregionmap.h:105-105 | the store lands in the published leaf of its location |
| RegionMapSafety.NextKeeps | src/common/fastregionmap.h:48-106 | every step of any thread keeps the ownership invariant and changes no published pointer |
| RegionMapRuns.NextValue | src/common/fastregionmap.h:68-106 | only the leaf store changes a value, of its own word, to the stored one: every step refines an atomic map |
| RegionMapRuns.NextResult | src/common/fastregionmap.h:48-66 | what find returns is the value of its location at its last step |
| RegionMapRuns.Linearizable | src/common/fastregionmap.h:48-106 | over every interleaving of any number of threads, each find event returns the value last stored for its word or null, and no thread touches a table that is not allocated; RegionMapCalls.ResultsOfCalls states it over calls |
| RegionMapCalls.EventsOfCalls | src/common/fastregionmap.h:48-106 | over every run, each stored value and each returned result is the last step of the latest call of its thread, with the location and value that call was made with |
| RegionMapCalls.CallsEndOnce | src/common/fastregionmap.h:68-106 | a call that is idle again has exactly one event, with its own arguments; before that it has none |
| RegionMapCalls.AbortsIff | src/common/fastregionmap.h:68-72 | set aborts if and only if the location is not a multiple of 4, and nothing else does |
| RegionMapCalls.ResultsOfCalls | src/common/fastregionmap.h:48-106 | the result of a find call is the value passed to the set call that stored last to its word, or null if none has |
| RegionMapRuns.PublishedForever | src/common/fastregionmap.h:48-106 | over every run a published table pointer never changes again |
| RegionMapRuns.WaitFree | src/common/fastregionmap.h:48-106 | after any run, each step of a thread ends its call or leaves it fewer steps to take, whatever other threads did, and touches no table that is not allocated |
| RegionMapClear.Tables.ClearLeaves | src/common/fastregionmap.h:30-36 | the inner loop deletes exactly the leaves of one directory, each while it is allocated |
| RegionMapClear.Tables.Clear | src/common/fastregionmap.h:23-46 | clearing deletes every table exactly once and leaves none behind |
| ReservationsExact.HeldIffFree | src/libcpu/src/memorymap.cpp:144-157 | one entry contains a range if and only if every address of it is free: the single-entry check is complete because the list is coalesced |
| ReservationsExact.CarveExact | src/libcpu/src/memorymap.cpp:229-261 | whichever of the four cases applies, exactly the range leaves the list, which stays sorted, disjoint and coalesced |
| ReservationsExact.AllocateExact | src/libcpu/src/memorymap.cpp:212-264 | for a request within the address space: allocation succeeds if and only if all of it is free, and takes exactly it |
| ReservationsLaws.AllocateIff | src/libcpu/src/memorymap.cpp:212-264 | for any request: success means all of it is free if and only if the request ends within the address space or no entry holds its wrapped ends |
| ReservationsFree.SafeGives | src/libcpu/src/memorymap.cpp:266-346 | freeing a range none of which is free, away from the wrapped ends, adds exactly it and merges with every neighbour |
| ReservationsFree.OverlapBreaks | src/libcpu/src/memorymap.cpp:278-345 | freeing a range that is partly free never leaves a right list |
| ReservationsFree.WrapBreaks | src/libcpu/src/memorymap.cpp:283-306 | freeing next to free space around the end of the address space never leaves a right list |
| ReservationsFree.FreeIff | src/libcpu/src/memorymap.cpp:266-346 | freeing leaves a canonical list with exactly the range added if and only if the range is all free, or none of it is and it does not touch free space around the end of the address space |
| ReservationsFree.FreeNothingIff | src/libcpu/src/memorymap.cpp:266-346 | freeing no bytes leaves the list as it is if and only if the address lies in or right behind free space (for address zero: free space at either end); elsewhere it breaks the list |
| ReservationsLaws.Unique | src/libcpu/src/memorymap.cpp:212-346 | two canonical lists that cover the same addresses are equal |
| ReservationsLaws.AllocateThenFree | src/libcpu/src/memorymap.cpp:212-346 | freeing what was just allocated restores the identical list if and only if the range does not touch free space around the end of the address space |
| ReservationsLaws.FreeThenAllocate | src/libcpu/src/memorymap.cpp:212-346 | allocating what was just safely freed restores the identical list |
| ReservationsLaws.TopPageStuck | src/libcpu/src/memorymap.cpp:279-305 | with all else free, the top page can be allocated, and a free of it then does not restore the list |
| ReservationsLaws.AllocateAligned | src/libcpu/src/memorymap.cpp:212-264 | allocation keeps every entry on page boundaries |
| ReservationsLaws.FreeAligned | src/libcpu/src/memorymap.cpp:266-346 | freeing keeps every entry on page boundaries, whatever the range |
| ReservationsLaws.RunsStayCanonical | src/libcpu/src/memorymap.cpp:212-346 | every run of allowed calls keeps the list sorted, disjoint, page-aligned, non-empty per entry and coalesced |
| ReservationsLaws.ReservationRuns | src/libcpu/src/memorymap.cpp:59-59 | so does every run from the initial list |
| ReservationsFind.FindIff | src/libcpu/src/memorymap.cpp:348-363 | the returned pair is right (the lowest address that suits and the rounded size, or zeros exactly when none suits) if and only if: some address suits and the rounded size is not zero, or none suits and no entry misleads the search by wrapping |
| ReservationsFind.WholeSpaceLost | src/libcpu/src/memorymap.cpp:348-363 | with the whole space free, a request that rounds to all of it is answered with zeros although address zero suits |
| ReservationsFind.FindInRangeIff | src/libcpu/src/memorymap.cpp:365-393 | the same within a range, over the list and the ends of the range; a range that passes the end of the address space holds no address |
| ReservationsFind.WrappedRange | src/libcpu/src/memorymap.cpp:365-393 | for a range that passes the end of the address space, zeros are returned if and only if no part misleads the search |
| ReservationsFind.ClippedExact | src/libcpu/src/memorymap.cpp:374-390 | the parts of the entries within a range are the canonical list of the free addresses in it |
| PageTableExact.MapExact | src/libcpu/src/memorymap.cpp:395-458 | mapping succeeds if and only if the first address is allocated and not mapped; it adds exactly its translations; the list stays ordered if and only if none of the range was mapped, and off the free list if and only if none of it was free |
| PageTableExact.UnmapExact | src/libcpu/src/memorymap.cpp:461-515 | when no mapping reaches past the end of the range, the list stays ordered and unmapping makes exactly the range untranslatable: every other address keeps target and permission, also in a mapping that is cut in two |
| PageTableExact.UnmapIff | src/libcpu/src/memorymap.cpp:461-515 | unmapping makes exactly the range untranslatable if and only if no mapping reaches into it and past its end |
| PageTableExact.StaysAllocated | src/libcpu/src/memorymap.cpp:461-515 | mapped memory stays off the free list |
| PageTableExact.TranslateIs | src/libcpu/src/memorymap.cpp:197-210 | an address translates as its mapping says, except in a mapping that ends at the top of the address space |
| PageTableExact.LookupIs | src/libcpu/src/memorymap.cpp:197-210 | an address translates through the one mapping that holds it: physical start plus distance, with its permission |
| PageTableExact.QueryIff | src/libcpu/src/memorymap.cpp:160-181 | each answer of a query if and only if: some mapping of that permission holds the address; none does and a free range holds it; or neither |
| PageTableExact.MapIff | src/libcpu/src/memorymap.cpp:395-412 | mapping succeeds if and only if the first physical address is in one of the two memories and the first virtual address is in no mapping and not free |
| MemoryMap.MemoryMap.IsVirtualAddressFree | src/libcpu/src/memorymap.cpp:144-157 | the scan finds an entry if and only if one contains both ends |
| MemoryMap.MemoryMap.AllocateVirtualAddress | src/libcpu/src/memorymap.cpp:212-264 | the loop leaves the list the specification defines, unchanged on failure |
| MemoryMap.MemoryMap.FreeVirtualAddress | src/libcpu/src/memorymap.cpp:266-346 | the loop with its merges leaves the list the specification defines |
| MemoryMap.MemoryMap.FindFreeVirtualAddress | src/libcpu/src/memorymap.cpp:348-363 | the loop returns the first fit, rightly exactly under the condition of the law |
| MemoryMap.MemoryMap.FindFreeVirtualAddressInRange | src/libcpu/src/memorymap.cpp:365-393 | the loop returns the first fit within the range, rightly exactly under the condition of the law |
| MemoryMap.MemoryMap.QueryVirtualAddress | src/libcpu/src/memorymap.cpp:160-181 | mapped, free or allocated, by the meaning of the two lists |
| MemoryMap.MemoryMap.VirtualToPhysicalAddress | src/libcpu/src/memorymap.cpp:197-210 | the scan with its 32-bit end |
| MemoryMap.MemoryMap.MapMemory | src/libcpu/src/memorymap.cpp:395-458 | inserts the mapping in address order, or refuses it and changes nothing |
| MemoryMap.MemoryMap.UnmapMemory | src/libcpu/src/memorymap.cpp:461-515 | the erasing loop and the remapping leave the list the specification defines |
| InterruptsSafety.NextKeeps | src/libcpu/src/cpu_interrupts.cpp:36-140 | every step of any thread keeps mutual exclusion, the sleep invariant and the deadline invariant |
| InterruptsSafety.TimerGoesOn | src/libcpu/src/cpu_interrupts.cpp:44-71 | the scan keeps its deadline at or before every alarm it has passed |
| InterruptsRuns.NoLostWakeup | src/libcpu/src/cpu_interrupts.cpp:109-131 | over every run, a core asleep and not notified has no deliverable bit, unless the thread that raised one still holds the mutex and its next step wakes the core |
| InterruptsRuns.DeadlineCoversAlarms | src/libcpu/src/cpu_interrupts.cpp:65-69 | over every run, a sleeping timer that was not notified has a deadline at or before every armed alarm, unless the thread that set one is about to wake it |
| InterruptsRuns.NoDeadlock | src/libcpu/src/cpu_interrupts.cpp:36-140 | a thread that waits for a mutex waits for one that can go on |
| InterruptsRuns.BitStays | src/libcpu/src/cpu_interrupts.cpp:76-131 | a pending bit stays pending or in flight to the handler until an event clears it or hands it over |
| InterruptsRuns.NoLostBits | src/libcpu/src/cpu_interrupts.cpp:36-131 | over every run, each bit raised by an event is pending, on its way to the handler, or was cleared or handled since; InterruptsCalls ties the events to the calls |
| InterruptsCalls.InterruptRaises | src/libcpu/src/cpu_interrupts.cpp:36-42 | a thread that is back from interrupting a core has raised exactly those bits there since the call |
| InterruptsCalls.CallsDone | src/libcpu/src/cpu_interrupts.cpp:36-140 | a thread that is back from any call has had exactly one event since, with the arguments of the call: raised bits, armed time, cleared bits, or a handler call of a core that waited |
| InterruptsCalls.EventsOfCalls | src/libcpu/src/cpu_interrupts.cpp:36-140 | and every event of a thread other than the timer is that of its latest call |
| InterruptsTimer.FiredThenRaised | src/libcpu/src/cpu_interrupts.cpp:56-58 | whenever the timer is asleep, every alarm it has fired was raised by its next event, as the alarm bit of that core |
| InterruptsTimer.SleepsRightly | src/libcpu/src/cpu_interrupts.cpp:44-71 | when the timer goes to sleep, no alarm is left that was due at its last reading of the clock, and it sleeps until the first alarm of any core, or for good if there is none |
| InterruptsTimer.ScanSteps | src/libcpu/src/cpu_interrupts.cpp:53-63 | the scan leaves no due alarm behind it and its deadline is the first of those it has passed |
| InterruptsBits.MaskIs | src/libcpu/src/cpu_interrupts.cpp:88-95 | over every run the mask of a core is the one that core set last |
| InterruptsBits.BitsFollow | src/libcpu/src/cpu_interrupts.cpp:36-131 | pending bits change only by events that name the core and by its own taking, which removes the bits the mask lets through and bit 0; masked bits stay pending |
| InterruptsBits.NoSpuriousBits | src/libcpu/src/cpu_interrupts.cpp:36-131 | over every run, a pending bit was raised for that core and not cleared since, and every bit handed to the handler was raised |
| InterruptsBits.HandlerMasks | src/libcpu/src/cpu_interrupts.cpp:97-131 | the handler is called only with a bit the mask lets through, or bit 0; a core that waits aborts if and only if its mask stops all others |
| InterruptsRuns.AlarmsFireRightly | src/libcpu/src/cpu_interrupts.cpp:53-63 | over every run, each setting of an alarm fires at most once and never early |
| Pm4Stream.SwapTwice | src/libgpu/src/pm4_processor.cpp:17-22 | swapping the bytes of a word twice gives the word |
| Pm4Stream.HeaderFields | src/libgpu/latte/latte_pm4_writer.h:27-32 | a written header reads back its type, size and opcode, and is never zero |
| Pm4Stream.StreamRoundTrip | src/libgpu/src/pm4_processor.cpp:14-65 | packets with 1 to 0x4000 words and fillers in any order are dispatched exactly, in order, up to the end of the words |
| Pm4Stream.CutPacket | src/libgpu/src/pm4_processor.cpp:38-39 | the length check lets exactly one cut packet through: the one that lacks its last word |
| Pm4Dispatch.BufferDispatched | src/libgpu/src/pm4_processor.cpp:14-65 | type 0 and type 3 packets and fillers in any order are handed on exactly, in order, and the run ends as the rest of the buffer says: at its end, a zero word, a type 1 header, or a packet that is cut short |
| Pm4Dispatch.EveryBuffer | src/libgpu/src/pm4_processor.cpp:14-65 | every buffer of words is such a run of packets and one of these endings |
| Pm4Packets.PacketSizer.Put | src/libgpu/latte/latte_pm4_sizer.h:19-65 | counts the words of one field |
| Pm4Packets.SizeOfCommand | src/libgpu/latte/latte_pm4_sizer.h:19-70 | the sizer counts exactly the words the writer emits |
| Pm4Packets.PacketWriter.constructor | src/libgpu/latte/latte_pm4_writer.h:17-33 | puts the header with the total size at the current position |
| Pm4Packets.PacketWriter.PutWord | src/libgpu/latte/latte_pm4_writer.h:40-45 | appends one big-endian word |
| Pm4Packets.PacketWriter.PutSpan | src/libgpu/latte/latte_pm4_writer.h:71-85 | copies a span and swaps it in place |
| Pm4Packets.PacketWriter.Put | src/libgpu/latte/latte_pm4_writer.h:40-108 | appends the words of one field |
| Pm4Packets.WriteCommand | src/libgpu/latte/latte_pm4_writer.h:17-108 | a command lies in the buffer as one packet of the sized length, so the destructor check holds |
| Pm4Packets.FieldBack | src/libgpu/latte/latte_pm4_reader.h:29-98 | a field is read back unchanged if and only if register offsets are aligned and within 16 bits of words and constants fit 16 bits |
| Pm4Packets.RegisterWord | src/libgpu/latte/latte_pm4_reader.h:73-80 | register k of a class is the word k, of which the reader takes the low half |
| Pm4Packets.SizeWord | src/libgpu/latte/latte_pm4_reader.h:82-98 | a size n is the word n - 1, up to the wrap of 32 bits |
| Pm4Packets.CommandBack | src/libgpu/latte/latte_pm4_reader.h:29-106 | every field of a command is read back if and only if all of them are recoverable |
| Pm4Packets.PacketReader.Get | src/libgpu/latte/latte_pm4_reader.h:29-98 | one field is read and the position moves past it; reading past the packet aborts |
| Pm4Packets.ReadCommand | src/libgpu/latte/latte_pm4_reader.h:113-119 | a command is read field by field |
| Pm4Machine.SwapBuffer | src/libgpu/src/pm4_processor.cpp:17-22 | a copy of the buffer with every word swapped |
| Pm4Machine.RunCommandBuffer | src/libgpu/src/pm4_processor.cpp:14-65 | the swap loop and the packet loop dispatch what the words define |
| Pm4RoundTrip.EmitAll | src/libgpu/latte/latte_pm4_writer.h:17-108 | commands and fillers written one after the other leave their words in the buffer, swapped |
| Pm4RoundTrip.BufferRoundTrip | src/libgpu/src/pm4_processor.cpp:14-65 | the swaps of writer and processor cancel out: the packets of a written buffer are dispatched exactly, in order, up to its end |
| Pm4RoundTrip.Submit | src/libgpu/src/pm4_processor.cpp:14-65 | a buffer filled by any sequence of commands and fillers and then run dispatches exactly those commands and ends at its end |
| Pm4RoundTrip.CommandsBack | src/libgpu/latte/latte_pm4_reader.h:29-106 | every submitted command arrives with its opcode, and all its fields are read back if and only if all are recoverable |
| Pm4Machine.Processor.SetRegister | src/libgpu/src/pm4_processor.cpp:457-480 | one register, and for the semantic clear register the semantics it selects |
| Pm4Machine.Processor.SetRegisters | src/libgpu/src/pm4_processor.cpp:253-377 | shadow words first if shadowing is on, then the registers |
| Pm4Machine.Processor.LoadRegisters | src/libgpu/src/pm4_processor.cpp:379-455 | remembers the shadow block and copies the listed words |
| Pm4Shadow.SetAllReach | src/libgpu/src/pm4_processor.cpp:267-269 | a run of register writes sets exactly its registers, apart from the semantics that a write of the semantic clear register resets |
| Pm4Shadow.LoadRangesReach | src/libgpu/src/pm4_processor.cpp:379-391 | loading sets exactly the listed registers from the block |
| Pm4Shadow.LoadEstablishes | src/libgpu/src/pm4_processor.cpp:393-455 | a load of a whole class makes every register equal to its shadow word |
| Pm4Shadow.PacketKeepsSame | src/libgpu/src/pm4_processor.cpp:235-391 | any allowed packet keeps every register of a non-context class equal to its shadow word |
| Pm4Shadow.RunsStaySame | src/libgpu/src/pm4_processor.cpp:235-455 | the same over every run of allowed packets |
| Pm4Shadow.ReloadChangesNothing | src/libgpu/src/pm4_processor.cpp:379-455 | loading again from the shadow changes no register at all |
| Pm4Shadow.LoadRunReload | src/libgpu/src/pm4_processor.cpp:235-455 | a load of a whole class, any run of allowed packets and another load: the second load changes no register |
| Pm4Registers.ByteAddresses | src/libgpu/src/pm4_processor.cpp:235-391 | the byte addresses of the register classes and of the registers with side effects |
| Pm4Registers.WriteIs | src/libgpu/src/pm4_processor.cpp:457-480 | a write reaches its own register; through the semantic clear register, bit i sets semantic i to all ones |
| Pm4Registers.WritesAre | src/libgpu/src/pm4_processor.cpp:267-269 | a run of writes, register by register, context registers and resets included |
| Pm4Registers.ContextWrites | src/libgpu/src/pm4_processor.cpp:271-291 | a set packet of the context class, register by register |
| Pm4Registers.DirectWrites | src/libgpu/src/pm4_processor.cpp:235-246 | index type and instance count each reach one register and nothing else |
| Pm4Registers.RangesAre | src/libgpu/src/pm4_processor.cpp:379-391 | after a load of any class a register holds what the last range that reaches it left, and is unchanged if none does |
| Pm4Registers.ContextKeeps | src/libgpu/src/pm4_processor.cpp:235-391 | a context register stays equal to its shadow word under any allowed packet, but for the 32 semantics and the two registers written directly |
| Pm4Registers.ContextDiffers | src/libgpu/src/pm4_processor.cpp:235-480 | after a reset or a direct write of those, it does if and only if it happened to hold that value already |
| TeenyHeapLaws.AllocKeeps | src/common/teenyheap.h:50-84 | an allocation returns an aligned pointer to the asked size in a new block whose bytes were all free, keeps every other allocation, and free and allocated blocks still partition the buffer |
| TeenyHeapLaws.AllocFailsIff | src/common/teenyheap.h:57-67 | the heap reports that nothing fits if and only if no free block can hold padding and size |
| TeenyHeapLaws.AllocIff | src/common/teenyheap.h:50-84 | for any size, zero included: an allocation that finds a block keeps the heap valid if and only if the block is as long as its padding, and for no bytes longer by at most a small remainder (or is an empty block at a known pointer) |
| TeenyHeapLaws.EmptyAllocLoses | src/common/teenyheap.h:79-81 | after an allocation of no bytes, the next one from the same block is never recorded |
| TeenyHeapLaws.FreeKeeps | src/common/teenyheap.h:86-122 | freeing keeps the partition and every other allocation |
| TeenyHeapLaws.AllocConserves | src/common/teenyheap.h:69-81 | no byte is lost or made up by such an allocation, small remainders included |
| TeenyHeapLaws.FreeConserves | src/common/teenyheap.h:98-122 | no byte is lost or made up by a release |
| TeenyHeapLaws.AllocTakes | src/common/teenyheap.h:57-81 | the first block that can hold padding and bytes is taken from its start; a rest of more than 20 bytes stays in its place and a smaller one goes to the allocation; the pointer is the first aligned address |
| TeenyHeapLaws.FreeMerges | src/common/teenyheap.h:98-122 | a freed block becomes one with the first free block it is adjacent to, in that block's place; the list gets longer, by one, if and only if there is none |
| TeenyHeapLaws.FreedIsUsable | src/common/teenyheap.h:98-122 | so an allocation that fits the freed block and its first neighbour together succeeds |
| TeenyHeapLaws.FreedBothWays | src/common/teenyheap.h:98-122 | two allocations that fill a heap, freed in either order, leave it as one block |
| TeenyHeapLaws.RunsPartition | src/common/teenyheap.h:50-122 | over every run of such allocations and any releases, free and allocated blocks partition the buffer and their sizes add up to it |
| TeenyHeapLaws.HeapRuns | src/common/teenyheap.h:19-24 | so they do over every run from a new heap |
| TeenyHeapObject.TeenyHeap.Alloc | src/common/teenyheap.h:50-84 | the loop and the bookkeeping leave the heap the specification defines |
| TeenyHeapObject.TeenyHeap.Free | src/common/teenyheap.h:86-122 | the merging loop leaves the heap the specification defines, which FreeMerges describes; an unknown pointer aborts |
| TeenyHeapObject.TeenyHeap.GetTotalFreeSize | src/common/teenyheap.h:38-48 | the sum of all free sizes |
| TeenyHeapObject.TeenyHeap.GetLargestFreeSize | src/common/teenyheap.h:26-36 | the largest free size |
| InstructionBits.OrAdds | src/libcpu/espresso/espresso_instructionset.cpp:195-201 | or-ing a value that fits into a clear field adds it there |
| InstructionBits.FieldBit | src/libcpu/espresso/espresso_instructionset.cpp:138-149 | the bits of a field, counted from the most significant as in the manual, are those of its value |
| InstructionBits.AddedHere | src/libcpu/espresso/espresso_instructionset.cpp:138-149 | that field then holds the value |
| InstructionBits.AddedAbove | src/libcpu/espresso/espresso_instructionset.cpp:138-149 | fields below it are unchanged |
| InstructionBits.AddedBelow | src/libcpu/espresso/espresso_instructionset.cpp:138-149 | fields above it are unchanged |
| DecoderLaws.BuildOk | src/libcpu/espresso/espresso_instructionset.cpp:258-279 | a node holds a definition exactly if its tests lead there, and a field exactly if a definition tests it there |
| DecoderLaws.DecodeSound | src/libcpu/espresso/espresso_instructionset.cpp:164-186 | for any table, whatever a word decodes to, the word passes all its tests |
| DecoderLaws.DecodeComplete | src/libcpu/espresso/espresso_instructionset.cpp:164-186 | a word that passes a definition decodes to it, when definitions share the first field and have at most one more, no word passes two and no definition begins another |
| DecoderLaws.DecodeIff | src/libcpu/espresso/espresso_instructionset.cpp:164-256 | under these conditions the trie decodes to a definition if and only if isA holds |
| DecoderLaws.EncodePasses | src/libcpu/espresso/espresso_instructionset.cpp:188-204 | a definition with disjoint fields encodes to a word that passes its tests |
| DecoderLaws.DecodeEncode | src/libcpu/espresso/espresso_instructionset.cpp:164-204 | decoding an encoded definition gives it back, when fields are disjoint and no word passes two definitions |
| DecoderLaws.PrefixHidden | src/libcpu/espresso/espresso_instructionset.cpp:170-183 | in any table, a definition that begins another one is never decoded to, whatever the word |
| DecoderLaws.CompleteIff | src/libcpu/espresso/espresso_instructionset.cpp:164-256 | when definitions share the first field and have at most one more: every word that passes a definition decodes to it if and only if no word passes two and no definition begins another |
| DecoderLaws.ExclusivePrefixFree | src/libcpu/espresso/espresso_instructionset.cpp:188-204 | when the fields of each definition are disjoint, it is enough that no word passes two |
| DecoderObject.InstructionTable.AddTable | src/libcpu/espresso/espresso_instructionset.cpp:27-37 | adds a field to a node once |
| DecoderObject.InstructionTable.Initialise | src/libcpu/espresso/espresso_instructionset.cpp:258-279 | the loops build the specified trie |
| DecoderObject.InstructionTable.DecodeInstruction | src/libcpu/espresso/espresso_instructionset.cpp:164-186 | the walk returns what the trie specifies |
| DecoderObject.InstructionTable.Choose | src/libcpu/espresso/espresso_instructionset.cpp:171-178 | the loop over field maps ends at the first child that holds something, or the last |
| DecoderObject.EncodeInstruction | src/libcpu/espresso/espresso_instructionset.cpp:188-204 | the loop or-s all tests together |
| Breakpoints.AddKeeps | src/libcpu/src/cpu_breakpoints.cpp:50-74 | adding keeps addresses unique and the saved code of every breakpoint that was there |
| Breakpoints.RemoveKeeps | src/libcpu/src/cpu_breakpoints.cpp:93-108 | removing takes out the one breakpoint at the address |
| Breakpoints.AddKinds | src/libcpu/src/cpu_breakpoints.cpp:50-74 | after adding, a breakpoint fires every time if the old or the new one did, and no other changes |
| Breakpoints.RunsKinds | src/libcpu/src/cpu_breakpoints.cpp:44-142 | over every run, each address has the breakpoint and the kind that the calls for it make, one after another |
| Breakpoints.RunsTransparent | src/libcpu/src/cpu_breakpoints.cpp:44-207 | over every run of one thread, memory holds the trap exactly at listed addresses and the guest's own instruction can be read back everywhere |
| Breakpoints.Debugger.AddBreakpoint | src/libcpu/src/cpu_breakpoints.cpp:44-84 | lists the address and patches it; the new list and memory are those of the run model |
| Breakpoints.Debugger.RemoveBreakpoint | src/libcpu/src/cpu_breakpoints.cpp:90-111 | unlists the address and restores it; the list stays published even if it is now empty |
| Breakpoints.Debugger.TestBreakpoint | src/libcpu/src/cpu_breakpoints.cpp:119-142 | reports a hit, after which a breakpoint that fires once is gone |
| Breakpoints.Debugger.HasBreakpoint | src/libcpu/src/cpu_breakpoints.cpp:158-173 | whether the address is listed |
| Breakpoints.Debugger.HasBreakpoints | src/libcpu/src/cpu_breakpoints.cpp:148-152 | whether a list was ever published: true whenever a breakpoint is set, and still after the last one is removed |
| Breakpoints.Debugger.GetBreakpointSavedCode | src/libcpu/src/cpu_breakpoints.cpp:191-207 | the guest's own instruction, whatever breakpoints are set |
| BreakpointsRace.NextKeeps | src/libcpu/src/cpu_breakpoints.cpp:20-38 | published lists are never changed and a thread's copy is its own |
| BreakpointsRace.PublishesFaithfully | src/libcpu/src/cpu_breakpoints.cpp:26-37 | each published list is the change applied to the list it replaced |
| BreakpointsRace.ChangesAreAtomic | src/libcpu/src/cpu_breakpoints.cpp:20-38 | over every interleaving the list is what the published changes make of it one after another |
| BreakpointsCalls.CallsAnswered | src/libcpu/src/cpu_breakpoints.cpp:20-38 | in every interleaving, a thread that is back from a call has published its change exactly once, or the list was at some time during the call such that there was nothing to change |
| BreakpointsCalls.ChangesOfCalls | src/libcpu/src/cpu_breakpoints.cpp:20-38 | a published change is that of the latest call of its thread |

## Left out

- Multisample surfaces, compressed depth and the AddrLib library itself; swizzle values are inputs.
- Host memory, file streams, logging, user interfaces, JIT and interpreter bodies, kernel modules and the instruction tables.
- Register bit fields of shaders and textures: kept as words in file order. Floats are their 32-bit patterns.
- The six record kinds of a shader header share one writer and one reader in the model; the kinds differ by shape.
- GFD: bytes read beyond the buffer, which the source leaves undefined, are a failure in the model.
- GfdFile.ReadBlocks: a block whose end wraps past 2^32 is refused; the source's loop goes back to an earlier position, from
  which it may not end (a skipped block of 2^32 - 32 bytes repeats) or may meet another header.
- GfdUniformVars.RoundTripIff: files with uniform variables in which the first one of every shader has equal count, offset and
  block; such a file comes back only if the words behind the list happen to repeat these, record by record.
- TilingHeights.HeightIff: heights below one tile row, where a collision also depends on the number of slabs.
- GfdRoundTrip.RoundTrip: block offsets of 2^20 and more, whose patches are masked, are not covered.
- FastRegionMap: clear while other threads are inside, which the source forbids.
- MemoryMap: reserve and free of the host's address space; freeing a range that passes the end of the
  address space; alignments that are no power of two.
- Interrupts: shutting the timer down through join, which notifies without the mutex; what handlers do besides calling these
  functions. A handler's return into the loop of waitForInterrupt is a new call in the model.
- GfdReaderLaws.FileRead: headers whose block offsets reach 2^20, and texture header blocks longer than the header.
- Pm4Stream.Dispatch: what a span one word past the buffer reads is undefined in the source; the model stops there.
- PM4: spans of elements that are not whole words, the handlers of draw and memory packets, and applying registers to a backend.
- Pm4Shadow.RunsStaySame: the context class, whose semantic clear and direct writes bypass the shadow; Pm4Registers says
  register by register what stays equal there and what does not.
- TeenyHeap: the mutex; calls are taken one at a time.
- TeenyHeapLaws.AllocIff: a block shorter than its padding whose padded end plus the size passes 2^64.
- Decoder: the spr field, whose decoded value differs from the bits that isA compares, aliases and names.
- DecoderLaws.CompleteIff: tables with more than two tests in a definition.
- Breakpoints: guest memory written while several threads change the list at once, unaligned addresses and cache invalidation.
