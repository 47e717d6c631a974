# Verified algorithms of the RABBIT transcoder

This project models the algorithmic parts that the transcoder vendors and proves what they are for,
for all inputs. Every module can be read on its own; `dafny verify dfyconfig.toml` checks them all.

* **KD-tree index** (`Metric`, `ResultSets`, `KdSpec`, `KdPartition`, `KdBuild`, `KdSearch`,
  `KdResults`, `KdTree`). `BuildIndex` permutes the index vector in place and builds a tree with tight
  boxes; `SearchLevel` prunes with an incrementally kept lower bound and feeds a bounded sorted result
  set or a radius set. The main result is that build followed by search gives what a scan over all
  points gives (`BuildThenSearch`, `KnnSearch`, `NearestIsBruteForce`), and, for an error `eps >= 0`,
  that whatever is left out is, scaled by `1 + eps`, no nearer than the worst kept (`LeftOutIsFar`).
* **Pooled allocator** (`PooledAllocator`): chunks of any run are apart and inside their blocks, and the
  books balance exactly as long as the system never refuses memory while bytes are left over.
* **Bitstreams** (`Bits`, `OutputBitstream`, `InputBitstream`, `BitstreamRoundTrip`, `StartCodes`): both
  classes are refined to plain bit strings, written fields come back, substreams are cut out and pasted
  at any alignment, and the start-code count is the number of bytes an escaper inserts.
* **AVC reader** (`AvcLoading`, `AvcReader`, `ExpGolomb`): the two-word window delivers consecutive
  slices of the loaded bits; `ue(v)` and `se(v)` are inverted and exactly the codeword is consumed; the
  loaded bytes are compared with those of the standard decoder.
* **MD5** (`Md5Spec`, `Md5Transform`, `Md5`, `Md5Known`): the unrolled transform and the incremental
  context give the digest of RFC 1321 however the message is cut; two of its known answers are worked out
  step by step.
* **Scan orders** (`Permutations`, `ScanOrder`, `ZScan`, `MsbIndex`): every scan visits every cell once, grouped scans
  keep 4x4 groups together, the Z-scan tables are permutations inverse to each other and agree with the
  bit-interleaving index.

Modelling decisions. Coordinates and distances are exact reals; the largest value of the distance type
is a parameter, and points at or above it are never returned. Machine words of the bit-level code are
naturals with explicit remainders; a zero byte shifted by 32 is zero; MD5 words are 32-bit vectors. The
bounding box that `divideTree` updates through a reference is passed in and returned. The template
parameter for the result set is the datatype `ResultSet` over the two classes. The addresses handed
out by the system's `malloc`, and whether it refuses, are inputs. Assertions of the source on its
callers are preconditions; exceptions are results. The sort of the radius search is modelled by an
insertion sort with the same order. In the Z-scan table the recursion of `initZscanToRasterPccHevc`
calls `initZscanToRaster`; both are read as one function.

Where the code does not do what its comments or its purpose suggest, the code is kept and the exact
condition is proved:

* `PooledAllocator.RunBalance`, `BalanceCondition`, `RefusalUnbalances`: `malloc` books the rest of a
  block as wasted before it asks the system, so a refusal books the same bytes again later; the books
  are off by exactly the bytes left over at the refusals, and balance if and only if every refusal found
  the newest block used up.
* `PooledAllocator.ChunkAligned`, `NeverWordAligned`, `AlignmentWitness`: the comment promises alignment
  to word boundaries, but a chunk is 16-byte aligned if and only if its block starts at 8 modulo 16; with
  16-byte aligned blocks none is.
* `ZScan.InitRasterToZscan`, `SetUpAll`, `TooManyParts`: after any run of set-ups on the same tables, the
  reverse table is the inverse if and only if the width and the height, divided by their shifted values,
  give the side of the table; a block of 20x20 at depth 4 is read as 10x10 parts instead of 8x8, and
  entry 0 is overwritten with 99.
* `ScanOrder.GroupedComplete`, `GroupedTwoByTwo`: the grouped scan writes all entries of the table if and
  only if both sides are multiples of 4; the table of a 2x2 block, for example, keeps what it held.
* `AvcLoading.LoadCharUndoes`, `DropsTooMuch`, `KeepsTooMuch`, `DropsAnother`: `loadChar` counts every
  byte up to 3 as a zero and starts anew at the third, so a genuine 03 behind 01 01 is dropped and an
  inserted 03 behind 01 00 00 is kept. It delivers what the standard decoder delivers if and only if a
  scan with both zero counts finds, in every stretch of 03 bytes, as many dropped by one as by the other.
  Agreement at every single byte is sufficient but not necessary: on 01 00 00 03 03 03 different bytes
  are dropped and the results are equal.

## Model

| member | source | states |
|---|---|---|
| `KdTree.BuildThenSearch` | dependencies/nanoflann/nanoflann.hpp:858-931 | For any points, query and k >= 1: distinct indices with true distances in ascending order, none left out that is nearer than the last one, distances equal to brute force, min(k, N) of them if all distances lie below the sentinel |
| `KdTree.KDTree.KnnSearch` | dependencies/nanoflann/nanoflann.hpp:925-931 | The same promise for an index already built, written to the caller's arrays; fails exactly when there is data but no tree |
| `KdTree.KDTree.RadiusSearch` | dependencies/nanoflann/nanoflann.hpp:945-964 | Only points strictly inside the radius, each once with its true distance, all of those inside after scaling by 1 + eps; ascending by distance, and by index where distances are equal, when sorted |
| `KdTree.KDTree.FindNeighbors` | dependencies/nanoflann/nanoflann.hpp:901-915 | Afterwards every point has been offered or lies, scaled, at or beyond the worst distance; returns whether the set is full; error before the index is built |
| `KdTree.KDTree.SearchLevel` | dependencies/nanoflann/nanoflann.hpp:1206-1254 | From a sum of per-coordinate lower bounds that fits the node, settles every point under it, offers no other, each at most once, and restores the bounds |
| `KdTree.KDTree.SearchFarSide` | dependencies/nanoflann/nanoflann.hpp:1247-1253 | With the divided coordinate's bound moved to the cut, visiting or pruning the far child settles its points; the bound is put back |
| `KdTree.KDTree.ScanLeaf` | dependencies/nanoflann/nanoflann.hpp:1211-1222 | A leaf scan with a worst distance read once settles all its points |
| `KdTree.KDTree.ComputeInitialDistances` | dependencies/nanoflann/nanoflann.hpp:1183-1200 | The sum of the distances to the root box in each coordinate, each attained in the box and a lower bound for every indexed point |
| `KdTree.KDTree.BuildIndex` | dependencies/nanoflann/nanoflann.hpp:858-866 | The index vector is a permutation of 0..N-1 and the tree over it satisfies the tree invariant with a tight root box |
| `KdBuild.DivideTree` | dependencies/nanoflann/nanoflann.hpp:1041-1089 | Terminates, only rearranges its range; leaves tile it with at most leaf-size entries and larger ranges are divided; divlow <= divhigh are the largest coordinate of the left and the smallest of the right side; the box handed back is tight |
| `KdBuild.RangeBox` | dependencies/nanoflann/nanoflann.hpp:1009-1031 | The tight box of a range: bounds every coordinate and is attained on every side |
| `KdPartition.MiddleSplit` | dependencies/nanoflann/nanoflann.hpp:1103-1140 | For count >= 2 a proper split with both sides on their side of the cut, in the middle unless one side of the cut would be cut through; the cut is the value between the smallest and the largest coordinate that is nearest to the middle of the box side |
| `KdPartition.ChooseFeature` | dependencies/nanoflann/nanoflann.hpp:1105-1127 | The first coordinate of widest spread among those whose box side is more than 0.99999 times as long as every side, 0 if there is none |
| `KdPartition.PlaneSplit` | dependencies/nanoflann/nanoflann.hpp:1154-1181 | Only permutes the range and leaves it below, at and above the cut value, with unsigned indices that never step below zero |
| `KdPartition.ComputeMinMax` | dependencies/nanoflann/nanoflann.hpp:1092-1101 | Smallest and largest coordinate over the range |
| `KdSearch.CutBound` | dependencies/nanoflann/nanoflann.hpp:1224-1249 | Beyond the cut, the distance to the cut bounds the divided coordinate's contribution from below |
| `KdSearch.PruneRange` | dependencies/nanoflann/nanoflann.hpp:1250-1252 | A range whose summed lower bound, scaled, exceeds the worst distance holds nothing that matters |
| `KdSearch.WorstShrinks` | dependencies/nanoflann/nanoflann.hpp:133-136 | The worst distance never grows as offers are made |
| `KdResults.LeftOutIsFar` | dependencies/nanoflann/nanoflann.hpp:901-915 | For eps >= 0, every omitted point p has d(p) * (1 + eps) at or above the final worst distance |
| `KdResults.ExactNearest` | dependencies/nanoflann/nanoflann.hpp:925-931 | With eps = 0 the kept pairs are true nearest neighbours |
| `KdResults.NearestUnique` | dependencies/nanoflann/nanoflann.hpp:917-924 | Any two lists of nearest neighbours agree on every distance |
| `KdResults.NearestIsBruteForce` | dependencies/nanoflann/nanoflann.hpp:917-931 | The distances are those of a scan over all points |
| `KdResults.RadiusExact` | dependencies/nanoflann/nanoflann.hpp:933-964 | With eps = 0 a point is returned if and only if it lies strictly inside the radius |
| `KdResults.SortPairsAscending` | dependencies/nanoflann/nanoflann.hpp:193-201 | Sorted pairs with distinct indices ascend by distance, and by index where distances are equal |
| `ResultSets.KNNResultSet.AddPoint` | dependencies/nanoflann/nanoflann.hpp:110-131 | The arrays hold the k best of all offers, the sentinel stays until the set is full |
| `ResultSets.KNNResultSet.WorstDist` | dependencies/nanoflann/nanoflann.hpp:133-136 | The sentinel until the set is full, the largest kept distance afterwards |
| `ResultSets.OfferAll` | dependencies/nanoflann/nanoflann.hpp:86-131 | After any run of offers the arrays hold the k best of them |
| `ResultSets.StableSortSorted` | dependencies/nanoflann/nanoflann.hpp:110-131 | Repeated insertion sorts by distance |
| `ResultSets.StableSortStable` | dependencies/nanoflann/nanoflann.hpp:110-131 | Offers at equal distance keep the order in which they came |
| `ResultSets.StableSortUnique` | dependencies/nanoflann/nanoflann.hpp:110-131 | Sorted and stable determine the list |
| `ResultSets.KBestStep` | dependencies/nanoflann/nanoflann.hpp:110-131 | Inserting into the truncated list gives the truncation of the whole sorted list |
| `ResultSets.RadiusResultSet.AddPoint` | dependencies/nanoflann/nanoflann.hpp:165-169 | The list holds the offers strictly inside the radius |
| `Metric.Distance` | dependencies/nanoflann/nanoflann.hpp:317-340 | The unrolled loop gives the sum of all contributions, or, with a positive bound, a partial sum above the bound |
| `Metric.SquaredEuclidean` | dependencies/nanoflann/nanoflann.hpp:306-347 | L2 is the squared Euclidean distance: q.q - 2 q.p + p.p |
| `Metric.Manhattan` | dependencies/nanoflann/nanoflann.hpp:255-298 | L1 adds up along every path that turns back in no coordinate, is symmetric, and is the length of a step in one coordinate |
| `Metric.MetricsDiffer` | dependencies/nanoflann/nanoflann.hpp:293-347 | From the origin, (3, 0, 0) is nearer than (2, 2, 0) for L1 (3 and 4) and farther for L2 (9 and 8) |
| `Metric.AccumMonotone` | dependencies/nanoflann/nanoflann.hpp:293-347 | A coordinate farther out on the same side contributes at least as much, for L1 and L2 |
| `PooledAllocator.Allocator.Alloc` | dependencies/nanoflann/nanoflann.hpp:515-558 | One request does to the fields what the allocation step says, including the refusal |
| `PooledAllocator.Allocator.FreeAll` | dependencies/nanoflann/nanoflann.hpp:501-509 | Following the pointers in the first words, every block is freed once, newest first, none is read after it is freed and none is left; the counters are reset |
| `PooledAllocator.BlockSizes` | dependencies/nanoflann/nanoflann.hpp:531-532 | A block has 8192 bytes for chunks up to 8169, otherwise 8 bytes in front of the chunk and 15 behind it |
| `PooledAllocator.BlocksGiven` | dependencies/nanoflann/nanoflann.hpp:530-548 | Every block of a run has the address given for some request, and the size for that request |
| `PooledAllocator.UsedIsReturned` | dependencies/nanoflann/nanoflann.hpp:515-558 | Over any run usedMemory is the sum of the sizes of the chunks returned |
| `PooledAllocator.RunHoused` | dependencies/nanoflann/nanoflann.hpp:515-558 | Over any run every chunk from the first non-empty one on, empty ones included, lies in a block, whole words behind its header; empty chunks before it are at the unset location |
| `PooledAllocator.RunSafe` | dependencies/nanoflann/nanoflann.hpp:515-558 | If the blocks of the system are apart, these chunks are pairwise apart |
| `PooledAllocator.RunBalance` | dependencies/nanoflann/nanoflann.hpp:515-558 | used + wasted + remaining + headers exceeds the bytes obtained by exactly what was left over at refusals |
| `PooledAllocator.BalanceCondition` | dependencies/nanoflann/nanoflann.hpp:525-540 | The books balance if and only if every refused request that needed a block found no bytes left over |
| `PooledAllocator.RunConserves` | dependencies/nanoflann/nanoflann.hpp:515-558 | Without refusals the books balance and every request is served |
| `PooledAllocator.RefusalUnbalances` | dependencies/nanoflann/nanoflann.hpp:525-540 | 16 bytes, then 9000 that are refused: 8168 bytes are booked twice |
| `PooledAllocator.ChunkAligned` | dependencies/nanoflann/nanoflann.hpp:464-556 | A chunk of a run is 16-byte aligned if and only if the block it lies in starts at 8 modulo 16 |
| `PooledAllocator.NeverWordAligned` | dependencies/nanoflann/nanoflann.hpp:464-556 | With 16-byte aligned blocks every chunk of a run starts at 8 modulo 16 |
| `PooledAllocator.AlignmentWitness` | dependencies/nanoflann/nanoflann.hpp:542-556 | A first request is answered with address 16 in a block at 8, with 24 in a block at 16 |
| `OutputBitstream.OutputBitstream.Write` | dependencies/PccLibAvcParser/source/PccAvcTComBitStream.cpp:110-152 | Appends the n low bits of the value, 0 <= n <= 32, at any alignment; unused held bits stay zero |
| `OutputBitstream.OutputBitstream.WriteAlignOne` | dependencies/PccLibAvcParser/source/PccAvcTComBitStream.cpp:154-159 | Appends ones up to the byte boundary |
| `OutputBitstream.OutputBitstream.WriteAlignZero` | dependencies/PccLibAvcParser/source/PccAvcTComBitStream.cpp:161-170 | Appends zeros up to the byte boundary |
| `OutputBitstream.OutputBitstream.AddSubstream` | dependencies/PccLibAvcParser/source/PccAvcTComBitStream.cpp:177-190 | Appends all bits of another stream at any alignment of either |
| `OutputBitstream.OutputBitstream.WriteByteAlignment` | dependencies/PccLibAvcParser/source/PccAvcTComBitStream.cpp:192-196 | Appends a one and zeros up to the boundary |
| `OutputBitstream.OutputBitstream.InsertAt` | dependencies/PccLibAvcParser/source/PccAvcTComBitStream.cpp:320-327 | Splices the bits of an aligned stream in at a byte position |
| `OutputBitstream.OutputBitstream.GetNumberOfWrittenBits` | dependencies/PccLibAvcParser/include/PccAvcTComBitStream.h:138-138 | The number of bits appended |
| `OutputBitstream.OutputBitstream.GetNumBitsUntilByteAligned` | dependencies/PccLibAvcParser/include/PccAvcTComBitStream.h:133-133 | The least number of bits that completes the last byte |
| `OutputBitstream.LongWrite` | dependencies/PccLibAvcParser/source/PccAvcTComBitStream.cpp:128-151 | The aligned word pushed as bytes, and the bits held back, are the old bits followed by the new ones |
| `BitstreamRoundTrip.Run` | dependencies/PccLibAvcParser/source/PccAvcTComBitStream.cpp:110-190 | After any run of writes, alignments and nested substreams the stream holds the plain concatenation and its bit count is its length |
| `BitstreamRoundTrip.RoundTrip` | dependencies/PccLibAvcParser/source/PccAvcTComBitStream.cpp:110-314 | Fields of 0 to 32 bits written, aligned and read back with the same widths have the same values |
| `BitstreamRoundTrip.WriteAligned` | dependencies/PccLibAvcParser/source/PccAvcTComBitStream.cpp:110-170 | The bytes are the encoding filled up with ones or zeros to the boundary |
| `BitstreamRoundTrip.AlignmentRoundTrip` | dependencies/PccLibAvcParser/source/PccAvcTComBitStream.cpp:192-411 | What writeByteAlignment appends, readByteAlignment accepts and skips, at every alignment |
| `InputBitstream.InputBitstream.Read` | dependencies/PccLibAvcParser/source/PccAvcTComBitStream.cpp:254-314 | The unread bits are the n bits of the result followed by the bits still unread; the counter moves by n modulo 2^32 |
| `InputBitstream.InputBitstream.RestIsSuffix` | dependencies/PccLibAvcParser/include/PccAvcTComBitStream.h:162-172 | Index, held bits and held count stand for a position in the whole stream |
| `InputBitstream.InputBitstream.PseudoRead` | dependencies/PccLibAvcParser/source/PccAvcTComBitStream.cpp:230-251 | The next n bits, padded with zeros behind the end; position restored, the counter of bits read not |
| `InputBitstream.InputBitstream.ExtractSubstream` | dependencies/PccLibAvcParser/source/PccAvcTComBitStream.cpp:358-394 | On both paths the next n bits followed by zeros to a byte boundary, and the parent moves on by exactly n; on the copying path whole bytes past the end are zero |
| `InputBitstream.InputBitstream.TakeBytes` | dependencies/PccLibAvcParser/source/PccAvcTComBitStream.cpp:366-385 | The copying and the bitwise path agree on whole bytes |
| `InputBitstream.InputBitstream.ReadOutTrailingBits` | dependencies/PccLibAvcParser/source/PccAvcTComBitStream.cpp:329-340 | Skips exactly the bits up to the boundary and returns their number |
| `InputBitstream.InputBitstream.ReadByteAlignment` | dependencies/PccLibAvcParser/source/PccAvcTComBitStream.cpp:396-411 | Consumes a one and the zeros up to the boundary and returns their number |
| `InputBitstream.InputBitstream.GetNumBitsLeft` | dependencies/PccLibAvcParser/include/PccAvcTComBitStream.h:213-213 | The number of unread bits |
| `InputBitstream.InputBitstream.GetNumBitsUntilByteAligned` | dependencies/PccLibAvcParser/include/PccAvcTComBitStream.h:212-212 | The distance of the read position to the next byte boundary |
| `StartCodes.CountStartCodeEmulations` | dependencies/PccLibAvcParser/source/PccAvcTComBitStream.cpp:198-228 | Terminates and equals the number of bytes that the one-pass escaper inserts |
| `StartCodes.EscapeRoundTrip` | dependencies/PccLibAvcParser/source/PccAvcTComBitStream.cpp:198-228 | The escaped bytes hold no start code and decode to the original |
| `AvcReader.Reader.Read` | dependencies/PccLibAvcParser/include/PccAvcTDecCAVLC_avc.h:125-143 | The loaded bits not read yet are the 1 to 31 bits of the result followed by the rest |
| `AvcReader.Reader.ReadSlices` | dependencies/PccLibAvcParser/include/PccAvcTDecCAVLC_avc.h:125-143 | Any run of reads delivers consecutive slices of the loaded bits |
| `AvcReader.Reader.SetBuffer` | dependencies/PccLibAvcParser/include/PccAvcTDecCAVLC_avc.h:62-71 | If no load leaves the buffer, the window stands for all bytes that loadChar will deliver up to the size |
| `AvcReader.Reader.LoadBuffer` | dependencies/PccLibAvcParser/include/PccAvcTDecCAVLC_avc.h:177-186 | The next four delivered bytes as a word, first byte highest; unchanged when the size is reached |
| `AvcReader.Reader.ReadUvlc` | dependencies/PccLibAvcParser/include/PccAvcTDecCAVLC_avc.h:74-93 | Inverts ue(v) for code numbers up to 2^31 - 2 and consumes exactly the codeword |
| `AvcReader.Reader.ReadSvlc` | dependencies/PccLibAvcParser/include/PccAvcTDecCAVLC_avc.h:94-114 | Inverts se(v) on the same range and consumes exactly the codeword |
| `AvcReader.Reader.ReadUvlcs` | dependencies/PccLibAvcParser/include/PccAvcTDecCAVLC_avc.h:74-93 | A run of ue(v) codewords comes back in order |
| `AvcLoading.CharsLoaded` | dependencies/PccLibAvcParser/include/PccAvcTDecCAVLC_avc.h:145-175 | Any number of loadChar calls delivers the bytes they consume without each 03 met at a zero count of 2 |
| `AvcLoading.LoadCharUndoes` | dependencies/PccLibAvcParser/include/PccAvcTDecCAVLC_avc.h:145-175 | loadChar delivers what the decoder of the standard delivers if and only if both drop equally many bytes in every stretch of 03 bytes |
| `AvcLoading.ReaderUndoes` | dependencies/PccLibAvcParser/include/PccAvcTDecCAVLC_avc.h:62-71 | What the reader delivers from a buffer starts with the bytes of its payload, decoded as the standard says if and only if the payload passes that scan |
| `AvcLoading.EscapedComesBack` | dependencies/PccLibAvcParser/include/PccAvcTDecCAVLC_avc.h:145-175 | An escaped message comes back if and only if its escaped form passes the scan, in particular if it holds no 01, 02 or 03 |
| `AvcLoading.SameBytesSuffice` | dependencies/PccLibAvcParser/include/PccAvcTDecCAVLC_avc.h:145-175 | If both decoders drop the same 03 bytes, the scan is passed |
| `AvcLoading.SmallRun` | dependencies/PccLibAvcParser/include/PccAvcTDecCAVLC_avc.h:149-173 | Any run of bytes up to 2 is delivered, and the zero count behind it is 1 for odd and 2 for even length |
| `AvcLoading.ThreeBehindRun` | dependencies/PccLibAvcParser/include/PccAvcTDecCAVLC_avc.h:149-173 | A 03 between such a run and a byte above 3 is dropped if and only if the run is even and not empty |
| `AvcLoading.DropsTooMuch` | dependencies/PccLibAvcParser/include/PccAvcTDecCAVLC_avc.h:149-163 | On 01 01 03 05 the genuine 03 is dropped |
| `AvcLoading.KeepsTooMuch` | dependencies/PccLibAvcParser/include/PccAvcTDecCAVLC_avc.h:149-163 | On 01 00 00 03 01 the inserted 03 is kept |
| `AvcLoading.DropsAnother` | dependencies/PccLibAvcParser/include/PccAvcTDecCAVLC_avc.h:149-163 | On 01 00 00 03 03 03 another byte is dropped than the decoder drops, with an equal result |
| `AvcLoading.RoomBehind` | dependencies/PccLibAvcParser/include/PccAvcTDecCAVLC_avc.h:177-186 | Seven bytes behind the size are enough for every load |
| `AvcLoading.WholeWords` | dependencies/PccLibAvcParser/include/PccAvcTDecCAVLC_avc.h:177-186 | A buffer of whole words without 03 may end exactly at the size |
| `ExpGolomb.UePrefixFree` | dependencies/PccLibAvcParser/include/PccAvcTDecCAVLC_avc.h:74-93 | A stream starts with at most one codeword |
| `ExpGolomb.UeComplete` | dependencies/PccLibAvcParser/include/PccAvcTDecCAVLC_avc.h:74-93 | Every stream with n zeros, a one and n bits starts with a codeword |
| `ExpGolomb.SignedRoundTrip` | dependencies/PccLibAvcParser/include/PccAvcTDecCAVLC_avc.h:107-110 | Values and code numbers of se(v) correspond one to one |
| `Md5.HashPieces` | dependencies/libmd5/libmd5.c:49-156 | For every way of cutting a message into updates the digest is that of RFC 1321 on the whole message |
| `Md5.Context.Update` | dependencies/libmd5/libmd5.c:64-106 | The context then stands for the message with the piece appended: blocks folded, rest buffered, bit count modulo 2^64 |
| `Md5.Context.Final` | dependencies/libmd5/libmd5.c:112-156 | The digest of the message, both padding branches, and a wiped context |
| `Md5.Context.constructor` | dependencies/libmd5/libmd5.c:49-58 | The context of the empty message |
| `Md5.CountUpdate` | dependencies/libmd5/libmd5.c:68-73 | Two words with a manual carry count 8 * n modulo 2^64 |
| `Md5Transform.Transform` | dependencies/libmd5/libmd5.c:175-257 | The 64 unrolled steps are the block operation of section 3.4 of RFC 1321 |
| `Md5Transform.ApplyIsAux` | dependencies/libmd5/libmd5.c:158-164 | The macros F1 to F4 are the functions F, G, H and I of section 3.4 |
| `Md5Transform.FourSteps` | dependencies/libmd5/libmd5.c:166-168 | Four macro steps with permuted registers are four steps of the standard with turning registers |
| `Md5Known.DigestOfEmpty` | dependencies/libmd5/libmd5.c:49-156 | The digest of the empty message is d41d8cd98f00b204e9800998ecf8427e |
| `Md5Known.DigestOfAbc` | dependencies/libmd5/libmd5.c:49-156 | The digest of "abc" is 900150983cd24fb0d6963f7d28e17f72 |
| `Md5Spec.OutputWords` | dependencies/libmd5/libmd5.c:147-149 | The digest read as words, low-order byte first, is the registers in order |
| `Md5Spec.LittleEndianByte` | dependencies/libmd5/libmd5.c:139-149 | Byte i of a word is its digit of 256^i |
| `Md5Spec.RotateBit` | dependencies/libmd5/libmd5.c:166-168 | Bit j of a word rotated by s is bit j - s modulo 32 of the word |
| `Md5Spec.FoldConcat` | dependencies/libmd5/libmd5.c:92-101 | Folding whole blocks first and the rest afterwards is folding all |
| `ScanOrder.ScanGenerator.GetNextIndex` | dependencies/PccLibAvcParser/source/PccAvcTComRom.cpp:119-223 | Returns the index of the current cell and takes one step of the scan |
| `ScanOrder.VisitedOnce` | dependencies/PccLibAvcParser/source/PccAvcTComRom.cpp:103-224 | For every width, height and scan type each cell is reached at its rank and at no other time |
| `ScanOrder.NthRank` | dependencies/PccLibAvcParser/source/PccAvcTComRom.cpp:119-223 | The n-th cell lies in the block and has rank n |
| `ScanOrder.DiagOrder` | dependencies/PccLibAvcParser/source/PccAvcTComRom.cpp:128-146 | The diagonal scan goes by line + column, then by column |
| `ScanOrder.HorOrder` | dependencies/PccLibAvcParser/source/PccAvcTComRom.cpp:151-163 | The horizontal scan goes by line, then by column |
| `ScanOrder.VerOrder` | dependencies/PccLibAvcParser/source/PccAvcTComRom.cpp:167-179 | The vertical scan goes by column, then by line |
| `ScanOrder.TravOrder` | dependencies/PccLibAvcParser/source/PccAvcTComRom.cpp:183-213 | The traverse scan goes by line, forwards on even lines and backwards on odd ones |
| `ScanOrder.UngroupedScan` | dependencies/PccLibAvcParser/source/PccAvcTComRom.cpp:278-290 | The table is a permutation of the block in the order of the scan |
| `ScanOrder.GroupedScan` | dependencies/PccLibAvcParser/source/PccAvcTComRom.cpp:296-329 | Writes the runs of the whole groups and leaves the other entries as they were; a permutation of the block when both sides are multiples of 4 |
| `ScanOrder.RunIsGroup` | dependencies/PccLibAvcParser/source/PccAvcTComRom.cpp:312-328 | Each aligned run of 16 entries is exactly one 4x4 group |
| `ScanOrder.GroupedComplete` | dependencies/PccLibAvcParser/source/PccAvcTComRom.cpp:296-329 | On a table that held no place of the block, the scan leaves a permutation, and changes every entry, if and only if both sides are multiples of 4 |
| `ScanOrder.GroupedTwoByTwo` | dependencies/PccLibAvcParser/source/PccAvcTComRom.cpp:296-329 | The table of a 2x2 block keeps its four old entries |
| `ZScan.BuildZscanTables` | dependencies/PccLibAvcParser/source/PccAvcTComRom.cpp:365-396 | The tables are permutations inverse to each other, and the entry at the interleaved index of (x, y) is y * stride + x |
| `ZScan.InitZscanToRaster` | dependencies/PccLibAvcParser/source/PccAvcTComRom.cpp:365-382 | Writes the recursive table behind the pointer, moves it on, and touches nothing else |
| `ZScan.InitRasterToZscan` | dependencies/PccLibAvcParser/source/PccAvcTComRom.cpp:384-396 | The last place of a value is recorded; this is the inverse if and only if no place read behind the current table holds a value of it, which on any table set up for any depths is if and only if both part counts equal the side |
| `ZScan.SetUpAll` | dependencies/PccLibAvcParser/source/PccAvcTComRom.cpp:365-396 | After any run of set-ups of the two tables, with depths in any order, they are inverse if and only if the part counts of the last one fit |
| `ZScan.TooManyParts` | dependencies/PccLibAvcParser/source/PccAvcTComRom.cpp:384-396 | Set up for a block of 20x20 at depth 4, the tables are not inverse, and raster position 0 holds 99 |
| `ZScan.ZTableAt` | dependencies/PccLibAvcParser/source/PccAvcTComRom.cpp:365-382 | The table at the interleaved index of (x, y), for every depth, start and stride |
| `ZScan.ZTablePermutation` | dependencies/PccLibAvcParser/source/PccAvcTComRom.cpp:365-382 | The table of every depth is a permutation |
| `ZScan.GetZScanIndex` | dependencies/PccLibAvcParser/source/PccAvcDebug.cpp:262-279 | Interleaves the bits of 16-bit x and y |
| `ZScan.Deinterleave` | dependencies/PccLibAvcParser/source/PccAvcDebug.cpp:262-279 | x and y can be read back from the even and odd bits |
| `MsbIndex.InitMsbP1IdxLut` | dependencies/PccLibAvcParser/source/PccAvcTComRom.cpp:226-238 | The table holds the number of significant bits of every byte |
| `MsbIndex.GetMsbP1Idx` | dependencies/PccLibAvcParser/source/PccAvcTComRom.cpp:240-249 | The number of significant bits of any value |

## Left out

- nanoflann `saveIndex`/`loadIndex`, the Eigen adaptor, `CArray` and user-supplied bounding boxes: file formats and container wrappers.
- Floating-point rounding, NaN and overflow of coordinates, distances and `size_t`: arithmetic is exact.
- KdBuild.DivideTree: does not fix which boxes are handed to the recursive calls, since the result holds for any box; they only steer the shape of the tree.
- KdTree.KDTree.SearchLevel: does not say which child comes first or how many nodes are visited, only what the search settles.
- KdTree.KDTree.KnnSearch: k = 0 is not modelled; the source then reads in front of the caller's array.
- Ties between equal distances across leaves, and the FIRST_MATCH build option: which of several equally distant points is kept depends on the visiting order.
- PooledAllocator.Allocator.FreeAll: the first words of the blocks are kept apart from the chunks; that no caller writes in front of a chunk is taken for granted.
- `readByte`, `peekPreviousByte` and the emulation-location list of the input stream: plain accessors.
- AvcReader.Reader.Read: reads past the loaded data, where the window keeps stale words, are excluded by a precondition; so are lengths 0 and 32.
- AvcReader.Reader.SetBuffer: loads that would leave the buffer, which the source does not check for, are excluded by a precondition.
- The table T of RFC 1321 is given as its 64 constants; that they are sines is not proved.
- The big-endian build of MD5 and its C++ wrapper.
- Parameter-set parsing, SEI, slice and NAL containers, option parsing, context tables and transform matrices.
