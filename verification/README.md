# Model of the standard file and compression library

The library stores meteorological fields and reports in XDF files.  This project models the
parts of it whose correctness is hardest to see, and proves what they promise:

* **The lossless compressors.** Tokens go into a stream of 32-bit words through the `stuff`
  macro and come back through `extract` (`BitStream`, on the bit arithmetic of `Words`).  Three
  coders share a parallelogram predictor with 3x3 tiles (`Grid`, `Parallelogram`,
  `ParallelogramPack`, `ParallelogramUnpack`), a fourth one subtracts the minimum of 5x5 tiles
  (`Minimum`), and signs are run-length coded (`Rle`).  What the codes look like is also said
  without them: how long they are from the size of the errors (`ParallelogramSize`,
  `MinimumSize`), where each token is (`ParallelogramLayout`, `MinimumSize`), and which bytes a
  run gives (`RleRuns`).  `ArmnCompress` is the in-place compressor of 16-bit fields,
  `ArmnCompress32` the one of binary32 fields (the encoding of section 3.4 of IEEE 754-2008,
  taken as 32-bit words), `Fstzip` the header word.  For each coder a function gives the bits
  of a field; the packer is proved to write exactly them, and the unpacker to restore the field
  from them.
* **The XDF file engine.** A random file is an append-only run of extents: directory pages and
  records (`XdfLayout`).  The header counters, the chained directory pages in memory, and the
  words on disk are all tied to that one sequence, and every operation is proved to keep them
  so (`XdfFormat`, `XdfSteps`, `XdfSound`, `XdfClosing`, `XdfFile`); `XdfRewrite` says what a
  write does to the extents and what is read afterwards.  `XdfScan` holds the raw scans of a
  closed file (diagnosis and compaction), `XdfSearch` the searches with a cursor, `GenericKeys`
  the packed keys and masks that they compare, `KeySearch` what a search by keys finds,
  `SeqFile` the sequential variant, `WordDisk` the disk as a run of words.
* **The BURP report buffer.**  One array of words holds headers, element lists and packed
  values; it is proved to refine a sequence of blocks (`RecordBuffer`, `CompactInteger`,
  `BurpFormat`, `BurpLayout`, `BurpList`, `BurpSteps`, `BurpReport`); `BurpFull` is about reports
  in a full buffer.
* **The indirect Combsort11** of integers (`Combsort`).

Operations that change state are methods of classes or methods on arrays, as in the source;
what they promise is stated on sequences.  The files, header layouts and half-word order are
those of a little-endian machine.

## What the proofs found

Where the code does not do what its comments or its callers expect, the model follows the
code:

* `c_xdfini` accepts record types 1 to 126, but the test for a deleted record also takes type
  126 for a deletion, and closing the file marks such records.  `c_qdfdiag` calls a closed file
  sound if and only if no record of type 126 was left undeleted (`XdfFormat.DeletedTypes`,
  `XdfScan.Diagnose`); `XdfScan.Damaged126` puts one in a new file and closes it.
* The check `record_number > nent` lets the number of the first free slot through.  It is then
  refused if and only if the type found in the slot is 0 or one of those of a deletion
  (`XdfFile.RandomFile.FreeSlotRefused`).  Up to slot 128 the type is 0; past it the memory was
  never set, and `XdfFile.LeftoverAccepted` gives sound files in which the handle is accepted.
  Deleting it then spoils the counters, writing over it goes to the end uncounted or over the
  words at the address that was left (`XdfFile.RandomFile.Delete`, `XdfFile.RandomFile.Put`).
* When a write adds a directory page, or goes to another page, the page number of the search
  cursor does not move with its page.  A search that goes on with handle -1 gives right handles
  if and only if the two agree or nothing is left to find (`XdfSearch.CursorRightIff`).
  `XdfSearch.StalePage` adds a page after a search came to its end; going on finds the new
  record with the handle of another one.
* `c_fstinl` with room for no record misses the first match in its count (`XdfSearch.List`).
* `build_gen_prim_keys` clears the mask only from the word of the first key to that of the last
  one.  What a search finds depends on the keys asked for alone if and only if the mask of the
  other words asks for nothing else (`GenericKeys.KeysDecideIff`, `KeySearch.FreshIff`).
  `KeySearch.PastTheKeys` has a word past the keys, `KeySearch.OutOfOrder` keys that are not
  listed in the order of their words; in both an entry with the keys asked for is not found.
* `create_new_xdf` adds up the lengths of the keys less one each, so that keys can end past the
  room it reserves (`GenericKeys.KeysHeldIff`); a key of one bit gets none
  (`GenericKeys.OneBitKey`).
* `armn_compress` copies one word more than the field has, if and only if the number of points is
  even (`ArmnCompress.CopyInsideIff`): that word gets what was in the scratch storage.
  `ArmnCompress.WordAfterField` has a field of 16 by 16 points.  With several layers the word is
  the first of the second layer, of which the source codes nothing
  (`ArmnCompress.Compressor.RoundTrip`).
* `c_armn_compress32` stores the length of the signs where the length of the mantissas should
  be (`ArmnCompress32.Compress32`); it is right only when both take as many words
  (`ArmnCompress32.LengthWordIff`), and the decoder does not look at it.
* `c_xdfuse` does not look at the errors of `c_xdfput`.  When the directory of a destination is
  full, the records that are dealt to it are lost, and counted as copied (`XdfScan.Compact`).  A
  destination takes all if and only if it has as many vacant entries (`XdfScan.TakesAllIff`), as
  a new one has; `XdfScan.FullDirectory` fills one up.
* The raw-mask code for signs, which the decoder would read as a run-length code, can never be
  chosen, because the run-length code is always short enough (`Rle.NeverStored`).
* The mask of `stuff` removes nothing, since it shifts a signed -1; the bits above those that
  wait in the last word are leftover, and are pushed out before the word is written
  (`BitStream.StreamOf`).
* Record types from 112 to 126 read like an end of file in a sequential file: skipping forward
  passes a record if and only if its type is below 112 (`SeqFile.SequentialFile.SkipForward`).
  `SeqFile.NeverPassed` writes one that a reader never gets past.
* A sequential handle gives an address back if and only if the address is on the grid of its
  size class (`SeqFile.SeqHandleRoundTrip`).
* Skipping n records forward and n backward comes back if and only if the n records were there
  and each could be passed, or the position was the first one
  (`SeqFile.SequentialFile.ThereAndBack`).
* A block that is added with 0 bits a value and only missing values is given no width; this is
  the one case where `burp_nbit_datyp` fails unsigned values (`BurpFormat.WidthIsEnough`).  The
  block takes no words for its values but says 32 bits (`BurpReport.Report.Add`), and reading it
  gives the words that happen to follow the report (`BurpReport.Report.XtrWithoutWidth`).
* `c_mrbrep` does not look at what `c_xdfins` returns.  A block gets its new values, and the others
  keep theirs, if and only if the words by which it grows are not refused
  (`BurpReport.Report.Rep`).  If they are, its header has the new width and the offsets of the
  blocks after it have changed, but nothing has moved (`BurpFull.HeadersLeft`,
  `BurpFull.BodiesLeft`); and if the values go into the words of the next block, the result is
  still 0.  `BurpFull.SilentLoss` loses the second of two blocks that way.
* `c_mrbadd` leaves the list and the header of a block in the report when its values are refused;
  the bodies are then looked for four words too early (`BurpFull.BodiesPushed`,
  `BurpFull.HeaderOnly`).  Its list is written without a check; the check on its header cannot fail
  unless the list went outside the data (`BurpReport.HeaderNeverRefused`).
* The loop of `c_mrbadd` that should clear a block header does not move its pointer.  For a block
  with large dimensions the small fields for the second and third are then not set; the model has 0
  in them (`BurpLayout.HeaderOf`), and no reader looks at them.
* The dimension of a report buffer counts the nine words before its data, but the checks of
  `c_xdfins`, `c_xdfadd` and `c_xdfrep` compare positions in the data with it.  A check that
  passes keeps the words inside the data if and only if they end ten words earlier than it asks
  (`RecordBuffer.DimCheckIff`, `RecordBuffer.FullBuffer`).

## Model

| member | source | states |
|---|---|---|
| `BitStream.BitWriter.Stuff` | include/bitPacking.h:126-139 | one token more at the end of the stream; no word outside those flushed changes |
| `BitStream.BitWriter.Position` | include/bitPacking.h:126-139 | a word is flushed only when the next token no longer fits, so that a full last word waits |
| `BitStream.BitWriter.Close` | src/compresseur/armn_compress_32.c:993-1011 | two 16-bit zeros flush every bit, and exactly ceil(bits/32) words are written |
| `BitStream.BitWriter.Squeeze` | src/packers/compact_integer.c:164-170 | the other ending: the waiting bits go to the top of the last word, whose low bits stay |
| `BitStream.StuffFlushes` | include/bitPacking.h:132-136 | the full word and the leftover together continue the stream, although the mask removes nothing |
| `BitStream.BitReader.Extract` | include/bitPacking.h:59-79 | the token is the next n bits of the stream, and what follows is left to read |
| `BitStream.TokenIs` | include/bitPacking.h:59-79 | a token is known from its bits |
| `BitStream.PackStream` | src/compresseur/armn_compress_32.c:993-1011 | the words from `start` on hold the tokens one after the other |
| `BitStream.UnpackStream` | src/compresseur/armn_compress_32.c:1013-1022 | whatever tokens were packed are restored, for every width up to 32 |
| `BitStream.PackMixed` | include/bitPacking.h:126-139 | the same for tokens that each have their own width |
| `BitStream.UnpackMixed` | include/bitPacking.h:59-79 | read with the same widths, they are all restored |
| `Grid.AllPoints` | src/compresseur/armn_compress_32.c:456-565 | every position of a field is that of exactly one column and row |
| `Grid.PointsOfTile` | src/compresseur/c_zfstlib.c:730-741 | a tile takes its points from those left, and no other |
| `Grid.SignExtension` | src/compresseur/c_zfstlib.c:838-855 | shifting up and down by sign undoes the truncation to n bits of any number that fits n bits |
| `Grid.BitLengthOfHigh` | src/compresseur/c_zfstlib.c:742-752 | the table of logarithms looked up with the high byte gives the same bit length |
| `Parallelogram.ResidualBound` | src/compresseur/c_zfstlib.c:691-696 | second differences of n-bit tokens stay within twice their range |
| `Parallelogram.WidthsFit` | src/compresseur/c_zfstlib.c:742-779 | every width code, with 15 for 16, fits its container, is never the one that is left out, and every error fits its width |
| `Parallelogram.ContainerFits` | src/compresseur/c_zfstlib.c:698-710 | the 4- or 5-bit container chosen for a field suits each of its tiles |
| `Parallelogram.FieldCodeBound` | src/compresseur/c_zfstlib.c:646-789 | the whole code takes at most 3 bits and a fixed number of bits a point |
| `Parallelogram.PointsInside` | src/compresseur/c_zfstlib.c:720-741 | first row, first column and tiles make up the field |
| `ParallelogramPack.Residuals` | src/compresseur/c_zfstlib.c:681-696 | the 32-bit arithmetic gives the true prediction error at each point |
| `ParallelogramPack.ChooseContainer` | src/compresseur/c_zfstlib.c:698-710 | the container of the 16-bit coder is 5 bits wide exactly when some error needs more than 16 bits |
| `ParallelogramPack.StuffTiles` | src/compresseur/armn_compress_32.c:518-557 | all the tiles are written, or the coder gives up exactly when a tile with errors leaves too few words |
| `ParallelogramPack.PackTokens` | src/compresseur/armn_compress_32.c:456-565 | the words hold the code of the field, its length is that of the code and at most what the largest error needs for every point, and the result is 0 exactly when the coder gives up |
| `ParallelogramSize.NeedsBitLength` | src/compresseur/c_zfstlib.c:742-752 | all errors of a tile are below 2^b and not all below 2^(b-1) if and only if the bit length of the largest one is b |
| `ParallelogramSize.TileLength` | src/compresseur/c_zfstlib.c:742-779 | a tile takes its container and, unless its errors are all 0, the bits of the largest one and a sign for each point; 17 where the 16-bit coder would need 16 or 17 |
| `ParallelogramSize.FieldLength` | src/compresseur/c_zfstlib.c:646-789 | with errors below 2^b the whole code takes 3 bits, the first row and column, a container a tile and what b bits need for every other point, at most |
| `ParallelogramSize.GivesUpIff` | src/compresseur/armn_compress_32.c:552-555 | the 32-bit coder gives up if and only if after some tile with errors fewer words are left than the test asks |
| `ParallelogramSize.EnoughLeft` | src/compresseur/armn_compress_32.c:552-555 | so it does not when the whole code leaves room for the widest tile |
| `ParallelogramSize.TooFewLeft` | src/compresseur/armn_compress_32.c:552-555 | and it does when too few words are left after some tile with errors, whatever its width |
| `ParallelogramLayout.NoErrorsIff` | src/compresseur/c_zfstlib.c:691-696 | the predictor is right everywhere if and only if every token is the sum of a number for its column and one for its row |
| `ParallelogramLayout.SumLength` | src/compresseur/c_zfstlib.c:646-789 | the points inside such a field take nothing but the containers of their tiles |
| `ParallelogramLayout.StartsWithContainer` | src/compresseur/c_zfstlib.c:698-718 | the first three bits are 5 for the 32-bit coder, and for the 16-bit one when an error needs more than 16 bits, and 4 otherwise |
| `ParallelogramLayout.BorderAt` | src/compresseur/c_zfstlib.c:718-728 | then come the tokens of the first row and of the first column, each at its place |
| `ParallelogramLayout.CellAt` | src/compresseur/c_zfstlib.c:753-785 | where in a tile each error is, on the width that the largest one needs |
| `ParallelogramUnpack.TakeTiles` | src/compresseur/c_zfstlib.c:821-859 | the tiles cover every interior point, each with its own error |
| `ParallelogramUnpack.ResidualUndone` | src/compresseur/c_zfstlib.c:861-869 | adding an error to the prediction gives the point back in the storage of its coder |
| `ParallelogramUnpack.Reconstruct` | src/compresseur/armn_compress_32.c:628-636 | row by row, the predictor is undone over the whole field |
| `ParallelogramUnpack.UnpackTokens` | src/compresseur/armn_compress_32.c:568-639 | whatever field was packed is restored, by each of the three coders |
| `Minimum.CodesFit` | src/compresseur/c_zfstlib.c:498-563 | every width code fits 4 bits, and every difference from the minimum its width |
| `Minimum.MinCodeBound` | src/compresseur/c_zfstlib.c:498-572 | the code takes at most 24 bits a point, and at most 4 + 2n for tokens of n <= 4 bits |
| `Minimum.PackTokensMinimum` | src/compresseur/c_zfstlib.c:469-590 | the words hold the code of the field, and its length is that of the code |
| `MinimumSize.TileLength` | src/compresseur/c_zfstlib.c:498-563 | a tile takes 4 bits, its smallest token and for each point just the bits that the largest difference needs, or 16 bits a token |
| `MinimumSize.FieldLength` | src/compresseur/c_zfstlib.c:498-563 | so for the whole code, when no tile spans more than b bits |
| `MinimumSize.StartsWithWidth` | src/compresseur/c_zfstlib.c:532-538 | a tile starts with the width, 15 for 16, and the smallest of its tokens |
| `MinimumSize.CellAt` | src/compresseur/c_zfstlib.c:540-565 | where in a tile each token is, less the smallest one or whole |
| `Minimum.UnpackTokensMinimum` | src/compresseur/c_zfstlib.c:593-642 | whatever field was packed is restored |
| `Fstzip.HeaderRoundTrip` | src/compresseur/zfstlib.h:47-53 | a reader finds the parameters that the writer put in the header word |
| `Fstzip.HeaderBits` | src/compresseur/zfstlib.h:47-53 | which bits of the header word hold what |
| `ArmnCompress.CodeFits` | src/compresseur/c_zfstlib.c:116-117 | either code, with its header, fits the ni*nj scratch words |
| `ArmnCompress.ShortsAreTokens` | src/compresseur/c_zfstlib.c:119-141 | swapping the halves puts the tokens in memory order, and swapping again restores them |
| `ArmnCompress.Zip` | src/compresseur/c_zfstlib.c:207-257 | the header, then the code of the chosen method |
| `ArmnCompress.Unzip` | src/compresseur/c_zfstlib.c:261-292 | decodes by the method that the header names |
| `ArmnCompress.Compressor.Compress` | src/compresseur/c_zfstlib.c:67-179 | -1 exactly when the field cannot be compressed, with the field as it was; otherwise the field is replaced by its stream, that is no longer and says the method that the level and the sizes ask for |
| `ArmnCompress.Compressor.Uncompress` | src/compresseur/c_zfstlib.c:181-200 | the tokens of whatever field was compressed are back in place; the word after an even number of them comes from the scratch storage, and no later word changes |
| `ArmnCompress.Compressor.RoundTrip` | src/compresseur/c_zfstlib.c:67-203 | whichever coder is chosen, compressed or not, swapped or not, every token of the layer is found again; the whole field is with one layer or when it is not compressed |
| `ArmnCompress.Compressor.NarrowTokens` | src/compresseur/c_zfstlib.c:132-158 | tokens of at most 4 bits are always compressed, but for fields of at most 16 points |
| `ArmnCompress.Compressor.SmallErrors` | src/compresseur/c_zfstlib.c:132-170 | fields whose errors are small enough are compressed |
| `ArmnCompress.Compressor.SumsCompressed` | src/compresseur/c_zfstlib.c:132-170 | so are fields that the predictor gets right everywhere |
| `ArmnCompress.CopyInsideIff` | src/compresseur/c_zfstlib.c:189 | the copy stays within the field if and only if its number of points is odd |
| `ArmnCompress.WordAfterField` | src/compresseur/c_zfstlib.c:181-200 | a field of 16 by 16 points that is compressed and restored, and the word after it is overwritten |
| `Rle.CodeBound` | src/compresseur/armn_compress_32.c:842-894 | at most eight bits for every seven values |
| `Rle.NeverStored` | src/compresseur/armn_compress_32.c:178-182 | from 256 points on the run-length code never exceeds a quarter of the points, so the raw mask is never stored |
| `RleRuns.ShortRun` | src/compresseur/armn_compress_32.c:847-855 | where a run of fewer than 8 values starts, a zero and the next seven values |
| `RleRuns.OneByte` | src/compresseur/armn_compress_32.c:883-889 | a run from 8 to 61 values is one byte |
| `RleRuns.LongRun` | src/compresseur/armn_compress_32.c:856-894 | a longer run: 62 in one byte, then 255 in each byte of ones while more than 256 are left, then 62 in each byte, and the few left |
| `RleRuns.EqualSigns` | src/compresseur/armn_compress_32.c:856-894 | a mask of equal values takes 8 bits for every 255 of them and at most 48 more |
| `Rle.OnesByte` | src/compresseur/armn_compress_32.c:869-889 | the byte of ones is a count of 63, which no ordinary count is |
| `Rle.Pack1bitRle` | src/compresseur/armn_compress_32.c:827-901 | the words hold the code of the signs, and its length is that of the code |
| `Rle.AheadCount` | src/compresseur/armn_compress_32.c:936-955 | what the decoder reads for a count: 63 only ever stands for 255 more of the value last counted |
| `Rle.UnpackStep` | src/compresseur/armn_compress_32.c:924-957 | each step keeps the decoder in the place where the encoder was, raw groups across a run included |
| `Rle.Unpack1bitRle` | src/compresseur/armn_compress_32.c:904-958 | whatever signs were packed are restored |
| `ArmnCompress32.PartsOfWord` | src/compresseur/armn_compress_32.c:116-131 | shifts and masks pick the sign, the exponent and the kept bits of the mantissa |
| `ArmnCompress32.PartsJoined` | src/compresseur/armn_compress_32.c:395-422 | shifts and ors put them back together, less the bits that were not kept |
| `ArmnCompress32.SignsCombined` | src/compresseur/armn_compress_32.c:116-135 | the or and the and of all words tell whether all signs are equal |
| `ArmnCompress32.SplitWords` | src/compresseur/armn_compress_32.c:116-135 | three arrays of parts, and whether all signs are 0 or all are 1 |
| `ArmnCompress32.ParametersRead` | src/compresseur/armn_compress_32.c:334-349 | all parameters and code combinations are found again in the first two words |
| `ArmnCompress32.PackMantissas` | src/compresseur/armn_compress_32.c:217-242 | the section of the mantissas, or nothing exactly when too few of the words of the packed field are left |
| `ArmnCompress32.Compress32` | src/compresseur/armn_compress_32.c:59-275 | -1 exactly when a dimension is below 16 or a section is too long, and not when both codes are short enough; otherwise the stream of the field, and its length; the length word of the mantissas has the length of the signs |
| `ArmnCompress32.ShortFits` | src/compresseur/armn_compress_32.c:217-233 | codes of the exponents of at most a byte a point, and of the mantissas that leave room for the widest tile, are not too long |
| `ArmnCompress32.TooLongIff` | src/compresseur/armn_compress_32.c:205-233 | too long, in lengths: the exponents take more than a byte a point, or some tile of mantissas leaves too few words |
| `ArmnCompress32.FirstWords` | src/compresseur/armn_compress_32.c:248-260 | what the first two words of a stream say, bit by bit |
| `ArmnCompress32.LengthWordIff` | src/compresseur/armn_compress_32.c:240-244 | that word is right if and only if the signs are coded in as many words as the mantissas |
| `ArmnCompress32.Uncompress32` | src/compresseur/armn_compress_32.c:285-431 | each word of whatever field was compressed, with exactly the low bits not kept cleared |
| `ArmnCompress32.RoundTrip32` | src/compresseur/armn_compress_32.c:59-431 | compressing, then uncompressing, clears just those bits; with 32 bits kept the field is restored |
| `Combsort.GapDecreases` | src/base/ipsort.c:204-217 | the gap decreases until it is 1, the rule for 9 and 10 notwithstanding |
| `Combsort.InversionRemoved` | src/base/ipsort.c:223-232 | exchanging neighbours that are out of order removes exactly one inversion |
| `Combsort.SwapIndices` | src/base/ipsort.c:226-229 | the three exclusive ors exchange two different places |
| `Combsort.Pass` | src/base/ipsort.c:219-232 | a pass keeps the permutation; without exchanges the gap is in order, and with gap 1 each exchange removes an inversion |
| `Combsort.Csorte` | src/base/ipsort.c:190-235 | terminates with a permutation of the indices that sorts the list |
| `Combsort.Ipsorti` | src/base/ipsort.c:238-245 | the same from any index array |
| `WordDisk.ChecksumCancels` | src/fstd98/xdf98.c:899-908 | the checksum put in place of its own old value makes the page cancel out, wherever it is |
| `XdfFormat.DeletedTypes` | src/fstd98/xdf98.c:1069-1072 | the test for a deletion holds of four types, one of which a record may be given |
| `XdfFormat.ClosingTypes` | src/fstd98/xdf98.c:892-896 | which types closing a file takes for deletions |
| `XdfFormat.HandleRoundTrip` | src/fstd98/qstdir.h:262-274 | a handle names one record of one file, and is positive |
| `XdfFormat.FirstWordBits` | src/fstd98/qstdir.h:700-711 | the first word of a record: 8 bits for the type, 24 for the length |
| `XdfFormat.HandleBits` | src/fstd98/qstdir.h:260-262 | which bits of a handle hold what |
| `XdfFormat.HeaderReadBack` | src/fstd98/xdf98.c:1894-1900 | the words of a file header give it back |
| `XdfFormat.HeaderAt` | src/fstd98/qstdir.h:696-742 | which word, and which bits of it, hold what |
| `XdfFormat.PageReadBack` | src/fstd98/xdf98.c:1944-1961 | the words of a directory page give it back |
| `XdfFormat.PageAt` | src/fstd98/qstdir.h:316-352 | which word of a page holds what, and where each of its 256 entries is |
| `XdfFormat.PageSumCancels` | src/fstd98/xdf98.c:899-908 | a page with its checksum set sums up to 0 |
| `XdfFormat.CheckedPage` | src/fstd98/xdf98.c:1955-1961 | all its words on disk from the fifth on cancel out, which is what opening the file checks |
| `XdfLayout.Disjoint` | src/fstd98/xdf98.c:2329-2406 | pages and records are pairwise disjoint, in file order |
| `XdfLayout.Inside` | src/fstd98/xdf98.c:2329-2406 | all of them are within the file |
| `XdfLayout.Covered` | src/fstd98/xdf98.c:2329-2406 | no gap: each unit after the header belongs to one of them |
| `XdfLayout.CountsUpdate` | src/fstd98/xdf98.c:1074-1090 | replacing a record by one of the same length changes nothing but the count of deletions |
| `XdfSteps.WriteElsewhere` | src/fstd98/xdf98.c:2382-2383 | writing over one extent leaves the words of the others in place |
| `XdfSteps.DirectoryAppend` | src/fstd98/xdf98.c:2338-2398 | a new entry keeps the directory in step with the extents |
| `XdfSteps.DirectoryGrows` | src/fstd98/xdf98.c:203-249 | so does a new page |
| `XdfSound.CountersFit` | src/fstd98/xdf98.c:203-249 | the header counts pages and entries, and the last page is full exactly when a new one is due |
| `XdfSound.DeleteKeeps` | src/fstd98/xdf98.c:1074-1090 | marking an entry as deleted keeps the file sound |
| `XdfSound.OverwriteKeeps` | src/fstd98/xdf98.c:2329-2401 | writing in place keeps it sound |
| `XdfSound.AppendKeeps` | src/fstd98/xdf98.c:2338-2406 | appending keeps it sound |
| `XdfSound.NewPageKeeps` | src/fstd98/xdf98.c:203-249 | adding a page keeps it sound |
| `XdfClosing.EraseKeeps` | src/fstd98/xdf98.c:890-898 | marking a deleted record on disk keeps it sound |
| `XdfClosing.PageKeeps` | src/fstd98/xdf98.c:899-909 | rewriting a page with its checksum keeps it sound |
| `XdfClosing.MarksOnDisk` | src/fstd98/xdf98.c:883-920 | on the disk of a closed file a record is marked exactly when it is deleted |
| `XdfClosing.ReopenKeeps` | src/fstd98/xdf98.c:1942-1964 | what reopening reads makes a sound file of the same extents |
| `XdfFile.RandomFile.Create` | src/fstd98/xdf98.c:2981-3078 | a new file: header, one empty page, no records |
| `XdfFile.RandomFile.CountersAgree` | src/fstd98/xdf98.c:2253-2434 | after every run of operations the header counts pages, entries, records left, explicit deletions and the longest record, and the next address is 2*fsiz+1 |
| `XdfFile.RandomFile.FreeSlotRefused` | src/fstd98/xdf98.c:1048-1072 | the handle of the first free slot is refused if and only if the type found there is 0 or a deletion, and always up to slot 128 |
| `XdfFile.AnyLeftover` | src/fstd98/xdf98.c:203-249 | past slot 128 a file is sound whatever a free slot holds |
| `XdfFile.LeftoverAccepted` | src/fstd98/xdf98.c:1048-1072 | sound files in which the handle of a free slot is accepted |
| `XdfFile.RandomFile.Delete` | src/fstd98/xdf98.c:994-1090 | the errors in the order of the checks; otherwise just that record is deleted, and counted; a free slot taken for a record spoils the counters |
| `XdfFile.RandomFile.AddDirPage` | src/fstd98/xdf98.c:182-250 | a page at the end of the file and of the chain, or an error with nothing changed |
| `XdfFile.RandomFile.Put` | src/fstd98/xdf98.c:2202-2435 | the errors; otherwise the record is appended, written in place, or deleted and appended, and every other extent is as it was; over a free slot taken for a record it goes to the end uncounted, or to the address left there |
| `XdfFile.RandomFile.Get` | src/fstd98/xdf98.c:1095-1227 | the errors; otherwise the words of the record as they were last put, or what is at the address left in a free slot |
| `XdfRewrite.AddedAtEnd` | src/fstd98/xdf98.c:2338-2406 | without a handle the record goes to the end, after a page when one is due, and nothing else changes |
| `XdfRewrite.WrittenInPlace` | src/fstd98/xdf98.c:2253-2337 | with a handle and the same length it takes the place of the old one |
| `XdfRewrite.MovedToEnd` | src/fstd98/xdf98.c:2253-2352 | with the negated handle, or another length, it goes to the end and the old one is deleted |
| `XdfRewrite.HandleErrors` | src/fstd98/xdf98.c:1031-1072 | which handles give which error |
| `XdfRewrite.PutThenGet` | src/fstd98/xdf98.c:1095-1227 | a record that was written over another one is read back, and one that was moved is found deleted under its old handle |
| `XdfFile.RandomFile.Close` | src/fstd98/xdf98.c:854-943 | every deletion is marked on disk and every page written; nothing else changes; a checkpoint leaves the file open |
| `XdfFile.RandomFile.Open` | src/fstd98/xdf98.c:1769-2088 | the same header, pages and records are found again, and every page has the right checksum |
| `XdfScan.ScanStep` | src/fstd98/xdf98.c:507-534 | the raw scan stands at each extent in turn, and reads its type, length and address |
| `XdfScan.Diagnose` | src/fstd98/xdf98.c:444-573 | the scan counts pages, records, deletions and the longest record, and says that the file is sound if and only if no record of type 126 is left |
| `XdfScan.Damaged126` | src/fstd98/xdf98.c:444-573 | a new file with one record of type 126, once closed, is called damaged |
| `XdfScan.DealLength` | src/fstd98/xdf98.c:2822-2888 | how many records each destination gets |
| `XdfScan.DealPlace` | src/fstd98/xdf98.c:2822-2888 | record t goes to destination t modulo the number of them, in file order |
| `XdfScan.Compact` | src/fstd98/xdf98.c:2735-2893 | each destination keeps its live records, and after them holds the first of those dealt to it, with their types and data, as many as it has vacant entries for; it is a sound file |
| `XdfScan.TakesAllIff` | src/fstd98/xdf98.c:2862-2878 | nothing is lost if and only if the destination has as many vacant entries as are dealt to it |
| `XdfScan.NewTakesAll` | src/fstd98/xdf98.c:2772-2779 | a new destination takes all that any source deals to it |
| `XdfScan.FullDirectory` | src/fstd98/xdf98.c:197-201 | a file filled up until no page can be added, that takes nothing more |
| `XdfSearch.MatchesAre` | src/fstd98/xdf98.c:3282-3331 | the matches are exactly the handles of the entries that match, under the number that each page is taken for |
| `XdfSearch.MatchesAscend` | src/fstd98/xdf98.c:3282-3331 | each once, in ascending order, for page numbers that fit their field |
| `XdfSearch.FoundAre` | src/fstd98/xdf98.c:3282-3331 | where each match is, and that its handle has the number its page is taken for |
| `XdfSearch.HandlesRightIff` | src/fstd98/xdf98.c:3302-3323 | every handle names the entry it was found at if and only if the page number is right, or nothing is found |
| `XdfSearch.CursorRightIff` | src/fstd98/xdf98.c:1692-1698 | so for a search that goes on from the cursor of a file |
| `XdfSearch.StalePage` | src/fstd98/xdf98.c:2338-2352 | a search at its end, a write that adds a page, and a handle of the wrong page |
| `XdfSearch.MatchIsReadable` | src/fstd98/xdf98.c:1120-1190 | the handle of a match can be read, unless the record has type 126 |
| `XdfSearch.NextMatch` | src/fstd98/xdf98.c:3258-3475 | the first match left, with the others still left; or none, and the position is lost |
| `XdfSearch.Locate` | src/fstd98/xdf98.c:1631-1765 | a search from the start or after a handle gives the least matching handle that is greater, or none if there is none; from the cursor, the first of what was left |
| `XdfSearch.LaterMatches` | src/fstd98/xdf98.c:1669-1674 | the matches from a later place on are the last of those from an earlier one, and the others are before that place |
| `XdfSearch.AfterHandle` | src/fstd98/xdf98.c:1669-1674 | the first match of those after the record of a handle is the least of all matches that is greater than the handle |
| `XdfSearch.List` | src/fstd98/fstd98.c:1863-1934 | the first nmax of all the matches, and the negated count when there are more; one is missed when nmax is 0 |
| `XdfSearch.Next` | src/fstd98/fstd98.c:3098-3128 | one match more of those left |
| `GenericKeys.SetFieldSets` | src/fstd98/xdf98.c:412-425 | setting a key gives it the value cut to its width |
| `GenericKeys.SetFieldKeeps` | src/fstd98/xdf98.c:412-425 | and leaves the other keys of the word alone |
| `GenericKeys.KeyAt` | src/fstd98/xdf98.c:412-435 | which bits of its word a key is |
| `GenericKeys.UpperCaseBits` | src/fstd98/xdf98.c:420-422 | upper case clears one bit of the bytes that are letters |
| `GenericKeys.PreparedBits` | src/fstd98/xdf98.c:420-422 | and only keys of characters are put in upper case |
| `GenericKeys.Pack` | src/fstd98/xdf98.c:392-430 | all the keys that are set, in any order, and a mask with ones just where they are, and what it had before in words outside those of the first and the last key |
| `GenericKeys.PackUnpack` | src/fstd98/xdf98.c:376-440 | unpacking gives each key that was set, prepared and cut, and leaves the others as they were |
| `GenericKeys.MatchIff` | src/fstd98/xdf98.c:3310-3319 | the masked comparison of all words holds if and only if every key that is set agrees, and the words that were not cleared agree under their old mask |
| `GenericKeys.KeysDecideIff` | src/fstd98/xdf98.c:406-430 | the keys that are set decide every comparison if and only if the mask of the words that are not cleared asks for nothing else |
| `GenericKeys.SpanningKeys` | src/fstd98/xdf98.c:406-430 | so they do when the first and the last key listed are in the first and the last word |
| `GenericKeys.KeysHeldIff` | src/fstd98/xdf98.c:3030-3049 | the room reserved for the keys holds them if and only if it holds the last bit of the one that ends last |
| `GenericKeys.OneBitKey` | src/fstd98/xdf98.c:3030-3049 | a key of one bit gets no room |
| `KeySearch.FreshIff` | src/fstd98/xdf98.c:3187-3193 | on a file just opened, the keys decide if and only if they cover every word that is not cleared |
| `KeySearch.PastTheKeys` | src/fstd98/xdf98.c:3310-3319 | an entry with the key asked for that is not found, because of a word no key uses |
| `KeySearch.OutOfOrder` | src/fstd98/xdf98.c:406-430 | keys listed out of order, and an entry that is not found because of a key nobody asked for |
| `KeySearch.EntryFound` | src/fstd98/xdf98.c:3306-3319 | a search by keys finds the entries that are not deleted, with the values asked for, and that agree on what the mask still asks for |
| `SeqFile.SeqHandleRoundTrip` | src/fstd98/xdf98.c:256-268 | a sequential handle gives the address back if and only if it is on its grid |
| `SeqFile.HandleBits` | src/fstd98/qstdir.h:264-267 | which bits of a sequential handle hold what, for each class of addresses |
| `SeqFile.NextClusterAligned` | src/fstd98/xdf98.c:2366-2380 | rounding takes less than 128 words and leads to the grid, across classes too |
| `SeqFile.NextClusterFirst` | src/fstd98/xdf98.c:2365-2380 | and to the first place on the grid, which is where the record ends if that is on it |
| `SeqFile.SequentialFile.Append` | src/fstd98/xdf98.c:2362-2424 | one record more, of any type that may be given, with its data and a postfix that links back; padded up to the first place on the grid, and not at all in small files |
| `SeqFile.SequentialFile.HandlesReach` | src/fstd98/xdf98.c:3214-3253 | every record of a file grown by appends is reached by its handle |
| `SeqFile.ReadForward` | src/fstd98/fstd98.c:3025-3041 | what is on disk at a record and after it, and at the end of the file |
| `SeqFile.ReadBackward` | src/fstd98/fstd98.c:3043-3060 | what is on disk before a record |
| `SeqFile.SequentialFile.Skip` | src/fstd98/fstd98.c:2992-3094 | forward and backward by whole records, stopping at both ends and before a record that looks like an end of file |
| `SeqFile.SequentialFile.SkipForward` | src/fstd98/fstd98.c:3025-3041 | one record forward if and only if there is one and its type is below 112 |
| `SeqFile.AllPassed` | src/fstd98/fstd98.c:3022-3041 | n steps forward are made if and only if n records are there and each can be passed |
| `SeqFile.NeverPassed` | src/fstd98/fstd98.c:3025-3041 | a record of type 112 that is written, and that skipping never gets past |
| `SeqFile.SequentialFile.ThereAndBack` | src/fstd98/fstd98.c:3022-3060 | forward n then backward n comes back if and only if the n records are there and each can be passed, or the position is the first |
| `CompactInteger.Pack` | src/packers/compact_integer.c:103-174 | the low bits of the values one after the other, and no other word changes |
| `CompactInteger.Unpack` | src/packers/compact_integer.c:284-300 | each value that was packed, cut to its width |
| `RecordBuffer.Buffer.Insert` | src/fstd98/xdf98.c:1443-1550 | the words come in at their place, and what follows moves up unchanged; or one of the two errors and nothing changes |
| `RecordBuffer.Buffer.Cut` | src/fstd98/xdf98.c:946-988 | just those words go, and what follows moves down unchanged |
| `RecordBuffer.Buffer.Add` | src/fstd98/xdf98.c:692-776 | the packed values follow what was there, or the dimension check fails and nothing changes |
| `RecordBuffer.Buffer.Replace` | src/fstd98/xdf98.c:2440-2543 | only the words of the values change, to the packed values, be they part of the record or not; or one of the two errors and nothing changes |
| `RecordBuffer.Buffer.Extract` | src/fstd98/xdf98.c:2897-2975 | the values that are stored there |
| `RecordBuffer.DimCheckIff` | src/fstd98/xdf98.c:1478-1481 | a passing check keeps the words inside the data if and only if they end ten words earlier than it asks |
| `RecordBuffer.FullBuffer` | src/fstd98/xdf98.c:715-718 | a full buffer lets two more words through |
| `BurpFormat.HeaderReadBack` | src/fstd98/qstdir.h:658-667 | the four words of a block header give it back |
| `BurpFormat.HeaderBits` | src/fstd98/qstdir.h:658-667 | which bits of the words hold what |
| `BurpFormat.FamilyReadBack` | src/fstd98/burp98.c:513-524 | exchanging the halves of the family twice gives its 12 bits back |
| `BurpFormat.FamilyBits` | src/fstd98/burp98.c:513-524 | the halves that are exchanged |
| `BurpReport.FamilyGiven` | src/fstd98/burp98.c:513-524 | the six low bits of the family, then the descriptor if there is one, or the six high bits |
| `BurpFormat.NbitDatyp` | src/fstd98/burp98.c:286-360 | the width for unsigned values, and when they become signed |
| `BurpFormat.WidthIsEnough` | src/fstd98/burp98.c:320-360 | on that width no value looks missing, if and only if some bit is asked for or some value is not missing |
| `BurpFormat.WidthIsLeast` | src/fstd98/burp98.c:320-360 | on fewer bits, down to those asked for, some value would look missing or lose bits |
| `BurpList.PackList` | src/fstd98/burp98.c:549-570 | the list of elements is laid out two to a word, the last word full |
| `BurpLayout.HeaderIsAsSaid` | src/fstd98/burp98.c:533-548 | a header with flag 1 and three dimensions if and only if one of them is 128, 256, 256 or more; otherwise the dimensions and the first three elements |
| `BurpSteps.SizeInBits` | src/fstd98/burp98.c:549-580 | the size of a body: the elements not in the header and the values, each rounded to 64 bits |
| `BurpSteps.AddedBlock` | src/fstd98/burp98.c:549-578 | list at the end, header after the headers, values at the end: the words of one block more |
| `BurpSteps.DeletedBlock` | src/fstd98/burp98.c:633-641 | the three cuts leave the headers and the bodies of the other blocks |
| `BurpSteps.HeadersWithout` | src/fstd98/burp98.c:649-657 | moving the offsets of the later headers makes them those of the report without the block |
| `BurpSteps.HeadersReplaced` | src/fstd98/burp98.c:947-960 | so it does for a block that got longer |
| `BurpSteps.Bit0IsSum` | src/fstd98/burp98.c:529-531 | the offset of a block is the sum of the sizes of those before it |
| `BurpReport.Report.constructor` | src/fstd98/xdf98.c:1379-1438 | an empty report |
| `BurpReport.Report.Sizes` | src/fstd98/burp98.c:529-657 | after every run, 320 bits, 128 a block and 64 a unit of the bodies, and each offset is the sum of the sizes before |
| `BurpReport.Report.WordsOfBlock` | src/fstd98/burp98.c:529-580 | where the header and the body of each block are in the buffer, what the header says, and how long the body is |
| `BurpReport.Report.Add` | src/fstd98/burp98.c:453-590 | one block more, last, with the elements, values, family and width that its caller gave or its values need, by which the report grows by just the bits that they take, and the others as they were; without width, a block that says 32 bits and has no words; values that are refused leave no block, and a report that is none |
| `BurpReport.HeaderNeverRefused` | src/fstd98/burp98.c:572-575 | the check on the header fails only if the list was written outside the data |
| `BurpReport.Report.Del` | src/fstd98/burp98.c:594-660 | just that block is gone |
| `BurpReport.Report.Rep` | src/fstd98/burp98.c:893-965 | just the values of that block change, and its width if they need more, if and only if the words that come in are not refused; if they are, what is left |
| `BurpFull.HeadersLeft` | src/fstd98/burp98.c:947-960 | after that, the header has the new width and later headers say that their blocks start later |
| `BurpFull.BodiesLeft` | src/fstd98/burp98.c:954-959 | but every body is where it was |
| `BurpFull.IntoTheNext` | src/fstd98/burp98.c:962-964 | the new values end as far in the body of the next block as words were refused |
| `BurpFull.LastEndsOutside` | src/fstd98/burp98.c:954-959 | the last block says that it ends outside the data |
| `BurpFull.SilentLoss` | src/fstd98/burp98.c:893-965 | a full report of two blocks: replacing the first returns 0, and its values are over those of the second |
| `BurpFull.BodiesPushed` | src/fstd98/burp98.c:572-580 | after an addition that is refused each body is four words after the place where it is looked for |
| `BurpFull.HeaderOnly` | src/fstd98/burp98.c:572-580 | a report with a header that no block has |
| `BurpReport.Report.Xtr` | src/fstd98/burp98.c:970-1043 | the elements and the values of the block, missing ones included |
| `BurpReport.Report.XtrWithoutWidth` | src/fstd98/burp98.c:1016-1041 | for a block without width, the words that follow the report |
| `BurpReport.Report.Prm` | src/fstd98/burp98.c:840-889 | the dimensions, type, family, width and offset of the block |
| `BurpReport.Unmask` | src/fstd98/burp98.c:1033-1041 | values that are all ones on their width become missing, and only those were |

## Left out

- BitStream.BitWriter.Stuff: widths from 1 to 31, since the macro shifts a word by its whole size at 32, which C leaves undefined; packing whole words is modelled apart (`CompactInteger.PackWords`).
- ParallelogramUnpack.UnpackTokens: the token width is at most 16 bits for the 16-bit coder, 8 for exponents and 23 for mantissas, and tokens are below it, as the callers make sure.
- ArmnCompress32.Compress32: the caller provides two words a point for the stream; one layer (nk = 1); the bit length of an exponent range, computed from a real number in the source, is taken as the bit length.
- ArmnCompress.Compressor.Compress: the number of bits of the tokens is at least 1, and tokens are below it.
- ArmnCompress.Compressor.Uncompress: the field has room for the word past its last token that the copy of the source takes.
- ArmnCompress.Compressor.RoundTrip: the same room for one word more; which tokens of later layers the stream spares.
- ArmnCompress32.RoundTrip32: two words a point for the stream, as for `ArmnCompress32.Compress32`.
- Combsort.Csorte: indices that were set by the caller are a permutation; the gap division in floating point is taken as a division of reals.
- XdfFile.RandomFile.Delete: a handle does not name slot 256 of a full page, which is past the memory of the page; the counters stay below 2^32.
- XdfFile.RandomFile.Put: slot 256 as above; a length and an address left in a free slot that lead the write outside the file; the size of the file stays below 2^30 units, the limit of its addresses; links to other files are not followed. The entry takes the key words of the record as they are, as for standard files (`build_fstd_prim_keys`); files with generic keys copy only the fields of keys other than -1.
- XdfFile.RandomFile.Get: slot 256 as above; the caller has room for the whole record; the size check of `c_xdfget2` is not modelled.
- XdfFile.RandomFile.Create: the length of the primary keys is given; how the source computes it is `GenericKeys.UnitsOf`.
- XdfSearch.Locate: a handle does not name a page past the end whose number the cursor holds, for the source then uses a page it does not have.
- XdfScan.Diagnose: a file that is not open; on an open file the source compares a header it never read.
- XdfScan.Compact: the destinations have keys as long as those of the source, and stay 0x500000 units below the limit of addresses with the units of the source; comparing the keys themselves.
- SeqFile.SequentialFile.Append: the caller has 128 words after the record, which the padding copies.
- SeqFile.SequentialFile.Skip: files that were opened after they were created, so that the first record is known; no deleted records and no marks of a logical end of file between records.
- SeqFile.SequentialFile.ThereAndBack: the same files.
- SeqFile.SequentialFile.SkipForward: no deleted records and no such marks.
- BurpReport.Report.Add: unsigned integers (data type 2) without values below -1, sizes that the 16-bit and 20-bit fields of the header keep; the list and the header are inside the data, which nothing checks, and the values are or are refused, for a write that passes the check outside the data has no meaning in C.
- BurpReport.Report.Del: room in the buffer for the words that each cut moves down from past the end of the report.
- BurpReport.Report.Rep: as many values as before, that stay unsigned; as for `BurpReport.Report.Add`, words that pass the check are inside the data.
- BurpReport.Report.Xtr: one word after the report, for `extract` looks ahead.
- The words that a half-used 64-bit unit of a report keeps from before are part of the body of a block, whatever they are.
- Character, real and signed data in reports, the signed and floating-point packers, the checks of codes for such data, and `c_mrbhdr`, `c_mrbloc`.
- The interpolating coder (SAMPLE), whose interpolation is in Fortran, and the entropy statistics.
- Disk calls, units, environment variables, logging and Fortran interfaces; one of the latter, `armn_compress_setswap`, sets the level.
- Linked files, files of the 1989 format, and files shared by several writers.
- The packing of standard-file keys; a search takes its target, its mask and the filter as parameters. Keys are next to each other (stride 1), and the file's own search mask, which only `c_fstmsq` changes, is all ones.
- CompactInteger.Pack: no header, no bit offset and stride 1, as for reports.
- CompactInteger.Unpack: the same.
- RecordBuffer.Buffer.Cut: the check of the data type, and the widths that the source gives to the other types.
- RecordBuffer.Buffer.Insert: whole words only, not the other data types.
- RecordBuffer.Buffer.Add: unsigned integers only.
- RecordBuffer.Buffer.Replace: unsigned integers only.
- RecordBuffer.Buffer.Extract: unsigned integers only.
- BurpReport.Report.constructor: the keys of the record, which stay 0.
- BurpFormat.NbitDatyp: which width signed values get.
- Missing-value coding, filters read from text, and interpolation.
- Big-endian layouts, and the byte order on disk.
