# LZX archives: a model and its proofs

LZX is an archive format of the Amiga. This project models the reader of such archives in Dafny,
from single bits up to files, and proves what its parts are for.

The model is in the form of the program: objects that change in place (`InputBuffer`,
`HuffmanTable`, `HuffmanDecoder`, `LzxBlock`, `Crc32`, `Unlzx`) are classes whose methods loop and
assign as the program does, and every such method is proved against a function on values. What the
format promises is proved about these functions.

| file | part of the program |
|---|---|
| `Bits.dfy`, `Errors.dfy` | bit strings and integers, status codes |
| `MmapBuffer.dfy` | the bit reader, refining a sequence of bits with a cursor |
| `CanonicalCode.dfy` | prefix codes from code lengths, with no table in sight |
| `HuffmanTrie.dfy`, `HuffmanWalk.dfy` | the decode array as a forest, and what walking it means |
| `HuffmanStray.dfy`, `HuffmanTable.dfy` | building the array in two passes in place, for complete codes and all others |
| `HuffmanCount.dfy`, `HuffmanCapacity.dfy` | how many nodes that takes, and which codes have room |
| `DecoderSpec.dfy` | the decompressor as functions on a bit sequence |
| `HuffmanDecoder.dfy`, `LzxBlock.dfy` | the decoder and block objects, refining it |
| `DecoderProperties.dfy` | what holds over every run of the decoder |
| `DecoderFaults.dfy`, `FaultyInput.dfy` | exactly when the decoder fails in which way, and input that makes it |
| `TokenRoundTrip.dfy`, `LengthRoundTrip.dfy`, `BlockRoundTrip.dfy` | a reference encoder, undone by the decoder |
| `Encodability.dfy` | every list of code lengths and every file can be encoded |
| `CrcPolynomial.dfy`, `Crc.dfy` | the checksum as polynomial division, and the table-driven program |
| `LzxHandle.dfy`, `ArchiveSpec.dfy`, `ArchiveProperties.dfy`, `Unlzx.dfy` | headers, the listing as a state machine, what it keeps, the listing loop |
| `UnlzxMain.dfy` | viewing a file, the objects put together |
| `ArchiveRoundTrip.dfy`, `ArchiveOfFiles.dfy` | a reference archive writer, undone by the reader; whole archives of files |

How the layers meet: `ResetTable` leaves an array for which `LookupIsDecode` holds; `ReadSymbol`
turns that into reading with the canonical code; `DecrunchInto`, `ReadLiteralTable` and `Data`
carry it up to whole blocks; `UnpackUndoesEncoding` says that this inverts encoding, and
`EverythingCanBePacked` that every file has an encoding; `ListArchive` and `RunKeeps` say which
part of which block belongs to which file; `ArchiveRoundTrips` closes the circle for whole archives.

Some things that may surprise:

- A decode table can be accepted although its lengths do not add up: when the codes of at most T
  bits already use up everything, pass 2 is skipped and longer lengths are ignored
  (src/huffman_table.cc:75). `Complete` is the condition that really decides; `CompleteIffKraft`
  says exactly when it is the Kraft equality, and `OverfullAccepted` shows an input where it is
  not.
- The end-of-file test ignores bits that are already buffered (src/mmap_buffer.cc:156-158), so the
  decoder may stop with tokens left: `StopsWithTokenLeft` says when, and `ByteLeft` gives a case.
  Round trips therefore ask for two more words of input after the last token. Statements about what
  a successful run yields need no padding. `BlocksOfBitsAlone` says what the test amounts to: it
  turns some outcomes into UnexpectedEof and has no other effect on any input.
- `IndexFault` is a status of the model only. It stands for the places where the program would
  index outside an array, and the model says exactly when that happens. Building a table does so
  if and only if the overflow nodes asked for do not fit (`Build`, `NodesUsed`); this counts the
  walk made for the first symbol too many of an over-full code, which follows no code
  (`Stray`). Complete pre-trees and all offset codes have room, but incomplete pre-trees need not
  (`PreTreeOverrun`), nor do complete literal codes (`LiteralTableFits`, `LiteralTableOverrun`). A
  length rebuilt after a repeat code leaves the table of base values if and only if the difference
  exceeds the old length plus 17 (src/huffman_decoder.cc:140, `ParseOneFails`). These are all the
  places: `RunFails`, `HeaderFails` and `UnpackFaults` carry the condition up to whole blocks, and
  `PreTreeFault`, `RepeatFault` and `LiteralFault` give packed bytes for each. Methods stop where it
  happens; what the program does from there on is not modelled.
- A first block with method 1 uses a literal table that was never built, full of zeros: every
  lookup answers symbol 0 and consumes nothing. `NextSymbol` covers it.
- The comment at src/huffman_table.cc:22-23 speaks of a bool; the code returns a status. The one at
  src/huffman_decoder.hh:31 says that the position is updated on success; the code moves it
  before an error as well. The model follows the code.

## Model

| member | source | states |
|---|---|---|
| `MmapBuffer.ReadInTwoSteps` | src/mmap_buffer.cc:140-147 | Reading a bits and then b bits, a + b at most 16, succeeds exactly when one read of a + b bits does, and gives the same bits, the same value (first part low) and the same amount of loaded input |
| `MmapBuffer.LoadingKeepsBits` | src/mmap_buffer.cc:128-132 | Or-ing a big-endian word in above the available bits changes neither the bits still to be delivered nor their order, and keeps the accumulator below 2^available |
| `MmapBuffer.PeekLoaded` | src/mmap_buffer.cc:134-137 | The masked accumulator is the number formed by the next n bits, lowest first |
| `MmapBuffer.ConsumeLoaded` | src/mmap_buffer.cc:142-145 | Shifting the accumulator right removes exactly the first n bits and keeps it below 2^available |
| `MmapBuffer.InputBuffer.ReadWord` | src/mmap_buffer.cc:110-120 | Next two bytes as a big-endian word, or OutOfRange with the position unchanged when fewer than two remain |
| `MmapBuffer.InputBuffer.PeekBits` | src/mmap_buffer.cc:122-138 | Refines the abstract peek: the value of the next n bits, the bits to be delivered unchanged, at most 31 bits loaded; a failure (n above 16, or not enough input) changes nothing at all |
| `MmapBuffer.InputBuffer.ReadBits` | src/mmap_buffer.cc:140-147 | Refines the abstract read: delivers the next n bits and removes exactly those; a failure changes nothing |
| `MmapBuffer.InputBuffer.IsEof` | src/mmap_buffer.cc:156-158 | True exactly when no byte is left unloaded, whatever is still buffered |
| `MmapBuffer.InputBuffer.Skip` | src/mmap_buffer.cc:181-194 | Byte skip: MisalignedData while bits are buffered, UnexpectedEof past the end, otherwise moves by exactly the length |
| `MmapBuffer.InputBuffer.ReadBytes` | src/mmap_buffer.cc:149-172 | The next bytes, copied or viewed, with the errors of a skip and no movement on error |
| `MmapBuffer.InputBuffer.ReadBuffer` | src/mmap_buffer.cc:174-179 | A fresh reader over exactly the next bytes; the reader stays empty on error |
| `CanonicalCode.CodeUnique` | src/huffman_table.cc:48-110 | The canonical code is prefix free: at most one symbol has a code that starts a given bit string |
| `CanonicalCode.CodesOrdered` | src/huffman_table.cc:48-110 | A symbol earlier in the order of length and index owns strings entirely before those of a later one |
| `CanonicalCode.KraftIsPosition` | src/huffman_table.cc:57-60 | The position reached after all codes up to a length is the Kraft sum of these codes |
| `CanonicalCode.ExampleCodes` | src/huffman_table.cc:48-110 | The codes of the example in section 3.2.2 of RFC 1951, bit by bit |
| `HuffmanTrie.FillPlaces` | src/huffman_table.cc:62-68 | The strided fill of pass 1 at the bit-reversed position puts the symbol into exactly the entries whose index starts with its code, and extends the direct table to the next position |
| `HuffmanTrie.StartForest` | src/huffman_table.cc:75-79 | With the unused entries cleared, the direct table is a sound forest without nodes |
| `HuffmanTrie.Grow` | src/huffman_table.cc:92-96 | Creating an overflow node at an empty entry keeps the forest invariant and the trail to the code being placed |
| `HuffmanTrie.Descend` | src/huffman_table.cc:97 | On the way to a code that is being placed every entry is a node, never an earlier leaf, so that a leaf that holds symbol 0 is never taken for an empty entry; the step leads to the child cell |
| `HuffmanTrie.Place` | src/huffman_table.cc:100-101 | Storing the symbol at the end of the walk makes the forest hold exactly the codes up to the new position, which is not past 2^16 |
| `HuffmanStray.AheadIsStray` | src/huffman_table.cc:91-98 | The one walk that follows no code, made for the first symbol too many of an over-full code: how many nodes it adds in the array is a function of the code alone |
| `HuffmanWalk.LookupDecodesLong` | src/huffman_decoder.cc:173-191 | For every input of at least 16 bits the lookup finds a symbol whose code starts the input and consumes exactly that code |
| `HuffmanWalk.LookupIsDecode` | src/huffman_decoder.cc:173-191 | Main theorem of the decode array: for every input of at least T bits, table lookup plus walk returns exactly what the canonical prefix code says, including when the input is too short |
| `HuffmanWalk.DecodesEverything` | src/huffman_decoder.cc:182-186 | An array that was built decodes every string of 16 bits, and the lookup takes at most 16 bits, T of them in the table |
| `HuffmanTables.HuffmanTable.ReverseBits` | src/huffman_table.cc:40-46 | The loop computes the reversal of the low T bits |
| `HuffmanTables.HuffmanTable.FirstPass` | src/huffman_table.cc:48-72 | Fails exactly when the codes of at most T bits are over-full; otherwise the direct table holds exactly these codes and the position is their Kraft sum |
| `HuffmanTables.HuffmanTable.StepDown` | src/huffman_table.cc:92-97 | One step of the pass 2 walk in place: below the top a node is created exactly when the code is the first of its cell, and the forest invariant is kept; at the top the step follows the stray walk |
| `HuffmanTables.HuffmanTable.WalkToLeaf` | src/huffman_table.cc:89-98 | The whole walk of one code, and the stray walk: exactly how many nodes it adds, no room for which is the only failure, and that it ends at the cell of the code |
| `HuffmanTables.HuffmanTable.PlaceLong` | src/huffman_table.cc:88-101 | Pass 2 for one symbol in place: adds exactly the nodes the code needs, and the forest then holds this code as well |
| `HuffmanTables.HuffmanTable.SecondPass` | src/huffman_table.cc:75-109 | IndexFault exactly when the nodes asked for have no room, HuffmanTableError otherwise only for an over-full code; on success the position is the Kraft sum of all codes and all are in the forest |
| `HuffmanTables.HuffmanTable.ResetTable` | src/huffman_table.cc:26-117 | For every vector of lengths, complete or not, exactly which of Ok, HuffmanTableError and an index outside the array is the outcome; Ok if and only if the code is complete and its nodes fit, and then the array decodes the code; with room for any code of these lengths the array is never overrun |
| `HuffmanTables.NodesSettled` | src/huffman_table.cc:101-104 | Once the position has run over the top no further symbol adds nodes, so that the count of all nodes asked for is final |
| `HuffmanTables.RoomyFits` | src/huffman_table.cc:91-98 | A code never needs more nodes than its bits beyond the first T, so the size 2 * (2^(T-1) + sum of len - T) always suffices |
| `HuffmanCount.NodeBalance` | src/huffman_table.cc:91-98 | At every point of pass 2 up to the top, nodes plus table entries reached equal codes placed plus cells left open |
| `HuffmanCount.NodesOfCompleteCode` | src/huffman_table.cc:81-110 | For a complete code the overflow nodes number exactly the long codes minus the table entries that pass 1 left empty |
| `HuffmanCount.NodesBound` | src/huffman_table.cc:81-110 | A complete code over n symbols needs at most n - T - 1 overflow nodes |
| `HuffmanCount.PreTreeFits` | src/huffman_decoder.cc:26 | Every code of 20 symbols that is accepted as complete fits the 96 entries of the 6-bit table |
| `HuffmanCapacity.OffsetTableFits` | src/huffman_decoder.cc:26 | Lengths of three bits never need overflow nodes, so the 128 entries are never overrun |
| `HuffmanCapacity.OneLookupDecides` | src/huffman_decoder.cc:210-212 | One lookup of seven bits always finds the symbol of the offset code |
| `HuffmanCapacity.CompleteCodeFits` | src/huffman_table.cc:91-98 | A complete code has room exactly when the entries that pass 1 leaves empty make up for the long codes |
| `HuffmanCapacity.LiteralTableFits` | src/huffman_decoder.cc:26 | The exact condition for a complete literal code to fit the 5120 entries: no pass 2, or at most 512 long codes more than empty entries |
| `HuffmanCapacity.LiteralTableOverrun` | src/huffman_table.cc:91-98 | Not every complete literal code fits: a vector of 768 lengths with Kraft sum 2^16 asks for 525 nodes where 512 have room |
| `HuffmanCapacity.PreTreeOverrun` | src/huffman_table.cc:91-98 | Not every vector of pre-tree lengths can be rejected in time: twenty lengths of 15 ask for 25 nodes where 16 have room |
| `HuffmanCapacity.OverfullAccepted` | src/huffman_table.cc:75-75 | Ok does not imply a Kraft sum of 2^16: the twenty lengths 1, 1, 7, 0, 0, ... build the 6-bit table with status Ok because pass 2 is skipped |
| `HuffmanCount.CompleteIffKraft` | src/huffman_table.cc:75-114 | Acceptance agrees with the Kraft equality exactly when it is not the case that the short codes alone use everything up while longer ones remain |
| `DecoderSpec.BaseOffsetTable` | src/huffman_decoder.cc:8-13 | The literal table of base offsets is the closed form the proofs use: slot s starts at 2^(s div 2), and halfway to the next power when s is odd |
| `DecoderSpec.SlotsTile` | src/huffman_decoder.cc:8-13 | Each slot ends where the next one starts |
| `TokenRoundTrip.OneSlot` | src/huffman_decoder.cc:8-13 | Every value of 0..65535 is in exactly one of the 32 slots and nothing else is in any; likewise 0..255 and the first 16 |
| `DecoderSpec.SlotBounds` | src/huffman_decoder.cc:8-13 | No slot reaches beyond 65535, no count slot beyond 255, and a slot with three or more extra bits starts at 16 or later |
| `DecoderSpec.NewLength` | src/huffman_decoder.cc:15-16 | A rebuilt length is at most 16, and the table of base values is left exactly when the difference exceeds the old length plus 17 |
| `DecoderSpec.ReadMatch` | src/huffman_decoder.cc:200-228 | Every decoded offset is in 1..65535 and every count in 3..258 |
| `DecoderSpec.ReadHeader` | src/huffman_decoder.cc:29-157 | A header that is accepted consumes at least 27 bits, keeps the last offset, and leaves codes that build, with all lengths at most 16; method 1 keeps the literal code as it was, and after any other method it is complete and fits |
| `DecoderSpec.Round` | src/lzx_block.cc:38-63 | Every iteration that goes on appends output or consumes input |
| `DecoderSpec.Blocks` | src/lzx_block.cc:38-67 | The block loop ends on every input, by the measure (total - pos, remaining bits), and success gives exactly total bytes |
| `HuffmanDecoders.ReadSymbol` | src/huffman_decoder.cc:174-191 | The object-level symbol read (12-bit table, and the same code for 6 and 7 bits) refines decoding with the canonical code on the bit sequence |
| `HuffmanDecoders.WalkDown` | src/huffman_decoder.cc:182-186 | The walk below the table, one bit per node, ends at the symbol of the canonical code and consumes just its bits |
| `HuffmanDecoders.ReadLengths` | src/huffman_decoder.cc:73-77 | Fills all lengths of a table with consecutive numbers of the given width |
| `HuffmanDecoders.ParseZeroRun` | src/huffman_decoder.cc:103-117 | A clipped run of zero lengths, in place |
| `HuffmanDecoders.ParseRepeatRun` | src/huffman_decoder.cc:120-143 | A clipped run of one length, given by the second pre-tree symbol as a difference from the first entry it replaces |
| `HuffmanDecoders.ParseSymbol` | src/huffman_decoder.cc:102-148 | One pre-tree symbol with its run, in place, refines the functional parse |
| `HuffmanDecoders.ParseOnePass` | src/huffman_decoder.cc:73-149 | One pass over the lengths, with its own pre-tree, refines the functional parse, status included |
| `HuffmanDecoders.HuffmanDecoder.constructor` | src/huffman_decoder.cc:25-26 | Three empty tables of the right sizes, last offset 1 |
| `HuffmanDecoders.HuffmanDecoder.ReadOffsetTable` | src/huffman_decoder.cc:36-49 | Method, and the offset code for method 3, with exactly the status of the functional read |
| `HuffmanDecoders.HuffmanDecoder.ReadDecrunchLength` | src/huffman_decoder.cc:52-58 | The 24-bit block length, high byte first |
| `HuffmanDecoders.HuffmanDecoder.ReadLiteralTable` | src/huffman_decoder.cc:29-157 | The whole header: the object ends in the state of the functional header, or fails with exactly its status |
| `HuffmanDecoders.HuffmanDecoder.DecodeToken` | src/huffman_decoder.cc:174-228 | One token off the input, as the functional decoder reads it |
| `HuffmanDecoders.CopyBytes` | src/huffman_decoder.cc:233-236 | The copy loop in place, overlapping or not, equals byte by byte repetition and leaves everything before it alone |
| `HuffmanDecoders.HuffmanDecoder.DecodeStep` | src/huffman_decoder.cc:174-236 | One iteration: target, position, last offset and remaining bits are those of one functional step, with the same error |
| `HuffmanDecoders.HuffmanDecoder.DecrunchInto` | src/huffman_decoder.cc:167-239 | The loop refines the functional run to the threshold |
| `DecoderProperties.CopyRepeats` | src/huffman_decoder.cc:233-236 | A copy at distance d yields old[pos - d + (i mod d)] at pos + i for every i, overlapping or not, and keeps everything before |
| `DecoderProperties.StepOutcome` | src/huffman_decoder.cc:193-236 | One step for every token and every failure: which of OutOfRange and BufferOverflow it is, the byte appended, or the bytes copied by position, with the offset remembered |
| `DecoderProperties.RunAppends` | src/huffman_decoder.cc:173-237 | Over every run: output is only appended, the end is at most threshold + 257 (or the start, if that was past the threshold), the last offset stays in 1..65535 and the codes do not change |
| `DecoderProperties.RunsCompose` | src/huffman_decoder.cc:173-238 | A run can be split at any threshold: status, bytes, last offset and remaining bits equal those of the uninterrupted run |
| `DecoderProperties.ParseAssigns` | src/huffman_decoder.cc:80-149 | A successful pass ends exactly at its limit and changes no length outside its range, so the two passes assign 0..255 and then 256..767 |
| `DecoderProperties.ShortRunIsAtEnd` | src/huffman_decoder.cc:173-173 | A successful run that stops short of its threshold has loaded all its input |
| `DecoderProperties.RoundEnds` | src/lzx_block.cc:52-56 | An iteration answers UnexpectedEof if and only if the last word has been loaded once its block is entered, also for a block of length 0 |
| `DecoderProperties.BlocksOfBitsAlone` | src/lzx_block.cc:38-67 | All that the end-of-file test does: on every input the outcome, success or any failure, is the one that the bits alone determine, if and only if it is not UnexpectedEof |
| `FaultyInput.StopsWithTokenLeft` | src/huffman_decoder.cc:173 | Once the last word is loaded the run stops and reports Ok, although the next token is there in full and would decode |
| `FaultyInput.ByteLeft` | src/huffman_decoder.cc:173 | A decoder and its remaining input on which that happens, for every literal byte |
| `DecoderFaults.RunFails` | src/huffman_decoder.cc:167-239 | The main loop never indexes outside an array, on any input: its only failures are to run out of bits, to copy from before the start, and to run out of room |
| `DecoderFaults.ParseOneFails` | src/huffman_decoder.cc:80-148 | One pre-tree symbol with its run indexes outside an array if and only if it is a repeat code, with its bit, whose second symbol exceeds the old length plus 17; any other failure is to run out of bits |
| `DecoderFaults.ParseOneFills` | src/huffman_decoder.cc:66-148 | What one pre-tree symbol does, and exactly when it succeeds: a run, clipped where the pass ends, fills every entry it covers with zero (17, 18) or with the rebuilt length (19), any other symbol rebuilds one length, and rebuilding is subtraction modulo 17 |
| `DecoderFaults.ParseUntilFails` | src/huffman_decoder.cc:80-149 | A pass over the lengths does so if and only if it comes to such a repeat code |
| `DecoderFaults.PassFails` | src/huffman_decoder.cc:73-149 | A pass with its pre-tree indexes outside an array if and only if the pre-tree table is overrun, or it is built and such a repeat code comes up; HuffmanTableError is the answer if and only if the pre-tree is rejected; otherwise a failure is OutOfRange |
| `DecoderFaults.OffsetsNeverOverrun` | src/huffman_decoder.cc:42-49 | Reading the offset code never indexes outside its table; HuffmanTableError is the answer if and only if the offset code is rejected, and otherwise a failure is OutOfRange |
| `DecoderFaults.HeaderFails` | src/huffman_decoder.cc:29-157 | A header indexes outside an array if and only if it has a literal code in which the first pass does, the second does after a first that succeeds, or the literal table is overrun after both; HuffmanTableError is the answer if and only if one of its tables is rejected; otherwise a failure is OutOfRange |
| `DecoderFaults.RoundFails` | src/lzx_block.cc:38-63 | An iteration of the block loop indexes outside an array if and only if a new block is due and its header does |
| `DecoderFaults.BlocksFail` | src/lzx_block.cc:38-67 | The block loop does so if and only if, after some number of iterations, a block is due whose header does |
| `DecoderFaults.UnpackFaults` | src/lzx_block.cc:8-68 | Unpacking does so if and only if the mode is normal and it comes to such a header |
| `FaultyInput.RepeatRead` | src/huffman_decoder.cc:120-143 | On the bits of a repeat code, its bit and its second symbol, for any pre-tree with codes for them, the parse leaves the table of base values if and only if the difference exceeds the old length plus 17 |
| `FaultyInput.PreTreeOverrunRead` | src/huffman_decoder.cc:73-78 | Twenty lengths of 15 at the start of a pass make it index outside the pre-tree table |
| `FaultyInput.PreTreeFault` | src/huffman_decoder.cc:73-78 | There are packed bytes that overrun the pre-tree table |
| `FaultyInput.RepeatFault` | src/huffman_decoder.cc:140 | There are packed bytes with a repeat code that goes too far, by 18 from a length of 0 |
| `FaultyInput.LiteralFault` | src/huffman_decoder.cc:154 | There are packed bytes with a complete literal code that overruns the literal table |
| `LzxBlocks.LzxBlock.Data` | src/lzx_block.cc:8-68 | First call: stored bytes, the functional decompression of the packed bits, or UnknownCompression, with length total on success and exactly the functional status on failure; later calls change nothing and give the same answer |
| `LzxBlocks.StoredUnpacks` | src/lzx_block.cc:16-23 | Mode 0: the first bytes are the content, and too few of them are UnexpectedEof |
| `LzxBlocks.ModesAre` | src/lzx_block.cc:15-29 | Mode 2 is decompression, and every mode but 0 and 2 is UnknownCompression |
| `LzxBlocks.DecompressAll` | src/lzx_block.cc:31-67 | The block loop refines the functional decompressor over any number of blocks, status included, with codes and last offset carried across and overshoot cut off |
| `LzxBlocks.BlockRound` | src/lzx_block.cc:38-63 | One iteration of the block loop refines one functional round, status included |
| `TokenRoundTrip.ReadCode` | src/huffman_decoder.cc:174-191 | A code followed by 16 more bits is read back with exactly its bits consumed |
| `TokenRoundTrip.ReadTokenBack` | src/huffman_decoder.cc:174-228 | Decoding undoes the reference encoding of any literal or match, also in the aligned form of method 3 and for the repeated offset |
| `TokenRoundTrip.SymbolIsDecode` | src/huffman_decoder.cc:174-191 | Reading a symbol succeeds if and only if the bits the table takes are there and the canonical code decodes them, and then gives that symbol and what follows its code |
| `TokenRoundTrip.ReadTokenExactly` | src/huffman_decoder.cc:174-228 | With whatever follows, nothing included: a written token is read back if twelve bits are there for its symbol and seven for a coded offset, and is OutOfRange otherwise |
| `TokenRoundTrip.TokenWritten` | src/huffman_decoder.cc:174-228 | Nothing else is read: every token the decoder reads with a code that was built is the reference encoding of some literal or match, in exactly the bits it took |
| `TokenRoundTrip.EverythingHasSlots` | src/huffman_decoder.cc:8-13 | Every offset 1..65535 with every count 3..258 can be encoded |
| `TokenRoundTrip.DecrunchUndoesEncoding` | src/huffman_decoder.cc:167-239 | For every sequence of tokens and at least 32 bits after it, the run yields exactly their expansion, the last offset they leave, and the bits that follow |
| `TokenRoundTrip.DecrunchOverflows` | src/huffman_decoder.cc:195 | A run whose last token goes past the capacity answers BufferOverflow |
| `LengthRoundTrip.ParseOneBack` | src/huffman_decoder.cc:102-148 | Parsing undoes the encoding of every run and difference |
| `LengthRoundTrip.ParseUntilBack` | src/huffman_decoder.cc:80-149 | Parsing undoes the encoding of every sequence of runs and differences that fills the range |
| `LengthRoundTrip.ChosenOpsRebuild` | src/huffman_decoder.cc:80-149 | For all old and all new length vectors and any pre-tree with codes for the symbols used, the operations the reference run-length encoder chooses rebuild the new lengths in the range and touch nothing else |
| `BlockRoundTrip.ParseLengthsBack` | src/huffman_decoder.cc:67-152 | Both passes with their pre-trees give back the lengths that were encoded |
| `BlockRoundTrip.ReadHeaderBack` | src/huffman_decoder.cc:29-157 | A whole encoded header, of any method, is read back |
| `BlockRoundTrip.RoundOverflows` | src/lzx_block.cc:33 | A block whose last token runs more than 256 bytes past the whole output answers BufferOverflow |
| `BlockRoundTrip.BlocksUndoEncoding` | src/lzx_block.cc:38-67 | A chain of encoded blocks, whose last tokens may run past their block ends, is decoded to the joined expansion |
| `BlockRoundTrip.UnpackUndoesEncoding` | src/lzx_block.cc:8-68 | End to end from a fresh decoder: packed bytes whose bits are an encoded chain of blocks plus 32 bits of padding unpack to exactly the encoded bytes |
| `Encodability.NotOverfullIsCoded` | src/huffman_table.cc:57-60 | In a code that is not over-full every symbol with a length has a code |
| `Encodability.LengthsRoundTrip` | src/huffman_decoder.cc:67-152 | For all old and all new vectors of 768 lengths in 0..16 and any two pre-trees that are accepted and have codes for the symbols used, parsing what the reference run-length encoder writes gives exactly the new lengths |
| `Encodability.PlanExists` | src/huffman_decoder.cc:67-152 | With complete pre-trees that give every symbol a code, all lengths can be written over all others |
| `Encodability.PackBlocks` | src/lzx_block.cc:31-67 | For any data there is a chain of blocks, the first with a new code and the rest with method 1, that a fresh decoder can be given and that expands to it, in at most eight bits a byte, 27 bits a block and 8608 bits for the code |
| `Encodability.EverythingCanBePacked` | src/lzx_block.cc:8-68 | For every byte sequence, of any length, there are packed bytes that unpack to exactly it, longer by at most 1090 bytes and four for every 16777215 begun |
| `CrcPolynomial.RunConcat` | src/crc.cc:71-73 | Feeding a joined message is feeding its parts in turn |
| `CrcPolynomial.RunLinear` | src/crc.cc:41-47 | The register map is linear in register and message together |
| `CrcPolynomial.RunByTable` | src/crc.cc:72 | Several message bits at once: the run of the first register bits plus message alone, added to the rest of the register moved up |
| `CrcPolynomial.DivisionUnique` | src/crc.cc:23-24 | Quotient and remainder by a polynomial are unique |
| `CrcPolynomial.RemainderIsRun` | src/crc.cc:63-76 | What the register holds after a message is the remainder of its polynomial division, and nothing else is |
| `CrcPolynomial.BurstDetected` | src/crc.cc:70-75 | For any divisor with constant term 1, messages that differ within a window no wider than the register leave different registers |
| `Crc.BitReverse` | src/crc.cc:13-21 | The loop reverses the 32 bits |
| `Crc.ReversedPolynomial` | src/crc.cc:24-27 | Reversing 0x04C11DB7 gives 0xEDB88320 |
| `Crc.DivisorIs` | src/crc.cc:24 | The divisor is x^32 + x^26 + x^23 + x^22 + x^16 + x^12 + x^11 + x^10 + x^8 + x^7 + x^5 + x^4 + x^2 + x + 1 |
| `Crc.TableRound` | src/crc.cc:42-46 | One round of the generator is one register step with message bit 0 |
| `Crc.GenerateLookupTable` | src/crc.cc:36-52 | Entry i is the register i after eight steps |
| `Crc.CalcByte` | src/crc.cc:72 | The table step feeds the eight bits of the byte, lowest first |
| `Crc.Crc32.Calc` | src/crc.cc:63-76 | Continues the sum over the message as the bit-at-a-time register does, under the complement before and after |
| `Crc.UpdateConcat` | src/crc.cc:63-76 | Calculating over two pieces in turn, empty ones included, is calculating over the whole, at every split |
| `Crc.UpdateIsRemainder` | src/crc.cc:63-76 | A number is the checksum if and only if its complement is the remainder modulo x^32 + 0x04C11DB7 of the message times x^32 plus the complemented initial sum at the top |
| `Crc.BitBurstDetected` | src/crc.cc:70-75 | Messages that differ only within 32 consecutive bits, at any alignment, have different checksums |
| `Crc.ByteBurstDetected` | src/crc.cc:70-75 | Messages of one length that differ only within four consecutive bytes have different checksums |
| `LzxHandle.FromBuffer` | src/lzx_handle.cc:10-37 | Ok with the result untouched at the end of input; otherwise the parsed entry, or the error with the result untouched; and exactly where the reader is left in every case |
| `LzxHandle.HeaderSum` | src/lzx_handle.cc:27-30 | The three calls give the checksum of metadata, name and comment joined |
| `LzxHandle.ChecksumCovers` | src/lzx_handle.cc:16-33 | A header is accepted exactly when its stored number is the checksum of the metadata with that field cleared, continued over the name and then the comment, and is ChecksumInvalid otherwise |
| `LzxHandle.CutShort` | src/lzx_handle.cc:14-25 | A written header that is cut short anywhere is UnexpectedEof |
| `LzxHandle.NumbersAre` | src/lzx_handle.hh:149-167 | Sizes, checksum, mode and merged flag of a header, by the positions of their bytes |
| `LzxHandle.LayoutIs` | src/lzx_handle.hh:149-167 | With every field at its place among the 31 bytes, and any values in those that do not concern the reading, each is found again |
| `LzxHandle.ParseProtected` | src/lzx_handle.cc:16-33 | A header with any number in its checksum field is accepted exactly when that number is the checksum over the zeroed field, name and comment, and is ChecksumInvalid otherwise |
| `LzxHandle.ParseIsPrint` | src/lzx_handle.cc:10-37 | A header is accepted if and only if the reference writer could have written it, and then gives that entry and what follows |
| `LzxHandle.ParsedIsWellFormed` | src/lzx_handle.hh:149-167 | Every entry read has the lengths its metadata says and a cleared checksum field, and uses up at least 31 bytes |
| `LzxHandle.DamagedHeaderRejected` | src/lzx_handle.cc:27-33 | If a header is accepted, then the one that differs from it within four consecutive bytes of metadata, name and comment, with the same stored checksum and the same total length, is rejected |
| `ArchiveSpec.NextRecordShrinks` | src/unlzx.cc:55-95 | Every iteration consumes at least 31 bytes |
| `ArchiveProperties.TilesIsPrefixSums` | src/lzx_entry.cc:10-15 | Segments tile a block exactly when their offsets are the prefix sums of their lengths and the sum is the size of the block |
| `ArchiveProperties.TilesJoin` | src/lzx_entry.cc:10-15 | Segments that tile a block give back all its bytes, in order and each once |
| `ArchiveProperties.ProcessKeeps` | src/unlzx.cc:55-95 | Every iteration keeps the whole invariant: conservation, catalogue and tiling |
| `ArchiveProperties.RunKeeps` | src/unlzx.cc:41-103 | In every listing, with non-merged entries between merged ones and with repeated names: all accepted names and sizes are handed out or waiting, in order; builders hold exactly what was handed out under the metadata first seen; the segments of every block tile it |
| `ArchiveProperties.NewBlockTiled` | src/unlzx.cc:76-81 | A new block is used exactly in the stretches that were set aside for those who waited |
| `ArchiveProperties.OffsetIsWaiting` | src/unlzx.cc:67-82 | In every listing, after any number of records, the running offset is the sum of the lengths that wait |
| `ArchiveProperties.SegmentsInRange` | src/lzx_entry.cc:10-15 | Every segment of every entry lies within its block, so that taking its data is always in range |
| `ArchiveProperties.BlockRebuilt` | src/unlzx.cc:76-79 | The data of the segments of a block, joined in archive order, is everything the block unpacks to |
| `ArchiveProperties.EntrySize` | src/lzx_entry.cc:86-92 | The size of a listed entry is all its headers announced less what still waits for a block that never came |
| `Unlzxs.SegmentData` | src/lzx_entry.cc:10-15 | The part of the unpacked block that the segment names, or nothing when the block does not unpack |
| `Unlzxs.UnpackSize` | src/lzx_entry.cc:86-92 | The sum of the lengths of the segments of the entry |
| `Unlzxs.AttachPending` | src/unlzx.cc:77-79 | The loop attaches one segment to each waiting name, in order |
| `Unlzxs.ListOne` | src/unlzx.cc:56-94 | One iteration, with header errors, blocks made on the spot and truncated data, refines one step of the listing |
| `Unlzxs.Unlzx.ListArchive` | src/unlzx.cc:41-103 | The loop refines the state machine over the records of the archive; each name is listed once, under the metadata of its first record and with all segments handed to it; blocks are new, distinct and ready to be unpacked; the reader is left where reading stopped |
| `Unlzxs.Unlzx.OpenArchive` | src/unlzx.cc:105-119 | UnexpectedEof below ten bytes, NotLzxFile without the three letters, otherwise Ok with the reader after the ten bytes |
| `ArchiveRoundTrip.RecordBack` | src/unlzx.cc:56-94 | A complete record is read exactly where the writer put one |
| `ArchiveRoundTrip.ScanUndoesPrinting` | src/unlzx.cc:55-95 | For every sequence of well-formed records the reader recovers exactly these records and ends at the end of input |
| `ArchiveRoundTrip.PrintingUndoesScan` | src/unlzx.cc:55-95 | Nothing but a written archive is read cleanly to the end |
| `ArchiveRoundTrip.ScanGoesOn` | src/unlzx.cc:55-95 | After written records the reading goes on with whatever follows them |
| `ArchiveRoundTrip.BadHeaderEnds` | src/unlzx.cc:56-58 | A header that is not accepted ends the listing with the records before it |
| `ArchiveRoundTrip.TruncatedArchive` | src/unlzx.cc:56-94 | An archive cut short anywhere gives every record before the cut, and the one that is cut, without data, if its header is complete |
| `ArchiveRoundTrip.BlockIs` | src/unlzx.cc:71-89 | In every listing a record makes a block if and only if it is not merged or brings packed bytes; the block holds those bytes, in the mode of that record |
| `ArchiveRoundTrip.GroupHandedOut` | src/unlzx.cc:67-82 | When the last header of a merged group brings the packed bytes, one block of the joined size goes to all members and nothing is left waiting |
| `ArchiveRoundTrip.GroupRoundTrip` | src/unlzx.cc:67-82 | Files packed together come apart again, wherever in an archive the group stands and whatever records of other names follow: if the packed bytes unpack to the joined contents, each member with a name of its own is listed with one segment, and that part of the block is its content |
| `ArchiveRoundTrip.LaterRecords` | src/unlzx.cc:55-95 | Records of other names take nothing from a name and add nothing to it |
| `ArchiveOfFiles.ArchiveRoundTrips` | src/unlzx.cc:41-119 | An archive of any parcels, files packed alone and groups packed together in any order, with any comments and other header fields, is recognized by its first bytes, read to its end as exactly its records, and lists exactly the names of its files, the segments of each name holding, one by one and in order, the contents of its files, also when a name comes more than once |
| `ArchiveOfFiles.ParcelsHold` | src/unlzx.cc:41-103 | After any parcels nothing waits, and the segments handed to a name hold the contents of its files, one by one and in order |
| `ArchiveOfFiles.NamesListed` | src/unlzx.cc:65 | Exactly the names of the files are listed |
| `UnlzxMain.ViewEntry` | src/unlzx_main.cc:124-127 | The loop over the segments of an entry joins their data, leaving out what does not unpack |
| `UnlzxMain.View` | src/unlzx_main.cc:263-276 | Opening, listing and viewing put together, for every file: the first ten bytes decide the status, and the data is what the segments of the name hold in the listing of the rest, or nothing if the name is not listed |
| `UnlzxMain.ViewRoundTrips` | src/unlzx_main.cc:263-276 | On an archive written from any parcels that is the contents of the files of the name, joined in the order of the archive |
| `ArchiveOfFiles.StoredOk` | src/lzx_block.cc:16-23 | Every file, with any name, comment and free header fields, can be stored alone |
| `ArchiveOfFiles.PackedOk` | src/lzx_block.cc:31-67 | Every such file can be packed alone, up to 4 KB below the greatest size a header can give |
| `ArchiveOfFiles.PackedTogether` | src/lzx_block.cc:31-67 | For any files, up to the same size of their joint contents, there are packed bytes that make a merged parcel with headers that say so |

## Left out

- Opening, mapping and closing files (src/mmap_buffer.cc:24-108): the mapped file is an immutable byte sequence, an argument of `OpenArchive`.
- The command line, printed listings, extraction to files and filters (src/unlzx_main.cc): input and output. Viewing is modelled for one name.
- Dates, protection bits and machine types of the header, and the data checksum of an entry: kept as bytes of the metadata, not interpreted.
- Bit-field layout of the flags and the compression mode: taken as the lowest bit and the lowest five bits of their bytes, as the usual compilers do.
- Paths from Latin-1 names and the guessed packed size of a merged entry (src/lzx_entry.cc:25-46, 70-84): presentation.
- Status texts (src/error.cc), and the status codes for files that go with the parts above.
- Allocation failure, shared pointers and moves: Dafny references; the entry that is moved into a block is copied, and only its mode is used there.
- Word sizes of counters: sizes, positions and running offsets are unbounded. In the program they are 64 bits wide, and 32 bits in `reset_table`, where values stay below 2^29. The accumulator of the bit reader and the checksum register are kept below 2^32 by proof.
- `HuffmanDecoders.ReadSymbol`: the three places that read a symbol (src/huffman_decoder.cc:81-99, 125-138, 174-191), and the single lookup of src/huffman_decoder.cc:210-220, share one method; `skip(0)` at line 86 changes nothing and is dropped.
- `HuffmanDecoders.ParseOnePass`: the two rounds of the outer loop (src/huffman_decoder.cc:72-152) are two calls; `fix--` after the second is not modelled.
- `HuffmanDecoders.HuffmanDecoder.DecodeToken`: the peek and later read of the same extra bits (src/huffman_decoder.cc:214-221) are one read.
- `HuffmanTables.HuffmanTable.ResetTable`: one long function is cut into methods along its loops.
- `Crc.Crc32.Calc`: the table is made once per object, not once at compile time.
- `LzxHandle.FromBuffer`: the three readers of bytes (copy, string, span) are one method, `ReadBytes`.
- `Unlzxs.Unlzx.ListArchive`: builders are values in a map, replaced when a segment is added; the map of finished entries keeps names as byte strings.
- What happens in memory after an index outside an array: the methods end there with `IndexFault`.
- Finding good codes or matches: the reference encoders take the choices as given and only fix how they are written.
