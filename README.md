# gomessageblock chain buffer, modelled in Dafny

`gomessageblock` keeps a byte stream in a singly linked chain of buffers. A
`ReaderWriter` points at the head (`next`) and the tail (`last`) of a list of
`MultiBlock`s. Each `MultiBlock` wraps a `bytes.Buffer` and a `next` link.
Writes go into the tail's spare room or into new blocks of `blockSize` bytes.
Reads drain the head and unlink it once it is exhausted. Other chains and
readers can be spliced in behind the tail. `Flatten` collapses the chain into
one buffer. `ReadTypeCode` peeks at a four-byte little-endian code and puts
the bytes back in front.

The model has four modules:

- `Bytes` (`Bytes.dfy`): Go's `byte` and `uint32`, and `binary.LittleEndian.Uint32`.
- `Blocks` (`MultiBlock.dfy`):
  - the value `Block(cap, data)`: a buffer's `Cap()` and its unread bytes;
  - the pure effect of `bytes.Buffer.Write` (`Appended`) and `Read` (`Consume`);
  - the class `MultiBlock`, with mutable `cap`, `data` and `next` fields.
- `Chains` (`Chains.dfy`): the chain as a value, a `seq<Block>` from head to tail.
  - The operations that reshape the chain have a function here: `Written`, `Drained`, `Flattened`, `Copied`, `Spliced`, `Peeked`, and `BlocksOf` for a chain built from slices.
  - `Dump`, `Skip`, `ToString` and `SetNext` have no function of their own; their contracts state the result directly in terms of the stream.
  - The laws of the buffer are lemmas about these functions.
- `ReaderWriters` (`ReaderWriter.dfy`): the class `ReaderWriter`.
  - It has the real `next`/`last` pointers and the `blockSize`, `typeCode` and `typeCodeRead` fields.
  - Its ghost state is `Blocks` (the nodes from head to tail), `View` (their buffers as values) and `Repr`.
  - `Valid()` is the list invariant:
    - the nodes are distinct and linked in order, ending in `nil`;
    - `next` is the first node and `last` the final one, so `next == nil` exactly when `last == nil`;
    - `0 < blockSize <= maxBlockSize`.
  - The public methods keep `Valid()`.
    - `ClearNext` breaks it on purpose, as Go's `clearNext` does while `internalFlatten` dismantles the chain.
    - The helper `LinkBehind` states only the pointer updates; `SpliceChain`, which calls it, restores `Valid()`.
  - `Write`, `Read`, `Flatten`, `AddReaders`, `ReadTypeCode` and the constructors `FromString` (through `Written`) and `WithBlocks` (through `BlocksOf`) state their new `View` through the matching `Chains` function; `Sized`, `Default` and `FromBlock` state theirs directly.
  - `Add`, `AddReaders` and `SetNext` bound the new `Repr` by the old one, the spliced chains' and fresh objects, so a caller can go on using the chain. The chains `Add` and `AddReaders` empty are left owning only themselves.
  - The walks over the list follow the real `next` pointers; the ghost `Blocks` list only names the nodes in order.
  - The loops of the source (the split loop of `Write`, the list walks of the accounting functions, `internalFlatten` and `Dump`, the `io.Copy` and `io.CopyN` loops) are `while` loops with invariants.

Capacities are exact:
- `NewMultiBlockSize(n)` has capacity `n`.
- A standalone buffer that overflows grows to exactly what it holds.
- Bytes already read keep occupying capacity, which is what `Cap() - Len()` measures.

`io.Copy` and `io.CopyN` read through a 32 KiB buffer, written out as `CopyBufferSize`: each turn of the copy loops of `Skip` and `ToString` reads at most that many bytes.

A generic `io.Reader` is given by the byte slices `io.Copy` would hand to `Write`, plus whether it ends in an error rather than `io.EOF`. A writer handed to `Dump` is given by the number of `Write` calls it accepts before failing.

## Model

| member | source | states |
|---|---|---|
| Bytes.LittleEndian32 | ReaderWriter.go:341 | the four bytes are the base-256 digits of the code, least significant first, so the decoding is injective and in range |
| Blocks.Appended | MultiBlock.go:24-26 | a write appends `p` to the unread bytes; the capacity stays when `p` fits, never shrinks, and the buffer stays within it |
| Blocks.AppendedTwice | MultiBlock.go:24-26 | two writes in a row leave the same buffer as one write of both pieces |
| Blocks.Consume | MultiBlock.go:20-22 | a read takes min(len(p), Len) bytes from the front, and what it returns followed by what is left is the old content; `io.EOF` exactly for an empty buffer and a non-empty `p`; the capacity is kept |
| Blocks.MultiBlock.OfSize | MultiBlock.go:28-34 | `NewMultiBlockSize(n)`: empty, capacity `n`, no successor |
| Blocks.MultiBlock.WithBlock | MultiBlock.go:36-40 | `NewMultiBlockWithBlock(b)`: unread bytes exactly `b`, capacity `len(b)`, no successor |
| Blocks.MultiBlock.Empty | MultiBlock.go:42-47 | `NewMultiBlock()`: empty, no room, no successor |
| Blocks.MultiBlock.ClearNext | MultiBlock.go:12-14 | the link becomes nil and only the link is modified |
| Blocks.MultiBlock.NextMultiBlock | MultiBlock.go:16-18 | returns the successor and changes nothing |
| Blocks.MultiBlock.Read | MultiBlock.go:20-22 | the bytes returned, the buffer left and the EOF flag are those of `Consume` on the old buffer |
| Blocks.MultiBlock.Write | MultiBlock.go:24-26 | the buffer becomes `Appended(old, p)` and `len(p)` is returned |
| Chains.Stream | ReaderWriter.go:296-306 | the bytes the chain presents: each block's unread bytes, from head to tail, in the order the node walk visits them |
| Chains.Size | ReaderWriter.go:187-193 | `InternalSize`: the unread lengths `Len()` summed over the blocks |
| Chains.Waste | ReaderWriter.go:279-286 | `InternalWaste`: `Cap() - Len()` summed over the blocks |
| Chains.SizeIsLength | ReaderWriter.go:187-193 | the summed unread lengths are the length of the stream |
| Chains.Additive | ReaderWriter.go:279-286 | size and waste of two chains joined are the sums of theirs |
| Chains.WasteNonNegative | ReaderWriter.go:279-286 | waste is never negative when every buffer is within its capacity |
| Chains.StreamConcat | ReaderWriter.go:238-239 | the stream of two joined chains is their streams in order |
| Chains.Chunked | ReaderWriter.go:101-117 | the blocks the split loop adds: one new block of capacity `blockSize` per consecutive piece `p[index:min(index + blockSize, len(p))]`, until nothing is outstanding |
| Chains.ChunkedBlocks | ReaderWriter.go:101-117 | the split blocks hold `p` in order, each has capacity `blockSize` and is non-empty, all but the last are full |
| Chains.ChunkedCount | ReaderWriter.go:101-117 | there are ceil(len(p) / blockSize) split blocks, and none for an empty `p` |
| Chains.ChunkedWaste | ReaderWriter.go:101-117 | the split blocks waste `blockSize * count - len(p)` |
| Chains.Written | ReaderWriter.go:76-121 | the blocks after `Write(p)`: `p` appended to the tail when its `Cap() - Len()` is strictly larger than `len(p)`, else one new `blockSize` block holding `p` when `len(p) <= blockSize`, else the split blocks |
| Chains.WrittenStream | ReaderWriter.go:76-121 | a write appends exactly `p` to the stream |
| Chains.WrittenPlacement | ReaderWriter.go:80-118 | into the tail iff its spare room is strictly larger than `len(p)`; else one new `blockSize` block when `p` fits; else ceil(len(p)/blockSize) new blocks holding consecutive pieces, the earlier blocks untouched |
| Chains.WrittenAccounting | ReaderWriter.go:80-118 | size grows by `len(p)`; waste drops by `len(p)`, grows by `blockSize - len(p)`, or grows by `blockSize * new blocks - len(p)` in the three cases |
| Chains.WrittenValid | ReaderWriter.go:76-121 | a write keeps every buffer within its capacity |
| Chains.WrittenWasteExample | ReaderWriter_test.go:79-84 | 20 then 2048 bytes at block size 128 give 17 blocks, size 2068 and waste 108 |
| Chains.WrittenAllStream | ReaderWriter.go:76-121 | writes in any pieces append their concatenation to the stream |
| Chains.BlocksOf | ReaderWriter.go:422-429 | one exactly full block per slice, in order: the stream is the slices concatenated and nothing is wasted |
| Chains.Drained | ReaderWriter.go:123-155 | `InternalRead(p)` as a recursion: no block gives `io.EOF`; an exhausted head is unlinked and the read retried; a short read goes on into the rest of `p`, with the rest's `io.EOF` dropped when the head gave some byte and the rest none; a head emptied exactly is unlinked |
| Chains.DrainedFacts | ReaderWriter.go:123-155 | a read returns the first min(len(p), Size) bytes of the stream and leaves the rest; `io.EOF` iff the chain has no block or a non-empty `p` found no byte; a short read leaves no block |
| Chains.ReadAllPrefix | ReaderWriter.go:123-155 | reads in any chunk sizes return the stream from its front, in order |
| Chains.RoundTrip | ReaderWriter.go:76-155 | bytes written in any pieces into an empty chain come back in order from reads in any sizes that cover them |
| Chains.InternalFlattened | ReaderWriter.go:195-227 | returns the stream and leaves one valid block holding it; its capacity is the head's when the head's `Cap()` exceeds `Size()`, else max(Size, blockSize) |
| Chains.Flattened | ReaderWriter.go:157-167 | returns exactly the stream, keeps stream and size, leaves at most one block; nil for an empty chain, a single block unchanged |
| Chains.FlattenedWaste | ReaderWriter.go:195-227 | after flattening two or more blocks the waste is the one block's capacity less the size |
| Chains.FlattenedExample | ReaderWriter_test.go:65-77 | two one-byte chains of block size 512: size 2 and waste 1022 joined; flattening returns both bytes and leaves waste 510 |
| Chains.Copied | ReaderWriter.go:257-258 | `io.Copy` into a chain: one `Write` per non-empty slice the reader yields, in order |
| Chains.CopiedStream | ReaderWriter.go:257-258 | `io.Copy` of a reader appends its bytes to the stream |
| Chains.FirstFailure | ReaderWriter.go:249-268 | the index of the first failing reader: every source before it succeeds, and it fails unless it is the end |
| Chains.Spliced | ReaderWriter.go:229-269 | the blocks after `AddReaders` and its success: a chain source's blocks are appended as they are; a reader is copied into a new default chain whose blocks are appended; a failing reader stops with an error, keeping what was spliced before it |
| Chains.SplicedStream | ReaderWriter.go:229-269 | `AddReaders` succeeds iff no reader fails, and the stream becomes the old one followed by the sources before the first failure, in argument order |
| Chains.SplicedHead | ReaderWriter.go:249-268 | splicing a list is splicing its first source and, if that succeeded, the others; a failure stops it |
| Chains.SplicedChains | ReaderWriter.go:271-277 | `Add` appends every chain's blocks unchanged, in argument order, and succeeds |
| Chains.SpliceAdditive | ReaderWriter.go:230-245 | a chain spliced zero-copy adds its size, its waste and its stream |
| Chains.Filled | ReaderWriter.go:319-324 | `io.Copy` into `NewMultiBlock()`: each slice the reader yields is written into the one block in order |
| Chains.FilledExact | ReaderWriter.go:319-324 | a reader copied into a block with no room gives a block holding exactly its bytes with no spare room |
| Chains.Peeked | ReaderWriter.go:329-347 | `ReadTypeCode()`: a cached code is returned as it is; uncached with at least four bytes, four bytes are read, decoded little-endian, cached and put back as a new four-byte head block; with fewer nothing changes |
| Chains.PeekedStream | ReaderWriter.go:329-347 | the stream is unchanged; uncached with Size at least 4, the code is the first four bytes decoded little-endian and is cached; else nothing changes and the stored code is returned |
| Chains.PeekedIdempotent | ReaderWriter.go:329-347 | a second `ReadTypeCode` returns the same code and changes nothing |
| ReaderWriters.AsSources | ReaderWriter.go:272-275 | `Add` passes every chain on as a source, in order |
| ReaderWriters.CopyAndUnlink | ReaderWriter.go:200-203 | the bytes of the later nodes are appended to the target in order and every node from `prev` on is unlinked |
| ReaderWriters.CopyStep | ReaderWriter.go:201-202 | one node's bytes are appended to the target and the previous node is unlinked |
| ReaderWriters.CopyOutOfChain | ReaderWriter.go:213-219 | the new block receives the whole stream; the chain and every old node are unlinked |
| ReaderWriters.ReaderWriter.Sized | ReaderWriter.go:404-416 | an empty valid chain; the block size is capped at 65536; no code cached |
| ReaderWriters.ReaderWriter.Default | ReaderWriter.go:388-390 | an empty valid chain of block size 1024 |
| ReaderWriters.ReaderWriter.FromString | ReaderWriter.go:391-398 | a default chain whose blocks are those of writing `s`; its stream is `s` |
| ReaderWriters.ReaderWriter.WithBlocks | ReaderWriter.go:422-429 | a default chain with one exactly full block per slice, in order |
| ReaderWriters.ReaderWriter.FromBlock | ReaderWriter.go:418-420 | a default chain whose only block is `block` |
| ReaderWriters.ReaderWriter.ClearNext | ReaderWriter.go:34-36 | the head link becomes nil and nothing else changes |
| ReaderWriters.ReaderWriter.NextMultiBlock | ReaderWriter.go:38-40 | returns the head and changes nothing |
| ReaderWriters.ReaderWriter.AddBlock | ReaderWriter.go:66-74 | the block is linked behind the tail; nodes, buffers and footprint grow by exactly it |
| ReaderWriters.ReaderWriter.AddBlockToFront | ReaderWriter.go:58-64 | the block is linked before the head, and becomes the tail too when the chain was empty |
| ReaderWriters.ReaderWriter.AddByteBlock | ReaderWriter.go:48-56 | a new block of capacity `blockSize` holding `p` is appended and `len(p)` returned |
| ReaderWriters.ReaderWriter.Write | ReaderWriter.go:76-121 | the blocks become `Written(old, blockSize, p)`, `len(p)` is returned, the invariant and settings are kept |
| ReaderWriters.ReaderWriter.WriteToTail | ReaderWriter.go:80-86 | `p` is appended to the tail's buffer and nothing else changes |
| ReaderWriters.ReaderWriter.WriteSplit | ReaderWriter.go:100-118 | the split loop appends `Chunked(p, blockSize)` and counts `len(p)` bytes |
| ReaderWriters.ReaderWriter.WritePiece | ReaderWriter.go:105-116 | one turn of the split loop writes the next piece of at most `blockSize` bytes into its own block |
| ReaderWriters.ReaderWriter.MoveNext | ReaderWriter.go:124-129 | the head leaves the chain; the tail is cleared when it empties |
| ReaderWriters.ReaderWriter.ReadHead | ReaderWriter.go:130-132 | the head buffer is read as `Consume` says; the rest of the chain is untouched |
| ReaderWriters.ReaderWriter.InternalRead | ReaderWriter.go:123-155 | bytes returned, blocks left and EOF flag are exactly `Drained(old blocks, len(p))` |
| ReaderWriters.ReaderWriter.Read | ReaderWriter.go:42-46 | as `InternalRead` |
| ReaderWriters.ReaderWriter.InternalSize | ReaderWriter.go:187-193 | the unread bytes summed over the blocks, equal to the stream's length, without change |
| ReaderWriters.ReaderWriter.Size | ReaderWriter.go:169-173 | as `InternalSize` |
| ReaderWriters.ReaderWriter.InternalWaste | ReaderWriter.go:279-286 | `Cap() - Len()` summed over the blocks, never negative, without change |
| ReaderWriters.ReaderWriter.Waste | ReaderWriter.go:181-185 | as `InternalWaste` |
| ReaderWriters.ReaderWriter.InternalBlockCount | ReaderWriter.go:288-294 | the number of linked blocks, without change |
| ReaderWriters.ReaderWriter.BlockCount | ReaderWriter.go:175-179 | as `InternalBlockCount` |
| ReaderWriters.ReaderWriter.InternalFlatten | ReaderWriter.go:195-227 | returned bytes and blocks left are `InternalFlattened(old blocks, blockSize)` |
| ReaderWriters.ReaderWriter.FlattenIntoHead | ReaderWriter.go:197-208 | the stream is copied into the head, which becomes the only block, and every old node is unlinked |
| ReaderWriters.ReaderWriter.FlattenIntoNew | ReaderWriter.go:209-226 | the stream is copied into a new block of room max(Size, blockSize), which becomes the chain; every old node is unlinked |
| ReaderWriters.ReaderWriter.SingleBlock | ReaderWriter.go:161 | the head has no successor iff the chain has exactly one block |
| ReaderWriters.ReaderWriter.Flatten | ReaderWriter.go:157-167 | returned bytes and blocks left are `Flattened(old blocks, blockSize)` |
| ReaderWriters.ReaderWriter.SpliceChain | ReaderWriter.go:230-245 | the other chain's nodes and buffers follow this chain's, and the other chain is left valid and empty |
| ReaderWriters.ReaderWriter.LinkBehind | ReaderWriter.go:233-243 | the pointer updates of the splice: tail (or head) to the other head, tail to the other tail, the other chain's pointers to nil |
| ReaderWriters.ReaderWriter.CopyChunks | ReaderWriter.go:257-258 | the `io.Copy` loop: one `Write` per non-empty slice, giving `Copied(old blocks, blockSize, chunks)` |
| ReaderWriters.ReaderWriter.AddReaders | ReaderWriter.go:229-269 | the blocks and the success flag are `Spliced(old blocks, sources)`; every chain before the first failing reader is left empty and owning only itself, the later ones untouched; the new footprint is the old one, the spliced chains' and fresh objects |
| ReaderWriters.ReaderWriter.Arranged | ReaderWriter.go:249 | the preconditions of `AddReaders` make every source pending at the start of the loop |
| ReaderWriters.ReaderWriter.Settled | ReaderWriter.go:241-242 | where the loop stopped, the chains before are empty and valid and the others hold what they held |
| ReaderWriters.ReaderWriter.SpliceNext | ReaderWriter.go:249-267 | one turn of the loop advances the splice by one source, or stops it at a failing reader |
| ReaderWriters.ReaderWriter.SpliceSource | ReaderWriter.go:250-266 | a chain is spliced as it is; a reader is copied into a fresh default chain and spliced unless it fails; the result is `Spliced` of that one source |
| ReaderWriters.ReaderWriter.Add | ReaderWriter.go:271-277 | every chain's blocks follow in argument order, each chain is left empty and owning only itself, and it never fails; the new footprint is the old one, the chains' and fresh objects |
| ReaderWriters.ReaderWriter.SetNext | ReaderWriter.go:308-327 | a one-block chain lends its block behind the tail; a reader is copied into one exactly full block and linked unless it fails, which leaves the chain as it was; the footprint grows only by the lent block or a fresh one |
| ReaderWriters.ReaderWriter.ReadTypeCode | ReaderWriter.go:329-347 | the code returned and the new blocks, code and flag are `Peeked(old state)` |
| ReaderWriters.ReaderWriter.CacheTypeCode | ReaderWriter.go:341-344 | the four bytes are decoded and cached, and put back in front as a block of their own |
| ReaderWriters.ReaderWriter.Dump | ReaderWriter.go:296-306 | the blocks' unread bytes in order until the first refused call; success iff every block was accepted, and then the whole stream was written; the chain is unchanged |
| ReaderWriters.ReaderWriter.Skip | ReaderWriter.go:363-367 | the first min(max(n, 0), Size) bytes are dropped; success iff `n <= Size` |
| ReaderWriters.ReaderWriter.ToString | ReaderWriter.go:349-354 | returns the whole stream and leaves no block |
| ReaderWriters.ReaderWriter.ReadOnto | ReaderWriter.go:351 | one turn of the copy loop: what is read is appended to the result, and the stream shrinks unless it is done |
| ReaderWriters.ReaderWriter.ReadSome | ReaderWriter.go:42-46 | a read seen as stream bytes: the first min(k, Size) bytes are taken and the rest stays |

## Left out

- Locking and concurrency: `sync.Mutex` and the atomic `uniqueNumber` counter are not modelled. This covers:
  - the unlocked pre-checks of `Flatten`;
  - the gap between `Size()` and the lock in `ReadTypeCode`;
  - the two critical sections of `Write`.
  Every operation is modelled as atomic.
- `uniqueNumber` is not a field of the model: nothing in the chain reads it.
- I/O of the standard library:
  - `io.Copy`, `io.CopyN` and `strings.Builder` are not modelled as library code.
  - A reader is the sequence of slices it yields plus a failure flag; a writer for `Dump` is the number of calls it accepts.
  - `ToString` returns the bytes rather than a Go `string`.
- ReaderWriters.ReaderWriter.AddReaders: requires the chain sources to be valid, apart from one another and from the receiver. Go would deadlock on `rw.Add(rw)`. A chain given twice is not modelled.
- ReaderWriters.ReaderWriter.Add: the same requirement as `AddReaders`.
- ReaderWriters.ReaderWriter.SetNext: only a chain source with exactly one block, not already part of this chain, is modelled. With more blocks Go sets `last` to the source's head. With an empty source Go sets `last` to nil while `next` is not nil. Either breaks the list invariant. The lent block stays shared with the source, as in Go.
- ReaderWriters.ReaderWriter.Sized: requires a positive block size. With 0 the split loop of `Write` never ends, and a negative size slices out of range.
- Blocks.MultiBlock.OfSize: the capacity is exactly `n`. In Go, `bytes.Buffer.Grow` gives an empty buffer at least 64 bytes and the allocator rounds larger requests up to a size class; that is why a test expects waste 344 after flattening where the model gives 0.
- Blocks.MultiBlock.WithBlock, ReaderWriters.ReaderWriter.WithBlocks, ReaderWriters.ReaderWriter.FromBlock: a slice is taken as fresh: capacity equals length, no sharing with the caller. `bytes.NewBuffer(b)` takes over `b`'s array, so in Go `Cap()` is `cap(b)`, which can exceed `len(b)` and then gives a non-zero `Waste()`, and later writes by the caller through `b` show in the chain.
- `bytes.Buffer`'s internal slide-or-regrow is not modelled. A standalone buffer that overflows grows to exactly what it holds.
  - Inside the chain this also fixes the capacity of a buffer that has been partly read (Go's `off > 0`). Go's `grow` reallocates when `len(p)` exceeds `Cap()/2 - Len()`, so a tail of capacity 128 with 70 bytes read and 50 unread, written 20 bytes, gets capacity 144 and waste 74; the model keeps capacity 128 and gives waste 58.
  - So the tail case of `Chains.WrittenAccounting` (waste drops by `len(p)`) and of `Chains.WrittenPlacement`, and the head case of `Chains.InternalFlattened` and `ReaderWriters.ReaderWriter.FlattenIntoHead`, keep the old capacity as Go does only for a buffer with nothing read or below that threshold.
- Error paths that cannot be taken are not modelled:
  - `bytes.Buffer.Write` never fails;
  - the read of `ReadTypeCode` cannot fail once four bytes are present;
  - `Flatten`'s copies cannot fail.
- The slice returned by `Flatten` aliases the buffer in Go; the model returns a value. (`Read` copies into the caller's `p`, which the model returns as a value too.)
- `Skip`'s `io.CopyN` is modelled as reads of at most 32 KiB and never more than remains. Which blocks are left afterwards follows from `Read`; the contract states only the stream.
- `ReaderWriterFactory.go` is not part of this model. It is dependency-injection wiring whose operations are `NewReaderWriter` and `NewReaderWriterSize` followed by `Write`.
- `nopCloserReadWriter.go` is not part of this model. It is a no-op `Close` wrapper.
- The commented-out `CopyFrom` is dead code.
