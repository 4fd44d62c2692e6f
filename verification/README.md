# G233 custom-instruction helpers, modelled in Dafny

This project models the four helpers behind the G233 custom RISC-V
instructions in `target/riscv/g233_helper.c`, and proves properties about
them. All four are bulk transforms from memory to memory, done through the
emulator's load/store interface:

- **DMA** transposes an N×N matrix of 32-bit words from `src` to `dst`.
  N is 8, 16 or 32, chosen by a grain code; any other code selects 8.
  The whole source matrix is read into a local buffer before the first
  store, so overlapping blocks are transposed correctly.
- **SORT** reads an array of `array_num` words and bubble-sorts its first
  `min(sort_num, array_num)` elements in ascending unsigned order. It then
  writes the whole array back.
- **CRUSH** packs `num / 2` pairs of bytes into `num / 2` bytes. The low
  nibble of the first byte of each pair becomes the low nibble of the
  result, and the low nibble of the second byte becomes its high nibble. An
  odd last byte is ignored.
- **EXPAND** unpacks `num` bytes into `2 * num` bytes: each byte's low
  nibble, then its high nibble.

Memory is a sequence of cells. DMA and SORT see 32-bit words (`Memory.Word`),
and CRUSH and EXPAND see bytes (`bv8`). Cells `[0, |m|)` are mapped. The first
load or store at or beyond `|m|` ends the helper with `Fault(addr)`, and
every store made before it stays in place.

Each helper is modelled twice:

- as an imperative `method` on an `array`, whose loops follow the C loops
  access by access;
- as a specification function returning `Run(outcome, mem)`.

Each method's `ensures` ties its outcome and the final array to the
specification function applied to the initial memory. The lemmas then state
the following properties of the specification functions:

- transposition, frames, and the double-transpose round trip;
- the sorted and permuted prefix, with the untouched tail;
- the nibble formulas;
- the CRUSH/EXPAND round trips, both on sequences and in memory.

SORT is specified through `SortEngine.SortSeq`, an insertion sort that is
independent of the bubble sort the helper runs. The two are connected by
the uniqueness of a sorted permutation (`SortEngine.SortedUnique`).

CRUSH and EXPAND interleave loads and stores. Their specification functions
(`CrushFrom`, `ExpandFrom`) therefore run iteration by iteration, so an
overlapping destination and a fault part-way through are modelled exactly.
Closed forms are proved for the overlaps under which no byte is overwritten
before it is loaded.

## Model

| member | source | states |
|---|---|---|
| Memory.FirstFault | target/riscv/g233_helper.c:65-66 | the fault address of consecutive accesses from base is the first unmapped address at or after base: every address from base up to it is mapped |
| DmaEngine.GrainSize | target/riscv/g233_helper.c:19-33 | the matrix dimension is always 8, 16 or 32 |
| DmaEngine.GrainSizeTable | target/riscv/g233_helper.c:20-33 | grain codes 0, 1, 2 select 8, 16, 32, and every other code selects 8, as the switch's default does |
| DmaEngine.Transposed | target/riscv/g233_helper.c:46-50 | cell (i, j) of the result is cell (j, i) of the row-major n×n input, and the result has n² cells |
| DmaEngine.TransposedTwice | target/riscv/g233_helper.c:46-50 | transposing twice gives the original block back |
| DmaEngine.DmaRun | target/riscv/g233_helper.c:15-51 | DMA completes exactly when both N² blocks lie in memory, and the memory size is preserved |
| DmaEngine.DmaTransposes | target/riscv/g233_helper.c:46-50 | after a completed DMA, destination cell (i, j) holds source cell (j, i) as it was before the instruction, even when the blocks overlap |
| DmaEngine.DmaStores | target/riscv/g233_helper.c:46-50 | after a completed DMA, the destination block is the transpose of the original source block |
| DmaEngine.DmaFrame | target/riscv/g233_helper.c:36-50 | every word outside the N² destination words is unchanged; if the source block does not fit, memory is untouched |
| DmaEngine.DmaTwice | target/riscv/g233_helper.c:15-51 | DMA from src to dst and then from dst to src completes and restores the source block, overlapping or not |
| DmaEngine.Dma | target/riscv/g233_helper.c:15-51 | the imperative helper's outcome and final memory are those of DmaRun on the initial memory |
| DmaEngine.LoadMatrix | target/riscv/g233_helper.c:38-43 | the row-major load fills the buffer with the source block, or faults at the first unmapped source word |
| DmaEngine.StoreTransposed | target/riscv/g233_helper.c:45-50 | the row-by-row stores leave the transpose of the buffer at dst, up to the first unmapped word, which is the fault address |
| DmaEngine.StoreRow | target/riscv/g233_helper.c:47-49 | one destination row receives column i of the buffer, or faults at its first unmapped word |
| SortEngine.SortSize | target/riscv/g233_helper.c:56-61 | the sort length is min(sort_num, array_num) |
| SortEngine.SortSeqSorted | target/riscv/g233_helper.c:69-78 | the reference sort yields an ascending permutation of its input |
| SortEngine.SortedUnique | target/riscv/g233_helper.c:69-78 | two ascending sequences with the same multiset of elements are equal |
| SortEngine.SortRun | target/riscv/g233_helper.c:54-86 | SORT completes exactly when the whole array lies in memory, and the memory size is preserved |
| SortEngine.SortRunSortsPrefix | target/riscv/g233_helper.c:69-78 | after SORT the first SortSize words are ascending and a permutation of the first SortSize words before it |
| SortEngine.SortRunStores | target/riscv/g233_helper.c:80-83 | after SORT on an array that lies in memory, the prefix is the sorted old prefix and the tail past SortSize is the old tail |
| SortEngine.SortRunFrame | target/riscv/g233_helper.c:80-83 | every word outside the first SortSize array words is unchanged, including the array tail |
| SortEngine.SortRunTrivial | target/riscv/g233_helper.c:70 | with sort_num 0 or 1 nothing is reordered and memory is unchanged |
| SortEngine.SortRunSorted | target/riscv/g233_helper.c:70-78 | on an array whose SortSize prefix is already ascending, SORT changes nothing |
| SortEngine.SortRunTwice | target/riscv/g233_helper.c:54-86 | SORT is idempotent: running it again on its own result changes nothing |
| SortEngine.SortRunExample | target/riscv/g233_helper.c:54-86 | sorting the first 3 of [5, 3, 1, 4, 2] gives [1, 3, 5, 4, 2] |
| SortEngine.SortedPrefix | target/riscv/g233_helper.c:69-78 | an array whose prefix is an ascending permutation of the old prefix and whose tail is unchanged is the reference sort of the prefix followed by the old tail |
| SortEngine.SortRunOfLoaded | target/riscv/g233_helper.c:63-83 | storing the loaded array with its prefix sorted is the state SortRun describes |
| SortEngine.Sort | target/riscv/g233_helper.c:54-86 | the imperative helper's outcome and final memory are those of SortRun on the initial memory |
| SortEngine.LoadArray | target/riscv/g233_helper.c:63-67 | the buffer holds the array words, or the load faults at the first unmapped word |
| SortEngine.BubbleSortPrefix | target/riscv/g233_helper.c:69-78 | the first k elements end ascending and a permutation of what they were; the rest are unchanged |
| SortEngine.BubblePass | target/riscv/g233_helper.c:71-77 | one pass moves the maximum of the unsorted part to its end, keeps the sorted suffix above it, and permutes the prefix |
| SortEngine.SwapNext | target/riscv/g233_helper.c:72-76 | exchanges two adjacent elements, changes nothing else, and keeps the multiset |
| SortEngine.StoreArray | target/riscv/g233_helper.c:80-83 | the write-back stores the buffer at addr and leaves the other words unchanged |
| Nibbles.Low | target/riscv/g233_helper.c:110 | the low nibble is below 16 |
| Nibbles.High | target/riscv/g233_helper.c:111 | the high nibble is below 16 |
| Nibbles.Pack | target/riscv/g233_helper.c:95-97 | the packed byte's low nibble is the first value's low nibble, and its high nibble is the second value's low nibble |
| Nibbles.NibbleDigits | target/riscv/g233_helper.c:110-111 | a byte is 16 × high nibble + low nibble; the nibbles are its value mod 16 and div 16 |
| Nibbles.PackUnpack | target/riscv/g233_helper.c:95-97 | packing a byte's own low and high nibbles gives the byte back |
| Nibbles.UnpackPack | target/riscv/g233_helper.c:109-111 | splitting the packing of two nibbles gives the two nibbles back |
| Nibbles.ExpandSeq | target/riscv/g233_helper.c:108-114 | unpacking doubles the length |
| Nibbles.ExpandSeqAt | target/riscv/g233_helper.c:112-113 | byte i lands as its low nibble at 2i and its high nibble at 2i + 1 |
| Nibbles.ExpandSeqNibbles | target/riscv/g233_helper.c:110-111 | every byte of an unpacked sequence is a nibble |
| Nibbles.CrushSeq | target/riscv/g233_helper.c:94-99 | the packed sequence has length ⌊n/2⌋, and byte i packs input bytes 2i and 2i + 1 |
| Nibbles.CrushExpand | target/riscv/g233_helper.c:94-114 | packing an unpacked sequence restores the original bytes |
| Nibbles.ExpandCrush | target/riscv/g233_helper.c:94-114 | unpacking a packed even-length sequence of nibbles restores it |
| Nibbles.NibbleExamples | target/riscv/g233_helper.c:94-114 | [1, 2, 3, 4, 9] packs to [0x21, 0x43], which unpacks to [1, 2, 3, 4] |
| CrushEngine.CrushFrom | target/riscv/g233_helper.c:94-99 | from iteration i on, the run completes exactly when no iterations remain or every remaining access is mapped; a fault address is unmapped |
| CrushEngine.CrushRun | target/riscv/g233_helper.c:89-100 | CRUSH completes exactly when the 2⌊num/2⌋ source bytes and the ⌊num/2⌋ destination bytes are mapped |
| CrushEngine.CrushFrame | target/riscv/g233_helper.c:94-99 | CRUSH changes no byte outside its ⌊num/2⌋ destination bytes, whether it faults or not |
| CrushEngine.CrushFromPacks | target/riscv/g233_helper.c:94-99 | once the first i packed bytes are stored, the remaining iterations complete the packed block |
| CrushEngine.CrushIteration | target/riscv/g233_helper.c:95-98 | one iteration extends the stored packed prefix by one byte |
| CrushEngine.CrushPacks | target/riscv/g233_helper.c:94-99 | when dst is at most src + 1, or the blocks are disjoint, CRUSH completes and stores the packed source at dst |
| CrushEngine.CrushShiftedByOne | target/riscv/g233_helper.c:94-99 | CRUSH one byte above its source turns [1, 2, 3, 4, 0] into [1, 0x21, 0x43, 4, 0], because each store lands on a byte already loaded |
| CrushEngine.Crush | target/riscv/g233_helper.c:89-100 | the imperative helper's outcome and final memory are those of CrushRun on the initial memory |
| ExpandEngine.ExpandFrom | target/riscv/g233_helper.c:108-114 | from iteration i on, the run completes exactly when no iterations remain or every remaining access is mapped; a fault address is unmapped |
| ExpandEngine.ExpandRun | target/riscv/g233_helper.c:103-115 | EXPAND completes exactly when the num source bytes and the 2·num destination bytes are mapped |
| ExpandEngine.ExpandFrame | target/riscv/g233_helper.c:112-113 | EXPAND changes no byte outside its 2·num destination bytes, whether it faults or not |
| ExpandEngine.ExpandFromUnpacks | target/riscv/g233_helper.c:108-114 | once the first 2i nibbles are stored, the remaining iterations complete the unpacked block |
| ExpandEngine.ExpandIteration | target/riscv/g233_helper.c:109-113 | one iteration extends the stored unpacked prefix by two nibbles |
| ExpandEngine.ExpandUnpacks | target/riscv/g233_helper.c:108-114 | when every source byte is loaded before a store reaches it (as with disjoint blocks), EXPAND completes and stores the unpacked source at dst |
| ExpandEngine.ExpandInPlace | target/riscv/g233_helper.c:108-114 | EXPAND in place turns [0x21, 0x43, 0, 0] into [1, 2, 2, 0], because byte 1 is overwritten before it is loaded |
| ExpandEngine.Expand | target/riscv/g233_helper.c:103-115 | the imperative helper's outcome and final memory are those of ExpandRun on the initial memory |
| NibbleRoundTrip.ExpandThenCrush | target/riscv/g233_helper.c:89-115 | EXPAND n bytes, then CRUSH the 2n nibbles: both complete, and the original n bytes are stored at the CRUSH destination |
| NibbleRoundTrip.ExpandThenCrushBack | target/riscv/g233_helper.c:89-115 | crushing the expanded nibbles back onto their source leaves memory as EXPAND left it |
| NibbleRoundTrip.CrushThenExpand | target/riscv/g233_helper.c:89-115 | CRUSH 2h nibbles, then EXPAND the h bytes: both complete, and the original nibbles are stored at the EXPAND destination |
| NibbleRoundTrip.ExpandStores | target/riscv/g233_helper.c:108-114 | after an EXPAND whose source and destination are disjoint, the destination holds the unpacked source |
| NibbleRoundTrip.CrushStores | target/riscv/g233_helper.c:94-99 | after a CRUSH of 2h bytes, the destination holds the packed source |

## Left out

- The CPU state, TLB, MMU and page permissions behind the load/store calls are not modelled. Memory is a mapped prefix `[0, |m|)`, and an access outside it is the only kind of fault.
- Addresses are word indices for DMA and SORT. The C code's 4-byte stride and the byte order of word accesses are not modelled.
- DMA and SORT use a word memory, and CRUSH and EXPAND use a separate byte memory. A byte view of words written by DMA or SORT is not modelled.
- The `(int)` casts of the counts and the `target_ulong` address wraparound are not modelled. Counts are natural numbers, so negative or truncated counts do not arise. In the C code, a count whose cast is negative (for example sort_num = 0xFFFFFFFF) sorts nothing, because the loop bound becomes -2. The model instead sorts min(sort_num, array_num) elements. Likewise, a num that casts to a negative value makes CRUSH and EXPAND run no iteration, which the model does not reproduce.
- `g_malloc` failure, `g_free`, and the buffer leaked when a load traps are not modelled. The stack buffer of DMA is a fresh local array.
- Instruction decoding and dispatch to the helpers are not modelled.
- The fault address is the first unmapped address of the access sequence. The trap's exact reporting is host emulator behaviour.
- DmaTransposes, DmaStores: these state the transpose only for a completed DMA. After a fault in the store phase, only DmaRun describes the partial stores.
- CrushPacks: the closed form is proved only when the destination starts at most one byte above the source, or the blocks are disjoint. Other overlaps are described only step by step by CrushFrom.
- ExpandUnpacks: the closed form is proved only when every source byte is loaded before a store reaches it. Other overlaps are described only step by step by ExpandFrom, as ExpandInPlace shows.
