# Accelerometer sample processor — a Dafny model

The program reads a binary file of packed 12-bit accelerometer samples, three
bytes (two samples) at a time, with a policy for a trailing one- or two-byte
read. Every sample goes to two consumers. The first is a 32-slot ring of the
most recent samples. The second is a top-32 selector: it stores the first 32
samples, turns them into a min-heap on the 33rd, and then lets a sample replace
the root only when it is strictly larger. At the end the selector's store is
merge-sorted. The program then writes the sorted largest samples and the recent
samples oldest first, or notes that the file held no samples.

This project models that core as pure Dafny, with the I/O taken out:

- `Bytes` — bytes as unsigned values `0..255`.
- `Unpacker` — the 12-bit unpacker (`Unpack`) and its closed form, plus an
  independent inverse for whole groups (`Pack`) with both round trips.
- `UnpackExamples` — fixed vectors for each read case.
- `SignedReader` — the reader loop as written with a signed `char` buffer
  (see Findings).
- `MinHeap` — `heapify` and `create_min_heap` as functions on the array's
  contents.
- `Sorting` — `merge` and `merge_sort` as methods that return the updated
  array.
- `TopK` — `insert_min_heap`. Its two `static` locals (the fill count and the
  heapified flag) become the explicit `Selector` state.
- `Recency` — the ring writes and the chronological readout.
- `Driver` — `main`'s read loop, the empty-file check and the readout,
  returning a `Report`.

Each consumer has a reference definition that does not depend on how it is
implemented:

- `KeepsLargest`: the retained values are a sub-multiset of everything offered,
  of size `min(g, 32)`, and no discarded value exceeds a retained one.
- `LastValues`: the last 32 samples in arrival order.

Invariants (`Tracks`, `HoldsRecent`) connect each consumer's state to these
references, and `Process` states the whole run in terms of them and `Unpack`.
The folds `OfferAll` and `RecordAll` (offer or record every sample of a
stream) and the readout `Snapshot` are stated through the lemmas
`SelectionCorrect`, `RecencyWindow` and `Readout`.

## Model

All source paths are relative to the repository root.

| member | source | states |
|---|---|---|
| Unpacker.FirstOfGroup | Sample_1_Accelerometer_Data/process_accelerometer_data.c:363 | the first sample of a group (lead byte, then the high nibble of the middle byte) is a 12-bit value |
| Unpacker.SecondOfGroup | Sample_1_Accelerometer_Data/process_accelerometer_data.c:372 | the second sample of a full group (low nibble of the middle byte, then the last byte) is a 12-bit value |
| Unpacker.TailNibble | Sample_1_Accelerometer_Data/process_accelerometer_data.c:406 | the second value of a two-byte tail is the low nibble alone, below 16 |
| Unpacker.Unpack | Sample_1_Accelerometer_Data/process_accelerometer_data.c:353-415 | an n-byte stream yields 2*(n/3) + n%3 samples, as the header describes for short final reads |
| Unpacker.UnpackSamples | Sample_1_Accelerometer_Data/process_accelerometer_data.c:360-413 | every value produced from unsigned bytes lies in 0..4095 |
| Unpacker.UnpackLayout | Sample_1_Accelerometer_Data/process_accelerometer_data.c:360-413 | sample k comes from the group at byte 3*(k/2): the first- or second-of-group formula, the one-byte tail value, or the two-byte tail nibble, by position alone |
| Unpacker.UnpackAppend | Sample_1_Accelerometer_Data/process_accelerometer_data.c:353-358 | reading group by group: unpacking whole groups followed by any rest gives the concatenation of the two unpackings |
| Unpacker.GroupFromSamples | Sample_1_Accelerometer_Data/process_accelerometer_data.c:363-372 | any two 12-bit samples are recovered from the three bytes that carry them |
| Unpacker.SamplesFromGroup | Sample_1_Accelerometer_Data/process_accelerometer_data.c:363-372 | any three bytes are recovered from the two samples they unpack to, so the group layout is a bijection |
| Unpacker.UnpackPack | Sample_1_Accelerometer_Data/process_accelerometer_data.c:360-378 | packing an even number of 12-bit samples and unpacking gives them back |
| Unpacker.PackUnpack | Sample_1_Accelerometer_Data/process_accelerometer_data.c:360-378 | unpacking a whole number of groups and packing gives the bytes back |
| UnpackExamples.EmptyStreamExample | Sample_1_Accelerometer_Data/process_accelerometer_data.c:353-358 | an empty stream yields no samples |
| UnpackExamples.FullGroupExample | Sample_1_Accelerometer_Data/process_accelerometer_data.c:360-378 | FF FF FF unpacks to 4095, 4095 |
| UnpackExamples.OneByteTailExample | Sample_1_Accelerometer_Data/process_accelerometer_data.c:383-393 | a one-byte read 0F yields the single value 15 (upper nibble taken as zero) |
| UnpackExamples.TwoByteTailExample | Sample_1_Accelerometer_Data/process_accelerometer_data.c:394-413 | a two-byte read AB CD yields 0xABC then the nibble 0xD |
| UnpackExamples.LeadingZeroGroup | Sample_1_Accelerometer_Data/process_accelerometer_data.c:360-378 | a group 00 00 b unpacks to 0 and b |
| UnpackExamples.LeadingZeroTail | Sample_1_Accelerometer_Data/process_accelerometer_data.c:394-413 | a tail 00 b with b below 16 unpacks to 0 and b |
| UnpackExamples.TailLooksLikeGroup | Sample_1_Accelerometer_Data/process_accelerometer_data.c:42-45 | because of the two-byte tail policy, the tail 00 b and the group 00 00 b give the same samples |
| SignedReader.UnpackAsWritten | Sample_1_Accelerometer_Data/process_accelerometer_data.c:353-415 | the loop over a signed `char` buffer still yields 2*(n/3) + n%3 values |
| SignedReader.HighLeadByteGoesNegative | Sample_1_Accelerometer_Data/process_accelerometer_data.c:363 | with a signed buffer, a lead byte from 0x80 up makes the first sample negative, where the unsigned reading is a 12-bit value |
| SignedReader.AllOnesGroup | Sample_1_Accelerometer_Data/process_accelerometer_data.c:363-372 | with a signed buffer FF FF FF reads as -1, -1, where the format gives 4095, 4095 |
| MinHeap.Swap | Sample_1_Accelerometer_Data/process_accelerometer_data.c:115-117 | the swap exchanges two slots, leaves the rest alone and keeps the multiset |
| MinHeap.Smallest | Sample_1_Accelerometer_Data/process_accelerometer_data.c:96-109 | the chosen slot is the node or one of its in-heap children, no larger than any of them, and differs from the node only when strictly smaller |
| MinHeap.Heapify | Sample_1_Accelerometer_Data/process_accelerometer_data.c:88-121 | sift-down permutes the array and keeps its length |
| MinHeap.HeapifyFrame | Sample_1_Accelerometer_Data/process_accelerometer_data.c:88-121 | sift-down at i changes no slot outside i's subtree within the heap |
| MinHeap.HeapifyBound | Sample_1_Accelerometer_Data/process_accelerometer_data.c:88-121 | a lower bound on every value of i's subtree still holds after sift-down |
| MinHeap.HeapifyRestores | Sample_1_Accelerometer_Data/process_accelerometer_data.c:88-121 | if both child subtrees of i are min-heaps, sift-down at i makes i's subtree a min-heap |
| MinHeap.DisjointSubHeapKept | Sample_1_Accelerometer_Data/process_accelerometer_data.c:143-147 | sift-down at i leaves a later subtree outside i's subtree heap-ordered |
| MinHeap.LeavesAreHeaps | Sample_1_Accelerometer_Data/process_accelerometer_data.c:143 | every subtree rooted at n/2 or later is trivially heap-ordered |
| MinHeap.BuildHeapFrom | Sample_1_Accelerometer_Data/process_accelerometer_data.c:143-147 | the downward scan of sift-downs permutes the array |
| MinHeap.BuildHeapFromHeap | Sample_1_Accelerometer_Data/process_accelerometer_data.c:143-147 | the scan's invariant: if every subtree from k up is a heap, then after the scan from k-1 to 0 every subtree is a heap |
| MinHeap.BuildHeap | Sample_1_Accelerometer_Data/process_accelerometer_data.c:138-148 | create_min_heap gives a permutation in which every slot is no larger than its in-range children |
| MinHeap.ScanStartIsLeaf | Sample_1_Accelerometer_Data/process_accelerometer_data.c:143 | starting at n/2 instead of n/2 - 1 adds only a sift-down that changes nothing |
| MinHeap.ReplaceRoot | Sample_1_Accelerometer_Data/process_accelerometer_data.c:189-194 | overwriting the root of a heap and sifting it down gives a heap, with the root's value traded for the new one |
| MinHeap.HeapRootIsMin | Sample_1_Accelerometer_Data/process_accelerometer_data.c:32-34 | a heap's root is no larger than any slot in it |
| Sorting.TakeLeft | Sample_1_Accelerometer_Data/process_accelerometer_data.c:241-244 | taking the left value when it is no larger than the next right value (the C takes it only when strictly smaller, a special case) keeps the merged prefix sorted and made of exactly the values taken |
| Sorting.TakeRight | Sample_1_Accelerometer_Data/process_accelerometer_data.c:245-248 | taking the right value (including on ties) keeps the merged prefix sorted and made of exactly the values taken |
| Sorting.AppendRest | Sample_1_Accelerometer_Data/process_accelerometer_data.c:251-259 | a drain loop appends exactly the untaken rest of its buffer, in order |
| Sorting.MergingFinish | Sample_1_Accelerometer_Data/process_accelerometer_data.c:251-259 | once one buffer is used up, draining both yields a sorted permutation of both buffers |
| Sorting.MergeCopies | Sample_1_Accelerometer_Data/process_accelerometer_data.c:234-259 | the merge loops turn two sorted buffers into one sorted sequence holding exactly their values |
| Sorting.Merge | Sample_1_Accelerometer_Data/process_accelerometer_data.c:213-260 | with both halves sorted, [L, R] becomes sorted, keeps its values, and the slots outside [L, R] are untouched |
| Sorting.MergeSort | Sample_1_Accelerometer_Data/process_accelerometer_data.c:277-286 | [L, R] ends non-decreasing and a permutation of its original contents, with all slots outside [L, R] unchanged |
| Sorting.SortedUnique | Sample_1_Accelerometer_Data/process_accelerometer_data.c:436-458 | two sorted sequences with the same values are equal, so the sorted readout depends only on the values retained |
| TopK.HeapRootIsMinimum | Sample_1_Accelerometer_Data/process_accelerometer_data.c:32-34 | the root of the full heap is the minimum of the stored values |
| TopK.MinimumOfPermutation | Sample_1_Accelerometer_Data/process_accelerometer_data.c:180-185 | building the heap does not change the minimum, since the minimum depends only on the values |
| TopK.HeapOf | Sample_1_Accelerometer_Data/process_accelerometer_data.c:180-185 | the full store is made a heap once, holds the same values, and its root is their minimum |
| TopK.SiftIn | Sample_1_Accelerometer_Data/process_accelerometer_data.c:189-194 | replacing the root and sifting down keeps a heap and trades the root's value for the new one |
| TopK.OfferFull | Sample_1_Accelerometer_Data/process_accelerometer_data.c:177-195 | once full, a value strictly above the minimum replaces it and any other is dropped; once heapified, a value not above the root leaves the state unchanged |
| TopK.Offer | Sample_1_Accelerometer_Data/process_accelerometer_data.c:165-196 | offers 1..32 store the value at slot count and change no other slot; later offers keep the count at 32, set the flag, and swap the minimum for a strictly larger value |
| TopK.EmptyTracksNothing | Sample_1_Accelerometer_Data/process_accelerometer_data.c:168-169 | the initial state (count 0, not heapified) is the selector for the empty stream |
| TopK.OfferFillTracks | Sample_1_Accelerometer_Data/process_accelerometer_data.c:172-176 | while there is room, each offer keeps every value offered, in arrival order |
| TopK.OfferFullTracks | Sample_1_Accelerometer_Data/process_accelerometer_data.c:177-195 | once full, each offer keeps the retained values the largest offered so far |
| TopK.OfferTracks | Sample_1_Accelerometer_Data/process_accelerometer_data.c:165-196 | every offer keeps the selector invariant: the count is min(g, 32), the retained values are the largest offered, and the store is in arrival order until full |
| TopK.SelectionCorrect | Sample_1_Accelerometer_Data/process_accelerometer_data.c:10-12 | after any stream of offers to a fresh selector, the retained multiset is a sub-multiset of those offered, has size min(g, 32), and no discarded value exceeds a retained one |
| TopK.Finalize | Sample_1_Accelerometer_Data/process_accelerometer_data.c:433-466 | the readout of the store is sorted ascending and holds exactly the retained values |
| TopK.ShortStreamRetained | Sample_1_Accelerometer_Data/process_accelerometer_data.c:433-445 | with at most 32 offers, the selector retains exactly the values offered |
| TopK.SortedThree | Sample_1_Accelerometer_Data/process_accelerometer_data.c:436-445 | any sorted arrangement of 5, 3, 9 is 3, 5, 9 |
| TopK.FewSamplesExample | Sample_1_Accelerometer_Data/process_accelerometer_data.c:433-445 | offering 5, 3, 9 gives the sorted readout 3, 5, 9 |
| Recency.Record | Sample_1_Accelerometer_Data/process_accelerometer_data.c:365 | a sample goes to slot g % 32, the count advances by one, and the other 31 slots are unchanged |
| Recency.Snapshot | Sample_1_Accelerometer_Data/process_accelerometer_data.c:449-477 | the readout has min(g, 32) values; once the ring has wrapped, the c-th value read is the slot sample g - 32 + c was written to (that this is the last 32 samples in order is `Readout`) |
| Recency.ReadFromSlot | Sample_1_Accelerometer_Data/process_accelerometer_data.c:472 | the c-th slot read from g % 32 onwards, wrapping, is the slot that sample g - 32 + c was written to |
| Recency.EmptyHoldsNothing | Sample_1_Accelerometer_Data/process_accelerometer_data.c:319-322 | the zeroed ring with count 0 holds the empty stream |
| Recency.RecordKeepsRecent | Sample_1_Accelerometer_Data/process_accelerometer_data.c:365 | writing slot g % 32 overwrites only the sample 32 back, so each of the last 32 samples stays in its slot |
| Recency.RecordAllHoldsRecent | Sample_1_Accelerometer_Data/process_accelerometer_data.c:365-412 | after any stream, each of its last 32 samples sits in slot (its number) % 32 |
| Recency.ShortWindow | Sample_1_Accelerometer_Data/process_accelerometer_data.c:449-453 | with g < 32 samples, the readout is the samples in arrival order |
| Recency.FullSlot | Sample_1_Accelerometer_Data/process_accelerometer_data.c:472-477 | with g >= 32, the c-th value of the wrapped read is sample g - 32 + c |
| Recency.FullWindow | Sample_1_Accelerometer_Data/process_accelerometer_data.c:468-477 | with g >= 32, the wrapped read from slot g % 32 is the last 32 samples in arrival order |
| Recency.Readout | Sample_1_Accelerometer_Data/process_accelerometer_data.c:449-477 | a ring holding the invariant for a stream reads out its last 32 samples, oldest first |
| Recency.RecencyWindow | Sample_1_Accelerometer_Data/process_accelerometer_data.c:365-477 | after any stream, the readout equals the last min(g, 32) samples in arrival order |
| Recency.RecencyExample | Sample_1_Accelerometer_Data/process_accelerometer_data.c:468-477 | recording 1..40 reads back 9..40 |
| Driver.ReadSize | Sample_1_Accelerometer_Data/process_accelerometer_data.c:358 | a read returns three bytes, or everything left when fewer remain |
| Driver.ChunkStep | Sample_1_Accelerometer_Data/process_accelerometer_data.c:353-358 | after whole groups, one more read appends exactly that chunk's samples |
| Driver.ReadChunk | Sample_1_Accelerometer_Data/process_accelerometer_data.c:356-358 | a read advances over at most three bytes; a short read reaches the end of the stream; the samples so far grow by the chunk's |
| Driver.Feed | Sample_1_Accelerometer_Data/process_accelerometer_data.c:365-369 | handing one sample to the ring and the selector keeps both invariants for the longer stream |
| Driver.FeedPair | Sample_1_Accelerometer_Data/process_accelerometer_data.c:363-378 | handing two samples in order keeps both invariants |
| Driver.ConsumeChunk | Sample_1_Accelerometer_Data/process_accelerometer_data.c:360-413 | each read's samples reach both consumers in order, for all four read sizes |
| Driver.ReadStep | Sample_1_Accelerometer_Data/process_accelerometer_data.c:353-415 | one loop pass keeps the samples consumed equal to the unpacking of the bytes read, and both invariants |
| Driver.ReadAll | Sample_1_Accelerometer_Data/process_accelerometer_data.c:353-415 | the read loop stops, having fed exactly the unpacking of the whole stream to both consumers |
| Driver.Conclude | Sample_1_Accelerometer_Data/process_accelerometer_data.c:418-477 | no samples gives the empty-stream outcome; otherwise the report carries the count, the last min(g, 32) samples oldest first, and the largest samples sorted |
| Driver.Process | Sample_1_Accelerometer_Data/process_accelerometer_data.c:304-487 | a whole run: empty outcome exactly when the stream has no samples; otherwise total g, the recent window of the unpacked stream, and a sorted choice of its largest min(g, 32) samples |

## Left out

- File handling, argument checks and all output text are left out: `fopen`,
  `fclose`, the `argc` check, `printf`/`fprintf` and the section labels. The
  input is a byte sequence and the output is a `Report` value.
- The `num_bytes != EOF` test in the loop condition is left out. `fread`
  returns a count from 0 to 3, so only the `!= 0` test matters. Read errors
  are not modelled.
- The integer width of `g_idx` is left out. The model counts samples with an
  unbounded `nat`, so behaviour after 2^31 samples is not modelled.
- The zero-initialisation loops and the `memset` of the read buffer are
  modelled as all-zero initial states. The copy loops of `merge` and its
  variable-length stack buffers are modelled as slices.
- Unpacker.Unpack: the shifts and masks of the reader loop are stated as the
  arithmetic they perform on unsigned bytes (`x << 4` as `x * 16`, `x & 0x0F`
  as `x % 16`, and so on), not as bit operations.
- Merge-sort stability is not claimed, because ties take the right element
  first. The model follows the code here: only sortedness and the permutation
  are stated.
- The complexity claims in the header comment (heap operations, build, sort)
  are not functional properties and are not modelled.
- TopK.Finalize branches on the selector's own count rather than on `g_idx`.
  The two agree: `Tracks` makes the count `min(g, 32)`.
- SignedReader agrees with Unpack on bytes below 0x80, but no lemma states
  this for every such byte. Only the discrepancy is proved.

## Findings

| source | as written | input that shows it | evidently intended | confidence | as-written member | corrected member |
|---|---|---|---|---|---|---|
| Sample_1_Accelerometer_Data/process_accelerometer_data.c:315 | the read buffer is `char`, so where `char` is signed, bytes from 0x80 up are sign-extended when read at lines 363, 372, 386 and 397 (shifted at 363, 372 and 397); left-shifting a negative `int` is undefined in ISO C, and the values given assume the two's-complement result common compilers produce | the group FF FF FF gives -1, -1; any lead byte from 0x80 up gives a negative first sample | bytes are unsigned and every sample is in 0..4095 (header, lines 8-9 and 42-45), so FF FF FF gives 4095, 4095 | not executed | SignedReader.UnpackAsWritten (shown by SignedReader.AllOnesGroup and SignedReader.HighLeadByteGoesNegative) | Unpacker.Unpack (with Unpacker.UnpackSamples) |
