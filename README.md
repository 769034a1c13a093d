# cs149 systems exercises, modelled in Dafny

This project models four small C programs from an operating-systems course.

- **The big bag (HW4).** The bag is a 64 KiB memory-mapped file. It holds a header and a chain of records.
  - Each record has a `next` offset, a one-byte tag (FREE or USED), a 24-bit length and a string.
  - `addElement` carves a USED record out of the single free block. It then splices that record into a linked list kept in `strcmp` order.
  - `checkElement` walks the list.
  - `listElements` prints the strings, or "empty bag".
  - `deleteElement` unlinks the first equal record and tags it FREE.

  The model is the class `BigBagStore.BigBag`:
  - `records` is a map from offsets to records.
  - The header fields are class fields.
  - A ghost list of offsets and strings (`order`, `Contents`) is the abstract content.
  - The invariant `BagState.Inv` holds between calls. It says the records form a chain in list order, the strings are sorted, and every USED record is on the list. It also says every record but the free block lies wholly below the free block, the free block ends inside the file, and no two records overlap.
- **The popular-word counter (popularWords/pc.c).**
  - Words go into a hash table of 256 chained buckets. Each node holds a key and a count.
  - `keyGen` picks the bucket.
  - `List_Lookup` bumps the count of a word already present.
  - `List_Insert` adds a word with count 1.
  - `Hash_Occurance` scans every node. It keeps the running maximum count and a queue of the words with that count.

  The model is the class `PopularWords.WordTable`:
  - It has an array of 256 buckets, each a `seq` of nodes.
  - A ghost multiset `Inserted` holds every word counted so far.
  - Its invariant ties each node's count to the word's multiplicity.

  The queue is `PopularWords.WordQueue`. It holds the keys after the dummy head node.
- **The unique-word counter (uniqueWords/uc.c).**
  - Each bucket holds `int` keys, which are the djb2 hash of a word.
  - `List_Insert` adds a key only if it is absent.
  - `Hash_Size` adds up the bucket lengths.

  The model is the class `UniqueWords.WordSet`. Its ghost set of (bucket, key) pairs is the table's content, and `Hash_Size` is proved to be that set's size. Two different words with the same bucket and the same hash count once (`UniqueWords.KeyCollision`).
- **The bit counter (HW2/pbitcount.c).**
  - `intBitCounter` counts the 1 bits of an `int` by halving it.
  - `bitCounter` adds the counts over the bytes of a file.

  Both are methods proved against a reference population count.

C strings are byte sequences without a NUL (`CStrings.CStr`). `strcmp` is the lexicographic comparison of unsigned bytes, and its ordering laws are proved. Every pointer in the bag is an offset. `entry_addr` returns null exactly for offset 0, and it is injective (`BagAddressing`), so the source's pointer tests are offset tests.

Three behaviours of the bag code are modelled as the code has them:
- `entry_addr` does no bounds check, and the magic of an existing file is never validated.
- `addElement` accepts any string whose record fits in the free block. It only compares the needed size with the free record's length.
- `listElements` prints "empty bag" for an empty bag. The model returns the `EmptyBag` result.

## Model

| member | source | states |
|---|---|---|
| CStrings.SignedChar | popularWords/pc.c:66-74 | a byte read through a signed `char` lies in [-128, 128), is congruent to the byte mod 256, and equals it below 128 |
| CStrings.StrCmp | HW4/bigbag.c:140 | `strcmp` gives -1, 0 or 1 |
| CStrings.StrCmpZeroIff | popularWords/pc.c:99 | `strcmp(a, b) == 0` exactly when the strings are equal |
| CStrings.StrCmpAntisymmetric | HW4/bigbag.c:140 | swapping the arguments negates the comparison |
| CStrings.StrCmpTransitive | HW4/bigbag.c:137-157 | `<=` under `strcmp` is transitive, so the sorted walk is meaningful |
| CStrings.StrCmpTotal | HW4/bigbag.c:137-157 | any two strings are ordered one way or the other |
| BagAddressing.EntryAddr | HW4/bigbag.c:16-21 | the entry pointer is null exactly when the offset is 0 |
| BagAddressing.OffsetOfAddr | HW4/bigbag.c:16-29 | `entry_offset` inverts `entry_addr` on every nonzero offset |
| BagAddressing.AddrOfOffset | HW4/bigbag.c:16-29 | `entry_addr` inverts `entry_offset` on every address within 4 GiB above the header |
| BagAddressing.EntryOffset | HW4/bigbag.c:26-29 | adding the offset to the header address gives the entry address in its low 32 bits, whatever the two addresses are; `BagAddressing.OffsetOfAddr` and `BagAddressing.AddrOfOffset` state the exact round trips |
| BagAddressing.EntryAddrInjective | HW4/bigbag.c:16-21 | two offsets give the same pointer exactly when they are equal (the `back == front` test) |
| SortedList.InsertBefore | HW4/bigbag.c:128-169 | inserting a string into the list lengthens it by one |
| SortedList.InsertPos | HW4/bigbag.c:137-157 | the walk stops at the first string not smaller than the new one: every earlier string is smaller |
| SortedList.IndexOf | HW4/bigbag.c:235-256 | the delete walk stops at the first equal string |
| SortedList.InsertBeforeAt | HW4/bigbag.c:137-169 | the new string is placed exactly at the stopping position, with the rest unchanged on both sides |
| SortedList.InsertBeforeMultiset | HW4/bigbag.c:97-171 | an add adds exactly one copy of the string to the bag's contents |
| SortedList.InsertBeforeSorted | HW4/bigbag.c:137-169 | an add keeps the list sorted under `strcmp` |
| SortedList.RemoveFirst | HW4/bigbag.c:235-256 | the bag's contents after a delete are one shorter when the string is present and the same length otherwise |
| SortedList.RemoveFirstMultiset | HW4/bigbag.c:230-269 | a delete removes exactly one copy of the string, or nothing if it is absent |
| SortedList.RemoveFirstAt | HW4/bigbag.c:235-256 | a delete removes the first equal string and keeps the rest in order |
| SortedList.RemoveFirstAbsent | HW4/bigbag.c:263-267 | deleting an absent string leaves the list as it is |
| SortedList.RemoveAtSorted | HW4/bigbag.c:241-254 | removing any position keeps the list sorted |
| BagState.EntrySize | HW4/bigbag.c:104 | `element_entry_size`: the record prefix, the string with its NUL, and 4 more bytes (`MIN_ENTRY_SIZE` counts them); its uses are stated in `BagState.Allocate` and `BigBagStore.BigBag.Add` |
| BagState.AdvancedFree | HW4/bigbag.c:116 | `new_first_free`: the old free offset plus a pointer's size and the string with its NUL; `BagState.Allocate` states it stays inside the file |
| BagState.Splice | HW4/bigbag.c:133-166 | the `next` writes of the add walk; what they leave is stated in `BagState.ChainSplice` and `BagState.SpliceOnlyLinks` |
| BagState.Unlink | HW4/bigbag.c:241-253 | the writes of a delete; what they leave is stated in `BagState.ChainUnlink`, `BagState.UnlinkOnlyLinks` and `BagState.DeleteEffect` |
| BagState.OffsetsIn | HW4/bigbag.c:137-169 | an offset is among the list's offsets exactly when it occurs in the order |
| BagState.Allocate | HW4/bigbag.c:108-121 | carving moves the free offset to a point still inside the 64 KiB file, adds exactly that one record, and ends the new free block 4 bytes before the old one ended |
| BagState.ChainSplice | HW4/bigbag.c:128-169 | linking a USED record in at position k puts its string at position k of the list |
| BagState.ChainUnlink | HW4/bigbag.c:241-254 | bypassing the record at position k removes position k from the list |
| BagState.FreshInv | HW4/bigbag.c:326-340 | a freshly initialised file satisfies the bag invariant with an empty list |
| BagState.SpliceOnlyLinks | HW4/bigbag.c:137-169 | the walk of an add changes only `next` fields |
| BagState.UnlinkOnlyLinks | HW4/bigbag.c:241-254 | a delete keeps every record's offset, length and string, and every tag except the deleted record's, which becomes FREE; only `next` fields change otherwise |
| BagState.AllocateLayout | HW4/bigbag.c:108-121 | after carving, every other record lies below the new free block, the free block ends inside the file, and no two records overlap (the carved record ends exactly where the new free block starts) |
| BagState.SpliceUsedListed | HW4/bigbag.c:137-169 | after linking, every USED record is on the list |
| BagState.UnlinkUsedListed | HW4/bigbag.c:241-254 | after unlinking, every USED record is still on the list |
| BagState.AllocateChain | HW4/bigbag.c:108-121 | carving leaves the existing list intact, and the new record is not on it |
| BagState.AddChain | HW4/bigbag.c:97-171 | after an add, the records chain the sorted contents with the new string inserted |
| BagState.AddLayout | HW4/bigbag.c:97-171 | after an add, the layout holds with the advanced free offset |
| BagState.AddUsedListed | HW4/bigbag.c:97-171 | after an add, every USED record is on the list |
| BagState.AddKeepsInv | HW4/bigbag.c:97-171 | a successful add preserves the bag invariant |
| BagState.DeleteKeepsInv | HW4/bigbag.c:230-269 | a successful delete preserves the bag invariant |
| BagState.AddEffect | HW4/bigbag.c:104-169 | an add writes the new USED record (tag, length, string) and a FREE record whose end lies 4 bytes before the old free end; it changes only `next` fields elsewhere, and leaves records off the list untouched |
| BagState.DeleteEffect | HW4/bigbag.c:241-254 | a delete frees the record and clears its `next`, changes only `next` fields elsewhere, and leaves off-list records untouched |
| BigBagStore.BigBag.Fresh | HW4/bigbag.c:326-340 | the magic, an empty list, and one FREE record from the header to the end of the 64 KiB file |
| BigBagStore.BigBag.Add | HW4/bigbag.c:97-171 | "out of space" exactly when the free record is too short, and then nothing changes; otherwise the string is inserted in sorted position, the free offset advances, and the invariant holds |
| BigBagStore.BigBag.Check | HW4/bigbag.c:185-210 | found exactly when the string is in the bag |
| BigBagStore.BigBag.List | HW4/bigbag.c:57-77 | "empty bag" exactly when the list is empty; otherwise exactly the contents, in order |
| BigBagStore.BigBag.Delete | HW4/bigbag.c:230-269 | "deleted" exactly when the string is present: the first copy is unlinked and freed and the invariant holds; otherwise nothing changes |
| BigBagStore.CarveAndLink | HW4/bigbag.c:104-169 | carving then linking yields the spliced records and the new list head, and re-establishes the invariant for the inserted contents |
| BigBagStore.LinkIn | HW4/bigbag.c:128-169 | the two-runner walk splices the new record at the sorted position and moves the head only when that position is 0 |
| BigBagStore.UnlinkFrom | HW4/bigbag.c:235-267 | the two-runner walk finds the string exactly when it is present and unlinks its first occurrence; otherwise nothing changes |
| WordKeys.CRem | popularWords/pc.c:73 | C's `% 256` lies in (-256, 256), keeps the sign of the dividend, and is congruent to it |
| WordKeys.SignedSum | popularWords/pc.c:68-72 | the sum `keyGen` accumulates, each byte read as a signed `char`, lies between -128 times and 127 times the length |
| WordKeys.ByteSum | popularWords/pc.c:66-74 | the unsigned sum of a nonempty word is positive |
| WordKeys.Bucket | popularWords/pc.c:66-74 | the corrected bucket always indexes one of the 256 lists |
| WordKeys.KeyGenAsWritten | popularWords/pc.c:66-74 | `keyGen` as written returns C's remainder of the signed-`char` sum |
| WordKeys.KeyGen | uniqueWords/uc.c:38-46 | the corrected `keyGen` returns a bucket in [0, 256) equal to the byte sum mod 256 |
| WordKeys.KeyGenNegativeBucket | popularWords/pc.c:66-74 | the two-byte word 0xC3 0xA9 gets bucket -148 from `keyGen` as written |
| WordKeys.SignedSumAscii | uniqueWords/uc.c:38-46 | on 7-bit words the signed and unsigned sums agree |
| WordKeys.KeyGenAscii | uniqueWords/uc.c:38-46 | on 7-bit words `keyGen` as written equals the corrected bucket |
| WordKeys.SignedSumHigh | uniqueWords/uc.c:38-46 | the signed sum is the unsigned sum less 256 for each byte of 128 or more |
| WordKeys.SignedSumCongruent | uniqueWords/uc.c:38-46 | the signed and unsigned sums are congruent mod 256 |
| WordKeys.KeyGenCongruent | uniqueWords/uc.c:38-46 | `keyGen` as written is congruent to the corrected bucket, and equal to it whenever it is non-negative |
| UniqueWords.Djb2 | uniqueWords/uc.c:50-59 | djb2 in an `unsigned long` stays in [0, 2^64) |
| UniqueWords.Djb2Low | uniqueWords/uc.c:50-59 | djb2 computed mod 2^32 stays in [0, 2^32) |
| UniqueWords.AsInt32 | uniqueWords/uc.c:138-142 | storing an `unsigned int` into an `int` gives a value in the 32-bit signed range that is congruent to it mod 2^32 |
| UniqueWords.Key | uniqueWords/uc.c:137-142 | the key a word is stored under, the djb2 hash truncated to `unsigned int` and passed as `int`, lies in the 32-bit signed range |
| UniqueWords.Hash | uniqueWords/uc.c:50-59 | `hash` returns the low 32 bits of the 64-bit djb2 of the word |
| UniqueWords.Djb2LowBits | uniqueWords/uc.c:50-59 | the low 32 bits of the 64-bit djb2 equal djb2 computed in 32 bits |
| UniqueWords.Djb2Snoc | uniqueWords/uc.c:54-57 | one more character multiplies the hash by 33 and adds the signed character, mod 2^64 |
| UniqueWords.KeyCollision | uniqueWords/uc.c:135-163 | the distinct words "AzA" and "BXb" share a bucket and a key, so the table counts them as one word |
| UniqueWords.HashOfAzA | uniqueWords/uc.c:38-59 | "AzA" has djb2 193451873 and byte sum 252 |
| UniqueWords.HashOfBXb | uniqueWords/uc.c:38-59 | "BXb" has djb2 193451873 and byte sum 252 |
| UniqueWords.BucketPairsMember | uniqueWords/uc.c:154-163 | the pairs of one bucket are exactly (bucket, key) for the keys on its list |
| UniqueWords.BucketPairsSize | uniqueWords/uc.c:61-73 | a list without repeated keys contributes as many pairs as it has nodes |
| UniqueWords.PairsUpToMember | uniqueWords/uc.c:154-163 | the pairs of the first n buckets are those with bucket below n and key on that bucket's list |
| UniqueWords.PairsUpToStep | uniqueWords/uc.c:154-163 | adding one more bucket adds its list length to the number of pairs |
| UniqueWords.WordSet.constructor | uniqueWords/uc.c:128-133 | 256 empty buckets, and no pairs |
| UniqueWords.WordSet.ListLookup | uniqueWords/uc.c:75-90 | 0 exactly when the key is on the bucket's list, otherwise -1 |
| UniqueWords.WordSet.ListInsert | uniqueWords/uc.c:92-114 | 0 and the key prepended exactly when it was absent; otherwise -1 and no change; other buckets untouched; no repeats |
| UniqueWords.WordSet.ListSize | uniqueWords/uc.c:61-73 | the walk from the head to the null pointer counts exactly the nodes on the bucket's list |
| UniqueWords.WordSet.HashInsert | uniqueWords/uc.c:135-145 | 0 exactly when the word's (bucket, key) pair is new; the pair set gains exactly that pair; the invariant holds |
| UniqueWords.WordSet.HashLookup | uniqueWords/uc.c:147-152 | 0 exactly when the word's (bucket, key) pair is in the table |
| UniqueWords.WordSet.HashSize | uniqueWords/uc.c:154-163 | the total number of nodes equals the number of distinct (bucket, key) pairs inserted |
| PopularWords.Bump | popularWords/pc.c:94-107 | a lookup keeps the list's length, each node's key and the set of keys, and never lowers a count |
| PopularWords.Recorded | popularWords/pc.c:110-129 | after `List_Insert` the word is on the list, which grows by one node exactly when the word was absent |
| PopularWords.KeysMember | popularWords/pc.c:94-107 | a word is a key exactly when some node holds it |
| PopularWords.CountOfAt | popularWords/pc.c:94-107 | the count of a word is the count of its first node |
| PopularWords.CountOfAbsent | popularWords/pc.c:94-107 | a word on no node has count 0 |
| PopularWords.CountOfNode | popularWords/pc.c:168-203 | a nonzero count is the count of a node holding the word |
| PopularWords.BumpCount | popularWords/pc.c:94-107 | a lookup adds one to the count of the word if it is present, and changes no other count |
| PopularWords.BumpAbsent | popularWords/pc.c:94-107 | a lookup of an absent word changes nothing |
| PopularWords.BumpAt | popularWords/pc.c:94-107 | a lookup increments exactly the first node holding the word |
| PopularWords.KeysCount | popularWords/pc.c:94-129 | in a well-formed bucket a word is present exactly when its count is positive |
| PopularWords.PrependKeepsBucket | popularWords/pc.c:110-129 | prepending a new word with count 1 keeps a bucket well formed |
| PopularWords.RecordInBucket | popularWords/pc.c:154-158 | counting a word keeps its bucket well formed and adds one to its count only |
| PopularWords.RecordKeepsTable | popularWords/pc.c:154-158 | counting a word keeps every count equal to the word's multiplicity in the words counted so far |
| PopularWords.MaxCount | popularWords/pc.c:78-91 | the maximum is non-negative, bounds every count, and is 0 or attained by some node |
| PopularWords.ScanStep | popularWords/pc.c:177-199 | one more node raises the maximum to its count if larger, and queues it if its count matches |
| PopularWords.WithCountAbove | popularWords/pc.c:186-197 | no node has a count above the maximum |
| PopularWords.WithCountMember | popularWords/pc.c:168-203 | a word is queued exactly when a node holds it with the target count |
| PopularWords.FlattenMember | popularWords/pc.c:174-201 | the scan sees exactly the nodes of all buckets |
| PopularWords.NodeIsMultiplicity | popularWords/pc.c:168-203 | every node's count is its word's multiplicity, and at least 1 |
| PopularWords.MultiplicityIsNode | popularWords/pc.c:168-203 | every counted word has a node holding its multiplicity |
| PopularWords.MaximumIsLargestMultiplicity | popularWords/pc.c:168-203 | the maximum bounds every word's multiplicity, and is 0 exactly when nothing was counted |
| PopularWords.QueuedAreMostFrequent | popularWords/pc.c:168-203 | a word is in the result queue exactly when it was counted and its multiplicity is the maximum |
| PopularWords.WordQueue.constructor | popularWords/pc.c:214-221 | the queue starts empty |
| PopularWords.WordQueue.Enqueue | popularWords/pc.c:224-241 | the value is appended at the tail |
| PopularWords.WordQueue.Dequeue | popularWords/pc.c:244-266 | -1 and no change on an empty queue; otherwise 0, the head value, and the rest of the queue |
| PopularWords.WordTable.constructor | popularWords/pc.c:146-151 | 256 empty buckets, and nothing counted |
| PopularWords.WordTable.ListLookup | popularWords/pc.c:94-107 | 0 exactly when the word is on the bucket's list, whose first node for it is incremented; -1 and no change otherwise |
| PopularWords.WordTable.ListInsert | popularWords/pc.c:110-129 | 0 exactly when the word was absent, and it is prepended with count 1; otherwise the existing node is incremented |
| PopularWords.WordTable.ListSize | popularWords/pc.c:78-91 | the largest count on the bucket's list, or 0 |
| PopularWords.WordTable.HashInsert | popularWords/pc.c:154-158 | 0 exactly when the word is new; the counted words gain one copy of it; the invariant holds |
| PopularWords.WordTable.HashLookup | popularWords/pc.c:161-165 | 0 exactly when the word was counted before, and then it gains one more copy; otherwise nothing changes |
| PopularWords.WordTable.HashOccurrence | popularWords/pc.c:168-203 | a fresh queue holding exactly the words whose count is the largest count, in bucket and list order, and that count |
| BitCount.Pow2 | HW2/pbitcount.c:76-86 | a helper for stating `BitCount.PopcountBound`, not a part of the source: a power of two is at least 1 |
| BitCount.CHalf | HW2/pbitcount.c:83 | C's `i / 2` is floor division for non-negative `i`, and moves a negative `i` strictly toward 0 |
| BitCount.COddTest | HW2/pbitcount.c:81 | C's `i % 2 == 1` holds exactly for odd non-negative `i` |
| BitCount.IntBitCounter | HW2/pbitcount.c:76-86 | the number of 1 bits of a non-negative `i`, and 0 for a negative `i` |
| BitCount.PopcountAppendBit | HW2/pbitcount.c:76-86 | appending a bit b adds b to the count of ones |
| BitCount.PopcountBound | HW2/pbitcount.c:76-86 | a number below 2^k has at most k ones |
| BitCount.PopcountByte | HW2/pbitcount.c:63-70 | a byte from `fgetc` has at most 8 ones |
| BitCount.BitCounter | HW2/pbitcount.c:59-73 | the sum over the file's bytes of their bit counts |
| BitCount.SumPopcountAppend | HW2/pbitcount.c:59-73 | the count of a whole file is the sum of the counts of its two parts |
| BitCount.SumPopcountBound | HW2/pbitcount.c:59-73 | a file of n bytes has at most 8n ones |

## Left out

- BigBagStore.BigBag.Add: requires the record size `MIN_ENTRY_SIZE + strlen + 1` to fit in 32 bits. The source computes `element_entry_size` in a `uint32_t` and does not reject longer strings. For a string of 2^32 - 13 + k bytes the size wraps to k. When k is at most the free length, the test `front->entry_len >= element_entry_size` passes and `strcpy` writes far past the 64 KiB mapping. That overrun is undefined behaviour, which the model excludes by this requires instead of modelling it.
- The bag's byte layout is not modelled. That covers byte order, the packed 8-bit tag and 24-bit length bitfields, and the bytes of each string inside the file. Records are map entries keyed by offset. The layout invariant records where each record starts and how far it extends.
- `entry_addr` does no bounds check, and a record written past 64 KiB would be undefined behaviour. The model keeps records as map entries and does not model memory outside the file. The magic of an existing file is never validated, and the model does not validate it either.
- The bag's `main` is not modelled: argument parsing, `open`/`mmap`/`ftruncate`, the command loop and `printCommands`. The constructor `Fresh` models only the initialisation of an empty file. Opening an existing file is not modelled.
- Printed messages become results: `AddOutcome`, `DeleteOutcome`, `Listing`, and a boolean for "found"/"not found".
- Threads and mutexes are not modelled. This covers `fileHandler`, `counter` and `wordCounter`, `main`, and every `pthread` call. The tables and the queue are modelled sequentially.
- Reading words with `fscanf` and bytes with `fgetc` is not modelled. The words are the methods' arguments, and the file is the byte sequence `BitCounter` takes.
- `malloc` failure, and the early return it causes in `Queue_Enqueue` and `List_Insert`, is not modelled. Nor are `List_Free`, `Hash_Free`, `Queue_Free` and the other `free` calls.
- `Queue_Init` leaves the dummy node's key uninitialised, and `Queue_Dequeue` then frees it. Memory ownership is not modelled, so this is not either.
- PopularWords.WordQueue.Dequeue: on an empty queue the C code leaves `*value` untouched. The model returns an empty string in that case, and its contract says nothing about the value.
- PopularWords.WordTable.HashOccurrence: the C code copies each dequeued key and then frees the copy. The model does not keep those copies.
- Several C `int`s are unbounded integers in the model. Overflow is not modelled for any of them:
  - the node counts in `pc.c`, which would need more than 2^31 occurrences of a word;
  - the totals in `pbitcount.c`, which would need a file of more than 2^28 bytes;
  - the accumulator `count` of both `keyGen`s (`pc.c` 68-73, `uc.c` 40-45), which would need a word of about 17 MB;
  - the total in `Hash_Size` (`uc.c` 157-162), which would need more than 2^31 distinct keys.
- BagState.Allocate: the new FREE record gets `next` 0 and an empty string. `addElement` writes only that record's tag and length. The bytes it leaves are zero, because `ftruncate` zero-fills the file and the free block only moves forward, and no operation reads them.
- The source calls `keyGen` with its signed-`char` reading. The tables index with the corrected bucket, which differs only for words with bytes of 128 or more (see Findings).

## Findings

| source | as written | input that shows it | evidently intended | confidence | as-written member | corrected member |
|---|---|---|---|---|---|---|
| popularWords/pc.c:66-74 and uniqueWords/uc.c:38-46 | `keyGen` sums the characters through a signed `char` and reduces with C's truncating `%`, so a word with bytes of 128 or more can get a negative bucket. `H->lists[keyGen(word)]` then indexes before the array. | The word "é" in UTF-8 (bytes 0xC3 0xA9) gives -61 + -87 = -148, and -148 % 256 is -148. | Read the bytes as unsigned, so the bucket is the byte sum mod 256, always in [0, 256). The value as written is congruent to this and equals it whenever it is non-negative (`WordKeys.KeyGenCongruent`). | not executed | WordKeys.KeyGenAsWritten, WordKeys.KeyGenNegativeBucket | WordKeys.KeyGen |
