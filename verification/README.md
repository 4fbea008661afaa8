# appmem, modelled and verified in Dafny

appmem puts data structures (a flat memory, a static array, an associative array) behind a
request/response packet protocol. A program uses them in-process, through a kernel thread over a
shared page, or over UDP. This project models the parts of it whose correctness is hard to see and
proves what they promise:

- the hash table behind the associative array, as nodes linked into an insertion order and into
  bucket chains, its expansion heuristic, and whole runs of adds and deletes;
- Knuth-Morris-Pratt search of strings in both directions, with the optimised failure table;
- the in-place merge sorts of linked lists, hash tables and arrays, and the list macros;
- the packet layer: encoding, dispatch and decoding against direct calls;
- the two concurrent protocols: the producer/consumer handshake on a mapped page, as every
  interleaving of two threads, and the target's receive ring, as every interleaving of clients,
  receiver and server;
- the associative array's iterators and its fixed-size kernel packets.

`dafny verify dfyconfig.toml` checks everything.

## How the files fit together

| file | what it holds |
|---|---|
| `StringSearch.dfy` | borders of a needle, both failure tables, both searches |
| `Sequences.dfy`, `Elements.dfy`, `MergeSorting.dfy`, `ListSort.dfy`, `Splices.dfy`, `LinkedLists.dfy` | list nodes; bottom-up merge sort on sequences and why it is stable; the same sort relinking nodes in memory; what cutting and splicing do to links; the list macros |
| `Bits.dfy`, `Sums.dfy`, `HashModel.dfy`, `HashConsistency.dfy`, `HashLoad.dfy`, `HashRuns.dfy`, `HashRewrites.dfy` | the hash table on sequences: its operations, the structural invariant, the load bound, runs and items that share a key, one key written again and again |
| `HashChains.dfy`, `HashTable.dfy`, `HashSessions.dfy` | the hash table in memory, proved to follow `HashModel` step by step and over whole runs |
| `WordMemory.dfy`, `StaticArray.dfy`, `ArrayPackets.dfy` | bytes seen as words; the array merge sort on bytes and its entry point; the same sort behind packets |
| `Buffers.dfy`, `Packets.dfy`, `PacketPort.dfy` | packets on values, and the same code on buffers in place |
| `SharedPage.dfy`, `MappedSessions.dfy` | the handshake, and packets through it end to end |
| `ReceiveRing.dfy`, `NetSessions.dfy` | the target's ring, and packets through it end to end |
| `Iterators.dfy`, `ItemIterators.dfy`, `FixedPackets.dfy` | iterators of the associative array by positions, and in memory over the hash table's links; its fixed packets |

The imperative parts are methods and classes over arrays and linked nodes. Each is tied by its
`ensures` to a function on values, and the laws are proved about those functions. The concurrent
protocols are state machines whose steps are the individual reads and writes of shared memory;
their laws are proved for every sequence of steps.

## Where the code is not what its documentation or evident intent says

- Adding a key that is already live does not replace its value, as `inc/am_assca.h:54` describes: a
  second item is linked in, and which of them a lookup returns depends on how many expansions there
  have been since (`HashRuns.LookupParity`). Under every hash function, one key written again and
  again reads back as the last value after every write but the tenth and the hundred-and-tenth
  (`HashRewrites.RewritesReadBackIff`).
- The range sort scales its start index by the number of elements and its end index by their size
  (`appmemlib/am_stata.c:207`). A request for two or more elements is taken on and leaves them
  ascending, whatever the array holds, exactly when it starts at element 0 or the array has four
  elements (`StaticArrays.RangeSortedIff`).
- A sort request is announced two bytes longer than it is, because the size of a write packet
  structure with its padding is added. A parameter one or two bytes short, which the array refuses
  when called directly, is sorted through packets as the whole one is; the two agree exactly when
  the parameter has another length or is refused for what it says
  (`ArrayPackets.ArraySortTransparentIff`).
- A receive ring is safe up to one client fewer than it has slots; with as many clients as slots it
  can look empty when it is full (`ReceiveRing.NeverLooksEmptyIff`).
- A refused iterator call clears the last slot, whosever it is, and a new iteration can be given the
  slot of one that is at its end. For every handle, a call leaves the other iterations undisturbed
  exactly when it does neither (`Iterators.UndisturbedIffHarmless`).

The handshake on a mapped page works exactly from pages whose index words are not both start values
and whose state word is not the synchronized one (`SharedPage.NeverStuckIff`). The page the driver
hands out is such a page (`SharedPage.NewPageIsPrepared`).

## Model

| member | source | states |
|---|---|---|
| `StringSearch.BuildTable` | inc/ut-hash/utstring.h:156-192 | entry i of the forward table is the longest proper border of the first i characters that the next character does not extend, or -1; entry n is the needle's longest proper border |
| `StringSearch.BuildTableBackwards` | inc/ut-hash/utstring.h:196-232 | the right-to-left table is the exact mirror of the reversed needle's table |
| `StringSearch.FindWithTable` | inc/ut-hash/utstring.h:236-265 | with a finished table, the least occurrence, or -1 only when there is none |
| `StringSearch.FindBackwardsWithTable` | inc/ut-hash/utstring.h:269-299 | with a finished mirrored table, the greatest occurrence, or -1 only when there is none |
| `StringSearch.Find` | inc/ut-hash/utstring.h:303-345 | the least occurrence at or after the start, counted from the end when negative; -1 exactly when there is none or the needle is empty, early length test included |
| `StringSearch.FindBackwards` | inc/ut-hash/utstring.h:349-387 | the greatest occurrence that ends at or before the start; -1 exactly when there is none or the needle is empty |
| `StringSearch.CandidateFallsBack` | inc/ut-hash/utstring.h:168-171 | falling back through a table entry loses no border that the next character could extend |
| `StringSearch.SharedCharacterEntry` | inc/ut-hash/utstring.h:174-188 | when the next characters agree, copying the border's own entry is right |
| `StringSearch.ScanningFallsBack` | inc/ut-hash/utstring.h:250-253 | falling back during the search skips no occurrence |
| `MergeSorting.SortIsStable` | inc/ut-hash/utlist.h:108-304 | for every total preorder the passes with runs of 1, 2, 4, ... end in a sorted, stable permutation |
| `MergeSorting.MergeStable` | inc/ut-hash/utlist.h:133-153 | merging two sorted runs, left one first on ties, sorts their concatenation stably |
| `MergeSorting.PassDoublesRuns` | inc/ut-hash/utlist.h:123-155 | one pass turns sorted runs of k into sorted runs of 2k |
| `ListSort.MergeRuns` | inc/ut-hash/utlist.h:195-217 | relinking the nodes of two runs appends exactly their merge to the output and keeps the rest of the list intact |
| `ListSort.MergePass` | inc/ut-hash/utlist.h:182-222 | a pass relinks the list into the sequence the pass computes, closes both ends for its shape and counts its merges |
| `ListSort.SortList` | inc/ut-hash/utlist.h:108-304 | the four sorts leave the same nodes, linked null-ended, circular or in hash order, in exactly the order of the sort on sequences |
| `ListSort.StableSortList` | inc/ut-hash/utlist.h:171-304 | for every total preorder the list ends as a stable sort of itself with head, tail and both links right |
| `LinkedLists.Prepend` | inc/ut-hash/utlist.h:507-517 | DL_PREPEND puts the node first and keeps the doubly linked shape |
| `LinkedLists.Append` | inc/ut-hash/utlist.h:522-534 | DL_APPEND puts the node last and keeps the shape |
| `LinkedLists.Concat` | inc/ut-hash/utlist.h:539-552 | DL_CONCAT is concatenation, with either list empty too |
| `LinkedLists.Delete` | inc/ut-hash/utlist.h:557-572 | DL_DELETE removes exactly that node, wherever it is, and keeps the shape |
| `LinkedLists.Replace` | inc/ut-hash/utlist.h:603-627 | DL_REPLACE_ELEM puts the new node in the place of the given one |
| `LinkedLists.InsertBefore` | inc/ut-hash/utlist.h:629-643 | DL_PREPEND_ELEM inserts right before the given node |
| `LinkedLists.PrependCircular` | inc/ut-hash/utlist.h:651-663 | CDL_PREPEND puts the node first in the circle |
| `LinkedLists.DeleteCircular` | inc/ut-hash/utlist.h:668-677 | CDL_DELETE removes exactly that node and keeps the circle closed |
| `LinkedLists.ReplaceCircular` | inc/ut-hash/utlist.h:722-740 | CDL_REPLACE_ELEM puts the new node in the place of the given one |
| `LinkedLists.InsertBeforeCircular` | inc/ut-hash/utlist.h:742-754 | CDL_PREPEND_ELEM inserts right before the given node |
| `Bits.AndMask` | inc/ut-hash/uthash.h:203-206 | masking with 2^k - 1 is the remainder modulo 2^k |
| `HashModel.ToBucketIsMod` | inc/ut-hash/uthash.h:203-206 | in every consistent table the bucket number is the hash modulo the number of buckets, and in range |
| `HashModel.IdealIsCeiling` | inc/ut-hash/uthash.h:653-684 | shift and mask compute ceil(items / new buckets) |
| `HashConsistency.AddConsistent` | inc/ut-hash/uthash.h:178-201 | adding keeps what HASH_FSCK checks, expansion included, and appends the item to the order |
| `HashConsistency.DeleteConsistent` | inc/ut-hash/uthash.h:220-253 | deleting keeps what HASH_FSCK checks and takes exactly that item out of the order |
| `HashConsistency.ExpandConsistent` | inc/ut-hash/uthash.h:671-717 | expanding keeps what HASH_FSCK checks: same items, each once in the bucket its hash selects, a power of two of buckets |
| `HashConsistency.ExpandKeepsLookups` | inc/ut-hash/uthash.h:671-717 | expanding changes neither the items nor the lookup of any key that at most one live item has |
| `HashConsistency.NewCounts` | inc/ut-hash/uthash.h:686-705 | the new chains hold as many items together as the table |
| `HashConsistency.FindCorrect` | inc/ut-hash/uthash.h:99-110 | lookup finds a live item with the key exactly when there is one |
| `HashConsistency.ReorderedConsistent` | inc/ut-hash/uthash.h:724-809 | reordering the items keeps what HASH_FSCK checks |
| `HashConsistency.ReorderedLookups` | inc/ut-hash/uthash.h:724-809 | reordering the items changes no lookup |
| `HashLoad.ItemsBounded` | inc/ut-hash/uthash.h:616-627 | a table within its load bound has at most 20 items a bucket |
| `HashLoad.ExpandLoaded` | inc/ut-hash/uthash.h:682-717 | an expansion computes an ideal length from 1 to 10, so never divides by zero, and leaves the multipliers summing to at most the number of buckets and every chain within 10 * (multiplier + 1) |
| `HashLoad.AddLoaded` | inc/ut-hash/uthash.h:616-627 | adding keeps the load bound and any expansion it triggers has an ideal length from 1 to 10 |
| `HashLoad.DeleteLoaded` | inc/ut-hash/uthash.h:630-640 | deleting keeps the load bound |
| `HashRuns.RunAgreesWithReference` | inc/ut-hash/uthash.h:99-253 | every run of adds and deletes agrees with an insertion-ordered list: same items, same order, and lookup succeeds exactly on live keys, with the one item when live keys are distinct |
| `HashRuns.RunBounds` | inc/ut-hash/uthash.h:616-717 | in every reachable state that still expands the multipliers sum to at most the number of buckets, every chain is within 10 * (multiplier + 1) and the table within 20 items a bucket |
| `HashRuns.EveryExpansionIsExact` | inc/ut-hash/uthash.h:682-715 | every expansion of every run computes an ideal length from 1 to 10, doubles the buckets, gives each bucket of c items beyond the ideal the multiplier m with m * ideal <= c < (m + 1) * ideal and any other 0, counts the items beyond the ideal, and is held ineffective exactly if they are more than half |
| `HashRuns.QuietStep` | inc/ut-hash/uthash.h:178-253 | any other operation that leaves items changes no multiplier and no statistic |
| `HashRuns.RunStopsAfterTwo` | inc/ut-hash/uthash.h:710-715 | in every reachable state expansion has stopped exactly if two ineffective expansions in a row were counted, never more |
| `HashRuns.MovedReverses` | inc/ut-hash/uthash.h:686-705 | an expansion reverses the order of any two items that stay in one chain |
| `HashRuns.StepKeepsParity` | inc/ut-hash/uthash.h:616-717 | every operation keeps the law that in a chain the newer item is in front exactly when an even number of expansions has passed since it was added |
| `HashRuns.LookupParity` | inc/ut-hash/uthash.h:602-705 | when two or more live items share a key, lookup returns the newest exactly when the number of expansions since its add, its own included, is even |
| `HashRuns.ReadAfterWrite` | appmemlib/am_assca.c:87-114 | a key reads back as the item just added exactly when the add triggers no expansion or no other live item has the key |
| `HashRewrites.RewritesReadBackIff` | appmemlib/am_assca.c:87-114 | however often one key is written to an empty array, under every hash function, the last write reads back after every write but the tenth and the hundred-and-tenth, and all writes stay live |
| `HashRewrites.BucketsAfter` | inc/ut-hash/uthash.h:616-717 | such a table has 32 buckets below ten writes, 64 below a hundred and ten and 128 for ever after |
| `HashRewrites.SoleExpansion` | inc/ut-hash/uthash.h:682-715 | expanding a table whose items share a bucket and do not exceed the new buckets gives that bucket as many ideal lengths as items and is ineffective |
| `HashChains.PushOnto` | inc/ut-hash/uthash.h:616-622 | linking a node at the head of its bucket keeps every chain's links and counts |
| `HashChains.RemoveFrom` | inc/ut-hash/uthash.h:630-640 | unlinking a node from its bucket keeps every chain's links and counts |
| `HashChains.Redistribute` | inc/ut-hash/uthash.h:680-705 | moving every node to the new array builds exactly the reversed split chains, their multipliers and the sum of the items beyond the ideal length |
| `HashChains.Rehash` | inc/ut-hash/uthash.h:680-705 | the new array is the one the model's expansion gives |
| `HashTables.HashTable.constructor` | appmemlib/am_assca.c:54-54 | a table with no head is valid and empty, and its memory its own |
| `HashTables.HashTable.FindInBucket` | inc/ut-hash/uthash.h:602-613 | walking a chain gives its first node with the key, or null |
| `HashTables.HashTable.Find` | inc/ut-hash/uthash.h:99-110 | finds a live item with the key exactly when there is one, the first in its chain |
| `HashTables.HashTable.Make` | inc/ut-hash/uthash.h:146-163 | a fresh table has 32 empty buckets and zero statistics |
| `HashTables.HashTable.AppendToOrder` | inc/ut-hash/uthash.h:178-196 | appends a node to the doubly linked insertion order and moves the tail |
| `HashTables.HashTable.ExpandBuckets` | inc/ut-hash/uthash.h:671-717 | in memory, the expansion of the model: links, counts, multipliers and statistics |
| `HashTables.HashTable.Add` | inc/ut-hash/uthash.h:178-201 | keeps HASH_FSCK's invariant and takes the table to the model's add, with the node last in the order; the bucket array is the old one or a new one |
| `HashTables.HashTable.UnlinkFromOrder` | inc/ut-hash/uthash.h:231-247 | takes one node out of the insertion order and fixes head and tail |
| `HashTables.HashTable.Delete` | inc/ut-hash/uthash.h:220-253 | keeps HASH_FSCK's invariant and removes exactly that item; deleting the only one frees the table |
| `HashTables.HashTable.Sort` | inc/ut-hash/uthash.h:724-809 | keeps HASH_FSCK's invariant, sorts the insertion order stably for every total preorder, and changes nothing else and no lookup |
| `HashTables.HashTable.Release` | appmemlib/am_assca.c:130-171 | deleting while iterating with the saved successor removes every item and terminates |
| `HashSessions.Perform` | inc/ut-hash/uthash.h:178-253 | one add or delete in memory is one step of the run |
| `HashSessions.Session` | inc/ut-hash/uthash.h:178-253 | a table that is made and then used by any legal sequence of adds and deletes is valid in memory at the end and holds the table of the run, to which the run theorems apply |
| `StaticArrays.MergeHalves` | appmemlib/am_stata.c:72-128 | the words of the range become the merge of the two runs, right run first on ties, and no other byte changes |
| `StaticArrays.MergeSort` | appmemlib/am_stata.c:130-150 | from any start byte, aligned or not, the words up to the end become their sort and no other byte changes; it stays inside a buffer of the range's size and terminates |
| `StaticArrays.MergeSortedCorrect` | appmemlib/am_stata.c:130-150 | that sort is an ascending permutation |
| `StaticArrays.SortedFromCorrect` | appmemlib/am_stata.c:130-150 | so the words in memory end as an ascending permutation of themselves, and the memory outside them is unchanged |
| `StaticArrays.MergeSortBegin` | appmemlib/am_stata.c:152-185 | which status is returned when, and that anything but success leaves the array alone |
| `StaticArrays.StaticArray.Sort` | appmemlib/am_stata.c:187-277 | for every request, which status it gets; on success the words from the scaled start byte to the end are sorted, from start 0 and end index 0 the whole array, from start 0 and another end index the elements up to it, as ascending permutations with the rest unchanged; otherwise the array is unchanged |
| `StaticArrays.WhatIsRefused` | appmemlib/am_stata.c:196-272 | all that a request is refused for |
| `StaticArrays.FromStartSorts` | appmemlib/am_stata.c:215-231 | a request from element 0 of two or more is taken on; end index 0 sorts the whole array, any other the elements up to it, and the rest is unchanged |
| `StaticArrays.AcceptedSorts` | appmemlib/am_stata.c:187-277 | any accepted request, aligned or not, leaves the words at its start byte and every four bytes up to the last element an ascending permutation and changes no other byte |
| `StaticArrays.StaticArray.constructor` | appmemlib/am_stata.c:353-374 | an array with memory of its own for its elements |
| `StaticArrays.RangeSortedIff` | appmemlib/am_stata.c:204-229 | a request for two or more elements is taken on and leaves them ascending, for every content of the array, exactly when it starts at element 0 or the array has four elements |
| `StaticArrays.RightStartSorts` | appmemlib/am_stata.c:215-258 | then they are a permutation of what they were and nothing else changes |
| `StaticArrays.WrongStartMisses` | appmemlib/am_stata.c:207-208 | for every other request an array that it refuses to sort or leaves out of order |
| `StaticArrays.SortMissesStart` | appmemlib/am_stata.c:207-208 | a request for elements 2 to 7 of eight succeeds and leaves elements 2 and 3 out of order if they were |
| `Packets.WrapperRoundTrip` | inc/appmemlib.h:317-324 | the eight wrapper bytes give back the fields, cut to their widths |
| `Packets.WrapperLayout` | inc/appmemlib.h:317-324 | where each field lies, low byte first |
| `Packets.RequestFields` | appmemlib/appmem_pack.c:104-115 | a request carries the function's handle, the buffer's tag, its type, operation, announced length and payload |
| `Packets.AnnouncedLength` | appmemlib/appmem_pack.c:102-249 | a request is announced as long as it is, a 32-bit write one byte longer and a sort two |
| `Packets.FinishedResponse` | appmemlib/appmem_pack.c:420-436 | a finished response carries the status, and on success its size and body |
| `Packets.ResponseEchoes` | appmemlib/appmem_pack.c:334-436 | every response but an opcode-only one carries the request's function, operation and tag, its type with the response flag, and as its size the number of bytes sent |
| `Packets.ResponseLength` | appmemlib/appmem_pack.c:355-436 | how many bytes are sent: twelve with the error flag, else the wrapper, with the data for a read, or what a fixed-in-variable-out handler reports |
| `Packets.OpcodeOnlyProcessed` | appmemlib/appmem_pack.c:372-376 | an opcode-only handler is given a response that answers the request; what it leaves there is sent at the length it reports, or its status is |
| `Packets.ReadProcessed` | appmemlib/appmem_pack.c:352-361 | a read request calls its handler with the index, and its status or data reach the response |
| `Packets.WriteProcessed` | appmemlib/appmem_pack.c:362-368 | a write request calls its handler with index and data, and its status reaches the response |
| `Packets.ActionProcessed` | appmemlib/appmem_pack.c:392-397 | an action calls its handler with the parameter and the announced length less the wrapper, and its status reaches the response |
| `Packets.ActionLengthWraps` | appmemlib/appmem_pack.c:395-395 | that length wraps modulo 2^64 when the announced one is below eight |
| `Packets.SentIsDecoded` | appmemlib/appmem_pack.c:117-128 | a response sent as a datagram and received over any buffer is decoded as it was |
| `Packets.ShortReadIsRefused` | appmemlib/appmem_pack.c:117-172 | a good response too short for its data gives the reader an error and no data |
| `Packets.NoFunctionIsRefused` | appmemlib/appmem_pack.c:414-426 | a packet for no function is refused with its own status |
| `Packets.AccessIsTransparent` | appmemlib/appmem_pack.c:90-242 | a read or write through encode, dispatch and decode does to the device and gives the caller what the direct call does, errors included, whatever the buffers held |
| `Packets.UnregisteredIsRefused` | appmemlib/appmem_pack.c:407-436 | an operation the function has not registered is refused and the device left alone |
| `Packets.FivoProcessed` | appmemlib/appmem_pack.c:379-390 | a fixed-in-variable-out request's status and answer reach the response, with the length its handler reports |
| `Packets.UnknownTypeIsRefused` | appmemlib/appmem_pack.c:401-433 | for every operation in the table, a packet of an unknown type is refused with its own status and the device left alone |
| `Packets.WideFormsAgree` | appmemlib/appmem_pack.c:133-242 | the 32-bit forms have the effect and result of the generic ones although the write's length is one more |
| `Packets.SortThroughPackets` | appmemlib/appmem_pack.c:244-270 | the device gets the sender's parameter followed by what the buffer held, announced two bytes longer |
| `Packets.SortIsTransparentIff` | appmemlib/appmem_pack.c:244-270 | a sort through packets agrees with the direct call exactly when its parameter is not one or two bytes short, or the device refuses what it makes of the buffer |
| `Packets.SessionsAgree` | appmemlib/appmem_pack.c:90-440 | any sequence of reads, writes and sorts through one pair of buffers ends with the device and the results of the direct calls |
| `ArrayPackets.SortArray` | appmemlib/am_stata.c:187-277 | the handler on values is what the array's own sort does in memory |
| `ArrayPackets.ArraySortTransparentIff` | appmemlib/appmem_pack.c:244-270 | for the static array, a sort through packets is the direct sort exactly when its parameter does not have 18 or 19 bytes or would be refused anyway |
| `ArrayPackets.ShortSortSorts` | appmemlib/appmem_pack.c:244-270 | a parameter of 18 or 19 bytes sorts through packets as the 20 bytes do, whatever the padding |
| `ArrayPackets.ShortSortDiffers` | appmemlib/appmem_pack.c:244-270 | eighteen bytes that ask for the whole of an array [1, 0] are refused directly and sort it through packets |
| `PacketPorts.Port.Fill` | appmemlib/appmem_pack.c:90-130 | the request in the transmit buffer, every byte of it |
| `PacketPorts.Port.ProcessCmd` | appmemlib/appmem_pack.c:322-440 | the dispatcher's device, response buffer and length for every packet type, known or not, and every status |
| `PacketPorts.Port.Invoke` | appmemlib/appmem_pack.c:90-270 | one call in place is encode, dispatch, decode on values |
| `PacketPorts.Port.Access` | appmemlib/appmem_pack.c:272-317 | a read or write is the direct call, in the 32-bit form exactly when both sizes are four |
| `PacketPorts.Port.SortDevice` | appmemlib/appmem_pack.c:244-270 | what a sort does for every parameter length |
| `SharedPage.RunInvariant` | appmemlib/appmem_kd.c:379-530 | from every prepared page and over every interleaving, the page, both threads and the device agree with the history of requests |
| `SharedPage.BuffersNeverShared` | appmemk/appmemk.c:192-221 | the client and the device are never both in the buffers |
| `SharedPage.IndicesStayClose` | appmemlib/appmem_kd.c:422-434 | (mapPi - mapCi) mod 2^32 is 0 or 1 after synchronization, across wraparound |
| `SharedPage.RunIsDirectExecution` | appmemk/appmemk.c:192-221 | each request is executed exactly once and in order, and device and answers are those of executing the requests directly |
| `SharedPage.NoPhantomCommand` | appmemlib/appmem_kd.c:513-530 | the client begins with uPI = mapPi = mapCi and nothing executed, and the device never executes what was not published |
| `SharedPage.SyncedAfterCopy` | appmemk/appmemk.c:170-189 | SYNCED is written only after the client has seen both start values and copied mapCi to mapPi |
| `SharedPage.SessionOpens` | appmemlib/appmem_kd.c:497-530 | from every prepared page, the driver's among them, some run synchronizes and brings the client to its first call |
| `SharedPage.SyncIsAnnounced` | appmemk/appmemk.c:170-188 | in every reachable state a client that waits for the device is told SYNCED after at most three device turns |
| `SharedPage.GivesUp` | appmemlib/appmem_kd.c:497-513 | a client that never sees both start values looks for them fifteen times and gives up |
| `SharedPage.RequestIsSent` | appmemlib/appmem_kd.c:393-426 | a client between calls publishes its request with its next three steps |
| `SharedPage.RequestIsAnswered` | appmemk/appmemk.c:204-219 | a published request is answered after at most the device's next five steps |
| `SharedPage.AnswerIsTaken` | appmemlib/appmem_kd.c:428-445 | an answered client has one more answer after its next two steps |
| `SharedPage.CallCompletes` | appmemlib/appmem_kd.c:409-446 | from every reachable state in which the client has seen the start values, some continuation brings it between calls with every request answered |
| `SharedPage.StartValuesCanStick` | appmemlib/appmem_kd.c:497-523 | from a page that held both start values beforehand there would be a run after which the two sides wait for each other |
| `SharedPage.SyncedPageCanStick` | appmemlib/appmem_kd.c:517-526 | and likewise from a page whose state word was the synchronized one |
| `SharedPage.StuckForever` | appmemk/appmemk.c:173-184 | a state that no single turn changes never changes |
| `SharedPage.NeverStuckIff` | appmemk/appmemk.c:170-189 | from any page, no run reaches a state, other than the client's having given up, that no turn changes, exactly when the index words are not both start values and the state word is not the synchronized one |
| `SharedPage.NewPage` | appmemk/appmemk.c:255-276 | the page the driver hands out is zero behind its greeting |
| `SharedPage.NewPageIsPrepared` | appmemk/appmemk.c:255-276 | that page meets the condition, so everything proved of runs holds of it |
| `MappedSessions.DispatchedCall` | appmemk/appmemk.c:204-219 | one request executed by the device thread and decoded is the direct call |
| `MappedSessions.ReplayedSession` | appmemk/appmemk.c:192-221 | executing the requests of a session in order gives the direct session |
| `MappedSessions.MappedCallsAreDirect` | appmemlib/appmem_kd.c:379-446 | over every interleaving, a client between calls has the results of calling the device directly, and the device is as those calls leave it |
| `ReceiveRing.StepKeeps` | am_targ/am_target.c:182-254 | every step of clients, receiver and server keeps indices, slots and history in agreement |
| `ReceiveRing.ServiceIsFifo` | am_targ/am_target.c:541-639 | with fewer clients than slots every run executes received commands once each in order, overwrites none that waits, and holds at most one entry more than there are clients |
| `ReceiveRing.RepliesAreOwn` | am_targ/am_target.c:541-591 | over every run the device is as executing the commands in received order leaves it, and a client that is not waiting has got, one for each datagram it sent and in their order, exactly the datagrams that this answers to its own |
| `ReceiveRing.IdleClientSends` | appmemlib/appmem_net.c:238-247 | a client that is not waiting can send |
| `ReceiveRing.WaitingIsServed` | am_targ/am_target.c:593-639 | whenever a command waits, one turn of an idle server executes the next one received |
| `ReceiveRing.ServiceEnds` | am_targ/am_target.c:631-632 | a serving server is free after one turn |
| `ReceiveRing.EveryRequestIsAnswered` | am_targ/am_target.c:593-639 | from every reachable state some continuation, in which nobody sends, leaves no client waiting, each with one answer for every request it sent |
| `ReceiveRing.NeverLooksEmpty` | am_targ/am_target.c:593-639 | with fewer clients than slots the server never takes a ring with waiting commands for empty |
| `ReceiveRing.FullRingLooksEmpty` | am_targ/am_target.c:238-242 | with as many clients as slots some run fills the ring and makes it look empty |
| `ReceiveRing.NeverLooksEmptyIff` | am_targ/am_target.c:182-254 | that never happens exactly when there are fewer clients than slots |
| `NetSessions.SentIsBuilt` | appmemlib/appmem_net.c:43-52 | a request sent at its announced length and received over any slot is a whole, tagged request for the call |
| `NetSessions.SoundlyAnswered` | appmemlib/appmem_net.c:62-82 | its answer is sent as long as it says it is, long enough for its status, and carries the tag that the client waits for |
| `NetSessions.NetworkCallsAreDirect` | appmemlib/appmem_net.c:238-268 | over every interleaving of several clients the device is as the direct calls in the order of service leave it, and each client has received, one for each of its calls, datagrams that it waits for and that decode, at the length received, to their results |
| `ItemIterators.IterArray.constructor` | appmemlib/am_assca.c:56-59 | four empty slots |
| `ItemIterators.IterArray.GetHandle` | appmemlib/am_assca.c:173-201 | the handle for the lowest free slot, the held one, or the invalid one |
| `ItemIterators.IterArray.Next` | appmemlib/am_assca.c:205-275 | over a valid hash table: status, handle and item of every call, with every slot left at the item that its position in the insertion order names |
| `Iterators.StepCorrect` | appmemlib/am_assca.c:205-275 | a harmless call gives the next item, or says that there are no more, or is refused, and the other iterations do not notice |
| `Iterators.IterationsAreIndependent` | appmemlib/am_assca.c:173-275 | over every run of harmless calls, refused ones included, up to four interleaved iterations each get every item once in insertion order and then the end |
| `Iterators.UndisturbedIffHarmless` | appmemlib/am_assca.c:205-275 | for every handle anyone may pass, the other iterations go on undisturbed exactly when the call is harmless: refused only with slot 3 empty or its own, new only outside the slots of iterations at their end (or with fewer than two items), else with an empty slot or its own |
| `Iterators.DisciplineIsExact` | appmemlib/am_assca.c:173-275 | after any such run the next call is allowed exactly when it leaves the others undisturbed, so the discipline asks for no more than it must |
| `Iterators.BeginUndisturbedIff` | appmemlib/am_assca.c:178-188 | a begin disturbs nobody exactly when the lowest free slot is not that of an iteration at its end |
| `Iterators.RefusalUndisturbedIff` | appmemlib/am_assca.c:261-266 | a refused call, whatever its handle, disturbs nobody exactly when slot 3 is empty |
| `Iterators.WhatIsRefused` | appmemlib/am_assca.c:173-201 | refused are a fifth iteration, every reset, and the very handle that a refusal gives back |
| `Iterators.BegunAtEndSharesSlot` | appmemlib/am_assca.c:180-187 | outside the discipline an iteration at its end can get the second item again |
| `Iterators.RefusalEndsAnother` | appmemlib/am_assca.c:261-266 | a refused call ends the iteration in the last slot before it has had all its items |
| `FixedPackets.SizeWrite` | appmemlib/am_assca.c:411-448 | the size and offset fields, as the 8-bit arithmetic leaves them |
| `FixedPackets.FitsIff` | appmemk/appmemk.c:895-903 | no field wraps and the driver copies no more than a packet exactly when four bytes of opcode and key and data, each rounded up to words, take at most 248 bytes |
| `FixedPackets.LeastQwords` | appmemlib/am_assca.c:425-445 | the size is the least number of 64-bit words that holds four bytes of opcode and key and data, each rounded up to words; the data starts behind the rounded key |
| `FixedPackets.BuildWrite` | appmemlib/appmem_kd.c:229-245 | key and data land in their places and do not overlap, and the opcode is left alone |
| `FixedPackets.WriteThroughDriver` | appmemk/appmemk.c:1000-1004 | the driver extracts exactly the client's key and data |
| `FixedPackets.TakenIff` | appmemk/appmemk.c:1000-1006 | the driver takes a write exactly when it has copied at least the bytes the device expects |

## Left out

- StringSearch.Find: lengths of 2^31 and more, where `int` indices overflow, a failed allocation of the table, and starts before the beginning of the text, which read out of bounds.
- StringSearch.FindBackwards: the same, and starts at or past the end of the text.
- StaticArrays.StaticArray.Sort: byte offsets are unbounded, so arrays of 2^30 and more elements, whose 32-bit end offset wraps, are not modelled. The order field is not looked at by the code either.
- HashTables.HashTable.Add: expects a node that is not already in the table, as the macro does, and unbounded counters; a failed allocation is fatal in the original and not modelled.
- HashTables.HashTable.Delete: expects a node of the table, as the macro does.
- Packets.SessionsAgree: a sort handler is described by how many bytes it looks at; `ArrayPackets` has the static array's.
- PacketPorts.Port.ProcessCmd: expects an operation below 64, since the code reads past its table for others, and a handler of the type that the packet type calls, since the code calls it through that pointer. What the capability and create commands themselves answer is not part of the model; their reported lengths omit the wrapper.
- Packets.UnknownTypeIsRefused: expects an operation below 64, for the same reason.
- SharedPage.RunInvariant: sequentially consistent memory and one client per function, as the comment at `appmemlib/appmem_kd.c:387` expects; unmapping, which ends the device thread, is not modelled.
- ReceiveRing.EveryRequestIsAnswered: that turns are given to the server and the network is a matter of scheduling; some continuation answers every request, not every one.
- SharedPage.CallCompletes: likewise.
- ReceiveRing.ServiceIsFifo: publishing a slot is one step. As written, `rx_pi` moves before the slot's buffer count is set and before it wraps, so a server that looks in between could read a slot too early. Datagrams are delivered once. Replies are delivered whatever their tag; `NetSessions.NetworkCallsAreDirect` shows that it is the one the client waits for.
- Iterators.IterationsAreIndependent: the table does not change while it is iterated.
- FixedPackets.WriteThroughDriver: expects key and data that fit, which `FixedPackets.FitsIff` characterises.
- The hash function itself: a parameter everywhere. The Bloom filter, HASH_SELECT, HASH_REPLACE and HASH_EMIT_KEY.
- Sockets, timers, page faults, character devices and module set-up.
- The read path of devices that are not mapped, whose copy macro works in the other direction.
- The multi-buffer branch of the receive ring, which receives capped at one buffer never reach.
- Singly linked list operations other than the sort, searches and counts of lists, utarray, flat memory, the list function, C++ wrappers, capability printing and test programs: they would only add easy members.
