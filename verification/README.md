# Verified model of the CoAP client's data structures and protocol state

This project models the stateful core of a CoAP gateway: the intrusive hash table of `uthash.h`, the list macros of
`utlist.h` and their wrapper `t_list.h`, the table of pending requests with its timeout sweep and block-wise download,
and the bounded arithmetic beside them (the 8.4 pseudo-float, tokens, deadlines, wrapping ticks). Code that relinks
nodes in place is modelled by methods on a heap of node objects; each is proved against functions on sequences, and
what the source promises is proved about those functions and about whole runs.

How the files hang together:

- `Seqs`, `Bits`, `Wrappers`: sequences without an element, filtering; powers of two, masks as remainders, rounded-up
  quotients; an optional value.
- `Links`: the node with its link fields and the four list shapes (`LL_`, `DL_`, `CDL_`, application order of a hash).
- `StableMerge`, `ListSort`: the merge sort as a function and the one in-place algorithm behind `LL_SORT`, `DL_SORT`,
  `CDL_SORT` and `HASH_SRT`, which differ in how a run's end is recognised and which links are written.
- `Walk`, `UtList`, `TList`: deletion-safe walks, the list macros for three shapes, and the list used as set, stack, queue.
- `HashLoad`, `HashChains`, `HashExpand`, `HashBloom`, `UtHash`, `HashRun`: bucket arithmetic, chains, doubling, filter,
  the table, and its runs compared with an insertion-ordered finite map. `HashSelect`, `HashFsck`: selection into a
  second table and the integrity check.
- `Block`, `Requests`, `Pending`, `CoapThread`, `BlockWise`: Block options, the life of requests as a step machine over
  values, the same on the linked list, the thread's loop, and a whole download against a server that answers each
  request with the block it names.
- `PseudoFp`, `Token`, `Clock`: the codec, the tokens and the two clocks.

Where code and comments or intent part, the model follows the code and says exactly when the promise holds:

- The first block request is the byte 0x12, block 1 of 64 bytes (the comment beside it reads 1, 0, 128), so the first
  64 bytes never arrive: `BlockWise.FirstRequestSkipsBlockZero`, with the condition in `BlockWise.WholeIffFromStart`.
- A deadline is early exactly when the delay in nanoseconds does not fit 32 bits: `Clock.EarlyIffOverflow`.
- Exactly half the circle apart, each of two ticks counts as before the other: `Clock.LtBothWays`. The order carries over
  from two steps exactly if together they go no further than half the circle: `Clock.LtTransitiveIff`.
- `list_push` of an item that is already listed leaves no list behind; of add, push, pop and remove it is
  the only one that can: `TList.Apply`, with the condition at the level of `LL_PREPEND` in `UtList.SinglyLinked.Prepend`.
- `coap_opt_block_set_m` writes the last byte of an option that may have none; `Block.LastByteExists` says exactly when
  it has one.
- `HASH_SELECT` leaves the new table's tail at its first element and adds nothing to its Bloom filter:
  `HashSelect.SelectedTail` and `HashSelect.SelectedLookups` say exactly when order and lookups are right anyway. The
  integrity check that ends the macro sees neither: `HashSelect.SelectedPassesCheck`.

## Model

| member | source | states |
|---|---|---|
| ListSort.Sort | coapinclude/utlist.h:100-154 | For any list of at least one node in any of the four shapes, with any comparison: head, tail and every link afterwards are those of the same nodes in merge-sorted order; the number of passes is that of `Passes`, at most n - 1 comparisons a pass, and the run length stays within 2n |
| ListSort.MergePass | coapinclude/utlist.h:110-152 | One round leaves a well-shaped list of the nodes in pass order, makes fewer than n comparisons, and reports at most one merge exactly if the run length reached half the list |
| ListSort.MergeRuns | coapinclude/utlist.h:124-142 | The inner loop appends the stable merge of two neighbouring runs to the list under construction and leaves the unread rest as it was, with at least as many comparisons as the shorter run has elements and fewer than both have together |
| StableMerge.StableSort | coapinclude/utlist.h:100-154 | For every total preorder the sort yields a permutation in which no element compares greater than a later one, with elements that compare equal in their old order |
| StableMerge.SortIsStable | coapinclude/utlist.h:100-154 | Of two different elements that compare equal, the one that came first before the sort comes first after it |
| StableMerge.StableSortUnique | coapinclude/utlist.h:100-154 | Sorted and stable leaves no choice: two such arrangements of the same elements are equal |
| StableMerge.PassesAreLogarithmic | coapinclude/utlist.h:57 | n elements take max(1, ceil(log2 n)) passes, which with n - 1 comparisons a pass is the documented O(n log n) |
| Links.ShapeIs | coapinclude/utlist.h:100-433 | What the four list shapes mean link by link: order, ends, and prev of the head |
| UtList.SinglyLinked.Sort | coapinclude/utlist.h:100-154 | LL_SORT, the empty list included: the list holds the stable sort of its nodes, null-terminated |
| UtList.DoublyLinked.Sort | coapinclude/utlist.h:156-212 | DL_SORT: the same, with exact prev links and the head's prev at the last node |
| UtList.Circular.Sort | coapinclude/utlist.h:214-282 | CDL_SORT: the same, as a closed ring both ways |
| UtList.SinglyLinked.Prepend | coapinclude/utlist.h:287-291 | The list is the new node followed by the old list; some list starts at the new head if and only if the node was not in the list |
| UtList.SinglyLinked.Append | coapinclude/utlist.h:293-304 | The list is the old list followed by the new node |
| UtList.SinglyLinked.Delete | coapinclude/utlist.h:306-320 | The node is gone, the others keep their order, an absent node changes nothing, and the removed node's own next is never written |
| UtList.SinglyLinked.AppendVs2008 | coapinclude/utlist.h:323-333 | The form with add->next as cursor ends with the same list and the same links as LL_APPEND, for every list |
| UtList.SinglyLinked.DeleteVs2008 | coapinclude/utlist.h:335-352 | The form with the head as cursor restores the head and ends with the same list and links as LL_DELETE, for every list that is not empty |
| UtList.SinglyLinked.Search | coapinclude/utlist.h:374-379 | The first node that matches, or null exactly if none does |
| UtList.SinglyLinked.ForeachSafe | coapinclude/utlist.h:364-365 | The walk visits the initial list once each, in order, although the body deletes the nodes it chooses; exactly the others remain, in order |
| UtList.DoublyLinked.Prepend | coapinclude/utlist.h:384-394 | The new node comes first and the doubly linked shape is exact |
| UtList.DoublyLinked.Append | coapinclude/utlist.h:396-408 | The new node comes last and the doubly linked shape is exact |
| UtList.DoublyLinked.Delete | coapinclude/utlist.h:410-425 | Exactly the given node is gone and the shape is exact, for a first, middle, last or only node |
| UtList.DoublyLinked.ForeachSafe | coapinclude/utlist.h:432-433 | The deletion-safe walk for doubly linked lists visits the initial list once and leaves exactly what was not chosen |
| UtList.Circular.Prepend | coapinclude/utlist.h:442-454 | The new node comes first and the ring is closed both ways |
| UtList.Circular.Delete | coapinclude/utlist.h:456-465 | Exactly the given node is gone and the ring is closed, or empty |
| UtList.Circular.ForeachSafe | coapinclude/utlist.h:470-473 | The walk bounded by the last node noted at the start visits the initial ring once, although the body may delete that last node too |
| TList.Apply | coapinclude/t_list.h:98-123 | Add, push, pop and remove on the linked list do to the sequence of items what the specification says, for every item, listed or not; some list starts at the head afterwards if and only if the operation was not a push of a listed item |
| TList.AfterIs | coapinclude/t_list.h:98-123 | What each operation makes of the items, place by place: removal closes the gap, adding a listed item moves it to the end, push and pop work at the front |
| TList.Perform | coapinclude/t_list.h:98-123 | A whole run on the linked list pops and leaves what the specification says; adds of unlisted items and pops make it a queue |
| TList.ListInsert | coapinclude/t_list.h:125-133 | The new item is right after the given one, or first; everything else keeps its place |
| TList.NoDuplicates | coapinclude/t_list.h:104-123 | No item is listed twice at any point of a run if and only if the run never pushes an item that is listed at that moment |
| TList.PopUndoesPush | coapinclude/t_list.h:110-123 | Pop after push gives back the list |
| TList.Fifo | coapinclude/t_list.h:104-123 | Over every run of adds of unlisted items and pops: the items popped, followed by those left, are those there at the start followed by those added |
| HashLoad.LoadBound | coapinclude/uthash.h:652-663 | From the joint invariant of counts and expand_mult: fewer than 20 items per bucket |
| HashLoad.DoublingBalances | coapinclude/uthash.h:713-743 | A doubling of a table with at most 20 items per old bucket computes an ideal chain length of at most 10 and restores the joint invariant |
| HashLoad.PushBalances | coapinclude/uthash.h:652-663 | An addition that stays below the threshold keeps the joint invariant |
| HashLoad.PopBalances | coapinclude/uthash.h:666-676 | A removal keeps it |
| HashLoad.MultAfterIs | coapinclude/uthash.h:728-732 | expand_mult after a doubling is the count over the ideal length in a bucket with more items than that, and 0 in any other |
| HashLoad.ExcessIsBeyond | coapinclude/uthash.h:728-729 | nonideal_items counts exactly the places in chains at or beyond the ideal length |
| HashLoad.DoublingNearlyBalances | coapinclude/uthash.h:867-870 | A doubling that works with one item too few, as in HASH_SELECT, leaves a weaker invariant |
| HashLoad.NearLoadBound | coapinclude/uthash.h:652-663 | The weaker invariant, too, means fewer than 20 items per bucket |
| HashChains.SlotMask | coapinclude/uthash.h:177-180 | Masking a stored hash value with the bucket count less one selects the bucket that the key's hash modulo the count names |
| HashChains.SlotDoubles | coapinclude/uthash.h:727-733 | In a table twice the size an element of bucket i belongs in bucket i or i + old size |
| HashChains.SplitPlaced | coapinclude/uthash.h:725-741 | Splitting every chain loses no element, duplicates none, and puts each where its hash says |
| HashExpand.IdealIsCeiling | coapinclude/uthash.h:717-719 | The shift and the mask compute items over new buckets, rounded up |
| HashExpand.MoveChain | coapinclude/uthash.h:725-741 | The inner loop empties an old chain into new buckets i and i + old size, in reverse order, with exact links and counts, expand_mult equal to count over ideal where the count exceeds it and 0 otherwise, and counts exactly the items beyond the ideal |
| HashExpand.ExpandBuckets | coapinclude/uthash.h:707-743 | The two halves of every old chain, in reverse order, with exact links, heads and counts; expand_mult is count over ideal in every over-full bucket and 0 in every other; nonideal_items is the sum over buckets of the excess over the ideal length |
| UtHash.Table.ExpandBuckets | coapinclude/uthash.h:707-753 | The table afterwards: twice the buckets, the same elements, the exact ideal length and nonideal_items, ineff_expands and noexpand; the joint load invariant holds again |
| UtHash.Table.AddToBkt | coapinclude/uthash.h:652-663 | The element is at the head of its chain, and the table is doubled exactly when its bucket now holds at least 10 * (expand_mult + 1) items and doubling is allowed; otherwise nothing about its size changes |
| UtHash.Table.DelInBkt | coapinclude/uthash.h:666-676 | The chain without the element, relinked both ways, its count one less and its expand_mult unchanged, every other bucket as it was |
| HashBloom.SetTest | coapinclude/uthash.h:114-115 | Setting a bit sets that bit and no other |
| HashBloom.IndexIs | coapinclude/uthash.h:98-99 | The bit is selected by the hash value modulo 2^nbits, and the vector has just enough bytes for that many bits |
| HashBloom.AddKeeps | coapinclude/uthash.h:117-121 | A hash value once added tests positive for good: no false negatives |
| UtHash.Table.MakeTable | coapinclude/uthash.h:130-147 | 32 empty buckets, an all-zero filter, the first element as tail, doubling allowed and no ineffective doubling counted |
| UtHash.Table.TableIs | coapinclude/uthash.h:251-301 | What every operation keeps, field by field: application order linked both ways from head to tail, every bucket's chain, head and count, every element in exactly the chain its hash selects, and doubling given up only after two ineffective doublings |
| UtHash.Table.Add | coapinclude/uthash.h:152-175 | Under an unused key the element is appended to the application order and everything is exact again; the table doubles exactly when the element's bucket reaches 10 * (expand_mult + 1) while doubling is allowed |
| UtHash.Table.Delete | coapinclude/uthash.h:194-227 | Exactly the given element is gone, the others keep their order, everything is exact again and the table's size and doubling state are not touched; deleting the only element drops the table |
| UtHash.Table.FindInBkt | coapinclude/uthash.h:638-648 | The element with the key, or null exactly if the whole table has none |
| UtHash.Table.Find | coapinclude/uthash.h:84-95 | The same with or without a Bloom filter, and in an empty hash |
| UtHash.Table.LoadBounded | coapinclude/uthash.h:652-663 | While doubling is allowed: fewer than 20 items per bucket, and a chain of more than 10 only where its expand_mult permits it |
| UtHash.Table.SmallTableLoadBounded | coapinclude/uthash.h:744-750 | Up to 64 buckets doubling cannot have been given up, so there are fewer than 20 items per bucket without further condition |
| UtHash.Table.Sort | coapinclude/uthash.h:760-837 | The application order becomes the stable sort of itself with exact links, head and tail; buckets, chains and so every lookup are as they were |
| UtHash.Table.IterDelete | coapinclude/uthash.h:897-899 | HASH_ITER visits the initial order once each although the body deletes the elements it chooses; the table of the others is exact |
| HashRun.AfterIs | coapinclude/uthash.h:152-227 | What each command makes of the contents, place by place: a new key goes to the end, a removal closes the gap, a purge keeps the rest in order |
| HashRun.ArrangedRun | coapinclude/uthash.h:760-837 | A run that ends with a sort leaves the same entries, sorted, ties in their old order |
| HashRun.LookupAfter | coapinclude/uthash.h:84-227 | The specification is a map: keys stay unique and a put, lookup or removal changes what is found under its own key only |
| HashRun.LookupArranged | coapinclude/uthash.h:760-837 | Sorting changes no lookup |
| HashRun.LookupPurged | coapinclude/uthash.h:897-899 | A walk that deletes takes away exactly the keys whose entries it chose |
| HashRun.EntriesSort | coapinclude/uthash.h:760-837 | Sorting elements by what is in them is sorting what is in them |
| HashRun.Do | coapinclude/uthash.h:84-227 | One put, lookup, removal, sort or deleting walk on the table acts as on the ordered map; a command by key answers the value the table held under it, and None exactly if it held none |
| HashRun.Run | coapinclude/uthash.h:84-227 | In every run from the empty table, for every hash function, with or without a filter and through every doubling, every command by key answers the value the contents at that moment hold under it, None exactly if they hold none; the table left behind is valid with its contents in order, with fewer than 20 items per bucket while doubling is allowed and in any case up to 64 buckets |
| HashSelect.Select | coapinclude/uthash.h:844-880 | Into an empty table: the second handles of exactly the source elements that satisfy the condition, in bucket-walk order, with exact links, placement and counts, through doublings; the source is unchanged |
| HashSelect.WalkOfTable | coapinclude/uthash.h:851-854 | The bucket walk meets every element of a table exactly once |
| HashSelect.SelectedLookups | coapinclude/uthash.h:867-874 | Lookups in the new table work if and only if it is empty or has no Bloom filter; with a filter every hash value tests negative |
| HashSelect.SelectedTail | coapinclude/uthash.h:865-873 | The new table's tail is right if and only if a single element was selected |
| HashSelect.SelectedLoad | coapinclude/uthash.h:867-870 | The new table, too, holds fewer than 20 elements per bucket while it may double, although its doublings count one item too few |
| HashSelect.FindSelected | coapinclude/uthash.h:844-880 | Without a filter, a lookup in the new table finds the second handle of the element that the first table holds under the key, if and only if that was selected |
| HashSelect.SelectedPassesCheck | coapinclude/uthash.h:844-880 | The integrity check accepts the new table, wrong tail and empty filter included |
| HashFsck.Fsck | coapinclude/uthash.h:251-301 | For any table whose forward links end, the check accepts if and only if all back links, bucket counts and both item counts agree with what the forward links reach |
| HashFsck.TablePasses | coapinclude/uthash.h:251-301 | Every table with exact application order, buckets and counts is accepted, whatever its tail, filter and keys |
| HashFsck.ValidTablePasses | coapinclude/uthash.h:251-301 | Every table in the state that all operations keep is accepted |
| Requests.StepConsistent | CoAPpthread.c:320-327 | Every step keeps: pending is what was accepted less what ended, in order, and nothing ends twice |
| Requests.RunConsistent | CoAPpthread.c:424-431 | So after every run of accepts, blocks and sweeps, whatever the times |
| Requests.BooksAreRight | CoAPpthread.c:320-327 | The same spelled out: no request is accepted or ended twice, only accepted ones end, and pending are exactly those accepted and not ended |
| Requests.PendingInOrder | list.c:45 | Pending requests are in the order of acceptance |
| Requests.AcceptedInOrder | CoAPpthread.c:424-431 | Acceptance is in the order of arrival, of every request that does not ask for no acknowledgement |
| Requests.OnlyQueued | CoAPpthread.c:424-431 | Nothing else is ever accepted |
| Requests.RunSound | CoAPpthread.c:504-517 | With time not running backwards, in the books of every run: a request expires only when its timing has passed since it was stamped, and completes only as a block request |
| Requests.SweepIsExact | CoAPpthread.c:504-517 | Right after a sweep an accepted request is pending if and only if it was not completed and its timing has not passed, in order, whatever happened before |
| Pending.RequestTable.Accept | CoAPpthread.c:424-431 | A copy stamped with the time is appended unless the request asks for no acknowledgement; the books stay right about what every thread was told |
| Pending.RequestTable.FindById | list.c:61-79 | The oldest pending request with this address and path, or null if there is none |
| Pending.TargetIs | CoAPpthread.c:190-210 | The handler works on the oldest pending request with the response's address and path, if that is a block request and the response is a 2.05 and no reset, and on none otherwise |
| Pending.RequestTable.HandleBlock | CoAPpthread.c:278-327 | The data is appended to what was received; with the more flag the next block is asked for at the same size, without it the waiting thread is woken without timeout and the request leaves the list |
| Pending.RequestTable.Receive | CoAPpthread.c:190-327 | The whole handler makes the step of the machine: the target gets the payload, and leaves the list, woken without timeout, exactly if no more blocks follow; without a target nothing changes |
| Pending.RequestTable.SweepList | CoAPpthread.c:504-517 | The walk that deletes where it stands visits every node present at its start once; exactly those with now - time >= timing are removed and woken with timeout, the rest stay in order and untouched |
| Pending.RequestTable.Sweep | CoAPpthread.c:504-517 | The sweep makes the step of the machine, and each waiting thread is woken, and its request removed, exactly if now - time >= timing |
| CoapThread.ThreadsAreTold | CoAPpthread.c:320-325 | After every history, in the fields the threads read: no thread is woken twice, it has not been woken exactly while its request is pending, and timeout is set for expired, clear for completed requests |
| CoapThread.Round | CoAPpthread.c:415-517 | One round of the thread's loop, after any history: an accepted request is on the list if and only if it was not completed and its timing has not passed; each thread was woken once with timeout clear if its request was completed, set if its timing has passed, and not woken otherwise; the block of the response's target, also one that arrived in the same round, got the payload, no other did; the next block is asked for exactly if more follow |
| Block.VarBytesLength | coapinclude/encode.h:44-50 | k bytes are enough exactly below 256^k (section 3.2 of RFC 7252) |
| Block.VarBytesRoundTrip | coapinclude/encode.h:38-50 | Decoding an encoded option value gives it back |
| Block.OptionRoundTrip | coapinclude/block.h:43-63 | Number, more flag and size exponent are read back from the encoded option, the zero-length option included |
| Block.LastByte | coapinclude/block.h:48-57 | Where the fields are: more flag in bit 3 and size exponent in bits 0 to 2 of the last byte, the number in the rest |
| Block.SetM | coapinclude/block.h:75-81 | In place, on an option with a last byte: the more flag becomes what was asked; number and size exponent stay |
| Block.LastByteExists | coapinclude/block.h:43-49 | An option has a last byte to write if and only if its number, more flag or size exponent is not zero |
| Block.MoreBlocksFits | coapinclude/block.h:69-72 | For 20-bit numbers and 3-bit size exponents the shift fits 32 bits |
| BlockWise.AssembledIsRest | CoAPpthread.c:278-327 | The payloads of the answers from a block on, put together, are the representation from that block on (sections 2.2 and 2.4 of RFC 7959) |
| BlockWise.RoundsAreCeiling | CoAPpthread.c:290-319 | From a block inside the representation it takes the remaining bytes over the block size, rounded up; from a block outside, one request |
| BlockWise.Download | CoAPpthread.c:278-327 | Handler and server together: the buffer grows by the representation from the starting block on, in that many requests, and the request ends once, completed |
| BlockWise.WholeIffFromStart | CoAPpthread.c:472-473 | The whole representation arrives if and only if the download starts at block 0 or there is nothing to receive |
| BlockWise.FirstRequestSkipsBlockZero | CoAPpthread.c:472-473 | The byte 0x12 asks for block 1 of 64 bytes, so a representation that is not empty never arrives whole |
| BlockWise.NextOptionFits | CoAPpthread.c:302 | The option for the next block fits the three bytes of a Block option if and only if its number is below 2^20 |
| PseudoFp.DecodeIs | coapinclude/encode.h:18-25 | A byte below 128 stands for itself, another for its high nibble in place times two to its low nibble; the largest is 7864320 |
| PseudoFp.DownIsFloor | coapinclude/encode.h:35 | Up to MAX_VALUE the encoder gives the largest representable value not above v, exact below 128 and short by less than v/8 from there |
| PseudoFp.UpIsCeiling | coapinclude/encode.h:36 | Up to MAX_VALUE the encoder gives the smallest representable value not below v, the carry into the exponent included, over by less than v/8 |
| PseudoFp.EncodersInvertDecode | coapinclude/encode.h:25-36 | Both encoders give back every byte from its decoded value |
| Token.TokenDecodes | CoAPpthread.c:79-85 | The token of a counter value decodes to it and has no zero on top |
| Token.ValueConcat | CoAPpthread.c:79-85 | Decoding is little-endian base 256 |
| Token.TokenUnique | CoAPpthread.c:79-85 | It is the only byte string without a zero on top that does |
| Token.TokenLength | CoAPpthread.c:79-85 | n bytes are enough exactly below 256^n |
| Token.Source.Create | CoAPpthread.c:70-87 | The counter advances modulo 2^64, the buffer holds its token and zeros behind it, within eight bytes |
| Token.SharedTokens | CoAPpthread.c:70-87 | Two calls share a token if and only if the counter went round a whole number of times in between |
| Token.Run | CoAPpthread.c:583-585 | Over a run of n requests: the k-th carries k in 1 to 8 bytes for k below 2^64, and no two of 2^64 consecutive requests share a token (sections 3 and 5.3.1 of RFC 7252) |
| Clock.DeadlineIsLateBy | CoAPpthread.c:91-110 | The deadline is normalised and late by the carry alone: the nanosecond count over 999999999 when it carries, else 0, at most 5 ns |
| Clock.DeadlineIs | CoAPpthread.c:91-110 | In the fields of the two times: the deadline is now plus 1000 ns per microsecond, for up to 4294967 us, plus the nanosecond sum over 999999999 when that carries |
| Clock.EarlyIffOverflow | CoAPpthread.c:94-96 | It is never early if and only if the delay is at most 4294967 us |
| Clock.DeadlinesKeepOrder | CoAPpthread.c:91-110 | A deadline asked for at a later instant is never earlier, in spite of the carry by 999999999 |
| Clock.LtIsTrueOrder | coapinclude/coap_time.h:143-155 | For instants less than 2^31 ticks apart both comparisons of the wrapped ticks are the true order |
| Clock.LtIsHalfCircle | coapinclude/coap_time.h:143-146 | A tick is before another if and only if the other is 1 to 2^31 ticks ahead modulo 2^32 |
| Clock.LtBothWays | coapinclude/coap_time.h:143-146 | The comparison is asymmetric except exactly half a circle apart, and total |
| Clock.LtIsOrderInWindow | coapinclude/coap_time.h:143-146 | Inside any window of 2^31 ticks it is a strict total order |
| Clock.LtTransitiveIff | coapinclude/coap_time.h:143-146 | From a before b and b before c follows a before c if and only if the two gaps together are at most 2^31 |
| Clock.LtIsNotTransitive | coapinclude/coap_time.h:143-146 | Three ticks for which it does not follow |
| Clock.TicksAreFloor | coapinclude/coap_time.h:126-131 | The tick is floor(1024 * elapsed_us / 10^6) modulo 2^32 |
| Clock.LaterReadings | coapinclude/coap_time.h:126-155 | A later reading never compares before an earlier one, and after 977 us compares after it, up to 2^31 - 2 ticks on |

## Left out

- HashRun.Run: counters and bucket counts are unbounded numbers, so the 32-bit wrap of num_items and num_buckets is not modelled; neither are duplicate keys, which the application must avoid.
- HashRun.Run: HASH_SELECT is not a command of a run; it is stated for every source table such a run can reach. Comparisons and conditions look at an element's key and value only.
- UtHash.Table.Add: the element's pointer to its table, key pointer and length, and the hho offset are replaced by object references to one table object; the internals of the hash functions are an arbitrary function of the key; compaction of strings to key bytes is not modelled.
- UtHash.Table.ExpandBuckets: allocation failure and the notification hooks are not modelled.
- UtList.SinglyLinked.Sort: prev fields of LL_ nodes do not exist in the source; the model's node has them and the sort leaves them unspecified.
- TList.ListInsert: needs an item that is not listed; inserting a listed one is not described.
- Block.MoreBlocks: the shift is computed without wrapping; `Block.MoreBlocksFits` shows there is none for the numbers a Block option can hold.
- BlockWise.Download: needs a buffer large enough for what arrives, which the source does not check; block numbers from 2^20 on, which no Block option can hold, are not cut off (`BlockWise.NextOptionFits`). The server is the one that answers each request with the block it names; loss, duplication and reordering of responses are not modelled.
- Block.SetM: on a zero-length option the source writes the byte before the option's value, which belongs to no option; the model asks for an option with a byte. `Block.LastByteExists` says which options have none: block 0, no more flag, size exponent 0.
- Block.OptionRoundTrip: the bodies of coap_opt_block_num, coap_encode_var_bytes and coap_decode_var_bytes are not part of the repository; section 3.2 of RFC 7252 and section 2.2 of RFC 7959 take their place.
- PseudoFp.UpIsCeiling: `ls` is read as assigned before its second use, and coap_fls as the 1-based position of the highest set bit; its body is not part of the repository.
- Pending.RequestTable.Receive: the lookup is the one commented out at CoAPpthread.c:203; the response is given by the options the handler reads; sending the next request, reset and acknowledgement are not modelled, nor are the LTU_RX_BLOCK and YC branches.
- Pending.RequestTable.Accept: the guard on NOACK is applied to the message just received, as intended, not to the one before; every queued request brings a parameter block that is not null and was not used before, as the requesting threads that allocate one do; the YC thread passes none; freeing and reusing the removed element's memory is not modelled.
- CoapThread.Round: a round handles at most one received message, and needs room for its payload in the buffer of the request it reaches, which the source does not check.
- Pending.RequestTable.Sweep: pthread_cond_signal is a counter on the parameter block; mutexes and the waiting threads themselves are not modelled.
- Clock.TicksAreFloor: the readings of the clocks and clock_offset are parameters; overflow of 64-bit intermediate values is not modelled, nor are the Contiki and lwIP clocks.
- Clock.DeadlineIsLateBy: overflow of time_t is not modelled.
- Token.Run: the other fields of a request and the sending of it are not modelled.
- Sockets, select, message queues, thread creation, logging and the test drivers: input, output and calls into other libraries.
- Polling round of the YC thread, retransmission, dispatch, option and PDU parsing: no protocol with a defined run as written, or no bodies in the repository.
- LL_SEARCH_SCALAR, CDL_SEARCH, HASH_CLEAR, HASH_EMIT_KEY, bit-set helpers and message ids: they would only add easy members.
