# A verified model of the DHCP filter and logger

The system is a DHCP server call-out with a monitor process beside it. The call-out decides, by
hardware address, whether a packet is processed, and passes events to the monitor through shared
memory; the monitor queues the events for a logging thread and refreshes the access list from a
database. The repository bundles the client headers of MySQL, some of which are full inline code.

The project models eleven files and proves what they guarantee:

| modules | models |
|---|---|
| `BufferProtocol`, `BufferOutcomes`, `LinkedBuffer` | the bounded producer/consumer buffer: its interleavings, what its calls return, and its heap list |
| `AhoCorasick`, `Trie` | the trie lookup and the Aho-Corasick automaton step |
| `Qsort`, `Acl`, `AclFilter`, `AclUpdate`, `AclProtocol` | the access list: comparator, sort, filter, loading, publication |
| `Strtoul`, `HwAddr`, `DhcpOptions` | hardware addresses as text, the DHCP option scanner |
| `Pack`, `SkipSpace` | big-endian integers, the word-at-a-time space trimmer |
| `Atomic`, `Shm`, `ShmProtocol` | compare-and-swap retry loops, the shared-memory writer |

Code that updates things in place is imperative here too: classes, arrays and loops, each proved
against a specification function, with the properties proved about that function. Protocols are
state machines; a run is a sequence of actions, each enabled where it is taken, and the theorems
are about every run. `dafny verify dfyconfig.toml` checks everything.

Each protocol has a second, sequential description that speaks of the actions of a run only: the
atomic bounded queue, updates and queries one at a time, the operations the calls were begun
with, the requests the writers were given. The main theorems say that every interleaving gives
the answers of that description.

## What the proofs say about the code

- The buffer never loses an item and never wakes a consumer for nothing, but an auto-reset event
  cannot count. Each SetEvent that finds the event set leaves one item behind for good: the backlog
  of a quiescent buffer is exactly the number of such calls, it only grows, and every backlog
  below max_size happens (`QuiescentBacklog`, `BacklogNeverShrinks`, `BacklogHappens`). Room for
  one item always remains, so nobody blocks for good, not even a thread that only adds or only
  removes (`AddCanAlwaysSucceed`, `RemoveCanAlwaysSucceed`).
- `ac_trie_next` is documented to return the length of a matched word or 0. It looks at one node
  only, so it misses a word that ends inside a longer path (`LostMatch`). It misses none exactly when
  every path that ends in a stored word is itself a stored word (`ReportsEveryEndIff`).
- The query orders access rules by descending mask, but the sort that follows is ascending. An
  entry that is covered by a wider one never takes effect, whatever its access says
  (`CoveredEntryNeverDecides`).
- Rows with the same type, mask and address may come out of the sort in any order. A query is
  answered alike by every sort exactly when the comparator-least rows that match it agree on
  access (`SortsAgreeIff`).
- `dhcp_find_option` reads a Pad byte as an option, with the next byte as its length. Without a Pad
  before the wanted option it agrees with the format (`FindsFirstOption`). At the first Pad it
  jumps, and whether it still agrees depends only on what it finds from there
  (`PadPutsOutOfStep`): if it lands past the end or in zero fill, everything behind the Pad is
  hidden (`PadHidesTheRest`); if it lands on an item, it agrees exactly when none of the items
  jumped over has the code, so two Pads in a row are harmless (`PadSkipsItems`); otherwise it may
  take payload bytes for an option (`PadGivesAWrongHit`).
- `skip_trailing_space` is documented to return the last non-space character; it returns the
  position behind it, and the model follows the code.
- A successful `shm_write` is recognisable as such exactly for regions shorter than 2^31 bytes
  (`SuccessIsRecognizable`); that a lock failure was reported only when nothing was written holds
  exactly for regions shorter than 2^32 - 1 bytes (`CodesTellTheTruthIff`).

## Model

| member | source | states |
|---|---|---|
| `BufferProtocol.RunKeepsInv` | Monitor/linked_buffer.cpp:14-57 | in every run of any number of producers and consumers, the size is the pending wakeups, plus a linked but unsignalled node, plus exactly the SetEvent calls that hit a set event; size is at most max_size; delivered, then leaving, then queued items are the accepted items in order; only the lock holder is inside the lock |
| `BufferProtocol.StepKeepsInv` | Monitor/linked_buffer.cpp:14-57 | the step behind it: one action of one thread keeps all of that and adds one coalesced signal exactly when SetEvent finds the event set |
| `BufferProtocol.WokenConsumerFindsANode` | Monitor/linked_buffer.cpp:36-53 | a consumer past its wait always finds a node, so the NULL of an empty list is not reached |
| `BufferOutcomes.RunRefinesQueue` | Monitor/linked_buffer.cpp:14-57 | every run refines an atomic bounded queue given by the actions alone: the list is its content, and the calls have returned, in order, what it decided: an add TRUE exactly when it found room and memory, with the data it was called with; a remove the front item, or NULL for a failed wait |
| `BufferOutcomes.CallsReturnOnce` | Monitor/linked_buffer.cpp:14-57 | over every run and thread: as many failed-wait NULLs as failed waits, one result per add that ended, one per woken remove that ended |
| `BufferOutcomes.NullExactlyOnTimeout` | Monitor/linked_buffer.cpp:36-53 | for non-null data, a thread gets NULL exactly as often as its wait timed out or failed, over every run |
| `BufferOutcomes.AddRefused` | Monitor/linked_buffer.cpp:17-20 | with the lock free, an add to a full buffer or without memory returns FALSE and changes nothing else |
| `BufferOutcomes.WaitIgnoresTheLock` | Monitor/linked_buffer.cpp:37-39 | with the event set a wait may succeed at any time, whoever holds the lock |
| `BufferOutcomes.WaitMayFail` | Monitor/linked_buffer.cpp:37-38 | a wait may time out at any time; the remove then returns NULL and changes nothing else |
| `BufferProtocol.BacklogNeverShrinks` | Monitor/linked_buffer.cpp:29-37 | the queued items that no wakeup stands for are never negative in number and never get fewer along a run |
| `BufferProtocol.QuiescentBacklog` | Monitor/linked_buffer.cpp:29-37 | with no call in progress and the event clear, exactly the coalesced signals remain as queued items |
| `BufferProtocol.FullBufferHasAWakeup` | Monitor/linked_buffer.cpp:17-29 | for max_size at least 1, a full buffer has a wakeup pending or about to be signalled, so without one the next add has room; with the lock free, the event is set or a consumer is woken |
| `BufferProtocol.HolderReleases` | Monitor/linked_buffer.cpp:15-56 | the lock holder gives the lock back by its own steps only, waiting for no one |
| `BufferProtocol.AddCanAlwaysSucceed` | Monitor/linked_buffer.cpp:14-57 | from every reachable state, with max_size at least 1, the others (threads inside a call and one idle thread) can get to a point where a whole add of any data by a thread that did nothing meanwhile returns TRUE |
| `BufferProtocol.RemoveCanAlwaysSucceed` | Monitor/linked_buffer.cpp:14-57 | likewise for a whole remove, which returns an item |
| `BufferProtocol.BacklogHappens` | Monitor/linked_buffer.cpp:29-37 | for every k below max_size a run that strands exactly k items, with no call in progress and no wakeup left: the bound of the accounting is tight |
| `LinkedBuffer.Buffer.constructor` | Monitor/linked_buffer.cpp:4-12 | an empty list, a clear event, a free lock |
| `LinkedBuffer.Buffer.Link` | Monitor/linked_buffer.cpp:17-28 | succeeds iff there is room and memory, and then appends to the list, although the new node's `next` holds arbitrary junk |
| `LinkedBuffer.Buffer.Unlink` | Monitor/linked_buffer.cpp:41-53 | takes the first item out and keeps the rest; NULL exactly on the empty list |
| `LinkedBuffer.Buffer.AddTail` | Monitor/linked_buffer.cpp:14-34 | the whole call without contention: contents, event and result |
| `LinkedBuffer.Buffer.RemoveHead` | Monitor/linked_buffer.cpp:36-57 | the whole call without contention, timeout included |
| `LinkedBuffer.System.Do` | Monitor/linked_buffer.cpp:14-57 | one step of one thread on the heap is the same step of the protocol, so every heap run is a protocol run |
| `LinkedBuffer.System.HeapRefinesQueue` | Monitor/linked_buffer.cpp:4-57 | in every heap run the list is the content of the atomic bounded queue and the calls have returned its outcomes |
| `LinkedBuffer.System.HeapKeepsInv` | Monitor/linked_buffer.cpp:4-57 | in every heap run, the accounting holds of the size field, head is null iff tail is null iff size is 0, and the list refines the FIFO queue |
| `AhoCorasick.LongestIsMaximal` | libmysql/include/my_trie.h:28-28 | the longest path suffix contains every path suffix |
| `AhoCorasick.DeltaIsLongest` | libmysql/include/my_trie.h:82-92 | following failure links until an edge exists finds the longest path the new character completes |
| `AhoCorasick.StateIsLongestSuffix` | libmysql/include/my_trie.h:82-92 | over any text the state spells the longest suffix of the text that is a path |
| `AhoCorasick.ReportIsAWord` | libmysql/include/my_trie.h:78-91 | over any text a nonzero answer n means the last n characters are a stored word, and no longer stored word ends there |
| `AhoCorasick.TotalFailStepsLinear` | libmysql/include/my_trie.h:89-90 | over a text of n characters from the root, failure links followed plus final depth are at most n |
| `AhoCorasick.OneMoreTotal` | libmysql/include/my_trie.h:89-90 | each character adds the failure links followed for it from the longest path so far |
| `AhoCorasick.WordIsReported` | libmysql/include/my_trie.h:82-136 | fed a stored word from the root, the automaton answers the word's length at its last character |
| `AhoCorasick.ReportsEveryEndIff` | libmysql/include/my_trie.h:78-91 | over all texts no word end is missed if and only if every path ending in a stored word is a stored word |
| `AhoCorasick.LostMatch` | libmysql/include/my_trie.h:78-91 | a concrete word set and text where a word end is missed |
| `Trie.Trie.AbcAndB` | libmysql/include/my_trie.h:22-29 | a heap trie of the words of `LostMatch` that meets the well-formedness predicate |
| `Trie.Trie.Goto` | libmysql/include/my_trie.h:55-65 | the child labelled c if the path exists; else the root at the root, NULL elsewhere |
| `Trie.Trie.Descend` | libmysql/include/my_trie.h:127-132 | one level of the lookup: the child iff the longer path exists |
| `Trie.Trie.Search` | libmysql/include/my_trie.h:116-136 | true exactly when the key is non-empty and a stored word |
| `Trie.AcState.Advance` | libmysql/include/my_trie.h:87-91 | the loop ends on the automaton's next state after exactly its number of failure links |
| `Trie.AcState.Next` | libmysql/include/my_trie.h:82-92 | after each call the node spells the longest suffix of everything read that is a path, the answer is its leaf, and failure links never outnumber characters |
| `Qsort.Sort` | libdhcp/src/acl.cpp:58-60 | an in-place sort that meets the library contract: sorted, a permutation, the rest untouched |
| `Acl.Comparator` | libdhcp/src/acl.cpp:43-56 | the difference of the first differing byte of type, mask, address; 0 if none differs |
| `Acl.CompareOrder` | libdhcp/src/acl.cpp:43-56 | type decides first, then mask bytes ascending, then address bytes |
| `Acl.CompareIsTotalPreorder` | libdhcp/src/acl.cpp:43-56 | total, transitive, antisymmetric in sign, and 0 exactly on equal type, mask and address |
| `Acl.SortEntries` | libdhcp/src/acl.cpp:58-60 | the first `count` entries become a sorted permutation of themselves |
| `AclFilter.MatchEntry` | libdhcp/src/acl.cpp:72-80 | the two tests, type and then byte by byte, decide `Matches` |
| `AclFilter.MatchesBitByBit` | libdhcp/src/acl.cpp:72-80 | an entry matches if and only if the types are equal and for each bit of each compared byte: where the mask has it, packet and entry agree; where it has not, the entry's bit is 0 |
| `AclFilter.AclList.Filter` | libdhcp/src/acl.cpp:62-91 | the access of the first matching entry, TRUE if none matches |
| `AclFilter.FirstIsLeastIndex` | libdhcp/src/acl.cpp:70-86 | the deciding entry is the matching one with the least index, and none decides iff none matches |
| `AclFilter.SortedDecision` | libdhcp/src/acl.cpp:43-86 | on a sorted table a comparator-least matching entry decides |
| `AclFilter.DecisionIgnoresRowOrder` | libdhcp/src/acl.cpp:43-86 | when equal-key rows agree on access, the decision is the same for every order of the rows and every result qsort may give |
| `AclFilter.PossibleDecisions` | libdhcp/src/acl.cpp:43-86 | the decisions that some legal sort of the rows gives for a query are exactly the accesses of the comparator-least matching rows, or TRUE if none matches |
| `AclFilter.SortsAgreeIff` | libdhcp/src/acl.cpp:43-86 | all legal sorts decide a query alike if and only if the comparator-least rows matching it agree on access |
| `AclFilter.ConflictingRowsShowOrder` | libdhcp/src/acl.cpp:43-86 | of any rows, two that are both comparator-least matches for a query and differ in access each decide in some legal sort |
| `AclFilter.TwoConflictingRows` | libdhcp/src/acl.cpp:43-86 | both orders of two equal-key rows that differ in access are legal sorts, and decide differently exactly for the addresses the rows match |
| `AclFilter.CoverMatchesMore` | libdhcp/src/acl.cpp:72-81 | an entry that tests fewer bits and agrees on them matches whatever the covered one matches |
| `AclFilter.CoverSortsNoLater` | libdhcp/src/acl.cpp:43-56 | and sorts no later |
| `AclFilter.DeadNeverMatches` | libdhcp/src/acl.cpp:75-80 | an entry whose address has a bit outside its mask within the compared bytes matches nothing |
| `AclFilter.DeletingRedundantEntries` | libdhcp/src/acl.cpp:43-86 | deleting any set of strictly covered or dead entries from a sorted table at once changes no decision |
| `AclFilter.CoveredEntryNeverDecides` | libdhcp/src/acl.cpp:43-86 | the access of a strictly covered entry is irrelevant to every decision |
| `AclUpdate.ParseRow` | Monitor/acl_update.cpp:69-73 | a row becomes its entry, fields parsed into zeroed buffers |
| `AclUpdate.LoadedRows` | Monitor/acl_update.cpp:68-75 | row i is entry i, up to 2048 rows |
| `AclUpdate.LoadRows` | Monitor/acl_update.cpp:63-75 | the first 2048 rows in order, the rest of the buffer zero |
| `AclUpdate.Publish` | Monitor/acl_update.cpp:94-96 | the shared table becomes exactly the given entries |
| `AclUpdate.DoUpdate` | Monitor/acl_update.cpp:63-98 | the shared table becomes a sorted permutation of the loaded rows |
| `AclUpdate.PrintedRule` | Monitor/acl_update.cpp:44-73 | a row with any printed address and any printed mask matches exactly the same-type addresses that agree with it bit by bit under the mask, both filled up with zeros; its access is the row's |
| `AclUpdate.PrefixRule` | Monitor/acl_update.cpp:44-54 | a row with a printed n-byte address and a printed all-ff n-byte mask matches exactly the same-type addresses that begin with those bytes (for shorter addresses: agree as far as they go) |
| `AclProtocol.RunKeepsInv` | libdhcp/src/acl.cpp:62-91 | in every interleaving of one publisher and any number of readers, each answer is the decision on one whole published table, current from the reader's first step to its last; tables are sorted, have at most 2048 entries, and versions in the answers never go back |
| `AclProtocol.RunIsSerial` | libdhcp/src/acl.cpp:62-91 | every interleaving is equivalent to updates and queries one at a time: the published tables are the empty one and those of the updates of the run, in order, and each answer is for the type and address its query asked, decided by the latest of them when the query got the lock |
| `AclProtocol.TablesAreSortedRows` | Monitor/acl_update.cpp:63-96 | the v-th of those tables is a sort of the rows the v-th update loaded |
| `AclProtocol.UpdateTakesEffect` | Monitor/acl_update.cpp:94-98 | from every reachable state with no one inside the lock, an update of any rows can go through, and its table is then the published one |
| `AclProtocol.QueryIsAnswered` | libdhcp/src/acl.cpp:62-91 | from every reachable state in which no update holds the lock, a query by any thread outside can go through, and is answered by the current table |
| `AclProtocol.EmptyTablePermits` | libdhcp/src/acl.cpp:68-86 | before the first publication every query is permitted |
| `Strtoul.ReadsSubject` | Monitor/acl_update.cpp:48 | on any text: white space, a sign or none, 0x or nothing, and hex digits in either case before a non-digit are read as the base-16 number, saturated at 2^32 - 1, negated modulo 2^32 after a minus, ending behind the last digit |
| `Strtoul.SubjectOrNone` | Monitor/acl_update.cpp:48 | every text either has that form at a position or has it in no way, and then 0 is read and nothing consumed |
| `Strtoul.CaseDoesNotMatter` | Monitor/acl_update.cpp:48 | texts that differ in letter case only are read alike at every position |
| `Strtoul.ReadsTwoDigits` | Monitor/acl_update.cpp:48 | two hex digits followed by a non-digit are read as one number ending right behind them |
| `HwAddr.ParseHwAddr` | Monitor/acl_update.cpp:44-54 | writes the low bytes of the numbers read, leaves the rest of the buffer alone, never moves past the terminator, on any text |
| `HwAddr.PrintHwAddr` | libdhcp/src/dhcp.c:36-45 | two lower-case digits per byte, colons between, a terminator, the rest of the buffer untouched |
| `HwAddr.PrintedCharacters` | libdhcp/src/dhcp.c:36-45 | character by character: each byte's high and low lower-case digit, a colon between bytes |
| `HwAddr.ParsePrinted` | Monitor/acl_update.cpp:44-54 | parsing the printed address gives its bytes back, one each |
| `HwAddr.ParsesAlike` | Monitor/acl_update.cpp:44-54 | texts that differ in letter case only parse to the same numbers |
| `HwAddr.ParsePrintedAnyCase` | Monitor/acl_update.cpp:44-54 | a printed address parses back also in upper case |
| `HwAddr.LowByteIsModulo` | Monitor/acl_update.cpp:48 | the byte stored is the number read modulo 256 |
| `HwAddr.PrintedIsCString` | libdhcp/src/dhcp.c:36-45 | the printed text has no NUL before its terminator |
| `HwAddr.PrintThenParse` | Monitor/acl_update.cpp:44-54 | the printer's buffer handed to the parser: the bytes come back, the rest of the target is unchanged |
| `DhcpOptions.FindOption` | libdhcp/src/dhcp.c:58-73 | the walk ends, with a growing index, on the answer of the specification walk; every byte it reads exists |
| `DhcpOptions.SmallSizesFit` | libdhcp/src/dhcp.c:59-70 | the 32-bit index never wraps for sizes up to 2^32 - 257, whatever the data |
| `DhcpOptions.OneMoreByteSuffices` | libdhcp/src/dhcp.c:62-64 | one readable byte behind `size` makes every read legal, whatever the data |
| `DhcpOptions.ScanFindsFirst` | libdhcp/src/dhcp.c:62-72 | on options laid out one after the other and closed by End, with no Pad before the wanted one, the walk gives what the format gives |
| `DhcpOptions.FindsFirstOption` | libdhcp/src/dhcp.c:58-73 | on an encoded list: NULL iff no option has the code, else exact position, length and bytes of the payload of the first one that has |
| `DhcpOptions.PadPutsOutOfStep` | libdhcp/src/dhcp.c:62-70 | after any options without the code, a Pad at p makes the walk go on at p + data[p+1] + 2, while the format goes on at p + 1, whatever follows |
| `DhcpOptions.PadHidesTheRest` | libdhcp/src/dhcp.c:62-72 | if that is past `size` or in zero fill, nothing is found, and this is right if and only if the format has nothing behind the Pad either |
| `DhcpOptions.PadSkipsItems` | libdhcp/src/dhcp.c:62-72 | if that is the start of a later item, the answer is right if and only if no item jumped over has the code |
| `DhcpOptions.PadGivesAWrongHit` | libdhcp/src/dhcp.c:62-68 | a concrete list where payload bytes after a Pad are answered as the option |
| `DhcpOptions.EndIsTakenForAnOption` | libdhcp/src/dhcp.c:62-68 | asked for code 255, the walk answers with End itself |
| `Pack.Store2` | libmysql/include/myisampack.h:84-86 | the two bytes hold the big-endian image of the value, the rest is untouched |
| `Pack.Store3` | libmysql/include/myisampack.h:87-92 | the same for three bytes |
| `Pack.Store4` | libmysql/include/myisampack.h:93-97 | the same for four bytes |
| `Pack.Store5` | libmysql/include/myisampack.h:98-104 | the same for five bytes, from two words |
| `Pack.Store6` | libmysql/include/myisampack.h:105-112 | the same for six bytes |
| `Pack.Store7` | libmysql/include/myisampack.h:113-121 | the same for seven bytes |
| `Pack.Store8` | libmysql/include/myisampack.h:122-125 | the same for eight bytes, as two four-byte stores |
| `Pack.Load2` | libmysql/include/myisampack.h:27-43 | both two-byte loads give the unsigned and the two's complement value of the bytes |
| `Pack.Load3` | libmysql/include/myisampack.h:29-46 | the same for three bytes, sign extension included |
| `Pack.Load4` | libmysql/include/myisampack.h:37-50 | the same for four bytes |
| `Pack.Load5` | libmysql/include/myisampack.h:51-55 | the five-byte load gives the unsigned value of the bytes |
| `Pack.Load6` | libmysql/include/myisampack.h:56-62 | the same for six bytes |
| `Pack.Load7` | libmysql/include/myisampack.h:63-70 | the same for seven bytes |
| `Pack.Load8` | libmysql/include/myisampack.h:71-79 | both eight-byte loads give the unsigned and the two's complement value |
| `Pack.StoreThenLoad` | libmysql/include/myisampack.h:42-125 | for N = 2..8 loading what was stored gives back every N-byte unsigned value |
| `Pack.SignedStoreThenLoad` | libmysql/include/myisampack.h:27-125 | for N = 2, 3, 4, 8 it gives back every signed value that fits |
| `Pack.ByteOrderIsNumericOrder` | libmysql/include/myisampack.h:17-20 | for every width, byte-lexicographic order of stored images is numeric order |
| `SkipSpace.SkipTrailingSpace` | libmysql/include/m_string.h:361-385 | for every content, length, address and word size, the answer of the plain byte loop |
| `SkipSpace.SkipWords` | libmysql/include/m_string.h:377-379 | the word loop goes back over exactly the words that are all spaces: it stops at the first word from the back that is not, or at the first boundary; every word it reads is aligned and inside the buffer |
| `SkipSpace.WordTest` | libmysql/include/m_string.h:318-323 | a word equals SPACE_INT exactly when all its bytes are spaces |
| `Atomic.CasLocked` | libmysql/include/atomic/rwlock.h:54 | the locked compare-and-swap: result, cell and comparand |
| `Atomic.CasMsvc` | libmysql/include/atomic/generic-msvc.h:66-69 | the interlocked body meets the same contract |
| `Atomic.Load` | libmysql/include/my_atomic.h:77-81 | returns the cell and leaves it unchanged |
| `Atomic.Retry` | libmysql/include/my_atomic.h:65-76 | under any finite interference the loop ends, applies its operation to what the cell held right before the winning attempt, returns that value, and has failed no more often than others wrote up to then |
| `Atomic.RunKeepsInv` | libmysql/include/my_atomic.h:65-85 | in every interleaving each call takes effect exactly once, at its winning compare-and-swap, and returns the value just before; a call has failed at most as often as others have won since it started |
| `Atomic.RunAsAsked` | libmysql/include/my_atomic.h:65-76 | over every run, each running and each returned call works on the operation it was begun with, and its failed attempts are at most the wins of others since it began |
| `Atomic.SoloCallWins` | libmysql/include/my_atomic.h:65-76 | alone, a call wins with its second attempt at the latest, with its own operation |
| `Atomic.FasHandsOver` | libmysql/include/my_atomic.h:71-76 | what a fetch-and-store puts in, the next winner gets out |
| `Atomic.AddsSumUp` | libmysql/include/my_atomic.h:65-70 | with adds only, the cell is the initial value plus the sum of what the returned calls were begun with, modulo 2^32 |
| `Atomic.LoadObserves` | libmysql/include/my_atomic.h:77-81 | among other threads, a load changes nothing and returns the cell |
| `Shm.ShmBlock.constructor` | libdhcp/src/shm.cpp:110-134 | the names in front, the data region behind them |
| `Shm.ShmBlock.Write` | libdhcp/src/shm.cpp:194-207 | either SHM_LOCK_FAILED and nothing written, or the data, cut to the region, written; the names never change |
| `Shm.ShmBlock.WriteOrSkip` | libdhcp/src/shm.cpp:209-216 | the same with the acknowledge wait; for regions below 2^32 - 1 bytes SHM_LOCK_FAILED is returned exactly when the lock failed, and SHM_WRITE_TIMEOUT always means that the data was written |
| `Shm.WrittenIs` | libdhcp/src/shm.cpp:199-206 | a write that fits returns its own length, any other the region's, as DWORDs |
| `Shm.SuccessIsRecognizable` | libdhcp/src/shm.cpp:206-211 | a success never looks like a failure if and only if the region is shorter than 2^31 bytes |
| `ShmProtocol.RunIsSerial` | libdhcp/src/shm.cpp:178-207 | with a mutex, in every interleaving of byte-wise copies the region, whenever the mutex is free, is a serial fold of whole writes cut to its length; the names never change |
| `ShmProtocol.RunAsAsked` | libdhcp/src/shm.cpp:194-216 | over every run: the writes are, in unlock order, the data the calls were called with, and each finished call returned SHM_LOCK_FAILED for a failed lock, else its data's length cut to the region, or SHM_WRITE_TIMEOUT for an unacknowledged shm_write_or_skip |
| `ShmProtocol.CodesTellTheTruth` | libdhcp/src/shm.cpp:194-216 | for regions below 2^32 - 1 bytes, a call that returned SHM_LOCK_FAILED wrote nothing and any other finished call wrote exactly once, in every run |
| `ShmProtocol.CodesTellTheTruthIff` | libdhcp/src/shm.cpp:194-216 | that holds of every run if and only if the region is below 2^32 - 1 bytes: a larger one takes a write whose byte count is SHM_LOCK_FAILED |

## Left out

- Database calls, polling and timestamps of Monitor/acl_update.cpp and libdb/db.cpp: rows are an input; what `atoi` makes of a column is an input too.
- Windows handles, privileges, security descriptors, file mapping and structured exceptions: only the contracts of locks, mutex with timeout and auto-reset event are kept, and no lock owner dies.
- The builder of the trie (`trie_insert`, `ac_trie_prepare`): its code is not part of the repository; the field comments of TRIE_NODE are the well-formedness predicate. Depths are unbounded here, the `leaf` field has 16 bits.
- Byte offsets of ACL_LIST inside the mapping: the table is an array of 2048 entries and a length; the publisher's copy is modelled entry by entry.
- Which result the library's qsort gives: claims hold for every result its contract allows; `Qsort.Sort` is one such sort.
- AclFilter.MatchEntry: address lengths over 16 are excluded, because the entry fields have 16 bytes and the source would read on behind them.
- AclFilter.AclList.Filter: address lengths over 16 are excluded for the same reason.
- HwAddr.PrintHwAddr: length 0 is a precondition, because the source would then write in front of its buffer. The wide-character twin is the same code.
- DhcpOptions.FindOption: walks whose index would reach 2^32 are excluded; there the 32-bit index wraps and the loop need not end.
- DhcpOptions.FindsFirstOption: lists with a Pad in front of the wanted option, and code 255, are not in this theorem but in the Pad lemmas and `EndIsTakenForAnOption`.
- SHM events: SetEvent on the send event changes no data and has no step of its own.
- Freed memory is not poisoned: a removed buffer entry simply leaves the list.
- Bit tricks (my_bit.h), bit maps (my_bitmap.h), floating-point macros, x86 assembly atomics and the remaining headers: declarations, or only easy members.
- Debug output, configuration, time strings and setup projects.
