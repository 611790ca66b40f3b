# Verified models of the common-cc library

This project models the stateful core of a C++ service library and proves what that core promises. It covers:

- `CShmCache`, the shared-memory LRU cache over fixed arrays of block headers (`CacheModel`, `CacheShape`,
  `CacheLinks`, `CacheSweep`, `ShmCache`, `CachePolicy`, `CachePartition`);
- `CNetQueue`, the byte ring of length-prefixed messages, as a sequential class (`NetQueueModel`, `NetQueue`)
  and as two processes interleaved step by step (`NetQueueSteps`, `NetQueueHazard`, `NetQueueReturns`);
- the Json printer, tokenizer and parser (`JsonText`, `Json`, `JsonRoundTrip`, `JsonGrammar`, `JsonMeaning`);
- external merge sort (`ExternSort`) and streaming MD5 (`Bits`, `Md5Words`, `Md5`, `Md5Vector`);
- frame reassembly in the network client (`NetClient`);
- TinyXML: UTF-8, escaping and reading back (`XmlText`, `XmlEntities`, `XmlRoundTrip`), line ends (`XmlNewlines`),
  attribute sets (`XmlAttributes`), child lists and deep copies (`XmlTree`).

Classes keep the fields and the in-place updates of the program: arrays for the block headers, buckets and
buffers, linked nodes for the XML tree. Each method is proved against a specification on plain values, and the
promises are lemmas about those specifications. `Bytes` and `Slices` hold what several modules share.

Check everything with `dafny verify dfyconfig.toml`.

## How the models are built

- **Cache.** The ghost fields `free`, `used` and `chain` are the LRU order and the bucket chains. The invariant
  `InvOn` ties them to snapshots of the arrays, and `CacheLinks` proves, on snapshots, what each group of link
  updates does to it. `Content` is the recency-ordered list of entries. `CachePartition` restates the invariant on
  the headers alone. Time, the block, bucket and size parameters are arguments; taking and giving back the
  semaphore makes each public operation atomic.
- **Queue.** In `NetQueueSteps` every load, byte copy, store of `m_head` or `m_tail` and return is a step of its
  own, the stores of the value `L` before their reset included. `Effect` names the step at which a call takes
  effect.
- **Json.** An object is a list of members in key order, as a `std::map` iterates. `Back` is the value whose
  strings went through encode and decode once. `JsonGrammar` is a grammar of texts with their characters as
  numbers, independent of the printer and of the parser's predicates.
- **XML nodes.** A `View` is a snapshot of all live nodes. The field writes of each operation are kept in the
  order of the program and proved equal to an insertion or removal on the view. Deleted nodes leave the live set.

## Where the program behaves otherwise than expected

- **Queue, line 86.** The value `L` in `m_tail`, before its reset, is not harmless. A consumer that loads
  `m_head == 0` and then `m_tail == L` takes an empty ring for a full one. `HazardExact` gives the exact
  condition, `HazardBreaks` shows that each such load does harm, and `HazardRun` is a concrete run on eight bytes.
  `m_head == L` is harmless. Harm is possible exactly when some frame ends flush with the buffer: without one
  every run is safe (`NeverFlushSafe`), and after the first one the consumer alone can bring the harm about
  (`FlushExact`).
- **Cache, Set.** Data longer than the whole cache is accepted: the value wipes everything else, then its own
  earlier rounds, and only the last round is left (`SetOutcome`).
- **Cache, Check.** After deleting an expired key of several blocks, the walk goes on from a block that was just
  freed, and the rest of that bucket stays unvisited (`SweepComplete`, and `CheckRun` for a run).
- **Network client, OnRecv.** One event cuts off at most one frame. When more frames than reads were completed, a
  complete frame stays in the buffer until more bytes arrive, and it is lost if the peer closes first (`AllCut`).
- **Json, encode and decode.** The passes of decode run in an order in which a backslash directly before `n` or
  `r` does not survive (`DecodeInvertsEncode`, `RoundTrip`).
- **Json, parser.** Commas in arrays and objects are skipped wherever they stand, and none is needed
  (`JsonGrammar.ReadDoc`); the characters 251 to 255 read as null (`StrangeAt`).
- **XML, EncodeString.** A text that contains `&#x` never reads back as itself (`XmlRoundTrip.RoundTrip`).
- **XML, attributes.** An attribute with empty name and empty value is taken for the sentinel and ends the
  iteration (`VisibleAll`), so that copies lose what follows (`CopiedExact`). While `FindOrCreate` adds a new
  attribute it has the empty name, so an existing attribute with the empty name fails the assertion in `Add`
  (`CopyAllowed`).
- **XML, LinkEndChild.** The assertions allow a node that already is a child here, which breaks the list
  (`LinkTwice`), and a node above this one, or this one, which closes a cycle (`LinkedTree`). `LinkExact` says that
  these are the only two ways. A document passes them only if this node is below it, and this node is then deleted
  with it (`DocumentGone`) before line 194 uses it again.

## Model

| member | source | states |
|---|---|---|
| ShmCache.Cache.Init | utils/shmcache.cpp:52-117 | A new cache satisfies the whole invariant and holds nothing, for every bucket count, block count and block size above 0. |
| ShmCache.Cache.Set | utils/shmcache.cpp:119-166 | For every key and every data, also longer than the cache: the invariant holds again and the stored entries are the block-wise store of the recency list (`SetOutcome` says what that amounts to); key 0 is refused and changes nothing; the loops end. |
| ShmCache.Cache.Get | utils/shmcache.cpp:168-203 | Answers 0 with the bytes of the entry if and only if the list holds an entry of the key that is not expired, -2 if and only if it holds an expired one, -1 if and only if it holds none (`Answers`); a hit moves the whole entry to the most recent end, an expired one leaves the list. |
| ShmCache.ReplyAnswers | utils/shmcache.cpp:168-203 | The codes 0, -1 and -2 and the bytes of a read, told from the entries alone, for every list with different keys. |
| ShmCache.Cache.Del | utils/shmcache.cpp:205-211 | Exactly the entry of the key leaves the recency list; all others stay in order. |
| ShmCache.Cache.DeleteHash | utils/shmcache.cpp:268-297 | All blocks of the key, and no others, leave the used part of the LRU list and its bucket and become free; the invariant holds again. |
| ShmCache.Cache.InsertHash | utils/shmcache.cpp:236-266 | A filled-in head block becomes the last used one of the LRU list and enters its bucket behind all blocks with the same or a smaller key; the invariant holds again. |
| ShmCache.Cache.MakeRoom | utils/shmcache.cpp:134-144 | The eviction loop ends with a free head block (so the assertion behind it cannot fail), having deleted whole keys from the least recent end and nothing of the value being stored before every other key is gone. |
| ShmCache.Cache.StoreBlock | utils/shmcache.cpp:140-162 | The free head block takes the next bytes of the value and becomes the most recently used block. |
| ShmCache.Cache.Release | utils/shmcache.cpp:279-288 | One block goes from its place in a chain and in the LRU order to the front of the free blocks; nothing else moves. |
| ShmCache.Cache.MoveLRUTail | utils/shmcache.cpp:299-321 | The block goes from any position of the circular order to its end; the links again form one ring of all blocks with inverse next and pre. |
| ShmCache.Cache.MoveLRUHead | utils/shmcache.cpp:323-345 | The same to the front. |
| ShmCache.Cache.GetStat | utils/shmcache.cpp:382-415 | Counting along the chains gives the number of blocks, value bytes and keys of the stored entries. |
| ShmCache.Cache.CheckBucket | utils/shmcache.cpp:221-230 | Walking one bucket while deleting from it removes exactly the keys the sweep specification names, and the walk ends. |
| ShmCache.Cache.Check | utils/shmcache.cpp:213-234 | The invariant is kept, and what is left is every entry but those that are expired and that no expired key of several blocks hides in their bucket. |
| CachePartition.Ring | utils/shmcache.cpp:88-114 | From the headers alone: next and pre are inverse on every block, and following next from the head meets each of the N blocks once, the tail last, and returns to the head. |
| CachePartition.FreeFirst | utils/shmcache.cpp:88-114 | The free blocks are a prefix of the LRU order: the block k steps from the head has key 0 exactly for k below the number of free blocks. |
| CachePartition.Chained | utils/shmcache.cpp:236-297 | Each bucket: following m_next from the head passes m_len blocks and ends; the keys belong to the bucket, are not 0, and ascend. |
| CachePartition.Partition | utils/shmcache.cpp:236-297 | Every block is either free, with key 0 and in no chain, or in exactly one chain, once: that of its key modulo the bucket count. |
| CachePartition.PermOnto | utils/shmcache.cpp:88-114 | The LRU order misses no block. |
| CacheShape.ShapeRemove | utils/shmcache.cpp:268-297 | Removing the first block of a key from chain and LRU list keeps the joint shape of all chains. |
| CacheShape.ShapeInsert | utils/shmcache.cpp:236-266 | Putting a block in at its place in the chain and at the LRU end keeps the joint shape. |
| CacheShape.ShapeTouch | utils/shmcache.cpp:183-196 | Moving all blocks of a key to the LRU end in data order keeps the joint shape. |
| CacheLinks.SplicedTail | utils/shmcache.cpp:310-320 | The six link updates cut a block out of the ring and put it in at the end. |
| CacheLinks.UnlinkOk | utils/shmcache.cpp:279-287 | The header updates of a deletion unlink one block from its chain, leave all other chains, headers and values alone, and mark the block free. |
| CacheLinks.LinkBuckets | utils/shmcache.cpp:246-265 | The header updates of an insertion put one block into its chain and leave all other chains alone. |
| CacheLinks.WalkDone | utils/shmcache.cpp:275-294 | A walk that stops at a larger key or the end has met every block of the key. |
| CacheModel.EntriesAppend | utils/shmcache.cpp:133-162 | Blocks of one key appended in order are one more entry, at the most recent end. |
| CacheModel.EntriesDrop | utils/shmcache.cpp:268-297 | Deleting the blocks of a key from the block sequence deletes its entry from the recency list. |
| CacheModel.EntriesDistinct | utils/shmcache.cpp:268-297 | No two entries have the same key. |
| CacheModel.DropEntryExact | utils/shmcache.cpp:268-297 | Dropping a key takes out just its entry; those before and behind stay in order. |
| CacheModel.TailRoundBytes | utils/shmcache.cpp:140-162 | What is left of a value are its last bytes, and those before them fill the cache a whole number of times. |
| CacheModel.EntriesFind | utils/shmcache.cpp:177-198 | A key has an entry exactly when it has blocks, and the entry's value is their data in LRU order. |
| CacheModel.StoreFits | utils/shmcache.cpp:133-162 | Storing block by block, a value that fits ends whole behind what the shortest sufficient eviction leaves. |
| CacheModel.StoreWraps | utils/shmcache.cpp:133-162 | A value that does not fit evicts everything else and then its own earlier rounds. |
| CacheModel.EvictToShortest | utils/shmcache.cpp:134-138 | What an eviction leaves is the longest suffix of the recency list that leaves enough blocks. |
| CacheModel.FitsIff | utils/shmcache.cpp:133-162 | The block count of a value is within N exactly when its length is within N*B. |
| CacheModel.ConcatChunks | utils/shmcache.cpp:147-158 | The bytes of the blocks are the value. |
| CacheModel.LastRoundBytes | utils/shmcache.cpp:133-162 | The blocks left of an oversized value hold its last ((len-1) mod N*B)+1 bytes. |
| CachePolicy.SetOutcome | utils/shmcache.cpp:119-166 | Set in full: with room, the shortest least recently used prefix of the other keys goes, each whole, and the value is stored whole and most recent; no data only deletes; oversized data leaves just its last round. |
| CachePolicy.SetThenGet | utils/shmcache.cpp:119-203 | Reading a value back before it expires returns the value if and only if it fits in the cache. |
| CachePolicy.RunOk | utils/shmcache.cpp:119-234 | Over every run of Set, Get, Del and Check: distinct nonzero keys, values cut into full blocks, never more than N blocks. |
| CachePolicy.RunFaithful | utils/shmcache.cpp:119-234 | After any run, every stored entry is what the last Set of its key left, with the time of that Set. |
| CachePolicy.GetFaithful | utils/shmcache.cpp:119-234 | After any run, a successful read returns the bytes of the last Set of the key, which was not deleted since and is not expired; a key never set, or deleted, reads as missing. |
| CachePolicy.ApplyMember | utils/shmcache.cpp:119-234 | No operation invents or alters an entry other than the one it writes. |
| CachePolicy.RunRetains | utils/shmcache.cpp:119-234 | Least recently used, exactly: an entry that no operation of a run overwrites, deletes or finds expired is still there at the end if and only if at every time it and the entries used since, each key once, were within the N blocks; those entries are then the ones behind it. |
| CachePolicy.ApplyRetains | utils/shmcache.cpp:119-234 | One operation evicts an entry it spares if and only if that entry and those then more recent exceed the N blocks; else exactly those stand behind it. |
| CachePolicy.EvictExact | utils/shmcache.cpp:134-138 | An eviction spares an entry if and only if it and the more recent ones fit the room. |
| CachePolicy.UsedSince | utils/shmcache.cpp:119-203 | An operation on a key used since the entry adds nothing but the change of that key's block count, so repeated hits cost the entry nothing. |
| CachePolicy.GetEntry | utils/shmcache.cpp:168-203 | A read of an entry that is not expired gives its bytes and puts it behind all others, which stay in order; an expired one is taken out. |
| CachePolicy.RunFound | utils/shmcache.cpp:119-234 | An entry that a run spares is found by a read after it if and only if it and the entries used since never exceeded the N blocks; else the key is missing. |
| CachePolicy.SetRunGet | utils/shmcache.cpp:119-234 | A value set, and read after a run that neither sets nor deletes its key nor outlives it, comes back if and only if it and the entries used since, each key once, never exceeded the N blocks; else the key is missing. |
| CacheSweep.StatsAgree | utils/shmcache.cpp:393-411 | Key changes along the sorted chains count each key once, and chain lengths and block lengths add up to the totals over the entries. |
| CacheSweep.SweepMember | utils/shmcache.cpp:221-230 | Which keys the walk of one chain deletes: the expired ones with no expired key of several blocks before them. |
| CacheSweep.SweepAll | utils/shmcache.cpp:213-234 | All buckets together leave exactly the entries that are not swept. |
| CacheSweep.SweepComplete | utils/shmcache.cpp:213-234 | Check never deletes a live entry; it deletes every expired one if and only if no expired key of several blocks comes before another expired key of the same bucket. |
| CachePolicy.CheckRun | utils/shmcache.cpp:213-234 | A run that makes Check incomplete: with one bucket, an expired key of two blocks, and behind it an expired key that Check leaves. |
| NetQueue.Queue.constructor | net/net_queue.cc:3-28 | A new queue is empty and valid, for every buffer up to 2^31 bytes. |
| NetQueue.Queue.IsEmpty | net/net_queue.h:24-26 | The indices are equal exactly when no message is queued. |
| NetQueue.Queue.WriteFrame | net/net_queue.cc:69-88 | In all three layouts the length word and the bytes land on consecutive cells of the ring, no other cell changes, and the new tail is behind them. |
| NetQueue.Queue.EnQueue | net/net_queue.cc:57-93 | Succeeds exactly when the framed total with the new message stays below the buffer length; then it appends; else nothing changes. |
| NetQueue.Queue.ReadLength | net/net_queue.cc:117-126 | The length word, in one piece or two, is the length of the oldest message. |
| NetQueue.Queue.ReadMessage | net/net_queue.cc:135-144 | The bytes, in one piece or two, are those of the oldest message; the rest of the caller's buffer keeps its content. |
| NetQueue.Queue.DeQueue | net/net_queue.cc:95-149 | Empty, buffer too small for a length word, too small for the frame, or success; the reported length in each case; on success the oldest message is handed out and leaves, else nothing changes. |
| NetQueue.Queue.Push | net/net_queue.cc:170-186 | As EnQueue, and the counter counts the successes modulo 2^32. |
| NetQueue.Queue.Pop | net/net_queue.cc:151-168 | As DeQueue, and the counter counts the successes modulo 2^32. |
| NetQueueModel.RingAppend | net/net_queue.cc:69-88 | Bytes written behind a run of ring cells extend the run and leave it alone. |
| NetQueueModel.RingFront | net/net_queue.cc:117-144 | The ring of a queue starts with the oldest message's length, then its bytes, then the ring of the others. |
| NetQueueModel.FrameBytes | net/net_queue.cc:69-84 | A frame starts with the length in four bytes, low-order byte first, as a little-endian host stores it. |
| NetQueueModel.StreamSum | net/net_queue.cc:57-67 | The framed total is the bytes of the messages and four more for each. |
| NetQueueReturns.PushReturns | net/net_queue.cc:57-93 | In every state, a push returns after at most |m| + 9 steps of the producer alone. |
| NetQueueReturns.PopReturns | net/net_queue.cc:95-149 | After every safe run, a pop returns after at most size + 11 steps of the consumer alone, unless m_tail is the buffer length with m_head at 0 when it starts. |
| NetQueueSteps.StepKeeps | net/net_queue.cc:57-149 | One step of either side (a load, a byte copied, a store of an index, a return) keeps the joint invariant, and a call that takes effect answers as the sequential queue does, unless the step is the hazardous load. |
| NetQueueSteps.Linearizable | net/net_queue.cc:57-149 | Every interleaving without the hazardous load is linearizable to the first-in-first-out queue, and each side receives the answers of its own calls in order. |
| NetQueueSteps.Answers | net/net_queue.cc:57-149 | In every run, each side receives the answers of its own calls in the order in which they take effect, at most the last one outstanding. |
| NetQueueSteps.NeverAborts | net/net_queue.cc:127 | In such a run the assertion on the length never fails. |
| NetQueueSteps.Conserved | net/net_queue.cc:57-149 | What was pushed is what was popped followed by what is queued. |
| NetQueueSteps.Fifo | net/net_queue.cc:57-149 | In such a run the messages delivered are the first messages sent. |
| NetQueueSteps.StaleIsConservative | net/net_queue.cc:59-67 | In every run without the hazardous load, values loaded earlier only underestimate: the producer never computes more free space, the consumer never more content than there is. |
| NetQueueSteps.NoSharedCell | net/net_queue.cc:69-144 | In every such run the cell about to be written and the cell about to be read are inside the buffer and never the same. |
| NetQueueHazard.HazardExact | net/net_queue.cc:86-115 | From a consistent state, the load of m_tail breaks the invariant if and only if it returns the buffer length while m_head was loaded as 0, that is between the store of m_tail and its reset. |
| NetQueueHazard.HazardBreaks | net/net_queue.cc:95-149 | Every such load does harm: the next thing a consumer that runs on alone does is to fail the assertion or to give an answer that an empty queue never gives. |
| NetQueueHazard.NeverFlushSafe | net/net_queue.cc:69-88 | Runs in which no frame ends flush with the buffer are safe. |
| NetQueueHazard.FlushBreaks | net/net_queue.cc:82-149 | After every safe run that leaves m_tail at the buffer length, a consumer with room for the queued frames, running on alone, makes the run go wrong: the assertion fails, or an answer is not that of the queue. |
| NetQueueHazard.FlushExact | net/net_queue.cc:69-88 | After a run in which no frame ended flush with the buffer, the next step ends one flush if and only if some continuation by the consumer alone goes wrong. So a queue is safe whatever the schedule exactly as long as no frame ends flush. |
| NetQueueHazard.HazardRun | net/net_queue.cc:57-149 | The hazard is reachable: on a ring of 8 bytes, a run in which three messages are received while two were sent. |
| JsonText.EncodePass | utils/json.cpp:269-297 | One in-place find-and-replace loop equals replacing every occurrence, from the left, and ends. |
| JsonText.DecodePass | utils/json.cpp:299-325 | One in-place loop of decode equals replacing every pair, from the left, and ends. |
| JsonText.EncodeIsEscape | utils/json.cpp:269-297 | The four passes of encode are one character-by-character escape map, on every string. |
| JsonText.DecodeEncode | utils/json.cpp:269-325 | What the four passes of decode make of an encoded string, for every string: an n or r directly behind a backslash has become a line feed or carriage return. |
| JsonText.DecodeInvertsEncode | utils/json.cpp:269-325 | Decode inverts encode on a string if and only if no backslash in it is directly followed by n or r. |
| JsonText.MangleIdentity | utils/json.cpp:299-325 | Which strings decoding an encoded string leaves alone, and that a second round trip changes nothing. |
| Json.AtoiDec | utils/json.cpp:208-215 | Reading a printed integer gives it back. |
| Json.Token | utils/json.cpp:347-429 | The scanning loops of the tokenizer compute the token at an index and the index behind it; the index always advances. |
| Json.Parse | utils/json.cpp:433-553 | The recursive parser, its array loop and its member state machine compute the outcome specified by recursion, and it terminates on every text. |
| Json.ToString | utils/json.cpp:202-267 | The printing recursion with its accumulating loops gives the specified text. |
| JsonRoundTrip.StringEndEscape | utils/json.cpp:379-399 | A string token ends at the quote behind an escaped string, never inside it. |
| JsonRoundTrip.ReadValue | utils/json.cpp:433-553 | At any place in any text, the printed form of a value parses to the value with its strings decoded, and leaves the index just behind it. |
| JsonRoundTrip.ParsePrint | utils/json.cpp:202-553 | Parsing the printed form of any nested value gives that value up to the decoding of its strings, and consumes all of it. |
| JsonRoundTrip.BackIdentity | utils/json.cpp:202-553 | Decoding leaves a value alone if and only if no string or key in it has a backslash directly before n or r. |
| JsonRoundTrip.RoundTrip | utils/json.cpp:202-553 | The parser inverts the printer on a value if and only if no string or key in it has a backslash directly before n or r. |
| JsonGrammar.ReadDoc | utils/json.cpp:347-553 | Any text laid out as a `Doc` (white space anywhere, separators of commas and white space, any digits, any string body), at any place of a longer text, parses to the value stored, and leaves the index just behind it. |
| JsonGrammar.ParseSpaces | utils/json.cpp:349 | Characters 32, 9, 13 and 10 before a token are skipped. |
| JsonGrammar.AtoiSigned | utils/json.cpp:445 | The digits 48 to 57 and the sign 45 read as the decimal number they spell. |
| JsonMeaning.ParseText | utils/json.cpp:347-553 | Any such text parses to the value it spells: arrays in order, objects with their names in order, of several members with one name the last one, and no other name lost. |
| JsonMeaning.SpacedPrint | utils/json.cpp:202-553 | Any text made from a printed value by putting white space before tokens parses to what the printed text does: to the value itself if and only if no string or key in it has a backslash directly before n or r. |
| JsonMeaning.InsertMap | utils/json.cpp:527 | Storing a member gives the name this value, keeps all other names, and keeps the order. |
| JsonMeaning.LessBefore | utils/json.cpp:527 | Names are ordered by the first character that differs, or by length. |
| JsonMeaning.StoredDenotes | utils/json.cpp:494-533 | What storing the members one by one amounts to, for every value and every order of members. |
| JsonMeaning.PrintIs | utils/json.cpp:202-297 | The printed form, character by character. |
| JsonMeaning.ArrayRefuses | utils/json.cpp:462-487 | A closing brace or a colon in an array is refused. |
| JsonMeaning.ObjectRefusesMark | utils/json.cpp:494-533 | Which marks are refused in an object where a name, a colon or a value is due. |
| JsonMeaning.ObjectRefusesValue | utils/json.cpp:494-533 | A name that is no string, and a value where the colon is due, are refused. |
| JsonMeaning.StrangeAt | utils/json.cpp:347-429 | A character that starts no token is refused, but the characters 251 to 255, which as signed numbers are type codes, count as null. |
| ExternSort.CBaseExternSort.MemorySort | utils/extern_sort.cpp:111-133 | Fails exactly when some record has no text; else the run files are sorted, not empty, and hold the records read: run file i is the i-th segment of the input, all segments but the last of the run size (up to 2^32 records; none longer beyond). |
| ExternSort.CBaseExternSort.Keep | utils/extern_sort.cpp:117-125 | Between two records fewer than the run size are in memory: as many as the 32-bit count is above its last multiple. |
| ExternSort.CBaseExternSort.WriteFile | utils/extern_sort.cpp:73-109 | The records in memory become one more run file, unless one of them has no text. |
| ExternSort.CBaseExternSort.ReadFile | utils/extern_sort.cpp:49-71 | Hands out the next record of an open run file and moves on. |
| ExternSort.CBaseExternSort.SelectMax | utils/extern_sort.cpp:171-177 | The selected index names an open run, and no open run has a record of higher rank. |
| ExternSort.CBaseExternSort.Advance | utils/extern_sort.cpp:181-198 | The record of the selected run is replaced by the next one of its file, or the run is closed; no other run changes. |
| ExternSort.CBaseExternSort.MergeNext | utils/extern_sort.cpp:170-200 | One round hands out a pending record of highest rank and keeps the merge invariant; what was handed out and what is pending stay the same records together. |
| ExternSort.CBaseExternSort.MergeSort | utils/extern_sort.cpp:135-209 | The loop ends, having handed out all records of all runs, none twice, by descending rank. |
| ExternSort.CBaseExternSort.Sort | utils/extern_sort.cpp:32-47 | For every run size above 0 and every nonempty input: succeeds exactly when every record has a text, and then the output is the input, sorted by descending rank. |
| ExternSort.MergeStep | utils/extern_sort.cpp:170-200 | Handing out the first record of a run that no other run outranks keeps the runs sorted and the output an upper bound of what is pending. |
| ExternSort.FlatTake | utils/extern_sort.cpp:180-197 | Taking the first record of one run takes just it out of the whole. |
| Md5Words.MixBlock | utils/md5.cpp:134-218 | The 64 unrolled steps equal the table-driven four rounds of section 3.4 of RFC 1321, for every state and block. |
| Md5Words.FourOperations | utils/md5.cpp:139-210 | Four unrolled steps, with the registers permuted in the argument lists, are four operations of the table. |
| Md5Words.Round | utils/md5.cpp:139-210 | Each of the four rounds equals its sixteen table operations. |
| Md5Words.AuxiliaryBits | utils/md5.cpp:33-48 | Section 3.4 of RFC 1321 for each bit of all words: F takes y where x is set and else z, G takes x where z is set and else y, H is the parity, I is y changed where x is set or z is not. |
| Md5Words.RotateBits | utils/md5.cpp:50-53 | Bit k of a word rotated by n is its bit k - n modulo 32. |
| Md5.ByteBits | utils/md5.cpp:121-129 | Bit j of byte k of a word is its bit 8k + j. |
| Md5.InitialBytes | utils/md5.cpp:93-105 | The initial registers are the bytes 01 23 45 67 89 ab cd ef fe dc ba 98 76 54 32 10. |
| Md5.PaddedShape | utils/md5.cpp:271-303 | The padding is one 1 bit and zeros up to 448 bits modulo 512, then the number of bits modulo 2^64, low-order word first. |
| Md5Vector.AbcDigest | utils/md5.cpp:84-303 | The digest of "abc" is 900150983cd24fb0d6963f7d28e17f72, as section A.5 of RFC 1321 prints it. |
| Md5.WordsInverse | utils/md5.cpp:110-129 | decode inverts encode on words. |
| Md5.BytesInverse | utils/md5.cpp:110-129 | encode inverts decode on every whole number of words. |
| Md5.Decode | utils/md5.cpp:110-115 | The loop of decode computes the little-endian words. |
| Md5.Encode | utils/md5.cpp:121-129 | The loop of encode computes the little-endian bytes. |
| Md5.MD5.Transform | utils/md5.cpp:134-218 | Mixes one block into the state. |
| Md5.MD5.Count | utils/md5.cpp:229-232 | The carry found by comparing is right: counters that hold the number of bits of n bytes modulo 2^64 then hold that of n + length bytes. |
| Md5.CountAdd | utils/md5.cpp:229-232 | Adding to the low word, carrying, and adding the high part gives the two words of the new number of bits modulo 2^64. |
| Md5.MD5.Blocks | utils/md5.cpp:240-252 | Mixes in each block that buffered and new bytes complete, and says where the rest starts. |
| Md5.MD5.Update | utils/md5.cpp:224-257 | For every state and every input short enough for the 32-bit index: the state again is what all bytes fed so far, as one text, give; the buffer holds the rest and the counters the bits modulo 2^64. So only the concatenation of the inputs matters. |
| Md5.MD5.Finalize | utils/md5.cpp:271-303 | The digest is that of the padded message of sections 3.1 and 3.2 of RFC 1321 over all bytes fed; a second call changes nothing. |
| Md5.MD5.FromText | utils/md5.cpp:84-90 | The digest of a text given at once is the same function of the text. |
| Md5.AbsorbAppend | utils/md5.cpp:224-257 | Whole blocks may be mixed in before anything that follows. |
| Md5.CountIndex | utils/md5.cpp:227 | The index computed from the low counter word is the number of bytes modulo 64, also after the counter wrapped. |
| NetClient.Connection.OnRecv | net/net_client.cc:240-293 | For every result of recv: closes exactly on end of stream or a hard error; the buffer and the frames cut off are those the sequence of reads gives (`Left`, `CutBy`); at most one frame is cut off, and it is queued if the queue has room. |
| NetClient.Connection.CutOff | net/net_client.cc:272-284 | Pushes the first n bytes and moves the rest to the front of the buffer. |
| NetClient.CutByCuts | net/net_client.cc:240-293 | After any sequence of reads, what was read is the frames cut off followed by what is left in the buffer. |
| NetClient.AllCut | net/net_client.cc:250-283 | Every complete frame read has been cut off if and only if no last reads, however many, completed more frames than there were reads; else a complete frame waits in the buffer. |
| NetClient.FrameLength | net/net_check.cc:12-33 | A buffer that starts with n in network byte order is complete with exactly n bytes once it holds so many, incomplete before, and an error if n is above 33554432. |
| NetClient.FramesOfStream | net/net_client.cc:240-293 | A stream of frames built from lengths and bodies, the last one perhaps unfinished, is cut into those frames. |
| NetClient.StreamCut | net/net_client.cc:240-293 | However such a stream is split into reads, the frames cut off are the first ones sent, and all of them if and only if no last reads completed more frames than there were reads. |
| NetClient.OneByOne | net/net_client.cc:240-293 | Frames read one at a time are all cut off. |
| NetClient.CompleteStable | net/net_check.cc:12-33 | More input never moves a frame boundary. |
| NetClient.CutsFrames | net/net_client.cc:240-293 | The frames cut off so far, followed by those of the rest, are the frame parse of the whole stream. |
| NetClient.PrefixComparable | net/net_client.cc:240-293 | However one stream is split into reads, of two runs one has cut off a prefix of what the other has. |
| XmlEntities.EncodeStep | tinyxml/tinyxml.cpp:52-133 | At any place where no `&#x` starts, the bytes 0x26, 0x3c, 0x3e, 0x22 and 0x27 are written as the predefined entities of section 4.6 of XML 1.0, other bytes below 0x20 as `&#x` with two digits, and all others as they are (`Written`, with the bytes written out). |
| XmlEntities.EncodePlain | tinyxml/tinyxml.cpp:52-133 | A text without `&#x` is written byte by byte that way. |
| XmlEntities.EncodeReference | tinyxml/tinyxml.cpp:59-82 | A hexadecimal reference is copied up to its semicolon, or up to the last byte of the text. |
| XmlEntities.PredefinedRead | tinyxml/tinyxmlparser.cpp:514-524 | Each of the five byte sequences, at any position of any buffer, reads as its character. |
| XmlEntities.UnknownRead | tinyxml/tinyxmlparser.cpp:514-530 | Any other ampersand that starts no numeric reference is dropped. |
| XmlEntities.NumericRead | tinyxml/tinyxmlparser.cpp:444-510 | A numeric reference with its digits as bytes 0x30 to 0x39, 0x41 to 0x46 and 0x61 to 0x66 reads as the character of the number they spell. |
| XmlEntities.BadDigitRead | tinyxml/tinyxmlparser.cpp:464-499 | With a byte that is no digit before its semicolon a numeric reference cannot be read. |
| XmlEntities.OpenNumberRead | tinyxml/tinyxmlparser.cpp:453-489 | Without a semicolon a numeric reference cannot be read. |
| XmlText.Utf8Layout | tinyxml/tinyxmlparser.cpp:66-126 | For every code point up to 0x10FFFF: the lead byte tells the length, the tail bytes are in range, and the bytes spell the code point in the layout of section 3 of RFC 3629. |
| XmlText.SplitJoin | tinyxml/tinyxmlparser.cpp:66-126 | Splitting any concatenation of encoded code points at lead bytes recovers the code points. |
| XmlText.ConvertUtf32ToUtf8 | tinyxml/tinyxmlparser.cpp:88-126 | Writing from the last byte to the first gives those bytes and touches no others. |
| XmlText.EncodeString | tinyxml/tinyxml.cpp:52-133 | The outer loop with its pass-through loop computes the specified text. |
| XmlText.GetEntity | tinyxml/tinyxmlparser.cpp:438-531 | The backward digit loop and the search of the named entities compute the specified character and position. |
| XmlText.DigitsBack | tinyxml/tinyxmlparser.cpp:464-499 | The loop from the last digit back to the mark, with 32-bit weights, adds up the number the digits spell, if it fits 32 bits; leading zeros do no harm. |
| XmlText.ReferenceRead | tinyxml/tinyxmlparser.cpp:444-510 | A decimal or hexadecimal reference of any number of digits that spell a number below 2^32 reads as that number: as its UTF-8 bytes (`Utf8Layout`), or its lowest byte in a one-byte encoding. |
| XmlText.GetChar | tinyxml/tinyxml.h:327-361 | One character with its length, copied up to NUL, entities resolved. |
| XmlText.StringEqual | tinyxml/tinyxmlparser.cpp:534-572 | The comparison loop decides whether the tag stands at the position. |
| XmlText.ReadText | tinyxml/tinyxmlparser.cpp:574-637 | The loop that keeps white space computes the specified text and end. |
| XmlText.ByteRead | tinyxml/tinyxml.h:327-361 | Each single-byte character comes back from what EncodeString writes for it, also as a numeric reference. |
| XmlRoundTrip.UnitRead | tinyxml/tinyxml.h:327-361 | Each whole character that starts no reference comes back from what EncodeString writes for it. |
| XmlRoundTrip.OpenRead | tinyxml/tinyxml.cpp:59-82 | A reference without semicolon, whose last byte is escaped, reads back as one byte, or fails, or runs on behind the quote. |
| XmlRoundTrip.ClosedRead | tinyxml/tinyxml.cpp:59-82 | A reference with its semicolon reads back as fewer bytes than it has. |
| XmlRoundTrip.RoundTrip | tinyxml/tinyxml.cpp:52-133 | For every text of whole characters without NUL: reading what EncodeString wrote, with a quote and more behind it, gives the text and stops behind the quote if and only if the text contains no `&#x`. |
| XmlRoundTrip.RoundTripUtf8 | tinyxml/tinyxml.cpp:52-133 | The same for every sequence of code points in UTF-8. |
| XmlRoundTrip.RoundTripBytes | tinyxml/tinyxml.cpp:52-133 | The same for every text without NUL in a one-byte encoding. |
| XmlNewlines.NormalizeNewlines | tinyxml/tinyxml.cpp:1052-1075 | The two-pointer loop leaves the normal form of the bytes before the first NUL, NUL-terminated; its three assertions hold at every step; bytes behind the new end are untouched. |
| XmlNewlines.NormalIsTwoPasses | tinyxml/tinyxml.cpp:1052-1075 | One pass equals replacing every CR LF, then every CR, by LF (section 2.11 of XML 1.0). |
| XmlNewlines.NormalStep | tinyxml/tinyxml.cpp:1052-1075 | Byte by byte: 13 10, and 13 alone, become 10, and all else stays. |
| XmlNewlines.FixedIffNoCr | tinyxml/tinyxml.cpp:1052-1075 | A text is left alone if and only if it has no CR. |
| XmlNewlines.NormalClean | tinyxml/tinyxml.cpp:1052-1075 | The result has neither CR nor NUL, and a second pass changes nothing. |
| XmlAttributes.AttributeSet.constructor | tinyxml/tinyxml.cpp:1500-1504 | The sentinel alone is a valid ring without attributes. |
| XmlAttributes.AttributeSet.Add | tinyxml/tinyxml.cpp:1514-1526 | The attribute is appended; the links again form one ring through the sentinel. |
| XmlAttributes.AttributeSet.Remove | tinyxml/tinyxml.cpp:1529-1545 | Exactly that attribute leaves the ring and is unlinked; its assertion is not reached for an attribute of the set. |
| XmlAttributes.AttributeSet.Find | tinyxml/tinyxml.cpp:1549-1579 | The first attribute of the name, or null when there is none. |
| XmlAttributes.AttributeSet.FindOrCreate | tinyxml/tinyxml.cpp:1559-1592 | The attribute of the name, or a new last one; needs the empty name free, because a new attribute is added before it is named. |
| XmlAttributes.AttributeSet.SetAttribute | tinyxml/tinyxml.cpp:780-797 | Changes the value of the name in place, or appends the pair. |
| XmlAttributes.AttributeSet.Next | tinyxml/tinyxml.cpp:1170-1177 | The attribute behind, or null at the end or before a blank attribute, which is taken for the sentinel. |
| XmlAttributes.AttributeSet.CopyFrom | tinyxml/tinyxml.cpp:858-866 | The copy loop sets exactly the attributes the iteration sees, one after the other, and leaves the source alone. |
| XmlAttributes.UpdatedThere | tinyxml/tinyxml.cpp:780-797 | Setting a name that is there gives exactly its first pair the new value. |
| XmlAttributes.UpdatedNew | tinyxml/tinyxml.cpp:780-797 | A new name comes last. |
| XmlAttributes.VisibleAll | tinyxml/tinyxml.cpp:1170-1177 | The iteration sees all attributes if and only if none behind the first is blank. |
| XmlAttributes.CopyUnique | tinyxml/tinyxml.cpp:858-866 | Attributes with different names are copied in order. |
| XmlAttributes.CopyAllowed | tinyxml/tinyxml.cpp:1514-1516 | The assertion of Add holds throughout a copy if and only if no name but the last is empty. |
| XmlTree.Node.LinkEndChild | tinyxml/tinyxml.cpp:186-211 | A node that is on no list becomes the last child and all child lists stay in order; its tree then is the last subtree here if and only if this node was not below it. A document is deleted with all below it, this node included. |
| XmlTree.Node.InsertBeforeChild | tinyxml/tinyxml.cpp:230-260 | A deep copy comes in before the given child; null, and nothing changed, for a node that is no child here or a document to add. |
| XmlTree.Node.InsertAfterChild | tinyxml/tinyxml.cpp:263-293 | The same behind the given child. |
| XmlTree.Node.ReplaceChild | tinyxml/tinyxml.cpp:296-332 | A deep copy takes the child's place, and the child and all below it are gone; the tree here is the old one with that subtree updated. |
| XmlTree.Node.RemoveChild | tinyxml/tinyxml.cpp:335-360 | The child and all below it are gone; the tree here is the old one without that subtree. |
| XmlTree.Node.Clone | tinyxml/tinyxml.cpp:889-897 | All nodes of the copy are new, its lists are in order, it has no parent, and it holds the copied tree. |
| XmlTree.Node.LinkCopy | tinyxml/tinyxml.cpp:868-872 | Each round of the copy loop adds the copy of one more child and keeps the earlier ones. |
| XmlTree.Node.Forward | tinyxml/tinyxml.h:522-523 | FirstChild and NextSibling run through the children in order. |
| XmlTree.Node.Backward | tinyxml/tinyxml.h:531-532 | LastChild and PreviousSibling run through them in the reverse order. |
| XmlTree.InsertOk | tinyxml/tinyxml.cpp:230-293 | Linking in a node makes it child k, keeps all other lists, and every node with a parent is on its list. |
| XmlTree.RemoveOk | tinyxml/tinyxml.cpp:335-360 | Unlinking a child leaves every other node on its list. |
| XmlTree.EndWritten | tinyxml/tinyxml.cpp:198-209 | The field writes of LinkEndChild, in their order, amount to an insertion at the end. |
| XmlTree.BeforeWritten | tinyxml/tinyxml.cpp:244-258 | Those of InsertBeforeChild to an insertion before the child. |
| XmlTree.AfterWritten | tinyxml/tinyxml.cpp:277-291 | Those of InsertAfterChild to an insertion behind it. |
| XmlTree.RemoveWritten | tinyxml/tinyxml.cpp:347-356 | Those of RemoveChild to a removal. |
| XmlTree.ReplaceWritten | tinyxml/tinyxml.cpp:316-329 | Those of ReplaceChild to a removal and an insertion at the same place. |
| XmlTree.DropOk | tinyxml/tinyxml.cpp:147-158 | Deleting a tree that is on no list leaves a forest. |
| XmlTree.SiblingsApart | tinyxml/tinyxml.cpp:186-211 | The trees of two children share no node. |
| XmlTree.GraftedTree | tinyxml/tinyxml.cpp:230-293 | An insertion gives the tree its new subtree and keeps the others. |
| XmlTree.PrunedTree | tinyxml/tinyxml.cpp:335-360 | A removal keeps the other subtrees. |
| XmlTree.CopiedExact | tinyxml/tinyxml.cpp:853-897 | A copy equals its original if and only if no attribute behind an element's first is blank and only elements and documents have children. |
| XmlTree.CopiedParts | tinyxml/tinyxml.cpp:853-897 | What a copy keeps of any node: value, user data and position, all data of its kind, the attributes the copy loop sets, and copies of all children of elements and documents only. |
| XmlTree.LinkTwice | tinyxml/tinyxml.cpp:188 | The assertions of LinkEndChild let an existing child through; linked again, the list is broken: no sequence of nodes matches what is then in memory. |
| XmlTree.LinkedTree | tinyxml/tinyxml.cpp:198-210 | A node linked as last child brings its tree along if and only if the new parent is not below it; if it is, there is no finite tree at the parent. |
| XmlTree.LinkExact | tinyxml/tinyxml.cpp:186-211 | For every node the assertions let through that is no document: what is then in memory at the parent is a child list and a tree if and only if the node was no child there yet and the parent is not below it. |
| XmlTree.DocumentGone | tinyxml/tinyxml.cpp:188-197 | The assertions let a document through only to a node below it; deleting the document deletes that node. |

## Left out

- ShmCache.Cache.Init: attaching to a segment another process left behind, and segment and semaphore creation, are system calls; the arrays start fresh. The products of block count, block index and block size are unbounded, where the program computes them in 32 bits.
- ShmCache.Cache.GetStat: the totals are unbounded where the program adds up 32-bit numbers, and the hit and request counters, which are never initialised, are left out.
- ShmCache.Cache.Get: the bytes are returned; that the caller's buffer must be large enough is not checked, as the program does not check it either.
- NetQueue.Queue.EnQueue: a length of 2^32 - 4 or more, for which the total wraps, is excluded by the buffer limit of 2^31 bytes, above which the index arithmetic wraps as well.
- NetQueue.Queue.constructor: the pipe and the mutexes are left out; a buffer above 2^31 bytes, for which the 32-bit index arithmetic wraps, is excluded, here and in the runs of `NetQueueSteps`.
- NetQueue.Queue.Push: the mutex and its failure code and the byte written to the pipe are left out.
- NetQueue.Queue.Pop: the mutex and its failure code are left out.
- NetQueueSteps.Linearizable: steps are sequentially consistent; the memory model of C++ is not modelled.
- Json.Parse: texts go up to their first NUL as C strings do; the conversion of real numbers, integers that do not fit 32 bits, and object fields of a parser object are left out. After a string without its end the index is one behind the NUL, and the loops then read outside the text; the model throws instead.
- Json.ToString: the form without quotes is left out, and a real number stands for its own text, because the digits come from the C library.
- JsonRoundTrip.RoundTrip: real numbers and strings with NUL are outside `Printable`; printing without quotes is left out.
- ExternSort.CBaseExternSort.Sort: files are sequences, the library sort is any sort by rank, ranks are real numbers without NaN, and deleting the temporary files is left out; the empty input reads the first element of an empty vector and is not modelled.
- ExternSort.CBaseExternSort.WriteFile: failures of opening and writing a file are left out, but for the empty text, whose write counts as failed.
- ExternSort.CBaseExternSort.MergeSort: failures of opening a run file and the removal of the files are left out.
- Md5.MD5.Update: an input of 2^32 - 64 bytes or more, for which the index of the block loop wraps, is excluded.
- Md5.MD5.Finalize: the hexadecimal form of the digest and the clearing of buffer and counters afterwards are left out; the sine table is taken over as constants.
- NetClient.Connection.OnRecv: the long-connection protocol with a receive queue only; the HTTP length check, statistics, epoll and sockets are left out, and the copy over an overlapping range is a move.
- XmlText.ReadText: reading with white space trimmed or condensed and case-insensitive end tags are left out; a truncated multi-byte character at the very end, for which the program reads behind the NUL, reads as zeros.
- XmlText.StringEqual: the comparison that ignores case is left out.
- XmlTree.Node.Clone: attributes are a sequence of pairs in the node, copied by the function `XmlAttributes.AttributeSet.CopyFrom` is proved against; strings are free of NUL, as copying goes through C strings.
- XmlTree.Node.LinkEndChild: the method is stated for a node that is neither this one nor a child here already, which the program does not check; `LinkExact` covers both on the writes the method makes.
- XmlTree.Node.InsertBeforeChild: that the document above reports an error when a document is to be inserted is left out, here and in InsertAfterChild and ReplaceChild.
- XmlTree.Node.RemoveChild: freeing memory is modelled as leaving the set of live nodes; for a node that is no child here the program fails `assert( 0 )` at line 343, and the model returns false, as the program does with assertions off.
- XmlAttributes.AttributeSet.Remove: called for an attribute that is not in the set, the program fails an assertion; this call is excluded.
- The TinyXML document grammar, error locations, streaming, visitors, handles and printing.
- Sockets, epoll, curl, shared-memory and file calls, logging, SHA-1, INI files, URLs, dates, HTTP messages, thread wrappers: foreign calls or simpler members.
