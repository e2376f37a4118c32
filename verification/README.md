# Verified model of the toolbox

Dafny models of nine parts of the C toolbox, with proofs of what those parts are for.  `dafny verify dfyconfig.toml`
checks everything.

- **Concurrent table** (`TabBase`, `TabSteps`, `TabHistory`, `TabIds`, `TabRuns`, `TabXxx`, `TabHalf`, `TabWraps`).
  Entries in three lists (all, by id, by key) with reference counts.  `TabSteps` is a machine for any number of threads
  in which a step is one lock-protected region; the add/del lock and the hash-line locks are explicit, because a lookup
  takes its reference under the line lock.  `TabHistory` and `TabIds` read its runs as histories of maps from keys and
  from ids to entries.  `TabXxx` is the table as one thread calls it: an object whose states are states of that machine
  and whose calls are runs of it (`TabRuns`).  `TabHalf` and `TabWraps` drive the machine into the states that
  the departures below name.
- **Producer-consumer ring** (`PcQueue`).  A machine in which every read or write of a shared field is a step, refined
  to a bounded FIFO, and the two calls on an array of slots.
- **Rendezvous server** (`P2pSpec`, `P2pServer`).  The table of requests as a bounded list in refresh order, with
  theorems over whole histories, and the server with its pool, list, hash lines and counter proved against it.
- **Audio modem** (`ModemByte`, `ModemFile`, `ModemCut`).  Framing and the receiver's windows sample by sample, and the
  transfer of a whole file, also to a capture that ends too early.  The tone detector is ideal: it answers the gain of
  the line times the square of the number of samples of its tone.  The results hold for every gain with which a full
  check of preamble is heard.
- **Checksums** (`Checksum`, `Packet`, `Packet6`, `PacketChange`, `Packet6Change`, `Frame`, `FrameCases`,
  `FrameSums`).  One's complement sums, the in-place updates and tests on frames, and what the tests find.  `FrameSums`
  says what the updates do to a frame in the numbers of the standards.  A stored checksum is the number its two bytes
  have in network order.
- **IPv6 text** (`Ipv6Text`).  Printer and parser against the meaning RFC 4291 gives to groups, "::" and a dotted end.
  What `inet_addr` makes of a text is a parameter.
- **Cooperative scheduler** (`Sched`, `SchedSteps`).  Tasks are finite programs of actions, yields and task creations;
  saving and restoring a task's registers is keeping the rest of its program in its slot.
- **Configuration file** (`ConfigText`, `ConfigLines`, `ConfigFile`, `ConfigUpdates`).  Tokeniser, parser, writer, and
  updates through the backup.
- **Lists and buffer pool** (`List`, `BufferPool`).  The pointers of circular lists, and the pool on top of them.

`Common` holds what several of them share.

Where the code departs from its own documentation or intent, the model follows the code:

- `gen_id` hands out id 0 after a wrap, although the smallest id is defined as 1: the test that should prevent it
  compares a 16-bit number with 65535 (`TabRuns.IdZeroIffWrapped`, `TabWraps.IdZeroHappens`).  With all ids taken it does
  not return (`TabRuns.AddEndsIff`, `TabWraps.FullTableSpins`).
- An entry with 2^32 - 2 handles makes the reference count wrap (`TabSteps.CountWraps`, `TabWraps.WrapHappens`); the
  results about threads assume fewer.
- Lookups do not take the add/del lock.  While the lock holder is between linking (or unlinking) an entry by id and by
  key, and only then, one kind of lookup finds the entry and the other does not (`TabSteps.HalfLinkedIff`,
  `TabHalf.HalfLinkedHappens`, `TabHalf.HalfUnlinkedHappens`).
- A rendezvous can fail although both sides ask in time: B's own request may push A's out of a full table
  (`P2pSpec.CrowdedOut`).  A user who asks for himself is connected to himself (`P2pSpec.AnswerIff`).
- A file of 2^32 bytes or more is sent whole, but received up to the 32-bit size only (`ModemFile.FileArrivesIff`).
- A byte 0xAA right before the sync word makes the receiver miss it (`ModemFile.SyncIs`).
- A checksum field of 0xFFFF is rejected where the sum alone would accept it (`Checksum.TestAgainstSum`,
  `Checksum.OnesAreRejected`), and a UDP checksum that comes out as 0 is stored as 0, which receivers take for "no
  checksum" (`Packet.UdpZeroIff4`, `FrameCases.UdpZeroHappens`).
- An IPv4 header that claims fewer than five words is taken as it is.  The data's checksum may then be stored over the
  header's, an address or the length (`Packet.UpdatePassesIff4`, `Frame.LengthsStand`, with frames in `FrameCases`).
- A configuration line can become one character too long for the reader by being written (`ConfigText.OneTooLong`), and
  a failed update can forget a pending one (`ConfigFile.FailedSetRestoresIff`, `ConfigFile.PendingIsLost`).
- `schedule` called from the last slot starts its scan outside the array; nothing is said of the run from there on
  (`Sched.EveryRunCompletes`, `Sched.EndsInMainIff`, `Sched.SpawnedTenthIff`).
- A dotted text without a colon has no place for its groups to go, so one is required.
- `create_pc_que(0)` would make a ring without slots, so at least one is required.
- `buffer_num_free` is never initialised; it is taken to start at 0.
- `alloc_buffer` reads the first free node before it takes the lock; reading and unlinking are taken as one step.

## Model

| member | source | states |
|---|---|---|
| TabSteps.StepKeepsInv | apps/tab_example/tab_xxx.c:262-380 | Every step of every thread in add, del, get by key, get by id or put keeps the whole invariant: list contents adjusted to the program point of the add/del lock holder, unique ids and keys, line locks of lookups in flight, exact reference counts |
| TabSteps.RunInv | apps/tab_example/tab_xxx.c:216-380 | The invariant holds after every interleaving of any number of threads, from `tab_xxx_init` on |
| TabSteps.RefCountIsExact | apps/tab_example/tab_xxx.c:262-279 | In every reachable state the count of an entry is 1 while the table owns it, plus the handles that are out |
| TabSteps.UsedIsNeverFree | apps/tab_example/tab_xxx.c:312-380 | An entry that a list reaches, a handle refers to or a thread is about to touch is never in the free pool |
| TabSteps.FreedOnceByOne | apps/tab_example/tab_xxx.c:347-356 | The thread that sees the count reach 0 is alone with the buffer: no list, no handle and no other thread has it, so it is freed once |
| TabSteps.IndicesAgree | apps/tab_example/tab_xxx.c:145-214 | At every moment, in the middle of adds and deletes too, an entry is in the same of the three indices, except exactly for the one that the add/del lock holder is linking or unlinking; each is in its own line, ids and keys are unique, and the counter is the number of entries, off by one only while it is being changed |
| TabSteps.SearchIsLookup | apps/tab_example/tab_xxx.c:56-143 | At every moment a bucket search, by key or by id, answers exactly as a search of that whole index would |
| TabSteps.HalfLinkedIff | apps/tab_example/tab_xxx.c:145-214 | An entry is found by id and not by key exactly while its add is between the two linking steps, and by key and not by id exactly while its delete is between the two unlinking steps; in the first case nothing has its key |
| TabHalf.HalfLinkedHappens | apps/tab_example/tab_xxx.c:281-344 | A schedule of two threads from `tab_xxx_init` after which the second finds the new entry by its id and nothing by its key |
| TabHalf.HalfUnlinkedHappens | apps/tab_example/tab_xxx.c:281-380 | And one into the middle of a delete, after which the second finds the entry by its key and nothing by its id |
| TabSteps.NoLeak | apps/tab_example/tab_xxx.c:281-380 | With no call under way and no handle out, every buffer is either free or in the table |
| TabSteps.NoDeadlock | apps/tab_example/tab_xxx.c:281-344 | A thread inside a call can go on, or else a lookup that holds a line lock can |
| TabSteps.CountWraps | apps/tab_example/tab_xxx.c:262-268 | Why the other results ask for fewer than 2^32 - 2 handles on an entry: taking a reference, in a lookup by key or by id, keeps the invariant exactly below that number, and at it makes the 32-bit count 0 while the table still holds the entry |
| TabHistory.KeyCallsLinearize | apps/tab_example/tab_xxx.c:281-380 | Adds, deletes and lookups by key are linearizable: in every interleaving each thread is answered between call and return, and all answers in the order of the answering steps are those of one map used by one caller at a time, which is the map lookups see at the end |
| TabHistory.FindKeyIsLookup | apps/tab_example/tab_xxx.c:112-143 | At every moment a search of one key line is a lookup in the map that the table stands for, whatever the hash function does |
| TabHistory.MoveAnswers | apps/tab_example/tab_xxx.c:262-380 | Each step gives only answers that are correct for the map before it, and changes the map only with the answer of an add or a delete |
| TabIds.IdLookupsLinearize | apps/tab_example/tab_xxx.c:281-380 | In every interleaving the lookups by id, each at its one step under the line lock, answer as one map from ids to entries does; adds extend that map by unused ids only and deletes take out what is in it, each at one step of the call, and at the end it is the map lookups see |
| TabIds.FindIdIsLookup | apps/tab_example/tab_xxx.c:56-85 | At every moment a search of one id line is a lookup in that map |
| TabIds.SearchEnds | apps/tab_example/tab_xxx.c:87-110 | Under any interleaving, with fewer than 65536 entries, a search for an id comes out after exactly as many steps of its own as there are ids to try, at most 65536, with the first id from the counter on that was not in use when it began |
| TabRuns.IdZeroIffWrapped | apps/tab_example/tab_xxx.c:87-110 | Id 0 is handed out exactly when it is unused and every id from the counter up to 65535 is taken; the test against 65535 does not prevent it |
| TabWraps.IdZeroHappens | apps/tab_example/tab_xxx.c:90-110 | From `tab_xxx_init`, in a table of any size, 65535 rounds of adding and deleting an entry are a run after which the next add returns id 0 |
| TabWraps.IdAfterRounds | apps/tab_example/tab_xxx.c:90-110 | After n such rounds the next add returns 1 + n in 16 bits |
| TabWraps.WrapHappens | apps/tab_example/tab_xxx.c:262-344 | From `tab_xxx_init`, one add and 2^32 - 2 lookups, by key or by id, are a run after which one lookup more leaves the entry in the table with a count of 0 |
| TabWraps.FullTableSpins | apps/tab_example/tab_xxx.c:90-110 | From `tab_xxx_init`, in a table for more than 65536 entries, 65536 adds are a run after which the next add of a new key never returns |
| TabRuns.FreeIdIffRoom | apps/tab_example/tab_xxx.c:90-110 | An unused id exists exactly if fewer than 65536 entries are in the table |
| TabRuns.AddEndsIff | apps/tab_example/tab_xxx.c:90-110 | A call of add returns exactly if its key is known, the pool is empty or an id is unused; otherwise its search for an id goes round for ever |
| TabRuns.AddRuns | apps/tab_example/tab_xxx.c:281-310 | A whole add by one thread, from its first step to its return, is a run of the interleaved machine with the effect the specification gives |
| TabRuns.DelRuns | apps/tab_example/tab_xxx.c:358-380 | The same for a delete |
| TabRuns.GetByKeyRuns | apps/tab_example/tab_xxx.c:312-327 | The same for a lookup by key |
| TabRuns.GetByIdRuns | apps/tab_example/tab_xxx.c:329-344 | The same for a lookup by id |
| TabRuns.PutRuns | apps/tab_example/tab_xxx.c:347-356 | The same for a put |
| TabXxx.FindIdIsLookup | apps/tab_example/tab_xxx.c:56-85 | Between calls a search of one id line finds an entry exactly if the id is in use, and the right one |
| TabXxx.AddMeans | apps/tab_example/tab_xxx.c:281-310 | An add fails with EEXIST exactly on a known key, with ENOMEM exactly on a new key and an empty pool; otherwise the map from keys gains the first free buffer under the key, the map from ids the same buffer under an id not in use before, and the buffer holds id, key and data; no handle changes |
| TabXxx.DelMeans | apps/tab_example/tab_xxx.c:358-380 | A delete fails with ESRCH exactly on an unknown key and otherwise takes the entry out of both maps, under its key and under its id, and changes nothing else in them |
| TabXxx.GetByKeyMeans | apps/tab_example/tab_xxx.c:312-327 | A lookup by key returns exactly what the map from keys has under the key, changes neither map, and gives the caller one handle, on the entry returned |
| TabXxx.GetByIdMeans | apps/tab_example/tab_xxx.c:329-344 | A lookup by id returns exactly what the map from ids has under the id, with the same effect |
| TabXxx.PutMeans | apps/tab_example/tab_xxx.c:347-356 | A put takes back one handle on the buffer and changes neither map |
| TabXxx.DelKeepsHandlesAlive | apps/tab_example/tab_xxx.c:374-375 | After a delete the count is the number of handles, and the buffer is free exactly if there is none |
| TabXxx.LastPutFrees | apps/tab_example/tab_xxx.c:347-356 | A put frees the buffer exactly if it was the last handle of an entry that the table no longer holds |
| TabXxx.KeyMapSize | apps/tab_example/tab_xxx.c:383-392 | The entry counter is the number of keys in the map |
| TabXxx.Table.SearchEntryByKey | apps/tab_example/tab_xxx.c:112-143 | The loop over a key line finds the first entry with the three parts of the key |
| TabXxx.Table.GenId | apps/tab_example/tab_xxx.c:90-110 | The loop ends, by the distance to the next unused id, and returns the first unused id at or after the counter, going round through 0 |
| TabXxx.Table.AddEntry | apps/tab_example/tab_xxx.c:281-310 | The result and both maps afterwards, told by those before, and the whole new state; the call is also a run of the interleaved machine |
| TabXxx.Table.GetEntryByKey | apps/tab_example/tab_xxx.c:312-327 | Returns what the map from keys had under the key, None exactly if nothing; the handles grow by just what is returned, and the entries stay |
| TabXxx.Table.GetEntryById | apps/tab_example/tab_xxx.c:329-344 | The same with the map from ids |
| TabXxx.Table.PutEntry | apps/tab_example/tab_xxx.c:347-356 | One handle less, the entries as before, and the buffer back in the pool exactly if that was the last handle of an entry the table no longer holds |
| TabXxx.Table.DelEntryByKey | apps/tab_example/tab_xxx.c:358-380 | The result and both maps afterwards, told by those before, and the whole new state |
| TabXxx.Table.EntryNum | apps/tab_example/tab_xxx.c:383-392 | The number reported is the number of keys in the table |
| PcQueue.RingRefinesFifo | libs/app_utils/src/pc_queue.c:33-78 | Every interleaving of the producer's and the consumer's single field accesses is a history of a FIFO bounded by the number of slots, in which a dequeue hands back the data and exactly those parameters that it asked for |
| PcQueue.DeliveredIsPrefixOfEnqueued | libs/app_utils/src/pc_queue.c:40-46 | The n-th dequeue that finds something hands back, of the item of the n-th enqueue that is let in, the data and exactly the parameters that this dequeue asked for: nothing torn, lost, repeated or reordered |
| PcQueue.OffersArePublished | libs/app_utils/src/pc_queue.c:57-78 | What calls of enqueue that are let in have offered is published in this order, but for the one under way |
| PcQueue.RequestsAreMet | libs/app_utils/src/pc_queue.c:33-55 | Each call of dequeue that finds something is met with what it asked for, in order, but for the one under way |
| PcQueue.RefusalAndMissAreExact | libs/app_utils/src/pc_queue.c:37-62 | After any interleaving an enqueue is refused exactly if all slots hold undelivered items, and a dequeue finds nothing exactly if none does |
| PcQueue.FifoHistory | libs/app_utils/src/pc_queue.c:33-78 | What a history of the bounded FIFO says about the data |
| PcQueue.SoloEnqueue | libs/app_utils/src/pc_queue.c:64-76 | An undisturbed enqueue is six steps that together publish the item in the next slot |
| PcQueue.SoloDequeue | libs/app_utils/src/pc_queue.c:40-50 | An undisturbed dequeue is six steps that together take the oldest item and hand back its data and what was asked for |
| PcQueue.Ring.EnqTry | libs/app_utils/src/pc_queue.c:57-78 | The call on the array of slots: 1 and no change exactly if the ring is full, else the item is appended |
| PcQueue.Ring.OutqTry | libs/app_utils/src/pc_queue.c:33-55 | The call on the array of slots: nothing exactly if the ring is empty, else the oldest item, with the out-parameters that were asked for |
| P2pSpec.TableIsBounded | simple_apps/p2p_server.c:185-202 | After any history the table has at most 256 registrations, one per pair, and the newest request is among them |
| P2pSpec.TableTracks | simple_apps/p2p_server.c:140-149 | After any history the table holds latest requests only, in the order in which they were made |
| P2pSpec.SeenTracks | simple_apps/p2p_server.c:140-149 | The reference table without limit or dropping is exactly the latest request of every pair, in order |
| P2pSpec.TableIsRecentEnd | simple_apps/p2p_server.c:152-157 | The limit only ever cuts off the oldest: the table is the recent end of the one a server without limit would have |
| P2pSpec.TableIsLru | simple_apps/p2p_server.c:185-213 | Over any history, however long, in which no request finds the other half too old among the 256 most recently refreshed pairs, the table is exactly those pairs |
| P2pSpec.TableIsLruIff | simple_apps/p2p_server.c:185-213 | And only then: the table is those pairs after every request of a history exactly if no request finds the other half too old |
| P2pSpec.LostOnlyAsStale | simple_apps/p2p_server.c:185-213 | With fewer than 256 other pairs since, a registration is lost exactly if the other half asked too late |
| P2pSpec.AnswerIff | simple_apps/p2p_server.c:204-235 | The reply names an address exactly if the table holds the reverse pair with the same password, not older than the gap and not pushed out by this very request; one who asks for himself is given his own address |
| P2pSpec.Rendezvous | simple_apps/p2p_server.c:185-235 | When B asks for A within 60 seconds of A's latest request, and fewer than 256 pairs other than A's have asked since (B's included), B is given A's address |
| P2pSpec.CrowdedOut | simple_apps/p2p_server.c:186-192 | That bound is sharp: after 255 other pairs, none dropped as too old, B's own request pushes A out of the table, and B is told that A is offline |
| P2pServer.LastReplyIs | simple_apps/p2p_server.c:204-235 | After any requests, the reply to the next: OK with the address of the one asked for, if the table holds his registration for this sender under this password, at most 60 seconds old and not pushed out by this request; offline, with the sender's own address, if it holds none such; OK with the sender's own address to one who asks for himself |
| P2pServer.StrEqIsCStrEq | simple_apps/p2p_server.c:49-58 | Comparing two 32-byte fields compares what stands before their NULs |
| P2pServer.HashIndex | simple_apps/p2p_server.c:74-79 | The line number is in 0..255 for signed characters too, because the remainder is taken in unsigned arithmetic |
| P2pServer.EqualNamesShareLine | simple_apps/p2p_server.c:74-79 | Names that compare equal are in the same hash line, whatever follows their NUL |
| P2pServer.ReqEqualIsPair | simple_apps/p2p_server.c:49-58 | Requests are equal exactly if source and destination are, and then they are in one line |
| P2pServer.ReqMatchIsMatches | simple_apps/p2p_server.c:60-72 | A request matches another exactly if it is its reverse under the same password, and then it is in the line that is searched |
| P2pServer.CountsAgree | simple_apps/p2p_server.c:127-157 | The request counter, the length of the list, the total over the hash lines and what the pool lacks of 256 are one number |
| P2pServer.Server.FindReq | simple_apps/p2p_server.c:81-99 | The search of one line finds the request of the pair, and finds nothing exactly if the whole table has none |
| P2pServer.Server.FindMatchReq | simple_apps/p2p_server.c:101-119 | The search of one line finds the match, if the whole table has one |
| P2pServer.Server.DeleteReq | simple_apps/p2p_server.c:127-132 | The request leaves the list and its line, and the counter follows |
| P2pServer.Server.ReleaseOldestReq | simple_apps/p2p_server.c:152-157 | The first of the list goes back to the pool |
| P2pServer.Server.AddReq | simple_apps/p2p_server.c:140-149 | The request becomes the newest of the list and of the line of its source |
| P2pServer.Server.AllocBuffer | simple_apps/p2p_server.c:186-193 | With room made at 256 requests, the pool is never empty here |
| P2pServer.Server.HandleRequest | simple_apps/p2p_server.c:185-235 | One turn of the loop: the table becomes the specified one, and the reply is OK with the waiting peer's address or offline, spelled out on the table before |
| P2pServer.RunServer | simple_apps/p2p_server.c:166-239 | A server fed any sequence of requests has the specified table, and each of its replies is OK with an address or offline as the table of the requests before it says |
| P2pServer.ClientsMeet | simple_apps/p2p_server.c:204-235 | In the actual sequence of replies, the reply to B carries the address of A's latest request, under the conditions of `Rendezvous` |
| ModemByte.ModulateByte | apps/data_in_audio/modulator.c:28-47 | The loops fill the buffer with one start bit, the data bits from the lowest and ten stop bits |
| ModemByte.WaveformIs | apps/data_in_audio/modulator.c:28-47 | The 8379 samples of a byte one by one, 441 to a bit: space for the start bit and for zeros, mark for ones, lowest bit first, and for the ten stop bits |
| ModemByte.StartThreshold | apps/data_in_audio/demodulator.c:57-61 | For every line gain loud enough for the preamble, 129 of 220 samples of space are taken for a start bit and 128 are not |
| ModemByte.FullWindowHeard | apps/data_in_audio/demodulator.c:36-62 | How much gain a window full of the tone needs: a tenth of a second of preamble and half a bit of space, against the two thresholds |
| ModemByte.EdgeWindow | apps/data_in_audio/demodulator.c:55-62 | The half-bit window across the edge is taken for the start bit exactly if the edge lies at most 91 samples into it |
| ModemByte.StartIsFound | apps/data_in_audio/demodulator.c:53-66 | Wherever the windows fall, the start bit is found, between 91 samples early and 128 late |
| ModemByte.BitIsHeard | apps/data_in_audio/demodulator.c:70-77 | At every such offset each full-bit window keeps a majority of its own bit |
| ModemByte.ByteArrives | apps/data_in_audio/demodulator.c:47-81 | A framed byte is demodulated to itself, and the receiver is left waiting within the stop bits, so the error does not add up |
| ModemByte.Capture.DemodulateByte | apps/data_in_audio/demodulator.c:47-81 | The loops over the capture compute the specified byte and place, or fail when the capture ends |
| ModemFile.SizeRoundTrip | apps/data_in_audio/main.c:62-65 | The four bytes of the size, highest first, are put together to the same 32-bit number |
| ModemFile.ServerMode | apps/data_in_audio/main.c:40-81 | What is played: five seconds of preamble, the sync word, the size, the file |
| ModemFile.PlayedIs | apps/data_in_audio/main.c:40-81 | Every sample that is played: 220500 of mark, then byte by byte 0xAA, 0x55, the size in 32 bits, highest byte first, and the file |
| ModemFile.AwaitSync | apps/data_in_audio/main.c:113-119 | The search for the sync word, including its end when the capture ends |
| ModemFile.JunkIsSkipped | apps/data_in_audio/main.c:113-119 | Bytes before the sync word are skipped, any number of them, as long as none is 0xAA |
| ModemFile.SyncIs | apps/data_in_audio/main.c:113-119 | After 0xAA the next byte decides: 0x55 ends the search, any other is skipped with it, even if it is the 0xAA of the sync word |
| ModemFile.ClientMode | apps/data_in_audio/main.c:103-143 | What the client writes, as a function of the captured samples |
| ModemFile.ReceiveNumber | apps/data_in_audio/main.c:122-132 | The loop that puts the size together, or gives up when the capture ends |
| ModemFile.ReceiveData | apps/data_in_audio/main.c:136-143 | The loop that writes the data, and stops early when the capture ends |
| ModemFile.PreambleIsHeard | apps/data_in_audio/demodulator.c:36-45 | If the first check that begins in the preamble ends in it, the waiting ends inside the preamble |
| ModemFile.InTimeIs | apps/data_in_audio/demodulator.c:36-45 | In samples: the checks begin at multiples of 4410, so a capture may miss 211681 of the preamble's 220500 samples wherever its checks fall |
| ModemFile.BytesArrive | apps/data_in_audio/main.c:136-143 | Any number of consecutive frames arrive, and the receiver is left waiting for the next |
| ModemFile.FileArrives | apps/data_in_audio/main.c:56-143 | For every file, gain, leading silence or late start of the capture such that the first check beginning in the preamble ends in it, the client writes the first size mod 2^32 bytes |
| ModemFile.FileArrivesIff | apps/data_in_audio/main.c:63-65 | The client's file is the server's exactly if it has fewer than 2^32 bytes |
| ModemCut.CutIsBeginning | apps/data_in_audio/main.c:103-143 | Whatever was heard, of a capture that ends earlier the client writes a beginning of what it writes of the longer one |
| ModemCut.CutFileArrives | apps/data_in_audio/main.c:103-143 | A capture of a sent file that ends anywhere: the client writes a beginning of the file, and at least the bytes that have been captured whole |
| Checksum.FoldSum | libs/app_utils/src/net.c:201-202 | The carry loop ends with 0 for 0 and ((n - 1) mod 65535) + 1 otherwise |
| Checksum.Csum | libs/app_utils/src/net.c:181-205 | The loops compute the complement of the one's complement sum of the words, an odd byte counting as high byte, and of nothing for a negative count |
| Checksum.FoldsToOnes | libs/app_utils/src/net.c:200-204 | A sum with its field folds to 0xFFFF exactly if the field is the complement of the rest, or 0xFFFF where that complement is 0 |
| Checksum.ChecksumCompletes | libs/app_utils/src/net.c:207-221 | A region that carries its own checksum in an aligned field sums to 0xFFFF |
| Checksum.TestAgainstSum | libs/app_utils/src/net.c:223-226 | The test by recomputation and the receiver's sum agree, except that the test rejects a field of 0xFFFF where the checksum is 0 |
| Checksum.OnesAreRejected | libs/app_utils/src/net.c:223-226 | Four bytes for which they differ |
| Checksum.OneWordChanged | libs/app_utils/src/net.c:181-205 | A change of one aligned word keeps the checksum exactly if 0x0000 and 0xFFFF were exchanged and some other word is not zero |
| Checksum.OneWordPasses | libs/app_utils/src/net.c:223-226 | Of two regions that differ in one aligned word, the checksum field or another, and of which one passes the test, the other passes it exactly if 0x0000 and 0xFFFF were exchanged outside the field and some other word is not zero |
| Checksum.TwoWordsPass | libs/app_utils/src/net.c:223-226 | The same where the word is counted twice, also if one of the two is the checksum field |
| Checksum.OrderDoesNotMatter | libs/app_utils/src/net.c:189-193 | The checksum is the same for every order of the aligned words |
| Packet.PseudoSum | libs/app_utils/src/net.c:235-238 | The IPv4 pseudo-header adds both addresses, the protocol and the length of the data |
| Packet.IpCheck | libs/app_utils/src/net.c:207-215 | The header's checksum with its own field taken as zero, the buffer left as it was |
| Packet.IpChecksumWrong | libs/app_utils/src/net.c:223-226 | The test of the header's checksum |
| Packet.TcpUdpChecksum | libs/app_utils/src/net.c:228-293 | The two loops give the checksum of pseudo-header followed by segment, odd lengths included, the buffer left as it was |
| Packet.IcmpIgmpCheck | libs/app_utils/src/net.c:319-328 | The checksum of an ICMP or IGMP message, whose length is read while the field is zero, the buffer left as it was |
| Packet.DataChecksumWrong | libs/app_utils/src/net.c:307-339 | The tests of the TCP, UDP, ICMP and IGMP checksums |
| Packet.UpdateCheckSum4 | libs/app_utils/src/net.c:941-957 | The header's checksum is updated, and the data's unless the packet is a fragment |
| Packet.CheckIsStable | libs/app_utils/src/net.c:223-226 | Storing the checksum does not change what the test computes |
| Packet.CheckFolds | libs/app_utils/src/net.c:295-305 | With the field inside the stretch, the receiver's sum over pseudo-header and stretch folds to 0xFFFF |
| Packet.UpdateIsSound4 | libs/app_utils/src/net.c:941-957 | With any header length, as long as the data's checksum field is neither the header's own nor an address: after the update every test passes and the receiver's sums over header and data fold to 0xFFFF |
| Packet.UpdatePassesIff4 | libs/app_utils/src/net.c:941-957 | With any header length at all: after the update the header's test passes exactly if its field was not taken for the data's, the data's exactly if its field is not an address, but for coincidences that are given |
| Packet.UdpZeroIff4 | libs/app_utils/src/net.c:301-305 | The stored UDP checksum is 0 exactly if the words of pseudo-header and datagram, field zeroed, sum to a positive multiple of 65535 |
| Packet.UpdateChangesOnlyChecks4 | libs/app_utils/src/net.c:941-957 | No byte outside the two checksum fields changes |
| PacketChange.HeaderWordPasses | libs/app_utils/src/net.c:223-226 | Two IPv4 headers of one length that differ in one word, one of which passes the test: the other passes it exactly if 0x0000 and 0xFFFF were exchanged, and not in the checksum |
| PacketChange.DataWordPasses | libs/app_utils/src/net.c:307-339 | The same of two packets with any header length, one protocol and one total length that differ in one word of the data, if something else that is covered is not zero; the word may also be one of the header |
| PacketChange.SegmentWordPasses | libs/app_utils/src/net.c:307-317 | For TCP and UDP, where the protocol number is covered, without that condition |
| PacketChange.AddressWordPasses | libs/app_utils/src/net.c:235-238 | For TCP and UDP the same of one word of an address, whether a short header makes it data too or not; where the data ends in its middle, exactly if the word plus 256 times its high byte is the same modulo 65535 |
| Packet6.PseudoIsStandard | libs/app_utils/api/net.h:405-412 | The 36-byte pseudo-header gives the checksum of the 40-byte one of section 8.1 of RFC 8200 |
| Packet6.TcpUdpChecksum6 | libs/app_utils/src/net.c:822-902 | The two loops give the checksum of the IPv6 pseudo-header followed by the payload, the buffer left as it was |
| Packet6.DataChecksumWrong6 | libs/app_utils/src/net.c:923-939 | The tests of the TCP, UDP and ICMPv6 checksums over IPv6 |
| Packet6.UpdateIsSound6 | libs/app_utils/src/net.c:959-972 | After the update the test passes, the receiver's sum folds to 0xFFFF, and the header is as before |
| Packet6.UdpZeroIff6 | libs/app_utils/src/net.c:917-921 | The stored UDP checksum over IPv6 is 0 exactly under the corresponding condition |
| Packet6Change.WordPasses6 | libs/app_utils/src/net.c:822-939 | TCP, UDP and ICMPv6 over IPv6: two packets that differ in one word of the payload or of an address, one of which passes the test: the other passes it exactly if 0x0000 and 0xFFFF were exchanged outside the field |
| Packet6.UpdateCheckSum6 | libs/app_utils/src/net.c:959-972 | The update in the buffer; a fragment is left alone |
| Frame.UpdateLen | libs/app_utils/src/net.c:985-1012 | The length fields, with and without a VLAN tag |
| Frame.UpdateCheckSum | libs/app_utils/src/net.c:974-982 | The checksums by Ethernet type, with and without a VLAN tag |
| Frame.UpdateIsSound | libs/app_utils/src/net.c:941-982 | A checksum update leaves every checkable frame checkable, and sound if an IPv4 frame's checksum fields are apart |
| FrameCases.UdpZeroHappens | libs/app_utils/src/net.c:301-305 | A frame with a full header and correct lengths whose UDP checksum is stored as 0 |
| FrameCases.ShortHeaderFails | libs/app_utils/src/net.c:941-957 | A frame with a header of one word whose header checksum is wrong after the update |
| FrameCases.ShortAddressFails | libs/app_utils/src/net.c:941-957 | A frame with a header of two words whose data checksum, stored in an address, is wrong after the update |
| Frame.LengthsStand | libs/app_utils/src/net.c:985-1012 | After both updates the header carries the length asked for, truncated to 16 bits, and a UDP datagram the length of the data; exactly unless the checksum of an ICMP or IGMP message behind a header of no length is stored over it as 65535 |
| FrameCases.LengthIsLost | libs/app_utils/src/net.c:985-1012 | A frame, with an ICMP message behind a header of no length, for which it does not |
| Frame.OnlyFieldsChange | libs/app_utils/src/net.c:941-1012 | Both updates together change no byte outside length and checksum fields |
| Frame.PrepareFrame | libs/app_utils/src/net.c:974-1012 | Length update followed by checksum update on the buffer: sound and with the lengths asked for under the conditions above, and nothing else changed |
| FrameSums.UpdateCompletes4 | libs/app_utils/src/net.c:941-982 | TCP, UDP, ICMP and IGMP by their numbers, the checksums by their places in the headers: after the update of an IPv4 packet that is no fragment, with or without a VLAN tag, the words of the header, and those of the data behind the pseudo-header of RFC 793 where there is one, add up to 0xFFFF, and no byte but the two checksums has changed |
| FrameSums.UpdateLeavesData4 | libs/app_utils/src/net.c:941-957 | On a fragment or with another protocol the header alone is completed, and nothing else changes |
| FrameSums.PreparedIsComplete4 | libs/app_utils/src/net.c:941-1012 | After both updates the header carries the length, a UDP datagram its own, header and data add up to 0xFFFF, and nothing but lengths and checksums has changed |
| FrameSums.HeaderTestIs4 | libs/app_utils/src/net.c:223-226 | A header adds up to 0xFFFF exactly if it passes the test, or has the field 0xFFFF where the checksum is 0 |
| FrameSums.DataTestIs4 | libs/app_utils/src/net.c:307-339 | The same of TCP, UDP, ICMP and IGMP, each with its place and its pseudo-header |
| FrameSums.UpdateCompletes6 | libs/app_utils/src/net.c:959-982 | TCP, UDP and ICMPv6: after the update the payload behind the pseudo-header of section 8.1 of RFC 8200 adds up to 0xFFFF, and no byte but the checksum has changed |
| FrameSums.DataTestIs6 | libs/app_utils/src/net.c:923-939 | That sum against the tests of the three protocols |
| FrameSums.PreparedIsComplete6 | libs/app_utils/src/net.c:959-1012 | The same after both updates, with the lengths in place |
| FrameSums.UpdateLeavesOthers | libs/app_utils/src/net.c:959-982 | Other IPv6 packets, and frames of other types, are left as they are |
| Ipv6Text.PrintAddr | libs/app_utils/src/net.c:165-178 | The printing loop writes eight groups of four digits |
| Ipv6Text.PrintedAt | libs/app_utils/src/net.c:165-178 | Which character stands where: the two digits of each byte, and a colon after every second byte but the last |
| Ipv6Text.AddrNoMh | libs/app_utils/src/net.c:101-120 | Cutting the text at its colons in place and printing the pieces with a width of four gives the groups in columns, up to the first empty one |
| Ipv6Text.ReadAddr | libs/app_utils/src/net.c:122-163 | The parser on its buffers computes the specified bytes, with a dotted end or without |
| Ipv6Text.AddrUniform | libs/app_utils/src/net.c:86-99 | The dotted end of a text is overwritten in place by its IPv4 address as two groups |
| Ipv6Text.PaddedGroup | libs/app_utils/src/net.c:115-161 | A group padded with spaces to four columns reads, two characters at a time, as the two bytes of its value |
| Ipv6Text.DigitsAre | libs/app_utils/src/net.c:115-178 | The digits in either case are read as their values and printed in lower case |
| Ipv6Text.OthersAreDropped | libs/app_utils/src/net.c:62-84 | Any character that is no digit, colon or dot can be taken out of the text, wherever it stands |
| Ipv6Text.EightGroups | libs/app_utils/src/net.c:122-163 | Eight groups of one to four hexadecimal digits give the address of section 2.2 of RFC 4291, whatever other characters the text contains |
| Ipv6Text.DoubleColon | libs/app_utils/src/net.c:143-154 | At most eight groups around one "::" give the address in which it stands for the missing zero groups |
| Ipv6Text.SixAndDotted | libs/app_utils/src/net.c:86-163 | Six groups and a dotted end give their bytes followed by the IPv4 address |
| Ipv6Text.DoubleAndDotted | libs/app_utils/src/net.c:86-163 | At most six groups around one "::" with a dotted end give the zero-filled address that ends in the IPv4 address |
| Ipv6Text.PrintThenRead | libs/app_utils/src/net.c:122-178 | Reading the printed form gives back every 16-byte address |
| Sched.ScanFinds | simple_apps/sched.c:284-301 | The cyclic scan finds a sleeping slot no farther round than any given one |
| Sched.StepKeepsInv | simple_apps/sched.c:130-306 | Every step keeps: one task runs exactly while main does not, slots are used in order, each task's past and future make up its program; and one instruction less is left; only `schedule` in the last slot leaves the array |
| SchedSteps.ActIs | simple_apps/sched.c:130-315 | An action is logged for the running task, which goes on, and nothing else changes |
| SchedSteps.SpawnIs | simple_apps/sched.c:183-213 | A task created by a task is put into the first unused slot, with just the program that was given, and sleeps; the creator goes on and the other slots stay |
| SchedSteps.ExitIs | simple_apps/sched.c:130-172 | A task that ends keeps its exit code; the lowest slot that sleeps runs next, or the main thread if none does; the other slots stay |
| SchedSteps.YieldIs | simple_apps/sched.c:282-306 | `schedule` hands over to the nearest slot that sleeps, going round from the next; the caller sleeps, or goes on if no other does; from the last slot it leaves the array |
| SchedSteps.StartIs | simple_apps/sched.c:309-315 | Scheduling starts with the lowest slot that sleeps |
| Sched.BackInMainIffDone | simple_apps/sched.c:143-171 | Control is back in the main thread exactly when every created task is finished, and then with its own exit code and all its actions done in program order |
| Sched.EveryRunCompletes | simple_apps/sched.c:130-315 | Any programs that with their descendants fit the ten slots: the run ends, with all of them created, in main or at the array's edge; in main exactly if the last slot stays unused or its task never calls `schedule`, and then every task, created by main or by tasks, is completely done |
| SchedSteps.RunsTheFamily | simple_apps/sched.c:130-315 | The tasks of a whole run are those of main and everything that they and their descendants create, each exactly as often as it is created, main's first and in order |
| Sched.EndsInMainIff | simple_apps/sched.c:130-315 | Seen from the programs alone: with at most nine tasks in all, or with no task made by a task, the run ends in main exactly if there is no tenth program that calls `schedule` |
| Sched.SpawnedTenthIff | simple_apps/sched.c:282-301 | With the tenth task made by a task: the run leaves the array if everything that tasks make calls `schedule`, and ends in main if nothing of it does |
| Sched.StepWaits | simple_apps/sched.c:284-301 | While a task sleeps on, each yield or exit uses up some of a bound made of the unfinished slots and its distance |
| Sched.IsDispatched | simple_apps/sched.c:150-166 | A sleeping task is dispatched, after at most that many yields and exits, or the task in the last slot calls `schedule` before |
| Sched.PatienceBound | simple_apps/sched.c:25-25 | The bound is at most 109 for ten slots |
| Sched.Scheduler.CreateTask | simple_apps/sched.c:183-213 | The next slot gets the program and sleeps |
| Sched.Scheduler.ScheduleNext | simple_apps/sched.c:282-306 | The loop of `schedule`, on the array of slots |
| Sched.Scheduler.TaskScheduler | simple_apps/sched.c:130-172 | The end of a task and the scan from slot 0, on the array of slots |
| Sched.Scheduler.StartSched | simple_apps/sched.c:309-315 | From the start of scheduling to its return, the slots go through the specified run |
| ConfigText.LineRoundTrip | libs/app_utils/src/config_file_ops.c:288-288 | A printed line is read back to its variable if it has at most 768 characters, and is skipped otherwise |
| ConfigText.WriteThenRead | libs/app_utils/src/config_file_ops.c:182-300 | Reading what was written gives the same variables in the same order exactly if every line has at most 768 characters and no value ends in a slash |
| ConfigText.ReadIsWritable | libs/app_utils/src/config_file_ops.c:182-242 | Whatever is read from any file is at most 50 variables that can be written again: proper names, proper values, no trailing slash, lines that fit the writer's buffer |
| ConfigText.ReadWriteRead | libs/app_utils/src/config_file_ops.c:182-300 | For any file, reading, writing and reading again gives the same variables exactly if the rewritten lines have at most 768 characters |
| ConfigText.OneTooLong | libs/app_utils/src/config_file_ops.c:188-192 | A family of files for which it does not: a last line of 768 characters without a newline is read once but not again |
| ConfigFile.GetKey | libs/app_utils/src/config_file_ops.c:69-139 | The tokeniser, cutting the line in place, fails exactly when the specification does and otherwise leaves the specified key and value |
| ConfigLines.AssignmentIsRead | libs/app_utils/src/config_file_ops.c:69-139 | Of any line of at most 768 characters made of blanks, a name, blanks and equal signs, a quoted value and a rest, the name and the value are read |
| ConfigLines.OnlyAssignmentsAreRead | libs/app_utils/src/config_file_ops.c:69-249 | And nothing is read of any other line: whatever is read comes from a line of that form |
| ConfigLines.StripIs | libs/app_utils/src/config_file_ops.c:60-67 | Exactly the slashes at the end of a value are taken off |
| ConfigLines.LineAdds | libs/app_utils/src/config_file_ops.c:182-242 | Such a line adds its name and its value without the slashes at its end to fewer than 50 variables, if the name has at most 128 characters |
| ConfigLines.LineByLine | libs/app_utils/src/config_file_ops.c:182-192 | A file is read line by line, in order, up to lines of 768 characters |
| ConfigLines.LongLineIsCut | libs/app_utils/src/config_file_ops.c:182-192 | Of a longer line 769 characters are skipped, and what follows is read as a line of its own |
| ConfigFile.ConfigStore.ReadLine | libs/app_utils/src/config_file_ops.c:182-242 | One buffer of the file adds the specified variable or none |
| ConfigFile.ConfigStore.ParseConfigFile | libs/app_utils/src/config_file_ops.c:146-249 | After the loop over the file the tables hold what was read, and the backup a copy of it |
| ConfigFile.ConfigStore.GetConfigVar | libs/app_utils/src/config_file_ops.c:251-265 | The first variable of that name, ignoring case |
| ConfigFile.LookupIs | libs/app_utils/src/config_file_ops.c:251-265 | The value is that of the first variable of the name, and there is none exactly if no variable has the name |
| ConfigFile.CaseIs | libs/app_utils/src/config_file_ops.c:251-265 | Names are compared up to the case of the 26 letters |
| ConfigFile.ConfigStore.WriteToConfigFile | libs/app_utils/src/config_file_ops.c:267-300 | The file becomes the printed backup, or the printed values if there is none, when writing works |
| ConfigFile.ConfigStore.SetConfigVar | libs/app_utils/src/config_file_ops.c:302-340 | The whole new state and result of an update, with and without a backup, with the writing working or failing |
| ConfigFile.ConfigStore.SetConfigVar2 | libs/app_utils/src/config_file_ops.c:342-364 | A change that waits in the backup for the next write |
| ConfigFile.SetSucceedsIff | libs/app_utils/src/config_file_ops.c:302-364 | An update succeeds exactly if there is such a variable and, with a backup, the file could be written |
| ConfigFile.SetThenGet | libs/app_utils/src/config_file_ops.c:251-340 | After a successful update every spelling of the name finds the new value and every other variable its old one |
| ConfigFile.SetKeepsSync | libs/app_utils/src/config_file_ops.c:302-340 | With tables and backup in step, an update keeps them in step, and a failed one changes nothing |
| ConfigFile.FailedSetRestoresIff | libs/app_utils/src/config_file_ops.c:321-334 | A failed update leaves everything as before exactly if nothing waited to be written under that name |
| ConfigFile.PendingIsLost | libs/app_utils/src/config_file_ops.c:321-362 | A file of one line, read, and a pending change of its variable that a failed update forgets |
| ConfigUpdates.TablesFollow | libs/app_utils/src/config_file_ops.c:302-364 | After any sequence of successful, failed and pending updates each variable in use has the value of its last successful update, and the one waiting to be written that of its last update, or the value in use if that one failed; the file is what was waiting at the last successful update |
| ConfigUpdates.UpdatesSurviveRestart | libs/app_utils/src/config_file_ops.c:267-364 | After any such sequence that has written, the file reads as that table, and as the table in memory exactly if every line of it is short enough and every value that was waiting then is, up to slashes at its end, the one in use now |
| ConfigUpdates.SetSurvivesRestart | libs/app_utils/src/config_file_ops.c:267-340 | Without pending updates: exactly if every line is short enough and no value ends in a slash |
| List.AddBetween | libs/app_utils/api/list.h:32-40 | The four pointer writes insert the node between its neighbours, in a ring of any length, also of one node |
| List.Add | libs/app_utils/api/list.h:42-45 | Insertion behind the head |
| List.AddTail | libs/app_utils/api/list.h:47-50 | Insertion at the end |
| List.Del | libs/app_utils/api/list.h:52-61 | Removal of a node from the ring |
| List.MoveTail | libs/app_utils/api/list.h:63-68 | A node moves to the end of its own list |
| List.MoveTailTo | libs/app_utils/api/list.h:63-68 | A node moves to the end of another list |
| List.IsEmpty | libs/app_utils/api/list.h:70-73 | The test holds exactly for the ring of the head alone |
| BufferPool.FirstInFirstOut | libs/app_utils/src/mm.c:70-104 | Over any run, buffers handed out and buffers free are together exactly the buffers of the start and those given back, in order |
| BufferPool.OneQueue | libs/app_utils/src/mm.c:70-104 | Told by the calls alone: the buffers by address and then those given back are one queue, of which as many from the front have been handed out as were asked for in time, and the others are free |
| BufferPool.HandedOutOnce | libs/app_utils/src/mm.c:77-104 | After any run in which callers give back what they hold, a buffer has been handed out once more than given back if it is in use, and as often if it is free |
| BufferPool.ArenaIsPartitioned | libs/app_utils/src/mm.c:156-169 | Free buffers and buffers in use make up the arena |
| BufferPool.Manager.FreeListOk | libs/app_utils/src/mm.c:51-55 | The counter is the length of the free list, which holds no buffer twice |
| BufferPool.Manager.FreeBuffer | libs/app_utils/src/mm.c:70-84 | The buffer joins the free list at its end: one step of the queue |
| BufferPool.Manager.AllocBuffer | libs/app_utils/src/mm.c:86-104 | The first free buffer, or none exactly if there is none: one step of the queue |
| BufferPool.Manager.AddToAllLink | libs/app_utils/src/mm.c:106-113 | The buffer joins the list of all at its end, and the free list stays |
| BufferPool.Manager.DeleteFromAllLink | libs/app_utils/src/mm.c:115-122 | The buffer leaves the list of all, and the free list stays |
| BufferPool.CreateBufferManager | libs/app_utils/src/mm.c:142-171 | At first all buffers are free, in the order of their addresses |
| BufferPool.RunManager | libs/app_utils/src/mm.c:70-171 | A manager from its creation on, under any sequence of legal calls, ends in the state of the queue after them, and its calls have returned what the queue handed out |
| BufferPool.BuffersTakenOnce | libs/app_utils/src/mm.c:70-104 | So of the buffers those calls returned none was given out twice without being given back |

## Left out

- TabSteps.NoDeadlock: says that some thread can go on, not that each one eventually does, because spinlocks promise no fairness.
- TabXxx.Table.AddEntry: asks for an unused id if the key is new and the pool is not empty, because otherwise the call does not return.
- TabHistory.KeyCallsLinearize: covers the calls that go by key; lookups by id see another index, whose history is that of `TabIds.IdLookupsLinearize`, and puts answer nothing.
- Packet.UpdateIsSound4: the sum over the header folds only if the header reaches to its checksum, and that over the data only if the checksum field lies within the data.
- PacketChange.DataWordPasses: compares packets of one header length, protocol and total length whose checksum field lies within the data; other changes move what is summed.
- Packet6Change.WordPasses6: the same for payload length and next header.
- Sched.SpawnedTenthIff: with the tenth task made by a task, and of what tasks make only some calling `schedule`, only `Sched.EveryRunCompletes` says where the run ends.
- PcQueue.Ring.OutqTry: returns "nothing" apart from the data; in C a queued NULL pointer cannot be told from an empty ring.
- Table, request and hash lists above `List` are sequences of buffer numbers; the pointers are modelled in `List` and `BufferPool` only.
- The lock of an entry, of the list of all entries and of the pool each guard one step of the machine; locks do not appear in the sequential objects.
- The tab dump, the error logs and the list walk `for_each_buf_in_all_link`: output only.
- Memory ordering: every shared access is sequentially consistent.
- Allocation failures of `malloc`, and pool managers that could not be created.
- Time, addresses and datagrams of the rendezvous server are inputs.  Datagrams are complete and their strings terminated; shorter ones, and the receive call's oversized length, are not part of this model.  Time differences are not truncated to `int`.
- The client of the rendezvous server, with its retries and heartbeats.
- Tone generation and detection in floating point, phases, noise and lost samples; the sound card gives the captured samples in order until it fails.
- Packet descriptions and protocol names; what `inet_addr` accepts; IPv6 texts that overrun the parser's buffers.
- Stacks, registers and the assembly of the scheduler; tasks that never end; tasks beyond the ten that fit; what `schedule` finds behind the array.
- Files, renaming and directories of the configuration: the text of the file is a string, and whether writing works is an input.  Overlapping copies in the parser are taken to copy correctly.  A second parse without `free_config` in between is not modelled.
- `guard`, daemon, signal, timer, terminal, serial and telnet code, kernel modules, `tap_writer`, the traffic testers, `x86_arch_name`, the lottery program, statistics and miscellaneous helpers: operating-system plumbing or easy facts.
