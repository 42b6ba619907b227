# Verification model of the AESD storage system

The system stores newline-terminated write commands in a character driver that
keeps the ten most recent ones, and serves them over TCP through a threaded
server. This project models its three layers in Dafny and proves how each
refines the one above it.

**Ring and driver.** `Contents` is the abstract object: a log of commits, the
window of the last ten, the flat byte string they spell, and positions in it.
`Ring` is the circular buffer; its offsets and slots are proved to be a closed
form of the log. `Driver` is the file operations over the ring and an allocator
(`KernelMemory`); `Segmentation` says what a whole history of write calls
means, and `Ownership` who owns which block.

**Server protocol.** `Framing`, `SeekCommand` and `Requests` say what the bytes
of a client call for, `CommandGrammar` says it again without the parser,
`Chunking` how the stream can be cut into receives by a
buffer that doubles, and when that matters. `Server` has `receive_data`,
`send_data` and `client_handler` as methods over the driver; taking
`file_mutex` lets any number of other clients write first. `Protocol` is the machine of any number of
clients interleaving at the mutex operations, `ProtocolInvariant` what each of
its steps keeps, `ProtocolSafety` what follows for every run, and
`ProtocolRuns` has runs that a client may not expect. `Refinement` ties the
methods to the machine: the calls made under the mutex are its steps.

**Worker pool.** `ThreadPool` is the machine of the accept, reap and shutdown
loops with every worker's lifecycle, `ThreadPoolInvariant` and
`ThreadPoolSafety` its invariant and the theorems, `ThreadPoolPass` what each
pass of main's loop achieves. `ThreadList` is the linked
list of thread records on the heap with the `SLIST` macros;
`SingleTailQueue` and `TailQueue` are the `STAILQ` and `TAILQ` macros, where a
datatype `Link` stands for the address of a link field.

Both machines run any list of events from the initial state; an event that the
program does not allow at that moment changes nothing, so a statement about
`Exec(trace)` for every `trace` is a statement about every interleaving.

Outcomes the code does not decide are choices: `recv`, `send`, `malloc`,
`realloc`, `krealloc`, `open`, `accept` and `pthread_create` may fail or return
any amount the real call may. What goes wrong in a call is a parameter (`Faults`
for the driver, `Chances` for a client's thread), so the methods also state that
they fail only then.

Where the code and its comments differ the model follows the code:

- the comment at server/aesdsocket.c:156 says data is received until the client
  closes the connection; the loop ends with the first complete packet, and
  bytes behind it in the buffer are dropped;
- aesd-char-driver/aesd-circular-buffer.c:66 leaves the lifetime of an entry's
  memory to the caller, and the caller never frees an entry the ring evicts;
  those blocks are accounted for (`Driver.Device.Cleanup`), not freed.

Four things a reader may expect are not true of the code, and are proved with
their exact condition:

- which request a packet is taken for can depend on how the stream was cut into
  `recv` results, because `sscanf` reads the whole buffer. All cuts that the
  buffer allows agree exactly when the packet does not end where a number is
  still awaited, or the buffer that holds the packet has no room behind it for
  the bytes missing, three after the colon and one after the comma
  (`Chunking.CutIrrelevantIff`; two cuts that disagree otherwise:
  `Chunking.DifferentDecisions`);
- a seek client's response need not begin at the byte it asked for. It does
  exactly when nothing was evicted between its `ioctl` and its taking the mutex
  to send (`ProtocolSafety.SeekResponse`; a run where it does not:
  `ProtocolRuns.SeekCanMiss`);
- stored bytes can be lost. They are not exactly when no write call faulted
  while bytes were pending (`Segmentation.StoredBytesUnbrokenIff`; a history
  that loses one: `Segmentation.FaultLosesBytes`);
- shutdown can wait for ever. It can finish exactly when every listed worker
  had published its completion when main took `list_mutex`
  (`ThreadPoolSafety.ShutdownFinishesIff`; a run that hangs:
  `ThreadPoolSafety.ShutdownCanHang`).

## Model

| member | source | states |
|---|---|---|
| Contents.LocateFrom | aesd-char-driver/aesd-circular-buffer.c:46-58 | the ring walk finds a place exactly while bytes remain, and the place it finds lies at the position searched for |
| Contents.PlaceUnique | aesd-char-driver/main.c:222-227 | no two (command, offset) pairs name the same position |
| Contents.SeekLookupInverse | aesd-char-driver/main.c:204-231 | seek and lookup are mutual inverses: lookup undoes every valid seek, every position below the total comes from exactly one valid pair, and none from the total on |
| Contents.ReadPieceIsNext | aesd-char-driver/main.c:69-92 | one read returns the bytes of the flat content from the position on, at least one while any remain, at most the count |
| Contents.ReadPieceInsideOneEntry | aesd-char-driver/main.c:73-82 | a read never crosses the boundary of the entry it starts in |
| Contents.ReadsAreConsecutive | aesd-char-driver/main.c:69-92 | any sequence of reads with positive counts from any position returns consecutive pieces, then nothing for ever |
| Contents.ConsecutiveConcatenate | aesd-char-driver/main.c:69-92 | consecutive pieces join to the remaining content, and enough reads return all of it |
| Contents.ReadsStayInsideEntries | aesd-char-driver/main.c:73-82 | every piece of such a sequence lies inside one entry, at the position where the pieces before it end |
| Contents.WindowIsSuffix | aesd-char-driver/aesd-circular-buffer.c:68-83 | what the ring holds is the suffix of everything ever committed that starts at the evicted length |
| Contents.CommitShift | aesd-char-driver/aesd-circular-buffer.c:68-83 | address stability: an add to a ring that is not full extends the content; an add to a full one shifts it by exactly the size of the evicted entry |
| Contents.BaseMonotone | aesd-char-driver/aesd-circular-buffer.c:71-77 | the first readable byte never moves back, and stays exactly when nothing was evicted |
| Contents.ReadableIff | aesd-char-driver/aesd-circular-buffer.c:71-77 | an entry is wholly readable exactly when fewer than ten came after it, and wholly gone exactly when ten or more did |
| Contents.FlattenAround | aesd-char-driver/aesd-circular-buffer.c:21-31 | each entry of the ring stands in the content between the older and the newer ones |
| Ring.CircularBuffer.constructor | aesd-char-driver/main.c:292-297 | a zeroed ring represents the empty log |
| Ring.CircularBuffer.Init | aesd-char-driver/aesd-circular-buffer.c:88-91 | initialisation forgets the log, whatever the ring held |
| Ring.CircularBuffer.AddEntry | aesd-char-driver/aesd-circular-buffer.c:68-83 | adds one entry to the log and keeps the closed form: in_offs = k mod 10, full iff k >= 10, out_offs 0 until full and k mod 10 after, each slot the latest entry of its residue |
| Ring.CircularBuffer.EntryAt | aesd-char-driver/aesd-circular-buffer.c:50 | the i-th step of a walk from out_offs is at the i-th oldest of the last ten entries |
| Ring.CircularBuffer.CalculateSize | aesd-char-driver/aesd-circular-buffer.c:21-31 | the sum of the sizes of the last ten entries |
| Ring.CircularBuffer.FindEntryOffsetForFpos | aesd-char-driver/aesd-circular-buffer.c:43-59 | the loop with its decreasing remainder finds exactly the place the abstract lookup names, in the slot that holds it, or NULL |
| Ring.LatestIndex | aesd-char-driver/aesd-circular-buffer.c:75-77 | the entry a slot holds after k adds is the latest whose log index has the slot as residue mod 10 |
| Ring.LatestAfterAdd | aesd-char-driver/aesd-circular-buffer.c:75 | an add changes the slot k mod 10 and no other |
| Ring.WalkVisitsWindow | aesd-char-driver/aesd-circular-buffer.c:71-82 | walking from out_offs visits the last min(k,10) entries, oldest first |
| KernelMemory.Slab.Krealloc | aesd-char-driver/main.c:118-125 | failure leaves the old block alone; success keeps its bytes in a block nobody else has, also when nothing was allocated or nothing is asked for |
| KernelMemory.Slab.Kfree | aesd-char-driver/main.c:317-324 | releases one live block; NULL is allowed, a second free is not |
| KernelMemory.Slab.CopyIn | aesd-char-driver/main.c:128 | copies behind the old bytes and touches no other block |
| Ownership.CommittedKept | aesd-char-driver/main.c:117-145 | replacing the pending block leaves every block of the log live and unchanged |
| Ownership.RepresentsDropped | aesd-char-driver/main.c:128-135 | after the fault path the device means the same commits and nothing pending |
| Ownership.RepresentsGrown | aesd-char-driver/main.c:118-138 | after a successful copy the pending block spells the old pending bytes and the chunk |
| Ownership.RepresentsCommitted | aesd-char-driver/main.c:141-145 | handing the pending block to the ring turns the pending bytes into the newest commit; pointers stay pairwise distinct |
| Driver.Device.constructor | aesd-char-driver/main.c:292-297 | a fresh device is valid and has no history |
| Driver.Device.EntriesHeld | aesd-char-driver/aesd-circular-buffer.c:47-56 | the slots of the ring point to live blocks that spell the last ten commits |
| Driver.Device.PieceAt | aesd-char-driver/main.c:69-79 | the walk, the offset and the shorter of count and rest give exactly the next piece of the content |
| Driver.Device.Read | aesd-char-driver/main.c:57-97 | returns the next piece of the content and advances by it; on an interrupt or a fault nothing changes |
| Driver.Device.Write | aesd-char-driver/main.c:100-154 | every outcome is one step of the write history and the device afterwards means that history; no block the ring ever referenced is freed, moved or rewritten |
| Driver.Device.Accumulate | aesd-char-driver/main.c:112-138 | krealloc and copy: the chunk is appended, or out of memory changes nothing, or a fault drops everything pending |
| Driver.Device.CommitIfComplete | aesd-char-driver/main.c:140-145 | the pending bytes become a commit exactly when they hold a newline |
| Driver.Device.Seek | aesd-char-driver/main.c:156-190 | SEEK_SET, SEEK_CUR and SEEK_END set the position they promise; a negative target, an unknown whence and an interrupt leave it alone |
| Driver.SeekLaws | aesd-char-driver/main.c:166-184 | the three origins are one law: an offset from the current position or from the end is the offset from the beginning that the sum names; only non-negative ones are positions and there is no fourth origin |
| Driver.SetThenMove | aesd-char-driver/main.c:166-189 | SEEK_SET and then SEEK_CUR is SEEK_SET to the sum, or -EINVAL and the first position when that is negative |
| Driver.SetThenRead | aesd-char-driver/main.c:69-92 | a read after SEEK_SET returns the content from there on |
| Driver.SeekEndIsWhereReadsStop | aesd-char-driver/main.c:173-186 | SEEK_END with offset 0 is the least position at which reads return 0 |
| Driver.PositionOfCommand | aesd-char-driver/main.c:204-227 | the seek walk computes the flat position of a valid pair and rejects every other |
| Driver.Device.AdjustFileOffset | aesd-char-driver/main.c:192-232 | a valid pair sets the position of its byte, an invalid one answers -EINVAL and leaves the position |
| Driver.Device.Ioctl | aesd-char-driver/main.c:234-253 | the four error answers in the order the code tests them, the position changed only on success |
| Driver.FreeSlots | aesd-char-driver/main.c:319-324 | the loop over all ten slots frees each block the ring references once, empty slots included |
| Driver.Device.Cleanup | aesd-char-driver/main.c:317-324 | pending and ring blocks are freed exactly once; what stays live is exactly the blocks of evicted entries |
| Driver.SlotsFreed | aesd-char-driver/main.c:319-324 | the ten slots hold the blocks of the last ten entries and no others |
| Segmentation.OpenHasNoNewline | aesd-char-driver/main.c:140-145 | the chunks not yet committed hold no newline |
| Segmentation.ReplayIsSegmentation | aesd-char-driver/main.c:108-154 | for every call history, pending is the join of the open chunks without a newline, and commit i is the join of segment i with all its newlines in the last chunk |
| Segmentation.StoredBytesConserved | aesd-char-driver/main.c:108-154 | every stored byte is committed, pending or lost to a fault; the device holds the stored bytes unbroken in order iff no fault discarded any |
| Segmentation.NothingLostIff | aesd-char-driver/main.c:128-135 | nothing was lost iff before every faulting call nothing was pending |
| Segmentation.StoredBytesUnbrokenIff | aesd-char-driver/main.c:108-154 | the device holds the stored bytes unbroken in order iff no write call faulted while bytes were pending |
| Segmentation.FaultLosesBytes | aesd-char-driver/main.c:128-135 | a history of two calls that loses a stored byte |
| Segmentation.CommitsHoldNewline | aesd-char-driver/main.c:140-145 | every commit holds a newline, so none is empty |
| Framing.StrChr | server/aesdsocket.c:162 | finds the first newline with no NUL before it, or there is none |
| Framing.FirstPacket | server/aesdsocket.c:162-166 | a packet is a prefix that ends in its only newline and holds no NUL |
| Framing.PacketEndUnique | server/aesdsocket.c:162 | a stream has at most one packet end, whatever follows it |
| Framing.PacketIndependentOfPrefix | server/aesdsocket.c:157-166 | the packet found in any part received so far is the packet of the whole stream; one not found yet ends beyond that part |
| Framing.SearchStopsAtNul | server/aesdsocket.c:159-162 | the terminating NUL hides what the buffer holds behind it |
| Framing.PacketThenAnything | server/aesdsocket.c:165-166 | a packet followed by anything is framed as that packet |
| SeekCommand.ScanSeekSplits | server/aesdsocket.c:178-179 | a buffer that does not begin with the command word and a colon is never a command; one that does is what its numbers say |
| SeekCommand.PrintScanRoundTrip | server/aesdsocket.c:178-179 | printing any pair of uint32 with a newline and scanning gives the pair back, whatever bytes follow |
| SeekCommand.RecognitionIgnoresRestIff | server/aesdsocket.c:178 | to the parser alone, were any number of bytes to follow, those bytes never change how a packet is taken iff the packet does not end where a number is awaited |
| SeekCommand.RestIgnored | server/aesdsocket.c:178 | the bytes behind any other packet are ignored |
| SeekCommand.Witness | server/aesdsocket.c:178 | for every packet that awaits a number, exactly as many bytes as are missing that make it a command |
| SeekCommand.TooFewBytes | server/aesdsocket.c:178 | fewer bytes than are missing never change how a packet is taken |
| SeekCommand.ScanNumbers | server/aesdsocket.c:178 | both numbers of a recognised command fit uint32 |
| CommandGrammar.OneDigit | server/aesdsocket.c:178 | the ten digits are worth 0 to 9 |
| CommandGrammar.NumeralsOrdered | server/aesdsocket.c:178 | among numerals of one length, value follows the lexicographic order strictly |
| CommandGrammar.NumeralsFill | server/aesdsocket.c:178 | numerals of n digits take exactly the values below 10^n |
| CommandGrammar.NoLeadingZero | server/aesdsocket.c:178 | the canonical numeral has no leading zero |
| CommandGrammar.WhiteSpaceCodes | server/aesdsocket.c:178 | white space is the blank and the codes 9 to 13 |
| CommandGrammar.CommandIff | server/aesdsocket.c:178-179 | a buffer is taken for a seek iff its C string is the word, a colon, spaces, sign, digits, a comma, spaces, sign, digits; the first number is the command and the second the offset |
| CommandGrammar.CanonicalCommand | server/aesdsocket.c:178-184 | the text AESDCHAR_IOCSEEKTO:cmd,offset and a newline is a packet and decided as the seek to (cmd, offset), for all uint32 and whatever follows |
| Requests.DecisionIndependentOfChunking | server/aesdsocket.c:157-229 | any part of a stream that holds its packet decides like the whole stream when the packet awaits no number; a stream that does not begin with the command word is stored verbatim |
| CommandGrammar.RequestIff | server/aesdsocket.c:162-229 | nothing is decided before the first packet; then a seek exactly when the buffer scans as one, and otherwise the first packet is stored |
| Chunking.SizeFrom | server/aesdsocket.c:142 | the doubled size leaves room for the bytes held, the NUL and at least one more byte |
| Chunking.SizeAfter | server/aesdsocket.c:233-245 | the buffer size is a function of the bytes held: unchanged until the buffer is full, doubled then |
| Chunking.ReceivedWithinLimit | server/aesdsocket.c:157-166 | when a packet is complete no more has been received than the buffer then in use can hold |
| Chunking.CutFor | server/aesdsocket.c:157-166 | every number of bytes from the packet to that limit, if the stream has it, is received by some cut |
| Chunking.ReachableTotals | server/aesdsocket.c:157-166 | exactly those totals are reachable |
| Chunking.SameDecision | server/aesdsocket.c:157-229 | unless the packet awaits a number that still fits behind it, every cut decides as the packet alone |
| Chunking.DifferentDecisions | server/aesdsocket.c:178-229 | otherwise a stream and two cuts of it, one stored as data and one taken for a seek |
| Chunking.CutIrrelevantIff | server/aesdsocket.c:157-229 | all cuts of all streams that begin with a packet decide alike iff the packet awaits no number or the buffer has no room left for it |
| Chunking.FullBufferStandsAlone | server/aesdsocket.c:142-166 | a packet of 1023 bytes is decided alone, whatever number it awaits |
| Server.AwaitPacket | server/aesdsocket.c:141-246 | for every cut into recv results, which is one the buffer allows, the decision is that of the bytes received; every request is positive and every index inside the doubling buffer; the loop ends, and fails or stays undecided only when recv, malloc or realloc fail, the stream ends or the server is stopped |
| Server.ReceiveMore | server/aesdsocket.c:157-166 | one receive extends what was gathered and decides on all of it; the buffer then has the size the bytes held call for, or is full |
| Server.ReceiveChunk | server/aesdsocket.c:157-159 | received bytes go behind those already there and are closed by a NUL |
| Server.Examine | server/aesdsocket.c:162-203 | strchr and sscanf on the buffer decide as on the bytes received |
| Server.Reallocate | server/aesdsocket.c:233-245 | growing keeps every byte |
| Server.FileMutex.WritePacket | server/aesdsocket.c:203-221 | a whole packet on a device with nothing pending becomes one commit or leaves no trace |
| Server.FileMutex.Lock | server/aesdsocket.c:204 | whatever others did before, the device is consistent when the mutex is taken, and commits only grew |
| Server.StorePacket | server/aesdsocket.c:203-224 | exactly one commit, the packet, on top of what the mutex was taken with, unless the write call is refused; then none |
| Server.SeekDevice | server/aesdsocket.c:180-194 | the position of the requested byte in the ring as it is under the mutex exactly when there is such a byte and the call is not refused; the device is unchanged |
| Server.Rewind | server/aesdsocket.c:263-270 | a client that did not seek reads from position 0 |
| Server.ActOn | server/aesdsocket.c:169-270 | at most the client's one packet is added whatever the outcome; on success position and device are what the decision promises |
| Server.ReceiveData | server/aesdsocket.c:139-275 | the same from the client's bytes on: the bytes consumed determine the decision, the decision the effect |
| Server.SendAll | server/aesdsocket.c:294-306 | whatever sizes send accepts, all of the chunk in order, or a prefix of it and an error |
| Server.ReadNext | server/aesdsocket.c:293 | each read of the loop is the next non-empty piece of the content, or its end, or an error |
| Server.Stream | server/aesdsocket.c:290-308 | for every split into reads and sends the response is the content from the position on; after an error a prefix; the loop ends by what remains |
| Server.SendData | server/aesdsocket.c:278-319 | the response is the device as it is while the mutex is held |
| Server.ClientHandler | server/aesdsocket.c:322-371 | the response of a successful client, from the request its bytes decide: the whole ring with its packet committed, or the rest from the byte sought, in particular for the pair of a canonical command; it fails only if something was refused or the byte sought does not exist |
| Server.Answer | server/aesdsocket.c:354-362 | after a successful receive the response is the ring with the client's packet, or the rest from the byte it sought |
| Server.CommandAnswered | server/aesdsocket.c:178-308 | a client that sent the canonical command for (cmd, offset) is answered from byte offset of entry cmd, in the ring as it was at some moment in between |
| Refinement.WriteIsStep | server/aesdsocket.c:208 | the write call under the mutex is the machine's write step, outcome by outcome, device and file position included |
| Refinement.IoctlIsStep | server/aesdsocket.c:184 | the ioctl call under the mutex is the machine's seek step |
| Refinement.ReadIsStep | server/aesdsocket.c:293 | the read call under the mutex is the machine's read step, with the same bytes |
| Refinement.RecvIsStep | server/aesdsocket.c:157-246 | recv, its end of stream and its error are the machine's steps: the machine gathers the very bytes taken from the socket |
| Refinement.RewindIsStep | server/aesdsocket.c:263-270 | lseek and its failure are the machine's steps |
| Refinement.SendIsStep | server/aesdsocket.c:297-305 | send and its failure are the machine's steps, with the same bytes accepted |
| Refinement.OthersMeanwhile | server/aesdsocket.c:203-224 | what taking the mutex assumes of the others is what the machine proves: commits only grow by whole packets and nothing is pending |
| ProtocolInvariant.StepKeeps | server/aesdsocket.c:157-371 | every step of every client keeps the invariant: device, mutex, clients, histories and commit order |
| ProtocolInvariant.AlwaysInv | server/aesdsocket.c:157-371 | the invariant holds after every interleaving |
| ProtocolSafety.DeviceHoldsWinners | server/aesdsocket.c:203-229 | in every run nothing is pending between steps and commit i is, whole, the first packet of the bytes delivered to the i-th successful writer in lock order; packets never mix, failed writes leave no trace |
| ProtocolSafety.GotIsDelivered | server/aesdsocket.c:157-159 | what a client holds is the join of the chunks of its receive events, in order |
| ProtocolSafety.AcquiredIsLockOrder | server/aesdsocket.c:204 | the recorded order is that of the lock events of the run |
| ProtocolSafety.MutualExclusion | server/aesdsocket.c:180-224 | at most one client is between taking and releasing file_mutex |
| ProtocolSafety.CommitsOnlyGrow | aesd-char-driver/main.c:140-145 | no commit is ever undone or changed |
| ProtocolSafety.SnapshotExists | server/aesdsocket.c:290 | a sending client's snapshot is the state of the event in which it took the mutex |
| ProtocolSafety.SeekExists | server/aesdsocket.c:180-194 | a recorded seek is one successful ioctl event of the run, with the position it set |
| ProtocolSafety.StoreExists | server/aesdsocket.c:203-221 | a recorded commit is one successful write event of the run |
| ProtocolSafety.ResponseIsSnapshot | server/aesdsocket.c:290-308 | every complete response equals the content when its client took the mutex, from its position on; every other is a prefix of that |
| ProtocolSafety.ResponseBegins | server/aesdsocket.c:263-270 | responses begin at 0, or for clients whose delivered bytes are a seek at the byte named in the ring they sought in |
| ProtocolSafety.CommandIsAnswered | server/aesdsocket.c:178-293 | a client that was delivered the canonical command for (cmd, offset) is answered from byte offset of entry cmd in the ring it sought in |
| ProtocolSafety.EntryOfWindow | aesd-char-driver/aesd-circular-buffer.c:71-77 | a commit with fewer than ten after it stands at a known place of the ring and of the content |
| ProtocolSafety.ReadYourOwnWrite | server/aesdsocket.c:203-308 | every byte of a client's own packet is readable when it takes the mutex to send exactly when fewer than ten packets were committed after it, and it then stands in the response; with ten or more none of its bytes is |
| ProtocolSafety.SeekResponse | server/aesdsocket.c:180-293 | a seek client is answered from the very byte it asked for iff nothing was evicted between its ioctl and its taking the mutex; then with all that was committed since |
| ProtocolSafety.EvictionMoves | aesd-char-driver/aesd-circular-buffer.c:71-77 | a position keeps naming the same byte of everything ever committed iff nothing was evicted |
| ProtocolSafety.Extended | aesd-char-driver/aesd-circular-buffer.c:75-77 | without eviction the content only grows at its end |
| ProtocolRuns.SeekCanMiss | server/aesdsocket.c:180-293 | a run of the server in which a seek client is answered from another byte than the one it asked for |
| ProtocolRuns.OwnPacketAfter | server/aesdsocket.c:203-293 | for every k a run in which a client is answered when k packets came after its own: through nine all of its packet is readable, from ten on nothing |
| ProtocolRuns.TwoPiecesOnePacket | server/aesdsocket.c:157-208 | a run in which a packet that arrives in two pieces is stored whole |
| ThreadPoolInvariant.StepKeeps | server/aesdsocket.c:520-575 | every step of main and of the workers keeps the invariant of list, records, mutex and descriptors |
| ThreadPoolInvariant.AlwaysInv | server/aesdsocket.c:520-575 | the invariant holds after every run |
| ThreadPoolSafety.RecordSafety | server/aesdsocket.c:534-575 | each record is joined at most once, after its thread exited and before its free; nobody touches it after; the list is exactly the started records not freed, without duplicates |
| ThreadPoolSafety.DescriptorConservation | server/aesdsocket.c:520-552 | the open client descriptors are exactly those main or a worker still owes a close, each closed once, failures included |
| ThreadPoolSafety.ReapJoinNeverBlocks | server/aesdsocket.c:557-563 | every join of the reap pass waits for a worker that needs no mutex any more |
| ThreadPoolPass.ReapPass | server/aesdsocket.c:555-564 | whatever the workers do meanwhile, a pass leaves exactly the records that were not complete, in their order; every complete one has exited, was joined once and is freed |
| ThreadPoolPass.NoneLeftBehind | server/aesdsocket.c:557-562 | while main stands before a record no record in front of it is complete |
| ThreadPoolPass.PassCanEnd | server/aesdsocket.c:557-564 | from every point of a pass there is a continuation that ends it |
| ThreadPoolPass.NewcomerFirst | server/aesdsocket.c:552 | a started record goes in front of the list |
| ThreadPoolPass.FailuresReturn | server/aesdsocket.c:534-551 | when malloc or pthread_create fails the connection is closed once, the record freed, and main accepts again |
| ThreadPoolPass.ShutdownOnlyAfterSignal | server/aesdsocket.c:520-532 | the shutdown begins only after a signal |
| ThreadPoolPass.WorkerCanFinish | server/aesdsocket.c:322-371 | a worker whose mutex is free closes its descriptor once, publishes and exits |
| ThreadPoolPass.UsesAreWatched | server/aesdsocket.c:547-574 | in any state, a use of a freed record is recorded as one |
| ThreadPoolPass.ClosesAreWatched | server/aesdsocket.c:337-365 | in any state, a close of a descriptor that is not one's own is recorded as one |
| ThreadPoolSafety.ShutdownFinishesIff | server/aesdsocket.c:568-575 | once shutdown holds list_mutex it can finish iff every listed worker has published its completion |
| ThreadPoolSafety.ShutdownCanHang | server/aesdsocket.c:568-571 | a run whose shutdown never finishes |
| ThreadPoolSafety.StuckForever | server/aesdsocket.c:367-369 | no continuation frees a listed worker that has not published from waiting for the mutex main holds |
| ThreadPoolSafety.DrainRun | server/aesdsocket.c:569-574 | the continuation that joins, unlinks and frees every listed worker in turn |
| ThreadPoolSafety.FinishedCleanly | server/aesdsocket.c:568-575 | when main has finished every started thread has exited and been joined once, every record is freed and every descriptor closed once |
| ThreadList.ThreadPoolHead.NoCycle | server/queue.h:241-269 | no record stands twice in a list that ends |
| ThreadList.ThreadPoolHead.constructor | server/queue.h:232-234 | the empty list |
| ThreadList.ThreadPoolHead.InsertHead | server/queue.h:241-244 | the record goes in front of the list |
| ThreadList.ThreadPoolHead.RemoveHead | server/queue.h:267-269 | the first record goes |
| ThreadList.ThreadPoolHead.RemoveAfter | server/queue.h:262-265 | the record behind the given one goes |
| ThreadList.ThreadPoolHead.Remove | server/queue.h:248-260 | the search from the head finds the record and takes out exactly it |
| ThreadList.ThreadPoolHead.ReapOne | server/aesdsocket.c:557-562 | the successor read before the free is the next record of the list afterwards; a complete record is joined, unlinked and freed |
| ThreadList.ThreadPoolHead.Reap | server/aesdsocket.c:557-563 | the pass ends and leaves exactly the incomplete records in their order; the complete ones are joined and freed once each, in order, and no freed record is read |
| ThreadList.ReapPartitions | server/aesdsocket.c:557-563 | kept and reaped records together are the old list, none lost or repeated |
| ThreadList.ThoseHaveFlag | server/aesdsocket.c:558 | the records selected are those with the flag |
| ThreadList.ThoseInOrder | server/aesdsocket.c:557-563 | a selection keeps the order of the list |
| ThreadList.ThreadPoolHead.Drain | server/aesdsocket.c:569-574 | every record is joined, then freed, first to last, and the list ends empty |
| SingleTailQueue.Head.NoCycle | server/queue.h:308-407 | no element stands twice in a queue that ends |
| SingleTailQueue.Head.Init | server/queue.h:340-343 | the empty queue, its last address that of the first link |
| SingleTailQueue.Head.Empty | server/queue.h:316 | the test is for the empty sequence |
| SingleTailQueue.Head.Last | server/queue.h:363-366 | the element found from the address of the last link is the last of the sequence |
| SingleTailQueue.Head.InsertHead | server/queue.h:351-355 | refines putting an element in front; the last address stays that of the last link |
| SingleTailQueue.Head.InsertTail | server/queue.h:357-361 | refines appending an element through the last address |
| SingleTailQueue.Head.InsertAfter | server/queue.h:345-349 | refines inserting behind an element, also the last one |
| SingleTailQueue.Head.RemoveHead | server/queue.h:390-394 | refines dropping the first element |
| SingleTailQueue.Head.RemoveAfter | server/queue.h:384-388 | refines dropping the element behind the given one, also the last one |
| SingleTailQueue.Head.Remove | server/queue.h:370-382 | refines dropping the given element, found by a search from the head |
| SingleTailQueue.Head.Concat | server/queue.h:308-314 | refines joining two sequences; the other queue ends empty |
| SingleTailQueue.Head.Swap | server/queue.h:396-407 | exchanges two sequences, empty ones and a queue with itself included |
| TailQueue.Head.AddressReachesElement | server/queue.h:752-764 | dereferencing a back pointer gives the element it belongs to |
| TailQueue.Head.NoCycle | server/queue.h:635-785 | no element stands twice in a queue that ends |
| TailQueue.Head.InOneQueue | server/queue.h:690-694 | back pointers lead to one head: no element is in two queues |
| TailQueue.Store | server/queue.h:715 | a store through the address of a link field |
| TailQueue.Head.Init | server/queue.h:690-694 | the empty queue, its last address that of the first link |
| TailQueue.Head.Empty | server/queue.h:646 | the test is for the empty sequence |
| TailQueue.Head.Last | server/queue.h:744-745 | the double indirection through the last address gives the last element, or NULL |
| TailQueue.Head.Prev | server/queue.h:749-750 | the double indirection through a back pointer gives the element before, or NULL for the first |
| TailQueue.Head.ForeachReverse | server/queue.h:670-673 | visits every element once, last to first |
| TailQueue.Head.InsertHead | server/queue.h:721-732 | refines putting an element in front; every back pointer stays the address of the link reaching its element |
| TailQueue.Head.InsertTail | server/queue.h:734-742 | refines appending an element |
| TailQueue.Head.InsertAfter | server/queue.h:696-709 | refines inserting behind an element |
| TailQueue.Head.InsertBefore | server/queue.h:711-719 | refines inserting in front of an element without knowing the head |
| TailQueue.Head.Remove | server/queue.h:752-768 | refines dropping an element without a search |
| TailQueue.Head.Concat | server/queue.h:635-644 | refines joining two sequences; the other queue ends empty |
| TailQueue.Head.Adopt | server/queue.h:777-784 | pointing a chain back at the head that took it over makes the queue whole again |
| TailQueue.Head.Swap | server/queue.h:770-785 | exchanges two sequences, empty ones and a queue with itself included |

## Left out

- Integer widths of positions and sizes: `size_t` and `loff_t` are unbounded, so totals are assumed to stay below 2^63.
- Server.AwaitPacket: excludes the streams that fill 2^30 - 1 bytes without a complete packet, and no others; there the code doubles an `int` beyond its range, which C leaves undefined.
- Chunking.CutIrrelevantIff: the buffer doubles without that bound.
- SeekCommand.ScanNumbers: a number too large for `uint32_t` is taken modulo 2^32 and a sign is read as `strtoul` would; ISO/IEC 9899:1999 section 7.19.6.2 leaves the former undefined.
- Server.FileMutex.Lock: other clients appear as any number of whole-packet writes made while they held the mutex, which `Refinement.OthersMeanwhile` proves of the machine's runs; other processes writing the device at the same time are not modelled at this level (the driver's own theorems allow any caller).
- Server.ReceiveData: `active` is assumed to be set on entry; otherwise the code reads an uninitialised `bytes_received`.
- Server.Socket.Send: a `send` that accepts no byte and reports no error is not modelled, nor are `recv` and `send` errors by kind.
- Server.StorePacket: the kernel's own limit on the size of one `write` is not modelled, so the driver sees a whole packet in its first call.
- Protocol.Step: a packet's write loop is one event, because the driver takes all or nothing; a client's `open`, `malloc` and `lseek` failures are one event each.
- Driver.Device.Cleanup: says which blocks stay live, the evicted ones; it does not claim that none do.
- KernelMemory.Slab: freed addresses may be handed out again and contents of grown blocks are unspecified; allocator internals, kernel mutexes and real user-memory copies are not modelled.
- TailQueue.Head.Concat: not for a queue concatenated with itself, and the links of a removed element are left as the macro leaves them.
- The LIST macros, the remaining foreach variants and the debug and trace macros of server/queue.h: they repeat the TAILQ argument in a weaker form.
- Liveness beyond `ThreadPoolSafety.ShutdownFinishesIff`: fairness of scheduling and of `pthread_mutex_lock` is not modelled.
- Record addresses reused by `malloc` in the pool machine: each allocation counts as a new record.
- Socket setup, signals, syslog, daemon mode and kernel registration; the timestamp thread and plain-file mode, which `USE_AESD_CHAR_DEVICE` compiles out.
- finder-app, the examples directory, tests and shell scripts: thin wrappers over system calls.
