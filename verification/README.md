# Engine control kernel: a verified model

A Dafny model of the parts of an engine control unit's kernel and client code that carry
state from call to call, and proofs of what they keep. `dafny verify dfyconfig.toml` checks all
of it.

| file | part of the program |
|---|---|
| `ByteQueue.dfy` | the circular byte queues of the data-link layer |
| `CanLink.dfy` | the CAN transmit path: expansion of a response, queueing, transmission |
| `PackedLink.dfy` | the packed UART link: ten bytes in twelve, and the receiver |
| `WorkBuffers.dfy` | the pool of transmit work buffers |
| `TaskQueue.dfy` | the intrusive task lists: push and in-place sort |
| `Kernel.dfy` | start-up, drain loop, tick scheduler, dispatcher, adding tasks, on the queues' contents |
| `KernelLists.dfy` | the same on the linked lists |
| `Stepper.dfy` | the idle air stepper |
| `Filters.dfy` | the two single-pole filters |
| `DiscardAverage.dfy` | the two discard-and-average functions |
| `Limiters.dfy` | the battery and throttle limiters, with their filters |
| `Words.dfy`, `Arithmetic.dfy` | machine words, bytes, and facts about products |

Most parts come in two layers. A value layer says what a step does to the state seen as a value
(a FIFO, a record stream, the tasks on each queue, the stepper's registers), and its lemmas are
about all runs of such steps. A class or a set of methods has the program's own fields, loops,
in-place copies and pointer writes, and its contracts say that it takes exactly those steps.
Words are bounded integers; where the program's arithmetic can wrap, the model wraps, and lemmas
say when it does not.

The value layer does not have to be taken on trust: lemmas named `...InPlain` (and contracts that
repeat them) say in numbers what its functions compute, without naming other functions.

## Where the code differs from what it is for

Each of these is kept as the code has it, with a lemma that says exactly when it matters.

* The length bits of an expanded CAN header are always 7, because the byte counter they are
  computed from has run down to 0. The sender ignores them and takes the length from the number of
  bytes dequeued, so a short record with anything queued behind it is sent too long
  (`CanLink.BoundariesSurviveIff`, `CanLink.MessagesArriveIff`).
* A release of a work buffer scans the CAN and USB buffers with the UART stride. Releasing the second
  CAN buffer frees nothing (`WorkBuffers.ReleaseFreesItsSlot`, `WorkBuffers.CanLosesABuffer`).
* Tasks that a running task pushes onto the queue being drained are lost
  (`Kernel.PushesSurviveIff`).
* The client's cyclic slots are found by counts alone, which is right only if they are contiguous
  with as many terminate slots before them as start slots behind (`Kernel.WindowIsCyclicIff`,
  `Kernel.WindowMissesTheCyclic`).
* The tick counter stands still at 2^32 - 1. From then on a task whose rate divides that number
  runs on every tick, and any other never again (`Kernel.TasksRunAtTheirRate`,
  `Kernel.RateKeptIff`, `Kernel.FullCounterStopsOrFloods`).
* Unpacking clears the top bit of the last byte (`PackedLink.PackIsLosslessIff`).
* Homing never ends for home steps that are a multiple of 2^30 (`Stepper.HomingNeverEndsIff`).
* The rounds of discard-and-average each take the next smaller deviation, so of equal deviations
  only one is discarded, and a signed deviation of INT_MAX is passed over
  (`DiscardAverage.FurthestIff`, `DiscardAverage.EarlyTieSpoilsIt`,
  `DiscardAverage.FullDeviationIsPassedOver`).
* The battery limiter sets values above 2^31 - 1 to 0 (`Limiters.BatteryStaysBetweenIff`).

## Model

| member | source | states |
|---|---|---|
| `ByteQueues.Fifo.RunConserves` | ECUHost Atmel Kernel/KernelServices/DLL.c:766-849 | over any run of queue and dequeue calls, bytes held at the start plus bytes accepted are exactly the bytes handed out plus the bytes held at the end, in order, and the capacity is never exceeded |
| `ByteQueues.Fifo.EnqueueIffFits` | ECUHost Atmel Kernel/KernelServices/DLL.c:774-823 | after any run, bytes are taken over exactly if bytes held at the start plus bytes accepted less bytes handed out plus their own number is within the capacity |
| `ByteQueues.RingAppend` | ECUHost Atmel Kernel/KernelServices/DLL.c:795-823 | bytes laid behind the tail, around the end of the buffer if need be, are appended to what the ring stands for |
| `ByteQueues.RingTake` | ECUHost Atmel Kernel/KernelServices/DLL.c:825-849 | bytes read from the head on, following the wrap, are the oldest ones held |
| `ByteQueues.RingDrop` | ECUHost Atmel Kernel/KernelServices/DLL.c:848 | moving the head on drops exactly the oldest bytes |
| `ByteQueues.ByteQueue.constructor` | ECUHost Atmel Kernel/KernelServices/DLL.c:766-772 | an empty ring holds one byte less than its size |
| `ByteQueues.ByteQueue.VacantCount` | ECUHost Atmel Kernel/KernelServices/DLL.c:774-788 | vacant plus queued is the size less one, wherever head and tail are |
| `ByteQueues.ByteQueue.QueuedCount` | ECUHost Atmel Kernel/KernelServices/DLL.c:790-793 | the number of bytes the ring stands for |
| `ByteQueues.ByteQueue.CopyIn` | ECUHost Atmel Kernel/KernelServices/DLL.c:795-818 | the one or two copies fill the slots behind the tail and leave every held byte alone |
| `ByteQueues.ByteQueue.CopyOut` | ECUHost Atmel Kernel/KernelServices/DLL.c:825-846 | the one or two copies read the slots from the head on and leave the rest of the destination alone |
| `ByteQueues.ByteQueue.QueueBytes` | ECUHost Atmel Kernel/KernelServices/DLL.c:795-823 | appends all bytes exactly if the bytes held and these are together at most the size less one, otherwise refuses and changes nothing |
| `ByteQueues.ByteQueue.DequeueBytes` | ECUHost Atmel Kernel/KernelServices/DLL.c:825-849 | hands out exactly the first min(limit, held) bytes, and keeps the others |
| `CanLink.HeaderKeepsId` | ECUHost Atmel Kernel/KernelServices/DLL.c:649-652 | whatever the length bits, the low 29 identifier bits survive a record header |
| `CanLink.DecodeInPlain` | ECUHost Atmel Kernel/KernelServices/DLL.c:646-661 | the identifier is the low five bits of byte 0 and bytes 1 to 3, the high data word bytes 4 to 7, the low one bytes 8 to 11, most significant first; the length is the number of bytes less four |
| `CanLink.EncodeInPlain` | ECUHost Atmel Kernel/KernelServices/DLL.c:702-718 | the twelve bytes of a message as quotients and remainders: length bits above the identifier, then the high data word, then the low one |
| `CanLink.ResponseHeaderInPlain` | ECUHost Atmel Kernel/KernelServices/DLL.c:1001-1005 | the four header bytes of a response frame, length bits all set, as quotients and remainders of the identifier |
| `CanLink.DecodeRecord` | ECUHost Atmel Kernel/KernelServices/DLL.c:646-661 | a record of at most eight data bytes is decoded to its identifier, its length and its data, whatever the work buffer held behind it |
| `CanLink.ExpandAt` | ECUHost Atmel Kernel/KernelServices/DLL.c:962-1011 | byte 8f + k of a response lands at 12f + 4 + k of its expansion, behind the header of frame f |
| `CanLink.MoveUp` | ECUHost Atmel Kernel/KernelServices/DLL.c:995-999 | the overlapping move copies last byte first, so no byte is overwritten before it was read |
| `CanLink.WriteHeader` | ECUHost Atmel Kernel/KernelServices/DLL.c:1001-1005 | the four bytes written before a frame are its header; the rest of the buffer is untouched |
| `CanLink.EmitFrame` | ECUHost Atmel Kernel/KernelServices/DLL.c:976-1008 | one turn of the expansion loop completes one record from behind |
| `CanLink.InsertCanIdAndDlc` | ECUHost Atmel Kernel/KernelServices/DLL.c:962-1011 | expands a response in place, given n + 4 ceil(n / 8) bytes of room, and returns the new length |
| `CanLink.LengthBits` | ECUHost Atmel Kernel/KernelServices/DLL.c:704 | the length bits of a queued message are its length less one, modulo eight |
| `CanLink.FullRecordRoundTrip` | ECUHost Atmel Kernel/KernelServices/DLL.c:649-661 | a full message queued as a record is decoded to itself, but for the top three identifier bits |
| `CanLink.SubmitKeepsOrder` | ECUHost Atmel Kernel/KernelServices/DLL.c:700-733 | accepting or refusing a full message keeps sent and queued in order |
| `CanLink.TickKeepsOrder` | ECUHost Atmel Kernel/KernelServices/DLL.c:380-420 | a transmit step sends the next accepted message if there is one |
| `CanLink.RunKeepsOrder` | ECUHost Atmel Kernel/KernelServices/DLL.c:380-420 | over any interleaving of full messages and transmit steps the messages sent are a prefix of those accepted, and the queue holds exactly the records of the others |
| `CanLink.DeliveredFrames` | ECUHost Atmel Kernel/KernelServices/DLL.c:646-661 | messages that deliver a response are ceil(n / 8) in number, and each carries its own share of it |
| `CanLink.FirstFrame` | ECUHost Atmel Kernel/KernelServices/DLL.c:388-414 | one transmit step on an expanded response sends its first frame and leaves the expansion of the rest |
| `CanLink.ResponseLeaves` | ECUHost Atmel Kernel/KernelServices/DLL.c:380-420 | enough transmit steps send an expanded response completely and in order, whatever the work buffers held |
| `CanLink.ResponseArrives` | ECUHost Atmel Kernel/KernelServices/DLL.c:962-1011 | end to end: a response that fits is expanded, queued and drained as exactly ceil(n / 8) messages; message f carries the low 29 identifier bits, min(8, n - 8f) bytes, and the original bytes from 8f on, of a full frame the first four as the high data word and the last four as the low one |
| `CanLink.BoundariesSurviveIff` | ECUHost Atmel Kernel/KernelServices/DLL.c:700-733 | records queued together are cut apart again at their boundaries exactly if only the last message is shorter than eight bytes |
| `CanLink.TicksSendCuts` | ECUHost Atmel Kernel/KernelServices/DLL.c:388-414 | each transmit step sends one cut of at most twelve bytes: its size less four becomes the length, its bytes the identifier and data |
| `CanLink.ShortMessageGrows` | ECUHost Atmel Kernel/KernelServices/DLL.c:661 | a short message with another behind it is sent with too great a length |
| `CanLink.RecordShows` | ECUHost Atmel Kernel/KernelServices/DLL.c:646-661 | a record of any length is sent as its message: low 29 identifier bits, length and data, whatever the work buffer held behind it |
| `CanLink.PoliteRunsFlow` | ECUHost Atmel Kernel/KernelServices/DLL.c:380-420 | over any interleaving of messages of up to eight bytes with transmit steps in which none is accepted while the queue is not a whole number of records, the messages sent are a prefix of those accepted and the others are queued |
| `CanLink.MessagesArriveIff` | ECUHost Atmel Kernel/KernelServices/DLL.c:380-420 | over any such interleaving that ends with the queue drained, every accepted message was sent as itself and in order exactly if none was accepted while the queue was not a whole number of records |
| `CanLink.CanChannel.Layout` | ECUHost Atmel Kernel/KernelServices/DLL.c:702-718 | the twelve bytes built for a message, one by one: length bits and identifier, the high data word, the low data word |
| `CanLink.CanChannel.QueueMessage` | ECUHost Atmel Kernel/KernelServices/DLL.c:700-723 | queues the first dlc + 4 of these bytes exactly if they fit the size less one, and otherwise nothing |
| `CanLink.CanChannel.QueueResponse` | ECUHost Atmel Kernel/KernelServices/DLL.c:189-194 | expands a response in the work buffer and queues all n + 4 ceil(n / 8) bytes exactly if they fit, otherwise nothing |
| `CanLink.CanChannel.Transmit` | ECUHost Atmel Kernel/KernelServices/DLL.c:388-414 | nothing without a work buffer or queued bytes; otherwise min(12, queued) bytes leave, and the driver is handed the length, identifier and both data words that they and the buffer spell |
| `PackedLink.PackRoundTrip` | ECUHost Atmel Kernel/KernelServices/PACKEDDLL.c:16-53 | unpacking a packed payload gives it back but for the top bit of its last byte |
| `PackedLink.PackIsLosslessIff` | ECUHost Atmel Kernel/KernelServices/PACKEDDLL.c:27 | a payload survives exactly if its last byte is below 0x80 |
| `PackedLink.FrameCarriesAllBits` | ECUHost Atmel Kernel/KernelServices/PACKEDDLL.c:31-53 | the twelve bytes carry the 80 payload bits in order, in pieces of 4, ten times 7, and 6 bits, the one that unpacking clears included |
| `PackedLink.UnpackReadsAllBits` | ECUHost Atmel Kernel/KernelServices/PACKEDDLL.c:16-29 | unpacking a frame with an end marker and inner bytes below 0x80 reads its payload bits in order and clears bit 7 of the last byte |
| `PackedLink.PackedIsWellMarked` | ECUHost Atmel Kernel/KernelServices/PACKEDDLL.c:40-51 | a frame starts with a start marker, ends with an end marker, and has neither in between |
| `PackedLink.RxInPlain` | ECUHost Atmel Kernel/KernelServices/DLL.c:512-580 | a byte from 0xc0 on goes to the front of the receive buffer, any other behind the last one; only a twelfth byte from 0x80 to 0xbf delivers |
| `PackedLink.Pack` | ECUHost Atmel Kernel/KernelServices/PACKEDDLL.c:31-53 | packing in place: every byte is read before it is overwritten, and nothing behind the frame changes |
| `PackedLink.PackShifted` | ECUHost Atmel Kernel/KernelServices/PACKEDDLL.c:40-51 | the overwriting half of packing, on bytes shifted up by two |
| `PackedLink.Unpack` | ECUHost Atmel Kernel/KernelServices/PACKEDDLL.c:16-29 | unpacking in place; nothing behind the payload changes |
| `PackedLink.TakesByte` | ECUHost Atmel Kernel/KernelServices/DLL.c:523-541 | a receiver that holds the first k bytes of a frame takes the next one, and delivers on the twelfth |
| `PackedLink.TakesFrame` | ECUHost Atmel Kernel/KernelServices/DLL.c:512-580 | from the k-th byte on a frame delivers its payload once, on its last byte |
| `PackedLink.StreamConcat` | ECUHost Atmel Kernel/KernelServices/DLL.c:512-580 | deliveries of a concatenated stream are those of its parts |
| `PackedLink.SelfSynchronises` | ECUHost Atmel Kernel/KernelServices/DLL.c:512-580 | from every receiver state any concatenation of packed frames delivers exactly its payloads in order, each on the twelfth byte of its frame |
| `PackedLink.Receiver.ReceiveByte` | ECUHost Atmel Kernel/KernelServices/DLL.c:512-580 | one byte takes one step of the receiver; it delivers exactly if it is the twelfth and from 0x80 to 0xbf |
| `WorkBuffers.BuffersAreDisjoint` | ECUHost Atmel Kernel/KernelServices/DLL.c:48-56 | work buffers lie inside their kind's array and are pairwise disjoint |
| `WorkBuffers.BuffersInPlain` | ECUHost Atmel Kernel/KernelServices/DLL.c:48-53 | where the ten buffers are, and the six buffer sizes, in numbers |
| `WorkBuffers.ClaimsInPlain` | ECUHost Atmel Kernel/KernelServices/DLL.c:1013-1145 | the address ranges a release takes for each of the ten slots, in numbers |
| `WorkBuffers.TakenInPlain` | ECUHost Atmel Kernel/KernelServices/DLL.c:851-960 | the slot a request gets: the first free one of slots 0 and 1, 2 and 3, 4 and 5, 6 and 7, or slot 8, or 9 |
| `WorkBuffers.ClaimsOf` | ECUHost Atmel Kernel/KernelServices/DLL.c:1013-1145 | no address is claimed by two slots, and a buffer's address by its own slot alone, or by none for the second CAN buffer |
| `WorkBuffers.ReleaseClears` | ECUHost Atmel Kernel/KernelServices/DLL.c:1013-1145 | for any address, a release clears exactly the slots whose scan range contains it |
| `WorkBuffers.ReleaseFreesItsSlot` | ECUHost Atmel Kernel/KernelServices/DLL.c:1077-1096 | releasing a buffer frees its slot and no other, except that the second CAN buffer stays taken |
| `WorkBuffers.RunKeepsExact` | ECUHost Atmel Kernel/KernelServices/DLL.c:851-960 | over any run the client array says exactly which buffers are held, or lost |
| `WorkBuffers.RequestsAreAnswered` | ECUHost Atmel Kernel/KernelServices/DLL.c:851-960 | over any run a request is refused exactly when all buffers of its kind are held, for CAN when the first is held and the second was ever handed out, and a granted buffer overlaps none that is held |
| `WorkBuffers.CanLosesABuffer` | ECUHost Atmel Kernel/KernelServices/DLL.c:1085 | once the second CAN buffer was handed out CAN has one buffer for good |
| `WorkBuffers.TwoClientsAreEnough` | ECUHost Atmel Kernel/KernelServices/DLL.c:1085 | two requests at once hand out the second CAN buffer |
| `WorkBuffers.WorkBufferPool.constructor` | ECUHost Atmel Kernel/KernelServices/DLL.c:351-355 | all buffers start free |
| `WorkBuffers.WorkBufferPool.Get` | ECUHost Atmel Kernel/KernelServices/DLL.c:851-960 | marks and returns the first free buffer of the kind, or returns none; the capacity is 16, 24, 256 or 1024 by kind, and 0 for anything else |
| `WorkBuffers.WorkBufferPool.ReleaseKind` | ECUHost Atmel Kernel/KernelServices/DLL.c:1066-1075 | one of the six scans: clears the slots of a kind that claim the address and says whether there were any |
| `WorkBuffers.WorkBufferPool.Release` | ECUHost Atmel Kernel/KernelServices/DLL.c:1013-1145 | tries the kinds in order and stops behind the first that it hits |
| `TaskQueues.SwapKeepsPriorities` | ECUHost Atmel Kernel/OS.c:253-265 | exchanging two neighbours of different priority keeps each priority's nodes in order |
| `TaskQueues.StablySortedIsPermutation` | ECUHost Atmel Kernel/OS.c:227-278 | a stable order by priority neither loses nor repeats a node |
| `TaskQueues.StableOrderKeepsPairs` | ECUHost Atmel Kernel/OS.c:253-265 | of two nodes of equal priority the one in front stays in front |
| `TaskQueues.StableOrderIsUnique` | ECUHost Atmel Kernel/OS.c:227-278 | there is only one stable order, so the result of the sort is determined |
| `TaskQueues.QueueTask` | ECUHost Atmel Kernel/KernelServices/tqueue.c:20-24 | a node that is on no list is pushed in front and the list stays acyclic and null-terminated |
| `TaskQueues.Relink` | ECUHost Atmel Kernel/OS.c:255-265 | three pointer writes exchange two neighbours; for the first pair the one through the head pointer |
| `TaskQueues.BubbleStep` | ECUHost Atmel Kernel/OS.c:253-275 | one comparison keeps the list linked, each priority in order, and the largest node so far in hand |
| `TaskQueues.BubblePass` | ECUHost Atmel Kernel/OS.c:247-276 | one pass carries the largest unsorted node to its place |
| `TaskQueues.PrioritiseQueue` | ECUHost Atmel Kernel/OS.c:227-278 | leaves an acyclic, null-terminated list of the same nodes by ascending priority, equal priorities in their original order, without following a null pointer |
| `Kernel.DrainRuns` | ECUHost Atmel Kernel/KernelServices/tqueue.c:29-48 | whatever the running tasks ask for, a drain runs exactly the queued tasks once each in order and empties the queue; pushes onto other queues survive |
| `Kernel.PushesSurviveIff` | ECUHost Atmel Kernel/KernelServices/tqueue.c:44 | pushes made during a drain survive exactly if they go to another queue, or there are none |
| `Kernel.SortedNodesAreInStartOrder` | ECUHost Atmel Kernel/OS.c:227-278 | sorted nodes hold their tasks in start order |
| `Kernel.StartOrderIsPermutation` | ECUHost Atmel Kernel/OS.c:107-123 | start order neither drops nor repeats a task |
| `Kernel.BootRunsStartTasks` | ECUHost Atmel Kernel/OS.c:107-123 | every start task runs exactly once, by ascending priority, ties in reverse table order, then the client start tasks asked for; both start queues end empty, and what was asked for on the other queues is there |
| `Kernel.TickRunsDueTasks` | ECUHost Atmel Kernel/OS.c:155-198 | whatever the tasks ask for, a tick and its dispatch run exactly the cyclic slots whose rate divides the counter, once each in reverse slot order, in front of the client's those that the kernel's asked for; both queues end drained and requests for the other queues are there |
| `Kernel.QuietTickRunsDueTasks` | ECUHost Atmel Kernel/OS.c:155-198 | with tasks that ask for nothing, nothing else changes |
| `Kernel.DueAppend` | ECUHost Atmel Kernel/OS.c:158-170 | another slot adds its task behind the due ones exactly if its rate divides the counter |
| `Kernel.CounterSaturates` | ECUHost Atmel Kernel/KernelServices/timer.c:43-46 | n ticks leave the counter n higher, but at most full |
| `Kernel.TasksRunAtTheirRate` | ECUHost Atmel Kernel/KernelServices/timer.c:43-46 | over n ticks from counter c a task of rate r runs, for each slot that holds it, floor(b / r) - floor(c / r) times up to the counter b at the end, and once the counter is full on every tick if r divides 2^32 - 1 and never otherwise |
| `Kernel.MetInPlain` | ECUHost Atmel Kernel/KernelServices/timer.c:43-46 | that number without a full counter: floor((c + n) / r) - floor(c / r); with one: up to 2^32 - 1, plus the c + n - (2^32 - 1) ticks behind it if r divides that |
| `Kernel.RateKeptIff` | ECUHost Atmel Kernel/KernelServices/timer.c:43-46 | that is floor((c + n) / r) - floor(c / r) exactly while the counter is not full, or for rate 1, or until the first multiple behind 2^32 - 1 if that is none itself |
| `Kernel.FullCounterStopsOrFloods` | ECUHost Atmel Kernel/KernelServices/timer.c:43-46 | once the counter is full a task of rate 20 never runs again and one of rate 5 runs on every tick |
| `Kernel.AddKeepsCount` | ECUHost Atmel Kernel/OS.c:347-390 | the client counters always count what the pool was filled with |
| `Kernel.AddInPlain` | ECUHost Atmel Kernel/OS.c:347-390 | with fewer than 35 slots filled a request for queue 4, 5 or 7 takes one, its task goes first on that queue and only its counter goes up; any other request changes nothing |
| `Kernel.AddAllFills` | ECUHost Atmel Kernel/OS.c:347-390 | over any sequence of requests the pool is what it was followed by the client requests in order, up to 35 |
| `Kernel.DrainFills` | ECUHost Atmel Kernel/KernelServices/tqueue.c:29-48 | over a drain the pool is what it was followed by the client requests of all tasks run, in the order they run, up to 35 |
| `Kernel.DrainKeepsCount` | ECUHost Atmel Kernel/KernelServices/tqueue.c:29-48 | so over any drain, whatever the tasks ask for |
| `Kernel.DispatchRests` | ECUHost Atmel Kernel/OS.c:188-195 | after a dispatch both cyclic queues are drained |
| `Kernel.WindowIsCyclic` | ECUHost Atmel Kernel/OS.c:173 | filled start, cyclic, terminate, the pool slots the scheduler looks at are exactly the cyclic ones |
| `Kernel.WindowIsCyclicIff` | ECUHost Atmel Kernel/OS.c:173 | for any pool: the slots the scheduler looks at are exactly the cyclic ones if and only if there is no cyclic task, or the cyclic slots are contiguous with as many terminate slots before them as start slots behind |
| `Kernel.WindowMissesTheCyclic` | ECUHost Atmel Kernel/OS.c:173 | a start task behind a cyclic one, or a terminate task before it, make them differ; both together do not |
| `KernelLists.TaskKernel.constructor` | ECUHost Atmel Kernel/OS.c:81-105 | a kernel with empty queues and pools meets the invariant of its lists |
| `KernelLists.TaskKernel.Push` | ECUHost Atmel Kernel/KernelServices/tqueue.c:20-24 | pushing onto one list leaves all others linked as they were |
| `KernelLists.TaskKernel.AddTask` | ECUHost Atmel Kernel/OS.c:347-390 | with fewer than 35 slots filled takes the next one for a request for queue 4, 5 or 7, pushes its task in front and counts it; ignores other queue numbers, and refuses when the pool is full |
| `KernelLists.TaskKernel.RunNext` | ECUHost Atmel Kernel/KernelServices/tqueue.c:36-46 | one turn of the drain loop, with any requests made by the running task |
| `KernelLists.TaskKernel.RunQueue` | ECUHost Atmel Kernel/KernelServices/tqueue.c:29-48 | the drain loop computes the drain above; every node it ran is unlinked |
| `KernelLists.TaskKernel.Prioritise` | ECUHost Atmel Kernel/OS.c:227-278 | the sort on one of the kernel's lists, the others untouched |
| `KernelLists.TaskKernel.RunStartTasks` | ECUHost Atmel Kernel/OS.c:107-123 | queueing the start table, sorting and draining it, and draining the client's start queue computes the boot above |
| `KernelLists.TaskKernel.FillCyclic` | ECUHost Atmel Kernel/OS.c:127-132 | the cyclic table fills distinct pool nodes, none of them queued |
| `KernelLists.TaskKernel.Start` | ECUHost Atmel Kernel/OS.c:81-147 | the task part of start-up, for tables of together less than 256 entries, as its loops count in 8 bits |
| `KernelLists.TaskKernel.ClientWindowIsCyclic` | ECUHost Atmel Kernel/OS.c:173 | where the window is exact, the nodes the scheduler looks at hold exactly the accepted cyclic tasks |
| `KernelLists.TaskKernel.PushDue` | ECUHost Atmel Kernel/OS.c:158-170 | one of the scheduler's loops pushes exactly the slots whose rate divides the counter |
| `KernelLists.TaskKernel.DrainedIsReady` | ECUHost Atmel Kernel/OS.c:155-186 | with both cyclic queues drained and an exact window no slot of the scheduler is on a list, so it may run |
| `KernelLists.TaskKernel.Schedule` | ECUHost Atmel Kernel/OS.c:155-186 | both loops of the scheduler, at the timer's counter |
| `KernelLists.TaskKernel.Dispatch` | ECUHost Atmel Kernel/OS.c:188-195 | both drains of the dispatcher, from any state, whatever the tasks ask for |
| `KernelLists.TickTimer.Run` | ECUHost Atmel Kernel/KernelServices/timer.c:43-46 | the counter goes up by one if it is below 2^32 - 1, and stays otherwise |
| `KernelLists.TaskKernel.TickAndDispatch` | ECUHost Atmel Kernel/System/IRQHA.c:209-224 | a tick, from the timer to the dispatch, whatever the tasks ask for; the kernel is ready for the next one if they left the window exact |
| `KernelLists.TaskKernel.QuietTick` | ECUHost Atmel Kernel/OS.c:155-198 | with tasks that ask for nothing it is, with the same nodes and window |
| `KernelLists.TaskKernel.RunTicks` | ECUHost Atmel Kernel/OS.c:155-198 | n ticks in a row on the lists are the n ticks of the rate theorem |
| `KernelLists.TaskKernel.StartUp` | ECUHost Atmel Kernel/OS.c:81-198 | start-up and the first dispatch leave both cyclic queues drained, and the kernel ready for ticks if the tasks filled the pool well |
| `KernelLists.PowerUp` | ECUHost Atmel Kernel/OS.c:81-198 | a new kernel over start-up, the first dispatch and n ticks |
| `Stepper.OpenNormFalls` | ECUHost Atmel Kernel/Client/IAC.c:560-571 | the open-loop target lies in 50 to 255 and never rises with temperature |
| `Stepper.OpenNormInPlain` | ECUHost Atmel Kernel/Client/IAC.c:330-339 | the open-loop target n for temperature t: 255 up to 0, 50 from 100000 on, and between them 100000 n <= 25500000 - 205 t < 100000 (n + 1) |
| `Stepper.StepsBounded` | ECUHost Atmel Kernel/Client/IAC.c:481 | a normalised target of at most 255 scales, without wrapping, to at most 255 * cold / 256 steps |
| `Stepper.RetargetBounds` | ECUHost Atmel Kernel/Client/IAC.c:365-479 | open or closed loop, the normalised target stays within 0 to 255 and the current sequence and the feedback are left alone |
| `Stepper.ClosedLoopSlews` | ECUHost Atmel Kernel/Client/IAC.c:376-479 | in closed loop a sequence changes the normalised target by at most one, up only if the engine is more than 60 too slow and no further than the open-loop target, down only if it is more than 60 too fast |
| `Stepper.OpenLoopInPlain` | ECUHost Atmel Kernel/Client/IAC.c:356-371 | an open-loop sequence takes over exactly that target and restarts the learning count |
| `Stepper.TooSlowInPlain` | ECUHost Atmel Kernel/Client/IAC.c:379-391 | more than 60 too slow: exactly every fourth such sequence raises the target by one, while it is below the open-loop target |
| `Stepper.TooFastInPlain` | ECUHost Atmel Kernel/Client/IAC.c:379-446 | more than 60 too fast: the target falls by one on exactly every 8th, 16th or 64th such sequence, by the speed error and the learned minimum; with no hot steps calibrated the step count is lowered every 16th time |
| `Stepper.OnTargetInPlain` | ECUHost Atmel Kernel/Client/IAC.c:448-478 | within 60: the target stays, and on exactly every 400th sequence the learned minimum moves to the feedback or towards it |
| `Stepper.AimInPlain` | ECUHost Atmel Kernel/Client/IAC.c:481-505 | a sequence of four phases begins exactly if the scaled target is at least two steps away, in its direction |
| `Stepper.HomeInPlain` | ECUHost Atmel Kernel/Client/IAC.c:311-352 | what the start and the end of homing set each variable to, in numbers |
| `Stepper.DecideKeepsTrack` | ECUHost Atmel Kernel/Client/IAC.c:311-506 | the deciding part of a call keeps the account of phases |
| `Stepper.HomeDone` | ECUHost Atmel Kernel/Client/IAC.c:327-352 | at the end of homing the valve is opened in one go, exactly to its target |
| `Stepper.ApproachStep` | ECUHost Atmel Kernel/Client/IAC.c:543-555 | at the last phase of a sequence the feedback steps in the direction of the sequence |
| `Stepper.EmitKeepsTrack` | ECUHost Atmel Kernel/Client/IAC.c:508-556 | the emitting part of a call keeps the account of phases |
| `Stepper.RunKeepsTrack` | ECUHost Atmel Kernel/Client/IAC.c:309-557 | over every run |
| `Stepper.DeadReckoning` | ECUHost Atmel Kernel/Client/IAC.c:309-557 | over every run: whole four-phase sequences only, homing is 4 * HomeSteps modulo 2^32 closing phases and no others, and afterwards the feedback is completed opens less completed closes, at most 255 * cold / 256 |
| `Stepper.HomingEnds` | ECUHost Atmel Kernel/Client/IAC.c:311-352 | homing emits one closing phase a call, 4 * HomeSteps modulo 2^32 in all, and ends with the next call exactly if that is not 0 |
| `Stepper.HomingNeverEndsIff` | ECUHost Atmel Kernel/Client/IAC.c:319 | it never ends exactly if HomeSteps is a multiple of 2^30 |
| `Stepper.CruiseStep` | ECUHost Atmel Kernel/Client/IAC.c:481-556 | one open-loop call emits the next phase towards the target or, at most one step away, none |
| `Stepper.Converges` | ECUHost Atmel Kernel/Client/IAC.c:481-556 | in open loop at constant temperature the distance to n * cold / 256, n the open-loop target above, falls by one every four calls until it is at most one; from then on no phase is emitted |
| `Stepper.FromReset` | ECUHost Atmel Kernel/Client/IAC.c:309-557 | from reset in open loop at constant temperature: 4 * HomeSteps modulo 2^32 closing phases, then exactly four opening phases for each of n * cold / 256 steps, n the open-loop target above, then none, and the feedback is their number divided by four |
| `Stepper.IdleStepper.constructor` | ECUHost Atmel Kernel/Client/IAC.c:61-67 | the state at start |
| `Stepper.IdleStepper.RunHoming` | ECUHost Atmel Kernel/Client/IAC.c:311-353 | the homing branch |
| `Stepper.IdleStepper.LowerTarget` | ECUHost Atmel Kernel/Client/IAC.c:393-446 | the eight branches that lower the target come down to one condition |
| `Stepper.IdleStepper.LearnMinimum` | ECUHost Atmel Kernel/Client/IAC.c:448-478 | the learned minimum at the end of 400 calm sequences |
| `Stepper.IdleStepper.NextSequence` | ECUHost Atmel Kernel/Client/IAC.c:354-506 | retargets and begins a sequence if the target is more than one step away |
| `Stepper.IdleStepper.EmitPhase` | ECUHost Atmel Kernel/Client/IAC.c:508-556 | emits the phase at the counter and moves the feedback at the end of a sequence |
| `Stepper.IdleStepper.Run` | ECUHost Atmel Kernel/Client/IAC.c:309-557 | a call takes one step of the machine if the stepper is enabled; after homing, and for every open-loop sequence, the target is the open-loop one above |
| `Filters.AtMostTop` | ECUHost Atmel Kernel/Client/USERMATH.c:65-67 | a decay step from below never passes the greatest fixed point, and stands still exactly at fixed points |
| `Filters.AtLeastTop` | ECUHost Atmel Kernel/Client/USERMATH.c:65-67 | a decay step from above never passes the greatest fixed point, and stands still only there |
| `Filters.DecaySettles` | ECUHost Atmel Kernel/Client/USERMATH.c:65-67 | iterated decay is monotone and stands still after as many steps as it starts away from the greatest fixed point |
| `Filters.Filter16IsDecay` | ECUHost Atmel Kernel/Client/USERMATH.c:62-70 | samples up to m keep an accumulator of at most 256 m there, and nothing wraps |
| `Filters.Filter16InPlain` | ECUHost Atmel Kernel/Client/USERMATH.c:62-70 | the accumulator less weight times the sample is (256 - weight) / 256 of the old one, rounded down |
| `Filters.Run16StaysBelow` | ECUHost Atmel Kernel/Client/USERMATH.c:62-70 | so over every run of samples and weights |
| `Filters.Filter16Settles` | ECUHost Atmel Kernel/Client/USERMATH.c:62-70 | under a constant sample x the accumulator settles monotonically, from above at exactly 256 x, from below at a p with 0 <= weight * (256 x - p) < 256 |
| `Filters.ShareBelow` | ECUHost Atmel Kernel/Client/USERMATH.c:84-92 | 256 shares are at most the weighted value, for every 32-bit value |
| `Filters.ShareByShift` | ECUHost Atmel Kernel/Client/USERMATH.c:78-96 | halving to 24 bits, weighing and shifting back computes the share and wraps nowhere |
| `Filters.ShareInPlain` | ECUHost Atmel Kernel/Client/USERMATH.c:78-96 | from 2^24 on: with p the power of two for which x / p has 24 bits, the share is part * (x / p) / 256 * p |
| `Filters.Filter32Below` | ECUHost Atmel Kernel/Client/USERMATH.c:72-101 | for all inputs no sum wraps and the result is at most the larger of old and new |
| `Filters.Filter32IsDecay` | ECUHost Atmel Kernel/Client/USERMATH.c:78-98 | below 2^24 the result is (256 - weight) * old / 256 + weight * new / 256, each rounded down |
| `Filters.FixedIsClose` | ECUHost Atmel Kernel/Client/USERMATH.c:88-98 | where the filter stands still it is below the input by less than 512 / weight |
| `Filters.Filter32Settles` | ECUHost Atmel Kernel/Client/USERMATH.c:72-101 | for constant input and start below 2^24 the filter settles monotonically at a y <= c with weight * (c - y) < 512 |
| `Filters.FilterValue.LowPass16` | ECUHost Atmel Kernel/Client/USERMATH.c:62-70 | the accumulator is updated in place by the formula in 32-bit words; its low 16 bits are returned |
| `Filters.FilterValue.LowPass32` | ECUHost Atmel Kernel/Client/USERMATH.c:72-101 | the loops and 32-bit operations compute the filter above |
| `DiscardAverage.ScanFinds` | ECUHost Atmel Kernel/Client/USERMATH.c:126-138 | a round finds the last of the largest deviations below the bound, or keeps the index it had |
| `DiscardAverage.FurthestIff` | ECUHost Atmel Kernel/Client/USERMATH.c:124-143 | with no deviation above the first bound, the d rounds choose d different samples of largest deviation exactly if equal deviations occur only behind d - 1 larger ones and none is at the bound, or d is 0, or d is 1 and all are at the bound |
| `DiscardAverage.FewTies` | ECUHost Atmel Kernel/Client/USERMATH.c:124-143 | the condition on ties holds for d <= 1 and for pairwise different deviations |
| `DiscardAverage.PickedLeavesRest` | ECUHost Atmel Kernel/Client/USERMATH.c:140 | subtracting different samples leaves the sum of the others |
| `DiscardAverage.Discard32ChoosesFurthest` | ECUHost Atmel Kernel/Client/USERMATH.c:103-149 | the same for unsigned samples whose sum does not overflow |
| `DiscardAverage.Discard32IsMeanOfRest` | ECUHost Atmel Kernel/Client/USERMATH.c:103-149 | where different samples are discarded the result is the integer mean of the others |
| `DiscardAverage.Discard32IsRobust` | ECUHost Atmel Kernel/Client/USERMATH.c:103-149 | both together, from the condition on ties alone |
| `DiscardAverage.EarlyTieSpoilsIt` | ECUHost Atmel Kernel/Client/USERMATH.c:124-145 | of 0, 10, 5, 5 two are to go: 10 and 5 do, and 2 is returned in place of 5 |
| `DiscardAverage.QuotientFitsS32` | ECUHost Atmel Kernel/Client/USERMATH.c:190 | without overflow the signed quotient q of s by b = n - d has |b q| <= |s| < |b q| + b and the sign of s or is 0 |
| `DiscardAverage.MeanS32IsMean` | ECUHost Atmel Kernel/Client/USERMATH.c:162-167 | without overflow the signed mean is the sum over the number of samples, truncated towards zero in that sense |
| `DiscardAverage.DiscardS32ChoosesFurthest` | ECUHost Atmel Kernel/Client/USERMATH.c:151-193 | the choice for signed samples whose differences do not overflow, a deviation of INT_MAX included |
| `DiscardAverage.DiscardS32IsMeanOfRest` | ECUHost Atmel Kernel/Client/USERMATH.c:185-190 | where different samples are discarded the signed result is the quotient of the sum of the others |
| `DiscardAverage.DiscardS32IsRobust` | ECUHost Atmel Kernel/Client/USERMATH.c:151-193 | with late ties, no deviation of INT_MAX and no overflow it is the mean of all but the d furthest samples, truncated towards zero in that sense |
| `DiscardAverage.FullDeviationIsPassedOver` | ECUHost Atmel Kernel/Client/USERMATH.c:168-183 | of three samples, two with a deviation of INT_MAX, the third is discarded |
| `DiscardAverage.TruncDivInPlain` | ECUHost Atmel Kernel/Client/USERMATH.c:190 | the quotient q of a sum s by b: |b q| <= |s| < |b q| + b, and q has the sign of s or is 0 |
| `DiscardAverage.TruncDivByNegative` | ECUHost Atmel Kernel/Client/USERMATH.c:190 | by a negative number, as with more samples to discard than there are, it is the opposite quotient |
| `DiscardAverage.FindWorst32` | ECUHost Atmel Kernel/Client/USERMATH.c:126-138 | the inner loop, unsigned |
| `DiscardAverage.DiscardAndAverage32` | ECUHost Atmel Kernel/Client/USERMATH.c:103-149 | the nested loops, unsigned, in 32-bit arithmetic; no samples give 0 |
| `DiscardAverage.FindWorstS32` | ECUHost Atmel Kernel/Client/USERMATH.c:172-183 | the inner loop, signed |
| `DiscardAverage.DiscardAndAverageS32` | ECUHost Atmel Kernel/Client/USERMATH.c:151-193 | the nested loops, signed, in 32-bit arithmetic; with nothing to discard and no overflow the mean truncated towards zero |
| `Limiters.BatteryStaysBetweenIff` | ECUHost Atmel Kernel/Client/BVM.c:95-149 | a step stays between old value and target exactly unless it arrives above 2^31 - 1, which counts as 0, with both ends above 0 |
| `Limiters.BatteryInPlain` | ECUHost Atmel Kernel/Client/BVM.c:95-149 | one step in numbers: where it arrives, the slope towards the target one up while it is below the distance, the other one two down, both one down on the target |
| `Limiters.BatteryAdvances` | ECUHost Atmel Kernel/Client/BVM.c:95-149 | a step goes as far as the grown slope and no further than the target |
| `Limiters.BatteryApproaches` | ECUHost Atmel Kernel/Client/BVM.c:95-149 | n steps towards a constant target cover the sum of n growing slopes |
| `Limiters.BatteryReachesIff` | ECUHost Atmel Kernel/Client/BVM.c:95-149 | the target is reached after n steps exactly if n L + n (n + 1) / 2 is at least the distance |
| `Limiters.BatterySampleInPlain` | ECUHost Atmel Kernel/Client/BVM.c:90-93 | below 2^24 the filtered reading is three quarters of the old one and one of the new, each rounded down, and the limiter follows it |
| `Limiters.BatteryFollowsReading` | ECUHost Atmel Kernel/Client/BVM.c:93-149 | filter and limiter together: a constant reading below 2^24 is reported to within 7 after a bounded number of samples |
| `Limiters.BatterySensor.Limit` | ECUHost Atmel Kernel/Client/BVM.c:95-149 | the limiter's branches |
| `Limiters.BatterySensor.Sample` | ECUHost Atmel Kernel/Client/BVM.c:90-149 | filter, then limiter, on a new sample |
| `Limiters.ThrottleArrives` | ECUHost Atmel Kernel/Client/TPS.c:208-256 | where a step arrives, in plain arithmetic; a sum wrapped below zero counts as 0 |
| `Limiters.ThrottleSlopesInPlain` | ECUHost Atmel Kernel/Client/TPS.c:208-256 | the slopes after one step in numbers: 25 up to at most 600 while below the distance, the other one 50 back, both on the target |
| `Limiters.ThrottleMoves` | ECUHost Atmel Kernel/Client/TPS.c:208-256 | one sample: limit states stay multiples of 25 within 600, the angle moves by at most 600, never past the target upwards, by at most 24 downwards, and then onto it |
| `Limiters.ThrottleFollows` | ECUHost Atmel Kernel/Client/TPS.c:208-256 | n steps towards a constant target cover slopes that grow by 25 up to 600 |
| `Limiters.ThrottleSettles` | ECUHost Atmel Kernel/Client/TPS.c:208-256 | one sample after the slopes have covered the distance the angle rests on the target |
| `Limiters.RawAngleInRange` | ECUHost Atmel Kernel/Client/TPS.c:195-203 | the angle computed from a voltage is at most 90000, even where the product wraps or the calibrated end points are the wrong way round |
| `Limiters.RawAngleInPlain` | ECUHost Atmel Kernel/Client/TPS.c:195-203 | with the end points in order and no wrap: 0 up to the lower, 90000 from the upper on, and in proportion between them, rounded down |
| `Limiters.RawAngleReversed` | ECUHost Atmel Kernel/Client/TPS.c:195-203 | with the end points the wrong way round every voltage gives the same angle |
| `Limiters.ThrottleSampleInPlain` | ECUHost Atmel Kernel/Client/TPS.c:203-206 | below 2^24 the filtered angle is half the old one and half the new one, each rounded down, and the limiter follows it |
| `Limiters.ThrottleStaysInRange` | ECUHost Atmel Kernel/Client/TPS.c:195-256 | over every run of samples the angle and the limit states stay in range and no sample changes the angle by more than 600 |
| `Limiters.ThrottleFollowsReading` | ECUHost Atmel Kernel/Client/TPS.c:203-256 | filter and limiter together: a constant angle is reported to within 3 after a bounded number of samples |
| `Limiters.ThrottleSensor.Limit` | ECUHost Atmel Kernel/Client/TPS.c:208-256 | the limiter's branches |
| `Limiters.ThrottleSensor.Sample` | ECUHost Atmel Kernel/Client/TPS.c:195-256 | voltage to angle, filter, then limiter |

## Left out

- CanLink.CanChannel.QueueMessage: a data length above eight, with which the program reads behind its twelve-byte array, is excluded.
- TaskQueues.PrioritiseQueue: at most 65535 nodes, because the program counts them in 16 bits, and at least one, because it reads through the first.
- Kernel.TickRunsDueTasks: both cyclic queues were drained before the tick; a tick during a drain is not modelled, because the drain loop rewrites the head pointer after the task has run.
- Kernel.TasksRunAtTheirRate: over many ticks the cyclic tasks ask for no others; what they may ask for in one tick is in TickRunsDueTasks.
- KernelLists.TaskKernel.Start: tables of together 256 entries or more are excluded, because the program's loops, which count in 8 bits, do not end for them.
- Limiters.ThrottleSensor.Sample: equal calibrated end points, by whose difference the program divides, are excluded.
- PackedLink.Receiver.ReceiveByte: called with one byte at a time, as the UART interrupt does; bytes past the 192-byte receive buffer, which would overwrite other variables, are excluded, and the stream theorem shows that packed frames never get there.
- Stepper.DeadReckoning: the calibration stays the same over a run.
- Stepper.Converges: the temperature is constant and the control loop open; in closed loop the decision of each sequence and the account of phases are proved, but no convergence, which depends on the engine.
- Stepper.TooFastInPlain: engine speeds up to 2^31 - 1, from which on the program's signed conversion turns them negative.
- DiscardAverage.DiscardAndAverageS32: differences that overflow, which C leaves undefined, are excluded.
- Limiters.ThrottleMoves: angles up to 2^31 - 1; by ThrottleStaysInRange the program's own are at most 90000.
- The frame callback's switch between protocols, the diagnostic layers that produce a response, time stamps and the port configuration test of the transmit loop; a response is any sequence of bytes, and a channel is taken to be configured.
- Sending on ENET, USB, UART, SPI and IIC, the string-delimited UART protocol, and virtual channel 10, which the channel arrays have no room for.
- After a packed frame the callback is told of eight bytes although ten were unpacked; the model hands on all ten.
- Thread queues, stack switching, the idle threads, priorities of threads, and preemption of the dispatcher by the tick.
- The inter-task callback of the drain loop, and what tasks do apart from asking for further tasks.
- Driver calls, pins and analogue conversion; a phase is a direction and an index into its table of coil patterns.
- The ignition trim and idle speed control before the stepper in the idle module, the CAN variant of the throttle angle, and the conversion of filtered readings to volts and table indices.
- Table and spread interpolation, relays, timers, the CRC, and the remaining engine-specific client modules.
