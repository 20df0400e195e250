# Verified models of the PA6T Ethernet driver and its Linux reference code

A Dafny model of the parts of this repository where hardware, interrupt handler, tasks and
clients meet, and of the boot-time code it keeps for reference. `dafny verify dfyconfig.toml`
checks everything.

## What is modelled

**The receive ring** (`RxRing`, `RxProtocol`, `RxSafety`, `RxDriver`). The DMA engine takes
buffers from a ring of 2048 pointers and writes completions of four words into a ring of 2048
words; the driver has 512 buffers and returns credits only at the end of a scan. `RxRing`
describes both rings in closed form by two counters that never wrap: frames received and
completions finished. `RxProtocol` is the protocol as interleaved steps of the engine, the
interrupt handler and the unit task, down to single ring writes; `RxSafety` holds what follows
for every run. `RxDriver` is the driver's code over arrays. Whatever the rings hold, the loop ends
and each completion is offered or dropped once; from rings in the closed form it keeps them so,
with frames arriving before every look at the ring.

**Requests** (`Requests`, `Ownership`, `UnitQueues`, `Conservation`, `UnitTask`). `Ownership` is a
machine in which any number of clients run BeginIO and AbortIO in small steps beside the unit task.
`UnitQueues` is the queue code, `UnitTask` the loop of the task with BeginIO calls between its
turns.

**Transmit and memory** (`TxRing`, `HwResources`). Memory and DMA services are a class whose
preconditions are the rules of use, so a double free or a free of mapped memory does not verify.

**The boot-time tree flattener** (`OpenFirmware`, `PromAlloc`, `DeviceTree`, `StringTable`,
`FlatTree`, `PromMemory`, `PromFlatten`, `PromString`). The firmware answers child, peer, parent,
nextprop, getprop and package-to-path for a finite tree. `DeviceTree` is a parser written from
sections 5.2, 5.4 and 5.5 of the Devicetree Specification, together with a relation saying that a
tree is printed at some place in memory, whatever lies in the padding. `PromFlatten` is the C code
over byte memory; its main result is that the parser gets the firmware's tree back from the blob.

**Three hardware protocols** (`Bits`, `Mdio`, `Iob`, `DmaLib`). The MDIO master is proved against
PHYs that sample on rising clock edges as in clause 22.2.4.5 of IEEE Std 802.3; the IO bridge may
load or drop a cached table line at any moment; the number pools are shared with other callers
who act between any two steps.

Where the code and its comments differ the model follows the code:

- A restarted task can sleep on received frames, because `unit->online` stays TRUE when the task
  exits (`RestartCanSleep`). A start keeps wakeups exactly if the unit is offline, the completion
  at rx_next_clean is not ready, or an interrupt is on its way (`WakeStep`); any other start loses
  one (`UnsafeStartSleeps`).
- A read that passed the online test before the task exits can be queued after the final flush
  and stays there (`LateReadIsStranded`). The exit is sure to leave nothing exactly if no client is
  then inside BeginIO with a request that may still be queued (`ExitLeavesNothing`).
- The first PostRxBuffers credits the engine for 512 buffers even if it got fewer. The rings are
  right exactly if the system gives all 512, at distinct addresses (`PostRxBuffers`); otherwise the
  engine has a credit left when it has used up the buffers there are (`RunDry`).
- The limit on transmitted frames holds exactly for lengths whose sum with the header does not
  wrap 32 bits (`LengthTest`), and exactly these fit the buffer (`SpillTest`).
- No S2_ONEVENT subscriber is ever told, as BeginIO clears the field that holds its mask
  (`SignalEvent`).
- "phandle" is stored twice in the string table exactly if it is the first property name met
  (`StoredOnce`).
- alloc_down can go around the address space for ever; it is sure to end exactly if alloc_bottom
  is at least 0xfffff (`DownEndsExactly`).
- pasemi_dma_alloc_fun is documented to return 0-8 and returns 0-7 (`AllocFun`). The comment in
  gpio_mdio.c gives the write opcode as 10; the code sends 01.

## Model

| member | source | states |
|---|---|---|
| RxProtocol.StepInv | src/hw/rx.c:328-631 | every step of the engine, the interrupt handler and the task keeps the rings in closed form and the credits balanced |
| RxProtocol.RunInv | src/hw/rx.c:103-631 | so does every run from a state in which this holds |
| RxSafety.FifoDelivery | src/hw/rx.c:342-609 | in every run from power-on, the frames handed on are a prefix of the frames received, in order, at most 512 behind; no sound completion is rejected, and a scan that ends has handed on everything |
| RxSafety.BufferConservation | src/hw/rx.c:585-605 | in every reachable state each of the 512 buffers is in exactly one live slot, except the one being moved, and named by at most one unfinished completion |
| RxSafety.LiveSlotOf | src/hw/rx.c:592-604 | which slot that is, at every moment of the move |
| RxSafety.CreditSafety | src/hw/rx.c:621-627 | in every reachable state descriptor credits plus twice the completions not credited back is 1024, buffer credits plus these completions is 512 |
| RxSafety.NeverOverwrites | src/hw/rx.c:586-604 | whenever the engine may write, its four words are clear and its buffer is in no unfinished completion |
| RxSafety.BoundedDrain | src/hw/rx.c:607-617 | one call handles at most 512 completions and its raw index stays below 4096 |
| RxSafety.ClosedForm | src/hw/rx.c:213-219 | between calls, after k frames: cursor 4k mod 2048, write pointer k+512 mod 2048, the live window, and the slot table throughout it |
| RxSafety.NeverSplit | src/hw/rx.c:421-436 | the split-frame test never rejects a frame that fits one buffer |
| RxSafety.WakeStep | src/unit_task.c:109-194 | a step keeps the task from sleeping on work, if and only if it is not a start while the unit is online with a ready completion at its cursor and no interrupt on its way |
| RxSafety.WakeRun | src/unit_task.c:109-194 | so does every run whose starts are safe |
| RxSafety.NoLostWakeup | src/hw/irq.c:25-49 | a task blocked online with no signal set and no interrupt pending has no completion in the ring, also when a frame lands between the status read and the acknowledge |
| RxSafety.UnsafeStartSleeps | src/unit_task.c:58-124 | every such start puts the new task to sleep on a received frame |
| RxSafety.StaysAsleep | src/unit_task.c:113-124 | and it sleeps until a frame arrives or another task sends it something |
| RxSafety.RestartCanSleep | src/unit_task.c:196-225 | a run from power-on in which that happens |
| RxRing.HardwareWrite | src/hw/rx.c:348-360 | a completion written by the engine extends the closed form by one frame and overwrites nothing |
| RxRing.ClearWord | src/hw/rx.c:586-590 | wiping the oldest completion word by word |
| RxRing.PostOldest | src/hw/rx.c:596-601 | reposting the oldest buffer behind the window |
| RxRing.MoveWindow | src/hw/rx.c:592-604 | a moved buffer shifts the live window and the slot table by one |
| RxRing.FinishOldest | src/hw/rx.c:585-590 | a wiped completion is the closed form for one more frame finished |
| RxDriver.RxUnit.ReadsOldest | src/hw/rx.c:353-360 | what the driver reads at its cursor is what the engine wrote for the oldest frame |
| RxDriver.RxUnit.HandOver | src/hw/rx.c:370-583 | every test a completion must pass, in terms of the words read: pass and it is offered, fail and it is dropped and counted |
| RxDriver.RxUnit.HandsOldest | src/hw/rx.c:370-436 | with the rings right the tests pass exactly for sound frames, and the bytes handed on are those received |
| RxDriver.RxUnit.Repost | src/hw/rx.c:592-605 | the buffer leaves its slot and is posted behind the last one, and the table follows |
| RxDriver.RxUnit.ProcessOne | src/hw/rx.c:342-609 | whatever the rings hold, one completion is offered or dropped and wiped; with the rings right it is the oldest frame, and its buffer is reposted |
| RxDriver.RxUnit.Drain | src/hw/rx.c:340-609 | whatever the rings hold, the loop ends although frames keep arriving, and readers are served as if the frames had been offered one by one; with the rings right these are the frames received, in order |
| RxDriver.RxUnit.ProcessRX | src/hw/rx.c:328-631 | requests replied equal completions minus drops; rings that are right stay right, nothing is left unprocessed and all credits are returned |
| RxDriver.RxUnit.PostRxBuffers | src/hw/rx.c:103-228 | nothing changes if every buffer was there; on an idle unit without buffers the rings become right if and only if every answer is usable and the addresses are distinct, and otherwise just the buffers before the first unusable answer are posted, with credits for 512 |
| RxDriver.RxUnit.RunDry | src/hw/rx.c:202-228 | after such a partial allocation of k buffers, k frames leave the engine with a credit and no buffer in its slot |
| RxDriver.FreshRings | src/hw/rx.c:177-219 | cleared rings with buffer i in slot i are the rings before any frame |
| Requests.OfferMore | src/hw/rx.c:454-583 | offering frames in two batches is offering them in one |
| Requests.FramesAccounted | src/hw/rx.c:454-583 | every frame completes one request or raises the drop count |
| Requests.AbortTakesOne | src/BeginIO.c:275-356 | an abort takes exactly one request out, if it waits anywhere |
| Requests.AbortKeepsOrder | src/BeginIO.c:284-305 | and leaves the order of every list alone |
| Ownership.StepOwned | src/BeginIO.c:36-356 | each step of a client or the task moves requests without losing or doubling one |
| Ownership.SingleOwner | src/BeginIO.c:36-271 | in every run each request submitted is in exactly one of the lists, the port, in service, or completed, and completed at most once |
| Ownership.RunInv | src/hw/rx.c:454-569 | in every run readers are given frames in queue order and nobody is queued twice |
| Ownership.FifoDelivery | src/hw/rx.c:462-517 | first come, first served within a class: an earlier reader is never left waiting, and gets its frame earlier |
| Ownership.ExitLeavesNothing | src/unit_task.c:199-213 | from the beginning of the exit, with no new clients: every run leaves the lists and the port empty, if and only if no client is inside BeginIO with a request that may still be queued |
| Ownership.ExitCompletesAll | src/unit_task.c:199-213 | then every request submitted has been completed or is being replied |
| Ownership.LateReadIsStranded | src/BeginIO.c:111-149 | a run from power-on in which a read queued after the flush stays |
| UnitQueues.Queues.BeginIO | src/BeginIO.c:36-271 | where each command goes, what it is replied, and that masks are cleared |
| UnitQueues.Queues.Unlink | src/BeginIO.c:284-305 | the first occurrence is unlinked, nothing else |
| UnitQueues.Queues.AbortIO | src/BeginIO.c:275-356 | the request is failed from the first list that holds it, or reported as unknown |
| UnitQueues.Queues.DeliverFrame | src/hw/rx.c:452-583 | the frame goes to the head of its class, else to the first orphan reader, else it is dropped |
| UnitQueues.Queues.FlushReadList | src/hw/rx.c:30-44 | a list is failed in order and left empty |
| UnitQueues.Queues.FlushOrphans | src/hw/rx.c:58-71 | orphan readers are failed in order, other subscribers stay in order |
| UnitQueues.Queues.FlushReadQueue | src/hw/rx.c:47-74 | all reads and orphan readers are failed, in list order |
| UnitQueues.Queues.FlushAllPending | src/hw/rx.c:77-98 | nothing waits any more |
| UnitQueues.Queues.DrainPort | src/unit_task.c:199-207 | every message left is aborted, in order |
| UnitQueues.Queues.SignalEvent | src/unit_task.c:34-54 | exactly the subscribers whose mask has the event are told; after BeginIO that is nobody |
| Conservation.OfferConserves | src/hw/rx.c:454-583 | a frame moves at most one request from a list to the replies |
| Conservation.FlushConserves | src/hw/rx.c:47-74 | a flush moves exactly what it takes out to the replies |
| Conservation.FlushAllConserves | src/hw/rx.c:77-98 | so does the final flush |
| UnitTask.Task.Submit | src/BeginIO.c:36-271 | a submitted request is afterwards in exactly one place |
| UnitTask.Task.Serve | src/unit_task.c:126-186 | whatever the system answers, a command fails the reads it flushes, in order, and is then replied with its error; it sets the online state; right rings stay right, unless they are asked for now and not all buffers are got |
| UnitTask.Task.BringUp | src/unit_task.c:134-136 | after going online the rings are right if and only if they were, or all buffers are got now |
| UnitTask.Task.MainLoop | src/unit_task.c:109-194 | the balance of requests over all turns up to the one with Ctrl-C, whatever the system answers; right rings stay right if all buffers are got |
| UnitTask.Task.Body | src/unit_task.c:58-225 | when the task ends, every request submitted up to the last turn has been replied exactly once and nothing waits, whatever the system answered |
| HwResources.Unit.GetPhys | src/hw/hw_init.c:134-164 | a mapping is kept exactly if its entries are returned, also if the address found is 0 |
| HwResources.Unit.HWInit | src/hw/hw_init.c:241-317 | it succeeds exactly if all three rings were got; otherwise everything is given back |
| HwResources.Unit.HWCleanup | src/hw/hw_init.c:472-530 | every block kept is unmapped and freed once; done again it frees nothing |
| HwResources.Unit.AllocateRxBuffer | src/hw/rx.c:118-168 | a buffer is kept exactly if memory, mapping and address were got |
| HwResources.Unit.AllocateRxBuffers | src/hw/rx.c:113-174 | empty slots are filled in order up to the first unusable answer for one, and nothing after it |
| HwResources.WholeLife | src/hw/hw_init.c:169-530 | initialise, go online any number of times, clean up twice: all memory is back |
| TxRing.LengthTest | src/hw/tx.c:75-84 | the length limit is right exactly for lengths that do not wrap |
| TxRing.BuildHeader | src/hw/tx.c:87-105 | a zeroed buffer of the frame's length with the header in it, for every payload length |
| TxRing.CopyPayload | src/hw/tx.c:121-130 | the buffer holds header, payload as far as it goes, and zero padding; how many bytes go past its end |
| TxRing.SpillTest | src/hw/tx.c:75-91 | bytes go past the end of the buffer if and only if the sum of the lengths wraps |
| TxRing.Transmitter.CleanupPending | src/hw/tx.c:27-62 | after a bounded wait the last buffer is unmapped and freed once and its two slots are cleared |
| TxRing.Transmitter.Submit | src/hw/tx.c:163-192 | the k-th packet takes slots 2k and 2k+1, all others are clear, one buffer is pending |
| TxRing.Transmitter.Transmit | src/hw/tx.c:65-205 | the error for every length and every outcome of every call; a refused packet changes nothing |
| TxRing.TransmitAll | src/hw/tx.c:65-205 | any packets: accepted frames are sent in order, all memory but the last buffer is back, and no byte is written past a buffer unless a copied payload wraps |
| OpenFirmware.NextNode | linux_ref/arch/powerpc/kernel/prom_init.c:642-657 | the next node in preorder, or the end after the last |
| OpenFirmware.AllNodes | linux_ref/arch/powerpc/kernel/prom_init.c:642-657 | iterated from 0 it visits the tree in preorder and stops |
| OpenFirmware.EachNodeOnce | linux_ref/arch/powerpc/kernel/prom_init.c:642-657 | no node is visited twice |
| PromAlloc.PackUp | linux_ref/arch/powerpc/kernel/prom_init.c:1495-1533 | a block taken upward is apart from all earlier ones |
| PromAlloc.PackDown | linux_ref/arch/powerpc/kernel/prom_init.c:1569-1581 | a block taken down inside the RMO is apart from all earlier ones |
| PromAlloc.PackHigh | linux_ref/arch/powerpc/kernel/prom_init.c:1550-1566 | a high block is apart from all earlier ones, also when it reaches into the RMO |
| PromAlloc.HighGuardNeeded | linux_ref/arch/powerpc/kernel/prom_init.c:1558-1564 | without the test alloc_top == rmo_top it can overlap |
| PromAlloc.StepDownSafe | linux_ref/arch/powerpc/kernel/prom_init.c:1570-1571 | from no address above alloc_bottom does the step down wrap, if and only if alloc_bottom is at least 0xfffff |
| PromAlloc.Allocator.AllocUp | linux_ref/arch/powerpc/kernel/prom_init.c:1495-1533 | the first granted address of the tries; all regions stay apart and the limits ordered |
| PromAlloc.DownEndsExactly | linux_ref/arch/powerpc/kernel/prom_init.c:1570-1578 | the search down ends for every size, alignment, top and answers of the firmware, if and only if alloc_bottom is at least 0xfffff |
| PromAlloc.NeverEnds | linux_ref/arch/powerpc/kernel/prom_init.c:1570-1578 | below it, a search for one byte that is refused everything never ends |
| PromAlloc.Allocator.AllocDownLow | linux_ref/arch/powerpc/kernel/prom_init.c:1569-1581 | the same downward, for any alloc_bottom: whether the search has ended within so many tries, and with what; the memory stays in order unless the search wrapped |
| PromAlloc.Allocator.AllocDownHigh | linux_ref/arch/powerpc/kernel/prom_init.c:1550-1566 | the same from the top of RAM, with the exact condition of refusal |
| DeviceTree.ParseUndoesPrint | linux_ref/arch/powerpc/kernel/prom_init.c:2587-2699 | parsing a printed structure block gives the tree back, whatever the padding |
| DeviceTree.MoveNode | linux_ref/arch/powerpc/kernel/prom_init.c:2587-2699 | a printed subtree stays printed while memory after it is written |
| StringTable.FoundText | linux_ref/arch/powerpc/kernel/prom_init.c:2519-2531 | a name is found if and only if it is stored, at a non-zero offset that holds it |
| StringTable.OffsetsStay | linux_ref/arch/powerpc/kernel/prom_init.c:2564-2574 | later strings never move an earlier offset |
| StringTable.ScanCovers | linux_ref/arch/powerpc/kernel/prom_init.c:2539-2585 | after the first pass every property name but "name" is stored |
| StringTable.StoredOnce | linux_ref/arch/powerpc/kernel/prom_init.c:2736-2749 | no string is stored twice, except "phandle" under an exact condition |
| FlatTree.ComponentIsLast | linux_ref/arch/powerpc/kernel/prom_init.c:2614-2625 | the unit name is what follows the last slash |
| PromMemory.Memory.MakeRoom | linux_ref/arch/powerpc/kernel/prom_init.c:2484-2512 | aligned room is found, or the boot stops because what is claimed is too little and no more can be; the region stays in one piece |
| PromMemory.Memory.StrCmp | linux_ref/arch/powerpc/kernel/prom_init.c:228-241 | zero if and only if the strings are equal |
| PromMemory.Memory.StrLen | linux_ref/arch/powerpc/kernel/prom_init.c:286-293 | the length of the string in memory |
| PromMemory.Memory.CompactPath | linux_ref/arch/powerpc/kernel/prom_init.c:2614-2624 | the path is cut to its last component in place, without its NULs, and nothing before it is touched |
| PromFlatten.Flattener.FindString | linux_ref/arch/powerpc/kernel/prom_init.c:2519-2531 | the walk finds the first equal string or answers 0 |
| PromFlatten.Flattener.ScanStrings | linux_ref/arch/powerpc/kernel/prom_init.c:2539-2585 | the table in memory is what the pass over the tree collects |
| PromFlatten.Flattener.FetchPath | linux_ref/arch/powerpc/kernel/prom_init.c:2599-2612 | the whole path is in memory however little room there was |
| PromFlatten.Flattener.PrintHead | linux_ref/arch/powerpc/kernel/prom_init.c:2597-2626 | token and name of the node are printed |
| PromFlatten.Flattener.PrintProp | linux_ref/arch/powerpc/kernel/prom_init.c:2663-2671 | a property with its length, offset and value is printed |
| PromFlatten.Flattener.PrintNext | linux_ref/arch/powerpc/kernel/prom_init.c:2636-2675 | which properties are skipped, which end the loop, which are printed |
| PromFlatten.Flattener.PrintProps | linux_ref/arch/powerpc/kernel/prom_init.c:2633-2675 | exactly the kept properties are printed, in order |
| PromFlatten.Flattener.PrintPhandle | linux_ref/arch/powerpc/kernel/prom_init.c:2677-2690 | a phandle is added exactly if there was none |
| PromFlatten.Flattener.ScanStruct | linux_ref/arch/powerpc/kernel/prom_init.c:2587-2699 | the subtree is printed, and nothing before it is touched |
| PromFlatten.BlobParses | linux_ref/arch/powerpc/kernel/prom_init.c:2757-2769 | the header leads a reader to both blocks |
| PromFlatten.Flattener.FlattenDeviceTree | linux_ref/arch/powerpc/kernel/prom_init.c:2701-2793 | if it returns, parsing the blob gives the firmware's tree as printed, the reserve map is where the header says, and the memory is one piece; it stops the boot only if there is no root or no more memory |
| PromString.Strtoul | linux_ref/arch/powerpc/kernel/prom_init.c:727-750 | digits in base 10, in base 8 after 0 and in base 16 after 0x or 0X are read as the number they stand for modulo 2^64, up to the last digit |
| PromString.Memparse | linux_ref/arch/powerpc/kernel/prom_init.c:752-777 | a printed number followed by K, M or G is read as so many times 2^10, 2^20 or 2^30 on 64 bits, ending behind the letter; without a unit it is read as it is |
| PromString.PrintDec | linux_ref/arch/powerpc/kernel/prom_init.c:482-496 | the decimal digits, for which the buffer is always long enough |
| PromString.DecimalReadsBack | linux_ref/arch/powerpc/kernel/prom_init.c:727-750 | a number printed in decimal reads back as itself |
| PromString.PrintHex | linux_ref/arch/powerpc/kernel/prom_init.c:465-478 | the sixteen hexadecimal digits |
| PromString.HexReadsBack | linux_ref/arch/powerpc/kernel/prom_init.c:727-750 | after 0x they read back as the number |
| PromString.Strstr | linux_ref/arch/powerpc/kernel/prom_init.c:306-321 | the first occurrence, or none if there is none |
| Mdio.FrameOpens | linux_ref/arch/powerpc/platforms/pasemi/gpio_mdio.c:85-97 | a preamble and a start of frame open a frame at every PHY |
| Mdio.HeaderDecodes | linux_ref/arch/powerpc/platforms/pasemi/gpio_mdio.c:99-112 | the PHYs recover the opcode and both addresses modulo 32 |
| Mdio.Bus.ClockFive | linux_ref/arch/powerpc/platforms/pasemi/gpio_mdio.c:103-112 | a shifted byte sends its five low bits, highest first |
| Mdio.Bus.BitbangPre | linux_ref/arch/powerpc/platforms/pasemi/gpio_mdio.c:85-113 | the PHYs end up with the header, after a preamble of 40 clock edges, or 39 if MDC was high |
| Mdio.Bus.Read | linux_ref/arch/powerpc/platforms/pasemi/gpio_mdio.c:115-152 | the value the PHY shifts out, or the idle level if there is none; no register changes and nobody drives against another |
| Mdio.Bus.Write | linux_ref/arch/powerpc/platforms/pasemi/gpio_mdio.c:154-198 | the addressed register gets the value and nothing else changes |
| Mdio.Transact | linux_ref/arch/powerpc/platforms/pasemi/gpio_mdio.c:115-198 | any sequence: every read returns what the register holds then, every frame has at least 39 ones before it |
| Mdio.WrittenStays | linux_ref/arch/powerpc/platforms/pasemi/gpio_mdio.c:154-198 | a value written is read back until that register is written again |
| Iob.Bridge.SetEntry | linux_ref/arch/powerpc/platforms/pasemi/iommu.c:95-97 | an entry written and then invalidated is coherent, whatever the bridge loads in between |
| Iob.Bridge.Build | linux_ref/arch/powerpc/platforms/pasemi/iommu.c:77-103 | the pages translate as mapped, every line touched agrees with the table, no other line gets worse |
| Iob.Bridge.Free | linux_ref/arch/powerpc/platforms/pasemi/iommu.c:106-124 | the pages lead to the spare page, likewise |
| Iob.WalkIsFlat | linux_ref/arch/powerpc/platforms/pasemi/iommu.c:224-229 | the walk through the 64 registers is indexing one table, for every page of the window |
| Iob.SetUpL1 | linux_ref/arch/powerpc/platforms/pasemi/iommu.c:224-229 | the registers are set so |
| DmaLib.Pool.Alloc | linux_ref/arch/powerpc/platforms/pasemi/dma_lib.c:121-128 | a number in range that nobody held, or none if none was free at the last look; retries end |
| DmaLib.Pool.Release | linux_ref/arch/powerpc/platforms/pasemi/dma_lib.c:131-135 | a number held is given back, and the check on it never fails |
| DmaLib.AllocTxChan | linux_ref/arch/powerpc/platforms/pasemi/dma_lib.c:102-129 | EVT0 gets 0-9, EVT1 10-63, neither both |
| DmaLib.AllocFirst | linux_ref/arch/powerpc/platforms/pasemi/dma_lib.c:375-387 | flags and receive channels: any of 64 |
| DmaLib.AllocFun | linux_ref/arch/powerpc/platforms/pasemi/dma_lib.c:440-452 | only engines 0-7, although 64 bits are searched |
| DmaLib.StepInv | linux_ref/arch/powerpc/platforms/pasemi/dma_lib.c:121-135 | each step of any caller keeps free and held numbers a partition |
| DmaLib.RunInv | linux_ref/arch/powerpc/platforms/pasemi/dma_lib.c:102-154 | in every run of any number of callers, from all numbers free, no number is held twice or both held and free, and none is lost |
| DmaLib.TryOutcome | linux_ref/arch/powerpc/platforms/pasemi/dma_lib.c:125-126 | a failed attempt means another caller holds the number |

## Left out

- The engine writes a completion's four words and the buffer in one step; a completion half written is not modelled.
- Frames longer than one buffer, which the engine would spread over several. What the driver does with a completion that is out of place, or with rings of which only part was posted, is modelled as far as requests go; how such rings look afterwards is not described.
- RxDriver.RxUnit.ProcessRX: frames arrive before each look at the ring; arrivals inside the handling of one completion are in `RxProtocol`.
- UnitTask.Task.Body: clients call BeginIO between turns of the task; finer interleavings, AbortIO included, are in `Ownership`. A last turn that is never followed by another counts as shutdown.
- Units without rings: TransmitPacket, PostRxBuffers and ProcessRX return at once. The values of the online and offline events are those of SANA-II, whose header is not part of this model.
- TxRing.Transmitter.CleanupPending: a buffer the engine still owns after the poll limit is released, as in the code; that the engine no longer reads it is not claimed.
- TxRing.CopyPayload: bytes written past a buffer that is too short are counted; what they overwrite is not modelled.
- TxRing.Transmitter.Transmit: the buffer still pending at the end is never freed by HWCleanup, as in the code.
- HwResources.Unit.HWInit: channel and interface probing is one answer, register programming is left out.
- The fields of a reply besides error, data and copied flag (addresses, length, broadcast and multicast flags), quick requests, statistics other than received and dropped frames.
- PromFlatten.Flattener.FlattenDeviceTree: the firmware does not change its tree between the passes, package-to-path succeeds, property names are shorter than 64 bytes and distinct within a node, memory lies below 0x30000000 as prom_init_mem sets it up. The final page alignment may reach past the memory claimed. struct boot_param_header and the token values are not in this repository; they are taken from the Devicetree Specification, version 16 of the format.
- PromAlloc.Allocator.AllocDownLow: as the search need not end, it is followed for any given number of tries.
- PromAlloc.Allocator.AllocUp: sizes and alignments are small enough that addresses do not wrap 64 bits; alignments are rounded as the macro does for powers of two; a claim that succeeds yields the address asked for.
- prom_init_mem, reserve_mem, and the fix-ups of particular machines' trees.
- Mdio.Bus.Read: delays, and PHYs that answer more slowly than one clock period.
- Iob.Bridge.Build: it_offset is 0, as the set-up code has it.
- DmaLib: pasemi_dma_alloc_chan, which uses the number without looking at the error; rings, status words and register access.
- Register values, PCI configuration, IOB counters and memory barriers; debug output; opening, closing and expunging the device; the diagnostic tools and the rest of linux_ref.
