# memsim in Dafny

This project models the core of `memsim`, a demand-paging simulator. It
replays a trace of memory references against one of two page-table layouts
and one of four replacement policies:

- the layouts are a single 1024-entry table, or a 32-entry outer table with
  lazily created 32-entry inner tables;
- the policies are FIFO, LRU, CLOCK and enhanced CLOCK (ECLOCK).

Pages move between FRAME_NUMBER frames of 64 bytes and a 64 KiB swap store.
The simulator logs every translation and counts page faults.

The model has four layers, one per group of files.

- `bits.dfy` (module `Bits`) holds the 16-bit field codec `extractBits` /
  `writeBits`. Words are `nat < 65536` and fields are read and written
  arithmetically. The lemmas give the frame laws: what a write changes and
  what it keeps.
- `pte.dfy` (module `PageEntry`) holds the page-table-entry layout:
  - V at bit 15, R at bit 14, M at bit 13, and the PFN in the low
    `PFN_BIT_SIZE` bits;
  - the virtual-address split into offset, VPN, P1 and P2;
  - the integer form of `ceil(log2(FRAME_NUMBER))`.
- `list.dfy` (module `LinkedList`) holds the two eviction queues of
  `linkedList.c`. They are classes over heap nodes (`Node`, `List`, `Ring`).
  Each class carries a ghost sequence of its nodes, a ghost sequence of
  their payloads and a footprint `Repr`. Every operation relinks `next` /
  `prev` in place, as the C code does, and is proved against a payload
  function (`Delete`, `MoveToTop`) and against the link-shape invariant
  (`ListLinked` / `RingLinked`).
- `replacement.dfy` (module `Replacement`) holds the four victim selectors:
  - as methods over the `Ring` / `List` classes and the page-table array;
  - specified by pure functions: `Evict` gives the new ring payloads,
    `ClockScan` the CLOCK sweep, and `EclockPass` / `Eclock` the ECLOCK
    passes.
- `paging.dfy` (module `Paging`) holds the paging engine as a pure state
  machine over a `Memory` value: one flat 1024-entry table, the outer
  table, the eviction queue, the frames, the swap store and the three
  counters. It defines:
  - one reference as `Step`, the trace as `Run` and the exit flush as
    `Flush`;
  - the invariant `Inv`: the queue holds exactly the valid pages, each
    valid page owns a distinct frame below `initialFrameCounter`, and outer
    entries are zero or `OuterEntry(i)`;
  - the per-step properties.
- `memsim.dfy` (module `Simulation`) holds the class `Simulator`, the
  imperative engine. Its fields mirror the C globals:
  - arrays for `singlePageTable`, `outerPageTable`, `innerTablesTable`,
    `physicalMemory` and the swap store;
  - the `List` and `Ring` objects;
  - the counters.

  The methods follow the C functions statement by statement.
  `ProcessMemoryReferences` is proved to leave the simulator in the state
  `Paging.Run` computes, and to return the same log. `MemoryFlush` is
  proved to leave the swap store that `Paging.Flush` computes. The ghost
  `State()` reads the arrays as a `Memory`. A missing inner table reads as
  zero entries.

Two quirks of the source are kept as written.

- **Inner-table index.** In two-level mode, CLOCK and ECLOCK index the
  faulting page's inner table with the low 5 bits of every ring node's VPN
  (memsim.c:122, memsim.c:156). `Paging.Window` gives that inner table and
  `Paging.Splice` puts it back.
- **ECLOCK fallback.** If no ECLOCK pass matched, the cursor's node is
  taken as the victim (memsim.c:176-177). `Replacement.EclockFinds` proves
  this never happens on a non-empty ring.

Three further behaviours of the code are worth noting.

- In its second pass ECLOCK clears only the R bits of entries that do not
  match, because a match breaks out of the pass before the clearing
  (memsim.c:161-171).
- CLOCK stops within ring length + 1 inspections
  (`Replacement.ClockFinds`), not merely within two laps.
- When no ECLOCK pass matches, the code takes the cursor's node rather
  than reporting an error, and the model does the same.

ECLOCK's passes are numbered from one in prose (the first to the fourth
pass) and from zero as `step` in the model (step 0 to 3), so the second
pass, the one that clears R bits, is step 1.

## Model

| member | source | states |
|---|---|---|
| Bits.ExtractBits | memsim.c:79-82 | the extracted field is below 2^k |
| Bits.WriteBits | memsim.c:84-91 | the k-bit field at p reads back as n mod 2^k; bits below p and from p+k up keep their values |
| Bits.WriteBitsUnique | memsim.c:84-91 | any word with writeBits's three properties is writeBits's result, so those properties characterise it |
| Bits.Decompose | memsim.c:79-82 | every word is its high part, the field at p scaled by 2^p, and its low part |
| Bits.WriteOtherField | memsim.c:84-91 | writing one field leaves every disjoint field's extraction unchanged |
| Bits.ExtractWrite | memsim.c:79-91 | extracting a field just written with a value below 2^k returns that value |
| Bits.ExtractBelow | memsim.c:79-82 | a field below bit m is unaffected by dropping the bits from m up |
| Bits.ExtractAbove | memsim.c:79-82 | a field at or above bit m is the field at p-m of the word shifted right by m |
| PageEntry.FlagFields | memsim.c:23-25 | the reads V, R, M and Low: V, R and M are the 1-bit fields at bits 15, 14 and 13; Low is the 13-bit field below them |
| PageEntry.PfnOfLow | memsim.c:348 | the read Pfn: the PFN field lies inside the bits below M |
| PageEntry.FieldsDetermine | memsim.c:21-25 | two entries with equal V, R, M and low bits are equal |
| PageEntry.FlagsLow | memsim.c:21-25 | an entry is exactly its three flags and its low 13 bits |
| PageEntry.WriteFlag | memsim.c:359 | writing one flag bit sets that flag and keeps the other flags and the low bits |
| PageEntry.WritePfn | memsim.c:366 | writing the PFN field sets the PFN and keeps V, R and M |
| PageEntry.SetFlag | memsim.c:363-365 | the chosen flag takes b; the other flags and the low bits are kept |
| PageEntry.SetFlagWrites | memsim.c:84-91 | SetFlag equals writeBits of one bit at the flag's position |
| PageEntry.ClearR | memsim.c:191 | R is cleared; V, M and the low bits are kept |
| PageEntry.ClearZero | memsim.c:196-198 | clearing R on a zero entry leaves zero, so skipping an absent inner table agrees with clearing its all-zero entries |
| PageEntry.ClearRIdle | memsim.c:191 | clearing R on an entry whose R is clear changes nothing |
| PageEntry.SetPfn | memsim.c:366 | the PFN field takes n; V, R and M are kept |
| PageEntry.PfnKeep | memsim.c:383 | entries with equal low bits have equal PFNs |
| PageEntry.AddressSplit | memsim.c:239-242 | the reads Offset, Vpn, VpnP1 and VpnP2: offset < 64, vpn < 1024, vpn == P1*32 + P2, and the address is vpn*64 + offset |
| PageEntry.VpnSplit | memsim.c:340-341 | the victim's P1 and P2 fields are vpn / 32 and vpn % 32 |
| PageEntry.PhysicalAddress | memsim.c:401 | writing the PFN over the VPN field gives pfn*64 + offset |
| PageEntry.OuterAddress | memsim.c:442 | writing i into the P1 field gives an address whose P1 is i |
| PageEntry.InnerAddress | memsim.c:448-451 | writing j into the P2 field keeps P1, sets P2 to j, and gives VPN P1*32 + j |
| PageEntry.VpnFields | memsim.c:239-241 | the VPN is P1*32 + P2 |
| PageEntry.CeilLog2 | memsim.c:533 | the least k with 2^k >= n |
| PageEntry.PfnBitsRange | memsim.c:533 | for 4 to 128 frames the PFN width is 2 to 7 bits |
| LinkedList.Node.constructor | linkedList.c:5-6 | a fresh node holds item and has no neighbours |
| LinkedList.Find | linkedList.c:66-69 | the index of the first payload equal to key, or the length when none is |
| LinkedList.FindAbsent | linkedList.c:72-76 | the search reaches the end exactly when key is absent |
| LinkedList.Without | linkedList.c:79-93 | removing index i keeps the other payloads in order |
| LinkedList.WithoutMultiset | linkedList.c:79-93 | removing index i removes one copy of its payload from the multiset |
| LinkedList.Delete | linkedList.c:45-96 | an absent key changes nothing; a present key removes exactly one copy; a duplicate-free list loses key entirely |
| LinkedList.MoveToTopSpec | linkedList.c:134-177 | MoveToTop: length and multiset are kept; absent key, no change; present key, key first, then the rest in their old order |
| LinkedList.MoveToTopHead | linkedList.c:139-142 | a list whose head holds key is unchanged |
| LinkedList.ConsLinked | linkedList.c:7-20 | linking a new node in front of a linked list gives a linked list |
| LinkedList.UnlinkLinked | linkedList.c:79-93 | bypassing node i in a linked list gives a linked list without it |
| LinkedList.List.constructor | memsim.c:537-538 | an empty list with null head and tail |
| LinkedList.List.LinkFront | linkedList.c:7-20 | node n becomes the head in front of the old nodes; tail moves to n only when the list was empty; head.prev is null |
| LinkedList.List.InsertNode | linkedList.c:3-21 | payloads become [item] + old; the new head is fresh with null prev; tail changes only when the list was empty |
| LinkedList.List.Search | linkedList.c:66-69 | the node found is the first holding key, or null when none does |
| LinkedList.List.UnlinkHead | linkedList.c:50-64 | the head is removed, the rest keeps its order, and an emptied list has null head and tail |
| LinkedList.List.Unlink | linkedList.c:79-93 | node i, not the head, is removed; the others keep order and links; head is unchanged |
| LinkedList.List.DeleteNode | linkedList.c:45-96 | payloads become Delete(old, key); the node removed is the first holding key; nothing changes when none does |
| LinkedList.List.MoveNodeToTop | linkedList.c:134-177 | payloads become MoveToTop(old, key); the first node holding key moves to the front and the others keep their order |
| LinkedList.List.MoveBelowHead | linkedList.c:144-176 | with key not at the head, its first node moves to the front, or nothing changes when key is absent |
| LinkedList.List.Relink | linkedList.c:155-176 | node i is unlinked and relinked as the head; the rest keeps its order |
| LinkedList.FindAt | linkedList.c:66-69 | an index meeting the search's stopping condition is the search's result |
| LinkedList.WithoutDistinct | linkedList.c:79-93 | removing a node from a duplicate-free sequence keeps it duplicate-free and drops the node |
| LinkedList.RotateLinked | memsim.c:97 | moving a ring's head keeps every link |
| LinkedList.Rotate | memsim.c:97 | rotating by p starts at element p and keeps cyclic order |
| LinkedList.RotateMultiset | memsim.c:97 | rotating keeps the multiset of elements |
| LinkedList.RotateDistinct | memsim.c:97 | rotating a duplicate-free sequence keeps it duplicate-free |
| LinkedList.RingConsLinked | linkedList.c:33-41 | splicing a node between the last node and the head gives a ring |
| LinkedList.WithoutLinked | linkedList.c:122-123 | bypassing node i of a ring gives a ring without it |
| LinkedList.Ring.constructor | memsim.c:539 | an empty ring with a null head |
| LinkedList.Ring.CircularInsertNode | linkedList.c:23-43 | payloads become [item] + old; a fresh node is the head, between the old head.prev and the old head; a lone node links to itself |
| LinkedList.Ring.CircularDeleteNode | linkedList.c:98-132 | payloads become Delete(old, key); the first node holding key is unlinked; the sole node empties the ring; the head advances to head.next when it is removed |
| LinkedList.Bypass | linkedList.c:122-123 | relinking the neighbours of node i gives a ring without it and touches no payload |
| Replacement.EvictSpec | memsim.c:97-99 | Evict: the ring read from the new head is vpn, then the pages after the victim, then those before it; the multiset loses the victim and gains vpn |
| Replacement.FifoOrder | memsim.c:93-101 | under FIFO the victim is the oldest page and vpn becomes the newest |
| Replacement.LruOrder | memsim.c:103-110 | LRU's overwritten tail, moved to the top, gives vpn followed by the other pages in order |
| Replacement.DeleteLast | linkedList.c:45-96 | deleting the last element, which occurs nowhere else, leaves the prefix |
| Replacement.SlotTwoLevel | memsim.c:122 | Slot: in two-level mode the slot a ring node indexes is the low 5 bits of its VPN |
| Replacement.RClearedTrans | memsim.c:128 | "only R bits were cleared" composes |
| Replacement.ClockScan | memsim.c:120-130 | the sweep stays on the ring and keeps the table size; a found victim has R clear |
| Replacement.ClockScanClears | memsim.c:128 | the sweep only clears R bits |
| Replacement.RStaysClear | memsim.c:124 | an entry whose R was clear stays clear through R clearing |
| Replacement.ClockFindsFrom | memsim.c:120-130 | once every entry after the cursor has R clear, the sweep finds a victim |
| Replacement.ClockFinds | memsim.c:112-136 | CLOCK on a non-empty ring finds a victim within ring length + 1 inspections |
| Replacement.EclockPass | memsim.c:154-174 | a matching pass stops at the match; a failed pass ends one lap later at the start node; only the second pass (step 1) changes the table |
| Replacement.PassOnlyClears | memsim.c:168-171 | a pass only clears R bits |
| Replacement.Eclock | memsim.c:152-175 | the passes end on a ring node and keep the table size; EclockFinds states that a match is always found |
| Replacement.EclockOnlyClears | memsim.c:152-175 | the four passes only clear R bits, and the third and fourth passes (steps 2 and 3) change nothing |
| Replacement.PassMiss | memsim.c:161 | a failed pass other than the second (step 1) saw no entry of its class |
| Replacement.PassClears | memsim.c:168-171 | a failed second pass (step 1) leaves every entry with R clear |
| Replacement.EclockFinds | memsim.c:138-180 | ECLOCK on a non-empty ring always finds a match, so the fallback is never taken |
| Replacement.FourthPassFinds | memsim.c:152-175 | when the start page's R bit is clear and the third pass (step 2), seeking (0,0), fails, the fourth pass (step 3) takes the start node |
| Replacement.RotatedData | memsim.c:97-99 | the rotated ring's payloads are Evict's |
| Replacement.AlgorithmFifo | memsim.c:93-101 | the victim is the oldest page, its node takes vpn and becomes the head; the ring's nodes are the old ones rotated to start at that node, and no node is added or dropped |
| Replacement.AlgorithmLru | memsim.c:103-110 | the victim is the tail's page and the tail takes vpn; head, tail and nodes are unchanged |
| Replacement.AlgorithmClock | memsim.c:112-136 | victim, cleared table and new ring are ClockScan's from the oldest page; the victim's node takes vpn and the ring's nodes are the old ones rotated to start at it |
| Replacement.ClockHand | memsim.c:117-130 | the hand stops at ClockScan's position, with ClockScan's table |
| Replacement.AlgorithmEclock | memsim.c:138-180 | victim, table and new ring are Eclock's from the oldest page; the victim's node takes vpn and the ring's nodes are the old ones rotated to start at it |
| Replacement.EclockSearch | memsim.c:148-175 | the cursor and table end as Eclock says |
| Replacement.EclockHand | memsim.c:154-174 | one pass moves the cursor and table as EclockPass says |
| Paging.ConfigFor | memsim.c:533-535 | every accepted level and frame count gives a well-formed configuration |
| Paging.Initial | memsim.c:537-588 | the start state is all-zero tables, an empty queue and zero counters, and meets the invariant |
| Paging.Block | memsim.c:34 | a frame or swap slot is 64 bytes; BlockPut states how writes change it |
| Paging.PutBlock | memsim.c:354-355 | writing a slot keeps the store's size; BlockPut states which slots change |
| Paging.BlockPut | memsim.c:354-355 | after writing slot i, slot i holds the block and every other slot is unchanged |
| Paging.PutBlockAt | memsim.c:369-371 | a store equal to the block at slot i and to the old bytes elsewhere is PutBlock's result |
| Paging.Loaded | memsim.c:363-366 | a loaded entry is valid, clean, referenced, and holds the frame |
| Paging.ClearAll | memsim.c:187-206 | every entry of the table has its R bit clear and keeps its V bit, M bit and frame bits; the length is kept |
| Paging.LoadSpec | memsim.c:362-371 | Load: the page's entry alone becomes valid, clean and referenced with the frame; that frame alone receives swap slot vpn; swap, queue and counters are kept |
| Paging.Window | memsim.c:244-278 | the table a policy scans is the whole table or the faulting page's inner table |
| Paging.Splice | memsim.c:128 | putting a scanned window back keeps 1024 entries; SpliceCleared states that only R bits change |
| Paging.WindowSlots | memsim.c:122 | every ring node's slot lies inside the scanned window |
| Paging.SpliceCleared | memsim.c:128 | a window that only lost R bits gives a table that only lost R bits |
| Paging.Select | memsim.c:314-330 | the chosen victim is in the queue; table and queue keep their sizes; SelectSpec states the new queue and table |
| Paging.ClockChoice | memsim.c:323-326 | CLOCK's victim is in the queue |
| Paging.EclockChoice | memsim.c:327-330 | ECLOCK's victim is in the queue |
| Paging.EvictMembers | memsim.c:97-99 | the new ring holds the old pages minus the victim plus vpn, without duplicates |
| Paging.OverwriteMembers | memsim.c:107-108 | the overwritten LRU list holds the old pages minus the victim plus vpn, without duplicates |
| Paging.SelectSpec | memsim.c:314-330 | every policy returns a queue holding the old pages minus the victim plus vpn, duplicate-free, and changes only R bits |
| Paging.ResidentKeep | memsim.c:380 | residency survives any change that keeps V and the low bits |
| Paging.ResidentFill | memsim.c:296-310 | loading vpn into the next unused frame keeps residency with one more frame in use |
| Paging.ResidentSwap | memsim.c:348-366 | moving the victim's frame to vpn keeps residency |
| Paging.Allocate | memsim.c:258-274 | in two-level mode the outer entry becomes OuterEntry(p1); nothing else changes |
| Paging.AllocatedEntry | memsim.c:272-273 | the two writes on a zero outer entry set V and store P1 |
| Paging.MakeRoom | memsim.c:296-360 | the frame returned is below FRAME_NUMBER and the stores keep their sizes; FaultFill and FaultReplace state the contents |
| Paging.Fault | memsim.c:282-372 | after a fault the page is valid and the invariant holds |
| Paging.VictimResident | memsim.c:312-345 | with every frame used the queue is non-empty and the chosen victim is valid, distinct from vpn, and owns a frame |
| Paging.ReplaceSteps | memsim.c:312-360 | the eviction's statements compose to the replacement relation |
| Paging.ClaimSteps | memsim.c:291-360 | counting the fault, then taking or replacing a frame, is the claim relation |
| Paging.FaultSteps | memsim.c:282-372 | a claim followed by the load is Fault, and keeps the invariant |
| Paging.Choose | memsim.c:314-345 | the victim is a valid resident page other than vpn; its PFN and M are kept; the new queue holds the old pages minus the victim plus vpn |
| Paging.Access | memsim.c:374-398 | the access keeps the invariant and yields a PFN below FRAME_NUMBER; AccessSpec states the entry and frame changes |
| Paging.AccessSteps | memsim.c:374-398 | the reference statements compose to Access |
| Paging.ResidentQueue | memsim.c:375-378 | residency survives reordering the queue |
| Paging.MoveToTopMembers | memsim.c:375-378 | moving a page to the top keeps the queue's members and distinctness |
| Paging.MultisetMembers | linkedList.c:134-177 | equal multisets have equal members |
| Paging.ConsDistinct | linkedList.c:3-21 | putting a new page in front of a duplicate-free queue keeps it duplicate-free |
| Paging.Aging | memsim.c:182-209 | aging keeps the invariant; AgingSpec states which bits change |
| Paging.AgingSteps | memsim.c:182-209 | the statements of clearReferencedBits compose to Aging |
| Paging.Step | memsim.c:229-411 | one reference keeps the invariant; StepSpec states the log line and counters |
| Paging.ResolveSteps | memsim.c:236-398 | allocation, lookup, fault and access compose to the resolution relation |
| Paging.StepSteps | memsim.c:229-411 | resolution, log and aging compose to Step |
| Paging.Run | memsim.c:227-412 | the trace keeps the invariant and yields one log line per reference |
| Paging.RunSnoc | memsim.c:227-412 | running one more reference is one more Step, with one more log line |
| Paging.InvFrames | memsim.c:425 | every valid page's PFN names a frame |
| Paging.FlushFrom | memsim.c:421-430 | flushing from page v keeps the swap size; FlushFromSpec states each slot |
| Paging.FlushFromSpec | memsim.c:421-430 | after flushing from v, slot u holds its frame when u >= v and its page is valid, and is unchanged otherwise |
| Paging.FlushSkip | memsim.c:439 | invalid pages are skipped by the flush |
| Paging.Flush | memsim.c:415-462 | the flushed swap store keeps its size; FlushSpec states each slot |
| Paging.FlushSpec | memsim.c:415-462 | after the flush each valid page's slot holds its frame's 64 bytes and every invalid page's slot is unchanged |
| Paging.FaultFill | memsim.c:296-310 | while frames are unused: vpn is queued at the front and gets frame initialFrameCounter, which advances by one; the frame receives swap slot vpn; other frames, the swap store and other entries are unchanged; the fault counter grows by one |
| Paging.FaultReplace | memsim.c:312-372 | the victim's frame goes to its swap slot exactly when its M bit is set, and no other slot changes; the victim loses V and keeps R, M and PFN; vpn becomes valid, clean and referenced in that frame, which receives swap slot vpn; no other frame changes, other entries change at most in R, and the outer table and frame counter are kept |
| Paging.AccessSpec | memsim.c:374-398 | the page stays valid with R set in the same frame; a write stores value mod 256 at the offset and sets M; other modes change no byte and keep M; other entries are unchanged |
| Paging.AccessQueue | memsim.c:375-378 | under LRU the page moves to the front of the queue; other policies keep the queue |
| Paging.AgingSpec | memsim.c:182-209 | at TICK every entry loses R and nothing else and the counter restarts at 0; otherwise only the counter advances |
| Paging.NoAgingAtTickZero | memsim.c:184-186 | with TICK = 0 the counter only grows, so aging never fires |
| Paging.StepCounter | memsim.c:184-207 | each reference advances the counter, which restarts at 0 on reaching TICK |
| Paging.StepSpec | memsim.c:229-411 | a reference faults exactly when its page was invalid, and only then does the fault counter grow; frames are handed out in order until all are used; the page ends valid in the logged frame; the logged fields and the physical address pfn*64 + offset are right |
| Paging.FaultCount | memsim.c:408 | the number of log lines marked as faults is at most the number of lines |
| Paging.RunFaults | memsim.c:293 | the final fault counter equals the number of logged faults |
| Paging.Content | memsim.c:362-371 | a page's 64 bytes are its frame while it is valid and its swap slot otherwise |
| Paging.Written | memsim.c:391-398 | a write to page u stores the value's low byte at its offset; any other reference leaves u's bytes |
| Paging.Writes | memsim.c:227-412 | applying a trace's writes to one page keeps the page size |
| Paging.WritesLast | memsim.c:391-398 | the byte at an offset of page u is the low byte of the last write to that offset |
| Paging.BlockPoke | memsim.c:394 | storing one byte of a frame changes that byte of that frame and no other frame |
| Paging.InitialContent | memsim.c:537-588 | at start-up no page is valid, so every page holds its swap slot and the state is clean |
| Paging.FaultContent | memsim.c:282-372 | a fault moves no page's bytes and keeps every page whose M bit is clear equal to its swap slot |
| Paging.FillContent | memsim.c:296-310 | loading into an unused frame moves no page's bytes and keeps the state clean |
| Paging.ReplaceContent | memsim.c:312-372 | evicting a victim (written back only when modified) and loading the page moves no page's bytes and keeps the state clean |
| Paging.AccessContent | memsim.c:374-398 | a write changes only the written byte of its page; a read changes no page's bytes; the state stays clean |
| Paging.AgingContent | memsim.c:182-209 | clearing R bits moves no page's bytes and keeps the state clean |
| Paging.StepContent | memsim.c:229-411 | one reference applies its write, if any, to its page's bytes and to no other page's |
| Paging.RunContent | memsim.c:227-412 | a run applies the trace's writes to every page's bytes in order, whatever it evicts and reloads |
| Paging.FlushContent | memsim.c:415-462 | the flush writes every page's bytes to its swap slot |
| Paging.RoundTrip | memsim.c:211-462 | from start-up, a run then the flush leave in each swap slot its original bytes with the trace's writes to that page applied in order |
| Paging.ReloadRoundTrip | memsim.c:211-413 | after a run whose last reference names page u, u is resident and its frame holds its original bytes with the trace's writes applied, however often it was evicted and reloaded |
| Simulation.InnerExtend | memsim.c:263 | adding a fresh inner table keeps the inner tables distinct and owned |
| Simulation.ClockPolicy | memsim.c:323-326 | the CLOCK call over the faulting page's window yields ClockChoice's victim, ring and table |
| Simulation.RingPolicy | memsim.c:323-330 | the CLOCK or ECLOCK call yields Select's victim, ring and table |
| Simulation.EclockPolicy | memsim.c:327-330 | the ECLOCK call over the faulting page's window yields EclockChoice's victim, ring and table |
| Simulation.Simulator.constructor | memsim.c:537-588 | the simulator starts in Paging.Initial's state and meets the invariant |
| Simulation.Simulator.MirrorEmpty | memsim.c:571-588 | zero tables and no inner tables agree with the all-zero flat table |
| Simulation.Simulator.Put | memsim.c:363-366 | an entry write through the located table changes exactly that page's entry of the flat view |
| Simulation.Simulator.Holds | memsim.c:250-278 | the located table slot holds the page's entry |
| Simulation.Simulator.LazyAllocate | memsim.c:258-274 | an absent inner table is created zeroed and its outer entry becomes OuterEntry(P1); nothing else changes |
| Simulation.Simulator.MarkOuter | memsim.c:272-273 | the outer entry gets V and P1 |
| Simulation.Simulator.ZeroTable | memsim.c:263-270 | a new inner table of 32 zero entries |
| Simulation.Simulator.WriteBack | memsim.c:354-355 | swap slot `slot` receives frame `frame` and nothing else changes |
| Simulation.Simulator.ReadIn | memsim.c:369-371 | frame `frame` receives swap slot vpn |
| Simulation.Simulator.SelectVictim | memsim.c:314-330 | the victim, table and queue are Paging.Select's |
| Simulation.Simulator.SelectFifo | memsim.c:315-318 | FIFO's victim and ring are Select's |
| Simulation.Simulator.SelectLru | memsim.c:319-322 | LRU's victim and list are Select's |
| Simulation.Simulator.SelectClock | memsim.c:323-330 | CLOCK's or ECLOCK's victim, ring and table are Select's |
| Simulation.Simulator.Resplice | memsim.c:128 | the flat view after a scan is the old table with the scanned window put back |
| Simulation.Simulator.WindowHolds | memsim.c:244-278 | the array a policy scans holds the window of the flat view |
| Simulation.Simulator.Respliced | memsim.c:128 | the spliced table is what the inner tables now hold |
| Simulation.Simulator.EvictVictim | memsim.c:332-359 | the victim's frame goes to swap when M is set; its V is cleared; the frame number is returned |
| Simulation.Simulator.EvictEntry | memsim.c:348-359 | the same, once the victim's table is located |
| Simulation.Simulator.LoadPage | memsim.c:362-371 | the state becomes Paging.Load's |
| Simulation.Simulator.MarkLoaded | memsim.c:363-366 | the entry becomes Loaded(entry, frame) |
| Simulation.Simulator.TakeFrame | memsim.c:296-310 | the page is queued and takes the next unused frame |
| Simulation.Simulator.Enqueue | memsim.c:298-306 | vpn goes to the front of the queue the policy uses |
| Simulation.Simulator.ReplacePage | memsim.c:312-360 | the victim is evicted and its frame returned, as the replacement relation says |
| Simulation.Simulator.ClaimFrame | memsim.c:291-360 | the fault is counted and a frame claimed, as the claim relation says |
| Simulation.Simulator.PageFault | memsim.c:282-372 | the state becomes Paging.Fault's |
| Simulation.Simulator.AccessPage | memsim.c:374-398 | the state and the PFN become Paging.Access's |
| Simulation.Simulator.Touch | memsim.c:375-378 | under LRU the page moves to the top of the list; otherwise nothing changes |
| Simulation.Simulator.Operate | memsim.c:380-398 | R is set and the PFN read; a write stores the low byte and sets M |
| Simulation.Simulator.MarkReferenced | memsim.c:380-383 | the entry gains R and its PFN is returned |
| Simulation.Simulator.WriteByte | memsim.c:394-397 | one byte of physical memory changes and the entry gains M |
| Simulation.Simulator.ClearReferencedBits | memsim.c:182-209 | the state becomes Paging.Aging's |
| Simulation.Simulator.ResetReferences | memsim.c:186-207 | every entry loses R and the counter restarts at 0 |
| Simulation.Simulator.ClearSingleTable | memsim.c:187-193 | every single-table entry loses R |
| Simulation.Simulator.ClearInnerTables | memsim.c:194-206 | every entry of every allocated inner table loses R |
| Simulation.Simulator.ClearInner | memsim.c:198-204 | the pages of inner table p lose R and no others change |
| Simulation.Simulator.ClearTable | memsim.c:200-203 | every entry of the table loses R |
| Simulation.Simulator.ProcessReference | memsim.c:229-411 | state and log line become Paging.Step's |
| Simulation.Simulator.ProcessMemoryReferences | memsim.c:211-413 | state and log become Paging.Run's over the trace |
| Simulation.Simulator.Resolve | memsim.c:236-398 | allocation, fault and access follow the resolution relation |
| Simulation.Simulator.FindEntry | memsim.c:239-279 | the returned table and index locate the address's page; only the outer table may change, as Allocate says |
| Simulation.Simulator.Translate | memsim.c:282-398 | it faults exactly when V was clear, then the state and PFN are Paging.Access's |
| Simulation.Simulator.MemoryFlush | memsim.c:415-462 | the swap store becomes Paging.Flush's |
| Simulation.Simulator.FlushSingle | memsim.c:417-431 | the single-table scan gives FlushFrom's store |
| Simulation.Simulator.FlushTwoLevel | memsim.c:432-461 | the outer-table scan gives FlushFrom's store |
| Simulation.Simulator.FlushOuter | memsim.c:439-458 | one outer pass flushes the 32 pages of inner table i |
| Simulation.Simulator.AbsentSkipped | memsim.c:439 | the pages of an inner table whose outer V bit is clear are all invalid, so flushing skips them |
| Simulation.Simulator.FlushInner | memsim.c:443-457 | the 32 entries of inner table i are flushed as FlushFrom says |

## Left out

- Command-line parsing and its range checks (memsim.c:464-531). The
  constructor takes the level, frame count, TICK and algorithm as
  parameters, and requires level 1 or 2 and 4 to 128 frames.
- Opening, zero-filling and closing the files (memsim.c:551-604,
  memsim.c:629-631). The swap store is a 65536-byte array whose initial
  contents are a constructor parameter. The initial contents of physical
  memory, uninitialised in the source, are also a parameter.
- Reading the trace with `fgets` and `sscanf` (memsim.c:72-77,
  memsim.c:227-236). The trace is a sequence of `Reference` records of
  mode, address and value.
- The `fprintf` of each log line and of the fault total (memsim.c:402-408,
  memsim.c:613). This is string output. The line's fields are the
  `LogRecord` datatype, and the total is `totalPageFaultCounter`.
- Floating-point `ceil(log2(...))` and `pow` (memsim.c:533-535). They are
  replaced by the integer `CeilLog2` and by the constants 32 and 32.
- `malloc` / `free`, the cleanup in `main` (memsim.c:545-548,
  memsim.c:616-627) and `freeList` (linkedList.c:207-218). This is memory
  management only; Dafny's heap is garbage-collected.
- `printList` and `printCircularList` (linkedList.c:179-205) are debug
  printing.
- The `strcmp` dispatch on the algorithm name is the `Algorithm`
  enumeration.
- The "Key not found" and "List is empty" messages of the list operations
  (linkedList.c:74, linkedList.c:102, linkedList.c:131, linkedList.c:151)
  are not modelled, because printing is out of scope. The no-change
  outcome is modelled.
- linkedList.h is not part of this model as a unit. It only declares the
  node structure and the prototypes.
- Bits.WriteBits: requires k + p <= 16. So it does not model the
  truncation to 16 bits of a field written past bit 15. No call in the
  source writes such a field.
- Replacement.ClockScan: takes a fuel bound on the number of inspections.
  `ClockFinds` proves that the fuel the model supplies, ring length + 1,
  always suffices, so no sweep of the source is cut short.
- LinkedList.Ring.CircularDeleteNode: keeps the removed node in `Repr`,
  and LinkedList.List.DeleteNode only keeps `Repr` within the old one. The
  source frees the removed node; freeing is not modelled.
- The `(char)value` store (memsim.c:394) is modelled as `value % 256` on
  unsigned bytes. Signedness of `char` does not affect the stored bits.
- The counters `referenceCounter` and `totalPageFaultCounter` are C `int`
  (memsim.c:63-64); the model counts with unbounded `nat`, so it says
  nothing about a trace long enough to overflow them.
- The `-a` option is not checked against the four names (memsim.c:509).
  With any other name no policy runs and `victimPageVpn` is read
  uninitialised (memsim.c:284, memsim.c:312-330). The `Algorithm`
  enumeration has only the four policies, so the model excludes this case.
- An existing swap file is reused as it is (opened with "r+" at
  memsim.c:551). If it is shorter than 65536 bytes, the `fread` at
  memsim.c:369-371 leaves part of the page buffer unread. The model's swap
  store always has 65536 bytes, so it excludes this case.
