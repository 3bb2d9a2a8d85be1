# Verification of the VT-d driver, the ticket lock and the per-CPU VM-exit state

This project models, in Dafny, the parts of the Spy hypervisor whose correctness depends on interleavings,
wrap-around and agreement between several data structures, and proves what they guarantee over all runs.
`dafny verify dfyconfig.toml` checks everything.

| file | what it models |
|---|---|
| `TicketLock.dfy` | the packed 16-bit ticket lock, and every interleaving of any number of CPUs |
| `InvalidationQueue.dfy` | queued invalidation: CPUs, the lock, the 256-slot rings, and hardware that fetches and executes at its own pace (VT-d specification, section 6.5.2) |
| `IntRemapTable.dfy`, `IntRemapSafety.dfy`, `IntRemapEffects.dfy` | the interrupt remapping table: allocator, two-half update, mapping, and hardware that reads or caches any entry at any time (section 5.1) |
| `IrEmulation.dfy`, `ShadowTable.dfy`, `QueueHandback.dfy` | the emulated queue of the root target, what it makes of the physical table, and taking over and handing back the queue |
| `ContextTables.dfy`, `PciDevices.dfy` | root and context tables (sections 9.1 and 9.3), and adding and removing PCI devices |
| `NmiTimer.dfy`, `ControlRegisters.dfy`, `PatShadow.dfy` | NMI and preemption timer, CR0/CR4 restriction and shadow, PAT and MTRR shadow |
| `PortBitmap.dfy`, `PortPartition.dfy` | the port bitmaps in memory, and who may access which port |
| `TableTree.dfy`, `PageWalk.dfy`, `Paging.dfy` | trees of tables, the page walk over the callbacks of `struct paging`, and the x86-64, EPT and VT-d formats |

State that the source changes in place is a class whose methods are proved against functions of the old state;
protocols are state machines over events, and a run is any sequence of events. Hardware is a set of events that
may happen at any time.

How parts outside the model appear:

- `page_alloc` hands out a zeroed page that is not in use, or nothing; the caller passes its answer.
- `apic_filter_irq_dest` is an arbitrary function from messages to accepted messages.
- `x86_check_events` is a counter. An NMI is an event that may come at any step at which NMIs are not blocked.
- `mmio_read64_field` and `mmio_write64_field` read and write the field at its bit position.
- Pages of the guest (its queue, its remapping table, the status word) may be unmapped, and may change between
  any two reads.
- The hardware side of a queue fetches descriptors from head to tail, which moves the head, and executes fetched
  requests in any order, except that it executes a wait only behind everything in front of it. The fence flag of
  the wait descriptor is not relied upon.
- 64-bit words in which only single bits matter (control registers, the port bitmap) are sets of bits; page-table
  entries are 64-bit vectors.

Where the code does less than one would expect, the model follows the code, and a theorem says exactly when the
expected property holds:

- The lock excludes for at most 65536 CPUs (`TicketLock.MutualExclusionIffEnoughTickets`).
- An add of a PCI device that runs out of memory frees the device's interrupt region also if that existed before
  (`PciDevices.FailedAddRollsBack`).
- When several used guest indices name the same interrupt, the physical entry follows the last one that was
  invalidated, whatever the others say (`ShadowTable.AllCoherentIff`). That happens when the guest moves an
  interrupt, since its old index stays in use (`ShadowTable.MovedInterruptUsedTwice`): the interrupt can stay
  enabled (`ShadowTable.StaleUseWins`) or be disabled (`ShadowTable.StaleUseDisables`) against the guest's wish.
- An emulated invalidation does not look at who owns a device (`ShadowTable.TouchesOnlyRootIff`).
- Freeing a region trusts the length it is given (`PciDevices.OverrunsIff`).
- The usage map keeps ten bits of a vector (`ShadowTable.RecordedVectorExact`).
- An NMI before the VMCS is marked ready is not acted upon by the handler (`NmiTimer.NoNmiIgnoredIffReady`).
- vmcs_setup stores a CR4 mask of 0 behind the one that vmx_set_guest_cr has just set
  (`ControlRegisters.HypervisorSeesGuestValue`).
- The first guest PAT is the host's, whether or not MTRRs are enabled (`PatShadow.GuestPatFollowsIff`).
- "always intercept access to i8042 command register" (vcpu.c, line 109) does not survive the refund to the root
  target (`PortPartition.CommandPortIntercepted`), and the refund relies on disjoint whitelists
  (`PortPartition.RunLeaksIff`, `PortPartition.LeaksIff`).
- The flags of a page-table entry are recovered only if they avoid the address bits and bit 7
  (`Paging.FlagsRecoveredL1` and its siblings).

## Model

| member | source | states |
|---|---|---|
| TicketLock.SpinLock.FetchAdd | hypervisor/arch/x86/include/asm/spinlock.h:26-31 | The 32-bit add on the packed word returns both old halves and advances only `next`, modulo 2^16; the carry out of `next` is lost and nothing reaches `owner` |
| TicketLock.SpinLock.Unlock | hypervisor/arch/x86/include/asm/spinlock.h:40-45 | The 16-bit add wraps within `owner` and leaves `next` alone |
| TicketLock.MutualExclusionIffEnoughTickets | hypervisor/arch/x86/include/asm/spinlock.h:26-45 | For any number n of CPUs: at most one CPU is in the critical section in every state of every interleaving if and only if n <= 65536 |
| TicketLock.OneTooMany | hypervisor/arch/x86/include/asm/spinlock.h:26-45 | With more CPUs than tickets there is an interleaving with two CPUs in the critical section |
| TicketLock.KeepsInv | hypervisor/arch/x86/include/asm/spinlock.h:26-45 | Every atomic step keeps the queue of outstanding tickets distinct, consecutive from `owner` up to `next`, and in step with where each CPU stands |
| TicketLock.FirstComeFirstServed | hypervisor/arch/x86/include/asm/spinlock.h:26-45 | In every run the CPUs have entered in exactly the order of their fetch-and-adds |
| TicketLock.DistanceIsQueuePosition | hypervisor/arch/x86/include/asm/spinlock.h:29-35 | A waiter's ticket minus `owner`, modulo 2^16, is its place in the queue and less than the number of CPUs |
| TicketLock.ReleaseLowersDistanceByOne | hypervisor/arch/x86/include/asm/spinlock.h:33-45 | Each unlock lowers the distance of every waiter by exactly one, and no other step changes it |
| TicketLock.PollEntersExactlyAtDistanceZero | hypervisor/arch/x86/include/asm/spinlock.h:33-35 | A poll ends the wait of exactly the CPU at distance zero |
| TicketLock.WaitingCpuEnters | hypervisor/arch/x86/include/asm/spinlock.h:26-45 | From every reachable state a CPU at distance k can enter the critical section after at most 3k + 2 more steps, all of them by CPUs whose turn it is |
| TicketLock.LockPossible | hypervisor/arch/x86/include/asm/spinlock.h:26-31 | A CPU without the lock can always fetch a ticket, and waits from then on |
| TicketLock.UnlockPossible | hypervisor/arch/x86/include/asm/spinlock.h:40-45 | A CPU with the lock can always give it back |
| InvalidationQueue.KeepsInv | hypervisor/arch/x86/vtd.c:197-233 | Every step of any CPU and of the hardware, in any interleaving, keeps the protocol invariant: an idle unit is empty, and the unit of the lock holder holds a suffix of the holder's own batch |
| InvalidationQueue.FreeLockMeansIdleUnits | hypervisor/arch/x86/vtd.c:207-233 | While the lock is free every queue is empty, and each unit has executed exactly the batches of the calls that were made, in the order of their returns: a call acts as one step |
| InvalidationQueue.AtMostTwoInFlight | hypervisor/arch/x86/vtd.c:223-227 | In every run no unit has more than two descriptors stored or fetched and not yet executed |
| InvalidationQueue.UnconsumedSlotsSurviveWrites | hypervisor/arch/x86/vtd.c:197-205 | A write to the 256-entry ring never hits a slot that the hardware has still to fetch |
| InvalidationQueue.ReturnsOnlyAfterOwnRequest | hypervisor/arch/x86/vtd.c:216-232 | When a call returns, the unit it was made for has executed, since the lock was taken, the request it was made with and then its own wait, or only the wait if it was made without a request: the completion flag it saw was not stale |
| InvalidationQueue.RunWorksFor | hypervisor/arch/x86/vtd.c:207-233 | At every step of every run each CPU works for the unit and the request of the call it has made last |
| InvalidationQueue.ReturnedAsMade | hypervisor/arch/x86/vtd.c:207-233 | The history of finished calls is, release by release, the calls as they were made |
| InvalidationQueue.AllCallsReturn | hypervisor/arch/x86/vtd.c:207-233 | Without new calls only a bounded number of steps follows, in any interleaving of CPUs and hardware, and as long as a call is in progress one of them is possible: every call returns |
| InvalidationQueue.PollingNeverStuck | hypervisor/arch/x86/vtd.c:229-230 | A polling CPU sees its flag, or the hardware of its unit has a step to take |
| InvalidationQueue.CompletesInOrder | hypervisor/arch/x86/vtd.c:209-214 | Although the hardware may execute fetched requests in any order, a wait executes only behind everything in front of it, and therefore every unit executes in queue order |
| InvalidationQueue.WindowGrows | hypervisor/arch/x86/vtd.c:197-205 | Storing at the tail index appends to what is pending, across the wrap-around of the ring, as long as a slot stays free |
| IntRemapTable.FindFrom | hypervisor/arch/x86/vtd.c:567-577 | The least index below the limit that is assigned to the device, or none if there is none |
| IntRemapTable.FirstFitFrom | hypervisor/arch/x86/vtd.c:579-605 | The least start of a wholly free window of the length inside the limit; none exactly if no such window exists |
| IntRemapTable.RemapTable.FindRegion | hypervisor/arch/x86/vtd.c:567-577 | The loop returns the first assigned index of the device, or -ENOENT |
| IntRemapTable.RemapTable.ReserveRegion | hypervisor/arch/x86/vtd.c:579-605 | The single pass finds the first fit, with the 32-bit sum of the source: -E2BIG exactly if no window fits, and otherwise only that window is written, entry by entry |
| IntRemapTable.RemapTable.UpdateIrte | hypervisor/arch/x86/vtd.c:531-565 | The sequence of accesses: upper half first for a present entry, only the lower half otherwise, and then one invalidation per unit; the table is what that sequence leaves |
| IntRemapTable.PlayUpdate | hypervisor/arch/x86/vtd.c:542-557 | After an update the entry is the given content, or keeps its upper half if that is not present; all other entries are untouched |
| IntRemapTable.RemapTable.FreeRegion | hypervisor/arch/x86/vtd.c:607-617 | Clears the given number of entries from the first one of the device on, in order, and does nothing for a device without entries; tells exactly when the source would go on behind the table |
| IntRemapTable.RemapTable.MapInterrupt | hypervisor/arch/x86/vtd.c:789-837 | Returns base plus vector or the error of the first failed check, and touches the table only on success |
| IntRemapTable.MapIndex | hypervisor/arch/x86/vtd.c:794-804 | An accepted index is below the limit and assigned to the device |
| IntRemapSafety.NoTornEntry | hypervisor/arch/x86/vtd.c:531-558 | Over all runs of reserve, map and free, with mappings on any number of CPUs at once, between any two accesses: every entry in the table or in the cache of any unit is not present, or names the owner of its index with full source-id verification |
| IntRemapSafety.HiWriteIsSafe | hypervisor/arch/x86/vtd.c:542-549 | The write of the upper half changes nothing for a present entry and makes nothing visible for another |
| IntRemapSafety.PresentEntryKeepsUpperHalf | hypervisor/arch/x86/vtd.c:542-549 | Over all runs, and with other mappings of the same entry under way, the write of the upper half of a present entry changes nothing |
| IntRemapSafety.MapStepOk | hypervisor/arch/x86/vtd.c:531-564 | An access of a mapping changes no owner of any entry, so the mappings of other CPUs go on as planned |
| IntRemapSafety.CachesCoherent | hypervisor/arch/x86/vtd.c:560-564 | A unit acts on a cached entry that differs from memory only while some CPU has still to flush it there |
| IntRemapSafety.ContiguousRegions | hypervisor/arch/x86/vtd.c:567-617 | Outside of reservations and releases each device owns one contiguous run that starts where vtd_find_int_remap_region says, an entry is assigned exactly if it lies in such a run, and every present entry is assigned |
| IntRemapSafety.ReachableTableInv | hypervisor/arch/x86/vtd.c:567-617 | The invariant that handles and shadow coherence rest on holds outside of the reservations and releases of every run, however many mappings are under way |
| IntRemapSafety.MapIndexExact | hypervisor/arch/x86/vtd.c:794-804 | The check of a single entry amounts to "the device has a region and the vector lies inside it" |
| IntRemapSafety.MapOutcomeExact | hypervisor/arch/x86/vtd.c:794-820 | A mapping fails with -ENOENT, -ERANGE, -EINVAL or -EPERM exactly for a device without region, a vector outside of it, another delivery mode of a valid message, or a refused destination, and then makes no access |
| IntRemapSafety.DistinctHandles | hypervisor/arch/x86/vtd.c:794-836 | Distinct (device, vector) pairs never get the same entry |
| IntRemapSafety.MapKeepsTableInv | hypervisor/arch/x86/vtd.c:802-834 | A successful map writes only the entry at base plus vector inside the device's own run, does not change the upper half of a present entry, and keeps the table invariant |
| IntRemapSafety.ReserveThenFree | hypervisor/arch/x86/vtd.c:579-617 | Reserving for a device without a region and freeing the same length restores the assignment of every index |
| IntRemapEffects.MapTakesEffect | hypervisor/arch/x86/vtd.c:789-837 | When a CPU has made its accesses, in any interleaving with mappings of other interrupts on other CPUs and with reads by the hardware, the entry at base plus vector holds the fields of the filtered message with full verification, is disabled for an invalid message, or is unchanged for a refused one; no unit caches it otherwise |
| IntRemapEffects.MapCompletes | hypervisor/arch/x86/vtd.c:531-565 | A mapping can begin whenever its CPU is at rest and no reservation or release is under way, and ends after at most two writes and a flush for each unit |
| IntRemapEffects.ReserveTakesEffect | hypervisor/arch/x86/vtd.c:579-605 | A device without a region gets exactly the first free window of the length; a device with one, a length of 0 or a full table change nothing |
| IntRemapEffects.FreeTakesEffect | hypervisor/arch/x86/vtd.c:607-617 | The region is gone, its entries are cleared, all others are untouched, and no unit caches a present entry of the region any more |
| IntRemapEffects.ConfigCompletes | hypervisor/arch/x86/vtd.c:579-617 | A reservation or release can begin while no operation is under way, and comes to its end |
| IntRemapEffects.CacheKeepsUntilFlushed | hypervisor/arch/x86/vtd.c:560-564 | The hardware may read any entry at any time, and keeps what it read exactly until it reads again or an access flushes the entry in this unit |
| IrEmulation.Emulation.GetRemappedRootInt | hypervisor/arch/x86/vtd.c:747-787 | The message of the guest entry, valid only for the device it names; the usage map forgets the index if the guest's table cannot be read and records device and the low ten bits of the vector otherwise |
| IrEmulation.Emulation.EmulateInvInt | hypervisor/arch/x86/vtd.c:363-383 | One index: nothing for an unused one, otherwise the guest entry is fetched anew and mapped for the recorded device and vector |
| IrEmulation.Emulation.EmulateInvRange | hypervisor/arch/x86/vtd.c:402-407 | Indices in ascending order up to the first error |
| IrEmulation.Emulation.EmulateRequest | hypervisor/arch/x86/vtd.c:385-426 | What one descriptor does: ranges and global invalidation, status writes, and refusal of everything else |
| IrEmulation.Emulation.WriteTail | hypervisor/arch/x86/vtd.c:457-475 | A tail write terminates, handles exactly the descriptors from the old head to the new tail in ring order and ends with the head on the tail, or stops with the head on the first bad descriptor; the head stays 16-aligned inside the page |
| IrEmulation.Emulation.Access | hypervisor/arch/x86/vtd.c:428-484 | Fault status reads as 0, the four fault-event registers are shadowed one by one in 32 bits, only a tail write changes the emulation, and every other access is an error |
| IrEmulation.NextOffset | hypervisor/arch/x86/vtd.c:457-474 | Stepping the head by 16 modulo 4096 meets the tail for the first time after as many steps as there are pending descriptors |
| IrEmulation.TailMask | hypervisor/arch/x86/vtd.c:458-459 | The two masks of the tail value leave the low eight bits of the slot index, in place |
| IrEmulation.TailSlot | hypervisor/arch/x86/vtd.c:458-459 | As a number the masked value is 16 times the tail index modulo 256, so the loop compares aligned offsets inside the page |
| IrEmulation.IndexRequestDecodes | hypervisor/arch/x86/vtd.c:392-397 | The emulation decodes an index request that is composed as the driver composes its own to exactly that index and 2 to the power of the mask many entries |
| IrEmulation.OtherRequestsDecode | hypervisor/arch/x86/vtd.c:385-424 | It decodes a global request to all entries, and a wait request, with or without fence and with any 32-bit data, to a write of that data to the aligned address |
| ShadowTable.RangeReflects | hypervisor/arch/x86/vtd.c:402-407 | After a successful range invalidation the physical entry of every interrupt used in the range is what the guest's entry at the last such index asks for, with the guest's message as filtered and full verification, or not present |
| ShadowTable.RangeRaisesSame | hypervisor/arch/x86/vtd.c:363-408 | In terms of the guest's table alone: with a filter that changes no message, the physical entry of a used interrupt is present exactly if the guest's entry is, and has its vector, delivery mode, trigger mode, destination mode, redirection hint and the destination bits that the APIC mode uses |
| ShadowTable.ReflectsSameInterrupt | hypervisor/arch/x86/vtd.c:774-784 | An entry that reflects an enabling guest entry raises the same interrupt, field by field |
| ShadowTable.RangeSucceedsIff | hypervisor/arch/x86/vtd.c:363-407 | A range invalidation succeeds if and only if for each used index in it the device has an entry for the vector, and the delivery mode and the destination of an enabling guest entry are accepted |
| ShadowTable.UnreadableIsForgotten | hypervisor/arch/x86/vtd.c:755-767 | An index whose guest entry cannot be read is no longer in use: invalidating it again does nothing |
| ShadowTable.RangeFrame | hypervisor/arch/x86/vtd.c:363-407 | All entries that no used index in the range names are untouched |
| ShadowTable.RangeKeepsInv | hypervisor/arch/x86/vtd.c:363-407 | A successful range invalidation keeps the table invariant |
| ShadowTable.RangeUsage | hypervisor/arch/x86/vtd.c:363-407 | It changes the use of no index outside the range |
| ShadowTable.FailedIndexTouchesNothing | hypervisor/arch/x86/vtd.c:373-382 | An index whose mapping fails makes no access to the table |
| ShadowTable.AllCoherentIff | hypervisor/arch/x86/vtd.c:363-408 | If the used indices outside the range were coherent, all used indices are coherent afterwards if and only if each asks for the same as the last index in the range that is used for the same interrupt |
| ShadowTable.ShadowCoherence | hypervisor/arch/x86/vtd.c:363-408 | If used indices name distinct interrupts, every used index in the range ends up coherent with the guest's current entry |
| ShadowTable.CoherentIff | hypervisor/arch/x86/vtd.c:363-408 | A used index anywhere in the guest's table whose interrupt the range handles is coherent if and only if its guest entry and the one at the last index in the range for that interrupt ask for the same thing |
| ShadowTable.StaleUseWins | hypervisor/arch/x86/vtd.c:363-408 | An interrupt that the guest has disabled at one index, by an absent, non-present or foreign entry, stays enabled if a later used index in the range still enables it |
| ShadowTable.StaleUseDisables | hypervisor/arch/x86/vtd.c:363-408 | When the guest clears and invalidates an index that it no longer uses for an interrupt, the interrupt is disabled although the entry at its new index, outside the range, enables it |
| ShadowTable.MovedInterruptUsedTwice | hypervisor/arch/x86/vtd.c:755-784 | Setting an interrupt up at a new index leaves its old index in use |
| ShadowTable.TouchesOnlyRootIff | hypervisor/arch/x86/vtd.c:363-407 | An invalidation accesses only entries of devices the root target owns if and only if no used index in the range names an interrupt of another target's device: the owner is not looked at |
| ShadowTable.RecordedVectorExact | hypervisor/arch/x86/vtd.c:150-154 | Since irte_usage.vector has ten bits, a later invalidation updates the entry of the interrupt that was set up if and only if its vector is below 1024 |
| ShadowTable.DestinationSurvives | hypervisor/arch/x86/vtd.c:776-828 | In xAPIC mode the shift down and up again loses only the bits of the destination that flat mode does not use |
| ShadowTable.TailWriteRefreshes | hypervisor/arch/x86/vtd.c:385-475 | After a tail write that was handled, with any number of pending descriptors, every used index that any of them asks for is coherent with the guest's table, if used indices name distinct interrupts and the table does not change meanwhile |
| ShadowTable.IndexRequestRefreshes | hypervisor/arch/x86/vtd.c:392-407 | An index request with mask m refreshes the 2^m indices from its own on |
| ShadowTable.GlobalRequestRefreshes | hypervisor/arch/x86/vtd.c:398-407 | A global request refreshes all used indices |
| ShadowTable.WaitRequestWritesStatus | hypervisor/arch/x86/vtd.c:408-423 | A wait request writes exactly its data to the aligned address and changes nothing else; it is refused exactly if the page of the address is not mapped |
| ShadowTable.OthersAreRefused | hypervisor/arch/x86/vtd.c:385-426 | A descriptor that is neither an interrupt invalidation nor a wait with status write and without interrupt is refused, and changes nothing |
| QueueHandback.QueueUnit.Submit | hypervisor/arch/x86/vtd.c:207-233 | On an idle queue the call returns with the hardware having executed exactly its batch, and head and tail behind it |
| QueueHandback.QueueUnit.RestoreHead | hypervisor/arch/x86/vtd.c:881-897 | From a reset ring exactly iqh / 16 wait-only requests are issued, the loop terminates, and the hardware head is on iqh; none is issued if the guest's queue page cannot be mapped |
| QueueHandback.QueueUnit.AdoptPosition | hypervisor/arch/x86/vtd.c:930-938 | Returns with everything executed that the root target had queued; a queue of one page is adopted at the hardware's position, another one is refused with -EIO |
| QueueHandback.ReachableByDummies | hypervisor/arch/x86/vtd.c:892-895 | Dummy requests reach an offset if and only if it is a descriptor boundary inside the page |
| QueueHandback.TakeoverRoundTrip | hypervisor/arch/x86/vtd.c:881-938 | After taking over at position t, emulating n descriptors and handing back, the hardware stands at (t + n) mod 256 |
| ContextTables.RunRefines | hypervisor/arch/x86/vtd.c:619-681 | After any run of adds and removes the lookup through root and context table equals the simple map from device to domain id and page table |
| ContextTables.AddRefines | hypervisor/arch/x86/vtd.c:628-650 | An add changes the lookup of exactly the added device; it fails only if the bus has no context table and no page is left |
| ContextTables.RemoveRefines | hypervisor/arch/x86/vtd.c:667-680 | A remove changes the lookup of no other device, also when the device was absent and when the context table is given back |
| ContextTables.BusPresentIffUsed | hypervisor/arch/x86/vtd.c:634-645 | The root entry of a bus is present if and only if some device on the bus is |
| ContextTables.PagesInUse | hypervisor/arch/x86/vtd.c:637-680 | As many context pages are in use as there are buses with a device |
| ContextTables.RunWidthsFit | hypervisor/arch/x86/vtd.c:646-647 | In every run each present context entry names the address width that fits the number of page-table levels, 12 + 9 bits for each level |
| ContextTables.AddressWordDecodes | hypervisor/arch/x86/vtd.c:640-643 | Present bit and page address of a root or context word can be told apart again |
| ContextTables.HighWordDecodes | hypervisor/arch/x86/vtd.c:646-648 | Address width and domain id of a context entry can be told apart again |
| PciDevices.Iommu.AddDevice | hypervisor/arch/x86/vtd.c:619-656 | Region and context entry together; out of memory, the tables are as before and the region is freed again; tells exactly when that freeing would go on behind the table |
| PciDevices.Iommu.RemoveDevice | hypervisor/arch/x86/vtd.c:658-681 | Frees the region, clears the entry, and gives the context table back exactly if no entry of it is present; tells when the freeing would go on behind the table |
| PciDevices.FailedAddRollsBack | hypervisor/arch/x86/vtd.c:628-656 | An add that fails for memory leaves every interrupt assignment as it was if and only if the device had no region before or asks for no vectors |
| PciDevices.OverrunsIff | hypervisor/arch/x86/vtd.c:607-656 | Freeing goes on behind the table if and only if the device has a region that starts too close to the end for the length: never with the length it was reserved with, nor for a region reserved by the same call |
| PciDevices.AddedDeviceMaps | hypervisor/arch/x86/vtd.c:619-656 | A device that is added can use exactly the vectors below the number it asked for, from the first free window on, and no other device gains or loses an interrupt |
| PciDevices.RemovedDeviceMaps | hypervisor/arch/x86/vtd.c:658-681 | A device that is removed with that number has no interrupt left, and every other device keeps its own |
| PciDevices.AddThenRemoveLookup | hypervisor/arch/x86/vtd.c:619-681 | An add makes the device found at its target, and removing it again restores the lookup of every device |
| NmiTimer.Vcpu.NmiHandler | hypervisor/arch/x86/vmx.c:859-862 | Enables the timer exactly if the VMCS is ready, and changes no other control |
| NmiTimer.Vcpu.CheckEvents | hypervisor/arch/x86/vmx.c:881-884 | Disables the timer and runs x86_check_events once |
| NmiTimer.NoNmiIgnoredIffReady | hypervisor/arch/x86/vmx.c:849-912 | In every reachable state in which an NMI can be delivered, from before vmxon on: some continuation runs the guest with the NMI not acted upon if and only if the VMCS is not yet marked ready |
| NmiTimer.EveryNmiIsCheckedSoon | hypervisor/arch/x86/vmx.c:849-912 | Once the VMCS is ready, x86_check_events starts within six steps of the hypervisor after any NMI, however many more arrive, also between the read and the write of the controls |
| NmiTimer.GuestRunsAgain | hypervisor/arch/x86/vmx.c:849-912 | From every reachable state with a ready VMCS at most eight steps without another NMI, and from the start of vmx_check_events exactly five, enter the guest with the timer off |
| NmiTimer.CheckEventsSteps | hypervisor/arch/x86/vmx.c:881-884 | The three steps of vmx_check_events, undisturbed, switch the timer off, count one check and change no other control |
| NmiTimer.NmiHandlerSteps | hypervisor/arch/x86/vmx.c:859-862 | The two steps of the handler, undisturbed, switch the timer on and change no other control |
| NmiTimer.ExceptionExitsCheck | hypervisor/arch/x86/vmx.c:886-912 | After an exit for an exception the guest does not run again before x86_check_events has |
| NmiTimer.OtherControlsUntouched | hypervisor/arch/x86/vmx.c:849-857 | No interleaving of the two read-modify-write sequences disturbs another pin-based control |
| ControlRegisters.ControlRegisterState.Define | hypervisor/arch/x86/vmx.c:155-166 | Stores the first report or compares with it, for one register only |
| ControlRegisters.AllPassIffSame | hypervisor/arch/x86/vmx.c:155-166 | All CPUs pass if and only if every CPU from the first one with a non-zero maybe1 on reports the same pair, and that pair is stored |
| ControlRegisters.PassesIff | hypervisor/arch/x86/vmx.c:155-166 | Each CPU, whether or not others fail, passes if and only if it comes no later than the first one with a non-zero maybe1 or reports the stored pair |
| ControlRegisters.ControlRegisterState.SetGuestCr | hypervisor/arch/x86/vmx.c:391-404 | Register, shadow and mask of one control register for the requested value, with VMXE added for CR4 |
| ControlRegisters.ControlRegisterState.GetGuestCr4 | hypervisor/arch/x86/vmx.c:406-411 | The CR4 that shadow and register show through the mask |
| ControlRegisters.SetThenGet | hypervisor/arch/x86/vmx.c:391-411 | The requested value reads back unchanged with VMXE added, for guest and hypervisor, and the register has all required bits and none outside maybe1 and required1 |
| ControlRegisters.OwnedIffFree | hypervisor/arch/x86/vmx.c:391-404 | The guest owns exactly the bits of which VMX operation permits both values |
| ControlRegisters.GuestReadsItsLastWrite | hypervisor/arch/x86/vmx.c:391-404 | Over every run the guest reads what its writes and resets alone determine: before the first reset its last write that the processor accepts, after it its last write, with VMXE added exactly if the write asks for a change of a bit the guest does not own; its register always obeys the restriction |
| ControlRegisters.HypervisorSeesGuestValue | hypervisor/arch/x86/vmx.c:406-411 | The hypervisor computes the CR4 that the guest reads if and only if a reset has happened since vmcs_setup or the inherited CR4 fits the restriction |
| PatShadow.Cpu.WritePatMsr | hypervisor/arch/x86/vcpu.c:311-325 | Accepts exactly the values whose eight bytes are memory types; an accepted value goes to the shadow and, while MTRRs are on, to the guest |
| PatShadow.Cpu.WriteDefTypeMsr | hypervisor/arch/x86/vcpu.c:326-339 | Takes over only the enable bit and switches the guest between shadow PAT and 0 |
| PatShadow.Cpu.ReadMsrs | hypervisor/arch/x86/include/asm/processor.h:315-322 | What a read leaves in rax and rdx, written back with wrmsr, is the shadow value |
| PatShadow.Cpu.ResetCpu | hypervisor/arch/x86/vcpu.c:398-410 | A hard reset sets the architectural PAT, disables the MTRRs and makes all guest memory uncached; another reset keeps all three |
| PatShadow.PatWriteExact | hypervisor/arch/x86/vcpu.c:311-325 | A PAT write is accepted exactly if the four low bytes of rax and of rdx are memory types, and then these are bytes 0 to 3 and 4 to 7 of the shadow |
| PatShadow.DefTypeWriteExact | hypervisor/arch/x86/vcpu.c:326-339 | A write to MTRRdefType turns the MTRRs on exactly if bit 11 of rax is set |
| PatShadow.ResetBytes | hypervisor/arch/x86/vcpu.c:398-410 | A hard reset leaves the memory types WB, WT, UC- and UC, twice, in the PAT |
| PatShadow.ShadowFollowsWrites | hypervisor/arch/x86/vcpu.c:275-339 | Over every run the PAT reads as the last accepted write or reset, also while MTRRs are off, each byte of it is a memory type, and of MTRRdefType only the enable bit follows the guest |
| PatShadow.GuestPatFollowsIff | hypervisor/arch/x86/vcpu.c:311-339 | "The guest PAT is the shadow if MTRRs are on and 0 otherwise" holds in all states of all runs if and only if the guest starts with MTRRs on or a PAT of 0 |
| PatShadow.GuestPatFollowsOnceDecided | hypervisor/arch/x86/vcpu.c:326-339 | From any start it holds for good after the first MTRR write or hard reset |
| PortBitmap.IoBitmap.WriteWordBit | hypervisor/arch/include/spy/bitops.h:26-34 | The read-modify-write of a little-endian 64-bit word changes exactly one bit of the byte-addressed bitmap |
| PortBitmap.IoBitmap.WriteByteBit | hypervisor/arch/x86/vcpu.c:111-126 | The read-modify-write of one byte changes exactly the bit that the word access with the same number changes |
| PortBitmap.IoBitmap.AllowAccess | hypervisor/arch/x86/vcpu.c:68-76 | Exactly the ports of the interval are opened or closed; tells exactly when the source would go on behind the bitmap |
| PortBitmap.IoBitmap.Refund | hypervisor/arch/x86/vcpu.c:131-150 | The pairwise intersection opens exactly the ports in both whitelist unions and touches no other |
| PortBitmap.Target.Init | hypervisor/arch/x86/vcpu.c:78-129 | A new target may access exactly its whitelist without the i8042 command port, and the PM timer; the root target loses exactly the whitelist; on an error nothing changes |
| PortPartition.StartRoot | hypervisor/arch/x86/vcpu.c:78-129 | vcpu_target_init of the root target gives the bitmap that the runs below start with |
| PortPartition.StartTarget | hypervisor/arch/x86/vcpu.c:78-129 | vcpu_target_init is a Start step of the runs below |
| PortPartition.LeaveTarget | hypervisor/arch/x86/vcpu.c:131-150 | vcpu_target_exit is a Leave step of the runs below |
| PortPartition.RootAccessExact | hypervisor/arch/x86/vcpu.c:78-150 | Over every run with disjoint whitelists the root target's access to every port, exceptions included: none while taken, by its whitelist once given back, as at the start otherwise |
| PortPartition.PortsArePartitioned | hypervisor/arch/x86/vcpu.c:78-150 | For a port other than the i8042 command port and the PM timer: root has access if and only if its whitelist grants it and no live target's does, a live target if and only if its own does, and no two have access at once |
| PortPartition.CommandPortIntercepted | hypervisor/arch/x86/vcpu.c:110-126 | The root target escapes the interception of the i8042 command port if and only if its whitelist grants the port and a target that had it has left |
| PortPartition.SpecialPorts | hypervisor/arch/x86/vcpu.c:109-126 | For every live target the four ports of the PM timer are open and the i8042 command port is closed, whatever its whitelist says |
| PortPartition.SharedPortLeaks | hypervisor/arch/x86/vcpu.c:131-150 | The smallest such run: two targets share a port and one of them leaves |
| PortPartition.LeaveLeaksIff | hypervisor/arch/x86/vcpu.c:131-150 | With any whitelists: a leave gives the root target a live target's port if and only if the whitelists of root, of the leaving target and of another live target all grant it |
| PortPartition.StartNeverLeaks | hypervisor/arch/x86/vcpu.c:112-119 | A start never does |
| PortPartition.RunLeaksIff | hypervisor/arch/x86/vcpu.c:78-150 | A run gives the root target a live target's port at some point if and only if it contains such a leave |
| PortPartition.LeaksIff | hypervisor/arch/x86/vcpu.c:78-150 | At the end of any run, a live target's port is open to the root target if and only if root's whitelist grants it and some target has given it back with none taking it since |
| TableTree.WriteFrame | hypervisor/arch/include/spy/paging.h:96-176 | In any tree of tables without aliases, writing the entry that a path leads to changes the lookup of exactly the keys behind that path |
| TableTree.WriteKeepsTree | hypervisor/arch/include/spy/paging.h:126-167 | A terminal entry, or a link to a detached table without links, keeps the tree free of aliases |
| TableTree.DetachedWalk | hypervisor/arch/include/spy/paging.h:126-167 | Writing to a table that no path leads to changes no lookup |
| PageWalk.TranslateIsLookup | hypervisor/arch/include/spy/paging.h:101-161 | The level-by-level walk over the callbacks is the lookup in the tree of tables along the indices of the address |
| PageWalk.EditFrame | hypervisor/arch/include/spy/paging.h:96-167 | A written entry translates every address on its page, a link as the linked table does, and changes the translation of no address whose index path does not reach it |
| PageWalk.SplitKeepsTranslation | hypervisor/arch/include/spy/paging.h:126-161 | Replacing an entry by a link to a table that translates the page alike changes the translation of no address |
| PageWalk.LinkReaches | hypervisor/arch/include/spy/paging.h:146-161 | After set_next_pt the new table is the one that the next level of every address on the page is looked up in |
| PageWalk.RunTranslates | hypervisor/arch/include/spy/paging.h:96-167 | After any run of entry writes on an empty root and on tables outside of the tree the tables form a tree and translate every address as the last write for its page says |
| PageWalk.LinksReach | hypervisor/arch/include/spy/paging.h:146-161 | Linking spare pages one below the other is always allowed, leads to the last of them, and reaches no other page |
| PageWalk.AddressCanBeMapped | hypervisor/arch/include/spy/paging.h:119-161 | With a spare page for each level in between, any address can be mapped: the run exists and the walk follows it |
| PageWalk.EntryCanBeRewritten | hypervisor/arch/include/spy/paging.h:119-144 | In a table that exists an entry can be set, replaced and cleared after any run: the write is allowed, takes effect exactly for the addresses on its page, and leaves the table in place |
| PageWalk.PageTablesTranslate | hypervisor/arch/include/spy/paging.h:96-176 | After any run of set_terminal, set_next_pt and clear_entry, in the tree or on tables to be linked later, for any format whose callbacks keep their documentation: an address maps to frame and offset of the last set_terminal for its page if the flags grant the access, to where a linked table takes it, and nowhere otherwise |
| Paging.FormatsTranslate | hypervisor/arch/x86/paging.c:97-129 | The same for the hypervisor's own format, EPT and VT-d, with four levels or the last three |
| Paging.LevelsWellBehaved | hypervisor/arch/x86/paging.c:70-88 | get_phys returns INVALID_PHYS_ADDR for exactly the entries that are links |
| Paging.WritesAreWellBehaved | hypervisor/arch/x86/paging.c:17-68 | set_terminal maps to frame and offset and grants exactly what its flags grant, set_next_pt is never taken for a page, and a cleared entry is not valid |
| Paging.PageCanBeMapped | hypervisor/arch/x86/paging.c:17-68 | With two or three spare pages any 4K page can be mapped in any of the formats, and the walk returns frame and offset for every access that the flags grant and the format knows: read and write, and execution in EPT |
| Paging.PtEntry.SetTerminalOnL1 | hypervisor/arch/x86/paging.c:65-68 | The entry in place is the 4K word, and get_phys gives back frame and offset for every address if the flags avoid the address bits |
| Paging.PtEntry.SetTerminalOnL2 | hypervisor/arch/x86/paging.c:60-63 | The same for a 2M entry |
| Paging.PtEntry.SetTerminalOnL3 | hypervisor/arch/x86/paging.c:55-58 | The same for a 1G entry |
| Paging.PtEntry.SetNextPt | hypervisor/arch/x86/paging.c:17-19 | The entry in place gives back the table and is valid for every access that the format knows |
| Paging.PtEntry.ClearEntry | hypervisor/arch/x86/paging.c:21-23 | The entry in place holds PAGE_NONPRESENT_FLAGS and is not valid |
| Paging.TerminalL1 | hypervisor/arch/x86/paging.c:65-84 | 4K pages: get_phys after set_terminal is bits 51:12 of the frame and bits 11:0 of the address |
| Paging.TerminalL2 | hypervisor/arch/x86/paging.c:60-80 | 2M pages: bits 51:21 and 20:0 |
| Paging.TerminalL3 | hypervisor/arch/x86/paging.c:55-74 | 1G pages: bits 51:30 and 29:0 |
| Paging.FlagsRecoveredL1 | hypervisor/arch/x86/paging.c:13-15 | The flags of a 4K entry are recovered if and only if they avoid the address bits and bit 7 |
| Paging.FlagsRecoveredL2 | hypervisor/arch/x86/paging.c:13-15 | The same for a 2M entry |
| Paging.FlagsRecoveredL3 | hypervisor/arch/x86/paging.c:13-15 | The same for a 1G entry |
| Paging.LinkRoundTrip | hypervisor/arch/x86/paging.c:17-19 | A link gives back bits 51:12 of the table, is present, and has no huge-page bit, in all three formats |
| Paging.LinkGrants | hypervisor/arch/x86/paging.c:17-19 | A link is valid for read and write, and in EPT for execution, in any combination: what an address permits is up to its terminal entry |
| Paging.ValidForBoth | hypervisor/arch/x86/paging.c:9-11 | An entry is valid for two accesses together if and only if it is for each of them |
| Paging.ClearedPointsBeyond | hypervisor/arch/x86/paging.c:21-23 | The address bits of a cleared entry point into the topmost gigabyte below 2^52, as a page and as a table |
| Paging.SamePageL3 | hypervisor/arch/x86/paging.c:35-43 | Addresses share a 1G entry if and only if they agree in bits 47:30 |
| Paging.SamePageL2 | hypervisor/arch/x86/paging.c:35-48 | Addresses share a 2M entry if and only if they agree in bits 47:21 |
| Paging.SamePageL1 | hypervisor/arch/x86/paging.c:35-53 | Addresses share a 4K entry if and only if they agree in bits 47:12 |
| Paging.AddressFromIndices | hypervisor/arch/x86/paging.c:35-53 | The four indices and the page offset make up the lower 48 bits of the address, in this order |
| Paging.PageTableEmpty | hypervisor/arch/x86/paging.c:25-33 | True if and only if none of the 512 entries is present |

## Left out

- InvalidationQueue.KeepsInv: the lock is one atomic step here; that the ticket lock provides it is what TicketLock proves separately.
- IrEmulation.Emulation.EmulateInvInt: without the ivshmem branch, whose handler is not part of this model.
- ShadowTable.TailWriteRefreshes: for a guest table that stays as it is while the pending descriptors are handled; RangeReflects says what each range does with the table as it is read.
- IrEmulation.Emulation.constructor: asks for an aligned start inside the page, which QueueHandback.QueueUnit.AdoptPosition establishes.
- IntRemapSafety.NoTornEntry: mappings on all CPUs interleave, but a reservation or release runs while no mapping is under way, and a mapping reads the entry it is to change in one step.
- IntRemapEffects.MapTakesEffect: for an interrupt that no other CPU is mapping at the same time; of two concurrent mappings of one interrupt only NoTornEntry and CachesCoherent are stated.
- IntRemapTable.RemapTable.FreeRegion: stops and reports where the source would write behind the table; what it writes there is not modelled.
- PciDevices.Iommu.RemoveDevice: requires a bus with a context table; for another one the source follows whatever address the root entry holds.
- PortBitmap.IoBitmap.AllowAccess: stops and reports where the source would write behind the bitmap; PortBitmap.Target.Init and PortBitmap.IoBitmap.Refund require whitelists inside the 65536 ports.
- NmiTimer.EveryNmiIsCheckedSoon: counts steps of one CPU and no time; a guest that panics and is parked is one that goes on.
- PageWalk.PageTablesTranslate: a table may be filled with terminal entries before it is linked, but not with links to further tables.
- ControlRegisters.ControlRegisterState.SetGuestCr: VMCS writes do not fail here.
- TicketLock.WaitingCpuEnters: a CPU whose turn it is has to take its steps; that it does so in time is up to the machine.
- TicketLock.MutualExclusionIffEnoughTickets: each CPU takes one lock at a time, and memory is sequentially consistent.
- paging_create and paging_destroy (choice of page sizes, flushing, freeing empty tables) are not in the repository.
- The read-only i386 and PAE formats of paging.c: fewer operations on the same walk.
- Two-word reads of a remapping entry in separate accesses; the hardware reads 128 bits at once.
- Fault reporting, feature probing, cache and TLB flushes, register programming in vtd_init_unit: no state that another operation reads.
- Domain and global cache flushes: the same queue protocol with other requests.
- IOAPIC regions, which vtd_target_init reserves and nothing frees: reservations like those of devices.
- VM-exit handlers other than exceptions and the timer, the moderation of i8042 commands, MSR bitmaps and register index maps: fixed tables or straight-line code.
- APIC delivery-mode numbers and the i8042 command port 0x64, whose headers are not in the repository, have their architectural values.
- Messages of the communication region: only the sending halves are in the repository.
- Shutdown and vcpu_exit, apart from handing back the queue.
- The kernel module, tools and tests: no deep property.
