# OcSupportPkg boot support: verified models

Four stateful parts of OcSupportPkg, modelled in Dafny and proved against specifications that do not depend on how the
C code walks its data. `dafny verify dfyconfig.toml` checks everything.

**Boot compatibility (memory maps).** `SlideAnalysis` and `SlideState` decide which of the 256 KASLR slides put the
kernel into free memory. The firmware only compares a wrapped 64-bit sum of overlaps with a wrapped length;
`SlideSoundness` shows that on a map of disjoint descriptors the sum counts exactly the free bytes of the area, and says
exactly when a slide is listed for every kernel area, empty, below 2^64 or wrapped around it. `DevirtualiseMmio` strips
RUNTIME from memory-mapped I/O and `SlideDevirtualisation` shows when a slide survives that: always, unless the number of
runtime pages makes the kernel area wrap around.
`RuntimeProtection` and `KernelSupport` hide runtime memory from boot.efi and give it back, also after the map has been
permuted or extended. `ServiceTrace` and `ServiceOverrides` track nested images and the least allocated address.
`SafeModePatch` is the in-place patch that keeps KASLR on in safe mode.

**Keyboard polls.** `KeyStrokes` is one poll as a function, `KeyHandlerState` the same on ten slots in place, and
`KeyPolls` and `KeyRuns` hold what is true over every run of polls: a listener that replays the events always knows the
tracked keys and the modifiers, and Caps Lock is the parity of its rising edges. `KeyEvents` says of each event when it
comes and what it carries: what is typed is upper case exactly when one of Shift and Caps Lock is on. `EventRegistry` and
`EventLib` register handlers and deliver events to them, `EventHearing` says what a handler hears from registering to
unregistering, and `KeyDelivery` joins the two: a registered handler that replays what it hears knows the keys.

**Disk images.** `DiskInit` opens an image (big-endian tables swapped in place, then checked), `DiskTable` defines the
flat disk an image describes, and `DiskReader` reads in place. `DiskReads` says what a read of any accepted image returns
and exactly which images are read like the flat disk, for every sector and every size; `DiskLimits` has images that open
and are not.

**ACPI tables.** `AcpiLib.Context` is the context over physical memory: initialise, drop, insert, apply. Whatever has
been dropped or inserted, initialising again from the memory that apply has written gives the same list in the same
order, and the same FADT and DSDT exactly as long as `AcpiTracking` says. `AcpiEdit` and `AcpiPatch` hold the editors of
single tables, `AcpiRelocate` the region addresses, `DataPatcher` the byte patcher below them, and runs of edits keep
every table summing to zero.

State changes are methods on classes and arrays; each is proved against a function of its inputs or old state, and the
main theorems are about these functions. UINTN is 64 bits wide and every 64-bit sum that can wrap around is written with
`Words.Wrap`. Allocation succeeds.

## Where the code falls short of what it promises

Each of these has a lemma with a concrete input, and a theorem with the exact condition under which the code is right.

- A descriptor without pages stops the slide analysis (`continue` does not advance): `ZeroPagesHideFreeMemory`;
  exact condition `SlideListedExactly`.
- Runtime pages of nearly 2^64 bytes make the kernel area wrap around, and a slide is listed whose area is not free:
  `WrappedSlideIsNotFree`; exact condition `ListedSlideIsFree`. Devirtualising such a map loses a slide:
  `DevirtualisingLosesSlide`; exact condition `DevirtualisingKeepsExactly`.
- The safe-mode patch overwrites four bytes that match nothing when a lone constant sits near the end of the image:
  `OrphanOverwritesStrangers`; exact condition `LeftmostExactly`.
- An allocation at address 0 makes the service overrides forget lower addresses: `ZeroAddressForgets`; exact condition
  `MinAllocatedIsLeastOfAll`.
- The size of a block record is compared by the length of its base64 text (`PlistDataSize`). Text that is too short lets
  an image open without a block table, `ShortRecordOpensBlind`, and enough text with too little data fails an assertion,
  `CutRecordAsserts`; exact conditions `OpenedHasTableExactly` and `NoTableExactly`.
- Images open although chunks overlap, a raw chunk wraps around 2^64, or the buffer for a compressed chunk does:
  `OverlapsDisagree`, `WrappedOffsetReadsTheStart`, `WrappedBufferOverruns`; exact condition for whole images
  `ReadsAgreeExactly`, for one piece `PieceExactly`.
- A handler that is unregistered twice puts the handler counter out of step: `DoubleUnregisterUnderflows`; exact
  condition `SyncExactly` for one operation, `RunSyncExactly` for runs.
- The checksum of an ACPI 2.0 root pointer is computed over its whole length, while section 5.2.5.3 of ACPI 6.2 wants the
  first 20 bytes to sum to zero: `FirstBytesNeedNotSum`, reached by the run `ApplySample`; exact condition, on the memory
  before, `RootPointerExactly`.
- Replacing the DSDT of a FADT under 44 bytes writes behind the table: `ReplacedSpills`, reached by the run
  `InsertSample`; exact condition `ReplacingEditsExactly`.
- A patch may change the length field of a table, which then is no edit of this table: exact condition
  `PatchEditsExactly`.
- The byte patcher does not find a match at the very end: `PatternAtTheEndIsMissed`; exact condition
  `FindsLeftmostExactly`.

`CountRuntimePages` leaves out reserved descriptors, which its header comment (Include/Library/OcMemoryLib.h:185-201)
does not say; the model follows the code.

## Model

| member | source | states |
|---|---|---|
| MemoryMap.CountRuntimePages | Library/OcMemoryLib/MemoryMap.c:349-382 | the returned count is the sum of pages over non-reserved RUNTIME descriptors, as a 64-bit register keeps it |
| MemoryMap.RuntimePagesExactly | Library/OcMemoryLib/MemoryMap.c:349-382 | that sum is the number of pages, counted as a set, of the RUNTIME descriptors that are not reserved |
| MemoryMap.AreaWithinExactly | Include/Library/OcMemoryLib.h:39-40 | the 64-bit comparison holds if and only if every byte of the area lies in the descriptor |
| SlideAnalysis.UsableSlides | Library/OcAppleBootCompatLib/CustomSlide.c:300-375 | the listed slides are exactly the usable ones, strictly increasing |
| SlideAnalysis.SlideStarts | Library/OcAppleBootCompatLib/CustomSlide.c:52-69 | slide areas start 2 MB apart from 1 MB on, on Sandy and Ivy Bridge with a gap of 258 MB behind slide 0x7F |
| SlideSoundness.ShareIsSlice | Library/OcAppleBootCompatLib/CustomSlide.c:321-354 | what one free descriptor adds to the available size is the number of its bytes inside the area, and a descriptor that is skipped has none there |
| SlideSoundness.SurveyCountsFreeBytes | Library/OcAppleBootCompatLib/CustomSlide.c:314-358 | on disjoint descriptors with pages an unblocked survey has counted exactly the free bytes of the area, each once |
| SlideSoundness.BlockedMeansUsedByte | Library/OcAppleBootCompatLib/CustomSlide.c:323-333 | a survey that stops at a used descriptor has found a used byte of the area |
| SlideSoundness.SlideUsableExactly | Library/OcAppleBootCompatLib/CustomSlide.c:302-375 | for a kernel area below 2^64, a slide is listed if and only if every byte of the area lies in a free descriptor that the walk reaches and that ends below 2^64 |
| SlideSoundness.SurveyWrapped | Library/OcAppleBootCompatLib/CustomSlide.c:314-358 | for an area whose end wraps around, at most one descriptor touches it, and a free one contributes exactly the wrapped size |
| SlideSoundness.SlideListedExactly | Library/OcAppleBootCompatLib/CustomSlide.c:302-375 | for every disjoint map and every 64-bit kernel area, listed means: no used descriptor around the start (empty area), all bytes free (below 2^64), or one free descriptor spanning from below the wrapped end to beyond the start |
| SlideSoundness.ListedSlideIsFree | Library/OcAppleBootCompatLib/CustomSlide.c:302-375 | a listed slide has its whole kernel area in free memory if and only if the area ends below 2^64 |
| SlideSoundness.WrappedSlideIsNotFree | Library/OcAppleBootCompatLib/CustomSlide.c:52-69 | a disjoint map of two descriptors on which slide 0 is listed although byte 0x200000 of its area is not free |
| SlideSoundness.FreeSlideIsListed | Library/OcAppleBootCompatLib/CustomSlide.c:302-375 | a slide whose whole area is free is listed when every descriptor has pages |
| SlideSoundness.ZeroPagesHideFreeMemory | Library/OcAppleBootCompatLib/CustomSlide.c:317-319 | one leading descriptor without pages makes every slide unusable although 4 GB are free |
| SlideAnalysis.FallbackStep | Library/OcAppleBootCompatLib/CustomSlide.c:360-363 | the running maximum stays the least slide with the most available bytes |
| SlideSoundness.AvailableIsRoom | Library/OcAppleBootCompatLib/CustomSlide.c:314-358 | for every disjoint map, slide and area the available size is the number of bytes of the area in free descriptors before the first used one with a byte of the area; where the area wraps around, the whole area or nothing |
| SlideSoundness.FallbackIsRoomiest | Library/OcAppleBootCompatLib/CustomSlide.c:360-363 | on every disjoint map the fallback is the least slide with the most such bytes |
| SlideState.AddShare | Library/OcAppleBootCompatLib/CustomSlide.c:337-353 | the step-by-step 64-bit sum adds exactly the share of one descriptor |
| SlideState.SlideSupport.CheckSlide | Library/OcAppleBootCompatLib/CustomSlide.c:302-370 | the walk over the descriptors decides usability and finds the available size as specified, which AvailableIsRoom gives in bytes also when a used descriptor blocks the area |
| SlideState.SlideSupport.SurveySlides | Library/OcAppleBootCompatLib/CustomSlide.c:300-375 | the array holds exactly the usable slides, and the fallback is the least slide with the most available bytes, in byte counts by FallbackIsRoomiest |
| SlideState.SlideSupport.Decide | Library/OcAppleBootCompatLib/CustomSlide.c:111-213 | a custom slide is used unless all 256 work; with none usable the fallback is the only one; the printed list decodes to the array |
| SlideState.SlideSupport.Analyse | Library/OcAppleBootCompatLib/CustomSlide.c:281-392 | afterwards the context holds the analysis of exactly this map: its usable slides, or, when none is usable, the one slide whose area has the most free bytes before the first used descriptor in it |
| SlideState.SlideSupport.ShouldUseCustomSlideOffset | Library/OcAppleBootCompatLib/CustomSlide.c:225-393 | the first call with a map leaves the analysis of the filtered map, with the roomiest slide in bytes when none is usable; later calls return the cached decision and change nothing, a failed map lookup caches nothing; if a slide is usable, every listed area below 2^64 is free in the map before filtering |
| SlidePrinting.Print | Library/OcAppleBootCompatLib/CustomSlide.c:163-208 | the printed ranges decode back to exactly the list, for every non-empty list |
| DevirtualiseMmio.Devirtualise | Library/OcAppleBootCompatLib/ServiceOverrides.c:179-259 | exactly the MMIO runtime descriptors outside the whitelist lose RUNTIME, nothing else changes, and the saved pages are theirs |
| DevirtualiseMmio.RuntimePagesSaved | Library/OcAppleBootCompatLib/ServiceOverrides.c:217-249 | runtime pages before are runtime pages after plus saved pages |
| DevirtualiseMmio.StrippedExactly | Library/OcAppleBootCompatLib/ServiceOverrides.c:217-249 | a descriptor stays RUNTIME if and only if it was and is no MMIO, has no pages, or contains a whitelisted address; nothing else of it changes |
| SlideDevirtualisation.KernelAreaShrinks | Library/OcAppleBootCompatLib/CustomSlide.c:279-289 | the estimated kernel area shrinks by exactly the saved pages, modulo 2^64 on every map |
| SlideDevirtualisation.DevirtualisingKeepsSlides | Library/OcAppleBootCompatLib/ServiceOverrides.c:217-249 | every slide usable on a disjoint map whose kernel and runtime pages fit below 2^64 is usable after devirtualising it |
| SlideDevirtualisation.StrippedListsSame | Library/OcAppleBootCompatLib/ServiceOverrides.c:217-249 | for the same kernel area the analysis lists the same slides before and after |
| SlideDevirtualisation.DevirtualisingKeepsExactly | Library/OcAppleBootCompatLib/ServiceOverrides.c:217-249 | on every disjoint map a listed slide stays listed if and only if the bytes of the new area that the old one had not shown to be free are free, or, where the new area wraps around, one free descriptor spans its ends |
| SlideDevirtualisation.DevirtualisingLosesSlide | Library/OcAppleBootCompatLib/ServiceOverrides.c:217-249 | a disjoint map whose kernel area wraps around on which devirtualising loses slide 0 |
| SlideDevirtualisation.FilteredSlideIsFree | Library/OcAppleBootCompatLib/CustomSlide.c:225-393 | a slide listed for the devirtualised map has its area in memory free in the firmware's own map if and only if the area ends below 2^64 |
| SafeModeSearch.Marks.SkipLosesNothing | Library/OcAppleBootCompatLib/CustomSlide.c:706-710 | going on four bytes behind an unpaired constant skips no site that could be patched |
| SafeModeSearch.Marks.ScanFindsLeftmost | Library/OcAppleBootCompatLib/CustomSlide.c:648-722 | the search disables the leftmost check that can be disabled with its nearest partner, or stops at an orphaned constant near the end |
| SafeModeSearch.Marks.LeftmostExactly | Library/OcAppleBootCompatLib/CustomSlide.c:648-722 | the leftmost check is disabled if and only if no old-style constant left of every such check lets the partner search run out of range on something else |
| SafeModePatch.QualifiesExactly | Library/OcAppleBootCompatLib/CustomSlide.c:635-722 | which sites can be patched, said in bytes of the image: a new-style check, or 0x4001 twice within 16 bytes |
| SafeModePatch.PatchedExactly | Library/OcAppleBootCompatLib/CustomSlide.c:669-722 | every byte after patching: 0x90 over a new-style check, 0xFF over the two constants, unchanged elsewhere |
| SafeModePatch.NoppedExactly | Library/OcAppleBootCompatLib/CustomSlide.c:669-697 | a new-style check and the one byte behind it are overwritten |
| SafeModePatch.NoOverlap | Library/OcAppleBootCompatLib/CustomSlide.c:635-638 | no pattern starts inside an old-style constant |
| SafeModePatch.ScanStaysInImage | Library/OcAppleBootCompatLib/CustomSlide.c:648-722 | for every image and size, only bytes of the image are written |
| SafeModePatch.UnlockForSafeMode | Library/OcAppleBootCompatLib/CustomSlide.c:604-723 | terminates and turns the image into the patched image of the search outcome, byte for byte |
| SafeModePatch.OrphanOverwritesStrangers | Library/OcAppleBootCompatLib/CustomSlide.c:698-722 | a 24-byte image on which four bytes that match nothing are overwritten |
| SafeModePatch.EdgePairIsPatched | Library/OcAppleBootCompatLib/CustomSlide.c:698-722 | a partner that starts just behind the search range is still found and patched |
| RuntimeProtection.EarlyExitDropsNothing | Library/OcAppleBootCompatLib/KernelSupport.c:283-307 | on maps with distinct ranges, stopping after NumEntriesLeft matches leaves no recorded descriptor behind |
| RuntimeProtection.HiddenExactly | Library/OcAppleBootCompatLib/KernelSupport.c:94-124 | a descriptor becomes MMIO if and only if it is runtime code or data with pages that does not hold the system table and fewer than 64 such ones come before it; every other one stays |
| RuntimeProtection.MatchesAreFew | Library/OcAppleBootCompatLib/KernelSupport.c:283-307 | descriptors with distinct ranges match at most as many times as there are recorded ranges |
| RuntimeProtection.DisjointMapsHaveDistinctRanges | Library/OcAppleBootCompatLib/KernelSupport.c:94-124 | disjoint maps whose descriptors have pages have distinct ranges |
| RuntimeProtection.RestoreUndoesProtect | Library/OcAppleBootCompatLib/KernelSupport.c:94-124 | restoring any map, permuted or extended, gives each hidden descriptor its type back and leaves unknown ranges alone, also when the table was full |
| RuntimeProtection.RoundTrip | Library/OcAppleBootCompatLib/KernelSupport.c:268-317 | protect and restore give back exactly the map |
| KernelSupport.RtReloc.Protect | Library/OcAppleBootCompatLib/KernelSupport.c:47-125 | the map becomes the hidden map and the table the recorded entries, with the 64-entry limit |
| KernelSupport.RtReloc.Restore | Library/OcAppleBootCompatLib/KernelSupport.c:268-317 | the map becomes the restored map |
| RuntimeMapping.HiddenSelection | Library/OcAppleBootCompatLib/KernelSupport.c:651-672 | the descriptors that get virtual addresses are the same ones in the same order whether or not protection ran first |
| RuntimeMapping.RuntimeOfExactly | Library/OcAppleBootCompatLib/KernelSupport.c:175-244 | the selection is exactly the runtime descriptors that are not reserved, by their places, in order |
| KernelSupport.KernelState.MapRuntime | Library/OcAppleBootCompatLib/KernelSupport.c:141-256 | VmMap is exactly the order-preserving selection of runtime descriptors; mapping fails if and only if it does not fit or one of them cannot be mapped, and then VmMap is a prefix |
| ServiceTrace.NestedCountIsStack | Library/OcAppleBootCompatLib/ServiceOverrides.c:284-397 | after every well-nested trace the counter is the number of boot.efi images that have not returned |
| ServiceTrace.MinAllocatedIsLeast | Library/OcAppleBootCompatLib/ServiceOverrides.c:426-445 | MinAllocatedAddr is the least address boot.efi got since the last image start and the last address 0 |
| ServiceTrace.MinAllocatedIsLeastOfAll | Library/OcAppleBootCompatLib/ServiceOverrides.c:426-445 | it is the least non-zero address since the last image start if and only if no address 0 hid a lower one |
| ServiceTrace.ZeroAddressForgets | Library/OcAppleBootCompatLib/ServiceOverrides.c:432-435 | after 0x1000, 0 and 0x2000 the recorded least address is 0x2000 |
| ServiceTrace.HibernateImageStays | Library/OcAppleBootCompatLib/ServiceOverrides.c:436-444 | the hibernation image address never changes once it is known |
| ServiceTrace.HibernateImageExactly | Library/OcAppleBootCompatLib/ServiceOverrides.c:426-445 | the hibernation image address is the first non-zero address of a successful loader-data allocation of any pages inside boot.efi while the last started image was a hibernation wake |
| ServiceOverrides.ServiceState.AllocatePages | Library/OcAppleBootCompatLib/ServiceOverrides.c:404-448 | the fields stay what the trace extended by this call makes of them |
| ServiceOverrides.ServiceState.StartImage | Library/OcAppleBootCompatLib/ServiceOverrides.c:265-398 | for every tree of images the calls are well nested and the counter is back to its old value |
| KeyHandlerState.KeyHandler.GetAndRemoveReleasedKeys | Library/OcAppleEventLib/KeyHandler.c:208-282 | slots of released keys are emptied, their codes and an unslotted Caps Lock are returned, and the 12-entry buffer is not overrun |
| KeyHandlerState.KeyHandler.IsCLockOn | Library/OcAppleEventLib/KeyHandler.c:287-331 | Caps Lock toggles exactly when it is polled without a slot and has not toggled yet |
| KeyHandlerState.KeyHandler.GetCurrentKeyStroke | Library/OcAppleEventLib/KeyHandler.c:360-527 | slots, flags, modifiers, queued KEY_UPs, the reported key and EFI_NOT_READY are those of the poll function, whose events KeyEvents characterises one by one |
| KeyHandlerState.KeyHandler.Poll | Library/OcAppleEventLib/KeyHandler.c:614-666 | one poll changes the state and the event queue exactly as the poll function says; RunShift, UpsExactly and DownsExactly say which events these are and what they carry |
| KeyPolls.PollHolds | Library/OcAppleEventLib/KeyHandler.c:442-480 | after a poll the tracked keys are those still held and the one key admitted, in distinct slots with at most one current stroke |
| KeyPolls.PressEffect | Library/OcAppleEventLib/KeyHandler.c:442-480 | the key loop admits only the first untracked key, into the first free slot, and only counts strokes otherwise |
| KeyPolls.KeyDownsTellAdmitted | Library/OcAppleEventLib/KeyHandler.c:442-516 | an admitted key is reported in the same poll, and every other KEY_DOWN repeats a key that is tracked |
| KeyPolls.PollReplays | Library/OcAppleEventLib/KeyHandler.c:405-516 | replaying the KEY_UPs and KEY_DOWNs of a poll turns the tracked keys before it into those after it |
| KeyPolls.ModifierChangeReports | Library/OcAppleEventLib/KeyHandler.c:383-524 | a poll with changed modifiers never ends in EFI_NOT_READY |
| KeyPolls.CapsLockTogglesOnRisingEdge | Library/OcAppleEventLib/KeyHandler.c:312-328 | Caps Lock toggles exactly on polls that have it when the previous one had not |
| KeyRuns.RunInvariant | Library/OcAppleEventLib/KeyHandler.c:614-666 | after every run both modifier copies are the polled modifiers, slots are distinct and hold polled keys only, and the changed flag says whether Caps Lock was polled last |
| KeyRuns.RunReplaysKeys | Library/OcAppleEventLib/KeyHandler.c:614-666 | over every run, replaying KEY_DOWN and KEY_UP yields exactly the tracked keys |
| KeyRuns.RunFollowsModifiers | Library/OcAppleEventLib/KeyHandler.c:638-664 | over every run, replaying MODIFIER_UP and MODIFIER_DOWN yields exactly the held modifiers |
| KeyRuns.RunCapsLock | Library/OcAppleEventLib/KeyHandler.c:434-437 | Caps Lock is on exactly after an odd number of rising edges, slot or no slot |
| KeyRuns.ReleaseBufferSuffices | Library/OcAppleEventLib/KeyHandler.c:225-260 | at most 11 keys are released in a poll |
| KeyRuns.PollTracksOneMore | Library/OcAppleEventLib/KeyHandler.c:442-480 | with at most ten keys held a poll tracks exactly one more of them until all are tracked |
| KeyRuns.HeldKeysGetTracked | Library/OcAppleEventLib/KeyHandler.c:442-480 | after n polls of a fixed set of at most ten keys, n more of them are tracked, up to all |
| KeyRuns.LoneKeyRepeats | Library/OcAppleEventLib/KeyHandler.c:487-516 | a lone key held for n polls after its press gives one KEY_DOWN and, from the 50th poll on, one every fifth poll |
| KeyEvents.RunShift | Library/OcAppleEventLib/KeyHandler.c:399-516 | over every run a KEY_DOWN of a letter is shifted if and only if exactly one of Shift and an odd number of Caps Lock presses holds, of any other key if and only if Shift is held, a KEY_UP if and only if at least one holds; both carry the polled modifiers, a KEY_UP with Shift added while Caps Lock is on |
| KeyEvents.PollOrder | Library/OcAppleEventLib/KeyHandler.c:405-524 | a poll queues its KEY_UPs, then at most one KEY_DOWN, then at most one MODIFIER_UP and one MODIFIER_DOWN |
| KeyEvents.UpsExactly | Library/OcAppleEventLib/KeyHandler.c:225-260 | a key is reported as released once if it was tracked and is not polled, Caps Lock once more if it had toggled, and no other key at all |
| KeyEvents.RunCapsLockUps | Library/OcAppleEventLib/KeyHandler.c:225-260 | over every run Caps Lock is reported as released in exactly those polls that miss it after one that had it |
| KeyEvents.DownsExactly | Library/OcAppleEventLib/KeyHandler.c:442-516 | the reported KEY_DOWN is the key admitted, none if a new key finds no slot, otherwise the current key after 50 polls and then every fifth while it and the modifiers stay |
| EventRegistry.HandlerSees | Library/OcAppleEventLib/OcAppleEventLib.c:204-233 | a dispatch gives a registered handler that is listed once exactly the queued events of its types, each once and in order, and an unregistered one nothing |
| EventHearing.HeardIsMatching | Library/OcAppleEventLib/OcAppleEventLib.c:204-233 | however the queue is cut into dispatches, a handler that stays registered hears every event of its types once and in order |
| EventHearing.RegisterLists | Library/OcAppleEventLib/OcAppleEventLib.c:310-366 | registering an unused handle lists it once, registered, with its types, if and only if a handler is counted already or the poll events can be started |
| EventHearing.StaysListed | Library/OcAppleEventLib/OcAppleEventLib.c:310-410 | over every run of operations that neither register nor unregister it, a listed handler stays listed once with its types at every dispatch |
| EventHearing.QueueIsConserved | Library/OcAppleEventLib/EventQueue.c:80-121 | over every run the events found in the queue and those queued since are the ones dispatched followed by the ones that wait |
| EventHearing.RegisteredHears | Library/OcAppleEventLib/OcAppleEventLib.c:204-366 | over every run that leaves it registered, a new handler is told exactly the events of its types in the queue when it registered or queued since, once and in order, up to those that wait; after a failed registration nothing |
| EventHearing.UnregisteredHearsNothing | Library/OcAppleEventLib/OcAppleEventLib.c:371-410 | from being unregistered on, alone or with all others, a handler is told nothing over every run that does not register it again |
| KeyDelivery.HandlerKnowsKeys | Library/OcAppleEventLib/KeyHandler.c:614-666 | over every run of polls and all dispatches in between, a registered handler of key events that replays what it hears ends with exactly the tracked keys |
| KeyDelivery.HandlerKnowsModifiers | Library/OcAppleEventLib/KeyHandler.c:638-664 | a registered handler of modifier events that replays what it hears knows exactly the polled modifiers |
| KeyDelivery.RegisteredKnowsKeys | Library/OcAppleEventLib/KeyHandler.c:614-666 | a handler of key events that registers successfully and is left registered by a run of operations that queues the events of any run of polls, among others, ends with exactly the tracked keys once the queue is empty |
| KeyDelivery.RegisteredKnowsModifiers | Library/OcAppleEventLib/KeyHandler.c:638-664 | the same for modifier events and the polled modifiers |
| EventRegistry.SyncExactly | Library/OcAppleEventLib/OcAppleEventLib.c:371-410 | an operation keeps the counter equal to the registered entries if and only if it unregisters no handler twice |
| EventRegistry.RunSyncExactly | Library/OcAppleEventLib/OcAppleEventLib.c:310-410 | over a run the counter is right throughout if and only if no handler is unregistered twice |
| EventRegistry.DoubleUnregisterUnderflows | Library/OcAppleEventLib/OcAppleEventLib.c:390-407 | after registering one handler and unregistering it twice the counter is 2^64 - 1 |
| EventLib.EventCenter.RemoveUnregisteredEvents | Library/OcAppleEventLib/OcAppleEventLib.c:237-269 | exactly the registered entries stay, in order |
| EventLib.EventCenter.FlagAllEventsReady | Library/OcAppleEventLib/OcAppleEventLib.c:178-200 | every entry becomes ready and nothing else changes |
| EventLib.EventCenter.SignalEvents | Library/OcAppleEventLib/OcAppleEventLib.c:204-233 | the ready, registered, type-matching handlers are called in list order |
| EventLib.EventCenter.AddEventToQueue | Library/OcAppleEventLib/EventQueue.c:195-223 | the event goes to the end of the queue |
| EventLib.EventCenter.QueueEventNotify | Library/OcAppleEventLib/EventQueue.c:80-121 | all queued events are delivered in order, the queue is empty, and unregistered entries are gone |
| EventLib.EventCenter.RegisterHandler | Library/OcAppleEventLib/OcAppleEventLib.c:310-366 | errors, start of the poll events and the new entry as in the registry machine; on success the fresh handle was not registered before and is listed once with its types |
| EventLib.EventCenter.UnregisterHandler | Library/OcAppleEventLib/OcAppleEventLib.c:371-410 | one or all handlers are unregistered as in the registry machine, with an error when there is none |
| LittleEndian.SwappedDecode | Library/OcAppleDiskImageLib/OcAppleDiskImageLibInternal.c:84-146 | swapping what a little-endian machine read gives the big-endian value of the bytes |
| DiskInit.BlockData.SwapBlockData | Library/OcAppleDiskImageLib/OcAppleDiskImageLibInternal.c:66-161 | accepts exactly the blocks that pass every range check on swapped fields, and then the fields are the swapped ones |
| DiskInit.CheckTrailer | Library/OcAppleDiskImageLib/OcAppleDiskImageLib.c:59-150 | accepts exactly the trailers whose sizes, offsets and sector count are in range without overflow |
| DiskInit.LoadBlocks | Library/OcAppleDiskImageLib/OcAppleDiskImageLibInternal.c:253-320 | the loop ends as the first record that is not good decides: success without a table for text that is too short, a failed assertion for data that is too short, rejection otherwise; with good records only, the block of every record, swapped, in order |
| DiskInit.NoTableExactly | Library/OcAppleDiskImageLib/OcAppleDiskImageLibInternal.c:266-296 | success without a table means exactly that the text of some record is too short and all before it are good, and the assertion fails exactly when such a record has enough text but too little data |
| DiskInit.InitializeContext | Library/OcAppleDiskImageLib/OcAppleDiskImageLib.c:29-193 | refused, opened without a table, asserted or opened, as trailer and records decide, for all records a property list of that length can hold; an image opened with a table has exactly one block per record, the swapped block of that record, in order, and satisfies the bounds reading relies on |
| DiskInit.OpenedHasTableExactly | Library/OcAppleDiskImageLib/OcAppleDiskImageLibInternal.c:253-320 | an image that opens has its block table if and only if no text is too short, and then it satisfies the bounds |
| DiskInit.ShortRecordOpensBlind | Library/OcAppleDiskImageLib/OcAppleDiskImageLibInternal.c:266-269 | a file of 4096 bytes whose property list holds one record of 203 characters opens without a table |
| DiskInit.CutRecordAsserts | Library/OcAppleDiskImageLib/OcAppleDiskImageLibInternal.c:85-96 | a file whose only record has 204 characters that decode to 153 bytes fails the assertion |
| DiskLimits.ParsesAsWritten | Library/OcAppleDiskImageLib/OcAppleDiskImageLibInternal.c:253-320 | blocks that pass the checks, written big-endian into records, are parsed as exactly these blocks in their order |
| DiskLimits.OpensAsWritten | Library/OcAppleDiskImageLib/OcAppleDiskImageLibInternal.c:66-161 | for every trailer that is accepted, every list of blocks of up to 30 chunks that pass the checks, written big-endian into records that fit the property list, opens as exactly these blocks in their order |
| DiskTable.LocatedFits | Library/OcAppleDiskImageLib/OcAppleDiskImageLibInternal.c:322-354 | for every accepted image and sector, the chunk found holds the sector and neither DMG_SECTOR_START_ABS nor a guarded product wraps |
| DiskTable.FlatReadSplits | Library/OcAppleDiskImageLib/OcAppleDiskImageLib.c:312-421 | a read split anywhere succeeds exactly when both parts do, and concatenates |
| DiskLayout.WellLaidOutIsStable | Library/OcAppleDiskImageLib/OcAppleDiskImageLibInternal.c:322-354 | disjoint chunks inside their blocks make every lookup find the one chunk of the sector |
| DiskLayout.LocateExactly | Library/OcAppleDiskImageLib/OcAppleDiskImageLibInternal.c:322-354 | on every accepted image the lookup finds the first chunk of the first block that holds the sector, and nothing only if no chunk holds it |
| DiskPieces.PieceExactly | Library/OcAppleDiskImageLib/OcAppleDiskImageLib.c:347-414 | a piece is byte for byte what the chunk holds if and only if no raw offset wraps around to readable bytes and the buffer of a compressed chunk does not wrap |
| DiskReads.ReadsAgreeExactly | Library/OcAppleDiskImageLib/OcAppleDiskImageLib.c:312-421 | reads of an accepted image are reads of the flat disk, for every sector and size, if and only if every located sector has a safe offset and buffer and the readable rest of its chunk holds what the flat disk holds there |
| DiskReads.FaithfulReads | Library/OcAppleDiskImageLib/OcAppleDiskImageLib.c:312-421 | on such an image every read returns exactly the bytes of the flat disk, or fails exactly when one cannot be read |
| DiskReads.LaidOutIsFaithful | Library/OcAppleDiskImageLib/OcAppleDiskImageLibInternal.c:322-354 | disjoint chunks inside their blocks whose offsets and buffers fit are enough |
| DiskReads.SectorReads | Library/OcAppleDiskImageLib/OcAppleDiskImageLib.c:347-414 | on laid out images a sector of a chunk reads as zeros for types 0 and 2, as its 512 bytes of the RAM disk for type 1, as those of the unpacked chunk for type 0x80000005, and fails for other types |
| DiskReader.GetBlockChunk | Library/OcAppleDiskImageLib/OcAppleDiskImageLibInternal.c:322-354 | finds the first chunk of the first block that holds the sector |
| DiskReader.Measure | Library/OcAppleDiskImageLib/OcAppleDiskImageLib.c:322-345 | no overflow guard fires, LbaOffset and LbaLength do not underflow, and at least one byte remains in the chunk |
| DiskReader.ReadPiece | Library/OcAppleDiskImageLib/OcAppleDiskImageLib.c:347-414 | zero, raw and zlib chunks are copied in place; a piece is filled, fails or overruns its buffer exactly as specified |
| DiskReader.ReadZlib | Library/OcAppleDiskImageLib/OcAppleDiskImageLib.c:370-403 | the buffer size is a 64-bit sum, and the compressed bytes overrun it exactly when that sum wraps around |
| DiskReader.Read | Library/OcAppleDiskImageLib/OcAppleDiskImageLib.c:282-422 | on every accepted image the loop ends, and the buffer reads, exactly as the specification of whole reads says |
| DiskLimits.OverlapOpens | Library/OcAppleDiskImageLib/OcAppleDiskImageLibInternal.c:115-148 | an image whose chunks overlap passes every check of opening |
| DiskLimits.OverlapsDisagree | Library/OcAppleDiskImageLib/OcAppleDiskImageLib.c:312-421 | on that image a read of both sectors and a read of the second one disagree about it |
| DiskLimits.WrappedOffsetReadsTheStart | Library/OcAppleDiskImageLib/OcAppleDiskImageLib.c:355-368 | an image opens on which a raw read wraps around to the start of the RAM disk |
| DiskLimits.WrappedBufferOverruns | Library/OcAppleDiskImageLib/OcAppleDiskImageLib.c:372-383 | an image opens whose compressed chunk needs a buffer of 2^64 bytes or more, and reading one byte of it overruns the buffer |
| AcpiMemory.CalculateCheckSum8 | Library/OcAcpiLib/OcAcpiLib.c:409-415 | the checksum completes the byte sum to 0 modulo 256 |
| AcpiMemory.RefreshChecksum | Library/OcAcpiLib/OcAcpiLib.c:471-478 | only the checksum byte changes and the table sums to zero |
| AcpiLoad.LoadTables | Library/OcAcpiLib/OcAcpiLib.c:536-580 | the list is the root table's entries without NULL, DSDT and RSDP, in order; FADT and DSDT are those of the last FADT, the DSDT by DsdtExactly |
| AcpiTables.LastFadt | Library/OcAcpiLib/OcAcpiLib.c:560-568 | the tracked FADT is in the list and has its signature, or the list has none |
| AcpiTables.DsdtExactly | Library/OcAcpiLib/OcAcpiLib.c:564-569 | for every memory and FADT the DSDT is the 8-byte integer at offset 140 if the length field is 148 or more, otherwise the 4-byte one at offset 40 |
| AcpiTables.WideFieldWins | Library/OcAcpiLib/OcAcpiLib.c:564-569 | a FADT of 148 bytes with an empty 32-bit field has the DSDT of its 64-bit field |
| AcpiTables.RootPointerLayout | Library/OcAcpiLib/OcAcpiLib.c:497-516 | RSDT and XSDT are the integers at offsets 16 and 24 of the root pointer, the latter only if byte 15 is not zero, and the XSDT is the root table if there is one (sections 5.2.5 to 5.2.8 of ACPI 6.2) |
| AcpiTables.EntryLayout | Library/OcAcpiLib/OcAcpiLib.c:540-542 | entry i of a root table is its integer behind 36 bytes of header and i entries of 8 or 4 bytes |
| AcpiTables.SelectedExactly | Library/OcAcpiLib/OcAcpiLib.c:536-556 | the list is exactly the entries that are not NULL and whose signature is neither DSDT nor RSDP, by their places, in order |
| AcpiTables.MatchesExactly | Library/OcAcpiLib/OcAcpiLib.c:721-733 | a table matches if and only if signature, length and OEM table ID of the pattern are zero or its own |
| AcpiLib.Context.InitContext | Library/OcAcpiLib/OcAcpiLib.c:484-591 | each status exactly under its condition, said by the bytes of memory, and on success a valid context that lists what the memory lists, with the 64-bit and 32-bit arithmetic of the entry count, and whose DSDT is the 8-byte field of the tracked FADT if that has 148 bytes or more, otherwise the 4-byte one |
| AcpiContext.WriteRoot | Library/OcAcpiLib/OcAcpiLib.c:637-663 | a root table with the old header, the new length, every entry in order and byte sum zero, and nothing else changes |
| AcpiContext.ExposedEntries | Library/OcAcpiLib/OcAcpiLib.c:645-656 | a written root table reads back as the list; for an RSDT because all addresses are below 4 GB |
| AcpiApply.StagesApply | Library/OcAcpiLib/OcAcpiLib.c:636-702 | writing XSDT, RSDT and checksum in turn leaves both tables complete, 8-byte aligned, disjoint, entered in the root pointer, which sums to zero, and nothing else changed |
| AcpiApply.WriteAll | Library/OcAcpiLib/OcAcpiLib.c:636-702 | the in-place writes establish exactly that final memory |
| AcpiApply.AppliedIsLoaded | Library/OcAcpiLib/OcAcpiLib.c:518-580 | the list loaded from the final memory is the list that was applied |
| AcpiValidity.AppliedIsPersistent | Library/OcAcpiLib/OcAcpiLib.c:610-703 | after applying, the context is still valid and reading the memory again gives the same tables in the same order |
| AcpiValidity.SelectedListable | Library/OcAcpiLib/OcAcpiLib.c:536-556 | every loaded table can be kept; without an XSDT its address is below 4 GB |
| AcpiValidity.RootPointerFirstBytes | Library/OcAcpiLib/OcAcpiLib.c:696-700 | when the whole root pointer sums to zero, its first 20 bytes do if and only if the bytes behind them do |
| AcpiValidity.RootPointerExactly | Library/OcAcpiLib/OcAcpiLib.c:665-700 | after applying, the first 20 bytes sum to zero if and only if there was no XSDT or the old bytes 20 to Length, with XsdtAddress replaced by the new pages, sum to zero |
| AcpiSample.FirstBytesNeedNotSum | Library/OcAcpiLib/OcAcpiLib.c:696-700 | a concrete memory and pages for which no result of applying has first 20 bytes that sum to zero |
| AcpiSample.ApplySample | Library/OcAcpiLib/OcAcpiLib.c:484-703 | initialising and applying that memory really ends there |
| AcpiLib.Context.ApplyContext | Library/OcAcpiLib/OcAcpiLib.c:610-703 | from every valid context: the list is kept, memory changes as specified, initialising again gives exactly this list, is an error only for an empty one, and finds the same FADT and DSDT if and only if it would have before |
| AcpiTables.WithoutAllExactly | Library/OcAcpiLib/OcAcpiLib.c:721-758 | dropping all keeps exactly the tables that do not match, in their order |
| AcpiTables.WithoutFirstExactly | Library/OcAcpiLib/OcAcpiLib.c:721-758 | dropping one removes the leftmost match and nothing else |
| AcpiDrop.RemoveAt | Library/OcAcpiLib/OcAcpiLib.c:745-749 | moving the tail up removes one entry and keeps the order |
| AcpiDrop.Drop | Library/OcAcpiLib/OcAcpiLib.c:706-766 | the in-place compaction equals filtering, and success means something matched |
| AcpiLib.Context.DropTable | Library/OcAcpiLib/OcAcpiLib.c:706-766 | the context stays valid with the filtered list; a FADT that initialising again would find stays so if and only if it is not dropped |
| AcpiTracking.DropTracksExactly | Library/OcAcpiLib/OcAcpiLib.c:721-758 | dropping keeps FADT and DSDT in step with the list if and only if the FADT stays in it |
| AcpiTracking.AppendTracksExactly | Library/OcAcpiLib/OcAcpiLib.c:847-859 | appending keeps them in step if and only if the new table is no FADT |
| AcpiInsert.PlaceTable | Library/OcAcpiLib/OcAcpiLib.c:825-826 | the pages hold the table and zeros behind it, and nothing else changes |
| AcpiInsert.ContextAppended | Library/OcAcpiLib/OcAcpiLib.c:847-859 | a placed table that is no RSDP keeps the list loadable |
| AcpiInsert.ReplaceDsdt | Library/OcAcpiLib/OcAcpiLib.c:828-845 | the FADT names the new DSDT in every field it has and sums to zero; only these fields and the checksum change |
| AcpiInsert.RepointedReads | Library/OcAcpiLib/OcAcpiLib.c:828-845 | the DSDT read through the FADT is the new one, and its length stays |
| AcpiInsert.ReplacingEditsExactly | Library/OcAcpiLib/OcAcpiLib.c:836-845 | replacing is an edit of the FADT if and only if the FADT reaches its 32-bit field or the bytes behind it already are those of the address |
| AcpiShortFadt.ReplacedSpills | Library/OcAcpiLib/OcAcpiLib.c:828-845 | a concrete memory with a FADT of 40 bytes in which every insertion of a DSDT at 0x1000 changes bytes behind the table |
| AcpiShortFadt.InsertSample | Library/OcAcpiLib/OcAcpiLib.c:769-862 | initialising and inserting really end there, with success |
| AcpiInsert.DsdtRun | Library/OcAcpiLib/OcAcpiLib.c:792-845 | inserting a DSDT is two steps of a run: the table is placed, the FADT is edited |
| AcpiLib.Context.InsertTable | Library/OcAcpiLib/OcAcpiLib.c:769-862 | each error exactly under its condition with nothing changed; otherwise the table is appended or the DSDT replaced, nothing but its pages and the FADT fields changes, and the context stays valid |
| AcpiEdit.EditKeepsOthers | Library/OcAcpiLib/OcAcpiLib.c:356-415 | editing one table leaves length and sum of every other table alone |
| AcpiEdit.EditRunKeepsSums | Library/OcAcpiLib/OcAcpiLib.c:769-1144 | over every run of edits and of tables placed in pages of their own, DSDT replacements included, every table that summed to zero or was edited sums to zero in the end |
| AcpiEdit.NormalizeTableHeaders | Library/OcAcpiLib/OcAcpiLib.c:426-481 | the text bytes of the header lose their top-bit characters, nothing else changes but the checksum, and only with them |
| AcpiEdit.EnableReset | Library/OcAcpiLib/OcAcpiLib.c:1083-1120 | each status exactly under its condition; the reset bit is set, the reset register is port 0xCF9, and a FADT that has the bit is left alone |
| AcpiEdit.ResetLogoStatus | Library/OcAcpiLib/OcAcpiLib.c:1123-1144 | the displayed bit of the first BGRT is cleared and nothing else changes but its checksum |
| DataPatcher.FindPattern | Library/OcMiscLib/DataPatcher.c:20-56 | finds the least match that does not end at the end of the data |
| DataPatcher.Patch.FindsLeftmostExactly | Library/OcMiscLib/DataPatcher.c:35-55 | the leftmost match is found if and only if it does not end where the data ends |
| DataPatcher.PatternAtTheEndIsMissed | Library/OcMiscLib/DataPatcher.c:39 | data that is nothing but the pattern is neither found nor patched |
| DataPatcher.ApplyPatch | Library/OcMiscLib/DataPatcher.c:58-117 | exactly the chosen non-overlapping matches of the original data are replaced and counted, although the search runs on changing data; nothing outside the data changes |
| DataPatcher.SitesComplete | Library/OcMiscLib/DataPatcher.c:77-114 | no match is missing from the sites but those that overlap one of them or end where the data ends |
| DataPatcher.ChosenExactly | Library/OcMiscLib/DataPatcher.c:86-112 | after the sites that are passed over the next Count are chosen, all of them if Count is 0 |
| DataPatcher.ReplaceAllAt | Library/OcMiscLib/DataPatcher.c:93-99 | every chosen match holds the masked replacement of its original bytes |
| DataPatcher.ReplaceAllFrame | Library/OcMiscLib/DataPatcher.c:80-112 | bytes outside the chosen matches stay |
| AcpiPatch.PatchTable | Library/OcAcpiLib/OcAcpiLib.c:944-1006 | a table that does not match is left alone; one that does holds the patched bytes and sums to zero over its new length if anything was replaced |
| AcpiPatch.PatchEditsExactly | Library/OcAcpiLib/OcAcpiLib.c:985-1003 | a patch inside the table is an edit if and only if it leaves the value of the length field alone |
| AcpiRelocate.FindName | Library/OcAcpiLib/OcAcpiLib.c:208-234 | finds one more than the least place of a name declaration, 0 if there is none |
| AcpiRelocate.NamesAreBehindSignature | Library/OcAcpiLib/OcAcpiLib.c:373-384 | in a table whose signature is letters, addresses found by name start behind length and checksum |
| AcpiRelocate.RelocateTable | Library/OcAcpiLib/OcAcpiLib.c:332-416 | writing the region addresses at the matched places is an edit of the table: every place not written over again holds its address, and only these places and the checksum differ |

## Left out

- SlideDevirtualisation.DevirtualisingKeepsSlides: the case where everything fits below 2^64; SlideDevirtualisation.DevirtualisingKeepsExactly covers every disjoint map.
- SlideSoundness.FreeSlideIsListed: the case of areas and free descriptors that end below 2^64; SlideSoundness.SlideListedExactly covers every area.
- DiskInit.InitializeContext: the property list parser yields records, whose texts together are no longer than the list; XML and checksums are not modelled, and neither is what is read from an image opened without a table.
- DiskReader.ReadPiece: inflate is a map from input and size to output, the RAM disk one byte sequence, and nothing is said about memory once a buffer has been overrun; AppleDiskImage.h is not part of this model.
- AcpiLib.Context.InitContext: the search for the root pointer is a parameter; the root tables with all entries they are said to have, and the headers of the tables they list, lie in memory.
- AcpiLib.Context.ApplyContext: the allocated pages are a parameter that is free of everything the context reads; allocation failure is left out, as everywhere.
- AcpiPatch.PatchTable: the new length of a patched table lies in memory; the separate branch for the DSDT, which is the same without the length checks.
- AcpiRelocate.RelocateTable: the scan for region declarations is a parameter, the places it has matched.
- AcpiValidity.RootPointerExactly: root pointers with an XSDT and a Length under 20, for which AcpiLib.Context.ApplyContext says what the checksum covers.
- DataPatcher.FindPattern: data of 2^31 bytes or more, where the 32-bit offset turns negative.
- SlidePrinting.Print: tokens instead of characters, without the 256-byte cap of the log line.
- KeyHandlerState.KeyHandler.Poll: stroke counters and the nesting counter of the service overrides do not wrap around; key codes and modifiers are parameters; AppleHid.h is not part of this model.
- EventRegistry.HandlerSees: callbacks do not register or unregister handlers, and event types are sets of bits instead of 32-bit masks.
- KernelSupport.KernelState.MapRuntime: the page mapper and SetVirtualAddressMap are parameters (which descriptors it rejects, what it answers).
- DiskInit.CheckTrailer: the trailer is taken in host byte order; finding it in the file is not modelled.
- AcpiEdit.EditRunKeepsSums: tables must not overlap.
- GenerateSlideValue (the random choice among the slides), csr-active-config, boot arguments and GetVariable hooks.
- Kernel jump, hibernate handoff, CSM protection, memory map shrinking and ExitBootServices retries.
- Pointer events, AppleEvent.c (a copy of the event library), event locks, timers and DEBUG output.
