# A verified model of a KVM fork with the IMEE introspection engine

The repository is a fork of KVM. Its own code is IMEE (`kvm/imee.c`, hooks in `kvm/vmx.c`): it gives an introspection
agent a private extended page table (EPT) built from the guest's, adds pages to it on demand, and redirects one code
entry at a time to the agent. Around it are dense parts of stock KVM that the fork patches. This project models those
algorithms in Dafny and proves what they keep over whole runs. `dafny verify dfyconfig.toml` checks everything.

| File | Models |
|---|---|
| `Wrappers.dfy`, `Words.dfy` | a value that may be missing; a 64-bit word as the set of its bits |
| `EptEntry.dfy` | one 64-bit EPT entry, and each C expression on it as an operation on its fields |
| `EptFrames.dfy` | the chunked frame allocator and the memory it hands out |
| `EptTree.dfy` | the four-level tree, the hardware walk, and its agreement with the leaf list |
| `ImeeView.dfy` | what a context maps, without tables: mapping, hijack and restore, the agent's two-dimensional walk |
| `ImeeEpt.dfy` | the introspection context: copied leaf tables, tree building, `map_epte`, `remap_gpa_code` |
| `ImeeDriver.dfy` | set-up of one context per VM, and the intercepts and EPT violations that drive them |
| `AsyncPf.dfy` | the async page-fault hash table with backward-shift deletion |
| `Memslots.dfy` | memory slots, their updates, and the generation-stamped publication |
| `GuestMemory.dfy` | guest copies split over pages, and dirty marks |
| `HvaCache.dfy` | the generation-stamped translation cache under concurrent slot updates |
| `DirtyLog.dfy` | harvesting the dirty log while other threads mark frames |
| `TimeScale.dfy`, `GuestClock.dfy` | the clock factor, and the kvmclock of one vCPU |
| `Mmio.dfy` | one emulated access over pages, devices, and exits of at most 8 bytes |
| `NestedCr.dfy` | CR0 and CR4 of a nested guest |
| `ScanProtocol.dfy` | the lock/request/reply page of the asynchronous scan tool, under x86's store buffers |

How the pieces fit. `ImeeView` says what a context means; `ImeeEpt` proves that the tables in memory, the leaf list and
the saved slot implement exactly that, so theorems about runs of hijacks are proved on the small model and hold for the
tree. Contexts share one allocator; each owns the frames it took, and an operation on one leaves all others as they were.
`ImeeDriver.Imee.Introspect` puts the parts together, from the allocator's first chunk to what the hardware maps for
every VM after any run of events. `Memslots` keeps the history of published tables; `HvaCache` is proved against any such history and compares a
cached access with the uncached ones of `GuestMemory`. `GuestClock` calls `TimeScale`. EPT words are cut into fields, and
`EptEntry` proves each cut faithful to the 64-bit expression. Control registers and bitmap words are sets of bits;
`Words` proves that `&`, `|`, `^` and `& ~` on 64-bit words are the set operations and that no two words have the same
bits.

## What does not hold, and when exactly

- Tree walk and leaf list agree as long as table frames arrive zeroed. The first frame of chunks 1 to 3 is handed out
  uncleared (`kvm/imee.c:995-997`). Such a table is harmless to the hardware exactly if none of its words is present, and
  `map_epte` takes it for an empty table exactly if it is zeroed (`EptTree.UnclearedTable`); `EptTree.StaleRoot` is a
  session whose 1024th frame is a root that maps a frame no leaf table covers.
- `release_ept_frames` frees nothing, since no chunk is ever stored in `p_bases`; and it reads behind `p_bases` exactly
  after a session with all four chunks granted asked for a 4096th frame (`EptFrames.FrameAllocator.ReleaseEptFrames`).
- Hijacking an uncovered page twice in a row loses the memory type the first time set: 0x274, then 0x004
  (`ImeeView.RepeatedHijackLosesMemoryType`).
- The agent is confined to its local pages, and its own address space is as it was set up, both exactly unless the last
  hijack hit one of the four writable local pages (`ImeeDriver.AgentIsConfined`). Where the code page took the place of
  a fake page table this assumes that the agent's code does not read as such a table, i.e. has a word with bit 0 clear.
- Deleting a gfn from the async page-fault table removes that gfn and nothing else exactly if the gfn is in the table or
  a slot is empty; a full table loses the entry in the gfn's hash slot instead (`AsyncPf.DeletesTheGfn`).
- The overlap check accepts a range exactly if it is free and no visited user slot without pages, other than the named
  one, has its base strictly inside: a deleted slot keeps its base (`Memslots.AcceptedIsFree`,
  `Memslots.DeletedSlotBlocks`).
- The generation is a 64-bit word that starts at -150, so it does not grow: it counts publications modulo 2^64. A cache
  stamp matches a later table exactly if a multiple of 2^64 publications lies between (`HvaCache.StampRepeats`), so a
  cache is current for fewer than that.
- A guest write that fails inside a page changes bytes of that page without marking it dirty
  (`GuestMemory.TornPage`).
- A cached write of no bytes marks a page that an uncached one does not (`HvaCache.Cache.Write`).
- A cached read of a whole region succeeds exactly where a write would, so it fails on readable read-only slots and
  nowhere else (`HvaCache.Cache.Read`, `HvaCache.OnlyReadonlyDiffers`).
- A dirty mark is lost only if the copy to user space fails, and then every unreported store that was not marked again
  is lost (`DirtyLog.SlotLog.GetDirtyLog`).
- `kvm_get_time_scale` never returns exactly if one of its rates is zero (`TimeScale.ZeroRateNeverEnds`).
- The clamp keeps kvmclock from going backwards for every host time exactly without a master clock and with a non-zero
  old timestamp (`GuestClock.ClampExactly`).
- Deactivating the FPU keeps what L2 reads from CR0 exactly if L2 has changed no bit, TS aside, that L1 does not trap
  (`NestedCr.NestedVcpu.FpuDeactivated`); a reload of CR4 keeps what L2 reads exactly if L1's shadow agrees with L1's CR4
  on the trapped bits (`NestedCr.ReloadedCr4`).
- The scan agent's comment promises to read as many bytes as requested; it always replies with 64, and `ScanProtocol`
  models that.

## Model

| member | source | states |
|---|---|---|
| EptEntry.AbsentWord | kvm/imee.c:475-476 | the zero word, and only it, is the absent entry |
| EptEntry.TableEntryWord | kvm/imee.c:499 | `pa \| 0x7` on a page-aligned address is a present link to that frame and carries nothing else |
| EptEntry.StrippedWord | kvm/imee.c:1237 | clearing 0x6 in a copied word keeps frame and attributes and drops only write and execute |
| EptEntry.HijackedWord | kvm/imee.c:867 | the hijacked word keeps the old word's low bits and bit 63, takes the code frame, and gains execute |
| EptEntry.MappedFreshWord | kvm/imee.c:489-498 | in an empty slot `map_epte` stores frame, permission and memory type 0x270 |
| EptEntry.MappedOverWord | kvm/imee.c:508-513 | in a used slot it stores frame and permission without the memory type |
| EptFrames.FrameAllocator.constructor | kvm/imee.c:944-948 | no chunk yet, nothing outstanding, empty `p_bases` |
| EptFrames.FrameAllocator.InitEptFrames | kvm/imee.c:950-959 | a session starts with a new chunk, and a second call changes nothing |
| EptFrames.FrameAllocator.ReleaseEptFrames | kvm/imee.c:961-973 | the allocator is reset but every granted block stays outstanding; the loop leaves `p_bases` exactly after a fully granted session's 4096th request |
| EptFrames.FrameAllocator.NextChunk | kvm/imee.c:992-1003 | the next chunk's first frame, as the kernel grants it, for calls 1024, 2048 and 3072, and null after the fourth chunk |
| EptFrames.FrameAllocator.GetEptPage | kvm/imee.c:975-1011 | the n-th call of a session gives the n-th frame in closed form for n <= 4095 while chunks are granted and null ever after; the frame is cleared unless it is the first of its chunk, and no other memory changes |
| EptFrames.FrameAllocator.GetTableFrame | kvm/imee.c:975-1011 | every outcome as in `GetEptPage`; within a budget of frames that arrive zeroed the frame is zeroed and differs from every frame handed out before |
| EptFrames.FrameAllocator.Store | kvm/imee.c:495-510 | writing into a handed-out table leaves the zeroed state of frames still to come |
| EptFrames.FramesDistinct | kvm/imee.c:975-1011 | two calls of one session never return the same frame, and each is below 2^52 |
| EptFrames.NextFrameIsNew | kvm/imee.c:975-1011 | the next frame is none of those issued so far |
| EptFrames.StaysZeroed | kvm/imee.c:975-1011 | writes to a frame that was handed out do not dirty a later one |
| EptTree.SameLeafPath | kvm/imee.c:461-466 | two guest frames below 2^36 have the same leaf position exactly if they share a 2 MB region |
| EptTree.WalkFollowsPath | kvm/imee.c:1037-1094 | from any table on the path the four-level walk ends at the leaf slot, or faults exactly if the tree has no leaf table there |
| EptTree.WalkAgreesWithList | kvm/imee.c:435-518 | the walk from the root ends at exactly the slot that the list scan finds, both absent together, also with several leaf pages for one region |
| EptTree.UnclearedTable | kvm/imee.c:992-997 | whatever the rest of memory holds, every walk from an uncleared non-leaf table faults exactly if none of its words is present, and `map_epte` builds afresh below it for every address exactly if it is zeroed |
| EptTree.PresentWordHarms | kvm/imee.c:992-997 | one present word is enough for some memory and some address whose walk does not fault |
| EptTree.UnclearedRoot | kvm/imee.c:992-1040 | a root that is the first frame of a chunk is the frame as the kernel granted it, with exactly these two conditions |
| EptTree.StaleRoot | kvm/imee.c:992-1040 | a session whose 1024th frame as root maps guest frame 0 while the leaf list is empty |
| EptTree.NoneMissing | kvm/imee.c:473-505 | no table is missing on the way to a frame exactly if its region has a leaf table |
| EptTree.AddTable | kvm/imee.c:1058-1085 | linking a fresh table keeps the tree's shape and all other links |
| ImeeView.MappedLookup | kvm/imee.c:457-518 | one mapping changes one frame's entry and covers at most its own 2 MB region more |
| ImeeView.MapAllLookup | kvm/imee.c:1304-1312 | a batch of mappings of distinct frames changes exactly those frames |
| ImeeView.HijackStep | kvm/imee.c:850-879 | a hijack restores the previous one, saves the pristine entry of its page and changes only that page |
| ImeeView.RunOfHijacks | kvm/imee.c:850-879 | after any run of hijacks at most the last page differs from the pristine view, and the saved pair names it with its pristine entry |
| ImeeView.RepeatedHijackLosesMemoryType | kvm/imee.c:850-879 | on an uncovered page two hijacks in a row leave 0x004 where one leaves 0x274 |
| ImeeView.LocalEntries | kvm/imee.c:1304-1312 | the five local pages get their entries and nothing else in the guest's view changes |
| ImeeView.ConfinedRun | kvm/imee.c:850-879 | after a run, writable entries map only the four local frames and executable ones only the code frame, exactly unless the run ended on a writable local page |
| ImeeView.LocalsAfterRun | kvm/imee.c:850-879 | a run leaves every local page in place but the one it ended on, which it sends to the code frame |
| ImeeView.AgentSpaceAfterRun | kvm/imee.c:1270-1312 | every 32-bit address below 0x1000 reaches the data page, readable and writable, and every other one the code page, executable, with user and write rights, accessed and dirty flags set at both levels of the fake CR3 and a global translation, after exactly those runs that do not end on a writable local page |
| ImeeView.HijackedLocalBreaks | kvm/imee.c:850-879 | with any of the four writable local pages sent to the code frame, some address faults or reaches a wrong page |
| ImeeEpt.LinkLeaf | kvm/imee.c:484-501 | a new leaf table at the head of the list, linked below level 2, keeps tree and list in agreement |
| ImeeEpt.LinkNonLeaf | kvm/imee.c:479-501 | a new inner table keeps the agreement and the mapped entries |
| ImeeEpt.WriteLeaf | kvm/imee.c:489-513 | writing the slot of one frame changes the mapping of that frame only |
| ImeeEpt.SlotsDiffer | kvm/imee.c:435-451 | two frames are never found in the same slot |
| ImeeEpt.Elsewhere | kvm/imee.c:1543-1557 | writes outside a context's frames leave its tree, its list and its view as they were |
| ImeeEpt.LinkCopied | kvm/imee.c:1082-1085 | linking the next copied page unless its region has a table makes the tree follow the first page of each region |
| ImeeEpt.FirstCopy | kvm/imee.c:1216-1241 | the list's first page for a frame holds the stripped entry of the first copied guest page for it |
| ImeeEpt.CopiedView | kvm/imee.c:1216-1241 | the copy maps what the guest's leaf tables map, first copied page first |
| ImeeEpt.CopiedEntry | kvm/imee.c:1216-1241 | read off the guest's own list: a frame gets the stripped entry of the last level-1 page for its region, and nothing if there is none |
| ImeeEpt.GuestViewIsInert | kvm/imee.c:1233-1238 | no copied entry is writable or executable, and regions are covered whole |
| ImeeEpt.IntroCtx.HardwareSeesView | kvm/imee.c:435-518 | in every state of a context, alone or among others, the hardware walk, the list scan and the view agree on every frame below 2^36 |
| ImeeEpt.IntroCtx.Bystander | kvm/imee.c:1543-1557 | an operation on one context keeps every other context of the allocator valid, with its state, its hardware walks and its frames |
| ImeeEpt.IntroCtx.GetEpte | kvm/imee.c:435-451 | the slot in the first listed page of the frame's region, or none |
| ImeeEpt.IntroCtx.AllocNonLeafPage | kvm/imee.c:1013-1022 | the allocator's next frame, or null, recorded at the head of the inner list; within the budget it is zeroed and becomes the context's own |
| ImeeEpt.IntroCtx.AllocLeafPage | kvm/imee.c:1024-1035 | the same for the page's 2 MB region, at the head of the leaf list |
| ImeeEpt.IntroCtx.MapEpte | kvm/imee.c:457-518 | the view gains exactly the mapping, exactly the missing tables are added, the slot returned is the one `get_epte` finds from then on, and only the context's own frames are written |
| ImeeEpt.IntroCtx.CopyLeafEpt | kvm/imee.c:1216-1241 | one stripped copy of every level-1 page, in distinct frames, each copy at the head of the list |
| ImeeEpt.IntroCtx.LinkPage | kvm/imee.c:1047-1086 | one more list page is linked, or shadowed by an earlier one, for at most two frames |
| ImeeEpt.IntroCtx.MakeImeeEpt | kvm/imee.c:1037-1094 | the tree over the whole list, with the same view, for at most 1 + 2L frames |
| ImeeEpt.IntroCtx.MapLocalPageTables | kvm/imee.c:1304-1312 | the view with the five local pages, for at most three frames |
| ImeeEpt.IntroCtx.RemapGpaCode | kvm/imee.c:850-879 | the tables, the saved slot and the saved entry move as one hijack of the view; a covered page costs no frame, another one its missing tables |
| ImeeEpt.IntroCtx.CreateIntrospectionContext | kvm/imee.c:1471-1484 | the stripped guest view with the local pages, for at most 3L + 4 frames, all of them the context's own |
| ImeeDriver.InitLocalPageTables | kvm/imee.c:1245-1302 | fails exactly if a host page is unmapped; otherwise the three pages hold exactly the entries 0x67 and 0x167 of the fake page tables, which `AgentSpaceAfterRun` walks |
| ImeeDriver.AgentIsConfined | kvm/imee.c:1216-1312 | for every guest and run the agent is confined, and its address space as set up, both exactly unless the last hijack hit a writable local page |
| ImeeDriver.HardwareIsView | kvm/imee.c:1037-1094 | what the hardware maps from a context's root is the context's view, and no walk ends in a large page |
| ImeeDriver.HitOnce | kvm/imee.c:1150-1172 | however intercepts and violations come, each context is hijacked at most once, and none before it is picked |
| ImeeDriver.TargetsAre | kvm/imee.c:1442-1486 | the contexts are for the first VM of each id that is not the agent's own, and for no other, in the reverse order of the VM list |
| ImeeDriver.Imee.KvmToCtx | kvm/imee.c:1428-1440 | the context of a VM, or none |
| ImeeDriver.Imee.InitLocals | kvm/imee.c:1245-1302 | host memory gains the three fake tables exactly if both host pages are mapped; a failure leaves the globals half set |
| ImeeDriver.Imee.CreateContext | kvm/imee.c:1442-1486 | a new context at the head of the list unless the VM is the agent's own or has one; all others keep their state, and no two share a frame |
| ImeeDriver.Imee.GetGuestContext | kvm/imee.c:1531-1565 | after set-up every VM but the agent's own has one context with its pristine view, all on one allocator session |
| ImeeDriver.Imee.GetNextCtx | kvm/imee.c:1150-1172 | the first context not picked yet becomes the current target, and only its visit count changes |
| ImeeDriver.Imee.StartGuestIntercept | kvm/imee.c:1567-1677 | the vCPU gets the next context's root; it is armed exactly if the guest core answered or it was armed before |
| ImeeDriver.Imee.HandleEptViolation | kvm/vmx.c:5735-5773 | the first violation after arming is one hijack in the context that the vCPU runs on and in no other, and installs the fake CR3 unless a switch was asked for; any other changes nothing and ends the run |
| ImeeDriver.Imee.Rounds | kvm/vmx.c:5735-5773 | over any run of intercepts and violations every context follows the schedule, for at most three more frames per context however long the run |
| ImeeDriver.Imee.HardwareConfines | kvm/imee.c:1216-1312 | on a context's hardware tables the agent is confined and its two-dimensional walk intact exactly as `AgentIsConfined` says |
| ImeeDriver.Imee.Introspect | kvm/imee.c:1531-1677 | from an empty allocator through set-up and any run of events, `HardwareConfines` holds for the context of every VM but the agent's own, and each was hijacked at most once |
| AsyncPf.PageFaultTable.constructor | kvm/x86.c:168-173 | an empty table |
| AsyncPf.PageFaultTable.Add | kvm/x86.c:7374-7382 | with an empty slot left, one copy of the gfn more, and every entry still reachable |
| AsyncPf.PageFaultTable.GfnSlot | kvm/x86.c:7384-7395 | the slot at which a probe of at most 64 steps stops |
| AsyncPf.PageFaultTable.Find | kvm/x86.c:7397-7400 | true exactly for the gfns in the table |
| AsyncPf.PageFaultTable.NextMisplaced | kvm/x86.c:7408-7419 | the next entry whose hash lies outside the cyclic stretch behind the hole, or, at an empty slot, no entry needs the hole |
| AsyncPf.PageFaultTable.Delete | kvm/x86.c:7402-7423 | removes exactly the entry the probe stops at, keeps every entry reachable, and terminates even on a full table |
| AsyncPf.SlotSpec | kvm/x86.c:7384-7395 | the probe finds the gfn if it is there, else an empty slot, else comes back to the hash slot |
| AsyncPf.HoleClosed | kvm/x86.c:7408-7414 | reaching an empty slot leaves no entry cut off by the hole |
| AsyncPf.HoleMoved | kvm/x86.c:7415-7421 | moving a misplaced entry into the hole makes its old slot the only hole |
| AsyncPf.MoveEntry | kvm/x86.c:7420-7421 | a move keeps the contents and strictly lowers the total displacement |
| AsyncPf.DeletesTheGfn | kvm/x86.c:7402-7423 | a deletion removes the gfn and nothing else exactly if it is present or a slot is empty |
| AsyncPf.RunTracksMultiset | kvm/x86.c:7374-7423 | over any run of legal additions and deletions a lookup is true exactly for the gfns of the abstract multiset |
| Memslots.InitialIsGood | kvm/kvm_main.c:444-451 | the initial table is sorted, indexed and without overlaps |
| Memslots.InsertSorted | kvm/kvm_main.c:665-678 | an insertion keeps the order by size |
| Memslots.PermutedIds | kvm/kvm_main.c:684-693 | a permutation of a table with distinct ids has the same slots |
| Memslots.SortMemslots | kvm/kvm_main.c:684-693 | sorted by size, `id_to_index` again the exact inverse, every id with its slot |
| Memslots.UpdateMemslots | kvm/kvm_main.c:695-707 | one slot is replaced, all others keep their contents, order and index hold again |
| Memslots.CheckOverlaps | kvm/kvm_main.c:834-845 | true exactly if all slots visited let the range pass |
| Memslots.RefusedRange | kvm/kvm_main.c:834-845 | on the slots' fields: a range is refused exactly if it meets a visited user slot other than the named one |
| Memslots.AcceptedIsFree | kvm/kvm_main.c:834-845 | a range is accepted exactly if it meets no user slot's pages and no visited empty slot's base lies strictly inside it; a refused one meets one of them |
| Memslots.SizesAllowStop | kvm/kvm_main.c:837-844 | in a sorted table a loop that ends at the first empty slot visits exactly the slots with pages |
| Memslots.DeletedSlotBlocks | kvm/kvm_main.c:837-844 | a table in which a free range is refused over the old base of slot 7 |
| Memslots.CommitKeepsDisjoint | kvm/kvm_main.c:759-941 | every committed change keeps the user slots with pages pairwise apart |
| Memslots.GenerationsCount | kvm/kvm_main.c:723-749 | the generation counts publications modulo 2^64, so two tables share one exactly if a multiple of 2^64 lies between |
| Memslots.Kvm.constructor | kvm/kvm_main.c:444-495 | the initial table under generation -150 |
| Memslots.Kvm.InstallNewMemslots | kvm/kvm_main.c:723-749 | the table goes out under the next generation, which is odd, and settles, unchanged, under the even one after |
| Memslots.Kvm.Invalidate | kvm/kvm_main.c:865-887 | readers first see the slot flagged INVALID and all others as before |
| Memslots.Kvm.Replace | kvm/kvm_main.c:899-912 | the final table differs from the one before the call in the named slot only, which is as requested |
| Memslots.Kvm.CommitChange | kvm/kvm_main.c:865-912 | invalidating, preparing and replacing leave exactly the requested slot changed, after two or four publications, the first of which shows it INVALID for a delete or move; the error of a failed mapping or allocation otherwise |
| Memslots.Kvm.SetMemoryRegion | kvm/kvm_main.c:759-941 | the exact result of every request on the fields of request and slot: -EINVAL for a malformed one, for a change of size, address or READONLY, and for deleting nothing; 0 for one that repeats the slot; -EEXIST for a placed range that meets a visited user slot; -ENOMEM or the mapping's error; otherwise exactly the named slot becomes what was asked for, after two or four publications. Refusals change nothing, and all invariants hold again |
| Memslots.Kvm.Run | kvm/kvm_main.c:759-941 | after any run of requests user slots are disjoint, the table sorted and indexed, the generation even and the old one plus the publications modulo 2^64 |
| GuestMemory.PutAppend | kvm/kvm_main.c:1537-1555 | storing segment after segment is storing the whole |
| GuestMemory.PutLookup | kvm/kvm_main.c:1520-1534 | the last byte stored at an address stays, all other addresses keep theirs |
| GuestMemory.PageAddresses | kvm/kvm_main.c:1057-1070 | within one page host addresses follow each other and are reachable together |
| GuestMemory.FirstHolder | kvm/kvm_main.c:1010-1014 | a frame's slot is the first of the table that holds it |
| GuestMemory.ByteFields | kvm/kvm_main.c:1057-1070 | a byte is reachable exactly if its slot is not being removed nor, for a write, read-only, and the host byte as far from the slot's host address as the guest byte from its base is accessible |
| GuestMemory.RangeFields | kvm/kvm_main.c:1537-1555 | the same for every byte of a range |
| GuestMemory.AddressFields | kvm/kvm_main.c:1057-1070 | where the bytes of a reachable range lie, from the slots' fields |
| GuestMemory.BitFields | kvm/kvm_main.c:1672-1688 | the bits of some frames: slot and offset from its base, exactly for the frames whose slot has a bitmap |
| GuestMemory.BitIsTouched | kvm/kvm_main.c:1537-1555 | the bits of a range of bytes are those of the frames, of slots with a bitmap, that hold one of them |
| GuestMemory.Guest.CopyTo | kvm/kvm_main.c:1520-1531 | stores a prefix, all of the data exactly if every address is accessible |
| GuestMemory.Guest.MarkPageDirty | kvm/kvm_main.c:1672-1688 | adds the bit of slot and offset exactly if the frame's slot has a bitmap |
| GuestMemory.Guest.WriteGuestPage | kvm/kvm_main.c:1520-1534 | succeeds and marks exactly if the whole piece is reachable |
| GuestMemory.Guest.WriteGuest | kvm/kvm_main.c:1537-1555 | succeeds exactly if every byte's slot is neither being removed nor read-only and its host byte accessible; then data[i] lands at `userAddr + (gpa + i - baseGfn * PAGE)` in order, and exactly the bits `(id, gfn - baseGfn)` of touched frames with a bitmap are added; a failure leaves a stored prefix and marks only the pages completed |
| GuestMemory.Guest.ReadGuest | kvm/kvm_main.c:1480-1498 | succeeds exactly if every byte's slot is not being removed and its host byte accessible, and returns the bytes at `userAddr + (gpa + i - baseGfn * PAGE)` in order |
| GuestMemory.Guest.WriteThenRead | kvm/kvm_main.c:1464-1555 | reading back gives the data exactly if bytes that share a host byte agree, and always without aliases |
| GuestMemory.FetchAfterPut | kvm/kvm_main.c:1464-1555 | stored bytes are fetched back exactly if aliased positions carry the same byte |
| GuestMemory.GuestSees | kvm/kvm_main.c:1537-1555 | without aliases the guest reads the written bytes in the range and its old bytes everywhere else |
| GuestMemory.DirtyIsTouched | kvm/kvm_main.c:1672-1688 | a frame's bit is among those of a range exactly if the range has a byte in the frame |
| GuestMemory.TornPage | kvm/kvm_main.c:1520-1534 | after a failed write a stored byte is in a marked page exactly unless it shares the page where the copy stopped |
| HvaCache.StampMatches | kvm/kvm_main.c:1557-1591 | a stamp read before the lookups matches a later table, fewer than 2^64 publications on, only if every lookup saw that table |
| HvaCache.StampRepeats | kvm/kvm_main.c:1557-1603 | a stamp matches a later table exactly if a multiple of 2^64 publications lies between |
| HvaCache.HopsOver | kvm/kvm_main.c:1578-1586 | stepping to the end of a slot passes only frames that can be written |
| HvaCache.Cache.CheckRegion | kvm/kvm_main.c:1574-1589 | the result is justified by the table of one lookup, and covers the region if no update came between |
| HvaCache.Cache.Init | kvm/kvm_main.c:1557-1591 | from the last lookup on, whenever the stamp matches the published generation, the cache agrees with the published table, whatever was published in between; it fails only over a frame without an address, and undisturbed exactly then |
| HvaCache.Cache.Refresh | kvm/kvm_main.c:1597-1603 | after the generation check the cache agrees with a table published during the call |
| HvaCache.Cache.Read | kvm/kvm_main.c:1620-1643 | returns what an uncached read under a table of the call returns, and without blocked frames fails only when that does; undisturbed, a whole region is read exactly if it could be written |
| HvaCache.Cache.Write | kvm/kvm_main.c:1594-1618 | stores what an uncached write stores or nothing, succeeds with it, and marks the same pages |
| HvaCache.OnlyReadonlyDiffers | kvm/kvm_main.c:1057-1070 | a readable region can be written exactly if none of its frames is in a read-only slot |
| HvaCache.CachedAddress | kvm/kvm_main.c:1594-1643 | a cached address reaches exactly the bytes that the table it agrees with reaches |
| DirtyLog.WordCleared | kvm/x86.c:3614 | an exchange takes exactly the word's frames out of the live half |
| DirtyLog.WordFilled | kvm/x86.c:3615 | and puts exactly them into the snapshot half |
| DirtyLog.FrameBits | kvm/kvm_main.c:1672-1680 | a frame is marked exactly if bit f % 64 of word f / 64 is set |
| DirtyLog.SlotLog.constructor | kvm/kvm_main.c:652-663 | both halves zeroed |
| DirtyLog.SlotLog.MarkPageDirty | kvm/kvm_main.c:1672-1680 | the live half gains the frame, as one bit of one word, and nothing else changes |
| DirtyLog.SlotLog.Exchange | kvm/x86.c:3614-3615 | a word's marks move from the live half to the snapshot |
| DirtyLog.SlotLog.HarvestWord | kvm/x86.c:3605-3619 | with marks before and after the exchange, no mark is lost or invented, old marks of the word are in the snapshot and only new ones stay live |
| DirtyLog.SlotLog.Harvest | kvm/x86.c:3605-3619 | live half plus snapshot are the old marks plus those made meanwhile, and every old mark is in the snapshot |
| DirtyLog.SlotLog.Collect | kvm/x86.c:3601-3623 | after the flush no frame can be stored to without a fault unless it is marked in the live half |
| DirtyLog.SlotLog.GetDirtyLog | kvm/x86.c:3576-3633 | a delivered log has the least number of words that hold all pages and the bit of every unreported store made before the harvest, and nothing unmarked; marks are lost exactly if the copy fails |
| TimeScale.DivFrac | kvm/x86.c:1069-1079 | the 32-bit quotient of dividend * 2^32, for dividend < divisor |
| TimeScale.ScaleDown | kvm/x86.c:1089-1094 | ends with the base rate cut to 32 bits and at most twice the scaled rate, off by less than one unit |
| TimeScale.ScaleUp | kvm/x86.c:1096-1103 | ends with scaled rate below base rate below 2^32 and at least half of it, all doublings and halvings counted in the shift |
| TimeScale.MultiplierRange | kvm/x86.c:1106 | the multiplier lies in [2^31 - 1, 2^32) |
| TimeScale.GetTimeScale | kvm/x86.c:1081-1107 | for all non-zero rates it ends, never overflows, gives a multiplier in [2^31 - 1, 2^32) and a shift in [-42, 75], with a stated relative error |
| TimeScale.ZeroRateNeverEnds | kvm/x86.c:1089-1103 | the second loop starts from zero, and then never ends, exactly if a rate is zero |
| GuestClock.ClampExactly | kvm/x86.c:1601-1626 | for every host time the new base is at least what the guest may have seen, exactly without master clock and with a non-zero old timestamp, or if that is not positive |
| GuestClock.VcpuClock.Exit | kvm/x86.c:6041-6042 | the last guest TSC bounds everything the guest has read |
| GuestClock.VcpuClock.GuestRead | kvm/x86.c:1601-1630 | a read is never below an earlier read |
| GuestClock.VcpuClock.GuestTimeUpdate | kvm/x86.c:1516-1660 | every update with a rate and pv time on ends with the factor for that rate within the stated error, and with the larger of host time and time seen, or the host time under a master clock or a zero timestamp; without a master clock the new system time is at least the old clock at the last guest TSC; any other update leaves clock, rate and version alone |
| GuestClock.VcpuClock.Run | kvm/x86.c:1516-1660 | over any run of entries, exits, reads and updates without a master clock the times read never decrease, and the factor is always the one for the recorded rate |
| Mmio.TilesAppend | kvm/x86.c:4277-4309 | layouts of adjacent stretches join |
| Mmio.ChunksTile | kvm/x86.c:6218-6233 | the pieces of a fragment cover it in order |
| Mmio.ChunkMembers | kvm/x86.c:6218-6233 | each is a user piece at the fragment's address plus its offset, a multiple of 8, and has 8 bytes unless it ends the fragment |
| Mmio.FragmentLaidOut | kvm/x86.c:4265-4274 | a page's rest as fragment extends the layout to the page's end |
| Mmio.KeepOrder | kvm/x86.c:6209-6252 | user pieces come in the order of their bytes, and so do handled ones |
| Mmio.NextIsApart | kvm/x86.c:6217-6221 | the next user piece overlaps nothing that has moved |
| Mmio.PlanStep | kvm/x86.c:6223-6232 | a fragment of more than 8 bytes gives one piece and the rest, a shorter one ends |
| Mmio.SameSpans | kvm/x86.c:4234-4326 | handled pieces and user pieces are the layout, each once |
| Mmio.TakerOfByte | kvm/x86.c:4234-4275 | the page alone decides who takes a byte: guest memory if it takes the page, else device o / 8 if it answers, else user space |
| Mmio.EachByteOnce | kvm/x86.c:4234-4326 | each byte of a finished access moved in exactly one piece, with the taker its page has for it, and the buffer holds it: on a read the memory's or the device's own byte |
| Mmio.Vcpu.VcpuMmio | kvm/x86.c:3923-3963 | the devices take pieces of 8 bytes, the last one maybe shorter, exactly as long as they accept; on a read byte o is byte o % 8 of device o / 8; nothing else moves |
| Mmio.Vcpu.OnePage | kvm/x86.c:4234-4275 | if guest memory takes the page it takes all of it, no fragment is added, and a read leaves its bytes; else byte o comes from device o / 8 as far as these answer, and exactly the rest becomes one fragment, untouched |
| Mmio.Vcpu.ReadWrite | kvm/x86.c:4277-4326 | faults exactly if a page it uses faults; otherwise an exit is needed exactly if some page is refused by memory and not covered by its devices, and a read holds each byte of memory and devices in its place; the first exit is posted, and a re-executed read returns the bytes assembled |
| Mmio.Vcpu.CompleteEmulatedMmio | kvm/x86.c:6209-6252 | exactly the next owed piece moves, the rest of the buffer stays, and the access ends exactly with the last piece |
| Mmio.Vcpu.Serve | kvm/x86.c:6209-6252 | user space serves exactly the owed pieces in order, reads get its answers, and the access ends |
| Words.WordOperations | kvm/vmx.c:1831-1840 | `&`, `\|`, `^` and `& ~` on 64-bit words are the operations on the sets of their bits |
| Words.WordsAreTheirBits | kvm/vmx.c:1831-1840 | two words are equal exactly if they have the same bits |
| Words.SharedBits | kvm/vmx.c:7161-7181 | the test `a & b` is zero exactly if the words share no bit |
| NestedCr.NestedReadWord | kvm/vmx.c:1831-1835 | the C expression of `nested_read_cr0` on 64-bit words is the model's |
| NestedCr.GuestBackWord | kvm/vmx.c:8926-8934 | the C expression of `vmcs12_guest_cr0` on 64-bit words is the model's |
| NestedCr.GuestBackIsView | kvm/vmx.c:8926-8944 | L1 gets its own trapped bits and, elsewhere, what L2 reads |
| NestedCr.EntryCr0 | kvm/vmx.c:8705-8706 | at entry L2 reads exactly what L1's fields imply, for every mask, shadow and FPU state |
| NestedCr.EntryCr4 | kvm/vmx.c:8708-8709 | the same for CR4 |
| NestedCr.HandledCr0 | kvm/vmx.c:5096-5126 | a write L1 does not want shows L2 the value it wrote and keeps L1's trapped bits |
| NestedCr.HandledCr4 | kvm/vmx.c:5128-5144 | the same for CR4 |
| NestedCr.ReloadedCr4 | kvm/vmx.c:3345-3370 | a reload gives L2 L1's CR4 in the bits that L1 traps, so it keeps what L2 reads exactly if L1's shadow and CR4 agree on them |
| NestedCr.ActivatedFpu | kvm/vmx.c:1805-1822 | activation changes nothing that L2 reads |
| NestedCr.DeactivatedFpu | kvm/vmx.c:1842-1867 | deactivation keeps what L2 reads exactly if no untrapped bit but TS was changed; it reads L1's CR0 in untrapped bits but TS, and the rest as before |
| NestedCr.DeactivationLosesWrite | kvm/vmx.c:1842-1867 | L2 sets an untrapped WP and reads it as clear afterwards |
| NestedCr.ReloadShowsTrappedBit | kvm/vmx.c:3345-3370 | a trapped bit shadowed as clear reads as set after a reload |
| NestedCr.DirectIsOurs | kvm/vmx.c:7157-7193 | a write that hardware lets through changes no bit that L1 traps |
| NestedCr.AgreeTest | kvm/vmx.c:7161-7181 | the mask-and-xor test is zero exactly if no bit of the mask differs |
| NestedCr.OwnedBits | kvm/vmx.c:1805-1822 | L2 owns TS while it has the FPU and the guest-owned bits of CR4, PGE under EPT, each unless L1 traps it |
| NestedCr.HwCr0Bits | kvm/vmx.c:3373-3412 | the hardware's CR0 bit by bit: NW and CD off, NE on, PE and PG on unless unrestricted, WP and TS, MP forced as paging and FPU demand |
| NestedCr.HwCr4Bits | kvm/vmx.c:3533-3575 | the hardware's CR4 bit by bit: VMXE on, VME, PSE, PAE, SMEP and SMAP as paging and real mode demand |
| NestedCr.HwIsSafe | kvm/vmx.c:3373-3412 | a loaded CR0 keeps caching on, NE set, paging on where it is emulated, and TS set while the FPU is not L2's; `Running` keeps this over every run |
| NestedCr.RefusedIsBad | kvm/x86.c:505-526 | the checks in the order of the code refuse exactly the values with NE, PE or PG missing, NW without CD, PG without PE, or an upper bit |
| NestedCr.CourseOfWrites | kvm/vmx.c:7157-7193 | on single bits: a write takes effect by itself, goes to L1, faults or is carried out by L0, each exactly when |
| NestedCr.NestedVcpu.SetCr0 | kvm/vmx.c:3373-3412 | register, shadow, the hardware value, and when CR4 is reloaded with it |
| NestedCr.NestedVcpu.SetCr4 | kvm/vmx.c:3533-3575 | fails exactly without VMXE, otherwise register, shadow and the hardware value |
| NestedCr.NestedVcpu.PrepareVmcs02 | kvm/vmx.c:8638-8709 | L2 starts reading exactly `nested_read_cr0` and `nested_read_cr4` |
| NestedCr.NestedVcpu.HandleSetCr0 | kvm/vmx.c:5096-5126 | faults exactly for a write not accepted, or a merged value with NE clear, PE or PG clear when required, NW without CD, PG without PE or an upper bit, having changed at most TS in `arch.cr0`; otherwise L2 reads what it wrote, `arch.cr0` is the merged value, and CR4 is reloaded exactly as the reload lemma says |
| NestedCr.DecachedCr0Ok | kvm/x86.c:508 | fetching TS from the VMCS before the checks keeps the state and changes no other bit |
| NestedCr.NestedVcpu.HandleSetCr4 | kvm/vmx.c:5128-5144 | faults exactly for a write not accepted or a merged value without VMXE or with a reserved bit; otherwise L2 reads what it wrote |
| NestedCr.NestedVcpu.L2MovCr0 | kvm/vmx.c:7157-7164 | goes to L1 exactly if L1 traps a changed bit, otherwise faults or takes effect exactly as `CourseOfWrites` says, with the whole next state |
| NestedCr.NestedVcpu.L2MovCr4 | kvm/vmx.c:7178-7182 | goes to L1, faults or takes effect exactly as `CourseOfWrites` says, with the whole next state |
| NestedCr.NestedVcpu.L2Clts | kvm/vmx.c:5145-5159 | clears TS as L2 sees it, or goes to L1 exactly if L1 traps and shadows it as set |
| NestedCr.NestedVcpu.FpuActivated | kvm/vmx.c:1805-1822 | L2 reads the same from both registers |
| NestedCr.NestedVcpu.FpuDeactivated | kvm/vmx.c:1842-1867 | L2 reads the same from CR4, and from CR0 L1's value in untrapped bits but TS, so the same exactly if it changed no such bit |
| NestedCr.NestedVcpu.PrepareVmcs12 | kvm/vmx.c:9028-9034 | L1's fields change only in bits that L1 does not trap, to what L2 reads |
| NestedCr.NestedVcpu.RunL2 | kvm/vmx.c:8638-8709 | for any events L2 ends in the state that the step function gives, without conditions; an event took no effect exactly if it must fault and L2 cannot do it by itself, and L2 leaves for L1 exactly at the first event that L1 wants; where no reload and no deactivation disturbs it, L2 reads what its own writes made of the value at entry |
| NestedCr.NestedVcpu.RunNested | kvm/vmx.c:8638-9034 | from entry to exit L1 gets its trapped bits back and, elsewhere, exactly what L2 ends up reading, by the step function from what L1 set up; faults and the exit exactly as in `RunL2` |
| ScanProtocol.StepKeeps | scan_tool_async/lib/hyp.c:18-65 | every instruction and every draining store keeps the lock a token between client and agent |
| ScanProtocol.RunKeeps | scan_tool_async/lib/hyp.c:18-65 | so does every interleaving |
| ScanProtocol.ReplyIsTheRequested | scan_tool_async/src/main.c:124-132 | whenever the client has left its spin, the reply is the 64 bytes at the address it posted, each 16 as the guest held them at some time since the post, in order |
| ScanProtocol.AgentIsDisciplined | scan_tool_async/lib/hyp.c:18-65 | the agent's lock stores are made and drain only while the lock is 1, with the target's CR3 loaded it neither stores nor has stores pending, and it exits only after the client's 2 |
| ScanProtocol.Closer | scan_tool_async/src/main.c:124-135 | every step of a thread that changes anything lowers a bound on the work left |
| ScanProtocol.NoDeadlock | scan_tool_async/src/main.c:124-135 | until both have finished, one thread can move |
| ScanProtocol.CanFinish | scan_tool_async/src/main.c:124-135 | from every reachable state both finish within that bound, all requests answered |

## Left out

- EptFrames.FrameAllocator.ReleaseEptFrames: what `free_pages` does with the word behind `p_bases` is not known, so nothing is promised after such a read but that memory and the granted blocks are as before.
- EptFrames.FrameAllocator.GetTableFrame: that the frame is fresh and zeroed is promised only within a budget of frames that arrive zeroed.
- EptFrames.FrameAllocator.GetEptPage: `p_idx` is unbounded, so the 2^31 null calls that would wrap the C int are not modelled; `__pa` and `__va` are the identity on frame numbers.
- ImeeEpt.IntroCtx.MapEpte: assumes that `kmalloc` succeeds, that the missing tables can be had and arrive zeroed, and that GPAs are below 2^48, because the C code checks none of these and goes on with a null table. The same holds for the members built on it:
- ImeeEpt.IntroCtx.AllocNonLeafPage: a null frame is recorded like any other, as in C; `kmalloc` is taken to succeed.
- ImeeEpt.IntroCtx.AllocLeafPage: the same.
- ImeeEpt.IntroCtx.CopyLeafEpt: needs a zeroed frame for every copied page.
- ImeeEpt.IntroCtx.LinkPage: needs two zeroed frames, also where fewer tables are missing.
- ImeeEpt.IntroCtx.MakeImeeEpt: needs 1 + 2L zeroed frames, also where leaf pages share tables.
- ImeeEpt.IntroCtx.MapLocalPageTables: needs three zeroed frames, also where fewer tables are missing.
- ImeeEpt.IntroCtx.RemapGpaCode: needs the tables missing for an uncovered page.
- ImeeEpt.IntroCtx.CreateIntrospectionContext: needs 3L + 4 zeroed frames.
- ImeeView.AgentSpaceAfterRun: assumes that the agent's code, where it took the place of a fake page table, has a word with bit 0 clear; code that reads as a whole page table could map anything.
- ImeeDriver.Imee.CreateContext: needs 3L + 4 zeroed frames where a context is due.
- ImeeDriver.Imee.Introspect: needs the frames of all contexts and three more for each, all of which arrive zeroed.
- ImeeDriver.Imee.GetGuestContext: starts from a loaded or stopped module with `trial_run` clear, which `kvm_imee_stop` does not ensure; a second set-up without a stop in between is not modelled. The list of VMs does not change during set-up.
- ImeeDriver.Imee.Rounds: `do_switch_cr3`, which would arm the vCPU again, is not modelled, since nothing in the repository sets `do_switch` to 1.
- ImeeDriver.Imee.StartGuestIntercept: the wait for the guest core is one answer; an answer that comes late is no answer.
- ImeeDriver.Imee.HandleEptViolation: RIP and the segment state that `adjust_imee_vcpu` sets, TLB flushes and the dump before the final return are hardware effects.
- The CR3-trap protocol around `go_flg`: its flag is never set (`kvm/imee.c:237`).
- AsyncPf.PageFaultTable.Add: requires an empty slot, as the callers' limit on faults in flight guarantees; a full table would probe forever.
- Memslots.Kvm.SetMemoryRegion: the loop macro `kvm_for_each_memslot` is not part of this repository, so the model takes any end of the loop that skips no slot with pages; `KVM_MEM_MAX_NR_PAGES` is not either, and is taken as 2^31 - 1. IOMMU mapping, shadow-page flushing, `kvm_free_physmem_slot` and the per-architecture slot arrays are left out.
- Memslots.CommitKeepsDisjoint: speaks of user slots only, since the code never checks private slots against user slots added later.
- Memslots.Sort: the kernel's `sort` is an insertion sort under the contract "sorted permutation".
- GuestMemory.Guest.ReadGuest: what a failed read leaves in the caller's buffer is not stated.
- GuestMemory.FindSlot: `search_memslots` is not part of this repository; the model takes the first slot of the table that holds the frame. Its cached start index is left out.
- HvaCache.Cache.Refresh: requires fewer than 2^64 publications since the cache was filled; with more the stamp can match a table the cache does not agree with, as `HvaCache.StampRepeats` says. `Read` and `Write` inherit this.
- HvaCache.Cache.Init: a length of zero, for which the C arithmetic would take the page before `gpa`, is excluded; the callers pass the size of a structure.
- DirtyLog.SlotLog.GetDirtyLog: the write protection, the TLB flush and the fault handler are the contracts that the comment above the function states; looking up the slot and its missing bitmap are left out.
- GuestClock.VcpuClock.GuestTimeUpdate: nanoseconds and cycles are unbounded, and `pvclock_scale_delta` is any function monotone in the delta; TSC resets start a new run. Copying the result to the guest page is left out.
- Mmio.Vcpu.ReadWrite: what guest memory and devices answer are inputs; address translation is one answer per page. Guest copies are modelled in `GuestMemory`.
- NestedCr.NestedVcpu.SetCr0: real-mode emulation, long mode and EFER are left out; the checks of `kvm_set_cr0` and `kvm_set_cr4` that concern CPUID, EFER, CR3, the page-directory pointers and PCIDE are one answer, `accepted`. LMSW is left out.
- ScanProtocol.Next: the threads are a state machine on values, since their steps interleave; its store buffers follow x86, and loads are not reordered with each other. Timing stamps, `printf` and the setup before the threads start are left out.
- Inline assembly, interrupt patching, ioctl dispatch, tracing, the remaining agents and drivers under `scan_tool_*`.
