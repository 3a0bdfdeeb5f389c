# FacelessOS2 kernel: a Dafny model of its memory, ACPI, text and device-window code

The kernel's C code is modelled module by module, with machine words as natural numbers and
`&`, `|`, `>>` defined bit by bit (`Bits`), so that every mask the code uses has a proved
arithmetic meaning.

**Page mapper.** `map_page` builds a four-level x86-64 page table and calls itself to
identity-map every table frame it installs. The model has two layers.

- `PageMapper.Mapper` works as the source does: on an array of frames of 512 words, with the
  indices, masks and re-reads of the source, over the allocator of `FrameAllocator.Pmm`,
  which consumes the boot memory map in place.
- `PageSpace` holds what these words mean: a trie of table frames, the leaf entry of every
  mapped page and the queue of free frames, with `map_page` as a recursion. `Mapper.MapPage`
  is proved to do exactly that recursion, and `PageMemory.TranslateAgrees` proves that the
  hardware's walk over the raw words sees exactly the pages of the space. `Mapper.Execute`
  carries both over whole runs of `map_page` and `unmap_page`.

The central result, `PageSpace.MapPageGrows`, removes the recursion. Let U(n) be the tables
missing on the path of the address and on the paths of the first n free frames. The call
takes the least n with |U(n)| = n, adds exactly the tables U(n), maps exactly those n frames and
the page of the address, and keeps everything else; it fails exactly when no n within the
free queue satisfies |U(n)| <= n. `Budget` proves the counting argument for any queue of
purchases that make further purchases necessary. From it follow the bounds of six and three frames,
conservation of frames, and the invariants of whole runs.

The tables are *hosted* when every table frame the mapper allocated is mapped to itself. A leaf
maps the page of an address to the frame its entry names, and the two differ when bits 48 to
51 of the address or address bits of the flags are set (`PageWords.NamesPageIff`), so the page of a
frame that is still free can come to name another frame before the free one becomes a table. Hosting is therefore kept together with the invariant that no free
frame's page is so claimed, and both are kept by exactly the steps `PageRuns.RunHostedIff` names.

`unmap_page` walks the upper tables without testing their present bits. Where they are missing
the walk can end in a word of another table; `PageMapper.UnmapHoldsIff` gives the exact
condition for the call to remove its page and nothing else.

**Frame allocator.** Runs of `pmm_alloc` hand out the frames of the usable regions in order,
distinct and inside their regions. They do so for every run exactly when all usable lengths
are multiples of 0x1000; otherwise a 64-bit subtraction wraps and a frame reaches past its region.

**MADT.** Three walkers over one byte stream, proved against the list of entries they decode,
with a serialiser as inverse. The index guard of `parse_madt` lets a seventeenth processor
through and the count of cores has 8 bits, so the array of ids is modelled with the memory behind its 16 cells, and
the lemmas say exactly when that is written or read.

**Text.** `dec2str` and `hex2str` fill a buffer backwards and reverse it in place; both are proved
against texts that parse back to the number. `log` is proved to print what a printf-like
renderer prints exactly on the formats where every conversion is followed by a character
other than `%` and the end, and there for exactly the arguments that give no `%d` the least integer.

**Device windows.** PCI configuration search through the address latch, and the I/O APIC
redirection table through its select and window registers.

## Model

| member | source | states |
|---|---|---|
| Bits.AndFieldMask | kernel/src/arch/memory/vmm.c:56 | masking with ones shifted left cuts out a bit field in place, for every width and shift |
| Bits.OrDisjoint | kernel/src/arch/memory/vmm.c:52 | or-ing fields that do not overlap is adding them |
| PageWords.EntryFields | kernel/src/arch/memory/vmm.c:52-56 | an entry built from an address and flags below 0x1000 gives back the frame, the present bit and the page-size bit |
| PageWords.EntryBits | kernel/src/arch/memory/vmm.c:52-56 | for flags of any size: the present and page-size bits are those of the flags, and the frame named is the frame or-ed with the flags' address bits |
| PageWords.EntryRoundTripIff | kernel/src/arch/memory/vmm.c:52-56 | masking gives every frame back exactly when the flags are below 0x1000 |
| PageWords.PresentFlags | kernel/src/arch/memory/vmm.c:40 | setting the present bit twice is setting it once, and it moves flags neither across 0x1000 nor into a large page |
| PageWords.NamesPageIff | kernel/src/arch/memory/vmm.c:80 | an entry names the page of its address iff bits 48 to 51 of the address are clear and the flags have no address bit the page number has not; with flags below 0x1000 the bits 48 to 51 decide |
| PageWords.ClearedFields | kernel/src/arch/memory/vmm.c:100 | the word left by unmapping is the page address, not present |
| PageWords.IndexDigits | kernel/src/arch/memory/vmm.c:43-46 | the four indices are the base-512 digits of the page number |
| PageWords.IndicesIdentifyPage | kernel/src/arch/memory/vmm.c:43-46 | indices agree iff pages agree, and they recombine to the page address |
| FrameAllocator.Pmm.FindTop | kernel/src/arch/memory/pmm.c:85-110 | the loop leaves the highest base + length, in 64-bit arithmetic, of the entries of kind 1 |
| FrameAllocator.MaxTopIsMaximum | kernel/src/arch/memory/pmm.c:92-105 | every usable entry that does not wrap ends at or below that value, and some usable entry ends there |
| FrameRuns.AllocKeepsMaxTop | kernel/src/arch/memory/pmm.c:49-56 | allocation never moves it, even where the arithmetic wraps |
| FrameAllocator.Pmm.Alloc | kernel/src/arch/memory/pmm.c:48-62 | takes a frame off the first usable entry in place, or returns NULL and changes nothing |
| FrameAllocator.AllocStepFields | kernel/src/arch/memory/pmm.c:43-62 | field by field: the base handed out is that of the first entry of kind 1 with a length, whose base moves up and length down by 0x1000 modulo 2^64; all others stay |
| FrameAllocator.Pmm.AllocZ | kernel/src/arch/memory/pmm.c:66-74 | additionally clears the 512 words of the returned frame and no other word, when the address is that of a frame |
| FrameRuns.AllocTakesFirst | kernel/src/arch/memory/pmm.c:48-62 | one success hands out the first free frame, keeps the order of the rest and lowers the usable length by 0x1000; NULL iff no usable length is left |
| FrameRuns.RunHandsOutFrames | kernel/src/arch/memory/pmm.c:48-62 | n calls hand out the first n free frames, and exactly total / 0x1000 calls succeed |
| FrameRuns.RunIsSafe | kernel/src/arch/memory/pmm.c:48-62 | over every run the results are distinct, page aligned and whole frames inside a region usable at boot |
| FrameRuns.AllocationSafeIff | kernel/src/arch/memory/pmm.c:51-56 | no run leaves the usable regions iff every usable length is a multiple of 0x1000 |
| Budget.BoughtTrans | kernel/src/arch/memory/vmm.c:48-75 | least budgets of successive needs add up to the least budget of both |
| Budget.BuyBought | kernel/src/arch/memory/vmm.c:50-53 | buying a missing thing first and then what it makes necessary is a least budget for the thing |
| Budget.ConstantNeeds | kernel/src/arch/memory/vmm.c:50-53 | when all purchases make the same things necessary the least budget has a closed form |
| Budget.LeastOrStarved | kernel/src/arch/memory/vmm.c:48-75 | there is a least budget unless no budget suffices, and it is unique |
| PageSpace.EnsureTableGrows | kernel/src/arch/memory/vmm.c:48-54 | one block of `map_page` grows the tree by exactly what its table makes necessary |
| PageSpace.MapPageGrows | kernel/src/arch/memory/vmm.c:38-82 | the whole recursive call without recursion: least budget, tables added, pages added, everything else kept, or out of frames |
| PageRuns.MapPageSucceedsIff | kernel/src/arch/memory/vmm.c:48-75 | a call succeeds iff some number of free frames pays for the tables they and the address make necessary |
| PageRuns.RegionBudget | kernel/src/arch/memory/vmm.c:48-77 | with all free frames in one 2 MiB region: the exact cost, success iff it fits, at most 6, at most 3 with the region's page table |
| PageRuns.MapPageKeeps | kernel/src/arch/memory/vmm.c:48-81 | a call keeps the tree closed, keeps table frames apart from each other and from free frames, and conserves frames |
| PageRuns.TakenAreTables | kernel/src/arch/memory/vmm.c:50-52 | every frame a call takes becomes a table |
| PageRuns.MapPageSelfHostedIff | kernel/src/arch/memory/vmm.c:48-75 | after a call every table frame the mapper allocated is mapped to itself iff each frame the call will take is already mapped to itself, or is unmapped and named by its own entry |
| PageRuns.MapPageHostedIff | kernel/src/arch/memory/vmm.c:48-81 | a call keeps the tables identity-mapped and the free frames unclaimed iff that holds of the frames it takes, and the page was mapped, is none of the frames left free, or is named by the entry of its address |
| PageRuns.MapPageIdentityIff | kernel/src/arch/memory/vmm.c:79-81 | identity mappings stay identity mappings iff that holds of the frames it takes, and the page was mapped, is one of these frames, or is named by the entry of its address |
| PageRuns.UnmapHostedIff | kernel/src/arch/memory/vmm.c:99-100 | removing a page keeps the tables identity-mapped iff the page is not an allocated table frame |
| PageRuns.UnmapMapRoundTripIff | kernel/src/arch/memory/vmm.c:79-101 | mapping again with the old flags restores the whole state iff the old leaf was an identity entry without higher bits |
| PageRuns.RunKeeps | kernel/src/arch/memory/vmm.c:38-105 | every run that unmaps only pages with a page table keeps the tree closed and separate, its tables in place and its frames conserved |
| PageRuns.RunHostedIff | kernel/src/arch/memory/vmm.c:38-105 | the tables are identity-mapped after every step of a run iff no step unmaps an allocated table frame, takes a frame that will not be mapped to itself, or maps a free frame's page elsewhere |
| PageRuns.RunHosted | kernel/src/arch/memory/vmm.c:38-105 | so it is for every run whose entries name their own pages and that unmaps no frame that is a table or free at the start |
| PageRuns.RunKeepsIdentity | kernel/src/arch/memory/vmm.c:38-105 | every run whose entries name their own pages keeps identity mappings |
| PageMemory.InstallStored | kernel/src/arch/memory/vmm.c:50-52 | storing an entry for a cleared frame changes one slot and installs one empty table |
| PageMemory.TranslateAgrees | kernel/src/arch/memory/vmm.c:56-81 | the four-level hardware walk over the words finds exactly the pages of the space, when no table entry has the page-size bit |
| PageMemory.NoHugeIff | kernel/src/arch/memory/vmm.c:52 | a call keeps table entries free of the page-size bit iff its flags are or it adds no table |
| PageMemory.TableReferencedOnce | kernel/src/arch/memory/vmm.c:48-77 | a table is referenced by exactly one present slot of the tables above the last level, the root by none |
| PageMemory.BlindSlotAgrees | kernel/src/arch/memory/vmm.c:95-97 | the walk of `unmap_page` ends in the slot of the page where the upper tables exist |
| PageMemory.ExtendsTrans | kernel/src/arch/memory/vmm.c:48-81 | across successive steps present words of tables are never overwritten, tables stay in place and new ones hang by entries with the call's flags |
| PageMapper.EmptyRootHolds | kernel/src/arch/memory/vmm.c:33-35 | an empty root over any memory map of disjoint whole pages is a valid start |
| PageMapper.MapPageSeen | kernel/src/arch/memory/vmm.c:38-82 | what a call does to the hardware's view: old translations stay, the frames it took and the page of the address lead where they should, every other page still faults |
| PageMapper.TablesSeen | kernel/src/arch/memory/vmm.c:48-75 | with hosted tables the hardware translates every allocated table frame to itself |
| PageMapper.UnmapHoldsIff | kernel/src/arch/memory/vmm.c:85-105 | unmapping leaves words that represent the space without the page iff the page's table exists, the walk ends outside all tables, or it ends at an absent word |
| PageMapper.UnmapSeen | kernel/src/arch/memory/vmm.c:85-105 | then exactly the page faults and every other translation is unchanged |
| PageMapper.UnmapLosesOtherPage | kernel/src/arch/memory/vmm.c:95-101 | a concrete memory in which unmapping a page without upper tables clears a table entry, so that another page faults |
| PageMapper.Mapper.MapPage | kernel/src/arch/memory/vmm.c:38-82 | on the words of memory: exactly the recursion on spaces, with only absent words of tables and taken frames changed and new tables linked with the call's flags; it stops at a slot that refers to address 0 or, with flags of 0x1000 and above, to another frame than the one taken |
| PageMapper.Mapper.EnsureTable | kernel/src/arch/memory/vmm.c:48-56 | one block: installs the table if its slot is absent, recurses, and reads the address back |
| PageMapper.Mapper.InstallTable | kernel/src/arch/memory/vmm.c:50-52 | takes and clears a frame and stores its entry; NULL iff no frame is free; the entry names the frame whenever the flags are below 0x1000 |
| PageMapper.Mapper.MapLeaf | kernel/src/arch/memory/vmm.c:79-81 | fills the slot of the page unless it is present |
| PageMapper.Mapper.UnmapPage | kernel/src/arch/memory/vmm.c:85-105 | changes at most the word its walk ends in, to the page address; the state stays valid, without the page, iff the walk ends well |
| PageMapper.Mapper.HardwareSees | kernel/src/arch/memory/vmm.c:56-81 | in every valid state without page-size bits the hardware's walk from the root gives the pages of the space |
| PageMapper.Mapper.Execute | kernel/src/arch/memory/vmm.c:38-105 | a run of calls on the words ends in the space of the run on spaces, the hardware sees exactly its pages, and no word outside the tables and free frames of the start changes; with flags below 0x1000 it stops only where the run on spaces does |
| Madt.WalkInvertsSerialize | kernel/src/power/acpi/acpi.c:78-135 | walking serialised entries visits exactly these entries in order and stops behind them |
| Madt.SerializeInvertsWalk | kernel/src/power/acpi/acpi.c:78-135 | serialising the entries found gives back the bytes walked over |
| Madt.SerializeBytes | kernel/src/power/acpi/acpi.c:83-84 | an entry is serialised as its type, its whole length and its body |
| Madt.LittleEndian | kernel/src/power/acpi/acpi.c:80 | four bytes give a number iff they are its bytes, lowest first |
| Madt.WalksAgreeIff | kernel/src/arch/cpu/smp.c:37-49 | a walk with an earlier end sees a prefix, and all entries iff it stopped at a zero length or beyond the later end |
| Madt.FoundBefore | kernel/src/arch/cpu/smp.c:37-49 | of one type it finds all entries iff they all start before its end |
| Madt.Acpi.ParseMadt | kernel/src/power/acpi/acpi.c:74-136 | stores the processor ids in table order up to index 16 and the last I/O APIC address; the local APIC address is the number in bytes 36 to 39, lowest first |
| Madt.Acpi.RemapIrq | kernel/src/power/acpi/acpi.c:138-157 | the interrupt of the first found override with this source, else the irq |
| Madt.Acpi.DetectCores | kernel/src/arch/cpu/smp.c:34-52 | the remembered count if it is not 0, else the number of local APIC entries modulo 256 |
| Madt.Acpi.WakeupIds | kernel/src/arch/cpu/smp.c:60-61 | the ids read are the cells from the start of the array, one for each counted core, also behind its 16 cells |
| MadtEntries.IdsFound | kernel/src/power/acpi/acpi.c:86-101 | the ids found are the first body bytes of the local APIC entries, in order; they fill the first 17 cells and no other cell changes |
| MadtEntries.FoundAreEntries | kernel/src/power/acpi/acpi.c:78-135 | the positions found for one type hold the entries of that kind, in order |
| MadtEntries.IoApicFound | kernel/src/power/acpi/acpi.c:104-115 | the address kept is the number in body bytes 2 to 5, lowest first, of the last I/O APIC entry, if there is one |
| MadtEntries.RemapsFirst | kernel/src/power/acpi/acpi.c:142-156 | the number in body bytes 2 to 5, lowest first, of the first entry of type 2 whose source byte is the irq, else the irq |
| MadtEntries.CoresCountedIff | kernel/src/arch/cpu/smp.c:37-51 | from boot, the count is the number of local APIC entries `parse_madt` walks over iff there are at most 255 and all start before the shorter end |
| MadtEntries.WakeupReadsIdsIff | kernel/src/arch/cpu/smp.c:60-71 | with the cores counted up to one end and the ids stored up to the other, every cell read is one of the 16 and holds its processor's id iff the 8-bit count is at most 16 |
| MadtEntries.CellsSufficeIff | kernel/src/power/acpi/acpi.c:89-100 | the memory behind the array is never written iff there are at most 16 processor entries, and never more than its first byte |
| MadtEntries.ParseAndDetectAgreeIff | kernel/src/power/acpi/acpi.c:75-76 | the two walkers see the same entries iff the shorter one stops at a zero length or beyond the longer end |
| MadtEntries.ParseStaysInTableIff | kernel/src/power/acpi/acpi.c:75-84 | `parse_madt` visits only entries that start inside the table iff the walk up to the table's length stops at a zero length or beyond the scaled end; the end of `cpu_detect_cores` covers the table |
| Rsdt.IsValid | kernel/src/power/acpi/acpi.c:44-54 | valid iff the table is there and its bytes sum to 0 modulo 256, signed or not |
| Rsdt.SumOf | kernel/src/power/acpi/acpi.c:47-51 | the sum adds every byte once |
| Rsdt.ChecksumDetectsChange | kernel/src/power/acpi/acpi.c:47-53 | changing one byte of a valid table keeps it valid iff the byte is the same |
| Rsdt.Strncmp | kernel/src/libkern/string.c:131-143 | 1 iff the first n bytes agree |
| Rsdt.GetMadt | kernel/src/power/acpi/acpi.c:59-71 | the first table with signature APIC, or none |
| NumberText.DigitsRoundTrip | kernel/src/libkern/string.c:45-49 | reading the reversed digits gives the number back, for every base up to 16 |
| NumberText.DecRoundTripIff | kernel/src/libkern/string.c:34-63 | parsing the text gives the number back iff it is not the least integer; no leading zero except for 0 |
| NumberText.DecTextForms | kernel/src/libkern/string.c:38-52 | character by character: minus sign, then the digits 0x30 to 0x39 of the magnitude; only the sign for the least integer |
| NumberText.HexRoundTrip | kernel/src/libkern/string.c:80-122 | the text is 0x and max(2, digits) digits and parses back to the number |
| NumberText.HexTextForms | kernel/src/libkern/string.c:82-107 | character by character: 0x, at least two digits, 0x30 to 0x39 and 0x41 to 0x46 |
| NumberText.NumberBuffers.Dec2Str | kernel/src/libkern/string.c:34-63 | the buffer holds the decimal text and a NUL; the 8-bit cursor stays in range |
| NumberText.NumberBuffers.Hex2Str | kernel/src/libkern/string.c:80-122 | the buffer holds the hexadecimal text and a NUL; the 8-bit cursor stays in range |
| NumberText.ReverseInPlace | kernel/src/libkern/string.c:56-60 | the swap loop reverses the text up to its last index and leaves the rest |
| NumberText.Strncpy | kernel/src/libkern/string.c:124-129 | copies up to the NUL or the limit and writes no NUL |
| Log.Strlen | kernel/src/libkern/string.c:28-32 | the index of the first NUL |
| Log.Logger.Log | kernel/src/debug/log.c:43-79 | appends exactly the output of the two-cursor interpretation, and each number buffer is written out before its next use |
| Log.TurnWrites | kernel/src/debug/log.c:52-77 | one turn, said of the characters: `%s` writes the text, `%d` the decimal, `%x` the hexadecimal text that parses back to the argument modulo 2^32, `%c` the low byte; the argument is consumed and the next character written |
| LogFormat.OutputRenders | kernel/src/debug/log.c:52-77 | on spaced formats, from any position on, the interpretation is the rendering iff no `%d` has the least integer, and shorter otherwise; the position count never cuts it short |
| LogFormat.OutputStrays | kernel/src/debug/log.c:53-77 | on every other format there are arguments and memory for which it differs |
| LogFormat.LogRendersIff | kernel/src/debug/log.c:43-79 | `log` prints what the renderer prints, for all memory and all fitting arguments without the least integer at a `%d`, iff the format is spaced; on a spaced format it does so for exactly these arguments |
| Pci.AddressDecodes | kernel/src/arch/pci/pci.c:39 | for every argument the latch decodes to the function reached: bits of slot and function that do not fit are or-ed into the next field |
| Pci.AddressDecodesIff | kernel/src/arch/pci/pci.c:39 | the latch decodes to the packed fields iff slot and function fit their fields |
| Pci.AddressSum | kernel/src/arch/pci/pci.c:39 | while slot and function fit, the latch is the sum of the fields in their places and the enable bit |
| Pci.ConfigPorts.ReadWord | kernel/src/arch/pci/pci.c:32-47 | the selected half of the selected register of the function reached, the named one when slot and function fit |
| Pci.ConfigPorts.DeviceClass | kernel/src/arch/pci/pci.c:60-62 | bits 24 to 31 of the class code register of the function reached |
| Pci.ConfigPorts.DeviceSubclass | kernel/src/arch/pci/pci.c:65-67 | bits 16 to 23 of the class code register of the function reached |
| Pci.TwoBytes | kernel/src/arch/pci/pci.c:60-67 | class and subclass are the two bytes of the upper half of the class code register |
| Pci.ConfigPorts.Locate | kernel/src/arch/pci/pci.c:79-101 | the first bus, slot and function in search order whose register 2 holds class and subclass in its upper half; not valid iff there is none |
| IoApic.Registers.Write | kernel/src/arch/pic/ioapic.c:40-46 | selects one register and writes it |
| IoApic.Registers.SetEntry | kernel/src/arch/pic/ioapic.c:55-58 | writes the two halves to registers 0x10 + 2e and 0x11 + 2e modulo 0x100 |
| IoApic.Registers.Init | kernel/src/arch/pic/ioapic.c:61-71 | for every pin counted by bits 16 to 23 of the version word, the low register has bit 16 alone and the high one is 0 |
| IoApic.SetEntryIff | kernel/src/arch/pic/ioapic.c:55-58 | stores all 64 bits; two entries share registers iff they agree modulo 128, and others keep their value |
| IoApic.MaskedExactly | kernel/src/arch/pic/ioapic.c:67-70 | every entry has the mask bit, bit 16, and no other, for every pin count; for up to 120 pins no other register changes |
| IoApic.IdRegistersKeptIff | kernel/src/arch/pic/ioapic.c:67-70 | the registers below the table are kept iff there are at most 120 pins |

## Left out

- PageMapper.Mapper.MapPage: assumes usable regions of whole pages below 2^48; AllocationSafeIff says what other regions lead to.
- PageMapper.Mapper.MapPage: the source does not test the allocation for NULL, nor whether flags of 0x1000 and above make an entry name another frame, and goes on with the table named; the method stops after that store and returns false, so the later effects of such a call are not described.
- PageMapper.Mapper.Execute: runs unmap no aligned page whose page table is missing; UnmapHoldsIff says when such a step does no harm, and UnmapLosesOtherPage shows that it can do some. Nothing is said of the words after a step that ran out of frames.
- FrameAllocator.Pmm.AllocZ: memory is made of whole frames below 2^52; for a region base that is not page aligned or lies above, the source clears the 512 words from that address on and the model does not say which words change.
- PageMapper.Mapper.UnmapPage: does not model `invlpg`; translations are those of the words in memory.
- Madt.Acpi.ParseMadt: reads up to 12 bytes from a cursor below `end`, so memory must be readable that far behind `end`; its output through `log` is not modelled.
- NumberText.NumberBuffers.Dec2Str: negating the least integer is undefined in C; the model wraps it in two's complement, which gives the text "-".
- Log.Logger.Log: a missing or ill-typed argument is undefined in C and writes nothing here; memory behind the format must be readable for three times its length.
- IoApic.Registers.Init: `ioapic_read` does not select the register it reads, so the version word is an input.
- `used_frames` and `max_frames` of `pmm_init`: never read.
- `mkpml4`, `load_pml4`, `vmm_init` and CR3: inline assembly.
- The wake-up messages of `cpu_wakeup_cores`, the local APIC and the timer: hardware timing; only the cells it reads are modelled.
- `pci_get_device_vendorid`, `pci_get_device_id`, `pci_get_device_bar5`: one expression each.
- The kernel heap, whose `first_fit` ignores block sizes, and the GDT, IDT, panic and terminal code.
