# Model of the RISC-V emulator's privileged core

A Dafny model of the RV32 configuration of the emulator: one hart with machine, supervisor and user
mode, Sv32 translation, physical memory protection (PMP), trap delegation and masked CSR views, over
a flat byte memory; and, next to it, the wide multiplications, the division instructions, the ring
buffer of the UARTs and the PLIC. `dafny verify dfyconfig.toml` checks all of it.

Every part that the emulator updates in place exists twice: as a class whose methods follow the code
statement by statement, and as a function on values that the methods are proved equal to
(`State() == F(old(State()))`). All further properties are proved about those functions. Positions of bits and
bytes, indices and numbers are stated once more on their own terms (`HasBit`, `BitAt`, `SpecIndex`, `Named`,
`SpecAccess`), and the comparisons with the specification use only these.

| file | content |
|---|---|
| `Words`, `Quotients` | 32-bit words as integers with explicit wrap-around, bytes of words, the memory; division by a variable |
| `Pmp`, `PmpProofs`, `PmpSpec`, `PmpLocks` | the PMP unit; what entries cover; the check against the Privileged Spec; locks over sequences of writes |
| `Mmu`, `MmuProofs` | translation; the walk of the Privileged Spec; pages; page table updates |
| `Trap`, `StatusBits`, `TrapProofs` | trap registers, delegation, entering and leaving; the status word bit by bit; nesting |
| `Csr`, `CsrRules`, `CsrViews`, `CsrNumbers` | the CSR table; what a CSR instruction may do; reachable values and views; the registers by number |
| `Core`, `Hart` | the hart as a step machine on values, and as the object that changes in place |
| `Protection`, `Isolation`, `Privilege`, `Precise`, `Causes`, `Nesting`, `Atomics`, `Transfers`, `Instructions` | properties of cycles and of whole runs |
| `Multiply`, `Division` | arithmetic of the M extension |
| `Fifo`, `Plic` | the two peripherals |

A *run* is any finite sequence of cycles. Each cycle fetches through the MMU and PMP, decodes, executes,
advances the pc, samples the interrupt lines and takes at most one trap. The decoder and the interrupt
lines of every cycle are arbitrary parameters, so a statement over all runs covers every program.

## What is proved

* **Protected memory never changes.** Locked entries 0..i, of which entry i grants no writes and stands for
  at least four bytes, and no lower one comes within three bytes of it, keep every byte of entry i constant over every run, whatever
  the modes, satp, page tables, MPRV, traps and CSR writes are; likewise in software's terms for a block
  encoded as NAPOT into pmpaddr0.
* **Lower modes are confined.** Until machine mode is entered, code in user and supervisor mode changes
  no PMP entry, no machine-level trap register and no byte that PMP does not let it write, and sets no bit
  of mstatus or mie outside its own views; a machine interrupt becomes pending only through its line while
  mie enables it; machine mode is entered at mtvec only, with MPP and MPIE as the only further fields set.
* **Translation is the one of section 4.3.2 of the Privileged Spec** over PMP-checked table reads, except for
  the truncation of 34-bit addresses and for supervisor fetches from user pages under SUM: both are stated
  exactly.
* **The PMP check is the one of section 3.6.1 of the Privileged Spec** below machine mode wherever entries
  stand for the bytes the specification gives them; when they do, and when machine mode agrees, is stated
  exactly too.
* **Traps**: exact delegation, precise exceptions, privilege over whole runs, and LIFO nesting: the return
  from a trap gives back the interrupted context after any run of its handler, with further traps inside.
* **CSRs**: every reachable state keeps every register within its mask, and a view changes nothing
  outside its mask, except in one exactly described case.
* **AMO, multiplication, division, FIFO, PLIC**: see the table.

## Where the code differs from its documentation or from the specification

The model follows the code. Each of these is stated by a lemma, with the exact condition where there is one.

* A NAPOT range that ends at 2^32 matches nothing, and the all-ones pmpaddr leaves out the last byte of
  memory, because range ends are computed modulo 2^32 (`NapotCoversUnlessAtTop`, `TopOfMemoryIsMissed`).
* Address registers of 2^30 and above alias low memory, and a four-byte entry for the top word covers nothing
  (`SameRangeExactly`, `HighAddressAliases`).
* Machine mode skips unlocked entries, which the specification lets decide, and lets RWX decide where its
  entry matches an access only in part (`MachineModeAgainstSpec`, `UnlockedEntryIsSkipped`).
* An access that wraps past the top address passes through an entry that holds its two ends
  (`CheckMeansLowestEntryDecides`).
* The lock check of a write to pmpaddr15 looks at the byte behind the last configuration register, which
  is the low byte of pmpaddr0 (`AddrWriteRule`, `LastAddrWriteIsLost`).
* Page numbers of 2^20 and above lose their top bits (`WidePageNumberIsTruncated`).
* SUM lets supervisor mode also fetch from user pages (`SumAdmitsSupervisorFetch`, `TranslateFollowsSpec`,
  `SupervisorExecutesUserPage`).
* An interrupt for a higher level is missed while no xIE bit between the current mode and that level is
  set (`InterruptsAgainstSpec`, `MissedMachineInterrupt`).
* A return clears xPIE and keeps xPP, where the specification sets xPIE and leaves user mode in xPP
  (`ReturnAgainstSpec`); so a trap and its return give the status word back exactly if xPIE was clear and xPP
  already held the interrupted mode (`RoundTripIsExact`).
* Every return restores the fields of the current mode, not of the level in its name, and none is refused
  (`ReturnsUseCurrentMode`, `ReturnModeAgainstSpec`).
* A jump or return to address 0 falls through (`JumpsLandUnlessAtZero`).
* A page table read that PMP refuses raises a load access fault for fetches and stores as well, where the
  specification asks for the fault of the original access (`AccessIsSpec`).
* CSRRW into x0 zeroes the bits of a shared register outside the view (`ViewsAreIsolated`).
* An AMO whose load PMP refuses still stores if PMP allows the write (`FaultingAmoMemory`,
  `DeniedLoadStillStores`), and one whose store faults has written rd (`FaultingAmoRegisters`).
* An SC whose store faults has written 0, for success, to rd (`StoreConditionalNeedsReservation`).
* The PLIC gives a tie to the higher source number, where the comment in
  `src/peripherals/plic/plic.h` promises the lower one; it presents sources of priority 0; and it misnumbers
  sources above a skipped word (`UpdateIsRightExactly`, `SkippedWordMisnumbers`, `MisnumberedClaimIsLost`).
* `fifo_out` uses only the low 32 bits of its count (`Fifo.Buffer.Out`).

## Model

| member | source | states |
|---|---|---|
| Pmp.Unit.WriteCsrCfg | src/core/pmp/pmp.c:15-36 | outside machine mode an error and no change; in machine mode every unlocked byte of the register, and no other byte, takes its new value |
| Pmp.Unit.WriteCsrAddr | src/core/pmp/pmp.c:47-81 | the address register takes the value unless its own entry is locked or the following configuration byte is a locked TOR entry; an error outside machine mode only |
| PmpLocks.WrittenCfgBytes | src/core/pmp/pmp.c:15-36 | byte k of the register's value, counted from its low end, goes to entry 4r + k unless that is locked, and every other entry keeps its byte |
| PmpLocks.CfgWordBytes | src/core/pmp/pmp.c:38-45 | a pmpcfg register reads as the bytes of its four entries, the lowest entry in the lowest byte |
| PmpLocks.CfgReadsBack | src/core/pmp/pmp.c:15-45 | a register without locked entries reads back as it was written |
| PmpLocks.WritesNeedMachineMode | src/core/pmp/pmp.c:15-81 | no write has an effect outside machine mode, a cfg write leaves the addresses and an addr write everything but its own register |
| PmpProofs.ConfigurationBits | src/core/pmp/pmp.h:18-26 | R, W and X are the bits 0, 1 and 2 of the configuration byte, A the bits 3 and 4, L bit 7 |
| Pmp.Unit.MemCheck | src/core/pmp/pmp.c:105-213 | the nested loop with its skips and three exits accepts exactly when the first hit of a linear search over sixteen entries does |
| PmpProofs.NapotDecodeInvertsEncode | src/core/pmp/pmp.c:92-103 | for every n from 3 and every naturally aligned block, counting trailing ones of the encoded address gives back exactly base and size |
| PmpProofs.TorCovers | src/core/pmp/pmp.c:147-154 | a TOR entry covers [base, top) and nothing if base is not below top, although the size wraps |
| PmpProofs.NapotCoversUnlessAtTop | src/core/pmp/pmp.c:155-169 | a NAPOT entry covers its block if and only if the block does not end at 2^32 |
| PmpProofs.TopOfMemoryIsMissed | src/core/riscv_helper.h:18 | two entries that should reach the last byte of memory and do not |
| PmpProofs.CheckMeansLowestEntryDecides | src/core/pmp/pmp.c:122-212 | for all accesses of at most four bytes, testing the two end bytes equals overlap and containment of byte sets, and the permission is the bit of the byte: the lowest eligible entry that the access touches decides, and machine mode passes without one; the only other accesses that pass wrap past the top address through an entry holding both ends |
| PmpSpec.TorRange | src/core/pmp/pmp.c:147-154 | a TOR entry covers the bytes of the specification's 34-bit range exactly if both address registers are below 2^30, or the lower one is not and the wrapped range is empty |
| PmpSpec.Na4Range | src/core/pmp/pmp.c:174-177 | likewise for a four-byte entry: below 2^30 but for the top word, or aliasing the top word |
| PmpSpec.NapotRange | src/core/pmp/pmp.c:155-173 | likewise for NAPOT: below 4 GiB unless the block ends there, above it only if its alias ends there, and never for the all-ones address |
| PmpSpec.SameRangeExactly | src/core/pmp/pmp.c:145-180 | an entry in any mode covers the specification's bytes exactly under these conditions on its registers |
| PmpSpec.LowerModesFollowSpec | src/core/pmp/pmp.c:122-212 | over such entries the check equals section 3.6.1 of the Privileged Spec in supervisor and user mode |
| PmpSpec.MachineModeAgainstSpec | src/core/pmp/pmp.c:130-132 | in machine mode exactly if no entry matches, or the lowest is locked and covers the access or refuses it, or the lowest is unlocked and covers it just when the locked entries behind it grant it |
| PmpSpec.UnlockedEntryIsSkipped | src/core/pmp/pmp.c:130-132 | a machine mode write that the specification allows and the code denies |
| PmpSpec.HighAddressAliases | src/core/pmp/pmp.c:174-177 | an address register beyond 32-bit addresses that covers byte 0 |
| PmpSpec.LoneWordGrants | src/core/pmp/unit_tests.c:159-182 | a single four-byte entry lets lower modes make exactly the accesses to its word that bits 0 to 2 of its byte name |
| PmpSpec.ReadOnlyAndExecuteOnly | src/core/pmp/unit_tests.c:159-182 | the read-only entry of that test for every address and kind of access, and its execute-only sibling |
| PmpLocks.LocksArePermanent | src/core/pmp/pmp.c:15-81 | over every sequence of cfg and addr writes in any mode, a locked entry keeps its byte, its address, for TOR its predecessor's address, and so the bytes it covers |
| PmpLocks.LockedPrefixIsConstant | src/core/pmp/pmp.c:15-81 | while entries 0..i are locked, every decision one of them makes is the same after any sequence of writes |
| PmpLocks.AddrWriteRule | src/core/pmp/pmp.c:54-77 | a write to pmpaddr k follows the rule of section 3.6.1 of the Privileged Spec exactly when k < 15, or the entry is locked, or the low byte of pmpaddr0 does not read as a locked TOR entry |
| PmpLocks.LastAddrWriteIsLost | src/core/pmp/pmp.c:59-66 | a value of pmpaddr0 that freezes the unlocked pmpaddr15 |
| PmpLocks.WriteIntoProtectedIsDenied | src/core/pmp/pmp.c:105-213 | no mode passes a write of at most four bytes that would reach a byte of the protecting locked entry |
| PmpLocks.ProtectionIsPermanent | src/core/pmp/pmp.c:15-81 | the protecting entry stays protecting, over the same bytes, through every sequence of PMP writes |
| HartUnit.Hart.FindLeaf | src/core/mmu/mmu.c:233-279 | the walk loop finds the leaf of the recursive walk; a table read that PMP denies is latched, keeps the stale entry and never leads to a leaf |
| HartUnit.Hart.VirtToPhys | src/core/mmu/mmu.c:188-366 | for every memory, satp, address, mode, access type, SUM and MXR: the declarative translation, its address or its first fault |
| MmuProofs.PteFields | src/core/mmu/mmu.h:7-14 | V, R, W, X, U, A and D are the bits 0 to 4, 6 and 7 of an entry, and the page number is what lies from bit 10 on |
| MmuProofs.AddressParts | src/core/mmu/mmu.c:217-221 | the two indices are bits 31 to 22 and 21 to 12 of the address, and with the offset they make it up again |
| MmuProofs.SatpFields | src/core/mmu/mmu.c:205-215 | translation is off exactly in machine mode and while bit 31 of satp is clear |
| MmuProofs.LeafOnlyThroughReadableTables | src/core/mmu/mmu.c:231-254 | a walk reaches a leaf only if PMP allowed every entry it read, and ends denied exactly if it refused one |
| MmuProofs.WalkFollowsSpec | src/core/mmu/mmu.c:233-279 | steps 2 to 4 of section 4.3.2 of the Privileged Spec over 34-bit addresses give the same result as the 32-bit walk while the tables fit |
| MmuProofs.TranslateFollowsSpec | src/core/mmu/mmu.c:188-366 | against all steps of the specification, on the bits of entry, address and satp that it names and with its own permission rule: success exactly when the specification succeeds or a supervisor fetch reaches a usable user page under SUM, never both; and the specification's address exactly when that has 32 bits |
| MmuProofs.SupervisorExecutesUserPage | src/core/mmu/mmu.c:291-306 | a root table entry through which the code translates a supervisor fetch that the specification refuses, at every address |
| MmuProofs.WidePageNumberIsTruncated | src/core/mmu/mmu.c:308-323 | a leaf for page 2^20 translates to page 0 |
| MmuProofs.SumAdmitsSupervisorFetch | src/core/mmu/mmu.c:291-306 | the permissions differ from the specification's exactly for supervisor fetches from executable user pages with SUM |
| MmuProofs.WriteTranslationImpliesRead | src/core/mmu/mmu.c:250-306 | whatever translates for writing translates for reading, to the same address |
| MmuProofs.TranslationIsAffine | src/core/mmu/mmu.c:217-360 | every address of the 4 KiB or 4 MiB page of va maps to its physical address plus the distance from va |
| MmuProofs.WalkIgnoresOtherStores | src/core/mmu/mmu.c:233-279 | a store that the walk does not read leaves the walk and its reads as they were |
| MmuProofs.InstalledPageTranslates | src/core/mmu/unit_tests.c:47-93 | after installing a two-level mapping its page translates to its frame, whether the root is its own table or not, unless the leaf overwrites the pointer |
| MmuProofs.SelfMappedPageTranslates | src/core/mmu/unit_tests.c:66-92 | with the root as its own table, the installation of the cited code: the page translates to its frame if its two page numbers differ; if they agree the leaf overwrites the pointer and maps a superpage, or faults for a frame that is not aligned to one |
| MmuProofs.OtherPagesKeepTheirTranslation | src/core/mmu/unit_tests.c:47-93 | the installation changes no page whose walk reads neither of the two entries |
| MmuProofs.SeparatePagesAreUnchanged | src/core/mmu/unit_tests.c:47-93 | with separate tables it changes the translation of no address outside the 4 KiB page it maps, siblings in the same table included |
| Trap.Unit.SetPendingBits | src/core/trap/trap.c:141-169 | the pending bits of enabled interrupts follow their lines, both external bits one line, and all others stay |
| Trap.Unit.CheckInterruptPending | src/core/trap/trap.c:171-221 | the delegation loop and the shifted-mask test give the level that takes an interrupt, or none |
| Trap.Unit.CheckExceptionDelegation | src/core/trap/trap.c:223-247 | the delegation loop gives the level that serves an exception |
| Trap.Unit.ServeInterrupt | src/core/trap/trap.c:249-286 | epc, cause, tval, xPP, xPIE and xIE of the serving level, and nothing else, take their new values; the result is tvec |
| Trap.Unit.RestoreIrqSettings | src/core/trap/trap.c:288-310 | xIE becomes xPIE, xPIE is cleared, the result is the mode in xPP |
| Trap.MaskTrick | src/core/trap/trap.c:204-218 | the three-way mask is non-zero exactly if some xIE bit from the current mode up to the level is set |
| StatusBits.CausePositions | src/core/trap/trap.h:40-82 | the bit of every cause in the delegation, enable and pending registers is the one at its number |
| StatusBits.EnablePositions | src/core/trap/trap.h:26-31 | xIE is the bit at the number of the level, xPIE four bits above it |
| StatusBits.PrivilegePositions | src/core/trap/trap.h:31-32 | MPP is the number in the bits 11 and 12, SPP that in bit 8 |
| TrapProofs.DelegatedSoftwareInterrupt | src/core/trap/trap.c:171-221 | a delegated supervisor software interrupt is taken as number 1 in supervisor mode, and not as number 5 |
| TrapProofs.DelegatedAccessFault | src/core/trap/trap.c:223-247 | a load access fault of user mode stays in machine mode exactly while bit 5 of medeleg is clear |
| TrapProofs.PendingFollowsLines | src/core/trap/trap.c:141-169 | each of the four pending bits follows its line while it is enabled, and all other bits stay |
| TrapProofs.ExceptionLevelIsExact | src/core/trap/trap.c:223-247 | by the bit at the number of the cause, the serving level is the only one at or above the current mode below which every higher level delegates and that keeps the cause or is the current mode |
| TrapProofs.InterruptLevelIsExact | src/core/trap/trap.c:171-221 | by the bits at its number, an interrupt is taken at a level exactly if it is pending and enabled, this is the highest level keeping it, not below the current mode, with an xIE bit set from there up |
| TrapProofs.NoReentry | src/core/trap/trap.c:204-218 | no level interrupts itself while its xIE bit is clear |
| TrapProofs.InterruptsAgainstSpec | src/core/trap/trap.c:204-218 | nothing is taken that section 3.1.6.1 of the Privileged Spec would not take, and an interrupt is missed exactly if it is for a higher level and no xIE bit in between is set |
| TrapProofs.MissedMachineInterrupt | src/core/trap/trap.c:204-218 | a machine timer interrupt that user mode never sees |
| StatusBits.LeaveUndoesEnter | src/core/trap/trap.c:249-310 | for every status word, leaving a level restores the mode, all xIE bits and every bit outside the xPIE and xPP fields used, whatever inner traps did to theirs |
| StatusBits.RoundTripIsExact | src/core/trap/trap.c:249-310 | at every level, a trap and its return give back the whole status word exactly if xPIE was clear and xPP already named the interrupted mode |
| StatusBits.ReturnAgainstSpec | src/core/trap/trap.c:288-310 | for every status word the return agrees with the specification's in xIE and outside xPIE and xPP, and differs in these: xPIE is cleared instead of set, and xPP keeps the restored mode instead of user mode |
| TrapProofs.NestingIsLifo | src/core/trap/trap.c:249-310 | traps served at strictly increasing levels and left again restore mode, xIE bits and pc of the interrupted context and touch only the xPIE and xPP bits and the registers of the levels used |
| CsrRules.CsrOutcome | src/core/core.c:592-681 | a refused CSR instruction only raises an illegal instruction exception; any other one writes and returns what the access rules say, reading and writing only where needed |
| CsrRules.RefusedIsPending | src/core/core.c:601-681 | an illegal instruction is raised exactly if the mode lacks a right that the instruction needs |
| CsrNumbers.TableIsNamed | src/core/core.c:1866-1969 | every CSR number of the trap unit, PMP and satp shows the register that section 2.2 of the Privileged Spec gives to it, through the mask of its implemented fields |
| CsrNumbers.MasksAreFields | src/core/csr/csr.h:107-125 | the masks are made of the fields of mstatus and sstatus, the numbers of the interrupts and exceptions, and the fields of tvec and satp |
| CsrNumbers.RightsFollowNumbers | src/core/core.c:1866-1969 | no mode below bits 9 and 8 of a number accesses it, all others read what can be read, and numbers from 0xC00 up are never written |
| CsrNumbers.TableValues | src/core/core.c:1876-1968 | which numbers are zero registers and which counters, the bits they show, and who writes them |
| CsrNumbers.NoOtherNumbers | src/core/core.c:1866-1969 | no mode reads or writes any further number |
| CsrNumbers.PlainRegisters | src/core/csr/csr.c:7-55 | a read of a zero register gives 0, one of a counter all its bits, and a write to a zero register leaves 0 |
| CsrNumbers.DestinationShowsRegister | src/core/core.c:592-681 | an accepted instruction that reads leaves in rd exactly the bits of the old register that the number shows, zeros elsewhere, and every other register as it was |
| CsrNumbers.ReadingMcause | src/core/core.c:624-652 | a plain read of mcause in machine mode gives the whole of mcause |
| CsrNumbers.RegisterBecomes | src/core/core.c:592-681 | the register behind a number is written within its mask as the instruction says, or stays if the instruction does not write |
| CsrNumbers.CountersTick | src/core/core.c:1808-1823 | every cycle adds one to the 64-bit count, whose halves the eight counter CSRs show, and touches no other CSR |
| CsrNumbers.ResetState | src/core/core.c:1971-1989 | reset leaves machine mode at 0x1000, every register 0 and misa for RV32 with A, I, M, S and U |
| CsrViews.ReadAfterWrite | src/core/trap/trap.c:32-139 | a write through one level is seen there, and at every level if the register is shared, and changes no other register |
| CsrViews.CycleKeepsTidy | src/core/core.c:1799-1837 | one cycle keeps every register of the trap unit and satp within its mask, x0 at 0 and no exception pending |
| CsrViews.ReachableStatesAreTidy | src/core/core.c:1882-1948 | so does every run from reset: mstatus, mie, mip, the delegation registers, tvec and satp never hold a bit outside their masks |
| CsrViews.ViewsAreIsolated | src/core/core.c:592-681 | an accepted write through a view changes the view as the instruction says and leaves the bits outside it, unless it is a CSRRW into x0: then exactly if there were none |
| CsrViews.OtherRegistersStay | src/core/core.c:592-681 | the same write changes no other trap register at any level |
| HartUnit.Hart.MmuCheckedBusAccess | src/core/core.c:44-87 | translation, PMP and bus as one checked access: the value or the stored bytes on success, else the first fault and nothing changed |
| HartUnit.Hart.PmpCheckedBusAccess | src/core/core.c:44-62 | a refused access latches the access fault at its physical address and leaves memory and the passed value alone |
| HartUnit.Hart.AmoWord | src/core/core.c:778-913 | load into rd, combine what rd then holds with the earlier rs2, and always try the store |
| HartUnit.Hart.StoreConditionalWord | src/core/core.c:761-776 | stores and writes 0 with a matching reservation, else writes 1; the reservation is gone |
| HartUnit.Hart.CsrReadWrite | src/core/core.c:592-622 | CSRRW and CSRRWI, with no read into x0 |
| HartUnit.Hart.CsrReadModify | src/core/core.c:624-681 | CSRRS, CSRRC and their immediate forms, with no write for operand number 0 |
| HartUnit.Hart.ReadCsrReg | src/core/csr/csr.c:7-33 | refuses modes without the read flag, else gives the value behind the CSR |
| HartUnit.Hart.WriteCsrReg | src/core/csr/csr.c:35-55 | refuses modes without the write flag with no change, else updates exactly the target of that CSR |
| HartUnit.Hart.PrepareInterruptsNow | src/core/core.c:1710-1762 | a latched exception first, else the first interrupt from number 11 down that some level takes |
| HartUnit.Hart.RunOnce | src/core/core.c:1799-1823 | one fetch, decode, execute and advance |
| HartUnit.Hart.DoCycle | src/core/core.c:1799-1837 | a whole cycle equals the step function, and survives unless it returned into the reserved mode |
| Protection.ProtectedMemoryNeverChanges | src/core/core.c:44-87 | whole-run write protection: no run changes a byte of a locked entry without write permission that no lower entry comes near |
| Protection.LockedBlockNeverChanges | src/core/pmp/pmp.c:92-213 | the same for a block encoded and locked in entry 0, unless it ends at the top of memory |
| Protection.CycleGuards | src/core/core.c:1799-1837 | one cycle keeps the protecting entry, the bytes it covers and their values |
| Isolation.LowerModesAreConfined | src/core/core.c:592-681 | until machine mode is entered no run from a lower mode changes PMP, machine registers, or bytes that PMP does not let it write, nor sets a bit of mstatus or mie outside its views; entry is at mtvec with the old mode in MPP and MIE in MPIE, and sets no other such bit |
| Isolation.MachineInterruptsComeFromLines | src/core/trap/trap.c:141-169 | over such a run a machine external, timer or software interrupt becomes pending only if mie enabled it from the start and its own line was raised |
| Isolation.LoanIsExact | src/core/core.c:34-42 | fetches use the current mode, loads and stores exactly if MPRV is clear or MPP is that mode; below machine mode an access gets machine privilege exactly if it is no fetch and MPRV is set with MPP machine mode |
| Isolation.NoLoanStays | src/core/core.c:34-42 | a lower mode cannot make MPRV lend it machine privilege |
| Isolation.PutConfined | src/core/csr/csr.c:35-55 | the CSR writes open to lower modes reach no machine register and only clear bits outside their views |
| Privilege.ModeChanges | src/core/core.c:1710-1762 | in every cycle only MRET and SRET lower the mode, nothing but a trap raises it, and the trap goes to tvec of the serving level, records the old mode in xPP, clears xIE and saves it in xPIE |
| Privilege.ExecuteMode | src/core/core.c:726-740 | no instruction raises the mode, and only MRET and SRET change it |
| Privilege.PrivilegeOverRuns | src/core/trap/trap.c:288-310 | a run without returns does not lose privilege, a run without traps does not gain any |
| Precise.ExceptionsArePrecise | src/core/core.c:1710-1762 | if the instruction at pc raises an exception, the cycle takes exactly one trap at the delegated level, with epc the faulting pc, cause and tval of the first fault, and nothing left pending |
| Precise.FaultsChangeNothing | src/core/core.c:24-32 | x1..x31, memory, PMP and satp are unchanged then, unless the instruction was an AMO or SC |
| Precise.ExecuteRaises | src/core/core.c:24-32 | what an instruction leaves pending is its first exception, decided in the state before it, or nothing |
| Causes.AccessIsSpec | src/core/core.c:34-87 | every access, with the privilege, SUM and MXR that bits 11, 12 and 17 to 19 of mstatus give it, ends with its address, a page fault 12, 13 or 15 at the virtual address, or an access fault 1, 5 or 7 at the physical one; a refused table read is always 5 |
| Causes.RaisesIsSpec | src/core/trap/trap.h:63-82 | the first exception of every instruction by number: those of its accesses, 2 for a refused CSR, 8, 9 or 11 for ECALL by mode |
| Causes.CausesAreTheSpecs | src/core/core.c:1710-1744 | after a cycle that raised an exception, xcause and xtval of the serving level hold that number and address, xepc the pc |
| Causes.UserLoadPageFault | src/core/core.c:64-84 | a user mode load from an unmapped page ends with cause 13 and its address |
| Precise.InterruptsResumeAtNext | src/core/core.c:1746-1761 | without an exception the cycle takes exactly the highest-numbered interrupt up to 11 that some level takes, if any: xcause its number, xepc the next instruction, the status word entered once, nothing else of that level but xtval |
| Precise.JumpsLandUnlessAtZero | src/core/core.c:1810 | jumps, MRET and SRET reach their target exactly if it is not 0, or pc + 4 is 0 |
| Precise.ReturnsUseCurrentMode | src/core/core.c:726-740 | MRET and SRET in any mode restore mode and xIE from the fields of the current mode, change no other status bit but its xPIE, take the epc of the level in their name, and raise nothing |
| Precise.ReturnModeAgainstSpec | src/core/core.c:726-740 | where the specification allows the return, the restored mode is the specification's exactly if the name is the current mode or MPP and SPP agree; where it does not, nothing is raised and the mode does not rise |
| Precise.ReturnsLeave | src/core/core.c:726-740 | MRET in machine mode and SRET in supervisor mode are the returns of the nesting theorem |
| Precise.TrapsEnter | src/core/trap/trap.c:249-286 | taking a trap is the entry of the nesting theorem |
| Nesting.TrapsNestOverRuns | src/core/core.c:1710-1762 | over every run of a handler, with any instructions but hand-made writes to the status and epc registers, and further traps at higher levels with their handlers inside, the return gives back mode, xIE bits and all status bits outside xPIE and xPP of the interrupted context and resumes it at its instruction, unless that is at 0 |
| Nesting.InstructionUnwinds | src/core/core.c:726-740 | one instruction of such a run keeps all open traps, or closes the innermost one by its return |
| Nesting.InnerTrapOpens | src/core/trap/trap.c:249-286 | a machine trap inside a supervisor trap leaves what the outer return will restore |
| Atomics.AmoResultIsSpec | src/core/core.c:778-913 | the stored word meets section 8.4 of the Unprivileged Spec for all nine operations, signed and unsigned |
| Atomics.AmoIsReadModifyWrite | src/core/core.c:778-913 | for all rd, rs1 and rs2, equal or x0, an AMO that does not fault leaves the old word in rd and the specified result at the one physical address, and changes nothing else |
| Atomics.LoadPageFaultStopsStore | src/core/mmu/mmu.c:250-305 | an AMO whose load fails in translation stores nothing and changes no register |
| Atomics.FaultingAmoRegisters | src/core/core.c:778-913 | a faulting AMO has written rd exactly if its load succeeded |
| Atomics.FaultingAmoMemory | src/core/core.c:778-913 | a faulting AMO changes memory only where PMP grants the write and refuses the read, and then it stores |
| Atomics.DeniedLoadStillStores | src/core/core.c:778-790 | an AMOSWAP that raises a load access fault and stores all the same |
| Transfers.LoadAfterStore | src/core/core.c:408-483 | a load after a store of the same width to the same physical address gives the stored bytes, zero-extended or as the signed number they stand for |
| Instructions.StoreStores | src/core/core.c:458-483 | a store puts the low bytes of rs2, least significant first, at the physical address of rs1 plus offset, and changes nothing else |
| Instructions.LoadLoads | src/core/core.c:408-456 | a load puts the number those bytes stand for into rd, extended by its sign or by zeros, and changes nothing else |
| Instructions.StoreThenLoad | src/core/core.c:408-483 | storing a register and loading it back by whole instructions gives its low part, extended |
| Instructions.JumpLinks | src/core/core.c:112-144 | a jump asks for its target as next pc and leaves pc + 4 in rd |
| Instructions.PcMovesOn | src/core/core.c:1799-1811 | after every other instruction and after a failed fetch the pc is 4 further on, and x0 is 0 |
| Transfers.CycleReserves | src/core/core.c:753-776 | in every cycle LR reserves its address, SC gives the reservation up, and nothing else touches it |
| Transfers.ReservationIsKept | src/core/core.c:753-776 | so a run without LR and SC keeps the reservation through traps, returns and stores of every mode |
| Transfers.StoreConditionalNeedsReservation | src/core/core.c:761-776 | SC stores exactly with a matching reservation and an unrefused store, and reports success for a match even if the store faults |
| Multiply.UMulWide | src/core/riscv_helper.h:26-73 | for every even half-word range, hi and lo of four partial products are exactly the product, with no carry lost |
| Multiply.MulWide | src/core/riscv_helper.h:44-80 | the corrected high word is the exact high half of the signed product |
| Multiply.MulHsuWide | src/core/riscv_helper.h:51-86 | likewise for signed times unsigned |
| Division.DivisionLaw | src/core/core.c:1081-1157 | quotient times divisor plus remainder is the dividend modulo 2^32 for all operands, signed and unsigned |
| Division.SignedDivision | src/core/core.c:1081-1141 | away from the special cases DIV and REM are exact, the remainder smaller than the divisor and of the dividend's sign or 0 |
| Division.SignedDivisionIsUnique | src/core/core.c:1081-1141 | no other pair of words meets these laws |
| Division.UnsignedDivision | src/core/core.c:1104-1157 | DIVU and REMU are exact with a remainder below the divisor |
| Division.UnsignedDivisionIsUnique | src/core/core.c:1104-1157 | no other pair of words meets these laws |
| Division.SpecialCases | src/core/core.c:1087-1099 | the results that section 7.2 of the Unprivileged Spec fixes for a zero divisor and for the overflow |
| Fifo.AndMask | src/helpers/fifo.c:83 | masking with 2^k - 1 is the remainder by 2^k |
| Fifo.SlotAdvances | src/helpers/fifo.c:78-98 | advancing a counter, past 2^32 too, advances its slot around the ring |
| Fifo.WindowGrows | src/helpers/fifo.c:135-148 | bytes written behind the contents append to them and keep them |
| Fifo.Buffer.Len | src/helpers/fifo.c:44-49 | the wrapped difference of the counters is the number of bytes held, at most the capacity |
| Fifo.Buffer.Free | src/helpers/fifo.c:8-11 | the rest of the capacity |
| Fifo.Buffer.Put | src/helpers/fifo.c:78-87 | accepts exactly if there is room, and appends |
| Fifo.Buffer.Get | src/helpers/fifo.c:89-98 | removes and gives the first byte, or reports empty; all bytes delivered since the reset are a prefix of all accepted |
| Fifo.Buffer.OutPeek | src/helpers/fifo.c:115-126 | copies the first bytes in up to two pieces, and nothing behind them, and keeps the contents |
| Fifo.Buffer.Out | src/helpers/fifo.c:128-133 | delivers and removes the first bytes, as many as the low 32 bits of the count say and there are |
| Fifo.Buffer.In | src/helpers/fifo.c:150-162 | appends the prefix of the source that fits, in up to two pieces |
| Fifo.CopyInto | src/helpers/fifo.c:135-148 | the two-piece copy writes the source from a slot on, around the end of the array, and nothing else |
| Fifo.CopyFrom | src/helpers/fifo.c:100-113 | the two-piece copy reads the slots from one on, around the end of the array |
| Plic.Unit.ScanAll | src/peripherals/plic/plic.c:95-131 | the nested scan with its skipped words finds the winner of a flat scan and clears the pending bits of claimed sources that request again |
| Plic.Unit.Update | src/peripherals/plic/plic.c:95-143 | sets the claim register to the winner and reports whether there is one |
| Plic.Unit.Write | src/peripherals/plic/plic.c:145-174 | a word written to each register; a completion releases its source; priorities and threshold keep three bits |
| Plic.Unit.Read | src/peripherals/plic/plic.c:175-187 | the word of each register; reading the claim register claims its source if that is still pending |
| Plic.RegisterMap | src/peripherals/plic/plic.c:17-74 | priorities lie at 4 times their source, pending words from 0x1000, enable words from 0x2000, threshold and claim at 0x200000 and 0x200004 |
| Plic.WritesLand | src/peripherals/plic/plic.c:76-174 | what a write leaves for every source: three bits of a priority, the bits of a word at its 32 sources, three bits of the threshold |
| Plic.RegistersReadBack | src/peripherals/plic/plic.c:145-187 | priorities, enable and pending words and the threshold read back what they took |
| Plic.CompletionReleases | src/peripherals/plic/plic.c:157-170 | writing a source to the claim register releases it and no other, so that it is eligible again exactly if it requests |
| Plic.CompletedIsPresentedAgain | src/peripherals/plic/plic.c:95-167 | a completed source that still requests, and beats every other, is presented by the next update |
| Plic.ScanFindsBest | src/peripherals/plic/plic.c:102-131 | the winner has the highest priority among the waiting bits, and the highest number among equals |
| Plic.NumbersAreRight | src/peripherals/plic/plic.c:105-106 | every enabled pending bit goes by its own number exactly if no word is skipped before one that holds such a bit |
| Plic.PresentsTheBest | src/peripherals/plic/plic.c:95-143 | then an update presents the eligible source of highest priority, and 0 exactly if none above 0 is eligible |
| Plic.UpdateIsRightExactly | src/peripherals/plic/plic.c:95-143 | for given enabled and pending bits, the update is right for all priorities, thresholds and claims if and only if no word is skipped before one that holds an enabled pending bit |
| Plic.SkippedWordMisnumbers | src/peripherals/plic/plic.c:105-106 | source 33 alone is presented as source 1 |
| Plic.MisnumberedClaimIsLost | src/peripherals/plic/plic.c:175-187 | claiming it then claims nothing, and the same update repeats |
| Plic.ClaimedUntilCompletion | src/peripherals/plic/plic.c:95-190 | over every run a claimed source is not presented before its completion, except by updates that skip a word before a requesting one; so never in runs without such updates |
| Plic.ClaimProtocol | src/peripherals/plic/plic.c:145-190 | reading the claim register after an update hands out the presented source, claims it and keeps it away until its completion |
| Plic.LowRunsAreOrdered | src/peripherals/plic/plic.c:95-143 | runs that enable only sources below 32 never skip a word before a requesting one |
| Plic.WordReadsBack | src/peripherals/plic/plic.c:145-187 | a pending or enable word reads back as written and decodes to its bits |

## Left out

- Decoding and the register-to-register instructions: an instruction arrives decoded, and an arithmetic one as the value it writes, so that a run may use any decoder whose accesses have 1, 2 or 4 bytes.
- RV64 and the doubleword instructions; only the wide multiplications are proved for both widths.
- URET, which does not end, EBREAK, WFI and FENCE, which do nothing, and the `die_msg` paths, which end the emulator.
- The SoC bus: the flat memory holds a byte at every 32-bit address and accesses wrap past the last one; devices, ROM regions and failing accesses of the bus are not part of this model.
- CLINT, UART registers, the loader, threads and the terminal: the three interrupt lines are arbitrary inputs of each cycle.
- The translation cache of the last page (`last_virt_pc`) and debug output.
- The reserved mode: MPP can hold 2, and returning to it makes the emulator dereference a null pointer in the same cycle; a run ends there.
- CSR number 0xFFF, for which the table has no element although the range check lets it through.
- PmpProofs.CheckMeansLowestEntryDecides: where the shift that sizes a NAPOT entry has no meaning in C (pmpaddr with 30 or more trailing ones), its count is taken modulo 32 by `DecodeEntry`; the byte-set reading of the check excludes these entries.
- PmpSpec.MachineModeAgainstSpec: accesses that wrap past the top address are excluded from the comparison with the specification, which has no such addresses.
- Pmp.Unit.WriteCsrAddr: the byte behind the last configuration register is taken to be the low byte of pmpaddr0, as the layout of the structure has it on a little-endian host.
- Protection.ProtectedMemoryNeverChanges: asks that lower entries stay three bytes away because the check looks at the two end bytes of an access only, and a lower entry touched there would decide instead.
- Isolation.LowerModesAreConfined: starts without MPRV lending machine privilege; bits of mstatus and mie outside the views can be cleared by a CSRRW into x0.
- MmuProofs.TranslateFollowsSpec: page tables above 4 GiB are excluded, since the bus cannot address them; what happens to leaves there is stated.
- TrapProofs.NestingIsLifo: returns of user level are left out with URET.
- Nesting.TrapsNestOverRuns: a handler that writes mstatus, sstatus, mepc or sepc by hand, as a context switch does, or that takes a trap at its own level again, is excluded: both overwrite what the return restores.
- Precise.FaultsChangeNothing: an LR that faults still sets the reservation, and the cycle counters advance.
- Multiply.MulWide: the correction of the high word is taken to wrap, where C leaves the overflow of the signed subtraction open.
- Fifo.Buffer.Put: the capacity is a power of two up to 2^31, as the mask demands; one reader and one writer at a time; the values of `int` results are booleans.
- Plic.Unit.Write: accesses are aligned words, and the number written to the claim register is below 256, since a larger one is stored outside the bit array; bit registers are arrays of booleans that are packed into words on access.
