# Model of the N3290x driver logic

This project models the software state machines in the Nuvoton N3290x (W55FA93) driver sources and proves
what they keep, over every input and every run. Registers, page tables, the flash chip and the transmit
line are explicit state; the C integers are modelled with their 32-bit wrap-around.

| part | files |
|---|---|
| MMU page tables (`wb_mmu.c`) | `PageWalk` (hardware walk, processor bus), `PageMap` (descriptors, address map), `PageMapProps` (bijection, edits), `MmuAccess` (how the driver reaches its tables), `MmuSteps` (single stores), `Mmu` (the driver) |
| PLL search, clock tree, power mode (`wb_config.c`, `wb_power.c`) | `Pll`, `PllSearch`, `PllTargets`, `ClockPlan`, `ClockOver` (dividers and clocks), `ClockFields`, `FieldValues` (register fields), `ClockSwitch`, `ClockTree`, `Power` |
| SPI NOR flash (`n3290x_lib_ex_spiflash.c`) | `FlashChip` (the chip), `FlashMap` (contents), `SpiFlash` (the driver) |
| UART transmit ring and printf (`wb_uart.c`) | `UartRing` (interleavings), `Uart` (the code), `Number`, `NumberText`, `Format`, `Console` |
| Interrupt controller, GPIO (`wb_aic.c`, `n3290x_lib_ex_gpio.c`) | `Aic`, `Gpio` |
| bitwise operators, division | `Bits`, `Division` |

Code that changes state is a class or a method with loops, proved against a specification function; the
promises are lemmas about those functions. The independent references are: the ARM page-table walk (ARM
Architecture Reference Manual, ARM DDI 0100, section B4.7) for the page tables, the flash chip's command
state machine for the flash driver, the divider formulas of `w55fa93_reg.h` for the clock tree, a recursive
rendering for printf, and "the last call wins" for the packed registers.

## What was found

Where code and comments disagree the model follows the code.

- The PLL search with a 12 MHz crystal never ends for an odd target; otherwise it always ends
  (`PllSearch.EndsExactly`).
- The comment promises a PLL frequency not over the specified one. The search tries the target, 4 MHz less,
  and so on, and wraps around below zero. With the 12 MHz crystal it meets a target from below exactly if
  the target is a multiple of 200 or 250 kHz and at least 36.75 MHz, or, below that, if it or one of the next
  two rounds is attainable (`PllTargets.NoWrapExactly12`); any other even target is set to a frequency given by
  the remainders of the target, often above it: 96.1 MHz becomes 238.5 MHz (`PllTargets.WrappedExactly12`,
  `PllTargets.NotOverExactly12`, `PllTargets.Overshoots96100`). With 27 MHz, the crystal set by default, a
  target is met from below exactly if one of its rounds passes a test of 48 divider settings
  (`PllTargets.NoWrapExactly27`); the multiples named by `PllTargets.NoWrap27` always are. Any other target is
  set to the largest frequency of its residue class in the first pass that holds one, so the promise is kept
  exactly if that frequency is not above the target (`PllTargets.WrappedExactly27`,
  `PllTargets.NotOverExactly27`): always from 500.5 MHz up, never below 25.071 MHz, and in between 28.204 MHz
  becomes 499.5 MHz (`PllTargets.Overshoots28204`).
- `sysSetSystemClock` divides by zero exactly for the requests of `ClockPlan.FaultsExactly`; with CPU at most
  twice HCLK and a CPU clock that is not refused as too slow, these are the ones for which two APB periods do
  not fit in the system clock. Above twice HCLK only an APB clock of zero faults. It
  reports a too slow CPU clock only after SYS, HCLK and the CPU divider have been overwritten
  (`ClockTree.Clocks.ChooseUnder`); above twice HCLK it reports an HCLK the hardware does not have
  (`ClockTree.OverMisreportsHclk`). The quotient SYS / APB passes through a signed int, so an APB clock of 1 kHz
  with SYS from 2^31 kHz up can be reported as 0 (`ClockPlan.PlanBounds`, `ClockPlan.ApbOverflowOccurs`).
- Above twice HCLK the CPU divider is limited to 5 through a signed int, so a CPU request of 1 kHz with SYS above
  2^31 kHz escapes the limit (`ClockOver.OverCpuBounds`, `ClockOver.WideCpuDividerOccurs`); the APB quotient
  overflows as below (`ClockOver.OverApbBounds`).
- Dividers are or-ed into their fields unmasked. The registers agree with the reported clocks exactly for a
  SYS divider of at most 8 and an APB divider of at most 16 (`ClockTree.HardwareClocks`); a request for the
  APLL with a SYS divider of 12 succeeds and switches to the UPLL (`ClockTree.WideDividerOccurs`).
- `sysClockSwitch` writes UPLLCON while the system may be running from the UPLL (`ClockSwitch.Hardware.ToUpll`).
- `sysSetPllClock` assigns its parameter where it means to compare it, so a source that is no PLL returns
  the UPLL output (`ClockTree.SetPllClock`).
- `sysPMStart` leaves the power-saving code in the SRAM block exactly when the reported clocks can be set
  again, because the nested clock switch uses the same buffer (`Power.PMStart`); the clocks come back exactly
  when three remainders are small (`ClockPlan.RestoreExactly`).
- An edit of the page tables made with translation on reaches the table walker exactly if the address it
  goes through is not mirrored by inverse mapping and its page is not write-back; through the alias at
  +0x80000000 the table word must also be in mapped memory, while the cached view has identity sections from
  the mapped size up (`MmuAccess.StoreReachesWalker`). An edit call takes effect in full exactly if every
  store of it that goes to a write-back page would not have changed the cache bits
  (`MmuSteps.EditRangeExactly`). After `sysInitMMUTable` without `sysEnableCache` the driver goes through the
  cached view, so in write-back mode its edits stay in the data cache (`MmuSteps.ReachableWithoutFlag`).
- A flash write that does not fit its first page wraps around and clears bytes in front of its address
  (`FlashMap.StaysInRangeExactly`); the bytes asked for still read back if they alone stay in the page
  (`FlashMap.RoundTripExactly`).
- `_PutChar_f` turns off every other UART interrupt when it finds THRE_IEN clear
  (`UartRing.OtherInterruptsKept`).
- Left-justified numbers with zero fill do not read back: "%0-5d" prints 12 as "12000"
  (`Format.ItemReadsBack`, `Format.LeftZeroFill`). Every item takes an argument, "%%" included.

## Model

The main results come first, then the members that they rest on, by module.

| member | source | states |
|---|---|---|
| PageMap.WalkIsMap | CHIP_STDLIB/wb_mmu.c:190-276 | for correctly filled tables the hardware walk is total on all 2^32 addresses and equals the address map: MB 0 identity, the others identity or page-reversed, shadow at +0x80000000, identity elsewhere; domain 15, access 11, recorded cache bits |
| Mmu.Driver.InitMMUTable | CHIP_STDLIB/wb_mmu.c:190-276 | the first call builds tables for the recorded mode and turns translation on: every address below the mapped size walks with C and B both set for flag 0, C alone for flag 1, neither otherwise, and every other address with neither; later calls leave tables and map alone |
| PageMapProps.WalkBijection | CHIP_STDLIB/wb_mmu.c:151-174 | two addresses reach the same physical address iff they are equal, and every physical address of a mapped MB is reached from that MB |
| PageMapProps.WalkTwice | CHIP_STDLIB/wb_mmu.c:151-174 | in both modes the walk stays in its MB and walking twice returns the address |
| PageMapProps.ViewsAgree | CHIP_STDLIB/wb_mmu.c:225-265 | below the mapped size an address and its alias at +0x80000000 translate to the same physical address |
| Mmu.Driver.SetCachePagesRun | CHIP_STDLIB/wb_mmu.c:70-116 | after any run of calls on placed tables every 32-bit address translates as before; if no call buries the tables the walk of every mapped address finds the bits of the last accepted call covering it (flag 0: 12, flag 1: 8, else 0), or its old ones |
| MmuAccess.StoreReachesWalker | CHIP_STDLIB/wb_mmu.c:81-84 | a store through the address the driver uses changes the word the walker reads iff that address is not mirrored, not write-back, and, through the alias, in mapped memory (the cached view is the identity from the mapped size up); then it changes only that word |
| MmuAccess.ReachableKept | CHIP_STDLIB/wb_mmu.c:81-110 | an edit keeps every table word reachable for later edits iff it is not a flag 0 (write-back) request for a page through which the driver reaches them |
| MmuSteps.EditRangeExactly | CHIP_STDLIB/wb_mmu.c:101-110 | with translation on the stores of one call set all bits asked for iff each store to a write-back page would not have changed them, the bits of the earlier stores counted in |
| Mmu.Driver.GetPhyPageAddr | CHIP_STDLIB/wb_mmu.c:43-67 | inside the mapped window, with placed tables, the software lookup equals the hardware walk in every cache state |
| PllSearch.EndsExactly | CHIP_STDLIB/wb_config.c:206-248 | the search ends iff not (12 MHz crystal and odd target), for every 32-bit target, wrap-around included |
| PllSearch.GetPLLControlRegister | CHIP_STDLIB/wb_config.c:198-251 | for any crystal for which the search ends: the first attainable target among target, target - 4000, ..., and among its settings the one with the least OUT_DV, then the least IN_DV, then the least FB_DV, read from the register |
| PllSearch.FoundIsLargest | CHIP_STDLIB/wb_config.c:198-251 | any crystal, any target met from below: the frequency found is the largest attainable one of the form target - 4000 k; with 12 or 27 MHz multiples of 250 kHz from 36.75 MHz up are met from below |
| Pll.UnpackedOutput | CHIP_STDLIB/wb_config.c:144-173 | decoding a register packed from an accepted candidate gives exactly the matched target, although the search doubles NR and NF, whatever the bits from 17 up |
| PllTargets.AttainableExactly12 | CHIP_STDLIB/wb_config.c:214-226 | with the 12 MHz crystal a frequency passes the filters for some divider setting iff it is on a grid given by remainders and ranges |
| PllTargets.NoWrapExactly12 | CHIP_STDLIB/wb_config.c:198-251 | with 12 MHz the search meets the target from below, without running through zero, iff the target is a multiple of 200 or 250 kHz from 36.75 MHz up, or it or one of its next two lower rounds is on the grid |
| PllTargets.WrappedExactly12 | CHIP_STDLIB/wb_config.c:198-251 | every other 12 MHz target is set to a frequency computed from the target: the largest of its residue class in the first live pass |
| PllTargets.NotOverExactly12 | CHIP_STDLIB/wb_config.c:553-566 | the promise "not over the specified frequency" holds with 12 MHz iff the target is met from below or that computed frequency is not above it |
| PllTargets.NoWrapExactly27 | CHIP_STDLIB/wb_config.c:198-251 | with the 27 MHz crystal the search meets the target from below iff one of its rounds above zero passes the test of AttainableExactly27 |
| PllTargets.WrappedExactly27 | CHIP_STDLIB/wb_config.c:198-251 | every other 27 MHz target is set to a frequency computed from the target alone: the largest that passes the test of AttainableExactly27 in its residue class, in the first pass that holds one |
| PllTargets.NotOverExactly27 | CHIP_STDLIB/wb_config.c:553-566 | the promise "not over the specified frequency" holds with 27 MHz iff the target is met from below or that computed frequency is not above it; always from 500.5 MHz up |
| ClockPlan.PlanBounds | CHIP_STDLIB/wb_config.c:588-683 | a successful call with CPU at most twice HCLK reports APB <= HCLK <= CPU <= SYS <= PLL, SYS and CPU at most the request; request <= APB < twice the request iff SYS / APB does not overflow a signed int with SYS odd |
| ClockPlan.SuccessExactly | CHIP_STDLIB/wb_config.c:588-683 | which requests succeed, in both branches, as a condition on the request alone, and which branch a successful one takes |
| ClockPlan.FaultsExactly | CHIP_STDLIB/wb_config.c:588-683 | which requests divide by zero, as a condition on the request alone: a zero clock, or with CPU at most twice HCLK and not too slow, two APB periods that do not fit in SYS, or the overflow of the signed quotient to -1 |
| ClockPlan.RestoreExactly | CHIP_STDLIB/wb_power.c:199-219 | feeding the reported clocks back gives the same dividers and clocks iff PLL divides evenly, SYS is even and the APB remainder is below twice APB |
| ClockOver.OverCpuBounds | CHIP_STDLIB/wb_config.c:629-645 | above twice HCLK: HCLK is SYS / 6; the CPU divider is the least that keeps CPU at or below its request, limited to 1 to 5, except for a request of 1 kHz with SYS above 2^31 kHz |
| ClockOver.OverApbBounds | CHIP_STDLIB/wb_config.c:646-655 | above twice HCLK: APB lies between its request and twice the request iff six APB periods fit in SYS, else it is SYS / 6 below the request; and the exact clock after the overflow of SYS / APB |
| ClockTree.HardwareClocks | CHIP_Target/w55fa93_reg.h:430-432 | the clocks decoded from the written CLKDIV0 and CLKDIV4 by the documented formulas, and the source field, are the reported ones iff the SYS divider field is at most 7 and the APB divider field at most 15 (CPU at most twice HCLK) |
| ClockTree.Clocks.SetPllSource | CHIP_STDLIB/wb_config.c:567-749 | the error codes in terms of the request; on success mask and SRAM restored, every write safe, all registers as listed by Switched for the recorded dividers and PLL register, the low-frequency bit set iff the recorded HCLK is below 96 MHz, and the PLL control register as it stands decoding to the first attainable round for the strapped crystal |
| ClockSwitch.Hardware.ClockSwitchStart | CHIP_STDLIB/wb_config.c:488-541 | mask and SRAM block end as they began, the buffer holds the SRAM block, and every register has its value after the switch |
| Power.PMStart | CHIP_STDLIB/wb_power.c:150-230 | the two refusals change nothing; otherwise the mask comes back, and the SRAM block holds the power-saving code iff the reported clocks make a plan (or the crystal is the source), else its old contents |
| SpiFlash.WriteThenRead | Excute_Lib/SRC/n3290x_lib_ex_spiflash.c:250-349 | writing a blank range and reading it returns byte k % 4 of word k / 4 of the buffer at place k, for every length whose bytes stay in their page; other flash bytes are unchanged if the rounded-up words do too |
| SpiFlash.RunCalls | Excute_Lib/SRC/n3290x_lib_ex_spiflash.c:198-349 | over any run of erase, write and read calls every command is proper, the chip rests in between with the latch clear, and the contents are those of the calls in order |
| FlashMap.StaysInRangeExactly | Excute_Lib/SRC/n3290x_lib_ex_spiflash.c:250-303 | bytes outside the rounded-up range are kept for all contents and buffers iff the write fits |
| FlashMap.RoundTripExactly | Excute_Lib/SRC/n3290x_lib_ex_spiflash.c:250-349 | a write into a blank range reads back for all contents and buffers iff the bytes asked for stay in their page |
| UartRing.RunIsSafe | CHIP_STDLIB/wb_uart.c:340-359 | for every interleaving: bytes sent followed by ring contents are the bytes enqueued, in order; at most 255 held; between calls a non-empty ring has its interrupt enabled |
| UartRing.WaitEnds | CHIP_STDLIB/wb_uart.c:344-351 | a buffer-full wait has the transmit interrupt enabled, and one service routine run ends it |
| UartRing.ServedDrains | CHIP_STDLIB/wb_uart.c:102-124 | one service routine run for every eight bytes held, so at most 32, empty the ring, and the line has then carried all characters of all calls |
| Uart.Transmitter.PutChar | CHIP_STDLIB/wb_uart.c:340-359 | with interrupts between any two statements the call returns, keeps the invariant and has enqueued its character |
| NumberText.ReadsBack | CHIP_STDLIB/wb_uart.c:401-477 | the printed field reads back as the number iff it is not a nonzero number left-justified and actually filled with zeros |
| NumberText.CommasEveryThree | CHIP_STDLIB/wb_uart.c:444-451 | a buffer place of a decimal number holds a comma iff it is every fourth |
| NumberText.PlainShape | CHIP_STDLIB/wb_uart.c:417-459 | a number without a width is a - in front if negative and signed, then digits 0 to 9 and A to F with a comma at every fourth place from the end in decimal, and no leading zero |
| Console.Printer.Printf | CHIP_STDLIB/wb_uart.c:565-620 | for every well-formed format the loop ends, takes one argument per item, and puts the recursive rendering |
| Format.RenderAppend | CHIP_STDLIB/wb_uart.c:584-590 | a format in two parts prints part by part, the second with the arguments the first leaves |
| Console.BothModesAgree | CHIP_STDLIB/wb_uart.c:340-374 | 32 service routine runs after the last call a buffered printer has put the same bytes on the line as a polled printer with the same calls |
| Aic.RunDecodes | CHIP_STDLIB/wb_aic.c:282-377 | after any history every slot decodes to its last level and last type, its other bits unchanged, and each table holds the handler last installed |
| Aic.DispatchAfterRun | CHIP_STDLIB/wb_aic.c:130-136 | after any history of calls dispatch calls, for each pending source, ascending, the handler last installed for it, by the history or by a handler called earlier in the same dispatch |
| Gpio.Ports.SetSrcGrp | Excute_Lib/SRC/n3290x_lib_ex_gpio.c:186-231 | exactly the masked pins' 2-bit fields of the register of port 1, 2, 4, 8 or 16 become the group number; a bad group or port changes nothing |
| PageMap.FlatWord | CHIP_STDLIB/wb_mmu.c:199-209 | the section entry assembled with shifts and ors is MB number, access 11, domain 15, uncached: i * 1 MB + 0xDF2 |
| PageMap.CoarseWord | CHIP_STDLIB/wb_mmu.c:219-223 | the coarse descriptor assembled with masks and ors is the table address plus domain 15 and type 01 |
| PageMap.PageWord | CHIP_STDLIB/wb_mmu.c:163-166 | the small-page entry keeps the frame and adds full access, the cache bits and type 10 |
| PageMap.RecacheBits | CHIP_STDLIB/wb_mmu.c:107-108 | clearing bits 3:2 and or-ing a new mode turns the entry of any frame and old mode into the entry of the same frame with the new mode |
| PageMapProps.RunIsLastMode | CHIP_STDLIB/wb_mmu.c:70-116 | after any run of requests a page's cache bits are those of the last accepted request covering it in its view |
| PageMapProps.PhysInNumbers | CHIP_STDLIB/wb_mmu.c:151-174 | the address map in numbers: inverse mapping mirrors the pages of every mapped MB but the first, in both views |
| PageMapProps.AcceptedInNumbers | CHIP_STDLIB/wb_mmu.c:84-89 | the argument checks of an edit, on its whole address |
| PageMapProps.CoversInNumbers | CHIP_STDLIB/wb_mmu.c:101-110 | the pages an accepted edit covers are those of the addresses from vaddr up to vaddr + size |
| Mmu.FreshWalks | CHIP_STDLIB/wb_mmu.c:190-276 | the walk of freshly built tables on every address, with the cache bits of each flag |
| Mmu.EditWalks | CHIP_STDLIB/wb_mmu.c:70-116 | an edit in full effect moves no address and changes the cache bits of exactly the addresses it covers, to those of its flag |
| PageMapProps.EditsKeepMap | CHIP_STDLIB/wb_mmu.c:70-116 | tables after any run of edits translate every address as before; cache bits inside the window are those last asked for, outside nothing changes |
| MmuAccess.PlacedExactly | CHIP_STDLIB/wb_mmu.c:32-34 | the alias finds every table word iff both tables lie in mapped memory, in inverse mode in the first MB |
| MmuAccess.TableStore | CHIP_STDLIB/wb_mmu.c:101-110 | a driver store lands on its word, in memory or on a write-back page in the data cache, and nowhere else |
| MmuSteps.ReachableAfterInit | CHIP_STDLIB/wb_mmu.c:190-276 | right after initialization with the cache flag on every edit reaches the walker iff the tables are placed |
| MmuSteps.ReachableWithoutFlag | CHIP_STDLIB/wb_mmu.c:190-276 | after sysInitMMUTable without sysEnableCache edits reach the walker iff the cache mode is not write-back |
| MmuSteps.EditStep | CHIP_STDLIB/wb_mmu.c:101-110 | one store of the edit loop, reaching memory or not, leaves tables that are correct for the bits now in memory, and right frames in the cache |
| MmuSteps.EditAllIsRun | CHIP_STDLIB/wb_mmu.c:70-116 | a run of edits that does not bury the tables takes effect in full |
| MmuSteps.EditExactly | CHIP_STDLIB/wb_mmu.c:70-116 | the same for an accepted call in terms of its address, size and flag, write-back being flag 0 |
| Mmu.Driver.SetMappingMethod | CHIP_STDLIB/wb_mmu.c:181-187 | the mode is recorded and existing tables stay valid |
| Mmu.Driver.InitPageTable | CHIP_STDLIB/wb_mmu.c:120-178 | exactly the three argument checks decide success; on success page k of the range gets the frame of phy + 4096 k, or of phy + size - 4096 (k + 1) in reverse, and the cache bits of the flag, and nothing outside the range changes; on failure nothing changes |
| Mmu.Driver.FillEntries | CHIP_STDLIB/wb_mmu.c:157-174 | the loop writes exactly the entries of its pages, ascending or descending frames with wrap-around, and nothing else |
| Mmu.Driver.MapMegabyte | CHIP_STDLIB/wb_mmu.c:217-265 | one MB of one view becomes mapped, all earlier MB stay mapped |
| Mmu.Driver.BuildTables | CHIP_STDLIB/wb_mmu.c:195-268 | the building loops establish the full correctness predicate for min(64, ramsize) MB |
| Mmu.Driver.FlatSections | CHIP_STDLIB/wb_mmu.c:199-209 | after the flat loop all 4096 entries map their MB to itself |
| Mmu.Driver.EnableCache | CHIP_STDLIB/wb_cache.c:100-107 | as InitMMUTable, cache bits of the walk included, and the cache counts as on |
| Mmu.Driver.EditEntry | CHIP_STDLIB/wb_mmu.c:101-110 | one iteration stores exactly the recached word, and the tables are correct for the cache bits now in memory |
| Mmu.Driver.EditPages | CHIP_STDLIB/wb_mmu.c:101-110 | the loop makes the edits of all its pages in order and leaves the words outside the range |
| Mmu.Driver.SetCachePages | CHIP_STDLIB/wb_mmu.c:70-116 | accepted iff the range ends below 64 MB and address and size are multiples of 4096; the cache bits in memory afterwards, write-back pages of the tables included; words outside the range and rejected calls change nothing; if the tables stay reachable exactly the addresses from vaddr up to vaddr + size walk with the bits of the flag (3, 2 or 0) |
| Pll.AcceptedIsExact | CHIP_STDLIB/wb_config.c:214-230 | an accepted candidate never overflows 32 bits for any crystal, equals the exact quotient, and meets the 1-15 MHz and 100-500 MHz ranges |
| Pll.OutputInNumbers | CHIP_STDLIB/wb_config.c:144-173 | the output computed from any register: 0 with bit 16 set, otherwise the crystal times FB_DV + 2 over IN_DV + 2 and over 1, 2, 2 or 4, the product in 32 bits |
| PllSearch.EndsAboveZero | CHIP_STDLIB/wb_config.c:198-251 | for targets of at least 36750 that are multiples of 250 a match comes before the target passes zero |
| PllSearch.ScanRound | CHIP_STDLIB/wb_config.c:208-246 | the triple loop returns 0 iff nothing matches, otherwise the register of the match with the least OUT_DV, then IN_DV, then FB_DV |
| PllSearch.Candidate | CHIP_STDLIB/wb_config.c:214-226 | the filters and the comparison accept exactly the candidates with the required output |
| PllSearch.FirstInNumbers | CHIP_STDLIB/wb_config.c:208-229 | the fields of the register of a first match, and that no match precedes them |
| PllSearch.RegisterDecodes | CHIP_STDLIB/wb_config.c:144-173 | the register of a first match is nonzero, below 2^16, and decodes to its target |
| PllSearch.FoundOnce | CHIP_STDLIB/wb_config.c:198-251 | crystal and target determine round and register |
| PllSearch.FoundRegister | CHIP_STDLIB/wb_config.c:198-251 | the register found decodes to the target of its round |
| PllSearch.LowTargetsOvershoot | CHIP_STDLIB/wb_config.c:553-566 | with any crystal every target below 25 MHz ends with a PLL above the target |
| PllTargets.OvershootRange12 | CHIP_STDLIB/wb_config.c:553-566 | a 12 MHz target below 113.25 MHz that is not met from below is always overshot, an even one from 500 MHz never |
| PllTargets.Overshoots96100 | CHIP_STDLIB/wb_config.c:553-566 | the failure occurs: 96.1 MHz with 12 MHz is set to 238.5 MHz |
| PllTargets.WrappedSearch | CHIP_STDLIB/wb_config.c:206-248 | any crystal: a search that runs below zero p times ends at the largest attainable frequency of its residue in pass p, and no earlier pass holds one |
| PllTargets.AttainableExactly27 | CHIP_STDLIB/wb_config.c:214-226 | with 27 MHz a frequency is attainable iff it passes a closed test for one of 12 input and 4 output dividers, with no search over FB_DV |
| PllTargets.Grid27Range | CHIP_STDLIB/wb_config.c:214-226 | 27 MHz outputs lie between 25071 and 500500 kHz, so at most 119 rounds of a target matter |
| PllTargets.NoWrap27 | CHIP_STDLIB/wb_config.c:198-251 | with 27 MHz multiples of 250 kHz from 36.75 MHz, of 125 kHz from 60.75 MHz and of 50 kHz from 157.95 MHz are met from below |
| PllTargets.Overshoots27 | CHIP_STDLIB/wb_config.c:553-566 | with 27 MHz every target below 25.071 MHz is overshot |
| PllTargets.Overshoots28204 | CHIP_STDLIB/wb_config.c:553-566 | the failure occurs above 25.071 MHz: 28.204 MHz with 27 MHz is set to 499.5 MHz |
| ClockPlan.ReportedOrder | CHIP_STDLIB/wb_config.c:588-683 | in either branch APB <= HCLK <= SYS <= PLL and 0 < CPU <= SYS |
| ClockPlan.FaultOccurs | CHIP_STDLIB/wb_config.c:676-679 | the fault occurs: PLL 240, SYS and CPU 120, APB 100 MHz |
| ClockPlan.ApbOverflowOccurs | CHIP_STDLIB/wb_config.c:676-679 | the exception in PlanBounds occurs: the request PLL, SYS, CPU 2^31 + 1 kHz, HCLK 2^31 - 1 kHz, APB 1 kHz succeeds and reports an APB clock of 0 |
| ClockOver.LeastDividers | CHIP_STDLIB/wb_config.c:624-628 | the system divider is the least that keeps SYS at or below its request, with CPU at most twice HCLK also the CPU divider |
| ClockOver.TooSlowExactly | CHIP_STDLIB/wb_config.c:656-668 | which requests are refused for a too slow CPU, and the SYS, HCLK and CPU divider values written before |
| ClockOver.WideCpuDividerOccurs | CHIP_STDLIB/wb_config.c:640-643 | the unlimited CPU divider occurs |
| ClockFields.SwitchedFields | CHIP_STDLIB/wb_config.c:353-465 | after a switch to APLL or UPLL, for arguments of any width: SYSTEM_N0, SYSTEM_N1 and CPU_N are those bits of the dividers, while the excess bits of the SYS divider are or-ed into the source field and those of the CPU divider into APB_N |
| ClockFields.ApllInNumbers | CHIP_STDLIB/wb_config.c:413-421 | APLLCON takes the setting with bits 19 to 23 set |
| ClockFields.ExtInNumbers | CHIP_STDLIB/wb_config.c:344-351 | the two writes for the crystal clear the low byte of CLKDIV0 and keep the bits above it but for the divider |
| ClockTree.WrittenPll | CHIP_STDLIB/wb_config.c:413-451 | the number in APLLCON or UPLLCON decodes to the frequency of the round found |
| ClockTree.CrystalFrequency | CHIP_STDLIB/wb_config.c:583 | strap value 2 of bits 2 and 3 means 12 MHz, any other 27 MHz |
| ClockSwitch.Hardware.EnterRefresh | CHIP_STDLIB/wb_config.c:331-339 | self-refresh is requested; for DDR2 the DLL is disabled and the low-frequency bit follows HCLK; nothing else changes |
| ClockSwitch.Hardware.ToExternal | CHIP_STDLIB/wb_config.c:341-352 | CLKDIV0 ends on the crystal, for DDR memory the DLL is off and the low-frequency bit set, every write made masked and refreshing |
| ClockSwitch.Hardware.ToUpll | CHIP_STDLIB/wb_config.c:353-382 | every write safe; UPLLCON is written while running from the UPLL iff the call began there |
| ClockSwitch.Hardware.ToApll | CHIP_STDLIB/wb_config.c:383-465 | every write safe, in particular APLLCON only while the crystal drives the system, from either starting PLL |
| ClockSwitch.Hardware.LeaveUpll | CHIP_STDLIB/wb_config.c:385-421 | from the UPLL: the crystal, CLKDIV4 0x100, APLLCON 0x00F8801C, then five times the new setting |
| ClockSwitch.Hardware.ReprogramApll | CHIP_STDLIB/wb_config.c:410-421 | the five repeated stores write the new setting, each made on the crystal |
| ClockSwitch.Hardware.Dispatch | CHIP_STDLIB/wb_config.c:341-465 | for each source exactly the registers of its branch change, to the values in numbers |
| ClockSwitch.Hardware.ClockSwitch | CHIP_STDLIB/wb_config.c:318-487 | interrupt mask as before, refresh command off again, every clock write safe, and the new value of every register in numbers |
| ClockTree.OverMisreportsHclk | CHIP_STDLIB/wb_config.c:629-655 | above twice HCLK every successful call reports an HCLK below the one the hardware has |
| ClockTree.WideDividerOccurs | CHIP_STDLIB/wb_config.c:462 | a successful APLL request whose SYS divider does not fit its field selects the UPLL |
| ClockTree.Clocks.ChooseDividers | CHIP_STDLIB/wb_config.c:588-683 | result and static variables are those of the divider computation; a refused request changes none of them, a too slow CPU only some |
| ClockTree.Clocks.ChooseUnder | CHIP_STDLIB/wb_config.c:656-682 | the branch CPU at most twice HCLK; on a too slow CPU HCLK and the CPU divider are already overwritten |
| ClockTree.Clocks.ChooseOver | CHIP_STDLIB/wb_config.c:629-655 | the branch above twice HCLK, CPU divider kept between 1 and 5 |
| ClockTree.Clocks.SelectPll | CHIP_STDLIB/wb_config.c:696-709 | source, PLL clock and a searched register are recorded |
| ClockTree.Clocks.SetExternal | CHIP_STDLIB/wb_config.c:713-748 | the crystal drives the system, every register after the switch, dividers recorded as 1, HCLK as 27 MHz whatever the crystal |
| ClockTree.Clocks.GetSystemClock | CHIP_STDLIB/wb_config.c:751-770 | reports the recorded source and clocks, and the PLL clock of that source; without a PLL the caller's PLL value stays |
| ClockTree.SetPllClock | CHIP_STDLIB/wb_config.c:783-823 | the PLL in use is only read, whatever the target; another PLL is set to the first attainable frequency, which is returned; a source that is no PLL returns the UPLL output |
| Power.RestoreClocks | CHIP_STDLIB/wb_power.c:199-219 | reading the clocks and setting them again succeeds iff the reported clocks make a plan; source, PLL clock and PLL register come back; with CPU at most twice HCLK dividers and clocks come back iff they are restorable |
| Power.EnterPowerSaving | CHIP_STDLIB/wb_power.c:109-126 | the wake-up sources are enabled, self-refresh requested, and bit 0 of PWRCON and of AHBCLK cleared; nothing else changes |
| Power.WakeSources | CHIP_STDLIB/wb_power.c:172 | the wake-up sources are channels 2 to 5 and 22 |
| FlashMap.FitsExactly | Excute_Lib/SRC/n3290x_lib_ex_spiflash.c:255-294 | the condition on address and length holds iff no page of the write runs past its page, tails rounded up to words |
| FlashMap.PagesSum | Excute_Lib/SRC/n3290x_lib_ex_spiflash.c:255-268 | the page lengths of the write loop add up to the length, each page but the last being 256 bytes |
| FlashMap.WrittenIsRange | Excute_Lib/SRC/n3290x_lib_ex_spiflash.c:250-303 | for a write that fits, the page programs together program one range with the buffer |
| FlashMap.ProgrammedInNumbers | Excute_Lib/SRC/n3290x_lib_ex_spiflash.c:275-294 | a programmed cell is the old one and-ed with its byte of the buffer, least significant byte of a word first |
| SpiFlash.Driver.WriteEnable | Excute_Lib/SRC/n3290x_lib_ex_spiflash.c:106-117 | the latch is set by one framed command, nothing else changes |
| SpiFlash.Driver.CheckBusy | Excute_Lib/SRC/n3290x_lib_ex_spiflash.c:53-76 | polling ends, with chip select inactive, busy clear, and the latch clear if an operation was in progress |
| SpiFlash.Driver.EraseOne | Excute_Lib/SRC/n3290x_lib_ex_spiflash.c:207-224 | one block becomes 0xFF, protocol kept, latch and busy clear |
| SpiFlash.Driver.EraseSector | Excute_Lib/SRC/n3290x_lib_ex_spiflash.c:198-228 | a misaligned address is refused without effect; otherwise exactly secCount blocks become 0xFF, every command proper |
| SpiFlash.Driver.EraseAll | Excute_Lib/SRC/n3290x_lib_ex_spiflash.c:231-247 | all bytes become 0xFF, every command proper |
| SpiFlash.Driver.WritePage | Excute_Lib/SRC/n3290x_lib_ex_spiflash.c:271-299 | one page program of the buffer's words, write-enabled and polled to the end |
| SpiFlash.Driver.Write | Excute_Lib/SRC/n3290x_lib_ex_spiflash.c:250-303 | the page programs of the buffer in order; for calls that fit one programmed range; every command proper, latch and busy clear |
| SpiFlash.Driver.Read | Excute_Lib/SRC/n3290x_lib_ex_spiflash.c:306-349 | the first len bytes of the caller's buffer become the flash contents for every len, the rest of the buffer and the flash stay |
| SpiFlash.Driver.ReadWords | Excute_Lib/SRC/n3290x_lib_ex_spiflash.c:325-332 | the word loop fills whole words and leaves the rest of the buffer |
| SpiFlash.Driver.ReadTail | Excute_Lib/SRC/n3290x_lib_ex_spiflash.c:334-344 | the byte loop fills the remaining bytes |
| UartRing.StepKeepsInv | CHIP_STDLIB/wb_uart.c:93-124 | every producer statement and every service routine run keeps the invariant |
| UartRing.IdleDrains | CHIP_STDLIB/wb_uart.c:102-124 | between calls each service routine run shortens a non-empty ring, and turns the interrupt off on an empty one |
| UartRing.IsrSends | CHIP_STDLIB/wb_uart.c:102-124 | one run sends exactly the first eight bytes of the ring, or all if there are fewer, in order |
| UartRing.DrainedStream | CHIP_STDLIB/wb_uart.c:340-374 | once drained, the line has carried the characters of all calls, each newline followed by a carriage return |
| UartRing.NewlinesFollowed | CHIP_STDLIB/wb_uart.c:349-355 | on the line every newline is immediately followed by a carriage return |
| UartRing.OtherInterruptsKept | CHIP_STDLIB/wb_uart.c:357-358 | a call leaves the other interrupt enables alone iff THRE_IEN was set or they were off |
| Uart.Transmitter.Isr | CHIP_STDLIB/wb_uart.c:102-124 | the service routine does the interrupt step of the state machine |
| Uart.Transmitter.WaitForSlot | CHIP_STDLIB/wb_uart.c:344 | the busy wait ends with a free slot |
| Uart.Transmitter.EnableTransmit | CHIP_STDLIB/wb_uart.c:357-358 | after the test and the write the call is complete and no wakeup is lost |
| Uart.PutCharPolled | CHIP_STDLIB/wb_uart.c:362-372 | the character, and a carriage return behind a newline, go straight to the line, each after a wait for an empty transmitter |
| Number.DigitsValue | CHIP_STDLIB/wb_uart.c:431-452 | the digits denote the number, in every radix |
| Number.DigitChars | CHIP_STDLIB/wb_uart.c:431-453 | digit characters are 0 to 9 and A to F |
| NumberText.BodyFits | CHIP_STDLIB/wb_uart.c:403-459 | at most 22 of the 40 buffer places are used, for every value and every radix of FormatItem |
| NumberText.OutputLength | CHIP_STDLIB/wb_uart.c:461-476 | the output is as long as the larger of field width (up to 80) and number |
| Format.ExtraArguments | CHIP_STDLIB/wb_uart.c:584-590 | arguments beyond the last item are not looked at |
| Format.LiteralText | CHIP_STDLIB/wb_uart.c:584-590 | a format without items is well-formed, takes no argument and prints itself |
| Format.ItemReadsBack | CHIP_STDLIB/wb_uart.c:480-562 | every numeric item reads back as its argument: an int in radix 10 for d and i, an unsigned word in radix 10 for u, 16 for x and X, 8 for o, 3 for other letters; exactly unless a number other than 0 has got zeros behind it |
| Format.ItemLayout | CHIP_STDLIB/wb_uart.c:480-562 | every item is its text without flags, filled with zeros (flags beginning with 0) or blanks to the width, on the side given by - and the sign of the width |
| Format.PlainText | CHIP_STDLIB/wb_uart.c:502-531 | what c, s and % print without flags |
| Format.WidthIsDecimal | CHIP_STDLIB/wb_uart.c:491-496 | the field width is the decimal number of the flag digits, as a 32-bit int |
| Format.ItemExtent | CHIP_STDLIB/wb_uart.c:491-508 | an item ends at the first character that is no digit and no -, and takes one argument |
| Format.LeftZeroFill | CHIP_STDLIB/wb_uart.c:488-553 | the exception occurs: "%0-5d" prints 12 as "12000" |
| Console.Printer.PutChar | CHIP_STDLIB/wb_uart.c:340-374 | in either mode one more character has been put |
| Console.Printer.LineCarriesAll | CHIP_STDLIB/wb_uart.c:340-374 | polled, or buffered and drained, the line has carried exactly the characters put, newlines expanded |
| Console.Printer.PutString | CHIP_STDLIB/wb_uart.c:377-384 | puts the string up to its terminating zero |
| Console.Printer.PutRepChar | CHIP_STDLIB/wb_uart.c:387-391 | puts the character count times, a negative count taken modulo 2^32 |
| Console.Printer.PutStringReverse | CHIP_STDLIB/wb_uart.c:394-398 | puts the reversed prefix of the buffer |
| Console.Printer.PutNumber | CHIP_STDLIB/wb_uart.c:401-477 | puts the specified field; the 40-byte buffer is not exceeded |
| Console.StoreDigits | CHIP_STDLIB/wb_uart.c:431-453 | the digit loop, with its comma positions 3, 7, 11, 15, fills the buffer with the comma-grouped digits |
| Console.Printer.FormatItem | CHIP_STDLIB/wb_uart.c:480-562 | the pointer ends behind the item and the item's text has been put |
| Aic.ApplySlot | CHIP_STDLIB/wb_aic.c:282-377 | one call changes the level or type of its own source and nothing else |
| Aic.SlotInNumbers | CHIP_STDLIB/wb_aic.c:340-377 | the slot of source n is byte n % 4 of register n / 4 |
| Aic.PendingExactly | CHIP_STDLIB/wb_aic.c:130-136 | the dispatched sources are exactly the pending ones |
| Aic.PendingAscends | CHIP_STDLIB/wb_aic.c:130-136 | they are dispatched once each, in ascending order |
| Aic.Controller.InstallISR | CHIP_STDLIB/wb_aic.c:282-320 | level and handler are installed as the abstract operation says, the previous handler of that table is returned; a level above 7 writes the register only |
| Aic.Controller.SetPriorityLevel | CHIP_STDLIB/wb_aic.c:340-353 | refused without effect for sources outside 1 to 31, otherwise the abstract operation |
| Aic.Controller.SetInterruptType | CHIP_STDLIB/wb_aic.c:364-377 | refused without effect for sources outside 1 to 31, otherwise the abstract operation |
| Aic.Controller.Dispatch | CHIP_STDLIB/wb_aic.c:130-136 | software mode calls the handlers of the pending sources in that order, each looked up when its turn comes, with handlers that make calls of their own |
| Gpio.SpreadMask | Excute_Lib/SRC/n3290x_lib_ex_gpio.c:200-203 | the loop doubles each mask bit into a 2-bit field |
| Gpio.MaskedBits | Excute_Lib/SRC/n3290x_lib_ex_gpio.c:66-67 | masked bits take the new value, all others keep theirs |
| Gpio.RisingRoundTrip | Excute_Lib/SRC/n3290x_lib_ex_gpio.c:259-324 | rising edges read back as set for masked pins and as before for the others |
| Gpio.FallingRoundTrip | Excute_Lib/SRC/n3290x_lib_ex_gpio.c:259-324 | the same for falling edges |
| Gpio.Ports.SetPort | Excute_Lib/SRC/n3290x_lib_ex_gpio.c:61-156 | register 0 to 4 of one bank, for port 1, 2, 4, 8 or 16, gets the masked write; any other port changes nothing |
| Gpio.Ports.SetIntMode | Excute_Lib/SRC/n3290x_lib_ex_gpio.c:259-292 | the edge register of port 1, 2, 4, 8 or 16 gets the masked edges; any other port changes nothing |
| Gpio.Ports.GetIntMode | Excute_Lib/SRC/n3290x_lib_ex_gpio.c:295-324 | reports the two halves of the edge register of port 1, 2, 4, 8 or 16 |

## Left out

- Mmu.Driver.SetCachePages: with translation on it is stated for tables that the driver's addresses find; `MmuAccess.PlacedExactly` says when, and `MmuAccess.StoreReachesWalker` what a single store does elsewhere.
- Mmu.Driver.SetCachePagesRun: the same placement of the tables.
- Mmu.Driver.GetPhyPageAddr: the same placement, and addresses outside the mapped window, whose coarse entries are never set.
- Mmu.Driver.InitPageTable: stated for its use by sysInitMMUTable, before the tables are in use.
- Mmu.Driver.InitMMUTable: a memory size below 1 MB counts as 1 MB, as the source always maps the first MB; reading the size registers is a parameter.
- The TLB: the source never invalidates it after an edit, so a cached translation may keep old cache bits; the walk is modelled as made anew for every access.
- Cache contents: the data cache is a set of words, by physical address, held back by write-back stores; line fills, evictions, flushes and sysDisableCache are not modelled.
- PllSearch.GetPLLControlRegister: the constraint-check flag (debug printing, one round), and calls for which the search does not end.
- sysSetPLLControlRegister, sysExternalClock, sysClockDiv and the 32 kHz source of sysSetSystemClock: single-branch register writes.
- Inline-assembler delays, DDR initialization, startup code, sleep and wake-up: timing and hardware effects.
- ClockTree.HardwareClocks: requests above twice HCLK, for which `ClockTree.OverMisreportsHclk` shows that HCLK differs.
- Power.PMStart: the WB_PM_IDLE path, where the function jumps to an unset address, the 32 kHz source, and Entry_PowerDown.
- Power.EnterPowerSaving: the sleep itself, and the wake-up that ends it.
- Power.RestoreClocks: the 32 kHz source; clocks never set by the driver.
- SpiFlash.Driver.EraseSector: ranges that end beyond 2^24, where the 24-bit address wraps.
- SpiFlash.Driver.Write: ranges that end beyond 2^24.
- SpiFlash.Driver.Read: ranges that end beyond 2^24.
- SpiFlash.WriteThenRead: writes whose bytes wrap in a page; `FlashMap.RoundTripExactly` says that no such length reads back for all buffers.
- spiFlashInit, identification, status write and write disable: fixed one-shot sequences.
- The serial engine (spiTxLen, spiActive) is the assumption that n bits are shifted most significant first and the reply is captured.
- Uart.Transmitter.WaitForSlot: the wait assumes that an enabled transmit interrupt is served while the ring is full.
- Uart.PutCharPolled: the waits assume that the transmitter becomes empty after some number of reads.
- UART reception, callbacks, register setup and switching between buffered and polled mode.
- Console.Printer.FormatItem: items cut off by the end of the format, where the source reads past the terminating zero.
- Console.Printer.Printf: such formats, formats with fewer arguments than items, and the one-time UART initialization.
- Aic.Controller.InstallISR: sources above 31, the value returned for levels above 7, and the exception vectors.
- Aic.Controller.Dispatch: hardware-mode dispatch, and handlers that install for sources above 31.
- GPIO debounce and latch settings and the remaining getters; EBI; SDRAM size lookup: single-branch facts.
- FAT, NAND and SD card code: their sources are not part of this model.
