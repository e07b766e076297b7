# A verified model of culvert's write paths and bridges

culvert reaches into a BMC from its host: it drives the BMC's SPI-NOR flash through
whatever bridge the host can find, and it opens and closes those bridges. This project
models the parts of it where a wrong step does damage, and proves what they promise.
Run `dafny verify dfyconfig.toml` in this directory to check every file.

* **The flash stack.** `NorChip` is the chip: it takes its commands as the bytes of one
  CE# window, programs by AND inside a wrapping 256-byte page, erases aligned blocks to
  0xff, drops WEL and raises WIP for an unknown number of polls, and may ignore write
  enables for a while. `SpiBus` is the SoC in between, with its control register and the
  window that clocks bytes; any access may fail. On these two run the drivers:
  `SfcDriver` (`src/soc/sfc.c`), `FlashDriver` and `FlashInit` (`src/flash.c`), `Firmware`
  (`src/cmd/write.c`); `FlashSession` is any sequence of their calls. `EraseTiling`,
  `FlashPlan`, `SmartPlan` and `SmartOutcome` say, without any state, which commands the
  loops issue and what these do to the image; `BusyWrite` is about a smart write on a chip
  that is still busy. A chip may also have
  *flaws*: operations that leave wrong bits behind. What a verify pass proves holds for
  such chips too; what needs a faultless chip is conditional on no flaw having been spent.
* **The circular list** (`CcanList`), on a heap of nodes with `next` and `prev`.
* **Bridges as memory.** `P2aBridge` has a 64 KiB window that a cached base register moves;
  `IlpcBridge` runs a register protocol over the locked index and data ports of
  `SuperIo`; `Mmio` copies by words what it may.
* **Registers with a meaning.** `Otp` and `OtpDriver` for the one-time-programmable
  straps; `Straps`, `BridgeControl` and `PcieControl` for the three generations' strap
  registers and the `enforce`/`status` pairs of the iLPC and P2A bridges.

The classes follow the C code's structures and loops. Each method is tied to a function
or predicate of the old and the new state; the lemmas are about those.

Where the code does not do what its comments or error codes suggest, the model does what
the code does, and the exact limit is proved:

* On a chip with 4 KiB and 64 KiB blocks but no 32 KiB block, `flash_erase` is exact on
  precisely the ranges that `EraseTiling.Tileable` describes. On every other range its
  first bad block erases a byte outside the range (`FlashDriver.FlashChip.EraseAstray`).
* P2A chunks are not clipped at the window's edge: a request stays inside the mapping if
  and only if it starts on a 64 KiB boundary or fits in one window.
* `ilpcb_write` never advances its address; `IlpcBridge.WriteStoresIff` says what is left.
* `otp_write` reports failure exactly when the bit was first seen set at the 17th look,
  and success when it never got set.
* `strap_set` on the AST2600's STRAP3 overwrites the register although the
  comments call it read-modify-write.
* `flash_smart_write` keeps its end in 32 bits; with a longer size it stops at the
  truncated end, and `FlashDriver.FlashChip.Span` says where.
* `flash_smart_write` compares the data with what the memory window gives, also on a chip
  that is still busy because an earlier call failed while it waited. Granules that read as
  the data are skipped. The first other one is written over, or erased and rewritten with
  what was read around the data; only then has the chip been waited for, and the rest is
  stored. A zero result leaves exactly the image `SmartOutcome.ImageLeft`. That is the data
  stored, whatever a busy chip gives back, if and only if the chip was idle, or the image
  held the data already and every granule in which the data has a byte other than 0 is
  covered by the data as a whole (`BusyWrite.AlwaysStoresIff`). `BusyWrite.NothingStored`
  and `BusyWrite.GranuleLost` are runs that return 0 without the data stored, and with the
  rest of its granule lost.
* `fl_sync_wait_idle` looks at `finfo`, which is null until the first `flash_init` has found
  the chip's row. On a working bus `flash_init` comes to that look exactly when the chip is
  still busy at the first call; `FlashInit.Init` has this as an outcome of its own.
* The firmware loop returns 0 after a short read: from a file it stores all but the last
  size modulo 64 KiB bytes and reports success.
* The firmware retry loop has no bound. It ends here because a chip has finitely many
  flaws; on a chip that keeps miscomparing it would not.
* `flash_set_4b` ignores a failed write enable. On a working bus `flash_init` then still
  returns 0, and chip and controller agree on the address width exactly when the chip was
  at that width already, needs no write enable to change it, or takes one within 1000
  tries; `FlashInit.StrictChip` is a run in which they do not.
* `sfc_set_4b` does not write FMC_CE_CTRL when the result is zero, so its width bit stays
  set if it was the only one.
* `list_swap` of a node that is alone on its ring leaves both nodes on it.

## Model

| member | source | states |
|---|---|---|
| EraseTiling.BestIsLargestFit | src/flash.c:144-174 | on a tileable range the chosen block is supported, aligned, fits, and is the largest such block |
| EraseTiling.StepKeepsTileable | src/flash.c:199-222 | one step of the erase loop keeps alignment, and neither gains nor loses tileability |
| EraseTiling.GreedyIsTiling | src/flash.c:199-222 | the blocks of the erase loop are contiguous, disjoint, naturally aligned and cover exactly the range |
| EraseTiling.GreedyIsMinimal | src/flash.c:144-227 | no tiling of the range by supported, naturally aligned blocks has fewer erase commands |
| EraseTiling.ExactIffTileable | src/flash.c:144-227 | with the machine's 32- and 64-bit arithmetic, the loop ends having tiled exactly the range if and only if the range is tileable |
| EraseTiling.AlwaysTileable | src/flash.c:22-56 | every set other than 4K+64K, every 64K-aligned range and every single granule is tileable |
| EraseTiling.FirstUntileable | src/flash.c:154-173 | the smallest range that a 4K+64K chip gets wrong |
| EraseTiling.BadBlockLeaves | src/flash.c:144-174 | a block that is misaligned or too long is a 64 KiB one that reaches a byte before the range or past it |
| EraseTiling.GoodBlockStays | src/flash.c:199-222 | on an untileable range a good block leaves an untileable range, so the bad one comes |
| EraseTiling.Granule | src/flash.c:547-558 | the erase granule is supported and divides every supported block size |
| NorChip.AddressRoundTrip | src/soc/sfc.c:220-240 | the address bytes on the wire decode to the address, modulo 16 MiB with three of them |
| NorChip.AddressDigits | src/soc/sfc.c:220-240 | the address bytes are the digits of the address to base 256, highest first, as a numeric sum |
| NorChip.WireBytes | src/soc/sfc.h:14-31 | the opcodes as they are on the wire |
| NorChip.FramePrefix | src/soc/sfc.c:220-240 | the chip reads opcode, address and data of a frame, or of a prefix of it, as they were meant |
| NorChip.ProgramFrame | src/soc/sfc.c:305-326 | a program frame cut short by a fault programs a prefix of the data or nothing |
| NorChip.EraseFrame | src/soc/sfc.c:305-326 | an erase frame erases the addressed block; cut short it does that or nothing |
| NorChip.ReadFrame | src/soc/sfc.c:242-303 | the reading opcodes leave the chip as it was |
| NorChip.StatusBits | src/flash.c:76-120 | the two status bits tell WIP and WEL |
| SfcDriver.Sfc.constructor | src/soc/sfc.c:876-925 | the controller starts in 3-byte mode and at rest |
| SfcDriver.Sfc.StartCmd | src/soc/sfc.c:179-197 | on success CE# is active and the frame holds exactly the opcode |
| SfcDriver.Sfc.EndCmd | src/soc/sfc.c:199-218 | CE# is released, the chip completes the frame, and the control register holds the read value |
| SfcDriver.Sfc.SendAddr | src/soc/sfc.c:220-240 | exactly the big-endian 3- or 4-byte address is appended to the frame |
| SfcDriver.Sfc.CmdWr | src/soc/sfc.c:305-326 | one CE# window with exactly opcode, address and data, or a prefix on a fault; at rest on every exit |
| SfcDriver.Sfc.Unpack | src/soc/sfc.c:279-294 | one to four bytes of a word are stored, lowest first, and nothing else |
| SfcDriver.Sfc.ClockIn | src/soc/sfc.c:256-297 | the buffer gets the first size bytes of the reply stream although bytes are clocked in fours |
| SfcDriver.Sfc.CmdRd | src/soc/sfc.c:242-303 | one window with exactly opcode and address, the first size reply bytes, the chip unchanged but for time; at rest on every exit |
| SfcDriver.Sfc.Set4b | src/soc/sfc.c:328-366 | both control values and the mode agree on the address width afterwards, and FMC_CE_CTRL is what the code leaves; on a working bus it fails only where the small FMC is asked for 4 bytes |
| SfcDriver.CeFollows | src/soc/sfc.c:346-363 | the width bit of FMC_CE_CTRL follows unless it is the only bit and is to be cleared; no other bit changes |
| SfcDriver.Sfc.DirectRead | src/soc/sfc.c:368-383 | a mapped read returns the image |
| FlashPlan.PagesSplit | src/flash.c:312-329 | the programs are 1..256 bytes, never cross a page, are consecutive and carry exactly the data |
| FlashPlan.PagesMinimal | src/flash.c:312-329 | no way to program the range page by page takes fewer commands |
| FlashPlan.PagesProgram | src/flash.c:312-329 | together they AND the data into the image, changing nothing else |
| FlashPlan.TilingErases | src/flash.c:199-222 | erasing a tiling blanks precisely its range |
| FlashPlan.DidBetweenQuiets | src/flash.c:199-216 | an accepted command between a write enable and a wait is all that happened |
| SmartOutcome.IdleRound | src/flash.c:409-460 | a round that compares with the image itself leaves the share stored and everything else as it was, and writes without an erase only where no bit has to go 0 to 1 |
| SmartOutcome.LeftStep | src/flash.c:409-464 | a round, whatever was read, brings the image that the whole call leaves one share nearer |
| SmartOutcome.CommandsStep | src/flash.c:409-464 | the round's commands are the first of those the whole call issues; granules still to come are compared as they were at the start |
| SmartOutcome.TakesStep | src/flash.c:409-464 | on a working bus and a faultless chip the call returns 0 if and only if this round and the rest do |
| BusyWrite.StoresIff | src/flash.c:409-464 | for one thing a busy chip gives back: a zero result means the data is stored if and only if what was skipped was there, and the first other granule, if erased, read right around the data |
| BusyWrite.AlwaysStoresIff | src/flash.c:392-466 | a zero result means the data is stored whatever a busy chip gives back if and only if the chip was idle, or the image held the data already and no granule can be erased with bytes to put back |
| BusyWrite.NothingStored | src/flash.c:430-435 | a run on a busy chip that returns 0 with the byte 0 not stored |
| BusyWrite.GranuleLost | src/flash.c:445-459 | a run on a busy chip that returns 0 with 4095 other bytes of the granule lost, although the byte to store was there |
| SmartPlan.ErasesExactlyDirty | src/flash.c:409-464 | a granule is erased if and only if some source bit in it must go 0 to 1, once each, so the counts agree |
| SmartPlan.RepeatPlansNothing | src/flash.c:430-435 | after a call the same call has no command left to issue |
| SmartPlan.NothingPlanned | src/flash.c:430-435 | where the image already holds the data there is no command |
| FlashDriver.ReadStat | src/flash.c:58-61 | returns the status before the poll; only time passes |
| FlashDriver.SyncWaitIdle | src/flash.c:76-93 | ends for every chip that clears WIP after finitely many polls; success means WIP is clear and, on chips that need it, the flag status was read last; it looks at a null finfo exactly if it succeeds on a chip not yet identified |
| FlashDriver.FlashChip.TryWren | src/flash.c:102-118 | one turn arms the chip if and only if it is idle and not deaf, and otherwise brings that one try closer |
| FlashDriver.FlashChip.Wren | src/flash.c:96-120 | success means WEL set and WIP clear; with a working bus it succeeds if and only if fewer than 1000 tries are needed, else it times out with WEL clear |
| FlashDriver.FlashChip.Wpage | src/flash.c:259-278 | on success exactly this program was accepted and the chip is idle; the page is all it can touch, and inside a page only the range; empty and oversized data is refused |
| FlashDriver.FlashChip.EraseOne | src/flash.c:199-216 | on success exactly the block that holds the address was erased and the chip is idle |
| FlashDriver.FlashChip.EraseNext | src/flash.c:199-222 | one iteration issues the first block of what remains |
| FlashDriver.FlashChip.FlashErase | src/flash.c:176-227 | refuses exactly the bad ranges; on a tileable one issues exactly the minimal tiling, each block with WEL set and WIP clear, and blanks precisely the range, and on any exit nothing outside it changed; on a healthy chip any tileable range of whole granules inside the chip is blanked; on any other range, unless something fails, it goes astray |
| FlashDriver.FlashChip.EraseAstray | src/flash.c:199-222 | on a range that is not tileable the loop comes to a bad block, and the chip then has a byte outside the range erased; up to there every block met WEL set and WIP clear, inside the chip |
| FlashDriver.EraseRefusedIff | src/flash.c:183-189 | the checks with their 64-bit wrap-around accept exactly the granule-aligned, non-empty ranges inside the chip |
| FlashDriver.FlashChip.EraseChip | src/flash.c:229-257 | one whole-chip erase, accepted, and an idle chip with every byte 0xff; opcode 0x60 where the row has it, otherwise 0xc7 |
| FlashDriver.FlashChip.WriteLoop | src/flash.c:312-330 | the page programs and no other command; the chip idle on success |
| FlashDriver.FlashChip.Verify | src/flash.c:336-359 | 0 only if the image holds the data, the miscompare code only if it does not |
| FlashDriver.FlashChip.FlashRead | src/flash.c:122-140 | an idle chip's bytes, and from a busy one what the window gives then |
| FlashDriver.FlashChip.FlashWrite | src/flash.c:280-360 | old AND new on the range and nothing else; with verify on a faultless chip 0 if and only if no bit had to go 0 to 1, otherwise the miscompare code |
| FlashDriver.WriteWrapCheck | src/flash.c:290-292 | the checks with their 32-bit wrap-around accept exactly the non-empty ranges inside the chip |
| FlashDriver.FlashChip.SmartComp | src/flash.c:368-390 | erase if and only if a bit must be set, otherwise no change if and only if equal |
| FlashDriver.FlashChip.EraseAndRewrite | src/flash.c:445-459 | on success the granule is the copy that was read with the new bytes laid over, whatever that copy was, by one erase and its page programs; nothing outside it changes on any exit |
| FlashDriver.FlashChip.WriteOver | src/flash.c:436-444 | on success the new bytes are in place and nothing else changed; on a working bus and a faultless chip it succeeds if and only if no bit had to go 0 to 1 |
| FlashDriver.FlashChip.SmartAct | src/flash.c:431-460 | the three cases for any copy of the granule: the image and the commands they leave on success, when they succeed, and nothing outside the granule on any exit |
| FlashDriver.FlashChip.SmartRound | src/flash.c:409-460 | one round changes no other granule; on success it did what the comparison with what the window gave called for, which on an idle chip stores its share; a busy chip is left alone only if that read as the share |
| FlashDriver.FlashChip.SmartIteration | src/flash.c:409-464 | one iteration moves on to the next granule boundary or the end |
| FlashDriver.FlashChip.SmartRefusedIff | src/flash.c:400-403 | the check accepts exactly the non-empty ranges inside the chip, and with an end past 32 bits exactly those whose truncated end is past the start and inside the chip |
| FlashDriver.FlashChip.SmartWrite | src/flash.c:392-466 | from any state and on any exit every byte outside the overlapped granules is unchanged and every command meets WEL set and WIP clear; from an idle chip 0 means the image is exactly the old one overlaid, by exactly the planned commands; an idle healthy chip ends up with any non-empty range inside it stored and result 0, and a range outside it is refused; from a busy chip 0 means the image is what skipping, one round on what the chip gave back and a plain store of the rest make of it; nothing at all happens, with result 0 on a working bus, where reads give the data already |
| FlashDriver.FlashChip.Span | src/flash.c:396-413 | how many bytes are handled, which is all of them unless the end overflows 32 bits |
| FlashDriver.FlashChip.SpanIsAll | src/flash.c:396-413 | all the data is handled if and only if the end fits in 32 bits |
| FlashDriver.FlashChip.Set4bChip | src/flash.c:566-584 | on a working bus it returns 0, and the chip is at the asked width unless it needs WEL for that and did not get it, when it keeps its width |
| FlashSession.Do | src/flash.c:176-466 | one call of any kind in any state: its commands are confined to the chip, and from an idle chip 0 means the image is what that call makes of it, unless an erase went astray, which exactly the untileable ranges do when nothing fails |
| FlashSession.Session | src/flash.c:176-466 | over any sequence of calls, failed ones included, every program and erase meets WEL set and WIP clear inside the chip, up to an erase that goes astray; if all return 0 the chip is idle and the image is what the calls make of it in turn |
| FlashDriver.MicronStatus | src/flash.c:63-73 | the chip is unchanged, and the flag status read is the last thing sent |
| FlashInit.Lookup | src/flash.c:524-531 | the row with the identifier, or none if there is none |
| FlashInit.EveryRowWorks | src/flash.c:22-56 | every row has a 4K and a 64K erase, a 64K-multiple size and 4-byte mode where it is needed; the three Micron rows are those without 32K erase and chip erase |
| FlashInit.RowsFitIds | src/flash.c:22-56 | every row's size is the one that maker and density byte of its identifier tell |
| FlashInit.ChipId | src/flash.c:468-494 | from any state of the chip: on success its three identifier bytes and an idle chip, or the look at a null finfo, which is reached exactly from a busy chip that has not been identified before |
| FlashInit.Identify | src/flash.c:496-538 | the row with the chip's own identifier, of the size its density byte tells; on a working bus an error only if no row has it |
| FlashInit.Init | src/flash.c:660-695 | from any state of the chip: which of its ends it comes to on a working bus, that the whole size of the row is usable, which is the one the density byte tells, and that the two sides agree on the width exactly if the width settles |
| FlashInit.Configure | src/flash.c:586-646 | the size is cropped to 16 MiB exactly if it is larger and the chip has no 4-byte mode; on a working bus it returns 0, with the controller at 4 bytes if and only if the usable size exceeds 16 MiB and the chip at the same width if and only if its width settles |
| FlashInit.StrictChipKeepsWidth | src/flash.c:575-583 | the chip for which the ignored write enable matters |
| FlashInit.StrictChip | src/flash.c:575-583 | a run that ends with success and the two sides at different widths |
| FlashInit.AddressesReach | src/soc/sfc.c:220-240 | every address below the usable size decodes back to itself |
| Firmware.WriteWindow | src/cmd/write.c:210-225 | on a chip with finitely many flaws the retry loop ends, and 0 means the window holds the buffer |
| Firmware.EraseAndWrite | src/cmd/write.c:217-222 | a miscompare after an erase costs the chip a flaw, so retries end |
| Firmware.NextWindow | src/cmd/write.c:210-227 | a full buffer is stored at phys and phys moves on by it, or nothing before phys has changed |
| Firmware.WriteFirmware | src/cmd/write.c:202-228 | flash up to phys equals the input consumed and phys is a multiple of 64K; nothing going wrong it returns 0 with phys at the input size rounded down, so the whole input is in flash if and only if it ends on a 64K boundary |
| CcanList.CheckNode | src/ccan/list/list.c:20-36 | ends on every finite graph, and succeeds if and only if the node lies on a ring |
| CcanList.Check | src/ccan/list/list.c:38-43 | succeeds if and only if the head holds some list |
| CcanList.EntriesAreUnique | src/ccan/list/list.h:143-146 | a head determines its entries, so "holds" is a function |
| CcanList.LinkAfter | src/ccan/list/list.h:178-188 | inserts after a node of any ring; disjoint rings stay rings |
| CcanList.LinkBefore | src/ccan/list/list.h:227-237 | inserts before a node of any ring; disjoint rings stay rings |
| CcanList.Unlink | src/ccan/list/list.h:324-333 | removes a node from any ring; disjoint rings stay rings |
| CcanList.Replace | src/ccan/list/list.h:405-417 | puts one node in place of another, or beside it if it was alone; disjoint rings stay rings |
| CcanList.Empty | src/ccan/list/list.h:267-271 | true if and only if there are no entries |
| CcanList.Add | src/ccan/list/list.h:204-209 | inserts at the front |
| CcanList.AddTail | src/ccan/list/list.h:250-255 | inserts at the back |
| CcanList.AddAfter | src/ccan/list/list.h:178-188 | inserts after an entry |
| CcanList.AddBefore | src/ccan/list/list.h:227-237 | inserts before an entry |
| CcanList.Del | src/ccan/list/list.h:324-333 | removes an entry |
| CcanList.DelInit | src/ccan/list/list.h:350-354 | removes an entry and leaves it a ring of its own |
| CcanList.Swap | src/ccan/list/list.h:405-417 | replaces an entry |
| CcanList.Pop | src/ccan/list/list.h:475-484 | takes the first entry, or NULL exactly if there is none |
| CcanList.Sew | src/ccan/list/list.h:647-651 | the four stores join two rings into one |
| CcanList.AppendList | src/ccan/list/list.h:640-656 | concatenates and leaves the other list empty, also when either was empty |
| CcanList.PrependList | src/ccan/list/list.h:672-688 | the same at the front |
| Mmio.MmioMemcpy | src/mmio.c:9-49 | equals a byte-by-byte copy for all lengths and alignments, returns dst + len; words are only moved between aligned addresses |
| Mmio.WordIsFourBytes | src/mmio.c:31-38 | one word move equals four byte moves |
| Mmio.CopyWord | src/mmio.c:31-38 | an aligned word access on both sides makes four steps of the byte copy |
| Mmio.ByteCopyIsOverlay | src/mmio.c:12-21 | without overlap the byte copy is the source laid over the destination |
| Mmio.CopyApart | src/mmio.c:9-49 | between disjoint buffers exactly the source bytes are stored |
| P2aBridge.Bridge.constructor | src/bridge/p2a.c:226-251 | cache and hardware agree and the key is written |
| P2aBridge.Bridge.Map | src/bridge/p2a.c:93-113 | the address is base plus offset, and the cache still agrees with the hardware |
| P2aBridge.Bridge.Read | src/bridge/p2a.c:115-141 | leaves the mapping if and only if the request is not clean; otherwise the buffer gets exactly the bytes from phys on, modulo 2^32 |
| P2aBridge.Bridge.Write | src/bridge/p2a.c:143-169 | the same for stores: exactly these bytes of memory change |
| P2aBridge.Bridge.Readl | src/bridge/p2a.c:171-189 | refuses unaligned addresses, otherwise returns the number that the four bytes stand for, lowest first |
| P2aBridge.Bridge.Writel | src/bridge/p2a.c:191-205 | if the word fits in the window the four bytes stand for that number, lowest first, and no other byte changes |
| P2aBridge.WordsAreBytes | src/bridge/p2a.c:171-205 | a word request is answered with, and stores, the number that the four bytes of a byte request stand for |
| P2aBridge.Bridge.Reinit | src/bridge/p2a.c:309-315 | cache and hardware agree again whatever happened to the hardware |
| P2aBridge.CleanSteps | src/bridge/p2a.c:126-138 | a request is clean if and only if each of its chunks stays in the window |
| P2aBridge.Cursor.Step | src/bridge/p2a.c:126-138 | the do-while loop makes progress chunk by chunk |
| P2aBridge.Bridge.Serve | src/bridge/p2a.c:93-315 | any sequence of reads, writes and reset-then-reinit replies and leaves memory exactly as flat memory would |
| P2aBridge.FlatWriteWithin | src/bridge/p2a.c:143-169 | a flat write that does not wrap is an overlay |
| P2aBridge.PutThenGet | src/bridge/p2a.c:115-205 | what was put is what is got |
| SuperIo.Sio.Lock | src/sio.c:25-28 | a lock write that succeeds leaves the device locked, whatever came before |
| SuperIo.Sio.Unlock | src/sio.c:30-38 | opens the device from any state and keeps the memory behind it, the bridge registers and the selected device; on an open device the key bytes move the index |
| SuperIo.Sio.Select | src/sio.c:40-43 | the logical device is selected |
| SuperIo.Sio.Readb | src/sio.c:111-120 | index then data; an index fault stops it |
| SuperIo.Sio.Writeb | src/sio.c:122-131 | index then data; an index fault stops it |
| SuperIo.PeekAfterPoke | src/bridge/ilpc.c:248-303 | a stored word is loaded back and no other byte changes |
| IlpcBridge.Ilpcb.SetFour | src/bridge/ilpc.c:84-90 | four registers hold the word, and one failure is enough to report |
| IlpcBridge.Ilpcb.Read | src/bridge/ilpc.c:50-114 | success means the buffer holds memory from addr on; memory is unchanged; locked again if the lock write succeeded |
| IlpcBridge.Ilpcb.ReadByte | src/bridge/ilpc.c:84-99 | one turn fetches the byte at the address |
| IlpcBridge.MemSliceAt | src/bridge/ilpc.c:82-104 | the k-th byte read is the one at addr + k |
| IlpcBridge.Ilpcb.Readl | src/bridge/ilpc.c:181-245 | success means the number that the four bytes read at addr stand for, lowest first; locked again |
| IlpcBridge.Ilpcb.Writel | src/bridge/ilpc.c:248-303 | the word is stored exactly if success is reported, and the four bytes then stand for it, lowest first; locked again |
| IlpcBridge.WordsAreBytes | src/bridge/ilpc.c:181-303 | word and byte accesses agree: the word at an address is the number that its four bytes stand for, also after a store |
| SuperIo.PortBytes | src/sio.c:25-43 | the bytes on the ports that unlock, lock, select, enable, store and fetch |
| SuperIo.RegisterNumbers | src/bridge/ilpc.c:86-90 | the bridge's address and value registers as numbers, highest byte in the lowest register |
| IlpcBridge.Ilpcb.StoreThenLoad | src/bridge/ilpc.c:181-303 | readl after writel returns what was written |
| IlpcBridge.Ilpcb.Write | src/bridge/ilpc.c:116-178 | only the byte at addr changes, and it becomes the last one given |
| IlpcBridge.WriteStoresIff | src/bridge/ilpc.c:148-168 | exactly when memory then holds what was given; always for one byte |
| Otp.AddressRoundTrip | src/soc/otp.c:153-161 | each configuration word has its own OTP address, given in numbers |
| Otp.ValueIsParity | src/soc/otp.c:407-416 | the XOR over the options is the parity of the options set |
| Otp.FirstFreeMeans | src/soc/otp.c:407-422 | the option found is free and all before it are used; none found means all are used |
| Otp.UsedAfter | src/soc/otp.c:224-262 | setting one bit uses up one option of the strap it belongs to, and of no other |
| Otp.StrapWriteInNumbers | src/soc/otp.c:373-445 | for the strap with the number given: what changes is its bit in the first of its six words where that was clear, and the exclusive or of the six then has the bit exactly if 1 was asked for |
| Otp.ConfWriteInNumbers | src/soc/otp.c:334-371 | what changes is the bit and the word given, and the bit was clear |
| Otp.StrapTakesValue | src/soc/otp.c:373-445 | a strap write that sets its bit makes the strap equal to val |
| Otp.CallSeenByStrap | src/soc/otp.c:334-445 | per call, a strap changes exactly when an option of it is used up, never while protected |
| Otp.RunSafe | src/soc/otp.c:334-445 | over any run no bit is cleared, protection stays, and a strap changes at most as often as it has options left, at most six times |
| OtpDriver.Driver.Program | src/soc/otp.c:118-132 | sets only bits that are clear in val, of one word |
| OtpDriver.Driver.ReadReg | src/soc/otp.c:134-151 | the word at the address, nothing changed |
| OtpDriver.Driver.ReadConfig | src/soc/otp.c:153-161 | the configuration word of that number |
| OtpDriver.Driver.WriteReg | src/soc/otp.c:163-177 | sets one analog register and no OTP bit |
| OtpDriver.Driver.SetSoak | src/soc/otp.c:179-202 | refuses levels above 2; otherwise voltages and timing are those of the level, and no OTP bit changes |
| OtpDriver.Driver.Again | src/soc/otp.c:245-249 | one retry, at the strong level after an even number of tries and at the normal one after an odd number |
| OtpDriver.Driver.RetriesAlternate | src/soc/otp.c:245-249 | the i-th retry is strong for even i and normal for odd i |
| OtpDriver.Driver.Retry | src/soc/otp.c:238-250 | at most 17 looks, one program command after each that fails, at alternating levels; only the target bit can get set |
| OtpDriver.Driver.Write | src/soc/otp.c:224-262 | only the target bit can get set; exactly when failure is reported, if accesses work; voltages and timing are back at level 0 if accesses work or the last set_soak succeeded |
| OtpDriver.Driver.WriteConf | src/soc/otp.c:334-371 | an allowed change, which is bit 1 << bit of the word given; refuses bad arguments, and bits already set; the controller is locked afterwards if accesses work |
| OtpDriver.Driver.Survey | src/soc/otp.c:407-416 | the loop finds the first free option and the strap's value |
| OtpDriver.Driver.WriteStrap | src/soc/otp.c:373-445 | an allowed change, which is the bit of the strap with that number, in its first free option, giving it the value asked for; bad arguments are refused; if accesses work each other refusal has its code, read off the strap's own words, and the controller is locked afterwards |
| OtpDriver.RefusalInNumbers | src/soc/otp.c:398-428 | which refusal it is, for the strap's number: protected, no option left, or value there already |
| OtpDriver.Driver.Session | src/soc/otp.c:334-445 | any sequence of calls is a run of allowed changes |
| Straps.StrapRegisters | src/soc/strap.c:37-142 | the strap registers of each generation, by number |
| Straps.VerdictInBits | src/soc/strap.c:46-232 | each refusal of a strap operation in bits: unknown register or bits outside the mask, then any protected bit in the mask |
| Straps.SetMeans | src/soc/strap.c:46-189 | for every strap register: the bits are set, others of the register kept outside STRAP3, and no other register changes |
| Straps.ClearMeans | src/soc/strap.c:71-232 | for every strap register: the bits are clear and nothing else changes |
| Straps.Strap.Read | src/soc/strap.c:37-44 | reads exactly the generation's strap registers |
| Straps.Strap.IsProtected | src/soc/strap.c:144-166 | whether any bit of the mask is write-protected |
| Straps.Strap.Set | src/soc/strap.c:27-30 | success means the bits are set, by the generation's own means; each refusal has its code |
| Straps.Strap.Set2400 | src/soc/strap.c:46-67 | by read-modify-write |
| Straps.Strap.Set2500 | src/soc/strap.c:107-115 | by write-1-to-set |
| Straps.Strap.Set2600 | src/soc/strap.c:168-189 | by write-1-to-set unless protected |
| Straps.Strap.Clear | src/soc/strap.c:32-35 | success means the bits are clear and no other bit changed |
| Straps.Strap.Clear2400 | src/soc/strap.c:69-90 | by read-modify-write |
| Straps.Strap.Clear2500 | src/soc/strap.c:117-126 | through the silicon ID register |
| Straps.Strap.Clear2600 | src/soc/strap.c:191-224 | by write-1-to-clear, or read-modify-write for STRAP3 |
| Straps.Strap3KeepsIff | src/soc/strap.c:168-189 | setting bits of STRAP3 keeps the others if and only if no other was set |
| BridgeControl.SioCtl.Configure | src/soc/sioctl.c:34-60 | success means the registers decode to the mode; only the two SuperIO bits can change; succeeds when nothing fails and nothing is protected |
| BridgeControl.SioCtl.Status | src/soc/sioctl.c:62-81 | the mode the registers decode to |
| BridgeControl.Bridges.Configure | src/soc/bridges.c:243-284 | exactly the gate's bit changes; refuses unknown gates |
| BridgeControl.Bridges.Status | src/soc/bridges.c:296-324 | 1 if and only if the gate is open |
| BridgeControl.GateObeys | src/soc/bridges.c:243-324 | a gate is open if and only if it was last enabled |
| BridgeControl.GatesAreApart | src/soc/bridges.c:29-61 | no two gates of a generation share a bit |
| BridgeControl.HicrbSays | src/soc/ilpcctl.c:62-67 | the new HICRB has the bits of the mode and keeps all others |
| BridgeControl.IlpcCtl.Enforce | src/soc/ilpcctl.c:41-201 | once it returns 0 the status is the mode, on all three generations; on any exit only the iLPC bits have changed |
| BridgeControl.IlpcCtl.Enforce2400 | src/soc/ilpcctl.c:41-82 | the same for the AST2400 and AST2500 |
| BridgeControl.IlpcCtl.Enforce2600 | src/soc/ilpcctl.c:150-201 | the same for the AST2600 with its gate |
| BridgeControl.IlpcCtl.Status | src/soc/ilpcctl.c:84-246 | the mode the registers say; disabled exactly for a silent SuperIO, and on the AST2600 a closed gate or the disable bit |
| BridgeControl.IlpcInBits | src/soc/ilpcctl.c:84-246 | that mode on each generation, register by register and bit by bit |
| BridgeControl.ClosedIsDisabled | src/soc/ilpcctl.c:203-246 | closing the gate, or silencing the SuperIO, is enough to disable the bridge |
| BridgeControl.IlpcCtl.GateThenStatus | src/soc/ilpcctl.c:203-246 | once the gate has been closed the status is disabled |
| BridgeControl.IlpcCtl.SilenceThenStatus | src/soc/ilpcctl.c:84-112 | once the SuperIO has been silenced the status is disabled |
| PcieControl.PcieCtl.CollectRegionMask | src/soc/pciectl.c:106-124 | all regions' write-protect bits for MMIO, none otherwise |
| PcieControl.PcieCtl.DeviceEnforce | src/soc/pciectl.c:126-197 | with working accesses exactly the new registers; on any exit only P2A bits have changed |
| PcieControl.PcieCtl.DeviceStatus | src/soc/pciectl.c:199-256 | the mode of one endpoint |
| PcieControl.EnforcedSettles | src/soc/pciectl.c:126-197 | enforcing a mode on one endpoint settles it and unsettles no other |
| PcieControl.AllSettled | src/soc/pciectl.c:312-333 | after the loop every MMIO endpoint is settled |
| PcieControl.EnforceThenStatus | src/soc/pciectl.c:312-364 | after enforcing a mode the status is that mode, for any endpoint list with an MMIO endpoint and any non-zero region mask |
| PcieControl.PcieCtl.Enforce | src/soc/pciectl.c:312-333 | the same for the loop over the registers; on any exit only P2A bits have changed |
| PcieControl.PcieCtl.Status | src/soc/pciectl.c:335-364 | permissive exactly if some MMIO endpoint is, disabled exactly if all are |
| PcieControl.MostOpen | src/soc/pciectl.c:335-364 | the aggregate is the most open mode of the MMIO endpoints, for any endpoint list |
| PcieControl.P2aInBits | src/soc/pciectl.c:199-256 | the status on each generation, register by register and bit by bit |
| PcieControl.EnforcedInBits | src/soc/pciectl.c:126-197 | the registers that enforcing leaves on each generation, bit by bit |
| PcieControl.TablesWork | src/soc/pciectl.c:535-790 | the tables of all generations meet what enforcing needs |
| PcieControl.DebugUartUntouched | src/soc/pciectl.c:163-175 | P2A enforcing leaves the AST2500's debug UART gate, in the same register, as it was |

## Left out

- FlashDriver.FlashChip.FlashErase: on the untileable ranges of a 4K+64K chip, where the loop need not end, it is followed up to the first block that leaves the range; `EraseTiling.ExactIffTileable` says exactly which ranges these are.
- FlashInit.Init: allocation failures are not modelled, and finfo is taken to stay what an earlier flash_init set it to, also after flash_destroy has freed what it points to. The rows with the chip's identifier must describe the chip.
- SmartOutcome.ImageLeft: what a busy chip gives back is one byte for each address. A call reads each granule once before it has waited for the chip, so this leaves nothing out for one call.
- OtpDriver.Controller.Burn: how many of the bits take is left open, whatever the voltages; the two tables of levels are parameters.
- OtpDriver.Driver.WaitComplete: the polling with its 500 ms limit is one step that finishes, times out or fails. The positive error number that an interrupted sleep returns (src/soc/otp.c:107-109), and which the callers take for success, is not an outcome; culvert installs no signal handler that would interrupt it.
- SpiBus.Bus.Fault: no failing access returns the error number that flash_write uses for a miscompare (EREMOTEIO); a bridge that did would look like one.
- P2aBridge.Device.WindowRead: an access beyond the mapped BAR is only recorded; what the process sees then is not modelled. The protection key is stored and not interpreted.
- PcieControl.PcieCtl.Enforce: gate names resolve to valid identifiers; the device tree lookup is not part of this model. "Every access succeeds" is assumed for the status result because the code ignores the result of enabling the gate.
- Flash operations assume that writes to the controller's control register succeed, because sfc_end_cmd prints such a failure and carries on; every other access may fail.
- The manual read in flash_read is unreachable, since sfc installs direct_read and set_4b.
- FL_ERASE_BULK and FL_CAN_4B are the same bit in the source, so one field stands for both.
- The abort strings of list_check_node, and its debug hook in front of every operation.
- XDMA: its enforce is not the inverse of its status.
- The otp_read report, sio_probe's heuristics, ilpcb_mode, l2ab, the debug UART bridge, trace, clk, wdt, vuart, jtag, sdmc and the UART routing: reports, short register writes, or windows whose rounding does not meet its purpose.
- Sockets, ttys, PCI enumeration, mmap and port I/O are replaced by devices whose accesses may fail; sleeping and memory barriers are left out.
- Command-line parsing, logging and progress output.
