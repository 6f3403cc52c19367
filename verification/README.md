# Verification of hwmisc

A Dafny model of five parts of hwmisc, with proofs of what they promise:

1. **The SPI flash programmer** (`NorFlash`, `BmcBus`, `P2a`, `NorFrames`, `Fmc`, `SpiEnv`,
   `SpiWrite`). The chip is an automaton over chip-select frames with a busy countdown, a
   write-enable latch, address modes, 256-byte page wrap and bits that can only be cleared. Its timing
   (`delay`) and what a failed erase or program leaves behind (`fault`) are arbitrary functions,
   so a theorem about a chip covers every timing, and every failure where it does not ask for
   `Correct`. The programmer is proved on top of the windowed accesses of `P2a`, byte by byte on
   the wire. `DoSpiWrite` has the end-to-end statement: exactly when it succeeds, what the array
   then holds, that the verification pass cannot fail on a correct chip, and that every frame
   from the first on keeps the chip's protocol.
2. **The P2A window** (`P2a`, `P2aThreads`). One class-level proof that an access reaches its flat
   address, and one interleaving proof: any number of goroutines, any schedule, any state machine
   behind the window. Linearizability is stated over every moment of every run, with the exact
   condition under which it holds.
3. **PCI topology and AER accounting** (`Pci`, `PciNames`, `PciWorld`, `Aer`, `PciMon`). Errors may
   come in before every single register access. The AER registers are those of sections 7.8.4.2
   and 7.8.4.5 of the PCI Express Base Specification 4.0; the legacy capability list is that of
   section 6.7 of the PCI Local Bus Specification 3.0. The registers log what is read from them, and
   the rule for who is polled fast is a statement about these reads. `MonLinks` has the statement
   for the whole command.
4. **The register monitor and the I2C decoder** (`Monitor`, `I2cDecode`). `DoI2cMon` runs both, and
   `CapturesSampled`, `DmaOnScreen` and `PoolOnScreen` lead from the sampled registers to what is printed
   of a read.
5. **The I2C master and the EEPROM protocol** (`I2cMaster`, `IdtEeprom`). The slave is an arbitrary
   state machine; `Step` states the bus rules of sections 3.1.4, 3.1.6 and 3.1.10 of UM10204.

`Bits` has bytes, words and bitwise operators over the integers, `Outcomes` the ways a call can
end: `Fatal` is `log.Fatalf`, `Panic` a Go run-time panic. Where a method returns `ok`, false
means that the program dies.

Devices, the clock, and the scheduler are parameters or nondeterministic choices. CRC-32 is a
function parameter. The devices' commands, addresses and states are written as numbers, apart from
the constants that the programs use.

## Where the code differs from what one might expect

- `spiWait` declares a second `s` in its loop, so it always returns 0 and the `status != 0` checks
  never fire (ast/spi.go:150-160). The model does the same (`Fmc.Fmc.SpiWait`); the protocol is
  kept all the same, since the loop itself waits.
- A length that is not a multiple of 4 makes `spiXfer` panic with the chip still selected
  (ast/spi.go:70-73); `SpiWrite.BlocksOutcome` says exactly when.
- An access to page 0 through a never-used handle skips the page register (ast/p2a.go:30-37), so
  it reaches its address only if the window is enabled and happens to show page 0
  (`P2a.P2aHandle.SetIndex`, `P2aThreads.PageZeroExact`). `P2aThreads.FlatExactly` has the exact
  condition for whole programs, `P2aThreads.PageZeroMissed` two runs.
- The comment in `EcapInit` speaks of a 16-bit capability identifier, the code keeps 8 bits
  (pci/defs.go:82-85). The model keeps 8: `Pci.Mistaken` is a device where that goes wrong,
  `Pci.TruncationExact` the exact condition.
- `Tx` drops the error of the read phase's address byte (ast/i2c.go:52), and then reads from a bus
  nobody answers on: the one way it can break the bus protocol (`I2cMaster.TxOnTheBus`).
- The decoder prints the right byte of a DMA read exactly for buffers that start at a multiple
  of 4 (`I2cDecode.RightByte`), and stops the program at every 32nd byte (`I2cDecode.DmaByte`).
  A pool read with receive pointer 0 makes the capture panic (`I2cDecode.PoolByte`).
  `I2cDecode.DmaExactly` and `I2cDecode.PoolReadPrinted` have the exact conditions for whole reads.
- `-noop` cannot show what a flash write would do: no frame reaches the chip, identifier and status
  are the same bytes of the window, and no known identifier passes as a status
  (`Fmc.SameByteRefused`), so the command always gives up (`SpiWrite.DoSpiWrite`).
- Two devices with the same bus and function number, as in two PCI domains, can get the same
  nickname and path (`PciNames.TwoDomainsClash`); `PciNames.NamesExactly` says exactly when.
- An environment with an empty line, or a NUL, cannot be read back (`SpiEnv.RoundTrip`).

## Model

| member | source | states |
|---|---|---|
| SpiWrite.DoSpiWrite | cmds/ast/ast.go:51-91 | `len` bytes are asked for: the length given, or the whole file for one of 0 or less. On a correct chip and an image inside it: succeeds iff writes are enabled, the chip is recognised, the environment fits, `len` is at most the file's length and a multiple of 4, and the offset a multiple of the block size; then the array holds the first `len` bytes of the prepared image, old or erased bytes up to the next block boundary, and nothing else changed; a panic changes nothing outside the image's range; the verification pass never fails. On any chip: success means the image is there, giving up before the verification means the array is unchanged, an idle chip sees only safe frames from the very first on, and a busy one is refused; a run with NoWrite changes nothing on the BMC and never succeeds |
| SpiWrite.WriteImage | cmds/ast/ast.go:66-90 | block loop and verification: for arbitrary faults success means the image is there; for a correct chip the exact outcome, never a failed comparison; misalignment is refused without touching the chip |
| SpiWrite.WriteBlocks | cmds/ast/ast.go:69-85 | the block loop gives the reference result, or stops exactly for a length that is not a multiple of 4 with nothing changed outside the image's range |
| SpiWrite.WriteBlock | cmds/ast/ast.go:70-84 | one block: skipped if it already reads so, else data followed by erased bytes; the chip is at rest with its latch clear before and after |
| SpiWrite.FlashAt | cmds/ast/ast.go:69-85 | what the block-by-block reference leaves: the image in place, nothing changed outside the touched blocks, the last block's tail all old or all 0xFF |
| SpiWrite.EraseThenWrite | ast/spi.go:170-195 | erase followed by AND-programming stores the data and leaves the rest of the block erased |
| SpiWrite.TouchedFits | cmds/ast/ast.go:69-75 | the blocks an in-range image touches exist |
| SpiWrite.TouchedAligned | cmds/ast/ast.go:69-75 | they end at a block boundary |
| SpiWrite.PrepareImage | cmds/ast/ast.go:51-58 | the prepared image differs from the file only in the environment sector (64 KiB from 0x1fc0000 in 32 MiB, or all of 64 KiB), and that is known byte by byte; made iff the sector exists, is erased and large enough |
| SpiEnv.SpiMakeEnv | cmds/ast/ast.go:20-49 | in place: the sector is the 64 KiB from 0x1fc0000 of a 32 MiB image, or all of a 64 KiB one; fails iff the image is of another length or the sector not erased, panics iff the text is too long, writes nothing outside the sector, and leaves it byte by byte: checksum with the least significant byte first, flag, text with NULs for newlines, two NULs, erased bytes |
| SpiEnv.SectorReads | cmds/ast/ast.go:35-48 | a finished sector read back: the stored checksum matches, and the strings are the lines iff no line is empty or holds a NUL |
| SpiEnv.RoundTrip | cmds/ast/ast.go:35-46 | reading NUL-terminated strings up to the empty one gives back the newline split iff the lines are readable, whatever follows |
| SpiEnv.SplitJoins | cmds/ast/ast.go:29 | splitting at newlines loses nothing, and no piece holds one |
| SpiEnv.EncodeLength | cmds/ast/ast.go:35-46 | the text area is two bytes longer than the environment |
| SpiEnv.EncodeBytes | cmds/ast/ast.go:35-46 | the text area byte by byte: NUL for newline (10), every other byte as it is, two NULs |
| Fmc.FmcNew | ast/spi.go:225-269 | opens iff writes are enabled and the chip is idle, known, without unexpected status bits and in (or switchable to) the controller's address mode; then it is at rest, and chip and controller are in the mode asked for (control register 0x701 or 0x700), or in the one they were in if none was; whatever happens only mode, latch, countdown and log of the chip change, and an idle one sees only safe frames; with NoWrite the BMC is unchanged |
| Fmc.Fmc.Write | ast/spi.go:179-195 | any offset and buffer: the program frames logged are exactly the page chunks; on a correct chip every byte of the range becomes old AND new and no other changes |
| Fmc.Fmc.ProgramPage | ast/spi.go:186-191 | one program frame with the latch set, wrap included, then idle with the latch clear |
| Fmc.Fmc.EraseBlock | ast/spi.go:170-177 | erases exactly the addressed block (or what the fault leaves), with safe frames only, and never reports failure |
| Fmc.Fmc.SpiWait | ast/spi.go:150-160 | only status frames until the chip is idle; the returned value is always 0 |
| Fmc.Fmc.SpiRead | ast/spi.go:114-116 | the array's bytes from the offset on, wrapping; panics iff the length is not a multiple of 4 or beyond the window; changes nothing |
| Fmc.Fmc.SpiXferAddr | ast/spi.go:78-97 | one frame that carries command, address, extra bytes and reads in order; the error cases of address size and range |
| Fmc.Fmc.SpiXfer | ast/spi.go:53-76 | exactly one chip-select frame for every length modulo 4; the buffer is the chip's reply in order; or a panic with the chip untouched; the fast clock is selected for the two read commands alone; with NoWrite nothing changes, and the buffer is what the controller shows in the window |
| Fmc.Fmc.Receive | ast/spi.go:70-73 | the read loop: fills the buffer in order, from the chip or, with NoWrite, from what the window shows; panics exactly for partial words or past the window |
| Fmc.Fmc.SpiStatus | ast/spi.go:118-121 | the status byte; the poll counts the operation down; with NoWrite the window's first byte |
| Fmc.Fmc.SpiId | ast/spi.go:145-148 | the identifier, or all ones while busy; with NoWrite its first byte is the window's |
| Fmc.Fmc.Is4BMode | ast/spi.go:205-223 | each part's own register and bit tell the chip's address mode |
| Fmc.Fmc.SetMode | ast/spi.go:247-258 | switches chip and controller to 4-byte addressing for mode 4 and to 3-byte addressing for mode 3; the exact error condition |
| Fmc.Fmc.Identify | ast/spi.go:233-246 | passes iff writes are enabled and the chip is idle, known and without unexpected bits; the latch is then clear |
| Fmc.StatusBits | ast/spi.go:240-246 | masking the status byte isolates busy, latch and the unexpected bits |
| Fmc.SameByteRefused | ast/spi.go:233-242 | no known identifier starts with a byte that passes as the status: why a run with NoWrite, which reads both from the same place, cannot open the flash |
| Fmc.WordRead | ast/spi.go:70-73 | one 32-bit window read is the chip's next four bytes in order |
| NorFlash.ChunksCover | ast/spi.go:179-195 | the page chunks together are the buffer |
| NorFlash.ChunkPlaced | ast/spi.go:182-194 | each chunk starts where the ones before end, and none crosses a 256-byte page |
| NorFlash.ClockReplies | ast/spi.go:70-73 | each byte read is the chip's reply to exactly the bytes before it |
| NorFrames.HeaderDecodes | ast/spi.go:78-97 | the chip decodes the header's command and address, 3- and 4-byte forms |
| NorFrames.FrameCarries | ast/spi.go:78-97 | a frame decodes back to command, address, extra bytes and reads |
| NorFrames.ReadFrame | ast/spi.go:114-116 | a fast-read frame returns the array and changes nothing |
| NorFrames.EraseFrame | ast/spi.go:170-172 | an erase frame erases the addressed block |
| NorFrames.ProgramFrame | ast/spi.go:186-187 | a program frame programs the bytes sent |
| NorFrames.ProgramsInPage | ast/spi.go:182-187 | programming inside one page ANDs in place and touches nothing else |
| NorFrames.ConfigFrame | ast/spi.go:205-223 | the mode bit of a configuration register is the address mode |
| P2a.P2aHandle.SetIndex | ast/p2a.go:30-37 | keeps the cache coherent; afterwards the window shows the offset's page iff the page is not 0, the cache was filled, or it showed page 0 already |
| P2a.AstMem.Read32 | ast/p2a.go:39-55 | one access at the flat address; where it goes when the page-0 exception applies; out of bounds |
| P2a.AstMem.Read8 | ast/p2a.go:57-73 | the same for a byte |
| P2a.AstMem.Write32 | ast/p2a.go:75-92 | one write at the flat address, none with NoWrite; the exceptions as for reads |
| P2a.AstMem.Write8 | ast/p2a.go:94-111 | the same for a byte |
| P2a.WindowIsFlat | ast/p2a.go:30-49 | selected page and low 16 bits make up the flat address |
| P2aThreads.Linearizable | ast/p2a.go:30-111 | unless a goroutine begins in page 0 while the window shows another page: at any moment of any interleaving the accesses made form one sequential run of the flat memory; a returned call stands in it with its value; calls that do not overlap keep their order |
| P2aThreads.GoodRun | ast/p2a.go:30-111 | every step keeps mutual exclusion, cache coherence, flatness, program order and timing |
| P2aThreads.CachedNext | ast/p2a.go:30-37 | the cached page is empty or true, except between the lock holder's two writes |
| P2aThreads.FlatNext | ast/p2a.go:44-49 | every step keeps the bus trace a run of the flat memory |
| P2aThreads.FlatExactly | ast/p2a.go:30-111 | the exact condition, over all memories and schedules: every interleaving is a run of the flat memory iff the window shows page 0 from the start or no goroutine's first access that is made goes to page 0 |
| P2aThreads.DryRun | ast/p2a.go:75-111 | with NoWrite, over every schedule and wherever the window points, the memory stays as it was, and no write of a word or byte returns anything |
| P2aThreads.WetRun | ast/p2a.go:75-111 | without it every access, writes of bytes as of words, reaches the memory with its own effect and result |
| P2aThreads.ByteWritten | ast/p2a.go:94-111 | a goroutine that runs alone gets its byte written in seven steps, or dropped with NoWrite |
| P2aThreads.PageZeroExact | ast/p2a.go:30-37 | one access to page 0 with an empty cache: no register is written, and the window is right iff it is enabled and shows page 0 already |
| P2aThreads.PageZeroMissed | ast/p2a.go:30-37 | the failing runs: window on another page, and window disabled, each for a first access to page 0 |
| Aer.ConservedPolled | cmds/pcimon/pcimon.go:46-58 | counting exactly the bits then cleared conserves events, with errors arriving between read and write |
| Aer.ConservedGrew | cmds/pcimon/pcimon.go:44-76 | arriving errors keep the balance |
| Aer.CountBits | cmds/pcimon/pcimon.go:51-58 | the shift loop adds each pending bit to its own counter, and their number to the sum |
| PciMon.ErrPoll | cmds/pcimon/pcimon.go:44-76 | per bit: counted + pending = initial + 0-to-1 transitions; masked bits are never counted; everything pending and unmasked is counted; each register is read exactly once; errs is the sum of both arrays, and grows iff what was read shows an unmasked error |
| PciMon.SlowPoll | cmds/pcimon/pcimon.go:157-166 | polls every link exactly once, both ends; all accounts stay in balance; a link is listed iff this poll read an error or it was remembered, and is remembered iff this poll read one |
| PciMon.FastPoll | cmds/pcimon/pcimon.go:170-181 | polls each listed link exactly `rounds` times and every other link not at all; all accounts stay in balance; errors found are added and remembered, and nothing is forgotten |
| PciMon.Iterate | cmds/pcimon/pcimon.go:151-191 | one iteration: a link is polled once, and `rounds` times more iff its slow poll read an error or it was remembered; it is remembered iff one of these polls read an error; the total grows by the errors counted |
| PciMon.MonLoop | cmds/pcimon/pcimon.go:151-191 | over any number of iterations: the total is the sum of all counters, no event of any link is lost, and the number of reads of every link's registers is exactly what the fast-poll rule gives for the errors those reads showed |
| PciMon.StaysOnTrack | cmds/pcimon/pcimon.go:151-191 | one iteration keeps a link's number of polls what the rule says, and the remembered flag true: an error in either phase of the last iteration |
| PciMon.QuietLink | cmds/pcimon/pcimon.go:151-191 | by the rule, a link without errors is polled once an iteration |
| PciMon.NoisyLink | cmds/pcimon/pcimon.go:151-191 | and one that always shows errors is polled fast in every iteration |
| PciMon.MonLinks | cmds/pcimon/pcimon.go:138-201 | the whole command: the links are, in order, those of exactly the ports with a link child where both have an AER capability, except 1022:1484; for each, counted + pending = state at entry + errors that arrived, what was pending and unmasked at entry is counted after the first poll, both ends are polled equally often, and as often as the fast-poll rule says; the total is the sum of the counters |
| PciMon.ShowLinks | cmds/pcimon/pcimon.go:105-136 | wrapped, in order, are exactly the ports with a link child that has an AER capability, which have one themselves and are not 1022:1484, or, unless only error reporting counts, are 1022:1483; no two records share a device or its registers; nothing is counted yet |
| PciMon.AddsSeats | cmds/pcimon/pcimon.go:129-132 | one more link keeps the records apart: none shares a device or registers with another |
| PciMon.IsForest | pci/defs.go:227-237 | in a linked world a link child is no port, and no two ports share one |
| PciMon.PortsApart | pci/defs.go:227-237 | ports do not share a child, and a child is never a port |
| PciMon.PicksAre | cmds/pcimon/pcimon.go:107-133 | the picked places are the marked ones, in order |
| PciMon.MarksMean | cmds/pcimon/pcimon.go:112-113 | the picked ports in terms of their capabilities, vendor and device |
| Pci.PciDev.EcapInit | pci/defs.go:72-89 | the map of the whole extended chain, identifiers cut to 8 bits as in the code |
| Pci.PciDev.CapInit | pci/defs.go:91-107 | the map of the whole legacy chain, empty without the status bit |
| Pci.EcapBytes | pci/defs.go:77-88 | an extended stop in bytes: identifier, next offset, end of the list |
| Pci.CapBytes | pci/defs.go:98-106 | a legacy stop in bytes |
| Pci.FoundIsLast | pci/defs.go:77-106 | an identifier's entry is its last stop, and there are no others |
| Pci.TruncationExact | pci/defs.go:77-88 | looking an identifier up by the 8 bits kept finds what its 16 bits would find iff the last stop with that low byte has a zero high byte |
| Pci.Mistaken | pci/defs.go:77-88 | the failing configuration: capability 0x101 at 0x100 is taken for an AER capability |
| Pci.LookupsAgree | pci/defs.go:77-106 | when a coarser way to identify the stops of a chain finds the same as a finer one, for any two ways |
| PciWorld.World.AddDev | pci/defs.go:115-152 | the device is configured, link capability width and speed included, and listed iff its first four bytes are not all 0xff; a bridge (header type 1, multifunction or not) is entered for the bus at 0x19; all fields in bytes of configuration space; the bus table stays true |
| PciWorld.LinkAll | pci/defs.go:227-237 | every parent is the bus's bridge, and every link child is the one function 0 behind its port |
| PciWorld.OneChild | pci/defs.go:233-236 | a port has at most one link child |
| PciWorld.InitNickName | pci/defs.go:154-212 | nickname, path and counters of one device, all cases |
| PciWorld.TreeOrdered | pci/defs.go:226-237 | sorted names and sane bus numbers put parents before children and function 0 before its siblings |
| PciWorld.PciInit | pci/defs.go:223-247 | nicknames, paths and counters are those of the naming function over the linked tree; so all nicknames and all paths are pairwise different, and every path continues its parent's final path; parents and links by type, function and bus, and what each kind of device is called after, in plain words |
| PciWorld.LinksMean | pci/defs.go:227-237 | the other end of a root or downstream port is exactly the endpoint or upstream port that is function 0 of its bus |
| PciWorld.AllCalled | pci/defs.go:157-186 | the stem of a nickname by device type, vendor, class and function |
| PciNames.SortIsNumeric | pci/defs.go:226 | the string order of the fixed-width hexadecimal names is the numeric order |
| PciNames.RenderInjective | pci/defs.go:154-212 | no two different ways to name make the same nickname |
| PciNames.NicknamesDistinct | pci/defs.go:154-212 | no two devices of an ordered tree without such a pair get the same nickname |
| PciNames.PathsDistinct | pci/defs.go:187-211 | nor the same path |
| PciNames.PathsFollowChain | pci/defs.go:187-211 | every path is the concatenation along the chain of parents |
| PciNames.SampleNamed | pci/defs.go:154-212 | a tree with a device for each way to name, its nicknames and paths spelled out |
| PciNames.NamesExactly | pci/defs.go:154-212 | in an ordered tree with one bridge per bus, all nicknames are different, and all paths are, iff no two devices at one place are both unnamed and not downstream ports |
| PciNames.ClashShares | pci/defs.go:154-212 | two such devices do get the same nickname and the same path |
| PciNames.TwoDomainsClash | pci/defs.go:149 | such a pair: the same unnamed function in two domains |
| Monitor.MonLoopFun | pmem/monitor.go:39-72 | any number of iterations, or until the hook or the batch function stops the program: every change is stamped with the clock of the iteration that made it, goes from the sample before to the present one in all 32 bits, and stands in the loop's order; per register the recorded values are exactly the stutter-free samples; delays add up to the last time modulo 2^32; the hook saw every change as it was recorded and let the program live until the last; a batch goes out at the end of exactly those iterations in which the changes since the batch before are due, and is these changes; the loop ends only where it is stopped |
| Monitor.SampleMon | pmem/monitor.go:49-60 | a change is recorded iff the masked value differs from the last sample; the sample is remembered unless the hook stops the program |
| Monitor.SeenBits | pmem/monitor.go:50 | two values are the same to the monitor iff they agree in every bit outside the mask |
| Monitor.SendDue | pmem/monitor.go:64-69 | the end of an iteration keeps the batches those that were due, at the first iteration they were |
| Monitor.InNumbers | pmem/monitor.go:63-68 | after every iteration fewer than 200 changes are pending, the oldest less than 5,000,000 ticks old |
| Monitor.DelaysAddUp | pmem/monitor.go:51-53 | 32-bit delays add up to the time of the last change, wrapping included |
| Monitor.Recorded | pmem/monitor.go:50-60 | recording a sample that differs keeps the record stutter-free, complete and chained |
| Monitor.NotRecorded | pmem/monitor.go:50-60 | so does not recording a first sample, or one that does not differ |
| I2cDecode.DmaReadPrinted | cmds/ast/ast.go:121-195 | a DMA read of at most 31 bytes into a 4-aligned buffer prints the DRAM bytes in order and nothing else |
| I2cDecode.DmaExactly | cmds/ast/ast.go:121-195 | a DMA read is printed as it should be, whatever the DRAM holds, iff its buffer is 4-aligned and in the DRAM, and it gets no more bytes than the buffer holds and at most 31 (or none) |
| I2cDecode.DmaRead | cmds/ast/ast.go:121-195 | any DMA read: printed in full iff its bytes can be fetched and are at most 31, and which bytes are printed then |
| I2cDecode.PoolReadPrinted | cmds/ast/ast.go:121-175 | a pool read is printed in full iff no receive pointer is a multiple of 32, and then it is the bytes before the pointers, in order |
| I2cDecode.Resumes | cmds/ast/ast.go:154-195 | decoding captures `a + b` is decoding `a`, then `b` from the memory `a` left |
| I2cDecode.DmaSegment | cmds/ast/ast.go:121-195 | wherever in a bus's captures a DMA read takes place, exactly its DRAM bytes are printed for it |
| I2cDecode.PoolSegment | cmds/ast/ast.go:121-175 | the same for pool reads |
| I2cDecode.CapturesSampled | pmem/monitor.go:49-60 | every capture of a bus is of a sample of its command register, all bits included, with its iteration |
| I2cDecode.DmaOnScreen | cmds/ast/ast.go:121-195 | in a whole run: among what is printed of a bus stand the bytes of every DMA read that fits and begins right behind a capture in which no byte is sent or received (or is the bus's first), given by state fields and command bits alone, however the busses interleave |
| I2cDecode.PoolOnScreen | cmds/ast/ast.go:121-175 | the same for pool reads |
| I2cDecode.OthersOnScreen | cmds/ast/ast.go:121-152 | what is printed of every other capture: the byte sent, a line end, the raw change, or nothing, by state field and command bits |
| I2cDecode.QuietEnds | cmds/ast/ast.go:191-192 | a capture in any other state ends a read, so the next one begins afresh |
| I2cDecode.ReadRegisters | cmds/ast/ast.go:158-175 | buffer address, length and receive pointer in bytes of the bus's register block |
| I2cDecode.StateChanges | cmds/ast/ast.go:233 | with the mask of the command, a change is recorded iff the state field differs |
| I2cDecode.RightByte | cmds/ast/ast.go:142-183 | the byte printed is the right one iff the buffer is 4-aligned |
| I2cDecode.DmaByte | cmds/ast/ast.go:134-184 | an acknowledged byte is captured and printed, but every 32nd stops the program |
| I2cDecode.PoolByte | cmds/ast/ast.go:134-175 | a pool read prints the byte before the receive pointer; the capture panics iff the pointer is 0, and the printing stops at other multiples of 32 |
| I2cDecode.BussesIndependent | cmds/ast/ast.go:121-195 | however captures interleave, each bus is decoded from exactly its own |
| I2cDecode.BatchesPrinted | cmds/ast/ast.go:121-152 | printing batch by batch prints the same as all at once |
| I2cDecode.I2cSmart | cmds/ast/ast.go:121-152 | the printing loop shows every change up to the first that stops the program |
| I2cDecode.ChokesExactly | cmds/ast/ast.go:142-144 | the printing of a batch stops the program iff one of its changes does |
| I2cDecode.PrintBatches | cmds/ast/ast.go:248-249 | over all batches, the printing is that of all their changes together, up to where it stops |
| I2cDecode.DoI2cMon | cmds/ast/ast.go:210-254 | the whole command, any number of iterations or until it is stopped: every change is what the registers and the clock say, none is missing; after every captured change each bus has been decoded from exactly its own; batches are printed exactly when due, up to the first change whose printing stops the program; if a capture stops it, that is the last change, and exactly the batches sent before are printed; it ends only where it is stopped |
| I2cMaster.I2cBus.Tx | ast/i2c.go:28-60 | for every slave, address, data and reply: dies iff there is nothing to do and checks are on; otherwise slaves, events, error and data are those of the reference transaction, and the controller is idle with zero status again |
| I2cMaster.TxOnTheBus | ast/i2c.go:28-60 | the reference transaction against the bus rules: legal iff a read's address is acknowledged, error iff the last event before stop is a refused byte, the bytes on the wire and the bytes returned; the first byte is twice the 7-bit address, plus one if nothing is written |
| I2cMaster.I2cBus.StartBus | ast/i2c.go:101-113 | when a (repeated) start is allowed, and its effect |
| I2cMaster.I2cBus.TxByte | ast/i2c.go:115-136 | when a byte may be sent, its effect, and the error iff it was refused |
| I2cMaster.I2cBus.RxByte | ast/i2c.go:138-161 | the byte received; only the last is not acknowledged |
| I2cMaster.I2cBus.StopBus | ast/i2c.go:163-175 | stop, and the controller is quiet |
| I2cMaster.ActiveStates | ast/i2c.go:140 | the masked state test ignores exactly the data line |
| I2cMaster.ReadPhaseShape | ast/i2c.go:48-56 | a read phase is legal iff its address is acknowledged; only its last byte is refused |
| IdtEeprom.EeRead | cmds/asti2c/asti2c.go:22-40 | reads the byte iff the reply is refused at most once; the EEPROM is unchanged |
| IdtEeprom.EeWrite | cmds/asti2c/asti2c.go:42-48 | stores the byte at the address modulo 65536 |
| IdtEeprom.IdtRead | cmds/asti2c/asti2c.go:101-107 | the first 1024 bytes, iff no reply is refused twice |
| IdtEeprom.IdtWrite | cmds/asti2c/asti2c.go:109-113 | all bytes written in order |
| IdtEeprom.WriteThenRead | cmds/asti2c/asti2c.go:101-113 | written bytes on the common prefix and old contents elsewhere for up to 65536 bytes; beyond, the last byte for an address wins |
| IdtEeprom.BurnedAt | cmds/asti2c/asti2c.go:42-44 | what wrapped addresses leave in each cell |
| IdtEeprom.ReplyTx | cmds/asti2c/asti2c.go:28-33 | a refused and an answered read transfer, through the bus |

## Left out

- Timeouts, sleeps and clock sources: polls are bounded by arbitrary countdowns instead. The 10 s
  and 1 s `log.Fatalf` of `spiWait` and `Wait` cannot happen in the model.
- Progress output, statistics and register printing; reading and writing files; command lines.
- `/dev/mem`, configuration-space files and the PCI scan: regions and configuration space are
  functions or classes with the same reads and writes.
- CRC-32 itself: a function parameter.
- `sort.Slice`: the list is required to be sorted.
- The `armv6l` path of `Map`, which does not go through the window, and the lazy mapping of the BAR.
- P2a.AstMem.Read32: an access that straddles a 64 KiB page is not modelled, since it leaves the
  window and what lies behind it depends on the size of the mapping.
- P2a.AstMem.Write32: likewise.
- `AstStop` and `AstRestart`: `FmcNew` requires that the chip is deselected when it starts.
- Chip features the programmer does not use: block protection, suspend, the status-register write,
  a page size other than 256 bytes, a write-enable before the address-mode commands.
- SpiWrite.DoSpiWrite: the offset is not negative; for an image that does not fit the part, only
  the safety of the frames and the success and early-failure clauses are stated.
- Fmc.FmcNew: the window's handle is required to be coherent, and what the window shows while the
  chip is not selected is arbitrary but does not change.
- P2aThreads.Linearizable: the start must be `Warm`; FlatExactly proves that nothing less will do.
- PciWorld.PciInit: one domain, one device per bus and function, bus numbers that grow away from
  the root and a parent for every downstream port are required.
- Pci.PciDev.EcapInit: capability chains are required to end, since the walk has no guard.
- PciMon.ErrPoll: counters are unbounded, and the error arrays are sequences that are replaced.
- I2cDecode.ExtraStep: the capture hook is a function handed to the monitor loop, so a bus's memory
  is a value that each capture replaces; its update in place through the monitor is not captured.
- The live link speed (`GetSpeed`), `errBrowse` and the comparison printed by `showLinks`.
- Monitor.MonLoopFun: the endless loop is cut off after any number of iterations; of `batchfn` the loop
  knows only whether it stops the program.
- The slave devices of `IdtEeprom` and the refusals they may make are assumptions about the
  switch; `idt_reg`, `idtInfo` and the multiplexer are not modelled.
- `I2cDev`'s controller reset: `Tx` starts from a quiet controller.
- `elfcore`, `lmesg`, `fru`, `kpoke`, `hwinfo`, `msr` and the register tables: readers and printers of
  other data (core dumps, kernel log, inventory EEPROM, registers) that share no state with the above.
