# Verified model of the 8258 drivers

A Dafny model of the driver code under `firmware/drivers/8258` of the mesh firmware, with proofs of what that code
is relied on for. `dafny verify dfyconfig.toml` checks everything.

## The system

**Flash.** The mesh stack keeps settings in NOR flash. At the top, `flash_mesh_extend.c` builds three kinds of cells on
flash words that can only lose bits until their 4 KB sector is erased: a *value cell* (one 32-bit variable per sector), a
*write-limited cell* (num words, never erased) and a *record cell* (records of several words). A new value is written
by programming a marker over the old word and putting the new one into the next blank slot. Below them,
`flash_write_data` and `flash_write_page` split writes at 256-byte pages behind an address guard that protects the
booted firmware, and the MSPI layer turns each chunk into bytes on the wire.

The model has all layers. `NorChip` is the device: an automaton over wire events with a write-enable latch, programs
that AND and wrap inside a page, sector erases, and a log of what it carried out. `FlashDriver` (class `Flash`) and
`MeshExtend` are the imperative code, each method proved to emit a given byte stream and to make the automaton carry out
a given list of commands. `Cells`, `ValueCell`, `LimitedCell` and `RecordCell` are the cell protocols over words;
`CellsOnChip` carries their theorems down to the chip's bytes; `RecordLengths` says which record lengths work;
`FirmwareArea` is about the guard.

**UART.** `Uart` is the baud-rate search of `uart.c`: a quotient moved off (supposed) primes, a scan of 13 bit widths
by first decimals, a three-way choice and the register packing. `Primes` is its trial division.

**Generators.** `Random` is the multiply-with-carry pair behind `rand`, `Whitener` the feedback register that folds ADC
noise into seeds, `Prbs9` the radio test payload (section 4.1.5 of Vol 6 Part F of the Bluetooth Core Specification).

**Numeric loops.** `Calibration` is the bisection of `rc_48m_cal` against an arbitrary count function, `Adc` the
insertion sort, trimmed mean and scaling of `adc_sample_and_get_result`.

**I2C.** `I2c` reads the command-register programs of `i2c.c` as bus transcripts (section 3.1.10 of NXP UM10204; the
acknowledge rule is its section 3.1.6) against an auto-increment memory slave with the timing documented in
`firmware/drivers/8258/i2c.h:48-64`.

`Arith` and `Bytes` hold the words, and the number and byte facts, that the others share.

## Main results

- Over every run of writes, reads and resets the value cell is a plain variable, down to the bytes of the chip
  (`ValueCell.RunRefinesVariable`, `CellsOnChip.ValueCellOnChip`); no older word ever comes back
  (`ValueCell.NoOlderWordReturns`); it wears its sector by exactly (n - 1) / 1024 erases
  (`CellsOnChip.ExactWearOnChip`).
- The write-limited and the record cell refine their variables over the same runs (`LimitedCell.RunRefines`,
  `RecordCell.RunRefines`, `CellsOnChip.LimitedCellOnChip`, `CellsOnChip.RecordCellOnChip`), and the first K records
  read back on the chip (`CellsOnChip.FirstRecordsOnChip`).
- The byte stream of a page or data write is one linear write (`FlashDriver.PageStreamRefinesLinearWrite`,
  `MeshExtend.WriteDataRefinesLinearWrite`).
- Which ranges the address guard accepts, and which driver calls leave the firmware alone, is characterised exactly, and
  runs of those do (`FlashDriver.AcceptsExactly`, `FirmwareArea.WriteHarmlessExactly`,
  `FirmwareArea.EraseHarmlessExactly`, `FirmwareArea.RunKeepsFirmware`).
- The baud-rate search meets its error bound exactly from a quotient of 3 on (`Uart.AccurateExactly`), the registers
  exactly if the divider also fits its field (`Uart.RegistersAccurateExactly`), and the choice is nearest among the
  widths (`Uart.ChoiceIsNearest`, `Uart.ChosenExactly`) for the quotient it starts from
  (`Uart.SearchQuotientRounds`).
- `rand` is modular multiplication in disguise (`Random.RandStatesArePowers`); the whitener loses nothing
  (`Whitener.EveryResultOnce`, `Whitener.RunIsBijective`); the periods of the PRBS9 payload are exactly the multiples of
  511 (`Prbs9.PeriodExactly`).
- The seven comparisons of the calibration are as good as 127 (`Calibration.SearchIsExhaustive`); the trimmed mean
  is that of the middle four (`Adc.MeanOfMiddleFour`) and withstands two wild samples (`Adc.MeanIsRobust`); I2C series
  writes and reads are inverse (`I2c.RoundTrip`), except in mapping mode (`I2c.MappedExchange`).

## Where the code does not do what one would expect

Each of these is proved with the exact condition, in an equivalence over all inputs, unless said otherwise.

- The guard adds `addr + len` in 32 bits. Accepted ranges keep to the addresses it promises exactly when that sum does
  not wrap (`FirmwareArea.GuardSoundExactly`), and a write is harmless to the firmware exactly when it is refused or none
  of its bytes ends up there (`FirmwareArea.WriteHarmlessExactly`, `FirmwareArea.WriteDataHarmlessExactly`; a failing
  write is `FirmwareArea.WrappedWriteReachesFirmware`).
- Two erase addresses are harmful (`FirmwareArea.EraseHarmlessExactly`): boot + 8, admitted by the clause meant for
  writing the OTA flag, which takes the first sector of the firmware with it; and 0xFFFFFFFF, whose sum wraps, if the
  firmware reaches the last sector of the chip.
- `IsPrime` leaves its loop at `i * i == n`. Apart from 0 and 1 its mistakes are exactly the squares of primes congruent
  to 5 mod 6 (`Primes.MistakenExactly`), 25 being the least (`Primes.TwentyFiveIsSaidPrime`). The comment "+1 must be
  not prime" still holds from 3 on (`Primes.AdjustedIsComposite`).
- Below a clock-to-baud quotient of 3 the search wraps its divider to 2^32 - 1 (`Uart.AccurateExactly`). For large
  quotients the divider is cut to the 15 bits of its field without notice, and the baud rate is then wrong; how large
  depends on the width chosen (`Uart.RegistersAccurateExactly`). 110 baud at 48 MHz is such a case
  (`Uart.SlowBaudIsCut`).
- A value without the marker's bits can be replaced only in slot 1023, which is erased, or if the marker happens to turn
  it into the new value (`ValueCell.ReplaceableExactly`).
- The record cell never erases a full sector: its erase branch repeats a condition the loop has just excluded
  (shown in the body of `MeshExtend.FlashWriteLongVal`). Records past K = 1023 / d are lost
  (`RecordCell.ReadBackExactly`), and write K + 1 runs into the next sector unless d divides 1024 or the guard refuses
  that part (`RecordCell.OverflowExactly`, `CellsOnChip.OverflowOnChip`). The next read then frees the sector only if
  K * d >= 1000 (`RecordCell.ReaderRecoversExactly`); otherwise the cell stays full for good (`RecordCell.StaysFull`).
- A reset can tear a record in two unless d divides 64 (`RecordCell.TornExactly`): records that cross a flash page are
  programmed by two commands, and the reader accepts the first half.
- Record lengths that are not a multiple of 4 do not work: the writer rounds len / 4 down and the reader rounds it up,
  so already the second record can be lost (`RecordLengths.LengthsExactly`).
- `rc_48m_cal` compares even trims only, and stores trim 0 exactly if none of them comes within 100 counts
  (`Calibration.SearchIsExhaustive`, for monotone counts). Steps of up to 99 counts are safe and steps of 100 are not
  (`Calibration.AccurateExactly`, `Calibration.StepCountDefeats`).

## What the model takes as given

- `FW_SIZE_MAX_K` and the boot-address register are parameters; the size is a multiple of 4, as
  `firmware/vendor/common/mesh_ota.c:42` asserts at build time.
- The chip is 1 MB and ready whenever it is polled. The oscillator is any function from trims to 11-bit counts, the ADC
  any eight or sixteen words, the seeds of `rand` any two words.
- An I2C slave in mapping mode takes writes at the start of its buffer and answers reads from 64 bytes on, as
  `firmware/drivers/8258/i2c.h:60` says; a slave with address bytes has one pointer, which wraps at the end of its memory.
- A cell lies on the chip, and for the theorems on the chip its range passes the guard and a sector cell is aligned.
  Stored words are neither blank nor the marker and contain the marker's bits. The theorems about the record cell are
  about the record lengths that work, the positive multiples of 4.
- `10 * sysclk` fits 32 bits, which keeps the quotient far below the 65531^2 up to which trial division is exact.

## Model

| member | source | states |
|---|---|---|
| `NorChip.WrapProgramIsLinear` | firmware/drivers/8258/flash.c:370-380 | A program that fits between its start and the end of its 256-byte page is, byte for byte, a linear AND of the data into memory; the chip's column wrap never shows. This is why the driver splits at pages. |
| `FlashDriver.RunWriteRam` | firmware/drivers/8258/flash.c:201-220 | On the wire, one call is a write-enable frame, the command frame executed with the latch set, and a status poll: the automaton ends as if that one command had been executed. |
| `FlashDriver.PageStreamExecutes` | firmware/drivers/8258/flash.c:370-380 | For every address, length and buffer (also past the chip and past 2^32), the emitted byte stream makes the chip execute the page-by-page program commands, in order, none dropped for want of a write enable. |
| `FlashDriver.PageOpsStayInPage` | firmware/drivers/8258/flash.c:370-380 | No program command of a page write crosses a page or is empty. |
| `FlashDriver.PageOpsAreLinear` | firmware/drivers/8258/flash.c:359-387 | The page-by-page commands together AND the buffer into exactly [addr, addr + len), for every range on the chip. |
| `FlashDriver.PageStreamRefinesLinearWrite` | firmware/drivers/8258/flash.c:359-387 | From wire to memory: the stream of a page write ANDs the buffer into exactly [addr, addr + len), by logged programs none of which crosses a page or is dropped, and leaves the chip deselected. |
| `FlashDriver.WrittenBytesReadBack` | firmware/drivers/8258/flash.c:333-387 | A read stream sent after a write stream shifts out, at every byte of the range, the old byte ANDed with the written one. |
| `FlashDriver.WriteOnWire` | firmware/drivers/8258/flash.c:201-220 | The bytes themselves: write enable 0x06, then 0x02 or 0x20 with three address bytes and the data, then status polls with 0x05, each in its own chip-select frame. |
| `FlashDriver.ReadOnWire` | firmware/drivers/8258/flash.c:163-189 | A read with any command is the command, the address if there is one, the dummy bytes, one zero to issue the clock and one more for every byte taken. |
| `FlashDriver.AcceptsExactly` | firmware/drivers/8258/flash.c:247-268 | For every non-empty range whose end does not wrap round 2^32: the guard accepts it if and only if it lies on the 1 MB chip, holds no firmware byte and does not reach across the boot address, or is up to 4 bytes at boot + 8. |
| `FlashDriver.FirmwareRange` | firmware/drivers/8258/flash.c:251-257 | The firmware starts at 0, 0x20000, 0x40000 or 0x60000 by the two low bits of the boot register and is 1024 times its size in KB long. |
| `FlashDriver.Flash.FlashSendCmd` | firmware/drivers/8258/flash.c:113-119 | The driver raises and lowers chip select and clocks the command byte; the chip steps accordingly and auto mode is off. |
| `FlashDriver.Flash.FlashSendAddr` | firmware/drivers/8258/flash.c:126-133 | Sends the three address bytes one by one, high byte first. |
| `FlashDriver.Flash.FlashWaitDone` | firmware/drivers/8258/flash.c:139-151 | Sends the status command, polls the busy bit until it reads 0, at most 10,000,000 times, and deselects the chip; the chip of the model is ready at the first poll. |
| `FlashDriver.Flash.FlashMspiReadRam` | firmware/drivers/8258/flash.c:163-189 | Byte i of the buffer is what the chip shifts out after the command, address, dummies and i + 1 clocks, read through auto mode; the rest of the buffer is untouched; the wire carries the one extra clock auto mode causes. |
| `FlashDriver.Flash.FlashMspiWriteRam` | firmware/drivers/8258/flash.c:201-220 | The wire carries write enable, command, address, data and the status poll, and the chip has run on exactly that. |
| `FlashDriver.Flash.FlashEraseSector` | firmware/drivers/8258/flash.c:291-312 | The chip carries out one erase if the guard accepts the address, and otherwise nothing is sent. In terms of the chip: at an address clear of the firmware its whole sector becomes 0xFF and nothing else changes; at any other address, boot + 8 and the last one apart, nothing happens. |
| `FlashDriver.Flash.FlashReadPage` | firmware/drivers/8258/flash.c:333-336 | The first len bytes of the buffer are the chip's memory from addr on; memory, command log and the rest of the buffer are unchanged. |
| `FlashDriver.Flash.WritePages` | firmware/drivers/8258/flash.c:370-380 | The loop over pages emits exactly the page stream and the chip has run on it, for every address and length, with the address wrapping at 2^32. |
| `FlashDriver.Flash.FlashWritePage` | firmware/drivers/8258/flash.c:359-387 | Exactly the page stream is sent and the page-by-page commands carried out if the guard accepts the whole range, and otherwise nothing. In terms of the chip: a range clear of the firmware is ANDed with the buffer, linearly; any other non-empty range that does not wrap leaves the chip as it was, up to 4 bytes at boot + 8 apart. |
| `MeshExtend.WriteDataIsWritePage` | firmware/drivers/8258/flash_mesh_extend.c:78-89 | A range accepted whole is accepted chunk by chunk, so splitting before the guard and splitting behind it make the chip execute the same commands. |
| `MeshExtend.WriteDataStreamExecutes` | firmware/drivers/8258/flash_mesh_extend.c:80-88 | The bytes sent by the two nested splitting loops make the chip execute the listed commands, whatever part of the range the guard refuses. |
| `MeshExtend.WriteDataRefinesLinearWrite` | firmware/drivers/8258/flash_mesh_extend.c:78-89 | For every accepted range, the wire stream through both splitting layers ANDs the buffer into exactly that range, with no page crossed and nothing dropped. |
| `MeshExtend.FlashWriteData` | firmware/drivers/8258/flash_mesh_extend.c:78-89 | The loop emits the stream and has the chip execute the commands of the nested splitting, for every address and buffer. |
| `MeshExtend.FlashWriteVal` | firmware/drivers/8258/flash_mesh_extend.c:91-118 | Run on the driver, the scan loop has the chip carry out exactly the operations the value-cell protocol lists for the sector's words. |
| `MeshExtend.FlashReadVal` | firmware/drivers/8258/flash_mesh_extend.c:120-139 | Returns the protocol's read result and performs the clean-up erase exactly when the protocol lists it. |
| `MeshExtend.FlashWriteLongVal` | firmware/drivers/8258/flash_mesh_extend.c:142-173 | For every length from 4 to 255, carries out the record protocol's operations; the erase branch of the C code is proved unreachable. |
| `MeshExtend.FlashReadLongVal` | firmware/drivers/8258/flash_mesh_extend.c:175-199 | For every length from 1 to 255, copies the record at the slot the protocol finds into the buffer, byte for byte, and returns its first word; or leaves the buffer alone and returns the marker. Erases exactly when the protocol lists it. |
| `MeshExtend.FlashSubregionWriteVal` | firmware/drivers/8258/flash_mesh_extend.c:201-229 | Returns the protocol's code and has the chip carry out its operations, for every num including 0. |
| `MeshExtend.FlashSubregionReadVal` | firmware/drivers/8258/flash_mesh_extend.c:231-252 | Returns the protocol's read result and changes no flash. |
| `ValueCell.WriteSteps` | firmware/drivers/8258/flash_mesh_extend.c:91-118 | A write from any reachable sector is one or two operations; after the first the old word is gone, after the last the new one is live in the next slot (slot 0 after an erase); it erases exactly when the live word was in slot 1023. |
| `ValueCell.ReadStep` | firmware/drivers/8258/flash_mesh_extend.c:120-139 | A read returns the variable's value and keeps the variable. It erases the sector exactly if no word is live and more than 1000 slots are used up, and the next word then goes to slot 0. |
| `ValueCell.ReaderErasesExactly` | firmware/drivers/8258/flash_mesh_extend.c:91-139 | From a blank sector, after n >= 1 writes and one more cut between its two operations, the next read erases exactly if (n - 1) mod 1024 is 1000 to 1022. |
| `ValueCell.FullOfMarkers` | firmware/drivers/8258/flash_mesh_extend.c:91-139 | On a sector of 1024 markers, which no run reaches, a write would go to the word behind the sector, and a read returns the marker and erases. |
| `ValueCell.RunRefinesVariable` | firmware/drivers/8258/flash_mesh_extend.c:91-139 | Over every run of writes, reads and writes cut by a reset, the sector holds exactly what a plain variable would: refinement of the whole protocol. |
| `ValueCell.ReadReturnsVariable` | firmware/drivers/8258/flash_mesh_extend.c:91-139 | From a blank sector, after every such run, a read returns the variable (the last word written, if nothing was cut); a sector of 1024 markers is unreachable and no write goes past the sector. |
| `ValueCell.CutWriteIsSafe` | firmware/drivers/8258/flash_mesh_extend.c:95-117 | After a write cut at any point a read returns the word before, the new word or the marker. |
| `ValueCell.NoOlderWordReturns` | firmware/drivers/8258/flash_mesh_extend.c:95-138 | Once a write has completed, every later read, through any number of cut writes, returns that word, a word written later or the marker: never an older word. |
| `ValueCell.ExactWear` | firmware/drivers/8258/flash_mesh_extend.c:91-118 | From a blank sector, n >= 1 writes with any reads between them erase exactly (n - 1) / 1024 times and leave the last word live in slot (n - 1) mod 1024. |
| `ValueCell.ReplaceableExactly` | firmware/drivers/8258/flash_mesh_extend.c:91-139 | For every sector of used-up slots, one live word and blanks, and every new word but the blank and the marker: a read after the write returns the new word exactly if the live word was in slot 1023 (which is erased), or contains the marker's bits, or is turned by the marker into the new word. |
| `ValueCell.ReplaceableFromBlank` | firmware/drivers/8258/flash_mesh_extend.c:91-139 | The same for the first two writes to a blank sector. |
| `LimitedCell.AcceptsExactlyNum` | firmware/drivers/8258/flash_mesh_extend.c:201-252 | Over every run of attempts, reads and attempts cut by a reset, and for every marker but 1, a blank region of num words stores exactly num words: a write is accepted while fewer have been stored and refused without any operation from then on; a read returns the word in use. |
| `LimitedCell.FullOfMarkers` | firmware/drivers/8258/flash_mesh_extend.c:201-252 | Where every slot is used up, which no run reaches, or num is 0, a write reports success and goes to the word behind the region. |
| `LimitedCell.RunRefines` | firmware/drivers/8258/flash_mesh_extend.c:201-252 | Over every run with resets the region holds exactly the state of the variable, and the slots used are the words stored: cuts waste none. |
| `LimitedCell.LastAcceptedIsRead` | firmware/drivers/8258/flash_mesh_extend.c:201-252 | Without resets, of n admissible writes the first num are stored, and a read returns the last of those, for every marker. |
| `LimitedCell.NoOlderWordReturns` | firmware/drivers/8258/flash_mesh_extend.c:201-252 | Once a write has been accepted, every later read, through any number of cut writes, returns that word, a later one or the marker. |
| `RecordCell.ReadBackExactly` | firmware/drivers/8258/flash_mesh_extend.c:142-199 | After n completed writes, with any reads among them up to the capacity K, the last record is read back, and nothing erased by the read, exactly while n <= K; past that the reader reports the marker. |
| `RecordCell.RunRefines` | firmware/drivers/8258/flash_mesh_extend.c:142-199 | Over every run of writes, reads and writes cut between any two flash commands the sector holds exactly the state: where the next slot is and which record, whole or torn, is live. |
| `RecordCell.ReadReturnsState` | firmware/drivers/8258/flash_mesh_extend.c:175-199 | After every such run from an erased sector a read returns the live record of the state, or the marker, and erases exactly if nothing is live and the slot starts at word 1000 or later. |
| `RecordCell.NoOlderRecordReturns` | firmware/drivers/8258/flash_mesh_extend.c:142-199 | Once a write has completed, every later read delivers that record, or what a later write left, whole or torn, or reports the marker: never an older record. |
| `RecordCell.TornExactly` | firmware/drivers/8258/flash_mesh_extend.c:78-89 | After every run of writes of any records, reads and resets a read delivers some record of the run whole, or none, if and only if d divides 64, that is, if no slot crosses a flash page (provided there is a record to store at all). |
| `RecordCell.ReaderRecoversExactly` | firmware/drivers/8258/flash_mesh_extend.c:181-198 | Past K, the next read erases the sector if and only if K * d >= 1000. |
| `RecordCell.StaysFull` | firmware/drivers/8258/flash_mesh_extend.c:142-199 | If K * d < 1000, a cell that is past K is full for good: whatever writes, reads and resets follow, reads report the marker and erase nothing. |
| `RecordCell.FortyNineStaysFull` | firmware/drivers/8258/flash_mesh_extend.c:142-199 | 49-word records are such a case, after more than 20 writes. |
| `RecordCell.OverflowExactly` | firmware/drivers/8258/flash_mesh_extend.c:147-171 | Write n + 1 marks slot n and puts its record into slot n + 1; every write up to K stays inside the sector, and write K + 1 runs out of it exactly when d does not divide 1024. |
| `CellsOnChip.OneCommandEach` | firmware/drivers/8258/flash_mesh_extend.c:78-118 | Every protocol operation inside one page is exactly one chip command, so a reset between operations is a reset between chip commands. |
| `CellsOnChip.WritableExactly` | firmware/drivers/8258/flash.c:247-268 | The regions the theorems on the chip are about are exactly those clear of the firmware, and the single word at boot + 8. |
| `CellsOnChip.ValueCellOnChip` | firmware/drivers/8258/flash_mesh_extend.c:91-139 | The refinement holds on the chip's bytes: over every run the sector holds and reads as the variable, and no byte outside the sector changes. |
| `CellsOnChip.ExactWearOnChip` | firmware/drivers/8258/flash_mesh_extend.c:91-118 | The number of erase commands the chip carries out over n writes to a blank sector is exactly (n - 1) / 1024. |
| `CellsOnChip.LimitedCellOnChip` | firmware/drivers/8258/flash_mesh_extend.c:201-229 | On the chip, over every run with resets, the region goes through the protocol's states and no byte outside its num words changes. |
| `CellsOnChip.RecordCellOnChip` | firmware/drivers/8258/flash_mesh_extend.c:142-199 | On the chip, over every run with resets, also past the capacity, the sector goes through the protocol's states and reads as the state's record; no byte further than 252 behind the sector changes, and none outside it if all records of the run fit. |
| `CellsOnChip.FirstRecordsOnChip` | firmware/drivers/8258/flash_mesh_extend.c:142-199 | Up to K writes to an erased sector, cut or not, with any reads among them, change nothing outside it, and a read delivers the state's record: without cuts the last one written. |
| `CellsOnChip.FillingSlotsOnChip` | firmware/drivers/8258/flash_mesh_extend.c:142-199 | If d divides 1024, no run whatever changes anything outside the sector, and a read delivers the state's record. |
| `CellsOnChip.RecordCommands` | firmware/drivers/8258/flash_mesh_extend.c:142-173 | The chip commands of a record write are those of the page-by-page operations between which the protocol may be cut, one for one if the record fits. |
| `CellsOnChip.OverflowOnChip` | firmware/drivers/8258/flash_mesh_extend.c:78-89 | Write K + 1 reaches past the sector exactly if d does not divide 1024. Outside the sector it then changes what a linear write of the record would if the guard accepts the rest of the record there, and nothing if it refuses it. |
| `RecordLengths.LengthsExactly` | firmware/drivers/8258/flash_mesh_extend.c:142-199 | The second of two records written to an erased sector is read back, whatever the two are, if and only if the length is a multiple of 4 (lengths from 4 to 255, provided there is a record to store at all). |
| `FirmwareArea.GuardSoundExactly` | firmware/drivers/8258/flash.c:247-268 | Of the non-empty ranges, those whose end does not wrap round 2^32 are accepted exactly if they are clear of the firmware or the OTA flag; and of the accepted ones, exactly those consist of on-chip addresses outside the protected firmware. |
| `FirmwareArea.WrappedWriteReachesFirmware` | firmware/drivers/8258/flash.c:257-259 | The failing case: a two-byte write at 0xFFFFFFFF is accepted and programs firmware byte 0 of an image booted from 0. |
| `FirmwareArea.WriteHarmlessExactly` | firmware/drivers/8258/flash.c:247-387 | For every address and length, wrapping or not: a page write is harmless, whatever the flash holds and whatever is written, exactly if the guard refuses it or none of its bytes ends up, modulo 2^32 and the chip's capacity, on protected firmware. |
| `FirmwareArea.WriteDataHarmlessExactly` | firmware/drivers/8258/flash_mesh_extend.c:78-89 | The same for the outer splitting loop, chunk by chunk. |
| `FirmwareArea.EraseHarmlessExactly` | firmware/drivers/8258/flash.c:247-312 | For every erase address: harmless, whatever the flash holds, exactly unless there is firmware and the address is boot + 8, or it is 0xFFFFFFFF and the firmware reaches beyond 0xFF000. |
| `FirmwareArea.PlainIsRegular` | firmware/drivers/8258/flash.c:247-387 | Writes that do not wrap round 2^32 and sector-aligned erases all meet those conditions. |
| `FirmwareArea.RunKeepsFirmware` | firmware/drivers/8258/flash.c:247-387 | Over every run of calls that meet the three exact conditions above, accepted or refused, no protected firmware byte changes and the OTA flag only loses bits. |
| `Primes.IsPrime` | firmware/drivers/8258/uart.c:36-53 | For n <= 65531^2 nothing overflows and the result is 1 exactly when n <= 3, n is prime, or n is the square of a prime congruent to 5 mod 6. |
| `Primes.MistakenExactly` | firmware/drivers/8258/uart.c:36-53 | What trial division says of primes is right, and apart from 0 and 1 its mistakes are exactly the squares of primes congruent to 5 mod 6. |
| `Primes.TwentyFiveIsSaidPrime` | firmware/drivers/8258/uart.c:46-51 | The least failing input from 2 on: 25 is called prime, and of 2 to 24 no composite is. |
| `Primes.AdjustedIsComposite` | firmware/drivers/8258/uart.c:80-90 | From a quotient of 3 on, the adjusted quotient is composite, at most one larger, and at least 4. |
| `Uart.SearchQuotientRounds` | firmware/drivers/8258/uart.c:75-90 | The search starts one above a quotient that trial division calls prime; else from the quotient, if it calls the number above it prime; else from clock / baud rounded down below six tenths and up from there on: -6 baud < 10 (z baud - clock) <= 4 baud. |
| `Uart.ChoiceFits` | firmware/drivers/8258/uart.c:103-131 | For every adjusted quotient z >= 4, div + 1 is z / (bwpc + 1) rounded to the nearest whole number, halves up, with 3 <= bwpc <= 15 and no wrap in the subtraction. |
| `Uart.ChoiceWraps` | firmware/drivers/8258/uart.c:114-127 | For z in 1..3 the subtraction wraps and the divider becomes 2^32 - 1. |
| `Uart.ChoiceIsNearest` | firmware/drivers/8258/uart.c:103-131 | The chosen width's decimal is nearest to a whole division among all widths whose whole part is not 1; from z = 32 on among all 13. |
| `Uart.ChosenExactly` | firmware/drivers/8258/uart.c:103-131 | A width is chosen if and only if it leaves z just above a whole number other than 1, nearest and widest among such widths, and strictly nearer than every width that leaves z just below one; or just below, nearest and widest of all, and at least as near as every one of the former. So ties are settled too. |
| `Uart.DividerNotZero` | firmware/drivers/8258/uart.c:114-131 | From z = 16 on the divider is at least 1. |
| `Uart.AccurateExactly` | firmware/drivers/8258/uart.c:55-131 | baud * (div + 1) * (bwpc + 1) misses the clock by at most baud * (1 + (bwpc + 1) / 2), with bwpc in 3..15, if and only if clock / baud is at least 3; div >= 1 from 16 on. |
| `Uart.DividerFitsExactly` | firmware/drivers/8258/uart.c:103-131 | For every adjusted quotient z >= 4 the divider fits 15 bits if and only if 2 z < 65537 (bwpc + 1): always up to z = 2^17, never from 524296 on. |
| `Uart.RegistersAccurateExactly` | firmware/drivers/8258/uart.c:196-203 | Width and divider as the registers hold them meet the error bound if and only if clock / baud >= 3 and 2 z < 65537 (bwpc + 1), z being the adjusted quotient. |
| `Uart.SlowBaudIsCut` | firmware/drivers/8258/uart.c:196-203 | A failing input: at 48 MHz and 110 baud the divider 109090 is cut to 10786, and the bound is missed. |
| `Uart.TenfoldFits` | firmware/drivers/8258/uart.c:75-95 | If ten times the clock fits 32 bits, so does ten times the adjusted quotient; the one value at the edge is a composite that trial division does not call prime. |
| `Uart.Uart.AdjustQuotient` | firmware/drivers/8258/uart.c:75-90 | The first half of the search computes the adjusted quotient, rounded as `Uart.SearchQuotientRounds` says, with all products in 32 bits. |
| `Uart.Uart.Tabulate` | firmware/drivers/8258/uart.c:94-98 | The three tables hold tenths, digit and whole part for each of the 13 widths. |
| `Uart.Uart.GetBetterBwpc` | firmware/drivers/8258/uart.c:67-132 | The two-extrema scan and the three-way choice leave in the two statics exactly the choice the lemmas above are about. |
| `Uart.Uart.UartInitBaudrate` | firmware/drivers/8258/uart.c:196-203 | The registers hold the chosen width and the low 15 bits of the chosen divider, with the enable bit set and a receive timeout of 12 bit times; read back from them alone, the error bound is met if and only if clock / baud >= 3 and the divider is below 2^15, equivalently 2 z < 65537 (bwpc + 1). |
| `Random.NoOverflow` | firmware/drivers/8258/random.c:230-231 | No multiply-with-carry step overflows 32 bits, from any state. |
| `Random.RunMultiplies` | firmware/drivers/8258/random.c:230-231 | After n calls the state is a^n times the seed modulo m = a * 2^16 - 1: a hidden modular multiplication. |
| `Random.SettlesInTwo` | firmware/drivers/8258/random.c:230-231 | Two calls bring every 32-bit seed into [0, m]. |
| `Random.StepStaysIn` | firmware/drivers/8258/random.c:230-231 | On [0, m] the step stays there and is undone by an explicit inverse. |
| `Random.BackStaysIn` | firmware/drivers/8258/random.c:230-231 | The inverse stays in [0, m] and is undone by the step: with the row above, a bijection. |
| `Random.OnlyFixedPoints` | firmware/drivers/8258/random.c:230-231 | For 18000 and for 36969, 0 and m are the only fixed points in [0, m]. |
| `Random.NeverDies` | firmware/drivers/8258/random.c:230-231 | A state strictly between 0 and m never reaches 0 or m. |
| `Random.RandStatesArePowers` | firmware/drivers/8258/random.c:228-235 | The same for the two multipliers of rand, with their moduli 1179647999 and 2422800383 written out. |
| `Random.Rand.Next` | firmware/drivers/8258/random.c:228-234 | Both states step by their multiplier without overflow, and the result, before the clock is mixed in, is the low half of one shifted up plus the other, modulo 2^32. |
| `Whitener.MadeIsStep` | firmware/drivers/8258/random.c:64-78 | On its low 16 bits the 32-bit register does one step of the feedback register with bit 16 as the sample. |
| `Whitener.FedBackExactly` | firmware/drivers/8258/random.c:64-78 | Of the 32 single bits exactly 0, 4, 13, 15 and 16 come back in at the bottom. |
| `Whitener.SamplesAndResultOneToOne` | firmware/drivers/8258/random.c:101-115 | From any fixed state, 16 samples and the 16 result bits determine each other. |
| `Whitener.EveryResultOnce` | firmware/drivers/8258/random.c:101-117 | On the machine words: each 16-bit result comes from exactly one choice of the 16 sampled low bits. |
| `Whitener.RunIsBijective` | firmware/drivers/8258/random.c:101-115 | For any fixed samples, of any number, starting state to final state is a bijection, with an explicit inverse. |
| `Whitener.Sampler.RngMade` | firmware/drivers/8258/random.c:64-78 | One call shifts the low 15 bits up, feeds bit 16 xor bits 15, 13, 4 and 0 in at the bottom, and returns the low 16 bits: one step of the register. |
| `Whitener.Sampler.AdcRngResult` | firmware/drivers/8258/random.c:101-117 | The loop runs the register over the low bits of the 16 samples, in order, and returns the low 16 bits. |
| `Prbs9.StateIsWindow` | firmware/drivers/8258/emi.c:265-278 | At step t the 9-bit register holds bits t to t + 8 of the sequence with s[t + 9] = s[t + 4] xor s[t] from nine ones. |
| `Prbs9.NoNineZeros` | firmware/drivers/8258/emi.c:262-281 | The sequence has no nine consecutive zeros. |
| `Prbs9.PeriodExactly` | firmware/drivers/8258/emi.c:262-281 | p is a period of the sequence exactly when 511 divides p: the full period of a 9-bit register. |
| `Prbs9.FirstBytes` | firmware/drivers/8258/emi.c:262-281 | The payload starts with the bytes 0xFF, 0xC1, 0xFB, and these are the only bytes that hold the first 24 bits of the sequence. |
| `Prbs9.RfPhyTestPrbs9` | firmware/drivers/8258/emi.c:262-281 | Bit j of byte i, least significant first, is bit 8 i + j of the sequence; nothing past n bytes is written, also for n <= 0. |
| `Calibration.LastProbeBrackets` | firmware/drivers/8258/clock.c:145-176 | The bisection ends with a compared trim within two steps of the crossing. |
| `Calibration.SearchIsExhaustive` | firmware/drivers/8258/clock.c:139-177 | For every monotone count function the seven comparisons find the best of all 127 even trims; trim 0 is stored exactly if no even trim comes within 100 counts. |
| `Calibration.CalibrationIsAccurate` | firmware/drivers/8258/clock.c:128-178 | For every monotone count function that crosses 250 in steps of at most L < 100, the best even trim is within L of 250. |
| `Calibration.AccurateExactly` | firmware/drivers/8258/clock.c:142-177 | The accuracy holds for steps of at most L exactly if L < 100. |
| `Calibration.StepCountDefeats` | firmware/drivers/8258/clock.c:142-177 | The failing input: a count that crosses 250 in two steps of 100 around an odd trim makes the calibration store 0. |
| `Calibration.RcOscillator.Rc48mCal` | firmware/drivers/8258/clock.c:128-178 | The last trim written is the first of the nearest compared probes, or 0 if none came within 100; for a monotone count it is the best of all even trims, and within L of 250 whenever the count crosses it in steps of at most L < 100; the trims written before are the seven compared ones, all even, and one more in 1..255; the halving step ends the loop. |
| `Adc.SortSamplesSorts` | firmware/drivers/8258/adc.c:404-437 | Inserting the samples one by one keeps every prefix sorted and a permutation of what arrived. |
| `Adc.ClipMeans` | firmware/drivers/8258/adc.c:419-424 | A reading counts as its 13 low bits, or as 0 if bit 13 is set, whatever the bits above hold. |
| `Adc.MeanOfMiddleFour` | firmware/drivers/8258/adc.c:442-448 | In whatever order the eight samples are sorted, the mean is the third to the sixth of them added, divided by four and rounded down. |
| `Adc.MeanIgnoresOrder` | firmware/drivers/8258/adc.c:404-448 | The trimmed mean does not depend on the order of arrival. |
| `Adc.MeanIsMonotone` | firmware/drivers/8258/adc.c:404-448 | The trimmed mean is monotone in every sample. |
| `Adc.MeanIsRobust` | firmware/drivers/8258/adc.c:442-448 | However wild any two of the eight samples are, the mean lies within the range of the other six. |
| `Adc.AdcDriver.SetAinPreScaler` | firmware/drivers/8258/adc.c:251 | The stored factor is 1, 2, 4 or 8 for the four settings. |
| `Adc.AdcDriver.InsertSample` | firmware/drivers/8258/adc.c:427-436 | The in-place inner loop turns the sorted prefix and the new sample into the insertion of the one into the other, and touches nothing behind it. |
| `Adc.AdcDriver.SortReadings` | firmware/drivers/8258/adc.c:404-437 | The sampling loop ends with the clipped readings in the order the insertion sort gives them. |
| `Adc.AdcDriver.SampleAndGetResult` | firmware/drivers/8258/adc.c:404-460 | For a factor of 1, 2, 4 or 8 and a reference of 1 to 32767 mV, the code is the trimmed mean of the clipped samples, that is, the mean of t[2] to t[5] for every sorted order t of them, rounded down; and the result its scaled value, without overflow and below full scale. |
| `I2c.AfterHeader` | firmware/drivers/8258/i2c.c:294-324 | Start, device id and 0 to 3 address bytes leave the addressed slave writing at the address modulo 256^length: at exactly the address if it fits, and without address bytes at the start of the mapping buffer. |
| `I2c.WriteReachesMemory` | firmware/drivers/8258/i2c.c:240-284 | For address lengths 0 to 3, a series write changes exactly the len bytes from there on to the data and ends with the slave idle. |
| `I2c.ReadDeliversMemory` | firmware/drivers/8258/i2c.c:294-351 | For address lengths 0 to 3, the bytes a series read takes in are the slave's memory from the address on; in mapping mode, from 64 bytes into the buffer. |
| `I2c.RoundTrip` | firmware/drivers/8258/i2c.c:240-351 | What a series write stored, a series read of the same address returns, for address lengths 1 to 3 and every length that fits. |
| `I2c.MappedExchange` | firmware/drivers/8258/i2c.h:56-64 | Mapping mode: whatever addresses are passed, a write fills the buffer from its start and a read then delivers it from byte 64 on, which a write of up to 64 bytes leaves alone. |
| `I2c.LongAddressWritesNothing` | firmware/drivers/8258/i2c.c:240-284 | With an address length above 3 a write sends no START, and no slave takes anything in. |
| `I2c.Master.SendHeader` | firmware/drivers/8258/i2c.c:242-272 | The register writes for each address length put on the bus start, device id with the write bit, and the address bytes high first, none of them for length 0; a length above 3 launches nothing. |
| `I2c.Master.SendReadHeader` | firmware/drivers/8258/i2c.c:297-329 | Header, then repeated start and the device id with the read bit. |
| `I2c.Master.WriteByte` | firmware/drivers/8258/i2c.c:133-172 | Puts on the bus exactly the transcript of a one-byte series, for every address length; it has one STOP, at its end. |
| `I2c.Master.WriteSeries` | firmware/drivers/8258/i2c.c:240-284 | Puts on the bus header, data bytes in order and STOP, and the slave has run on exactly that; the transcript has one STOP, at its very end, and receives nothing. |
| `I2c.Master.ReadByte` | firmware/drivers/8258/i2c.c:180-231 | Returns the byte, and puts on the bus the transcript, of a one-byte series read, with one STOP at its end and the terminating acknowledge form on the byte. |
| `I2c.Master.ReadSeries` | firmware/drivers/8258/i2c.c:294-351 | Fills exactly the first dataLen bytes of the buffer with the bytes the slave shifts out, and puts the read transcript on the bus: one STOP, at its very end, and the terminating acknowledge form on the last byte received and no other. |

## Left out

- Partial programs and erases: a reset falls between two flash commands of a write, never inside one, and never inside the clean-up erase of a read.
- `FlashDriver.Flash.FlashWaitDone`: the poll loop is there, but the chip of the model is ready at the first poll, so what happens when all 10,000,000 polls find it busy is not described.
- Waits, other busy polling, interrupt masking and the watchdog: hardware is ready.
- Flash lock and unlock, the `MI_API_ENABLE` guard, status registers, OTP, MID and UID commands: table lookups and files that are not part of this model.
- Record lengths below 4 for the writer and 0 for the reader: the scan does not advance there, and would not end at a used-up first slot.
- What each record write after write K + 1 leaves behind the sector, byte for byte: only that nothing changes more than 252 bytes behind it.
- `flash_subregion_*` with num = 0: the methods and `LimitedCell.FullOfMarkers` cover it, the theorems over runs start at num = 1.
- The XOR with `clock_time()` in `rand`, the composition of seeds in `random_generator_init` and `generateRandomNum`.
- Parity, stop bits and DMA of the UART, `uart_init`, and system clocks of which ten times the value exceeds 32 bits.
- `Primes.IsPrime`: nothing is stated above 65531^2, where `i * i` overflows; no caller passes such a value.
- I2C: the build option `I2C_SLAVE_DEVICE_NO_START_EN` is taken as 0, its default.
- Negative I2C lengths, and `dataLen` of 0 for a series read, which the source rules out in a comment.
- ADC analog setup, vref selection and calibration, the 4-sample build; radio setup around the PRBS9 filler.
- The 8278 copies of these drivers: the same algorithms.
