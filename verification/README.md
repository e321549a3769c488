# HD6309-Sim core in Dafny

This project models the core of the HD6309 computer simulator: the fake FLEX
disk controller (`DiskIO`), the machine's memory map and its hex-file boot
loader (`Machine::read`, `Machine::write`, `hexchar`, `Machine::loadHex`), and
the receive path of the SC16C550 UART. Every part is an immutable state record
with pure step functions. Lemmas and small host-side methods prove properties
that span several register accesses.

Modules, one per file:

- `Prelude` (`prelude.dfy`): the `byte`, `word` and `u32` types. It also has
  explicit 8-bit, 32-bit and `size_t` wrap-around, plus `Option` and `Access`
  (a read's value paired with the state after the read).
- `DiskIO` (`diskio.dfy`): the controller's registers, the byte cursor and
  the four drive slots. It also covers the command encoding, the 24-byte
  System Information Record (SIR) at byte 528 of an image, and the geometry
  read from the SIR. Operations: `loadImage`, `getGeometry`, `setByte`,
  `readReg` and `writeReg`. The sector offset is written out exactly as each
  path computes it: in `uint32_t` for a read, and in `int` then `size_t` for a
  write.
- `DiskProtocol` (`disk_protocol.dfy`): what a host does with the registers.
  It selects a sector, streams bytes through the data register, and writes a
  sector and reads it back.
- `Serial` (`uart.dfy`): the UART's receive buffer, its line status and line
  control registers, and a transmit trace.
- `Board` (`machine.dfy`): the CPU's memory map. It covers paged RAM, fixed
  RAM, the UART and disk register windows, the page register and ROM.
- `HexLoader` (`hexloader.dfy`): the loader's character-level state machine
  over the bytes of a file. It also covers the stores the loader makes and
  their effect on RAM and ROM.

Three behaviours of the code that are easy to misread:

- `getGeometry` checks only the drive number. It makes no size check of
  the image, so an image shorter than the SIR is read out of bounds. The
  model therefore requires the 552 bytes the two geometry fields need.
- With `sectors * track >= 1`, sector 0 lands on `256 * (sectors * track - 1)`
  on both paths, the last sector of the previous track: the read path's
  `uint32_t` arithmetic wraps below zero and back, and the write path's `int`
  arithmetic never goes below zero. Only with `sectors * track == 0` do both
  leave the image
  (lemmas `DiskIO.OffsetsMatchLayout` and
  `DiskIO.OffsetsWrapBelowZero`).
- `loadHex` tests `feof` before reading. The byte `fgetc` returns at the end
  of the file (EOF, stored as 0xFF) therefore passes through the state
  machine once more, and `HexLoader.Loads` appends it.

## Model

| member | source | states |
|---|---|---|
| DiskIO.DecodeCommand | src/diskio.h:45-49 | a value decodes to idle, read, write or seek exactly when it is 0, 1, 2 or 3; a command value is invalid exactly when it is at least `MAXCMD` = 4, and an invalid value is kept as its code |
| DiskIO.EncodeCommand | src/diskio.h:45-49 | idle, read, write and seek encode to exactly 0, 1, 2 and 3, and a command encodes below 4 exactly when it is one of those four |
| DiskIO.CommandRoundTrip | src/diskio.h:45-49 | decoding then encoding any byte gives it back, and encoding then decoding any well-formed command gives it back |
| DiskIO.DecodeSir | src/diskio.cpp:20-34 | any 24-byte window decodes into a well-formed record, with an 11-byte label and two 16-bit fields (which bytes form which field: `DiskIO.DecodeSirFields`) |
| DiskIO.DecodeSirFields | src/diskio.cpp:20-34 | decoding takes the label from bytes 0-10, the volume number big-endian from bytes 11-12, the free-sector count big-endian from bytes 17-18, the end track from byte 22 and the end sector from byte 23 |
| DiskIO.EncodeSir | src/diskio.cpp:20-34 | a well-formed record lays out as the packed 24-byte struct: label in bytes 0-10, volume number high byte first in 11-12, first and last free track and sector in 13-16, free sectors high byte first in 17-18, month, day and year in 19-21, end track at 22 and end sector at 23 |
| DiskIO.DecodeEncodeSir | src/diskio.cpp:20-34 | every well-formed record survives being laid out and decoded |
| DiskIO.EncodeDecodeSir | src/diskio.cpp:20-34 | every 24-byte window is the layout of the record decoded from it |
| DiskIO.ImageGeometry | src/diskio.cpp:135-139 | tracks is byte 550 of the image plus one, wrapped to 8 bits; sectors is byte 551 unchanged |
| DiskIO.GetGeometry | src/diskio.cpp:131-144 | succeeds exactly for drives 0 to 3 and makes no size check of its own (images under 552 bytes would be read out of bounds and are excluded); it then yields `(img[550] + 1) mod 256` tracks and `img[551]` sectors |
| DiskIO.GeometryFromSir | src/diskio.cpp:20-34 | an image holding a SIR at offset 528 has the geometry of that record's end-track and end-sector fields |
| DiskIO.ExampleGeometry | src/diskio.cpp:135-139 | an image whose SIR ends at track 34 and sector 10 has 35 tracks of 10 sectors |
| DiskIO.OffsetsMatchLayout | src/diskio.cpp:187-188 | whenever the documented start `256 * ((sector - 1) + sectors * track)` is non-negative, the read and the write path both compute it, and it is at least one sector below 16 MiB |
| DiskIO.OffsetsWrapBelowZero | src/diskio.cpp:248-249 | a negative start happens only for sector 0 with `sectors * track == 0`; the read offset then wraps to 2^32 - 256 and the write offset to 2^64 - 256 |
| DiskIO.AccessWithinSector | src/diskio.cpp:187-188 | whenever a read or write index lies inside a 16 MiB image, both paths touch the same byte, in sector `(sector - 1) + sectors * track`, at position `byteIdx` |
| DiskIO.IndexAtLayout | src/diskio.cpp:248-249 | with a non-negative sector start, read and write both touch the byte `byteIdx` past it |
| DiskIO.Initial | src/diskio.cpp:57-60 | the constructed controller has four empty drive slots |
| DiskIO.LoadImage | src/diskio.cpp:102-129 | succeeds exactly for drives 0 to 3 with a readable file of at most 16 MiB; the slot then holds exactly the file, and the other slots and the registers are unchanged; a failure changes nothing |
| DiskIO.SetByteIndexAtLayout | src/diskio.cpp:160-163 | for sector and track numbers of 8 bits and sector at least 1, the index is the documented sector start plus the byte offset |
| DiskIO.SetByte | src/diskio.cpp:146-164 | a drive beyond the slots changes nothing; otherwise exactly one byte of the selected image changes, at the computed index, and no register changes |
| DiskIO.ReadReg | src/diskio.cpp:166-212 | the status register reads without side effect; registers 0, 2, 3 and 4 read back and clear the status; a data read under the read command yields the byte at the cursor, advances the cursor mod 256 and clears the status, and otherwise yields 0 with status 0xFF and no advance; other registers yield 0 with status 0xFF; no read changes an image |
| DiskIO.WriteReg | src/diskio.cpp:214-285 | the command register takes any value, rewinds the cursor and sets status 0 exactly for commands below 4; a data write under the write command changes exactly one byte of the selected image, advances the cursor and clears the status, and otherwise only sets status 0xFF; drive, track and sector store the value and rewind the cursor with the status untouched; registers from 5 up only set status 0xFF |
| DiskIO.RegisterReadBack | src/diskio.cpp:197-205 | a value written to the command, drive, track or sector register reads back unchanged, and the read reports status 0 |
| DiskIO.DataNeedsTransferCommand | src/diskio.cpp:195-196 | under the idle, seek or an invalid command, a data read reports 0xFF and a data write only sets status 0xFF |
| DiskProtocol.Select | src/diskio.cpp:218-232 | writing drive, track, sector and command selects them, rewinds the cursor, leaves the images alone and reports success exactly for a valid command |
| DiskProtocol.StartInLayout | src/diskio.cpp:187-188 | a sector's start computed from the image's end-sector byte is the documented layout under the image's geometry |
| DiskProtocol.StartStable | src/diskio.cpp:248-249 | two images with the same end-sector byte place every sector alike, and on track 0 any two images do |
| DiskProtocol.ReadStep | src/diskio.cpp:174-193 | on a sector inside the image, one data read returns the byte at the sector start plus the cursor, advances the cursor mod 256 and reports status 0 |
| DiskProtocol.WriteStep | src/diskio.cpp:237-250 | on a sector inside the image, one data write stores the byte at the sector start plus the cursor, advances the cursor mod 256 and reports status 0 |
| DiskProtocol.WriteStream | src/diskio.cpp:248-250 | on a sector that keeps its place while written (on track 0, or not holding the SIR's end-sector byte), streaming up to 256 bytes from cursor 0 lays them over the start of the sector, changes nothing else in any image, keeps the selection and leaves the cursor at the count mod 256 |
| DiskProtocol.ReadStream | src/diskio.cpp:187-193 | the i-th of n streamed bytes is the sector's byte `(byteIdx + i) mod 256`, so reading never leaves the sector; the images and the selection are unchanged |
| DiskProtocol.ReadPastSector | src/diskio.cpp:192 | after 256 data reads the cursor is back where it started, so the 257th read returns the byte of the first |
| DiskProtocol.WriteSector | src/diskio.cpp:214-256 | for a sector that keeps its place while written, selecting it with the write command and writing 256 bytes makes that sector's bytes the data, and no other byte of any image changes |
| DiskProtocol.ReadSector | src/diskio.cpp:166-196 | selecting a sector with the read command and reading 256 bytes returns the sector's bytes in order and changes no image |
| DiskProtocol.WrittenSector | src/diskio.cpp:248-249 | a sector that keeps its place and is written in full stays at the same place in the image and holds the written bytes |
| DiskProtocol.SectorRoundTrip | src/diskio.cpp:166-256 | for a sector that keeps its place while written, a whole sector written through the registers and re-selected for reading reads back exactly as written, and no other drive's image changes |
| DiskProtocol.WritePastSector | src/diskio.cpp:249 | the write cursor wraps too: after a whole sector is written, one more data write lands on the sector's first byte and nothing else changes |
| DiskProtocol.SirWriteMovesSector | src/diskio.cpp:237-249 | why the round trip needs its condition: with one sector per track, sector 2 of track 1 holds the SIR's end-sector byte, and writing 2 there at cursor 39 moves the sector from 512 to 768 in mid-stream |
| Serial.Init | src/uart.cpp:17-23 | after construction exactly status bits 5 and 6 (the two transmitter-empty flags) are set, and line control is 0 |
| Serial.ClearToSend | src/uart.cpp:55-58 | the console may send exactly when no received byte is waiting |
| Serial.Submit | src/uart.cpp:80-93 | on overrun nothing changes; otherwise the byte is buffered, data ready is raised, and the other status bits and line control are unchanged |
| Serial.Read | src/uart.cpp:60-78 | register 0 returns the buffer and lowers data ready alone; registers 3 and 5 return line control and status with no effect; any other register reads 0 with no effect |
| Serial.Write | src/uart.cpp:26-53 | no write changes the status or the receive buffer; register 3 sets line control; register 0 sends the byte unless the divisor latch is selected; any other write has no effect |
| Serial.ReadClearsOnlyReady | src/uart.cpp:68-70 | reading register 0 clears status bit 0 and keeps each of bits 1 to 7 |
| Serial.SubmitRaisesOnlyReady | src/uart.cpp:88-92 | a submission while clear to send sets status bit 0 and keeps each of bits 1 to 7 |
| Serial.SubmitThenRead | src/uart.cpp:80-93 | a byte submitted while clear to send is read back from register 0, which makes the UART clear to send again with its status as before |
| Serial.OverrunKeepsFirst | src/uart.cpp:83-87 | a second byte submitted before the first is read is lost, and the first is the one read |
| Serial.ReadDataTwice | src/uart.cpp:68-70 | reading register 0 twice returns the same byte and the second read changes nothing |
| Serial.LcrRoundTrip | src/uart.cpp:44-46 | line control reads back the value written, and the status is unaffected |
| Serial.ReadyOnlyBySubmit | src/uart.cpp:60-93 | no write moves data ready, no read of a register other than 0 moves it, and a submission always leaves it raised |
| Board.Paged | src/machine.cpp:47-52 | the physical address of a paged access is below 1 MiB; its offset within the 32 KiB page is the CPU address, and its page is the page register's low five bits |
| Board.Physical | src/machine.cpp:54-58 | every RAM access below 0xE000 lands inside 1 MiB, and from 0x8000 up the physical address is the CPU address whatever the page register |
| Board.Read | src/machine.cpp:45-77 | RAM reads return the physical byte, the UART and disk windows forward to register `address - base` and take over its side effect, the rest of 0xE000-0xEFFF reads 0, and ROM reads return `rom[address - 0xF000]`; only the two register windows change state |
| Board.Write | src/machine.cpp:79-113 | a RAM write changes exactly the physical byte; the UART and disk windows forward to the register; 0xE800 sets the page register; every other I/O or ROM address leaves the machine unchanged |
| Board.PagedInjective | src/machine.cpp:50-51 | two paged accesses meet exactly when their pages agree in the low five bits and their offsets are equal |
| Board.PageRegisterAliases | src/machine.cpp:50 | page register values 32 apart select the same page |
| Board.PageOneAliasesFixedRam | src/machine.cpp:47-58 | with page 1 selected, the paged window and fixed RAM at 0x8000-0xDFFF are the same memory |
| Board.RamWriteThenRead | src/machine.cpp:45-92 | under one page register, a RAM read after a RAM write returns the written byte when both reach the same physical byte, and the old content otherwise |
| Board.PagesAreSeparate | src/machine.cpp:81-87 | a paged write is read back at the same address, and after switching to a different page the same address shows that page's byte |
| Board.PageSelect | src/machine.cpp:104-107 | after writing the page register, paged reads come from the selected page of physical memory |
| Board.PageRegisterWriteOnly | src/machine.cpp:59-71 | the page register reads back as 0 |
| Board.RomIsReadOnly | src/machine.cpp:109-112 | a write at or above 0xF000 changes nothing any later read can see |
| Board.PlainReadsArePure | src/machine.cpp:45-77 | reads outside the UART and disk windows have no side effect |
| HexLoader.HexChar | src/machine.cpp:121-137 | every byte maps to a nibble below 16, and a byte that is not a hexadecimal digit maps to 0 |
| HexLoader.HexCharRoundTrip | src/machine.cpp:121-137 | both the upper-case and the lower-case digit of every nibble are hexadecimal digits and map back to it |
| HexLoader.HexCharInverse | src/machine.cpp:121-137 | every hexadecimal digit is the upper-case or the lower-case digit of its value |
| HexLoader.ShiftIn32 | src/machine.cpp:179-180 | shifting a nibble into the 32-bit address puts it at the bottom and loses the top nibble |
| HexLoader.ShiftIn8 | src/machine.cpp:207-208 | shifting a nibble into the data byte puts it at the bottom and keeps the old low nibble above it |
| HexLoader.StoreFor | src/machine.cpp:209-220 | a byte is stored exactly for addresses below 0xE000 (RAM at the address) or from 0xF000 (ROM at the address minus 0xF000); bytes for 0xE000-0xEFFF are dropped |
| HexLoader.Step | src/machine.cpp:194-199 | the loader aborts exactly in state 4 on a byte that is neither the colon, a blank nor a newline |
| HexLoader.StepShape | src/machine.cpp:159-223 | tabs, carriage returns and spaces are skipped in every state, a newline returns to state 0 in every state, and only the second digit of a data byte stores anything, at the current address, which then increments |
| HexLoader.AfterByte | src/machine.cpp:224-234 | after a data byte a comma leads to the next data byte, and any other byte returns to state 0 and is itself discarded |
| HexLoader.Run | src/machine.cpp:155-240 | an empty input changes nothing, and a run makes at most one store per input byte |
| HexLoader.RunAppend | src/machine.cpp:155-240 | running over two inputs in sequence is running over their concatenation, an abort in the first ending the run |
| HexLoader.RunIgnoresDeadLocals | src/machine.cpp:143-145 | the uninitialised address and data locals never matter: runs from parsers that differ only in dead locals make the same stores and abort alike |
| HexLoader.ReadAddress | src/machine.cpp:174-193 | four upper-case address digits read from state 0 leave the parser in state 4 holding the address |
| HexLoader.ReadByte | src/machine.cpp:202-223 | two data digits read from state 5 store the byte for the current address and advance the address |
| HexLoader.ReadDataField | src/machine.cpp:202-234 | a comma-separated data field and a newline, read from state 5, make the stores for the bytes at consecutive addresses and end in state 0 |
| HexLoader.HexLineLoads | src/machine.cpp:155-234 | a line `AAAA:DD,DD,...` read from state 0 stores each data byte for its address in turn, does not abort, and ends ready for the next line |
| HexLoader.Loads | src/machine.cpp:155-157 | the loader makes at most one store per file byte, counting the EOF byte it also processes |
| HexLoader.OneLineFile | src/machine.cpp:155-243 | a file of one such line loads exactly that line's stores, without an abort |
| HexLoader.ApplyStore | src/machine.cpp:215-219 | a store changes only RAM or ROM |
| HexLoader.Apply | src/machine.cpp:215-219 | the loader's stores change only RAM and ROM, never the page register, the UART or the disk controller |
| HexLoader.ApplyIsLastStore | src/machine.cpp:215-219 | after the stores, every RAM and ROM byte holds the last value stored to it, or its old value if none was |
| HexLoader.LastStoreAppend | src/machine.cpp:215-219 | the last store to a byte in two runs of stores is the last in the second run, or failing that the last in the first |
| HexLoader.LineStoresLast | src/machine.cpp:209-222 | in a line of data that ends at or below 0xE000, the last store to RAM byte `address + k` is data byte `k` |
| HexLoader.LineStoresFit | src/machine.cpp:209-220 | a line of data that ends at or below 0x10000 stores only inside RAM and ROM |
| HexLoader.LoadHex | src/machine.cpp:139-244 | as written: a missing file reports failure and changes nothing; otherwise every byte of RAM and ROM holds the last value the file stores to it, or its old value, stores before an abort included, and the loader reports success even after an abort |
| HexLoader.Fitting | src/machine.h:111-112 | keeps only stores inside the 1 MiB RAM and the 4 KiB ROM, and keeps every store when all fit |
| HexLoader.FittingKeepsLastStore | src/machine.h:111-112 | dropping the stores that do not fit leaves the last store to every RAM and ROM byte as it was |
| HexLoader.LoadHexChecked | src/machine.cpp:139-244 | corrected: success means the file was there and parsed to its end without an abort; every RAM and ROM byte holds the last in-range value stored to it, or its old value |
| HexLoader.CheckedKeepsInRangeStores | src/machine.cpp:209-220 | the corrected loader leaves every RAM and ROM byte as the last store of the whole run to it left it, so it differs from the as-written loader only by dropping the stores outside the arrays |
| HexLoader.CheckedAgreesWhereDefined | src/machine.cpp:194-199 | where the as-written loader is defined, the corrected one loads the same bytes, and they differ only in what they report after an abort |
| HexLoader.LoadedLineInMemory | src/machine.cpp:209-216 | a one-line file for RAM below 0xE000 loads successfully and puts each data byte at its physical address |
| HexLoader.LoadedLineReadsBack | src/machine.cpp:45-58 | with page 0 selected, the CPU reads every byte of a loaded one-line file back at its address |
| HexLoader.AbortReportsSuccess | src/machine.cpp:194-199 | the file `0000X` aborts at the `X` and stores nothing, yet the as-written loader reports success, while the corrected one reports failure |
| HexLoader.RomOverflow | src/machine.cpp:217-222 | the line `FFFF:00,00` stores its second byte at ROM index 0x1000, past the 4 KiB ROM, which the corrected loader drops while still reporting success |

## Left out

- `src/main.cpp` is not part of this model. It holds the terminal set-up, the console loop, the CPU thread and command-line parsing, all of it I/O and concurrency.
- The HD6309 CPU (the `mc6809` base class), instruction execution, breakpoints, tracing and the `status` hook: the CPU is a foreign class.
- The mutex that every `Machine` entry point takes: each operation is modelled as one atomic step.
- `Machine::loadRom` and `Machine::mountDisk`: they only open a file and fill the ROM or call `loadImage`, which is modelled with the file as a parameter.
- File I/O in `loadImage` and `loadHex`: a file is its contents (`Option` of a byte sequence, with `None` for a file that cannot be opened). The ignored `fread` result, the file handle leaked on the oversize and abort paths, and the progress messages are not modelled.
- The `DiskIO` constructor's hard-coded image loads and its disabled block of `setByte` calls; `DiskIO.Initial` models only the four empty slots it allocates.
- The `DIR_t` directory-entry record: no modelled operation reads it.
- Uninitialised state is taken as parameters: the disk registers and cursor after construction, the UART's receive buffer, and the contents of the 1 MiB memory block.
- The `Machine` constructor is not modelled separately. Its only effect on the modelled state is page register 0, which `HexLoader.LoadedLineReadsBack` assumes.
- The debugging `printf` calls, and the "Serial buffer overrun!" message `submitSerialChar` prints on every overrun. The UART's console output is a transmit trace in `Serial.Uart.tx`.
- The UART divisor latch registers and a receive FIFO: the source writes nothing to the divisor latch, and the FIFO is absent.
- `loadHex`'s `default` branch: the state is always between 0 and 7, so it cannot be reached, and the model's state type rules it out.
- Undefined behaviour becomes a precondition. A data access or `setByte` outside the image, a geometry read of an image shorter than 552 bytes and, for `HexLoader.LoadHex`, a ROM store past 4 KiB are all excluded.
- The declarations in `src/diskio.h` of `m_drives` as a `uint32_t` and the missing `loadImage`, `getGeometry` and `setByte` declarations are stale: the controller's shape follows `src/diskio.cpp`.
- DiskProtocol.WriteStream: requires `SectorKeepsPlace` (track 0, or a sector that does not hold byte 551 of the image), because a write to the SIR's end-sector byte changes the geometry in mid-stream and the rest of the stream lands elsewhere (`DiskProtocol.SirWriteMovesSector`).
- DiskProtocol.WriteSector: requires `SectorKeepsPlace`, for the same reason.
- DiskProtocol.WrittenSector: requires `SectorKeepsPlace`, for the same reason.
- DiskProtocol.SectorRoundTrip: requires `SectorKeepsPlace`, for the same reason; the write-then-read round trip is not promised for a sector that holds the SIR's end-sector byte off track 0.
- DiskProtocol.WritePastSector: requires `SectorKeepsPlace`, for the same reason.
- HexLoader.LoadHex: requires every store to fit, so its as-written write past the ROM array is characterised by `HexLoader.RomOverflow` rather than modelled.

## Findings

| source | as written | input that shows it | evidently intended | confidence | as-written member | corrected member |
|---|---|---|---|---|---|---|
| src/machine.cpp:194-199 | on a missing colon `loadHex` returns `-1` from a function returning `bool`, which converts to `true`, so the caller at src/main.cpp:92-95 treats a malformed file as loaded | a file `0000X` | report failure, like the `default` branch does | high; not executed | HexLoader.AbortReportsSuccess | HexLoader.LoadHexChecked |
| src/machine.cpp:217-222 | a byte for an address from 0xF000 goes to `m_rom[address - 0xF000]` with no upper bound, and the address keeps counting past 0xFFFF, so the 4 KiB array (src/machine.h:112) is written past its end | the line `FFFF:00,00` | drop bytes past the top of the 16-bit address space, as bytes for the I/O space are dropped | high; not executed | HexLoader.RomOverflow | HexLoader.LoadHexChecked |
