/**
  The fake FLEX disk controller of the HD6309 simulator (class `DiskIO`).

  The controller has five 8-bit registers (track, sector, drive, command,
  status), an 8-bit byte cursor and four drive slots holding raw disk images.
  A data-register access reads the disk geometry out of the selected image's
  System Information Record (SIR), turns (track, sector, cursor) into a byte
  offset and reads or writes that byte.
 */
module DiskIO {
  import opened Prelude

  const NUM_DRIVES: nat := 4
  const SECTOR_SIZE: nat := 256
  /** FLEX does not support images larger than 16 MiB. */
  const MAX_IMAGE_SIZE: nat := 1024 * 1024 * 16

  // Command register encoding.
  const IDLE_CMD: byte := 0
  const READ_SECTOR: byte := 1
  const WRITE_SECTOR: byte := 2
  const SEEK_SECTOR: byte := 3
  const MAX_CMD: byte := 4

  // Status register values.
  const STATUS_OK: byte := 0
  const STATUS_ERROR: byte := 0xFF

  // Register indices on the controller's bus window.
  const REG_COMMAND: byte := 0
  const REG_DATA: byte := 1
  const REG_DRIVE: byte := 2
  const REG_TRACK: byte := 3
  const REG_SECTOR: byte := 4
  const REG_STATUS: byte := 5

  /** The command register read as a closed enumeration; every value from `MAX_CMD` up is invalid. */
  datatype Command = Idle | ReadSector | WriteSector | SeekSector | Invalid(code: byte)

  function DecodeCommand(v: byte): (c: Command)
    ensures c.Invalid? <==> v >= MAX_CMD
    ensures c.Invalid? ==> c.code == v
    ensures c == Idle <==> v == IDLE_CMD
    ensures c == ReadSector <==> v == READ_SECTOR
    ensures c == WriteSector <==> v == WRITE_SECTOR
    ensures c == SeekSector <==> v == SEEK_SECTOR
  {
    if v == IDLE_CMD then Idle
    else if v == READ_SECTOR then ReadSector
    else if v == WRITE_SECTOR then WriteSector
    else if v == SEEK_SECTOR then SeekSector
    else Invalid(v)
  }

  /** An `Invalid` command carries a code that really is invalid. */
  predicate ValidCommand(c: Command) {
    c.Invalid? ==> c.code >= MAX_CMD
  }

  function EncodeCommand(c: Command): (v: byte)
    requires ValidCommand(c)
    ensures v < MAX_CMD <==> !c.Invalid?
    ensures v == IDLE_CMD <==> c == Idle
    ensures v == READ_SECTOR <==> c == ReadSector
    ensures v == WRITE_SECTOR <==> c == WriteSector
    ensures v == SEEK_SECTOR <==> c == SeekSector
  {
    match c
    case Idle => IDLE_CMD
    case ReadSector => READ_SECTOR
    case WriteSector => WRITE_SECTOR
    case SeekSector => SEEK_SECTOR
    case Invalid(code) => code
  }

  /** Decoding and encoding a command value are inverse to each other, in both directions. */
  lemma CommandRoundTrip(v: byte, c: Command)
    requires ValidCommand(c)
    ensures ValidCommand(DecodeCommand(v)) && EncodeCommand(DecodeCommand(v)) == v
    ensures DecodeCommand(EncodeCommand(c)) == c
  {
  }

  // ---------------------------------------------------------------------
  // The System Information Record

  /** The SIR sits 16 bytes into the third 256-byte sector of the image. */
  const SIR_OFFSET: nat := 256 * 2 + 16
  /** The packed record is 24 bytes long. */
  const SIR_SIZE: nat := 24
  const LABEL_SIZE: nat := 11
  /** Offsets of the two geometry fields inside the record. */
  const END_TRACK_FIELD: nat := 22
  const END_SECTOR_FIELD: nat := 23

  /** The fields of the packed SIR; the two 16-bit fields are stored big-endian. */
  datatype Sir = Sir(
    volumeLabel: seq<byte>,
    volumeNumber: nat,
    firstFreeTrack: byte,
    firstFreeSector: byte,
    lastFreeTrack: byte,
    lastFreeSector: byte,
    freeSectors: nat,
    month: byte,
    day: byte,
    year: byte,
    endTrack: byte,
    endSector: byte)

  predicate WellFormedSir(s: Sir) {
    |s.volumeLabel| == LABEL_SIZE && s.volumeNumber < TWO_16 && s.freeSectors < TWO_16
  }

  function DecodeSir(b: seq<byte>): (s: Sir)
    requires |b| == SIR_SIZE
    ensures WellFormedSir(s)
  {
    Sir(b[..LABEL_SIZE], b[11] as int * 256 + b[12], b[13], b[14], b[15], b[16],
        b[17] as int * 256 + b[18], b[19], b[20], b[21], b[22], b[23])
  }

  /** The packed layout: the label first, then each field in declaration order, the 16-bit fields high byte first. */
  function EncodeSir(s: Sir): (b: seq<byte>)
    requires WellFormedSir(s)
    ensures |b| == SIR_SIZE
    ensures b[..LABEL_SIZE] == s.volumeLabel
    ensures b[11] as int * 256 + b[12] == s.volumeNumber && b[11] == s.volumeNumber / 256
    ensures b[13] == s.firstFreeTrack && b[14] == s.firstFreeSector
    ensures b[15] == s.lastFreeTrack && b[16] == s.lastFreeSector
    ensures b[17] as int * 256 + b[18] == s.freeSectors && b[17] == s.freeSectors / 256
    ensures b[19] == s.month && b[20] == s.day && b[21] == s.year
    ensures b[END_TRACK_FIELD] == s.endTrack && b[END_SECTOR_FIELD] == s.endSector
  {
    s.volumeLabel
    + [s.volumeNumber / 256, s.volumeNumber % 256,
       s.firstFreeTrack, s.firstFreeSector, s.lastFreeTrack, s.lastFreeSector,
       s.freeSectors / 256, s.freeSectors % 256,
       s.month, s.day, s.year, s.endTrack, s.endSector]
  }

  /** Every well-formed record survives being laid out and read back. */
  lemma DecodeEncodeSir(s: Sir)
    requires WellFormedSir(s)
    ensures DecodeSir(EncodeSir(s)) == s
  {
    var b := EncodeSir(s);
    assert b[..LABEL_SIZE] == s.volumeLabel;
  }

  /** Every 24-byte window is the layout of the record decoded from it. */
  lemma EncodeDecodeSir(b: seq<byte>)
    requires |b| == SIR_SIZE
    ensures EncodeSir(DecodeSir(b)) == b
  {
    var e := EncodeSir(DecodeSir(b));
    assert forall i | 0 <= i < SIR_SIZE :: e[i] == b[i];
  }

  /** Decoding reads each field from where the packed layout puts it: the 16-bit fields big-endian, the geometry in the last two bytes. */
  lemma DecodeSirFields(b: seq<byte>)
    requires |b| == SIR_SIZE
    ensures var s := DecodeSir(b);
      && s.volumeLabel == b[..LABEL_SIZE]
      && s.volumeNumber == b[11] as int * 256 + b[12]
      && s.freeSectors == b[17] as int * 256 + b[18]
      && s.endTrack == b[END_TRACK_FIELD] && s.endSector == b[END_SECTOR_FIELD]
  {
    EncodeDecodeSir(b);
  }

  // ---------------------------------------------------------------------
  // Geometry

  datatype Geometry = Geometry(tracks: byte, sectors: byte)

  /** The image is long enough for the SIR's geometry fields to be read. */
  predicate HasSir(img: seq<byte>) {
    |img| >= SIR_OFFSET + SIR_SIZE
  }

  /** Geometry of a mounted image: one more track than the last track number, and the last sector number as is. */
  function ImageGeometry(img: seq<byte>): (g: Geometry)
    requires HasSir(img)
    ensures g.tracks == (img[550] as int + 1) % 256
    ensures g.sectors == img[551]
  {
    var sir := DecodeSir(img[SIR_OFFSET..SIR_OFFSET + SIR_SIZE]);
    Geometry(Wrap8(sir.endTrack + 1), sir.endSector)
  }

  /** The geometry read of `drive` stays inside its image. */
  predicate GeometryReadable(drives: seq<seq<byte>>, drive: int) {
    0 <= drive < |drives| ==> HasSir(drives[drive])
  }

  /** `getGeometry`: fails exactly for a drive number beyond the slots; it makes no size check of its own. */
  function GetGeometry(drives: seq<seq<byte>>, drive: byte): (g: Option<Geometry>)
    requires GeometryReadable(drives, drive)
    ensures g.Some? <==> drive < |drives|
    ensures g.Some? ==> g.value.tracks == (drives[drive][550] as int + 1) % 256
    ensures g.Some? ==> g.value.sectors == drives[drive][551]
  {
    if drive < |drives| then Some(ImageGeometry(drives[drive])) else None
  }

  /** A record laid out at the SIR offset determines the geometry through its end-track and end-sector fields. */
  lemma GeometryFromSir(img: seq<byte>, sir: Sir)
    requires WellFormedSir(sir)
    requires HasSir(img) && img[SIR_OFFSET..SIR_OFFSET + SIR_SIZE] == EncodeSir(sir)
    ensures ImageGeometry(img) == Geometry((sir.endTrack + 1) % 256, sir.endSector)
  {
    DecodeEncodeSir(sir);
  }

  // ---------------------------------------------------------------------
  // Address arithmetic

  /** The documented layout: 256-byte sectors, 1-based sector numbers, 0-based track numbers. */
  function SectorStart(g: Geometry, track: byte, sector: byte): int {
    256 * ((sector - 1) + g.sectors * track)
  }

  /** The sector offset as the data-register read computes it, in `uint32_t`. */
  function ReadOffset(g: Geometry, track: byte, sector: byte): u32 {
    Wrap32(256 * Wrap32(Wrap32(sector - 1) + g.sectors * track))
  }

  /** The sector offset as the data-register write computes it: in `int`, then stored in a `size_t`. */
  function WriteOffset(g: Geometry, track: byte, sector: byte): int {
    WrapSize(256 * ((sector - 1) + g.sectors * track))
  }

  lemma ProductBound(a: byte, b: byte)
    ensures 0 <= a * b <= 255 * 255
  {
    assert a * b <= a * 255 <= 255 * 255;
  }

  /** Read and write agree with the documented layout whenever it yields a non-negative start; the start is then at most one sector below 16 MiB. */
  lemma OffsetsMatchLayout(g: Geometry, track: byte, sector: byte)
    requires SectorStart(g, track, sector) >= 0
    ensures ReadOffset(g, track, sector) == SectorStart(g, track, sector)
    ensures WriteOffset(g, track, sector) == SectorStart(g, track, sector)
    ensures SectorStart(g, track, sector) + SECTOR_SIZE <= MAX_IMAGE_SIZE
  {
    ProductBound(g.sectors, track);
    var p := g.sectors * track;
    if sector == 0 {
      assert Wrap32(sector - 1) == TWO_32 - 1;
      assert Wrap32(TWO_32 - 1 + p) == p - 1;
    }
  }

  /** With sector 0 on track 0 (or a zero sector count) both offsets wrap to just below the top of their integer type. */
  lemma OffsetsWrapBelowZero(g: Geometry, track: byte, sector: byte)
    requires SectorStart(g, track, sector) < 0
    ensures sector == 0 && g.sectors * track == 0
    ensures ReadOffset(g, track, sector) == TWO_32 - SECTOR_SIZE
    ensures WriteOffset(g, track, sector) == TWO_64 - SECTOR_SIZE
  {
    ProductBound(g.sectors, track);
  }

  // ---------------------------------------------------------------------
  // Controller state

  datatype Controller = Controller(
    track: byte,
    sector: byte,
    drive: byte,
    cmd: byte,
    status: byte,
    byteIdx: byte,
    drives: seq<seq<byte>>)

  /** Four slots, none holding more than 16 MiB. */
  predicate Valid(c: Controller) {
    && |c.drives| == NUM_DRIVES
    && forall i | 0 <= i < |c.drives| :: |c.drives[i]| <= MAX_IMAGE_SIZE
  }

  /** The constructed controller: four empty slots. The constructor leaves the registers uninitialised, so they are parameters. */
  function Initial(track: byte, sector: byte, drive: byte, cmd: byte, status: byte, byteIdx: byte): (c: Controller)
    ensures Valid(c)
    ensures forall i | 0 <= i < NUM_DRIVES :: c.drives[i] == []
  {
    Controller(track, sector, drive, cmd, status, byteIdx, [[], [], [], []])
  }

  /** Index of the byte a data-register read touches: the offset plus the cursor, in `size_t`. */
  function ReadIndex(g: Geometry, c: Controller): nat {
    ReadOffset(g, c.track, c.sector) + c.byteIdx
  }

  /** Index of the byte a data-register write touches: the offset plus the cursor, in `size_t`. */
  function WriteIndex(g: Geometry, c: Controller): nat {
    WrapSize(WriteOffset(g, c.track, c.sector) + c.byteIdx)
  }

  /**
    Reads and writes touch the same byte whenever either lies inside a
    16 MiB image, and that byte is byte `byteIdx` of the sector numbered
    `(sector - 1) + sectors * track`.
   */
  lemma AccessWithinSector(g: Geometry, c: Controller)
    requires ReadIndex(g, c) < MAX_IMAGE_SIZE || WriteIndex(g, c) < MAX_IMAGE_SIZE
    ensures ReadIndex(g, c) == WriteIndex(g, c) == SectorStart(g, c.track, c.sector) + c.byteIdx
    ensures ReadIndex(g, c) / SECTOR_SIZE == (c.sector - 1) + g.sectors * c.track
    ensures ReadIndex(g, c) % SECTOR_SIZE == c.byteIdx
  {
    if SectorStart(g, c.track, c.sector) < 0 {
      OffsetsWrapBelowZero(g, c.track, c.sector);
      assert false;
    }
    OffsetsMatchLayout(g, c.track, c.sector);
  }

  /** With a non-negative sector start, read and write both touch byte `byteIdx` past the start. */
  lemma IndexAtLayout(g: Geometry, c: Controller)
    requires SectorStart(g, c.track, c.sector) >= 0
    ensures ReadIndex(g, c) == SectorStart(g, c.track, c.sector) + c.byteIdx
    ensures WriteIndex(g, c) == SectorStart(g, c.track, c.sector) + c.byteIdx
  {
    OffsetsMatchLayout(g, c.track, c.sector);
  }

  /** The data-register read stays inside the selected image. The source makes no bound check, so this is what callers must ensure. */
  predicate ReadInBounds(c: Controller)
    requires Valid(c)
  {
    c.cmd == READ_SECTOR && c.drive < NUM_DRIVES ==>
      && HasSir(c.drives[c.drive])
      && ReadIndex(ImageGeometry(c.drives[c.drive]), c) < |c.drives[c.drive]|
  }

  /** The data-register write stays inside the selected image. */
  predicate WriteInBounds(c: Controller)
    requires Valid(c)
  {
    c.cmd == WRITE_SECTOR && c.drive < NUM_DRIVES ==>
      && HasSir(c.drives[c.drive])
      && WriteIndex(ImageGeometry(c.drives[c.drive]), c) < |c.drives[c.drive]|
  }

  /** `after` differs from `before` in byte `i` of slot `d` alone, which now holds `v`. */
  ghost predicate OneByteWritten(before: seq<seq<byte>>, after: seq<seq<byte>>, d: nat, i: nat, v: byte) {
    && |after| == |before|
    && d < |before| && i < |before[d]|
    && (forall k | 0 <= k < |before| && k != d :: after[k] == before[k])
    && |after[d]| == |before[d]|
    && after[d][i] == v
    && (forall j | 0 <= j < |before[d]| && j != i :: after[d][j] == before[d][j])
  }

  // ---------------------------------------------------------------------
  // Operations

  /**
    `loadImage` with the file abstracted to its contents (`None` when it
    cannot be opened). The slot is replaced wholesale; a failure changes nothing.
   */
  function LoadImage(c: Controller, drive: byte, file: Option<seq<byte>>): (r: (bool, Controller))
    requires Valid(c)
    ensures Valid(r.1)
    ensures r.0 <==> drive < NUM_DRIVES && file.Some? && |file.value| <= MAX_IMAGE_SIZE
    ensures r.0 ==> r.1.drives[drive] == file.value
    ensures !r.0 ==> r.1 == c
    ensures forall k | 0 <= k < NUM_DRIVES && k != drive :: r.1.drives[k] == c.drives[k]
    ensures r.1.(drives := c.drives) == c
  {
    if drive >= |c.drives| then (false, c)
    else if file.None? then (false, c)
    else if |file.value| > MAX_IMAGE_SIZE then (false, c)
    else (true, c.(drives := c.drives[drive := file.value]))
  }

  /** `setByte`'s index: the sector arithmetic in `uint32_t`, plus the byte offset in `size_t`. */
  function SetByteIndex(g: Geometry, track: u32, sector: u32, byteofs: u32): nat {
    Wrap32(256 * Wrap32(Wrap32(sector - 1) + Wrap32(g.sectors * track))) + byteofs
  }

  /** For 8-bit track and sector numbers, sector at least 1, `setByte` writes byte `byteofs` past the documented sector start. */
  lemma SetByteIndexAtLayout(g: Geometry, track: u32, sector: u32, byteofs: u32)
    requires 1 <= sector < 256 && track < 256
    ensures SetByteIndex(g, track, sector, byteofs) == SectorStart(g, track, sector) + byteofs
  {
    ProductBound(g.sectors, track);
    OffsetsMatchLayout(g, track, sector);
  }

  /**
    What `setByte` needs to stay defined: the geometry is looked up with the
    drive number truncated to 8 bits but the slot is indexed with the full
    number, and the computed byte must lie inside the image.
   */
  predicate SetByteDefined(c: Controller, drive: u32, track: u32, sector: u32, byteofs: u32)
    requires Valid(c)
  {
    Wrap8(drive) < NUM_DRIVES ==>
      && drive < NUM_DRIVES
      && HasSir(c.drives[drive])
      && SetByteIndex(ImageGeometry(c.drives[drive]), track, sector, byteofs) < |c.drives[drive]|
  }

  /** `setByte`: store one byte of a sector directly into a drive image, bypassing the registers. */
  function SetByte(c: Controller, drive: u32, track: u32, sector: u32, byteofs: u32, value: byte): (r: Controller)
    requires Valid(c) && SetByteDefined(c, drive, track, sector, byteofs)
    ensures Valid(r)
    ensures r.(drives := c.drives) == c
    ensures drive >= NUM_DRIVES ==> r == c
    ensures drive < NUM_DRIVES ==>
      OneByteWritten(c.drives, r.drives, drive, SetByteIndex(ImageGeometry(c.drives[drive]), track, sector, byteofs), value)
  {
    var g := GetGeometry(c.drives, Wrap8(drive));
    if g.None? then c
    else
      var img := c.drives[drive];
      var i := SetByteIndex(g.value, track, sector, byteofs);
      c.(drives := c.drives[drive := img[i := value]])
  }

  /** What a register read needs from the caller: a data read must land inside the image. */
  predicate ReadDefined(c: Controller, reg: byte)
    requires Valid(c)
  {
    reg == REG_DATA ==> ReadInBounds(c)
  }

  /** What a register write needs from the caller: a data write must land inside the image. */
  predicate WriteDefined(c: Controller, reg: byte)
    requires Valid(c)
  {
    reg == REG_DATA ==> WriteInBounds(c)
  }

  /** A data access succeeds when the command matches and the geometry of the selected drive is available. */
  predicate DataReady(c: Controller, command: byte) {
    c.cmd == command && c.drive < NUM_DRIVES
  }

  /**
    `readReg`. Reading the status register is the only read without a side
    effect; every other defined register reads back its value and clears the
    status; a data read streams the next byte of the selected sector; an
    unknown register reads 0 and flags an error. No read changes an image.
   */
  function ReadReg(c: Controller, reg: byte): (r: Access<Controller>)
    requires Valid(c) && ReadDefined(c, reg)
    ensures Valid(r.next) && r.next.drives == c.drives
    ensures reg == REG_STATUS ==> r.value == c.status && r.next == c
    ensures reg == REG_COMMAND ==> r.value == c.cmd && r.next == c.(status := STATUS_OK)
    ensures reg == REG_DRIVE ==> r.value == c.drive && r.next == c.(status := STATUS_OK)
    ensures reg == REG_TRACK ==> r.value == c.track && r.next == c.(status := STATUS_OK)
    ensures reg == REG_SECTOR ==> r.value == c.sector && r.next == c.(status := STATUS_OK)
    ensures reg == REG_DATA ==> (r.next.status == STATUS_OK <==> DataReady(c, READ_SECTOR))
    ensures reg == REG_DATA && DataReady(c, READ_SECTOR) ==>
      && r.value == c.drives[c.drive][ReadIndex(ImageGeometry(c.drives[c.drive]), c)]
      && r.next == c.(status := STATUS_OK, byteIdx := (c.byteIdx + 1) % 256)
    ensures reg == REG_DATA && !DataReady(c, READ_SECTOR) ==>
      r.value == 0 && r.next == c.(status := STATUS_ERROR)
    ensures reg > REG_STATUS ==> r.value == 0 && r.next == c.(status := STATUS_ERROR)
  {
    if reg == REG_COMMAND then
      Access(c.cmd, c.(status := STATUS_OK))
    else if reg == REG_DATA then
      if c.cmd == READ_SECTOR then
        var g := GetGeometry(c.drives, c.drive);
        if g.None? then
          Access(0, c.(status := STATUS_ERROR))
        else
          var v := c.drives[c.drive][ReadIndex(g.value, c)];
          Access(v, c.(status := STATUS_OK, byteIdx := Wrap8(c.byteIdx + 1)))
      else
        Access(0, c.(status := STATUS_ERROR))
    else if reg == REG_DRIVE then
      Access(c.drive, c.(status := STATUS_OK))
    else if reg == REG_TRACK then
      Access(c.track, c.(status := STATUS_OK))
    else if reg == REG_SECTOR then
      Access(c.sector, c.(status := STATUS_OK))
    else if reg == REG_STATUS then
      Access(c.status, c)
    else
      Access(0, c.(status := STATUS_ERROR))
  }

  /**
    `writeReg`. Writing the command register rewinds the cursor and accepts
    exactly the four known commands; writing drive, track or sector stores the
    value and rewinds the cursor without touching the status; a data write
    stores one byte of the selected sector; any other register only flags an
    error.
   */
  function WriteReg(c: Controller, reg: byte, value: byte): (r: Controller)
    requires Valid(c) && WriteDefined(c, reg)
    ensures Valid(r)
    ensures reg == REG_COMMAND ==>
      && r.cmd == value && r.byteIdx == 0
      && (r.status == STATUS_OK <==> !DecodeCommand(value).Invalid?)
      && (r.status == STATUS_OK || r.status == STATUS_ERROR)
      && r.(cmd := c.cmd, byteIdx := c.byteIdx, status := c.status) == c
    ensures reg == REG_DATA ==> (r.status == STATUS_OK <==> DataReady(c, WRITE_SECTOR))
    ensures reg == REG_DATA && DataReady(c, WRITE_SECTOR) ==>
      && OneByteWritten(c.drives, r.drives, c.drive, WriteIndex(ImageGeometry(c.drives[c.drive]), c), value)
      && r.byteIdx == (c.byteIdx + 1) % 256
      && r.(drives := c.drives, byteIdx := c.byteIdx, status := c.status) == c
    ensures reg == REG_DATA && !DataReady(c, WRITE_SECTOR) ==> r == c.(status := STATUS_ERROR)
    ensures reg == REG_DRIVE ==> r.drive == value && r.(drive := c.drive, byteIdx := c.byteIdx) == c
    ensures reg == REG_TRACK ==> r.track == value && r.(track := c.track, byteIdx := c.byteIdx) == c
    ensures reg == REG_SECTOR ==> r.sector == value && r.(sector := c.sector, byteIdx := c.byteIdx) == c
    ensures REG_DRIVE <= reg <= REG_SECTOR ==> r.byteIdx == 0 && r.status == c.status
    ensures reg >= REG_STATUS ==> r == c.(status := STATUS_ERROR)
  {
    if reg == REG_COMMAND then
      c.(cmd := value, byteIdx := 0, status := if value < MAX_CMD then STATUS_OK else STATUS_ERROR)
    else if reg == REG_DATA then
      if c.cmd == WRITE_SECTOR then
        var g := GetGeometry(c.drives, c.drive);
        if g.None? then
          c.(status := STATUS_ERROR)
        else
          var img := c.drives[c.drive];
          var i := WriteIndex(g.value, c);
          c.(drives := c.drives[c.drive := img[i := value]],
             byteIdx := Wrap8(c.byteIdx + 1),
             status := STATUS_OK)
      else
        c.(status := STATUS_ERROR)
    else if reg == REG_DRIVE then
      c.(drive := value, byteIdx := 0)
    else if reg == REG_TRACK then
      c.(track := value, byteIdx := 0)
    else if reg == REG_SECTOR then
      c.(sector := value, byteIdx := 0)
    else
      c.(status := STATUS_ERROR)
  }

  // ---------------------------------------------------------------------
  // Register properties

  /** The command, drive, track and sector registers read back the value last written, and the read reports success. */
  lemma RegisterReadBack(c: Controller, reg: byte, v: byte)
    requires Valid(c)
    requires reg == REG_COMMAND || reg == REG_DRIVE || reg == REG_TRACK || reg == REG_SECTOR
    ensures ReadReg(WriteReg(c, reg, v), reg).value == v
    ensures ReadReg(WriteReg(c, reg, v), reg).next.status == STATUS_OK
  {
  }

  /** Idle, seek and unknown commands leave the data register unusable in both directions: accesses fail and change no image. */
  lemma DataNeedsTransferCommand(c: Controller, v: byte)
    requires Valid(c) && c.cmd != READ_SECTOR && c.cmd != WRITE_SECTOR
    ensures ReadReg(c, REG_DATA).next.status == STATUS_ERROR
    ensures WriteReg(c, REG_DATA, v) == c.(status := STATUS_ERROR)
  {
  }

  /** An image whose SIR ends at track 34 and sector 10 has 35 tracks of 10 sectors. */
  lemma ExampleGeometry(img: seq<byte>)
    requires HasSir(img) && img[SIR_OFFSET + END_TRACK_FIELD] == 34 && img[SIR_OFFSET + END_SECTOR_FIELD] == 10
    ensures ImageGeometry(img) == Geometry(35, 10)
  {
  }
}
