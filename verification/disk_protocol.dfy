/**
  The host side of the disk controller's protocol: select drive, track,
  sector and command through the registers, then stream a sector's bytes
  through the data register. The properties here span many register
  accesses: the cursor wraps within one sector, and a sector written and
  re-selected reads back as written.
 */
module DiskProtocol {
  import opened Prelude
  import opened DiskIO

  /** The selection registers (drive, track, sector, command) of `a` and `b` agree. */
  predicate SameSelection(a: Controller, b: Controller) {
    a.drive == b.drive && a.track == b.track && a.sector == b.sector && a.cmd == b.cmd
  }

  /** Select a sector the way a host does: drive, track and sector, then the command. */
  method Select(c: Controller, drive: byte, track: byte, sector: byte, command: byte) returns (r: Controller)
    requires Valid(c)
    ensures Valid(r) && r.drives == c.drives
    ensures r.drive == drive && r.track == track && r.sector == sector && r.cmd == command
    ensures r.byteIdx == 0
    ensures r.status == STATUS_OK <==> command < MAX_CMD
  {
    r := WriteReg(c, REG_DRIVE, drive);
    r := WriteReg(r, REG_TRACK, track);
    r := WriteReg(r, REG_SECTOR, sector);
    r := WriteReg(r, REG_COMMAND, command);
  }

  /** Start of sector `sector` of track `track` in image `img`, by the sector count in the image's SIR. */
  function StartIn(img: seq<byte>, track: byte, sector: byte): int
    requires HasSir(img)
  {
    256 * ((sector - 1) + img[SIR_OFFSET + END_SECTOR_FIELD] * track)
  }

  /** `StartIn` is the documented layout under the image's own geometry. */
  lemma StartInLayout(img: seq<byte>, track: byte, sector: byte)
    requires HasSir(img)
    ensures StartIn(img, track, sector) == SectorStart(ImageGeometry(img), track, sector)
  {
  }

  /** The whole sector lies inside the mounted image of `drive`. */
  predicate SectorInImage(drives: seq<seq<byte>>, drive: byte, track: byte, sector: byte) {
    && drive < |drives|
    && HasSir(drives[drive])
    && 0 <= StartIn(drives[drive], track, sector)
    && StartIn(drives[drive], track, sector) + SECTOR_SIZE <= |drives[drive]|
  }

  /**
    Writing the sector cannot move it: either it is on track 0, whose layout
    ignores the sector count, or it does not hold the SIR's end-sector byte.
   */
  predicate SectorKeepsPlace(drives: seq<seq<byte>>, drive: byte, track: byte, sector: byte)
    requires SectorInImage(drives, drive, track, sector)
  {
    var start := StartIn(drives[drive], track, sector);
    track == 0 || !(start <= SIR_OFFSET + END_SECTOR_FIELD < start + SECTOR_SIZE)
  }

  /** `img` with `data` laid over it from index `start` on. */
  function Overlay(img: seq<byte>, start: int, data: seq<byte>): (r: seq<byte>)
    requires 0 <= start && start + |data| <= |img|
    ensures |r| == |img|
  {
    seq(|img|, i requires 0 <= i < |img| => if start <= i < start + |data| then data[i - start] else img[i])
  }

  /** Inside the window `Overlay` shows `data`, outside it the original image. */
  lemma OverlayContents(img: seq<byte>, start: int, data: seq<byte>)
    requires 0 <= start && start + |data| <= |img|
    ensures forall i | 0 <= i < |img| ::
      Overlay(img, start, data)[i] == (if start <= i < start + |data| then data[i - start] else img[i])
  {
  }

  /** Two images with the same end-sector field (or any two, on track 0) place a sector alike. */
  lemma StartStable(img: seq<byte>, img': seq<byte>, track: byte, sector: byte)
    requires HasSir(img) && HasSir(img')
    requires track == 0 || img'[SIR_OFFSET + END_SECTOR_FIELD] == img[SIR_OFFSET + END_SECTOR_FIELD]
    ensures StartIn(img', track, sector) == StartIn(img, track, sector)
  {
  }

  /** Advancing an 8-bit counter by one is advancing the count by one, modulo 256. */
  lemma CounterStep(x: nat)
    ensures (x % 256 + 1) % 256 == (x + 1) % 256
  {
  }

  /** Laying one more byte over an overlaid image extends the overlay by that byte. */
  lemma OverlayStep(img: seq<byte>, start: int, data: seq<byte>, k: nat)
    requires k < |data| && 0 <= start && start + |data| <= |img|
    ensures Overlay(img, start, data[..k + 1]) == Overlay(img, start, data[..k])[start + k := data[k]]
  {
    var a := Overlay(img, start, data[..k + 1]);
    var b := Overlay(img, start, data[..k])[start + k := data[k]];
    assert forall i | 0 <= i < |img| :: a[i] == b[i];
  }

  /** An overlay that misses the SIR's end-sector byte leaves it alone. */
  lemma OverlayKeepsEndSector(img: seq<byte>, start: int, data: seq<byte>)
    requires HasSir(img) && |data| <= SECTOR_SIZE && 0 <= start && start + |data| <= |img|
    requires !(start <= SIR_OFFSET + END_SECTOR_FIELD < start + SECTOR_SIZE)
    ensures Overlay(img, start, data)[SIR_OFFSET + END_SECTOR_FIELD] == img[SIR_OFFSET + END_SECTOR_FIELD]
  {
  }

  /** One data-register read on an addressable sector returns the byte under the cursor and advances the cursor. */
  lemma ReadStep(c: Controller)
    requires Valid(c) && c.cmd == READ_SECTOR
    requires SectorInImage(c.drives, c.drive, c.track, c.sector)
    ensures ReadDefined(c, REG_DATA)
    ensures ReadReg(c, REG_DATA).value == c.drives[c.drive][StartIn(c.drives[c.drive], c.track, c.sector) + c.byteIdx]
    ensures ReadReg(c, REG_DATA).next == c.(status := STATUS_OK, byteIdx := (c.byteIdx + 1) % 256)
  {
    StartInLayout(c.drives[c.drive], c.track, c.sector);
    IndexAtLayout(ImageGeometry(c.drives[c.drive]), c);
  }

  /** One data-register write on an addressable sector stores the byte under the cursor, at index `i`, and advances the cursor. */
  lemma WriteStep(c: Controller, v: byte, i: int)
    requires Valid(c) && c.cmd == WRITE_SECTOR
    requires SectorInImage(c.drives, c.drive, c.track, c.sector)
    requires i == StartIn(c.drives[c.drive], c.track, c.sector) + c.byteIdx
    ensures WriteDefined(c, REG_DATA)
    ensures 0 <= i < |c.drives[c.drive]|
    ensures var img': seq<byte> := c.drives[c.drive][i := v];
      WriteReg(c, REG_DATA, v) == c.(drives := c.drives[c.drive := img'], byteIdx := (c.byteIdx + 1) % 256, status := STATUS_OK)
  {
    StartInLayout(c.drives[c.drive], c.track, c.sector);
    IndexAtLayout(ImageGeometry(c.drives[c.drive]), c);
  }

  /** After `k` bytes of `data` written from controller `c`, the controller is `r`. */
  ghost predicate WriteProgress(c: Controller, data: seq<byte>, k: nat, r: Controller)
    requires Valid(c) && SectorInImage(c.drives, c.drive, c.track, c.sector)
  {
    var img := c.drives[c.drive];
    && k <= |data| <= SECTOR_SIZE
    && r == c.(drives := c.drives[c.drive := Overlay(img, StartIn(img, c.track, c.sector), data[..k])],
               byteIdx := k % 256,
               status := if k > 0 then STATUS_OK else c.status)
  }

  /** Storing byte `k` of `data` at its place in the sector, with the cursor advanced, extends the write progress by one byte. */
  lemma WriteProgressExtend(c: Controller, data: seq<byte>, k: nat, r: Controller, next: Controller)
    requires Valid(c) && SectorInImage(c.drives, c.drive, c.track, c.sector)
    requires k < |data| && WriteProgress(c, data, k, r)
    requires r.drive == c.drive && r.byteIdx == k && SectorInImage(r.drives, r.drive, r.track, r.sector)
    requires StartIn(r.drives[r.drive], r.track, r.sector) == StartIn(c.drives[c.drive], c.track, c.sector)
    requires var i := StartIn(r.drives[r.drive], r.track, r.sector) + r.byteIdx;
      && 0 <= i < |r.drives[r.drive]|
      && var img': seq<byte> := r.drives[r.drive][i := data[k]];
      next == r.(drives := r.drives[r.drive := img'], byteIdx := (r.byteIdx + 1) % 256, status := STATUS_OK)
    ensures WriteProgress(c, data, k + 1, next)
  {
    var img := c.drives[c.drive];
    var start := StartIn(img, c.track, c.sector);
    CounterStep(k);
    OverlayStep(img, start, data, k);
    var cur': seq<byte> := r.drives[c.drive][start + k := data[k]];
    assert r.drives[c.drive := cur'] == c.drives[c.drive := Overlay(img, start, data[..k + 1])];
  }

  /** Part way through the write the controller is still valid, armed and pointing at the same place in its image. */
  lemma WriteProgressPlace(c: Controller, data: seq<byte>, k: nat, r: Controller)
    requires Valid(c) && c.cmd == WRITE_SECTOR
    requires SectorInImage(c.drives, c.drive, c.track, c.sector)
    requires SectorKeepsPlace(c.drives, c.drive, c.track, c.sector)
    requires k < |data| && WriteProgress(c, data, k, r)
    ensures Valid(r) && r.cmd == WRITE_SECTOR && r.byteIdx == k
    ensures SectorInImage(r.drives, r.drive, r.track, r.sector)
    ensures r.drive == c.drive && r.track == c.track && r.sector == c.sector
    ensures StartIn(r.drives[r.drive], r.track, r.sector) == StartIn(c.drives[c.drive], c.track, c.sector)
    ensures |r.drives[r.drive]| == |c.drives[c.drive]|
  {
    var img := c.drives[c.drive];
    var start := StartIn(img, c.track, c.sector);
    if c.track != 0 {
      OverlayKeepsEndSector(img, start, data[..k]);
    }
    StartStable(img, r.drives[c.drive], c.track, c.sector);
    assert Valid(r);
  }

  /** Writing byte `k` keeps the progress invariant, and the write stays inside the image. */
  lemma WriteProgressStep(c: Controller, data: seq<byte>, k: nat, r: Controller)
    requires Valid(c) && c.cmd == WRITE_SECTOR
    requires SectorInImage(c.drives, c.drive, c.track, c.sector)
    requires SectorKeepsPlace(c.drives, c.drive, c.track, c.sector)
    requires k < |data| && WriteProgress(c, data, k, r)
    ensures Valid(r) && WriteDefined(r, REG_DATA)
    ensures WriteProgress(c, data, k + 1, WriteReg(r, REG_DATA, data[k]))
  {
    WriteProgressPlace(c, data, k, r);
    var i := StartIn(r.drives[r.drive], r.track, r.sector) + r.byteIdx;
    WriteStep(r, data[k], i);
    var img': seq<byte> := r.drives[r.drive][i := data[k]];
    var next := r.(drives := r.drives[r.drive := img'], byteIdx := (r.byteIdx + 1) % 256, status := STATUS_OK);
    WriteProgressExtend(c, data, k, r, next);
  }

  /**
    Stream `data` into the data register of a controller armed with the
    write command at the start of an addressable sector: the sector's first
    `|data|` bytes become `data`, nothing else in any image changes, and the
    cursor ends `|data|` bytes on, wrapping to 0 after a full sector.
   */
  method WriteStream(c: Controller, data: seq<byte>) returns (r: Controller)
    requires Valid(c) && c.cmd == WRITE_SECTOR && c.byteIdx == 0
    requires SectorInImage(c.drives, c.drive, c.track, c.sector)
    requires SectorKeepsPlace(c.drives, c.drive, c.track, c.sector)
    requires |data| <= SECTOR_SIZE
    ensures Valid(r)
    ensures var img := c.drives[c.drive];
      r.drives == c.drives[c.drive := Overlay(img, StartIn(img, c.track, c.sector), data)]
    ensures r.byteIdx == |data| % 256
    ensures SameSelection(r, c)
    ensures |data| > 0 ==> r.status == STATUS_OK
  {
    r := c;
    var k := 0;
    var img := c.drives[c.drive];
    assert Overlay(img, StartIn(img, c.track, c.sector), data[..0]) == img;
    while k < |data|
      invariant WriteProgress(c, data, k, r)
    {
      WriteProgressStep(c, data, k, r);
      r := WriteReg(r, REG_DATA, data[k]);
      k := k + 1;
    }
    assert data[..k] == data;
    assert Valid(r) by {
      assert forall d | 0 <= d < NUM_DRIVES :: |r.drives[d]| == |c.drives[d]|;
    }
  }

  /** The `n` bytes a reader sees from sector start `start`, beginning with cursor `k0`: the cursor wraps within the sector. */
  function SectorStream(img: seq<byte>, start: int, k0: byte, n: nat): (s: seq<byte>)
    requires 0 <= start && start + SECTOR_SIZE <= |img|
    ensures |s| == n
    ensures forall i | 0 <= i < n :: s[i] == img[start + (k0 + i) % 256]
  {
    seq(n, i requires 0 <= i < n => img[start + (k0 + i) % 256])
  }

  lemma SectorStreamStep(img: seq<byte>, start: int, k0: byte, n: nat)
    requires 0 <= start && start + SECTOR_SIZE <= |img|
    ensures SectorStream(img, start, k0, n + 1) == SectorStream(img, start, k0, n) + [img[start + (k0 + n) % 256]]
  {
    var a := SectorStream(img, start, k0, n + 1);
    var b := SectorStream(img, start, k0, n) + [img[start + (k0 + n) % 256]];
    assert forall i | 0 <= i < n + 1 :: a[i] == b[i];
  }

  /** After `n` bytes read from controller `c`, the bytes are `out` and the controller is `r`. */
  ghost predicate ReadProgress(c: Controller, n: nat, out: seq<byte>, r: Controller)
    requires Valid(c) && SectorInImage(c.drives, c.drive, c.track, c.sector)
  {
    && r == c.(byteIdx := (c.byteIdx + n) % 256, status := if n > 0 then STATUS_OK else c.status)
    && out == SectorStream(c.drives[c.drive], StartIn(c.drives[c.drive], c.track, c.sector), c.byteIdx, n)
  }

  /** Seeing the byte under the cursor, with the cursor advanced, extends the read progress by one byte. */
  lemma ReadProgressExtend(c: Controller, n: nat, out: seq<byte>, r: Controller, v: byte, next: Controller)
    requires Valid(c) && SectorInImage(c.drives, c.drive, c.track, c.sector)
    requires ReadProgress(c, n, out, r)
    requires v == c.drives[c.drive][StartIn(c.drives[c.drive], c.track, c.sector) + r.byteIdx]
    requires next == r.(status := STATUS_OK, byteIdx := (r.byteIdx + 1) % 256)
    ensures ReadProgress(c, n + 1, out + [v], next)
  {
    CounterStep(c.byteIdx + n);
    SectorStreamStep(c.drives[c.drive], StartIn(c.drives[c.drive], c.track, c.sector), c.byteIdx, n);
  }

  /** Reading one more byte keeps the progress invariant, and the read stays inside the image. */
  lemma ReadProgressStep(c: Controller, n: nat, out: seq<byte>, r: Controller)
    requires Valid(c) && c.cmd == READ_SECTOR
    requires SectorInImage(c.drives, c.drive, c.track, c.sector)
    requires ReadProgress(c, n, out, r)
    ensures Valid(r) && ReadDefined(r, REG_DATA)
    ensures ReadProgress(c, n + 1, out + [ReadReg(r, REG_DATA).value], ReadReg(r, REG_DATA).next)
  {
    assert Valid(r);
    ReadStep(r);
    ReadProgressExtend(c, n, out, r, ReadReg(r, REG_DATA).value, ReadReg(r, REG_DATA).next);
  }

  /**
    Read `n` bytes through the data register of a controller armed with the
    read command on an addressable sector: byte `i` is the sector's byte
    `(byteIdx + i) mod 256`, so the stream wraps within the sector and never
    moves to the next one; no image changes.
   */
  method ReadStream(c: Controller, n: nat) returns (out: seq<byte>, r: Controller)
    requires Valid(c) && c.cmd == READ_SECTOR
    requires SectorInImage(c.drives, c.drive, c.track, c.sector)
    ensures |out| == n
    ensures forall i | 0 <= i < n ::
      out[i] == c.drives[c.drive][StartIn(c.drives[c.drive], c.track, c.sector) + (c.byteIdx + i) % 256]
    ensures r.byteIdx == (c.byteIdx + n) % 256
    ensures r.drives == c.drives && SameSelection(r, c)
    ensures n > 0 ==> r.status == STATUS_OK
  {
    out := [];
    r := c;
    var k := 0;
    while k < n
      invariant k <= n
      invariant ReadProgress(c, k, out, r)
    {
      ReadProgressStep(c, k, out, r);
      var a := ReadReg(r, REG_DATA);
      out := out + [a.value];
      r := a.next;
      k := k + 1;
    }
  }

  /** After 256 reads the cursor is back where it started, so read 257 returns the byte of read 1. */
  method ReadPastSector(c: Controller) returns (out: seq<byte>)
    requires Valid(c) && c.cmd == READ_SECTOR
    requires SectorInImage(c.drives, c.drive, c.track, c.sector)
    ensures |out| == SECTOR_SIZE + 1
    ensures out[SECTOR_SIZE] == out[0]
  {
    var r;
    out, r := ReadStream(c, SECTOR_SIZE + 1);
  }

  /**
    Write a whole sector the way a host does: select it with the write
    command, then stream its 256 bytes in. The sector's bytes in the image
    become `data`; no other image changes.
   */
  method WriteSector(c: Controller, drive: byte, track: byte, sector: byte, data: seq<byte>) returns (r: Controller)
    requires Valid(c) && |data| == SECTOR_SIZE
    requires SectorInImage(c.drives, drive, track, sector)
    requires SectorKeepsPlace(c.drives, drive, track, sector)
    ensures Valid(r)
    ensures var img := c.drives[drive];
      r.drives == c.drives[drive := Overlay(img, StartIn(img, track, sector), data)]
    ensures r.drive == drive && r.track == track && r.sector == sector && r.cmd == WRITE_SECTOR
    ensures r.byteIdx == 0 && r.status == STATUS_OK
  {
    r := Select(c, drive, track, sector, WRITE_SECTOR);
    r := WriteStream(r, data);
  }

  /**
    Read a whole sector the way a host does: select it with the read
    command, then stream 256 bytes out. The bytes are the sector's bytes in
    the image, in order; no image changes.
   */
  method ReadSector(c: Controller, drive: byte, track: byte, sector: byte) returns (out: seq<byte>, r: Controller)
    requires Valid(c)
    requires SectorInImage(c.drives, drive, track, sector)
    ensures var start := StartIn(c.drives[drive], track, sector);
      out == c.drives[drive][start..start + SECTOR_SIZE]
    ensures r.drives == c.drives
    ensures r.drive == drive && r.track == track && r.sector == sector && r.cmd == READ_SECTOR
    ensures r.byteIdx == 0 && r.status == STATUS_OK
  {
    var s := Select(c, drive, track, sector, READ_SECTOR);
    out, r := ReadSelected(s);
  }

  /** 256 reads from cursor 0 of a selected sector return the sector's bytes and bring the cursor back to 0. */
  method ReadSelected(c: Controller) returns (out: seq<byte>, r: Controller)
    requires Valid(c) && c.cmd == READ_SECTOR && c.byteIdx == 0
    requires SectorInImage(c.drives, c.drive, c.track, c.sector)
    ensures var start := StartIn(c.drives[c.drive], c.track, c.sector);
      out == c.drives[c.drive][start..start + SECTOR_SIZE]
    ensures r.drives == c.drives && SameSelection(r, c)
    ensures r.byteIdx == 0 && r.status == STATUS_OK
  {
    out, r := ReadStream(c, SECTOR_SIZE);
    WholeSector(c.drives[c.drive], StartIn(c.drives[c.drive], c.track, c.sector), c.byteIdx, out);
  }

  /** 256 reads from cursor 0 see the sector's bytes in order. */
  lemma WholeSector(img: seq<byte>, start: int, cursor: int, out: seq<byte>)
    requires 0 <= start && start + SECTOR_SIZE <= |img| && |out| == SECTOR_SIZE && cursor == 0
    requires forall i | 0 <= i < SECTOR_SIZE :: out[i] == img[start + (cursor + i) % 256]
    ensures out == img[start..start + SECTOR_SIZE]
  {
    forall i | 0 <= i < SECTOR_SIZE
      ensures out[i] == img[start + i]
    {
      assert (cursor + i) % 256 == i;
    }
  }

  /** After a full sector has been written, the sector is still addressable and holds the written bytes. */
  lemma WrittenSector(drives: seq<seq<byte>>, drive: byte, track: byte, sector: byte, data: seq<byte>, drives': seq<seq<byte>>)
    requires SectorInImage(drives, drive, track, sector)
    requires SectorKeepsPlace(drives, drive, track, sector)
    requires |data| == SECTOR_SIZE
    requires drives' == drives[drive := Overlay(drives[drive], StartIn(drives[drive], track, sector), data)]
    ensures SectorInImage(drives', drive, track, sector)
    ensures StartIn(drives'[drive], track, sector) == StartIn(drives[drive], track, sector)
    ensures var start := StartIn(drives'[drive], track, sector);
      drives'[drive][start..start + SECTOR_SIZE] == data
  {
    var img := drives[drive];
    var start := StartIn(img, track, sector);
    if track != 0 {
      OverlayKeepsEndSector(img, start, data);
    }
    var img' := drives'[drive];
    assert img' == Overlay(img, start, data);
    StartStable(img, img', track, sector);
    forall i | 0 <= i < SECTOR_SIZE
      ensures img'[start..start + SECTOR_SIZE][i] == data[i]
    {
      assert img'[start + i] == data[i];
    }
    assert img'[start..start + SECTOR_SIZE] == data;
  }

  /**
    The write/read round trip of a whole sector: written with the write
    command and re-selected with the read command, the sector reads back
    exactly as written, and no other drive's image changes.
   */
  method SectorRoundTrip(c: Controller, drive: byte, track: byte, sector: byte, data: seq<byte>)
    returns (back: seq<byte>, r: Controller)
    requires Valid(c) && |data| == SECTOR_SIZE
    requires SectorInImage(c.drives, drive, track, sector)
    requires SectorKeepsPlace(c.drives, drive, track, sector)
    ensures back == data
    ensures |r.drives| == NUM_DRIVES
    ensures r.drive == drive && r.track == track && r.sector == sector
    ensures r.cmd == READ_SECTOR && r.byteIdx == 0 && r.status == STATUS_OK
    ensures forall k | 0 <= k < NUM_DRIVES && k != drive :: r.drives[k] == c.drives[k]
  {
    var w := WriteSector(c, drive, track, sector, data);
    WrittenSector(c.drives, drive, track, sector, data, w.drives);
    back, r := ReadSector(w, drive, track, sector);
  }

  /**
    The cursor wraps for writes too: after a whole sector has been written,
    one more data write lands on the sector's first byte, and nothing else
    changes.
   */
  method WritePastSector(c: Controller, drive: byte, track: byte, sector: byte, data: seq<byte>, v: byte)
    returns (r: Controller)
    requires Valid(c) && |data| == SECTOR_SIZE
    requires SectorInImage(c.drives, drive, track, sector)
    requires SectorKeepsPlace(c.drives, drive, track, sector)
    ensures var img := c.drives[drive];
      r.drives == c.drives[drive := Overlay(img, StartIn(img, track, sector), [v] + data[1..])]
    ensures r.drive == drive && r.track == track && r.sector == sector && r.cmd == WRITE_SECTOR
    ensures r.byteIdx == 1 && r.status == STATUS_OK
  {
    var w := WriteSector(c, drive, track, sector, data);
    WrittenSector(c.drives, drive, track, sector, data, w.drives);
    var img := c.drives[drive];
    var start := StartIn(img, track, sector);
    WriteStep(w, v, start);
    r := WriteReg(w, REG_DATA, v);
    OverlayFirstByte(img, start, data, v);
  }

  /** Overwriting the first byte of an overlaid sector is overlaying the sector with that byte in front. */
  lemma OverlayFirstByte(img: seq<byte>, start: int, data: seq<byte>, v: byte)
    requires |data| == SECTOR_SIZE && 0 <= start && start + SECTOR_SIZE <= |img|
    ensures Overlay(img, start, data)[start := v] == Overlay(img, start, [v] + data[1..])
  {
    var lhs := Overlay(img, start, data)[start := v];
    var rhs := Overlay(img, start, [v] + data[1..]);
    forall i | 0 <= i < |img|
      ensures lhs[i] == rhs[i]
    {
      if start < i < start + SECTOR_SIZE {
        assert ([v] + data[1..])[i - start] == data[i - start];
      }
    }
  }

  /**
    Why writing a sector needs `SectorKeepsPlace`: on an image whose SIR says
    one sector per track, sector 2 of track 1 starts at 512 and holds the
    SIR's end-sector byte at 551. Writing 2 there at cursor 39 changes the
    geometry in mid-sector, so the sector now starts at 768 and the next
    byte of the stream lands outside the sector that was selected.
   */
  lemma SirWriteMovesSector(c: Controller)
    requires Valid(c) && c.cmd == WRITE_SECTOR && c.drive < NUM_DRIVES
    requires c.track == 1 && c.sector == 2 && c.byteIdx == 39
    requires |c.drives[c.drive]| >= 1024 && c.drives[c.drive][SIR_OFFSET + END_SECTOR_FIELD] == 1
    ensures SectorInImage(c.drives, c.drive, 1, 2) && !SectorKeepsPlace(c.drives, c.drive, 1, 2)
    ensures StartIn(c.drives[c.drive], 1, 2) == 512
    ensures var r := WriteReg(c, REG_DATA, 2);
      && r.drives[c.drive][SIR_OFFSET + END_SECTOR_FIELD] == 2
      && StartIn(r.drives[c.drive], 1, 2) == 768
      && r.byteIdx == 40
  {
    WriteStep(c, 2, 512 + 39);
  }
}
