/**
  The HD6309 computer's memory map, as seen by the CPU through
  `Machine::read` and `Machine::write`:

    0x0000-0x7FFF  paged RAM: 32 KiB window into 1 MiB, page from the page register
    0x8000-0xDFFF  non-paged RAM: the same physical addresses as the CPU address
    0xE000-0xE00F  UART registers
    0xE020-0xE02F  disk controller registers
    0xE800         page register (write only)
    other 0xExxx   nothing: reads return 0, writes are ignored
    0xF000-0xFFFF  4 KiB ROM: readable, writes are ignored
 */
module Board {
  import opened Prelude
  import Serial
  import DiskIO

  const MEMORY_SIZE: int := 0x10_0000
  const ROM_SIZE: int := 0x1000
  const PAGE_SIZE: int := 0x8000
  const PAGE_COUNT: int := 32

  const RAM_END: int := 0xE000
  const IO_END: int := 0xF000
  const ROM_BASE: int := 0xF000
  const UART_BASE: int := 0xE000
  const DISK_BASE: int := 0xE020
  /** Each peripheral decodes 16 addresses. */
  const IO_WINDOW: int := 0x10
  const PAGE_REGISTER: int := 0xE800

  datatype Machine = Machine(
    pagereg: byte,
    memory: seq<byte>,
    rom: seq<byte>,
    uart: Serial.Uart,
    disk: DiskIO.Controller)

  /** 1 MiB of RAM, 4 KiB of ROM and a well-formed disk controller. */
  predicate Valid(m: Machine) {
    |m.memory| == MEMORY_SIZE && |m.rom| == ROM_SIZE && DiskIO.Valid(m.disk)
  }

  /**
    The physical address of paged CPU address `address` under page register
    `pagereg`: the low five bits of the register select one of 32 pages of
    32 KiB, and the CPU address is the offset within the page. (The source
    shifts the masked register left by 15 and ORs in the address; the bits
    are disjoint, so that is this sum.)
   */
  function Paged(pagereg: byte, address: int): (p: nat)
    requires 0 <= address < PAGE_SIZE
    ensures p < MEMORY_SIZE
    ensures p % PAGE_SIZE == address
    ensures p / PAGE_SIZE == pagereg % PAGE_COUNT
  {
    (pagereg % PAGE_COUNT) * PAGE_SIZE + address
  }

  /** The physical RAM address that CPU address `address` below 0xE000 reaches. */
  function Physical(pagereg: byte, address: int): (p: nat)
    requires 0 <= address < RAM_END
    ensures p < MEMORY_SIZE
    ensures address >= PAGE_SIZE ==> p == address
  {
    if address < PAGE_SIZE then Paged(pagereg, address) else address
  }

  /** `address` is one of the UART's registers. */
  predicate InUart(address: int) {
    UART_BASE <= address < UART_BASE + IO_WINDOW
  }

  /** `address` is one of the disk controller's registers. */
  predicate InDisk(address: int) {
    DISK_BASE <= address < DISK_BASE + IO_WINDOW
  }

  /** A CPU read the disk controller can serve without indexing outside an image. */
  predicate ReadDefined(m: Machine, address: word)
    requires Valid(m)
  {
    InDisk(address) ==> DiskIO.ReadDefined(m.disk, address - DISK_BASE)
  }

  /** A CPU write the disk controller can serve without indexing outside an image. */
  predicate WriteDefined(m: Machine, address: word)
    requires Valid(m)
  {
    InDisk(address) ==> DiskIO.WriteDefined(m.disk, address - DISK_BASE)
  }

  /** A CPU read of `address`: the byte on the bus and the machine afterwards (reads of the UART and disk registers have side effects). */
  function Read(m: Machine, address: word): (r: Access<Machine>)
    requires Valid(m) && ReadDefined(m, address)
    ensures Valid(r.next)
    ensures address < RAM_END ==> r.value == m.memory[Physical(m.pagereg, address)] && r.next == m
    ensures InUart(address) ==>
      var u := Serial.Read(m.uart, address - UART_BASE);
      r.value == u.value as int && r.next == m.(uart := u.next)
    ensures InDisk(address) ==>
      var d := DiskIO.ReadReg(m.disk, address - DISK_BASE);
      r.value == d.value && r.next == m.(disk := d.next)
    ensures RAM_END <= address < IO_END && !InUart(address) && !InDisk(address) ==> r.value == 0 && r.next == m
    ensures address >= ROM_BASE ==> r.value == m.rom[address - ROM_BASE] && r.next == m
  {
    if address < PAGE_SIZE then
      Access(m.memory[Paged(m.pagereg, address)], m)
    else if address < RAM_END then
      Access(m.memory[address], m)
    else if address < IO_END then
      if InUart(address) then
        var u := Serial.Read(m.uart, address - UART_BASE);
        Access(u.value as int, m.(uart := u.next))
      else if InDisk(address) then
        var d := DiskIO.ReadReg(m.disk, address - DISK_BASE);
        Access(d.value, m.(disk := d.next))
      else
        Access(0, m)
    else
      Access(m.rom[address - ROM_BASE], m)
  }

  /** A CPU write of `value` to `address`. */
  function Write(m: Machine, address: word, value: byte): (r: Machine)
    requires Valid(m) && WriteDefined(m, address)
    ensures Valid(r)
    ensures address < RAM_END ==>
      var p := Physical(m.pagereg, address);
      && r.memory[p] == value
      && (forall i | 0 <= i < MEMORY_SIZE && i != p :: r.memory[i] == m.memory[i])
      && r.(memory := m.memory) == m
    ensures InUart(address) ==>
      r == m.(uart := Serial.Write(m.uart, address - UART_BASE, value as bv8))
    ensures InDisk(address) ==>
      r == m.(disk := DiskIO.WriteReg(m.disk, address - DISK_BASE, value))
    ensures address == PAGE_REGISTER ==> r == m.(pagereg := value)
    ensures RAM_END <= address && !InUart(address) && !InDisk(address) && address != PAGE_REGISTER ==> r == m
  {
    if address < PAGE_SIZE then
      m.(memory := m.memory[Paged(m.pagereg, address) := value])
    else if address < RAM_END then
      m.(memory := m.memory[address := value])
    else if address < IO_END then
      if InUart(address) then
        m.(uart := Serial.Write(m.uart, address - UART_BASE, value as bv8))
      else if InDisk(address) then
        m.(disk := DiskIO.WriteReg(m.disk, address - DISK_BASE, value))
      else if address == PAGE_REGISTER then
        m.(pagereg := value)
      else
        m
    else
      m
  }

  /** Two paged addresses reach the same physical byte exactly when they are the same offset in the same page. */
  lemma PagedInjective(p: byte, q: byte, a: int, b: int)
    requires 0 <= a < PAGE_SIZE && 0 <= b < PAGE_SIZE
    ensures Paged(p, a) == Paged(q, b) <==> p % PAGE_COUNT == q % PAGE_COUNT && a == b
  {
  }

  /** Only the low five bits of the page register matter: page register values 32 apart select the same page. */
  lemma PageRegisterAliases(p: byte, a: int)
    requires 0 <= a < PAGE_SIZE && p + PAGE_COUNT < 256
    ensures Paged(p, a) == Paged(p + PAGE_COUNT, a)
  {
  }

  /** With page 1 selected, the paged window and the non-paged RAM at 0x8000-0xDFFF are the same memory. */
  lemma PageOneAliasesFixedRam(m: Machine, a: word)
    requires Valid(m) && m.pagereg % PAGE_COUNT == 1
    requires PAGE_SIZE <= a < RAM_END
    ensures Read(m, a - PAGE_SIZE).value == Read(m, a).value
  {
  }

  /**
    Writing RAM and reading RAM back under the same page register: the read
    returns the written byte when both CPU addresses reach the same physical
    byte, and what was there before otherwise.
   */
  lemma RamWriteThenRead(m: Machine, a: word, v: byte, b: word)
    requires Valid(m) && a < RAM_END && b < RAM_END
    ensures Read(Write(m, a, v), b).value ==
      if Physical(m.pagereg, a) == Physical(m.pagereg, b) then v else Read(m, b).value
  {
  }

  /** A paged write and read at the same CPU address under the same page register meet; under a different page they do not. */
  lemma PagesAreSeparate(m: Machine, a: word, v: byte, page: byte)
    requires Valid(m) && a < PAGE_SIZE
    requires page % PAGE_COUNT != m.pagereg % PAGE_COUNT
    ensures Read(Write(m, a, v), a).value == v
    ensures var m' := Write(Write(m, a, v), PAGE_REGISTER, page);
      Read(m', a).value == Read(m.(pagereg := page), a).value
  {
    PagedInjective(m.pagereg, page, a, a);
  }

  /** Writing the page register selects the page the next paged access reaches. */
  lemma PageSelect(m: Machine, page: byte, a: word)
    requires Valid(m) && a < PAGE_SIZE
    ensures Read(Write(m, PAGE_REGISTER, page), a).value == m.memory[(page % PAGE_COUNT) * PAGE_SIZE + a]
  {
  }

  /** The page register cannot be read back: the read returns 0. */
  lemma PageRegisterWriteOnly(m: Machine, v: byte)
    requires Valid(m)
    ensures Read(Write(m, PAGE_REGISTER, v), PAGE_REGISTER).value == 0
  {
  }

  /** A write to ROM changes nothing: every later read sees the machine as before. */
  lemma RomIsReadOnly(m: Machine, a: word, v: byte, b: word)
    requires Valid(m) && a >= ROM_BASE && ReadDefined(m, b)
    ensures Read(Write(m, a, v), b) == Read(m, b)
  {
  }

  /** Reads of RAM, ROM and the unused I/O space have no side effect. */
  lemma PlainReadsArePure(m: Machine, a: word)
    requires Valid(m)
    requires !InUart(a) && !InDisk(a)
    ensures Read(m, a).next == m
  {
  }
}
