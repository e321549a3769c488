/**
  The simulator's SC16C550 UART: a one-byte receive buffer, the line status
  register (bit 0 is "receive data ready", bits 5 and 6 are the two
  transmitter-empty flags, always set) and the line control register, whose
  bit 7 switches register 0 from the transmit holding register to the
  divisor latch. Characters written to the transmit holding register go to
  the console; here they are appended to a transmit trace.
 */
module Serial {

  /** Line status: receive data ready. */
  const DATA_READY: bv8 := 1
  /** Line status: transmit holding register empty. */
  const THR_EMPTY: bv8 := 32
  /** Line status: transmitter empty. */
  const TX_EMPTY: bv8 := 64
  /** Line control: divisor latch access. */
  const DLAB: bv8 := 0x80

  /** Receive / transmit holding register. */
  const REG_DATA: int := 0
  /** Line control register. */
  const REG_LCR: int := 3
  /** Line status register. */
  const REG_LSR: int := 5

  datatype Uart = Uart(rxBuffer: bv8, status: bv8, lcr: bv8, tx: seq<bv8>)

  /**
    A register read: the byte on the bus and the UART's next state. The UART
    keeps its registers as `bv8` rather than `Prelude.byte` because its
    contracts are about individual status and line-control bits; `Board`
    converts at the bus.
   */
  datatype Reading = Reading(value: bv8, next: Uart)

  /** Bit `i` of `b`. */
  predicate Bit(b: bv8, i: nat)
    requires i < 8
  {
    (b >> i) & 1 == 1
  }

  /** `a` and `b` agree everywhere except, possibly, in the data-ready bit. */
  predicate SameExceptReady(a: bv8, b: bv8) {
    a & !DATA_READY == b & !DATA_READY
  }

  /** A received byte is waiting in the buffer. */
  predicate DataReady(u: Uart) {
    Bit(u.status, 0)
  }

  /** Status values that agree except in data ready agree on bits 1 to 7. */
  lemma SameExceptReadyKeepsBits(a: bv8, b: bv8, i: nat)
    requires SameExceptReady(a, b) && 1 <= i < 8
    ensures Bit(a, i) == Bit(b, i)
  {
    var m: bv8 := 1 << i;
    assert m & !DATA_READY == m by {
      assert i == 1 || i == 2 || i == 3 || i == 4 || i == 5 || i == 6 || i == 7;
    }
  }

  /**
    The UART after construction: both transmitter-empty flags set, nothing
    received, line control cleared. The receive buffer is not initialised by
    the constructor, so its content is the parameter `rx`.
   */
  function Init(rx: bv8): (r: Uart)
    ensures forall i | 0 <= i < 8 :: Bit(r.status, i) <==> i == 5 || i == 6
    ensures r.lcr == 0 && r.rxBuffer == rx && r.tx == []
  {
    Uart(rx, 0 | THR_EMPTY | TX_EMPTY, 0, [])
  }

  /** The console may submit a character: no received byte is pending. */
  function ClearToSend(u: Uart): (r: bool)
    ensures r <==> !DataReady(u)
  {
    u.status & DATA_READY == 0
  }

  /**
    A character arrives from the console. If the previous one has not been
    read yet it is an overrun and the new character is lost; otherwise it is
    buffered and data ready is raised, the other status bits untouched.
   */
  function Submit(u: Uart, c: bv8): (r: Uart)
    ensures DataReady(u) ==> r == u
    ensures !DataReady(u) ==>
      && r.rxBuffer == c && DataReady(r) && SameExceptReady(r.status, u.status)
      && r.lcr == u.lcr && r.tx == u.tx
  {
    if u.status & DATA_READY != 0 then
      u
    else
      u.(rxBuffer := c, status := u.status | DATA_READY)
  }

  /**
    Read register `reg`: the receive buffer (which lowers data ready and
    nothing else), the line control register, the line status register, or
    0 for any other register, which has no effect.
   */
  function Read(u: Uart, reg: int): (r: Reading)
    ensures reg == REG_DATA ==>
      && r.value == u.rxBuffer && !DataReady(r.next) && SameExceptReady(r.next.status, u.status)
      && r.next.rxBuffer == u.rxBuffer && r.next.lcr == u.lcr && r.next.tx == u.tx
    ensures reg == REG_LCR ==> r.value == u.lcr && r.next == u
    ensures reg == REG_LSR ==> r.value == u.status && r.next == u
    ensures reg != REG_DATA && reg != REG_LCR && reg != REG_LSR ==> r.value == 0 && r.next == u
  {
    if reg == REG_DATA then
      Reading(u.rxBuffer, u.(status := u.status & !DATA_READY))
    else if reg == REG_LCR then
      Reading(u.lcr, u)
    else if reg == REG_LSR then
      Reading(u.status, u)
    else
      Reading(0, u)
  }

  /**
    Write `value` to register `reg`. Register 0 sends the character to the
    console unless the divisor latch is selected; register 3 is the line
    control register; every other write, the line status register
    included, is ignored. No write touches the receive side.
   */
  function Write(u: Uart, reg: int, value: bv8): (r: Uart)
    ensures r.status == u.status && r.rxBuffer == u.rxBuffer
    ensures reg == REG_LCR ==> r.lcr == value && r.tx == u.tx
    ensures reg == REG_DATA && !Bit(u.lcr, 7) ==> r.tx == u.tx + [value] && r.lcr == u.lcr
    ensures reg == REG_DATA && Bit(u.lcr, 7) ==> r == u
    ensures reg != REG_DATA && reg != REG_LCR ==> r == u
  {
    if reg == REG_DATA then
      if u.lcr & DLAB != 0 then u else u.(tx := u.tx + [value])
    else if reg == REG_LCR then
      u.(lcr := value)
    else
      u
  }

  /** Reading register 0 clears status bit 0 and keeps bits 1 to 7 as they were. */
  lemma ReadClearsOnlyReady(u: Uart)
    ensures !Bit(Read(u, REG_DATA).next.status, 0)
    ensures forall i | 1 <= i < 8 :: Bit(Read(u, REG_DATA).next.status, i) == Bit(u.status, i)
  {
    forall i | 1 <= i < 8
      ensures Bit(Read(u, REG_DATA).next.status, i) == Bit(u.status, i)
    {
      SameExceptReadyKeepsBits(Read(u, REG_DATA).next.status, u.status, i);
    }
  }

  /** A submission while clear to send sets status bit 0 and keeps bits 1 to 7 as they were. */
  lemma SubmitRaisesOnlyReady(u: Uart, c: bv8)
    requires ClearToSend(u)
    ensures Bit(Submit(u, c).status, 0)
    ensures forall i | 1 <= i < 8 :: Bit(Submit(u, c).status, i) == Bit(u.status, i)
  {
    forall i | 1 <= i < 8
      ensures Bit(Submit(u, c).status, i) == Bit(u.status, i)
    {
      SameExceptReadyKeepsBits(Submit(u, c).status, u.status, i);
    }
  }

  /** A character submitted while clear to send is read back from register 0, and the status returns to what it was. */
  lemma SubmitThenRead(u: Uart, c: bv8)
    requires ClearToSend(u)
    ensures Read(Submit(u, c), REG_DATA).value == c
    ensures Read(Submit(u, c), REG_DATA).next == u.(rxBuffer := c)
    ensures ClearToSend(Read(Submit(u, c), REG_DATA).next)
  {
    var n := Read(Submit(u, c), REG_DATA).next;
    assert n.status == u.status;
  }

  /** On overrun the first character wins: the second submission is lost. */
  lemma OverrunKeepsFirst(u: Uart, a: bv8, b: bv8)
    requires ClearToSend(u)
    ensures !ClearToSend(Submit(u, a))
    ensures Submit(Submit(u, a), b) == Submit(u, a)
    ensures Read(Submit(Submit(u, a), b), REG_DATA).value == a
  {
  }

  /** Reading register 0 a second time returns the same byte and changes nothing more. */
  lemma ReadDataTwice(u: Uart)
    ensures var first := Read(u, REG_DATA);
      Read(first.next, REG_DATA) == first
  {
  }

  /** Writing the line control register and reading it back returns the value written; the receive side is untouched. */
  lemma LcrRoundTrip(u: Uart, v: bv8)
    ensures Read(Write(u, REG_LCR, v), REG_LCR).value == v
    ensures Read(Write(u, REG_LCR, v), REG_LSR).value == u.status
  {
  }

  /** Only a submission raises data ready, and only a register-0 read lowers it; writes never move it. */
  lemma ReadyOnlyBySubmit(u: Uart, reg: int, v: bv8, c: bv8)
    ensures DataReady(Write(u, reg, v)) == DataReady(u)
    ensures reg != REG_DATA ==> DataReady(Read(u, reg).next) == DataReady(u)
    ensures DataReady(Submit(u, c))
  {
  }
}
