/**
  The bootstrap loader for hex files (`Machine::loadHex`). A file is lines of
  the form `AAAA:DD,DD,...` where `AAAA` is a start address and each `DD` a
  data byte stored at successive addresses; tabs, spaces and carriage returns
  are skipped everywhere and a newline starts a new line. The loader is a
  character-level state machine:

    0-3  address nibbles        4  the ':'        5-6  data nibbles
    7    ',' (next byte) or anything else (back to the address)

  A byte for an address below 0xE000 goes to physical RAM at that address,
  one at or above 0xF000 goes to ROM, and one in between is dropped.
 */
module HexLoader {
  import opened Prelude
  import Board

  const TAB: byte := 9
  const LF: byte := 10
  const CR: byte := 13
  const SPACE: byte := 32
  const COMMA: byte := 44
  const COLON: byte := 58
  /** `fgetc` at end of file returns EOF (-1), which the loader stores in a `uint8_t`. */
  const EOF_BYTE: byte := 0xFF

  /** `c` is an ASCII hexadecimal digit, upper or lower case. */
  predicate IsHexDigit(c: byte) {
    || '0' as int <= c <= '9' as int
    || 'A' as int <= c <= 'F' as int
    || 'a' as int <= c <= 'f' as int
  }

  /** The upper-case hexadecimal digit for `v`. */
  function HexDigit(v: nat): (c: byte)
    requires v < 16
  {
    if v < 10 then '0' as int + v else 'A' as int + (v - 10)
  }

  /** The lower-case hexadecimal digit for `v`. */
  function LowerHexDigit(v: nat): (c: byte)
    requires v < 16
  {
    if v < 10 then '0' as int + v else 'a' as int + (v - 10)
  }

  /** The value of a hexadecimal digit; any other byte counts as 0. */
  function HexChar(c: byte): (v: nat)
    ensures v < 16
    ensures !IsHexDigit(c) ==> v == 0
  {
    if '0' as int <= c <= '9' as int then c - '0' as int
    else if 'A' as int <= c <= 'F' as int then c - 'A' as int + 10
    else if 'a' as int <= c <= 'f' as int then c - 'a' as int + 10
    else 0
  }

  /** `HexChar` reads back both spellings of every digit. */
  lemma HexCharRoundTrip(v: nat)
    requires v < 16
    ensures IsHexDigit(HexDigit(v)) && HexChar(HexDigit(v)) == v
    ensures IsHexDigit(LowerHexDigit(v)) && HexChar(LowerHexDigit(v)) == v
  {
  }

  /** Every hexadecimal digit is one of the two spellings of its value. */
  lemma HexCharInverse(c: byte)
    requires IsHexDigit(c)
    ensures c == HexDigit(HexChar(c)) || c == LowerHexDigit(HexChar(c))
  {
  }

  /** Where the state machine is: 0-3 address nibbles, 4 the colon, 5-6 data nibbles, 7 after a byte. */
  type HexState = s: int | 0 <= s < 8

  /** The loader's locals: the state, the `uint32_t` address and the `uint8_t` data byte. */
  datatype Parser = Parser(state: HexState, address: u32, data: byte)

  /** One byte the loader stores: into physical RAM or into ROM. */
  datatype Store = RamStore(index: nat, value: byte) | RomStore(index: nat, value: byte)

  /** The effect of one input byte: the next parser and at most one store, or the abort on a missing colon. */
  datatype Transition = Continue(next: Parser, store: Option<Store>) | Abort

  /** Shift one hexadecimal digit into the 32-bit address from below; the top nibble falls off. */
  function ShiftIn32(x: u32, h: nat): (r: u32)
    requires h < 16
    ensures r % 16 == h && r / 16 == x % 0x1000_0000
  {
    (x * 16) % TWO_32 + h
  }

  /** Shift one hexadecimal digit into the 8-bit data byte from below; the old high nibble falls off. */
  function ShiftIn8(x: byte, h: nat): (r: byte)
    requires h < 16
    ensures r % 16 == h && r / 16 == x % 16
  {
    (x * 16) % 256 + h
  }

  /** Where a data byte for `address` goes. */
  function StoreFor(address: u32, d: byte): (s: Option<Store>)
    ensures s.Some? <==> address < Board.RAM_END || address >= Board.ROM_BASE
    ensures s.Some? && s.value.RamStore? ==> s.value.index == address
    ensures s.Some? && s.value.RomStore? ==> s.value.index + Board.ROM_BASE == address
    ensures s.Some? ==> s.value.value == d
  {
    if address < Board.RAM_END then Some(RamStore(address, d))
    else if address >= Board.ROM_BASE then Some(RomStore(address - Board.ROM_BASE, d))
    else None
  }

  /** One input byte. */
  function Step(p: Parser, c: byte): (t: Transition)
    ensures t.Abort? <==> p.state == 4 && c != COLON && c != TAB && c != CR && c != SPACE && c != LF
  {
    if c == TAB || c == CR || c == SPACE then
      Continue(p, None)
    else if c == LF then
      Continue(p.(state := 0), None)
    else if p.state == 0 then
      Continue(p.(state := 1, address := HexChar(c)), None)
    else if p.state <= 3 then
      Continue(p.(state := p.state + 1, address := ShiftIn32(p.address, HexChar(c))), None)
    else if p.state == 4 then
      if c != COLON then Abort else Continue(p.(state := 5), None)
    else if p.state == 5 then
      Continue(p.(state := 6, data := HexChar(c)), None)
    else if p.state == 6 then
      var d := ShiftIn8(p.data, HexChar(c));
      Continue(Parser(7, Wrap32(p.address + 1), d), StoreFor(p.address, d))
    else
      Continue(p.(state := if c == COMMA then 5 else 0), None)
  }

  /**
    Blanks are skipped in every state, a newline returns to state 0 from
    every state, and only the second digit of a data byte stores anything.
   */
  lemma StepShape(p: Parser, c: byte)
    ensures IsBlank(c) ==> Step(p, c) == Continue(p, None)
    ensures c == LF ==> Step(p, c) == Continue(p.(state := 0), None)
    ensures Step(p, c).Continue? && Step(p, c).store.Some? ==> p.state == 6 && !IsBlank(c) && c != LF
    ensures p.state == 6 && !IsBlank(c) && c != LF ==>
      Step(p, c) == Continue(Parser(7, Wrap32(p.address + 1), ShiftIn8(p.data, HexChar(c))), StoreFor(p.address, ShiftIn8(p.data, HexChar(c))))
  {
  }

  /**
    After a data byte, a comma leads to the next data byte, and any other
    byte ends the line's data and is itself discarded: it does not become
    the first digit of a new address.
   */
  lemma AfterByte(p: Parser, c: byte, s: seq<byte>)
    requires p.state == 7 && !IsBlank(c) && c != LF
    ensures c == COMMA ==> Run(p, [c] + s) == Run(p.(state := 5), s)
    ensures c != COMMA ==> Run(p, [c] + s) == Run(p.(state := 0), s)
  {
    RunCons(p, c, s, p.(state := if c == COMMA then 5 else 0));
  }

  /** Bytes the loader skips without changing state. */
  predicate IsBlank(c: byte) {
    c == TAB || c == CR || c == SPACE
  }

  function Emit(s: Option<Store>): (r: seq<Store>)
    ensures |r| <= 1
  {
    if s.Some? then [s.value] else []
  }

  /** The result of running the loader: the final parser, the stores made in order, and whether it aborted. */
  datatype Outcome = Outcome(parser: Parser, stores: seq<Store>, aborted: bool)

  /** Run the state machine over `s`, stopping at an abort; stores made before the abort stand. */
  function Run(p: Parser, s: seq<byte>): (o: Outcome)
    ensures |s| == 0 ==> o == Outcome(p, [], false)
    ensures |o.stores| <= |s|
    decreases |s|
  {
    if |s| == 0 then
      Outcome(p, [], false)
    else
      match Step(p, s[0])
      case Abort => Outcome(p, [], true)
      case Continue(q, st) =>
        var o := Run(q, s[1..]);
        o.(stores := Emit(st) + o.stores)
  }

  /** Continue outcome `o` over more input `b`. */
  function Then(o: Outcome, b: seq<byte>): Outcome {
    if o.aborted then o
    else
      var o2 := Run(o.parser, b);
      o2.(stores := o.stores + o2.stores)
  }

  /** A byte that moves the parser from `p` to `q` with store `st`: running on it and then `s` is `st` followed by running `s` from `q`. */
  lemma RunStep(p: Parser, c: byte, s: seq<byte>, q: Parser, st: Option<Store>)
    requires Step(p, c) == Continue(q, st)
    ensures Run(p, [c] + s) == Run(q, s).(stores := Emit(st) + Run(q, s).stores)
  {
    assert ([c] + s)[1..] == s;
  }

  /** A byte on which the parser aborts ends the run there, with no stores. */
  lemma RunAbort(p: Parser, c: byte, s: seq<byte>)
    requires Step(p, c).Abort?
    ensures Run(p, [c] + s) == Outcome(p, [], true)
  {
    assert ([c] + s)[0] == c;
  }

  /** One step in front of two inputs that already compose keeps them composing. */
  lemma ThenStep(p: Parser, c: byte, a: seq<byte>, b: seq<byte>, q: Parser, st: Option<Store>)
    requires Step(p, c) == Continue(q, st)
    requires Run(q, a + b) == Then(Run(q, a), b)
    ensures Run(p, [c] + (a + b)) == Then(Run(p, [c] + a), b)
  {
    RunStep(p, c, a, q, st);
    RunStep(p, c, a + b, q, st);
    ThenPrefix(Emit(st), Run(q, a), b);
  }

  /** Stores made before an outcome stay in front when the run continues over `b`. */
  lemma ThenPrefix(e: seq<Store>, o: Outcome, b: seq<byte>)
    ensures Then(o.(stores := e + o.stores), b) == Then(o, b).(stores := e + Then(o, b).stores)
  {
    if !o.aborted {
      var o2 := Run(o.parser, b);
      assert e + (o.stores + o2.stores) == (e + o.stores) + o2.stores;
    }
  }

  /** Running over `a + b` is running over `a` and continuing over `b`. */
  lemma {:induction false} RunAppend(p: Parser, a: seq<byte>, b: seq<byte>)
    ensures Run(p, a + b) == Then(Run(p, a), b)
    decreases |a|
  {
    if |a| == 0 {
      assert a + b == b;
    } else {
      var c := a[0];
      var rest := a[1..];
      assert a == [c] + rest;
      assert a + b == [c] + (rest + b);
      var t := Step(p, c);
      if t.Abort? {
        RunAbort(p, c, rest);
        RunAbort(p, c, rest + b);
      } else {
        RunAppend(t.next, rest, b);
        ThenStep(p, c, rest, b, t.next, t.store);
      }
    }
  }

  /**
    Two parsers that can differ only in locals the state machine will
    overwrite before reading them: the address is dead in state 0 and the
    data byte is dead outside state 6.
   */
  predicate Agree(p: Parser, q: Parser) {
    && p.state == q.state
    && (p.state != 0 ==> p.address == q.address)
    && (p.state == 6 ==> p.data == q.data)
  }

  /**
    The loader's uninitialised `address` and `data` never matter: runs from
    agreeing parsers make the same stores and abort alike.
   */
  lemma {:induction false} RunIgnoresDeadLocals(p: Parser, q: Parser, s: seq<byte>)
    requires Agree(p, q)
    ensures Run(p, s).stores == Run(q, s).stores
    ensures Run(p, s).aborted == Run(q, s).aborted
    ensures Agree(Run(p, s).parser, Run(q, s).parser)
    decreases |s|
  {
    if |s| > 0 {
      match Step(p, s[0])
      case Abort =>
      case Continue(p', st) =>
        var q' := Step(q, s[0]).next;
        RunIgnoresDeadLocals(p', q', s[1..]);
    }
  }

  /** The loader's state at the start; its address and data are never read before they are set. */
  const START: Parser := Parser(0, 0, 0)

  // ---------------------------------------------------------------------
  // Writing a line in the format the loader reads

  /** The four upper-case digits of a 16-bit address. */
  function AddressDigits(a: word): (s: seq<byte>)
    ensures |s| == 4
  {
    var a1 := a / 16;
    var a2 := a1 / 16;
    [HexDigit(a2 / 16), HexDigit(a2 % 16), HexDigit(a1 % 16), HexDigit(a % 16)]
  }

  /** The two upper-case digits of a byte. */
  function ByteDigits(d: byte): (s: seq<byte>)
    ensures |s| == 2
  {
    [HexDigit(d / 16), HexDigit(d % 16)]
  }

  /** Data bytes as the loader expects them: two digits each, separated by commas. */
  function DataField(data: seq<byte>): (s: seq<byte>)
    ensures |data| == 0 ==> s == []
    decreases |data|
  {
    if |data| == 0 then []
    else if |data| == 1 then ByteDigits(data[0])
    else ByteDigits(data[0]) + [COMMA] + DataField(data[1..])
  }

  /** One line of a hex file: `AAAA:DD,DD,...` and a newline. */
  function HexLine(address: word, data: seq<byte>): (s: seq<byte>)
    ensures |s| >= 6 && s[|s| - 1] == LF
  {
    AddressDigits(address) + [COLON] + DataField(data) + [LF]
  }

  /** The stores that putting `data` at consecutive addresses from `address` makes. */
  function LineStores(address: nat, data: seq<byte>): (s: seq<Store>)
    requires address + |data| <= TWO_32
    ensures |s| <= |data|
    decreases |data|
  {
    if |data| == 0 then []
    else Emit(StoreFor(address, data[0])) + LineStores(address + 1, data[1..])
  }

  /** A digit in states 1 to 3 shifts its value in below the address read so far. */
  lemma StepAddressDigit(p: Parser, v: nat)
    requires 1 <= p.state <= 3 && p.address < 0x1000 && v < 16
    ensures Step(p, HexDigit(v)) == Continue(p.(state := p.state + 1, address := p.address * 16 + v), None)
  {
    HexCharRoundTrip(v);
  }

  /** Reading the four address digits from state 0 leaves the parser at the colon with the address. */
  lemma ReadAddress(p: Parser, a: word)
    requires p.state == 0
    ensures Run(p, AddressDigits(a)) == Outcome(Parser(4, a, p.data), [], false)
  {
    var s := AddressDigits(a);
    var a1 := a / 16;
    var a2 := a1 / 16;
    var p1 := Parser(1, a2 / 16, p.data);
    var p2 := Parser(2, a2, p.data);
    var p3 := Parser(3, a1, p.data);
    var p4 := Parser(4, a, p.data);
    HexCharRoundTrip(a2 / 16);
    assert Step(p, s[0]) == Continue(p1, None);
    StepAddressDigit(p1, a2 % 16);
    StepAddressDigit(p2, a1 % 16);
    StepAddressDigit(p3, a % 16);
    assert s == [s[0]] + ([s[1]] + ([s[2]] + ([s[3]] + [])));
    RunCons(p3, s[3], [], p4);
    RunCons(p2, s[2], [s[3]] + [], p3);
    RunCons(p1, s[1], [s[2]] + ([s[3]] + []), p2);
    RunCons(p, s[0], [s[1]] + ([s[2]] + ([s[3]] + [])), p1);
  }

  /** Reading one byte's two digits from state 5 stores it and leaves the parser after the byte. */
  lemma ReadByte(p: Parser, d: byte)
    requires p.state == 5 && p.address + 1 < TWO_32
    ensures Run(p, ByteDigits(d)) == Outcome(Parser(7, p.address + 1, d), Emit(StoreFor(p.address, d)), false)
  {
    var s := ByteDigits(d);
    HexCharRoundTrip(d / 16);
    HexCharRoundTrip(d % 16);
    var p6 := Parser(6, p.address, d / 16);
    assert Step(p, s[0]) == Continue(p6, None);
    assert ShiftIn8(d / 16, d % 16) == d;
    assert Step(p6, s[1]) == Continue(Parser(7, p.address + 1, d), StoreFor(p.address, d));
    assert s[1..][1..] == [];
  }

  /** The data field and the newline, read from state 5, make the line's stores and end in state 0. */
  lemma {:induction false} ReadDataField(p: Parser, data: seq<byte>)
    requires p.state == 5 && p.address + |data| < TWO_32
    ensures Run(p, DataField(data) + [LF]).stores == LineStores(p.address, data)
    ensures !Run(p, DataField(data) + [LF]).aborted
    ensures Run(p, DataField(data) + [LF]).parser.state == 0
    decreases |data|
  {
    var input := DataField(data) + [LF];
    if |data| == 0 {
      assert input == [LF];
      assert [LF][1..] == [];
    } else {
      var d := data[0];
      var head := Emit(StoreFor(p.address, d));
      ReadByte(p, d);
      var p7 := Parser(7, p.address + 1, d);
      var tail := ReadDataTail(p7, data);
      assert input == ByteDigits(d) + tail;
      RunAfter(p, ByteDigits(d), tail, p7, head);
    }
  }

  /** What follows the first byte of a data field, read from just after that byte: the rest of the line's stores, ending in state 0. */
  lemma {:induction false} ReadDataTail(p7: Parser, data: seq<byte>) returns (tail: seq<byte>)
    requires p7.state == 7 && 1 <= |data| && p7.address + |data| - 1 < TWO_32
    ensures DataField(data) + [LF] == ByteDigits(data[0]) + tail
    ensures Run(p7, tail).stores == LineStores(p7.address, data[1..])
    ensures !Run(p7, tail).aborted && Run(p7, tail).parser.state == 0
    decreases |data|, 0
  {
    if |data| == 1 {
      tail := [LF];
      assert [LF][1..] == [];
      assert Run(p7, tail) == Outcome(p7.(state := 0), [], false);
    } else {
      var rest := DataField(data[1..]) + [LF];
      tail := [COMMA] + rest;
      var p5 := p7.(state := 5);
      RunCons(p7, COMMA, rest, p5);
      ReadDataField(p5, data[1..]);
    }
  }

  /** Input `a` taking the parser from `p` to `q` with stores `st` and no abort: running on `a + b` is those stores followed by running `b` from `q`. */
  lemma RunAfter(p: Parser, a: seq<byte>, b: seq<byte>, q: Parser, st: seq<Store>)
    requires Run(p, a) == Outcome(q, st, false)
    ensures Run(p, a + b) == Run(q, b).(stores := st + Run(q, b).stores)
  {
    RunAppend(p, a, b);
  }

  /** A byte that moves the parser from `p` to `q` without a store: running on it and then `s` is running `s` from `q`. */
  lemma RunCons(p: Parser, c: byte, s: seq<byte>, q: Parser)
    requires Step(p, c) == Continue(q, None)
    ensures Run(p, [c] + s) == Run(q, s)
  {
    assert ([c] + s)[1..] == s;
  }

  /**
    The loader reads back what `HexLine` writes: from the start of a line,
    a line for `data` at `address` stores each byte at its address (RAM
    below 0xE000, ROM from 0xF000, nothing in between) and ends ready for
    the next line.
   */
  lemma HexLineLoads(p: Parser, address: word, data: seq<byte>)
    requires p.state == 0 && address + |data| < TWO_32
    ensures Run(p, HexLine(address, data)).stores == LineStores(address, data)
    ensures !Run(p, HexLine(address, data)).aborted
    ensures Run(p, HexLine(address, data)).parser.state == 0
  {
    var tail := DataField(data) + [LF];
    assert HexLine(address, data) == AddressDigits(address) + ([COLON] + tail);
    ReadAddress(p, address);
    var p4 := Parser(4, address, p.data);
    RunAfter(p, AddressDigits(address), [COLON] + tail, p4, []);
    RunCons(p4, COLON, tail, p4.(state := 5));
    ReadDataField(p4.(state := 5), data);
  }

  // ---------------------------------------------------------------------
  // Applying the stores to the machine

  /** A store that lands inside the 1 MiB RAM or the 4 KiB ROM. */
  predicate StoreFits(s: Store) {
    if s.RamStore? then s.index < Board.MEMORY_SIZE else s.index < Board.ROM_SIZE
  }

  predicate StoresFit(stores: seq<Store>) {
    forall i | 0 <= i < |stores| :: StoreFits(stores[i])
  }

  /** `m` with store `s` done. */
  function ApplyStore(m: Board.Machine, s: Store): (r: Board.Machine)
    requires Board.Valid(m) && StoreFits(s)
    ensures Board.Valid(r) && r.pagereg == m.pagereg && r.uart == m.uart && r.disk == m.disk
  {
    if s.RamStore? then m.(memory := m.memory[s.index := s.value])
    else m.(rom := m.rom[s.index := s.value])
  }

  /** `m` with `stores` done in order. */
  function Apply(m: Board.Machine, stores: seq<Store>): (r: Board.Machine)
    requires Board.Valid(m) && StoresFit(stores)
    ensures Board.Valid(r) && r.pagereg == m.pagereg && r.uart == m.uart && r.disk == m.disk
    decreases |stores|
  {
    if |stores| == 0 then m else Apply(ApplyStore(m, stores[0]), stores[1..])
  }

  /** Store `s` writes RAM byte `i` (`rom` false) or ROM byte `i` (`rom` true). */
  predicate Targets(s: Store, rom: bool, i: nat) {
    s.RomStore? == rom && s.index == i
  }

  /** The value of the last of `stores` to write RAM or ROM byte `i`, if any does. */
  function LastStore(stores: seq<Store>, rom: bool, i: nat): (v: Option<byte>)
    decreases |stores|
  {
    if |stores| == 0 then None
    else
      var later := LastStore(stores[1..], rom, i);
      if later.Some? then later
      else if Targets(stores[0], rom, i) then Some(stores[0].value)
      else None
  }

  /** The last store to a byte in `a + b` is the last in `b`, or failing that the last in `a`. */
  lemma {:induction false} LastStoreAppend(a: seq<Store>, b: seq<Store>, rom: bool, i: nat)
    ensures LastStore(a + b, rom, i) == if LastStore(b, rom, i).Some? then LastStore(b, rom, i) else LastStore(a, rom, i)
    decreases |a|
  {
    if |a| == 0 {
      assert a + b == b;
    } else {
      assert (a + b)[1..] == a[1..] + b;
      LastStoreAppend(a[1..], b, rom, i);
    }
  }

  /** After the stores every RAM and ROM byte holds the last value stored to it, or its old value if none was. */
  lemma {:induction false} ApplyIsLastStore(m: Board.Machine, stores: seq<Store>, rom: bool, i: nat)
    requires Board.Valid(m) && StoresFit(stores)
    requires i < (if rom then Board.ROM_SIZE else Board.MEMORY_SIZE)
    ensures var r := Apply(m, stores);
      (if rom then r.rom[i] else r.memory[i]) ==
        if LastStore(stores, rom, i).Some? then LastStore(stores, rom, i).value
        else if rom then m.rom[i] else m.memory[i]
    decreases |stores|
  {
    if |stores| > 0 {
      ApplyIsLastStore(ApplyStore(m, stores[0]), stores[1..], rom, i);
    }
  }

  /** Stores of a line of data at `address` all land at `address` or above. */
  lemma {:induction false} LineStoresFrom(address: nat, data: seq<byte>, rom: bool, i: nat)
    requires address + |data| <= TWO_32
    requires (if rom then i + Board.ROM_BASE else i) < address
    ensures LastStore(LineStores(address, data), rom, i).None?
    decreases |data|
  {
    if |data| > 0 {
      LineStoresFrom(address + 1, data[1..], rom, i);
      LastStoreAppend(Emit(StoreFor(address, data[0])), LineStores(address + 1, data[1..]), rom, i);
    }
  }

  /** In a line of data below 0xE000, the last store to RAM byte `address + k` is data byte `k`. */
  lemma {:induction false} LineStoresLast(address: nat, data: seq<byte>, k: nat)
    requires k < |data| && address + |data| <= Board.RAM_END
    ensures LastStore(LineStores(address, data), false, address + k) == Some(data[k])
    decreases |data|
  {
    var head := Emit(StoreFor(address, data[0]));
    var rest := LineStores(address + 1, data[1..]);
    assert LineStores(address, data) == head + rest;
    LastStoreAppend(head, rest, false, address + k);
    if k == 0 {
      LineStoresFrom(address + 1, data[1..], false, address);
      assert head == [RamStore(address, data[0])];
      assert LastStore(head, false, address) == Some(data[0]) by {
        assert head[1..] == [];
      }
    } else {
      LineStoresLast(address + 1, data[1..], k - 1);
      assert data[1..][k - 1] == data[k];
    }
  }

  /** Every line of data below 0x10000 makes only stores that fit. */
  lemma {:induction false} LineStoresFit(address: nat, data: seq<byte>)
    requires address + |data| <= TWO_16
    ensures StoresFit(LineStores(address, data))
    decreases |data|
  {
    if |data| > 0 {
      LineStoresFit(address + 1, data[1..]);
    }
  }

  // ---------------------------------------------------------------------
  // Loading a file

  /** What the loader makes of the bytes of a file: it also feeds the end-of-file byte through the state machine. */
  function Loads(file: seq<byte>): (o: Outcome)
    ensures |o.stores| <= |file| + 1
  {
    Run(START, file + [EOF_BYTE])
  }

  /** A file of one line, as the loader reads it: the line's stores, no abort. */
  lemma OneLineFile(address: word, data: seq<byte>)
    requires address + |data| < TWO_32
    ensures Loads(HexLine(address, data)).stores == LineStores(address, data)
    ensures !Loads(HexLine(address, data)).aborted
  {
    var line := HexLine(address, data);
    RunAppend(START, line, [EOF_BYTE]);
    HexLineLoads(START, address, data);
    var p := Run(START, line).parser;
    assert Step(p, EOF_BYTE).Continue? && Step(p, EOF_BYTE).store.None?;
    assert Run(p, [EOF_BYTE]).stores == [] && !Run(p, [EOF_BYTE]).aborted by {
      assert [EOF_BYTE][1..] == [];
    }
  }

  /** The loader's result: whether it reports success, and the machine afterwards. */
  datatype Loaded = Loaded(ok: bool, machine: Board.Machine)

  /**
    `Machine::loadHex` as written. A missing file reports failure and
    changes nothing. Otherwise every store the state machine makes up to the
    end of the file, or up to an abort, is done, and the loader reports
    success, also after an abort: the abort path returns -1 from a function
    returning `bool`. A ROM store past the 4 KiB ROM writes outside the
    array, so the stores must fit.
   */
  function LoadHex(m: Board.Machine, file: Option<seq<byte>>): (r: Loaded)
    requires Board.Valid(m)
    requires file.Some? ==> StoresFit(Loads(file.value).stores)
    ensures Board.Valid(r.machine)
    ensures r.ok <==> file.Some?
    ensures file.None? ==> r.machine == m
    ensures file.Some? ==>
      var stores := Loads(file.value).stores;
      && r.machine.pagereg == m.pagereg && r.machine.uart == m.uart && r.machine.disk == m.disk
      && (forall i | 0 <= i < Board.MEMORY_SIZE ::
            r.machine.memory[i] == (if LastStore(stores, false, i).Some? then LastStore(stores, false, i).value else m.memory[i]))
      && (forall i | 0 <= i < Board.ROM_SIZE ::
            r.machine.rom[i] == (if LastStore(stores, true, i).Some? then LastStore(stores, true, i).value else m.rom[i]))
  {
    if file.None? then
      Loaded(false, m)
    else
      var stores := Loads(file.value).stores;
      var r := Loaded(true, Apply(m, stores));
      assert forall i | 0 <= i < Board.MEMORY_SIZE ::
          r.machine.memory[i] == (if LastStore(stores, false, i).Some? then LastStore(stores, false, i).value else m.memory[i]) by {
        forall i | 0 <= i < Board.MEMORY_SIZE {
          ApplyIsLastStore(m, stores, false, i);
        }
      }
      assert forall i | 0 <= i < Board.ROM_SIZE ::
          r.machine.rom[i] == (if LastStore(stores, true, i).Some? then LastStore(stores, true, i).value else m.rom[i]) by {
        forall i | 0 <= i < Board.ROM_SIZE {
          ApplyIsLastStore(m, stores, true, i);
        }
      }
      r
  }

  /** `stores` without the ones that land outside RAM and ROM. */
  function Fitting(stores: seq<Store>): (r: seq<Store>)
    ensures StoresFit(r)
    ensures StoresFit(stores) ==> r == stores
    ensures forall k | 0 <= k < |r| :: r[k] in stores
    decreases |stores|
  {
    if |stores| == 0 then []
    else if StoreFits(stores[0]) then [stores[0]] + Fitting(stores[1..])
    else Fitting(stores[1..])
  }

  /** Dropping the stores that do not fit changes nothing at any RAM or ROM byte: the last store to it is the same. */
  lemma {:induction false} FittingKeepsLastStore(stores: seq<Store>, rom: bool, i: nat)
    requires i < (if rom then Board.ROM_SIZE else Board.MEMORY_SIZE)
    ensures LastStore(Fitting(stores), rom, i) == LastStore(stores, rom, i)
    decreases |stores|
  {
    if |stores| > 0 {
      FittingKeepsLastStore(stores[1..], rom, i);
      if StoreFits(stores[0]) {
        assert ([stores[0]] + Fitting(stores[1..]))[1..] == Fitting(stores[1..]);
      } else {
        assert !Targets(stores[0], rom, i);
      }
    }
  }

  /**
    The loader as evidently intended: success means the file was there and
    parsed to the end without an abort, and bytes for addresses past the
    ROM are dropped like those for the I/O space rather than written past
    the array.
   */
  function LoadHexChecked(m: Board.Machine, file: Option<seq<byte>>): (r: Loaded)
    requires Board.Valid(m)
    ensures Board.Valid(r.machine)
    ensures r.ok <==> file.Some? && !Loads(file.value).aborted
    ensures file.None? ==> r.machine == m
    ensures file.Some? ==>
      var stores := Fitting(Loads(file.value).stores);
      && r.machine.pagereg == m.pagereg && r.machine.uart == m.uart && r.machine.disk == m.disk
      && (forall i | 0 <= i < Board.MEMORY_SIZE ::
            r.machine.memory[i] == (if LastStore(stores, false, i).Some? then LastStore(stores, false, i).value else m.memory[i]))
      && (forall i | 0 <= i < Board.ROM_SIZE ::
            r.machine.rom[i] == (if LastStore(stores, true, i).Some? then LastStore(stores, true, i).value else m.rom[i]))
  {
    if file.None? then
      Loaded(false, m)
    else
      var o := Loads(file.value);
      var stores := Fitting(o.stores);
      var r := Loaded(!o.aborted, Apply(m, stores));
      assert forall i | 0 <= i < Board.MEMORY_SIZE ::
          r.machine.memory[i] == (if LastStore(stores, false, i).Some? then LastStore(stores, false, i).value else m.memory[i]) by {
        forall i | 0 <= i < Board.MEMORY_SIZE {
          ApplyIsLastStore(m, stores, false, i);
        }
      }
      assert forall i | 0 <= i < Board.ROM_SIZE ::
          r.machine.rom[i] == (if LastStore(stores, true, i).Some? then LastStore(stores, true, i).value else m.rom[i]) by {
        forall i | 0 <= i < Board.ROM_SIZE {
          ApplyIsLastStore(m, stores, true, i);
        }
      }
      r
  }

  /**
    The corrected loader leaves every RAM and ROM byte as the last store of
    the whole run to it left it: it differs from the as-written loader only
    by dropping the stores that would land outside the arrays.
   */
  lemma CheckedKeepsInRangeStores(m: Board.Machine, file: seq<byte>, rom: bool, i: nat)
    requires Board.Valid(m)
    requires i < (if rom then Board.ROM_SIZE else Board.MEMORY_SIZE)
    ensures var r := LoadHexChecked(m, Some(file)).machine;
      var last := LastStore(Loads(file).stores, rom, i);
      (if rom then r.rom[i] else r.memory[i]) ==
        if last.Some? then last.value else if rom then m.rom[i] else m.memory[i]
  {
    FittingKeepsLastStore(Loads(file).stores, rom, i);
  }

  /** Where both loaders can run, they load the same bytes; they differ only in what they report after an abort. */
  lemma CheckedAgreesWhereDefined(m: Board.Machine, file: seq<byte>)
    requires Board.Valid(m) && StoresFit(Loads(file).stores)
    ensures LoadHexChecked(m, Some(file)).machine == LoadHex(m, Some(file)).machine
    ensures LoadHexChecked(m, Some(file)).ok == !Loads(file).aborted
  {
  }

  /** A one-line file for RAM below 0xE000, loaded by the corrected loader, reports success and puts each data byte at its physical address. */
  lemma LoadedLineInMemory(m: Board.Machine, address: word, data: seq<byte>, k: nat)
    requires Board.Valid(m)
    requires k < |data| && address + |data| <= Board.RAM_END
    ensures LoadHexChecked(m, Some(HexLine(address, data))).ok
    ensures LoadHexChecked(m, Some(HexLine(address, data))).machine.memory[address + k] == data[k]
  {
    var file := HexLine(address, data);
    OneLineFile(address, data);
    LineStoresFit(address, data);
    assert Fitting(Loads(file).stores) == Loads(file).stores;
    LineStoresLast(address, data, k);
  }

  /**
    End to end: with the reset page register, a one-line file for RAM
    below 0xE000, loaded by the corrected loader, reports success and the
    CPU reads every data byte back at its address.
   */
  lemma LoadedLineReadsBack(m: Board.Machine, address: word, data: seq<byte>, k: nat)
    requires Board.Valid(m) && m.pagereg % Board.PAGE_COUNT == 0
    requires k < |data| && address + |data| <= Board.RAM_END
    ensures LoadHexChecked(m, Some(HexLine(address, data))).ok
    ensures Board.Read(LoadHexChecked(m, Some(HexLine(address, data))).machine, address + k).value == data[k]
  {
    LoadedLineInMemory(m, address, data, k);
    var m' := LoadHexChecked(m, Some(HexLine(address, data))).machine;
    assert Board.Physical(m'.pagereg, address + k) == address + k;
  }

  /** A file whose fifth byte is not a colon: the loader aborts there but still reports success. */
  lemma AbortReportsSuccess(m: Board.Machine)
    requires Board.Valid(m)
    ensures var file := AddressDigits(0) + ['X' as int];
      && Loads(file).aborted && Loads(file).stores == []
      && LoadHex(m, Some(file)).ok
      && !LoadHexChecked(m, Some(file)).ok
  {
    var file := AddressDigits(0) + ['X' as int];
    assert file + [EOF_BYTE] == AddressDigits(0) + ['X' as int, EOF_BYTE];
    RunAppend(START, AddressDigits(0), ['X' as int, EOF_BYTE]);
    ReadAddress(START, 0);
    assert Step(Parser(4, 0, 0), 'X' as int) == Abort;
    assert Loads(file).stores == [] && Loads(file).aborted;
  }

  /** The line `FFFF:00,00`: its second byte is stored at ROM index 0x1000, one past the end of the ROM. */
  lemma RomOverflow(m: Board.Machine)
    requires Board.Valid(m)
    ensures Loads(HexLine(0xFFFF, [0, 0])).stores == [RomStore(0xFFF, 0), RomStore(0x1000, 0)]
    ensures !StoresFit(Loads(HexLine(0xFFFF, [0, 0])).stores)
    ensures LoadHexChecked(m, Some(HexLine(0xFFFF, [0, 0]))).ok
  {
    OneLineFile(0xFFFF, [0, 0]);
    assert [0, 0][1..] == [0];
    assert LineStores(0x10000, []) == [];
    assert LineStores(0xFFFF, [0, 0]) == [RomStore(0xFFF, 0)] + LineStores(0x10000, [0]);
    var stores := Loads(HexLine(0xFFFF, [0, 0])).stores;
    assert !StoreFits(stores[1]);
  }
}
