/** The device on the far side of the driver: a SPI-NOR flash chip that takes its
    commands as the byte string of one CE# window. */
module NorChip {
  import opened Bytes
  import opened EraseTiling

  // Opcodes, src/soc/sfc.h:14-31.
  const CMD_BE: byte := 0xd8
  const CMD_BE32K: byte := 0x52
  const CMD_CE: byte := 0x60
  const CMD_EN4B: byte := 0xb7
  const CMD_EX4B: byte := 0xe9
  const CMD_MIC_BULK_ERASE: byte := 0xc7
  const CMD_MIC_RDFLST: byte := 0x70
  const CMD_PP: byte := 0x02
  const CMD_RDID: byte := 0x9f
  const CMD_RDSR: byte := 0x05
  const CMD_READ: byte := 0x03
  const CMD_SE: byte := 0x20
  const CMD_WREN: byte := 0x06

  const STAT_WIP: byte := 0x01
  const STAT_WEN: byte := 0x02

  const PAGE: nat := 0x100
  const LIMIT_3B: nat := 0x100_0000

  /** What never changes about a chip: its identifier, its erase sizes, whether it takes
      the two whole-chip erase opcodes, whether EN4B and EX4B need WEL, and the most
      write enables it ignores in a row. */
  datatype Part = Part(
    id: (byte, byte, byte),
    sizes: EraseSet,
    chipErase: bool,
    bulkErase: bool,
    strict4b: bool,
    maxDeaf: nat)

  /** A program or erase that reached the chip; armed says that WEL was set and WIP
      clear at that moment, otherwise the chip ignored it. */
  datatype Op =
    | Program(at: nat, data: seq<byte>, armed: bool)
    | Erase(base: nat, size: nat, armed: bool)

  /** busy counts the status polls that will still answer WIP; deaf the write
      enables that will still be ignored; flaws the operations that may yet leave
      wrong bits in the bytes they address. */
  datatype Nor = Nor(
    part: Part,
    mem: seq<byte>,
    wide: bool,
    wel: bool,
    busy: nat,
    deaf: nat,
    flaws: nat,
    ops: seq<Op>,
    wrens: nat)

  ghost predicate WellFormed(c: Nor) {
    && |c.mem| > 0 && |c.mem| % 0x10000 == 0 && |c.mem| < 0x1_0000_0000
    && c.deaf <= c.part.maxDeaf
  }

  function Status(c: Nor): byte {
    (if c.busy > 0 then STAT_WIP else 0) | (if c.wel then STAT_WEN else 0)
  }

  lemma StatusBits(c: Nor)
    ensures Status(c) & STAT_WIP != 0 <==> c.busy > 0
    ensures Status(c) & STAT_WEN != 0 <==> c.wel
    ensures Status(c) == (if c.busy > 0 then 0x01 else 0x00) | (if c.wel then 0x02 else 0x00)
  {
  }

  function AddrLen(c: Nor): nat {
    if c.wide then 4 else 3
  }

  /** Big-endian value of a byte string. */
  function FromBytes(bs: seq<byte>): nat {
    if bs == [] then 0 else FromBytes(bs[..|bs| - 1]) * 256 + bs[|bs| - 1] as nat
  }

  /** Page program: data past the end of the 256-byte page wraps to its start. */
  function Programmed(mem: seq<byte>, at: nat, data: seq<byte>): (r: seq<byte>)
    ensures |r| == |mem|
  {
    var skip := if |data| > PAGE then |data| - PAGE else 0;
    var base := at - at % PAGE;
    seq(|mem|, i requires 0 <= i < |mem| =>
      var k := (i - (at + skip)) % PAGE;
      if base <= i < base + PAGE && k < |data| - skip then mem[i] & data[skip + k] else mem[i])
  }

  /** The bytes a program may touch. */
  function TouchedLo(at: nat, n: nat): nat {
    if at % PAGE + n <= PAGE then at else at - at % PAGE
  }

  function TouchedHi(at: nat, n: nat): nat {
    if at % PAGE + n <= PAGE then at + n else at - at % PAGE + PAGE
  }

  /** The chip accepted a self-timed operation: WEL drops, WIP rises for some number
      of polls, and the memory is as intended unless one of its flaws was spent. */
  ghost predicate Accepts(b: Nor, op: Op, mem: seq<byte>, lo: nat, hi: nat, a: Nor) {
    && a == b.(mem := a.mem, wel := false, busy := a.busy, deaf := a.deaf, flaws := a.flaws, ops := b.ops + [op])
    && a.deaf <= b.part.maxDeaf
    && a.flaws <= b.flaws
    && SameOutside(b.mem, a.mem, lo, hi)
    && (a.flaws == b.flaws ==> a.mem == mem)
  }

  predicate Armed(c: Nor) {
    c.wel && c.busy == 0
  }

  ghost predicate Programs(b: Nor, at: nat, data: seq<byte>, a: Nor) {
    if Armed(b) then
      Accepts(b, Program(at, data, true), Programmed(b.mem, at, data),
              TouchedLo(at, |data|), TouchedHi(at, |data|), a)
    else
      a == b.(ops := b.ops + [Program(at, data, false)])
  }

  ghost predicate Erases(b: Nor, base: nat, size: nat, a: Nor) {
    if Armed(b) then
      Accepts(b, Erase(base, size, true), Blanked(b.mem, base, size), base, base + size, a)
    else
      a == b.(ops := b.ops + [Erase(base, size, false)])
  }

  function EraseOpcode(size: nat): byte {
    if size == 0x1000 then CMD_SE else if size == 0x8000 then CMD_BE32K else CMD_BE
  }

  function EraseOpcodeSize(op: byte): nat {
    if op == CMD_SE then 0x1000 else if op == CMD_BE32K then 0x8000 else if op == CMD_BE then 0x10000 else 0
  }

  /** The chip's own reading of an addressed frame. */
  function FrameAddr(c: Nor, frame: seq<byte>): nat
    requires |frame| >= 1 + AddrLen(c) && |c.mem| > 0
  {
    FromBytes(frame[1..1 + AddrLen(c)]) % |c.mem|
  }

  datatype Command =
    | WriteEnable
    | SetWide(on: bool)
    | EraseBlock(base: nat, size: nat)
    | ProgramPage(at: nat, data: seq<byte>)
    | Nothing

  /** The command in a finished frame. Incomplete, unknown and unsupported commands
      are nothing, as are the read commands once their reply has been shifted out. */
  function Decode(c: Nor, frame: seq<byte>): Command
    requires |c.mem| > 0
  {
    if frame == [] then Nothing
    else
      var op := frame[0];
      if op == CMD_WREN then (if |frame| == 1 then WriteEnable else Nothing)
      else if op == CMD_EN4B || op == CMD_EX4B then (if |frame| == 1 then SetWide(op == CMD_EN4B) else Nothing)
      else if op == CMD_CE || op == CMD_MIC_BULK_ERASE then
        if |frame| == 1 && (if op == CMD_CE then c.part.chipErase else c.part.bulkErase)
        then EraseBlock(0, |c.mem|) else Nothing
      else if Supported(c.part.sizes, EraseOpcodeSize(op)) then
        if |frame| == 1 + AddrLen(c) then
          var at, size := FrameAddr(c, frame), EraseOpcodeSize(op);
          EraseBlock(at - at % size, size)
        else Nothing
      else if op == CMD_PP && |frame| > 1 + AddrLen(c) then
        ProgramPage(FrameAddr(c, frame), frame[1 + AddrLen(c)..])
      else Nothing
  }

  ghost predicate Executes(b: Nor, cmd: Command, a: Nor) {
    match cmd
    case WriteEnable =>
      a == (if b.busy > 0 then b.(wrens := b.wrens + 1)
            else if b.deaf > 0 then b.(deaf := b.deaf - 1, wrens := b.wrens + 1)
            else b.(wel := true, wrens := b.wrens + 1))
    case SetWide(on) =>
      if b.busy == 0 && (b.wel || !b.part.strict4b) then a == b.(wide := on, wel := a.wel) && (a.wel ==> b.wel)
      else a == b
    case EraseBlock(base, size) => Erases(b, base, size, a)
    case ProgramPage(at, data) => Programs(b, at, data, a)
    case Nothing => a == b
  }

  /** What CE# going high does to the chip after it has shifted in the frame. */
  ghost predicate Completes(b: Nor, frame: seq<byte>, a: Nor)
    requires |b.mem| > 0
  {
    Executes(b, Decode(b, frame), a)
  }

  /** k-th byte the chip shifts out in a frame; None where it is not determined. */
  function Reply(c: Nor, frame: seq<byte>, k: nat): Option<byte>
    requires |c.mem| > 0
  {
    if frame == [CMD_RDSR] then Some(Status(c))
    else if |frame| == 1 + AddrLen(c) && frame[0] == CMD_READ && c.busy == 0 then
      Some(c.mem[(FrameAddr(c, frame) + k) % |c.mem|])
    else if frame == [CMD_RDID] && c.busy == 0 && k < 3 then
      Some(if k == 0 then c.part.id.0 else if k == 1 then c.part.id.1 else c.part.id.2)
    else None
  }

  /** Shifting out a reply changes nothing, except that a status poll lets time pass. */
  function Polled(c: Nor, frame: seq<byte>): Nor {
    if frame == [CMD_RDSR] && c.busy > 0 then c.(busy := c.busy - 1) else c
  }

  // ---- addresses on the wire ----

  /** The low 3 or 4 bytes of a uint32_t, most significant first. */
  function AddrBytes(addr: nat, wide: bool): seq<byte>
    requires addr < 0x1_0000_0000
  {
    (if wide then [(addr / 0x100_0000) as byte] else []) +
    [(addr / 0x1_0000 % 0x100) as byte, (addr / 0x100 % 0x100) as byte, (addr % 0x100) as byte]
  }

  /** A frame as the driver means it. */
  function Frame(op: byte, addr: Option<nat>, wide: bool, data: seq<byte>): seq<byte>
    requires addr.Some? ==> addr.value < 0x1_0000_0000
  {
    [op] + (if addr.Some? then AddrBytes(addr.value, wide) else []) + data
  }

  lemma FromThree(a: byte, b: byte, c: byte)
    ensures FromBytes([a, b, c]) == a as nat * 0x1_0000 + b as nat * 0x100 + c as nat
  {
    assert [a, b, c][..2] == [a, b] && [a, b][..1] == [a] && [a][..0] == [];
    assert FromBytes([a]) == a as nat;
    assert FromBytes([a, b]) == a as nat * 0x100 + b as nat;
  }

  lemma FromFour(z: byte, a: byte, b: byte, c: byte)
    ensures FromBytes([z, a, b, c]) ==
            z as nat * 0x100_0000 + a as nat * 0x1_0000 + b as nat * 0x100 + c as nat
  {
    FromThree(z, a, b);
    assert [z, a, b, c][..3] == [z, a, b];
  }

  lemma Digits(addr: nat)
    requires addr < 0x1_0000_0000
    ensures addr / 0x100_0000 < 0x100
    ensures addr % LIMIT_3B == addr / 0x1_0000 % 0x100 * 0x1_0000 + addr / 0x100 % 0x100 * 0x100 + addr % 0x100
    ensures addr == addr / 0x100_0000 * 0x100_0000 + addr % LIMIT_3B
  {
    var h := addr / 0x100;
    var g := addr / 0x1_0000;
    assert h / 0x100 == g && g / 0x100 == addr / 0x100_0000;
    assert addr == h * 0x100 + addr % 0x100;
    assert h == g * 0x100 + h % 0x100;
    assert g == addr / 0x100_0000 * 0x100 + g % 0x100;
  }

  lemma ByteOfNat(x: nat)
    requires x < 0x100
    ensures (x as byte) as nat == x
  {
    if x < 16 {
    } else if x < 32 {
    } else if x < 64 {
    } else if x < 128 {
    }
  }

  /** The bytes of an address are its digits to base 256, highest first. */
  lemma AddressDigits(addr: nat, wide: bool)
    requires addr < 0x1_0000_0000
    ensures |AddrBytes(addr, wide)| == if wide then 4 else 3
    ensures var b := AddrBytes(addr, wide);
            if wide then
              addr == 0x100_0000 * b[0] as nat + 0x1_0000 * b[1] as nat + 0x100 * b[2] as nat + b[3] as nat
            else
              addr % 0x100_0000 == 0x1_0000 * b[0] as nat + 0x100 * b[1] as nat + b[2] as nat
  {
    var z, a, b, c := addr / 0x100_0000, addr / 0x1_0000 % 0x100, addr / 0x100 % 0x100, addr % 0x100;
    Digits(addr);
    ByteOfNat(z);
    ByteOfNat(a);
    ByteOfNat(b);
    ByteOfNat(c);
  }

  /** An address that fits the width decodes back to itself; with three bytes the
      chip sees it modulo 16 MiB. */
  lemma AddressRoundTrip(addr: nat, wide: bool)
    requires addr < 0x1_0000_0000
    ensures |AddrBytes(addr, wide)| == if wide then 4 else 3
    ensures FromBytes(AddrBytes(addr, wide)) == if wide then addr else addr % LIMIT_3B
  {
    var z, a, b, c := addr / 0x100_0000, addr / 0x1_0000 % 0x100, addr / 0x100 % 0x100, addr % 0x100;
    Digits(addr);
    ByteOfNat(z);
    ByteOfNat(a);
    ByteOfNat(b);
    ByteOfNat(c);
    if wide {
      FromFour(z as byte, a as byte, b as byte, c as byte);
      assert AddrBytes(addr, wide) == [z as byte, a as byte, b as byte, c as byte];
    } else {
      FromThree(a as byte, b as byte, c as byte);
      assert AddrBytes(addr, wide) == [a as byte, b as byte, c as byte];
    }
  }

  // ---- what a driver frame, or a prefix of one cut short by a fault, does ----

  ghost predicate Addressable(c: Nor, at: nat) {
    at < |c.mem| && at < 0x1_0000_0000 && (c.wide || at < LIMIT_3B)
  }

  lemma PrefixParts(f: seq<byte>, op: byte, addr: seq<byte>, data: seq<byte>)
    requires f <= [op] + addr + data
    ensures f != [] ==> f[0] == op
    ensures |f| >= 1 + |addr| ==> f[1..1 + |addr|] == addr && f[1 + |addr|..] == data[..|f| - 1 - |addr|]
  {
    var full := [op] + addr + data;
    assert f == full[..|f|];
    if |f| >= 1 + |addr| {
      assert f[1..1 + |addr|] == full[1..1 + |addr|] == addr;
      assert f[1 + |addr|..] == full[1 + |addr|..|f|] == data[..|f| - 1 - |addr|];
    }
  }

  lemma SmallMod(x: nat, n: nat)
    requires x < n
    ensures x % n == x
  {
  }

  lemma FrameAddress(b: Nor, op: byte, at: nat, data: seq<byte>, f: seq<byte>)
    requires Addressable(b, at) && f <= Frame(op, Some(at), b.wide, data)
    ensures |f| >= 1 + AddrLen(b) ==> FrameAddr(b, f) == at
  {
    AddressRoundTrip(at, b.wide);
    PrefixParts(f, op, AddrBytes(at, b.wide), data);
    SmallMod(at, |b.mem|);
    SmallMod(at, if b.wide then 0x1_0000_0000 else LIMIT_3B);
  }

  /** A frame, or a prefix of it, is read by the chip as it was meant. */
  lemma FramePrefix(b: Nor, op: byte, at: nat, data: seq<byte>, f: seq<byte>)
    requires Addressable(b, at) && f <= Frame(op, Some(at), b.wide, data)
    ensures f != [] ==> f[0] == op
    ensures |f| >= 1 + AddrLen(b) ==>
              FrameAddr(b, f) == at && f[1 + AddrLen(b)..] == data[..|f| - 1 - AddrLen(b)]
    ensures f == Frame(op, Some(at), b.wide, data) ==> |f| == 1 + AddrLen(b) + |data|
  {
    FrameAddress(b, op, at, data, f);
    AddressRoundTrip(at, b.wide);
    PrefixParts(f, op, AddrBytes(at, b.wide), data);
  }

  lemma ProgramFrame(b: Nor, at: nat, data: seq<byte>, f: seq<byte>, a: Nor) returns (n: nat)
    requires Addressable(b, at) && f <= Frame(CMD_PP, Some(at), b.wide, data) && data != []
    requires Completes(b, f, a)
    ensures n <= |data| && (if n == 0 then a == b else Programs(b, at, data[..n], a))
    ensures f == Frame(CMD_PP, Some(at), b.wide, data) ==> n == |data|
  {
    FramePrefix(b, CMD_PP, at, data, f);
    n := if |f| > 1 + AddrLen(b) then |f| - 1 - AddrLen(b) else 0;
  }

  lemma EraseFrame(b: Nor, at: nat, size: nat, f: seq<byte>, a: Nor)
    requires Addressable(b, at) && Supported(b.part.sizes, size)
    requires f <= Frame(EraseOpcode(size), Some(at), b.wide, []) && Completes(b, f, a)
    ensures a == b || Erases(b, at - at % size, size, a)
    ensures f == Frame(EraseOpcode(size), Some(at), b.wide, []) ==> Erases(b, at - at % size, size, a)
  {
    hide Frame, FrameAddr, Addressable, Blanked, Programmed;
    FramePrefix(b, EraseOpcode(size), at, [], f);
    assert EraseOpcodeSize(EraseOpcode(size)) == size;
  }

  /** Without an address the frame is the opcode alone. */
  lemma ShortFrame(b: Nor, op: byte, f: seq<byte>, a: Nor)
    requires |b.mem| > 0 && f <= Frame(op, None, b.wide, []) && Completes(b, f, a)
    ensures f == [] || f == [op]
    ensures f == [] ==> a == b
  {
  }

  /** The opcodes on the wire. */
  lemma WireBytes(wide: bool)
    ensures Frame(CMD_WREN, None, wide, []) == [0x06] && Frame(CMD_RDSR, None, wide, []) == [0x05]
    ensures Frame(CMD_RDID, None, wide, []) == [0x9f] && Frame(CMD_MIC_RDFLST, None, wide, []) == [0x70]
    ensures Frame(CMD_EN4B, None, wide, []) == [0xb7] && Frame(CMD_EX4B, None, wide, []) == [0xe9]
    ensures Frame(CMD_CE, None, wide, []) == [0x60] && Frame(CMD_MIC_BULK_ERASE, None, wide, []) == [0xc7]
    ensures EraseOpcode(0x1000) == 0x20 && EraseOpcode(0x8000) == 0x52 && EraseOpcode(0x1_0000) == 0xd8
    ensures forall data: seq<byte>, addr :: 0 <= addr < 0x1_0000_0000 ==>
              Frame(CMD_PP, Some(addr), wide, data) == [0x02] + AddrBytes(addr, wide) + data
  {
  }

  predicate IsRead(cmd: byte) {
    cmd == CMD_RDSR || cmd == CMD_READ || cmd == CMD_RDID || cmd == CMD_MIC_RDFLST
  }

  /** The reading opcodes leave nothing behind when CE# goes high. */
  lemma ReadFrame(b: Nor, cmd: byte, f: seq<byte>, a: Nor)
    requires |b.mem| > 0 && IsRead(cmd)
    requires (f == [] || f[0] == cmd) && Completes(b, f, a)
    ensures a == b
  {
  }

  lemma FrameStart(cmd: byte, addr: Option<nat>, wide: bool, data: seq<byte>, f: seq<byte>)
    requires addr.Some? ==> addr.value < 0x1_0000_0000
    requires f <= Frame(cmd, addr, wide, data)
    ensures f == [] || f[0] == cmd
  {
  }

  lemma FrameData(cmd: byte, addr: Option<nat>, wide: bool, data: seq<byte>)
    requires addr.Some? ==> addr.value < 0x1_0000_0000
    ensures Frame(cmd, addr, wide, data) == Frame(cmd, addr, wide, []) + data
  {
  }
}
