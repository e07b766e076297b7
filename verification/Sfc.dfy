/** src/soc/sfc.c: the SPI flash controller driver. */
module SfcDriver {
  import opened Bytes
  import opened EraseTiling
  import opened NorChip
  import opened SpiBus
  import opened Words
  import opened Limits

  /** struct flash_info. FL_ERASE_BULK and FL_CAN_4B are the same bit, 0x10, so one
      field stands for both. */
  datatype FlashInfo = FlashInfo(
    id: nat, size: nat, sizes: EraseSet, chipErase: bool, bulkOr4b: bool, micronBugs: bool)

  function WithBit0(ce: word, on: bool): word {
    if on then ce | 1 else ce & !1
  }

  /** FMC_CE_CTRL after the width has been switched; a zero is not written. */
  function CeAfter(ce: word, enable: bool): word {
    if WithBit0(ce, enable) != 0 then WithBit0(ce, enable) else ce
  }

  /** Its width bit follows, unless it is the only bit set and is to be cleared. */
  lemma CeFollows(ce: word, enable: bool)
    ensures CeAfter(ce, enable) & 1 == 1 <==> enable || ce == 1
    ensures CeAfter(ce, enable) & !1 == ce & !1
  {
  }

  /** Both control values stay in read mode, with CE# released, and get the asked width. */
  lemma WidthSwitches(val: word, readVal: word, enable: bool)
    requires ReadMode(val) && ReadMode(readVal)
    ensures ReadMode(WithWidth(val, enable)) && FourByteBit(WithWidth(val, enable)) == enable
    ensures ReadMode(WithWidth(readVal, enable)) && FourByteBit(WithWidth(readVal, enable)) == enable
    ensures !Selects(readVal) && !Selects(WithWidth(readVal, enable))
  {
    ReadModeRests(readVal);
    ReadModeRests(WithWidth(readVal, enable));
  }

  class Sfc {
    const bus: Bus
    const fmc: bool  // SFC_TYPE_FMC, otherwise SFC_TYPE_SMC
    var ctlVal: word
    var ctlReadVal: word
    var mode4b: bool
    var info: Option<FlashInfo>  // finfo, null until the chip has been identified

    /** Both control values select normal read mode and carry the address width. */
    ghost predicate Consistent()
      reads this
    {
      && ReadMode(ctlVal) && ReadMode(ctlReadVal)
      && FourByteBit(ctlVal) == mode4b && FourByteBit(ctlReadVal) == mode4b
    }

    ghost predicate Valid()
      reads this, bus
    {
      bus.Valid() && Consistent()
    }

    /** Between commands: CE# released and the control register in read mode. */
    ghost predicate Resting()
      reads this, bus
    {
      Valid() && bus.ctl == ctlReadVal
    }

    /** sfc_driver_init and sfc_init_device: 3-byte mode, HCLK/8. */
    constructor (bus: Bus, fmc: bool)
      requires bus.Valid() && ReadMode(bus.ctl)
      modifies bus
      ensures Valid() && this.bus == bus && this.fmc == fmc && info == None && !mode4b
      ensures bus.chip == old(bus.chip) && (bus.sturdy ==> Resting())
    {
      this.bus, this.fmc, this.info := bus, fmc, None;
      ctlVal, ctlReadVal, mode4b := 0x400, 0x400, false;
      new;
      var _ := bus.WriteCtl(0x400);
    }

    /** sfc_start_cmd */
    method StartCmd(cmd: byte) returns (rc: int)
      requires Valid()
      modifies bus
      ensures Valid() && rc <= 0 && rc != -EREMOTEIO
      ensures rc == 0 ==> Selects(bus.ctl) && bus.frame == [cmd] && bus.replies == []
      ensures bus.sturdy && old(Resting()) ==>
                && Selects(bus.ctl) && bus.frame <= [cmd]
                && bus.chip == old(bus.chip) && bus.windows == old(bus.windows)
                && (bus.reliable ==> rc == 0)
    {
      rc := bus.WriteCtl(ctlVal | 7);
      if rc < 0 {
        return;
      }
      rc := bus.WriteCtl(ctlVal | 3);
      if rc < 0 {
        return;
      }
      rc := bus.WriteWindow([cmd]);
      rc := if rc == 1 then 0 else rc;
    }

    /** sfc_end_cmd: register faults are printed, not reported. */
    method EndCmd()
      requires Valid()
      modifies bus
      ensures Valid()
      ensures bus.sturdy ==> Resting() && bus.replies == old(bus.replies)
      ensures bus.sturdy && old(Selects(bus.ctl)) ==>
                && Completes(old(bus.chip), old(bus.frame), bus.chip)
                && bus.windows == old(bus.windows) + [old(bus.frame)]
    {
      var rc := bus.WriteCtl(ctlVal | 7);
      if rc < 0 {
        return;
      }
      rc := bus.WriteCtl(ctlReadVal);
    }

    /** sfc_send_addr */
    method SendAddr(addr: nat) returns (rc: int)
      requires Valid() && addr < 0x1_0000_0000
      modifies bus`frame
      ensures rc <= 0 && rc != -EREMOTEIO && (bus.reliable ==> rc == 0)
      ensures Selects(bus.ctl) ==> old(bus.frame) <= bus.frame <= old(bus.frame) + AddrBytes(addr, mode4b)
      ensures Selects(bus.ctl) && rc == 0 ==> bus.frame == old(bus.frame) + AddrBytes(addr, mode4b)
    {
      var ap := AddrBytes(addr, true);
      var bytes := if mode4b then ap else ap[1..];
      assert bytes == AddrBytes(addr, mode4b);
      rc := bus.WriteWindow(bytes);
      rc := if rc == |bytes| then 0 else rc;
    }

    /** The head that sfc_cmd_rd and sfc_cmd_wr share: opcode, then the address if any. */
    method Open(cmd: byte, addr: Option<nat>) returns (rc: int)
      requires Valid() && (addr.Some? ==> addr.value < 0x1_0000_0000)
      modifies bus
      ensures Valid() && rc <= 0 && rc != -EREMOTEIO
      ensures rc == 0 ==> Selects(bus.ctl) && bus.replies == [] && bus.frame == Frame(cmd, addr, mode4b, [])
      ensures bus.sturdy && old(Resting()) ==>
                && Selects(bus.ctl) && bus.frame <= Frame(cmd, addr, mode4b, [])
                && bus.chip == old(bus.chip) && bus.windows == old(bus.windows)
                && (bus.reliable ==> rc == 0)
    {
      rc := StartCmd(cmd);
      if rc == 0 && addr.Some? {
        rc := SendAddr(addr.value);
      }
    }

    /** sfc_cmd_wr */
    method CmdWr(cmd: byte, addr: Option<nat>, data: seq<byte>) returns (rc: int, ghost f: seq<byte>)
      requires Valid() && (addr.Some? ==> addr.value < 0x1_0000_0000)
      modifies bus
      ensures Valid() && rc <= 0 && rc != -EREMOTEIO
      ensures bus.sturdy ==> Resting()
      ensures bus.sturdy && bus.reliable && old(Resting()) ==> rc == 0
      ensures bus.sturdy && old(Resting()) ==>
                && f <= Frame(cmd, addr, mode4b, data)
                && (rc == 0 ==> f == Frame(cmd, addr, mode4b, data))
                && bus.windows == old(bus.windows) + [f]
                && Completes(old(bus.chip), f, bus.chip)
    {
      rc := Open(cmd, addr);
      FrameData(cmd, addr, mode4b, data);
      if rc == 0 && data != [] {
        rc := bus.WriteWindow(data);
      }
      f := bus.frame;
      EndCmd();
      rc := if rc == |data| then 0 else rc;
    }

    /** The four guarded stores of sfc_cmd_rd's loop body. */
    method Unpack(val: word, buffer: array<byte>, i: nat, size: nat) returns (n: nat)
      requires i < size <= buffer.Length
      modifies buffer
      ensures n == if size - i < 4 then size - i else 4
      ensures forall j :: i <= j < i + n ==> buffer[j] == ByteOf(val, j - i)
      ensures forall k :: 0 <= k < buffer.Length && !(i <= k < i + n) ==> buffer[k] == old(buffer[k])
    {
      buffer[i] := ByteOf(val, 0);
      n := 1;
      if i + n < size {
        buffer[i + n] := ByteOf(val, 1);
        n := n + 1;
      }
      if i + n < size {
        buffer[i + n] := ByteOf(val, 2);
        n := n + 1;
      }
      if i + n < size {
        buffer[i + n] := ByteOf(val, 3);
        n := n + 1;
      }
    }

    /** Unpacking gives the bytes of the reply back. */
    method HandOut(val: word, buffer: array<byte>, i: nat, size: nat, ghost r: seq<byte>) returns (n: nat)
      requires i < size <= buffer.Length && i + 4 <= |r| && val == LittleEndian(r[i], r[i + 1], r[i + 2], r[i + 3])
      modifies buffer
      ensures n == if size - i < 4 then size - i else 4
      ensures forall j :: i <= j < i + n ==> buffer[j] == r[j]
      ensures forall k :: 0 <= k < buffer.Length && !(i <= k < i + n) ==> buffer[k] == old(buffer[k])
    {
      LittleEndianBytes(r[i], r[i + 1], r[i + 2], r[i + 3]);
      hide LittleEndian, ByteOf;
      n := Unpack(val, buffer, i, size);
      forall j | i <= j < i + n
        ensures buffer[j] == r[j]
      {
        assert j == i || j == i + 1 || j == i + 2 || j == i + 3;
      }
    }

    /** The reply loop of sfc_cmd_rd: bytes are clocked in fours, because some bridges
        widen shorter reads, and handed out one by one. */
    method ClockIn(buffer: array<byte>, size: nat) returns (rc: int)
      requires Valid() && Selects(bus.ctl) && bus.replies == [] && size <= buffer.Length
      modifies bus`chip, bus`replies, buffer
      ensures Valid() && rc <= 0 && rc != -EREMOTEIO && (bus.reliable ==> rc == 0)
      ensures Waited(old(bus.chip), bus.frame, bus.chip)
      ensures rc == 0 ==>
                && size <= |bus.replies| && buffer[..size] == bus.replies[..size]
                && Answers(old(bus.chip), bus.frame, bus.replies)
                && (0 < size <= 4 ==> bus.chip == Polled(old(bus.chip), bus.frame))
    {
      hide LittleEndian, ByteOf;
      var i := 0;
      rc := 0;
      while i < size
        invariant Valid() && rc == 0 && i <= size
        invariant i <= |bus.replies| && forall j :: 0 <= j < i ==> buffer[j] == bus.replies[j]
        invariant i < size ==> i == |bus.replies|
        invariant Waited(old(bus.chip), bus.frame, bus.chip)
        invariant i == 0 ==> bus.chip == old(bus.chip)
        invariant 0 < i <= 4 ==> bus.chip == Polled(old(bus.chip), bus.frame)
        invariant i == 0 || i >= 4 || i == size
        invariant Answers(old(bus.chip), bus.frame, bus.replies)
      {
        var val;
        rc, val := bus.ReadWindowL();
        if rc != 0 {
          return;
        }
        var n := HandOut(val, buffer, i, size, bus.replies);
        i := i + n;
      }
    }

    /** sfc_cmd_rd, for the opcodes that read. */
    method CmdRd(cmd: byte, addr: Option<nat>, buffer: array<byte>, size: nat) returns (rc: int, ghost f: seq<byte>)
      requires Valid() && (addr.Some? ==> addr.value < 0x1_0000_0000) && size <= buffer.Length
      requires IsRead(cmd)
      modifies bus, buffer
      ensures Valid() && rc <= 0 && rc != -EREMOTEIO
      ensures bus.sturdy ==> Resting()
      ensures bus.sturdy && bus.reliable && old(Resting()) ==> rc == 0
      ensures bus.sturdy && rc == 0 ==> size <= |bus.replies| && buffer[..size] == bus.replies[..size]
      ensures bus.sturdy && old(Resting()) ==>
                && f <= Frame(cmd, addr, mode4b, [])
                && (rc == 0 ==> f == Frame(cmd, addr, mode4b, []))
                && bus.windows == old(bus.windows) + [f]
                && Waited(old(bus.chip), f, bus.chip)
      ensures bus.sturdy && old(Resting()) && rc == 0 ==>
                && Answers(old(bus.chip), f, bus.replies)
                && (0 < size <= 4 ==> bus.chip == Polled(old(bus.chip), f))
    {
      hide Frame, Reply, Completes;
      ghost var calm := bus.sturdy && Resting();
      rc := Open(cmd, addr);
      f := bus.frame;
      if rc == 0 && size > 0 {
        rc := ClockIn(buffer, size);
      }
      ghost var after := bus.chip;
      EndCmd();
      if calm {
        FrameStart(cmd, addr, mode4b, [], f);
        ReadFrame(after, cmd, f, bus.chip);
      }
    }

    /** The middle of sfc_set_4b: both control values, the mode, and the register. */
    method SwitchWidth(enable: bool) returns (rc: int)
      requires Resting()
      modifies this, bus`ctl, bus`chip, bus`frame, bus`replies, bus`windows
      ensures Valid() && rc <= 0 && info == old(info) && mode4b == enable
      ensures bus.sturdy ==> rc == 0 && Resting() && bus.chip == old(bus.chip) && bus.windows == old(bus.windows)
    {
      WidthSwitches(ctlVal, ctlReadVal, enable);
      hide Selects, ReadMode, FourByteBit, WithWidth;
      ctlVal, ctlReadVal := WithWidth(ctlVal, enable), WithWidth(ctlReadVal, enable);
      mode4b := enable;
      rc := bus.WriteCtl(ctlReadVal);
    }

    /** sfc_set_4b */
    method Set4b(enable: bool) returns (rc: int)
      requires Resting() && info.Some?
      modifies this, bus
      ensures Valid() && rc <= 0 && info == old(info)
      ensures bus.sturdy ==> Resting() && bus.chip == old(bus.chip) && bus.windows == old(bus.windows)
      ensures rc == 0 ==> mode4b == enable || (fmc && info.value.size <= LIMIT_3B && !enable && mode4b == old(mode4b))
      ensures mode4b == old(mode4b) || mode4b == enable
      ensures rc == 0 ==>
                bus.ceCtrl
                == if fmc && info.value.size > LIMIT_3B then CeAfter(old(bus.ceCtrl), enable) else old(bus.ceCtrl)
      ensures bus.sturdy && bus.reliable && (fmc && info.value.size <= LIMIT_3B ==> !enable) ==> rc == 0
    {
      hide WithBit0, Selects, ReadMode, FourByteBit;
      var ce: word := 0;
      if fmc && info.value.size > LIMIT_3B {
        rc, ce := bus.ReadCeCtrl();
        if rc < 0 {
          return;
        }
      } else if fmc {
        rc := if enable then -EIO else 0;
        return;
      }
      ce := WithBit0(ce, enable);
      rc := SwitchWidth(enable);
      if rc < 0 {
        return;
      }
      if ce != 0 && fmc {
        rc := bus.WriteCeCtrl(ce);
      }
    }

    /** sfc_direct_read */
    method DirectRead(pos: nat, buf: array<byte>, len: nat) returns (rc: int)
      requires Valid() && len <= buf.Length
      modifies buf
      ensures rc <= 0 && rc != -EREMOTEIO && (bus.reliable ==> rc == 0)
      ensures rc == 0 && pos + len <= |bus.chip.mem| ==>
                buf[..len] == (if bus.Mapped(pos, len) then bus.chip.mem else bus.noise)[pos..pos + len]
    {
      rc := bus.ReadWindow(pos, buf, len);
      if rc < 0 {
        return;
      }
      rc := if rc == len then 0 else rc;
    }
  }
}
