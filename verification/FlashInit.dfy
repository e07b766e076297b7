/** flash_init: the chip table, the usable size and the address width (src/flash.c:22-56,
    496-695). */
module FlashInit {
  import opened Bytes
  import opened EraseTiling
  import opened NorChip
  import opened SpiBus
  import opened SfcDriver
  import opened FlashPlan
  import opened FlashDriver
  import opened Limits

  const ALL := EraseSet(true, true, true)

  /** flash_info[], names left out. */
  const CHIPS: seq<FlashInfo> := [
    FlashInfo(0xc22018, 0x0100_0000, ALL, true, true, false),
    FlashInfo(0xc22019, 0x0200_0000, ALL, true, true, false),
    FlashInfo(0xc2201a, 0x0400_0000, ALL, true, true, false),
    FlashInfo(0xc2201b, 0x0800_0000, ALL, true, true, false),
    FlashInfo(0xef4018, 0x0100_0000, ALL, true, false, false),
    FlashInfo(0xef4019, 0x0200_0000, ALL, true, true, false),
    FlashInfo(0xef4020, 0x0400_0000, ALL, true, true, false),
    FlashInfo(0xef4021, 0x0800_0000, ALL, true, true, false),
    FlashInfo(0x20ba20, 0x0400_0000, NO_32K, false, true, true),
    FlashInfo(0x20ba19, 0x0200_0000, NO_32K, false, true, true),
    FlashInfo(0x1940ef, 0x0200_0000, NO_32K, false, true, true),
    FlashInfo(0x4d5444, 0x0200_0000, ALL, true, true, false),
    FlashInfo(0x55aa55, 0x0010_0000, ALL, true, true, false),
    FlashInfo(0xaa55aa, 0x0200_0000, ALL, true, true, false)
  ]

  /** The lookup loop of flash_identify. */
  method Lookup(iid: nat) returns (info: Option<FlashInfo>)
    ensures info.Some? ==> info.value in CHIPS && info.value.id == iid
    ensures info.None? ==> forall c :: c in CHIPS ==> c.id != iid
  {
    var i := 0;
    while i < |CHIPS|
      invariant i <= |CHIPS|
      invariant forall j :: 0 <= j < i ==> CHIPS[j].id != iid
    {
      if CHIPS[i].id == iid {
        return Some(CHIPS[i]);
      }
      i := i + 1;
    }
    return None;
  }

  /** What the write path needs holds for every row. */
  predicate RowWorks(c: FlashInfo) {
    && c.sizes.k4 && c.sizes.k64
    && 0 < c.size < TWO_32 && c.size % 0x10000 == 0
    && (c.size > LIMIT_3B ==> c.bulkOr4b)
    && (c.micronBugs <==> !c.sizes.k32) && (c.micronBugs <==> !c.chipErase)
    && (c.micronBugs <==> c.id in {0x20ba20, 0x20ba19, 0x1940ef}) && (!c.bulkOr4b <==> c.id == 0xef4018)
  }

  lemma EveryRowWorks()
    ensures forall c :: c in CHIPS ==> RowWorks(c)
  {
    forall i | 0 <= i < |CHIPS|
      ensures RowWorks(CHIPS[i])
    {
      if i < 7 {
        assert RowWorks(CHIPS[0]) && RowWorks(CHIPS[1]) && RowWorks(CHIPS[2]) && RowWorks(CHIPS[3]);
        assert RowWorks(CHIPS[4]) && RowWorks(CHIPS[5]) && RowWorks(CHIPS[6]);
      } else {
        assert RowWorks(CHIPS[7]) && RowWorks(CHIPS[8]) && RowWorks(CHIPS[9]) && RowWorks(CHIPS[10]);
        assert RowWorks(CHIPS[11]) && RowWorks(CHIPS[12]) && RowWorks(CHIPS[13]);
      }
    }
  }

  /** The crop at the top of flash_configure. */
  function UsableSize(info: FlashInfo): nat {
    if info.size > LIMIT_3B && !info.bulkOr4b then LIMIT_3B else info.size
  }

  /** The row describes the chip. */
  ghost predicate Describes(info: FlashInfo, c: Nor) {
    && Usable(info.sizes) && c.part.sizes == info.sizes
    && 0 < info.size <= |c.mem| && info.size % 0x10000 == 0
    && (!info.bulkOr4b ==> !c.wide)
  }

  /** The chip is at this width already, or needs no write enable to change it, or takes
      one in time. */
  predicate WidthSettles(c: Nor, wide: bool) {
    !c.part.strict4b || Deafness(c) < WREN_TRIES || c.wide == wide
  }

  /** How identification ends: with the chip's row, with an error, or at a look at finfo
      while that is still null. */
  datatype Identity = Known(info: FlashInfo) | Failed(rc: int) | NoInfo

  /** The identifier as flash_identify puts it together. */
  function IdOf(id: (byte, byte, byte)): nat {
    (id.0 as nat * 0x100 + id.1 as nat) * 0x100 + id.2 as nat
  }

  /** The JEDEC identifier of the three big makers: maker, family, and a density code that
      tells the size. */
  predicate SizeFitsId(id: (byte, byte, byte), size: nat) {
    id.0 in {0xc2, 0xef, 0x20} ==>
      && (id.2 == 0x18 ==> size == 0x100_0000) && (id.2 == 0x19 ==> size == 0x200_0000)
      && (id.2 == 0x1a || id.2 == 0x20 ==> size == 0x400_0000) && (id.2 == 0x1b || id.2 == 0x21 ==> size == 0x800_0000)
  }

  /** Every row gives the size that its identifier tells: first byte maker, third byte density. */
  lemma RowsFitIds(info: FlashInfo, id: (byte, byte, byte))
    requires info in CHIPS && info.id == IdOf(id)
    ensures SizeFitsId(id, info.size)
  {
    IdDigits(id);
    var maker, density := id.0 as nat, id.2 as nat;
    assert info.id / 0x1_0000 == maker && info.id % 0x100 == density;
  }

  lemma IdDigits(id: (byte, byte, byte))
    ensures IdOf(id) / 0x1_0000 == id.0 as nat && IdOf(id) % 0x100 == id.2 as nat
  {
    ThreeDigits(id.0 as nat, id.1 as nat, id.2 as nat);
  }

  lemma ThreeDigits(a: nat, b: nat, c: nat)
    requires b < 0x100 && c < 0x100
    ensures ((a * 0x100 + b) * 0x100 + c) / 0x1_0000 == a && ((a * 0x100 + b) * 0x100 + c) % 0x100 == c
  {
  }

  /** Some row has the identifier. */
  predicate Listed(id: (byte, byte, byte)) {
    exists info :: info in CHIPS && info.id == IdOf(id)
  }

  /** fl_chip_id */
  method ChipId(ctrl: Sfc, id: array<byte>) returns (rc: int, noInfo: bool)
    requires ctrl.bus.sturdy && ctrl.Resting() && id.Length >= 3
    modifies ctrl.bus, id
    ensures ctrl.Resting() && rc <= 0
    ensures ctrl.bus.chip == old(ctrl.bus.chip).(busy := ctrl.bus.chip.busy)
    ensures rc == 0 ==> ctrl.bus.chip.busy == 0
    ensures noInfo ==> rc == 0
    ensures rc == 0 ==> (noInfo <==> ctrl.info == None && old(ctrl.bus.chip).busy > 0)
    ensures rc == 0 && !noInfo ==> (id[0], id[1], id[2]) == ctrl.bus.chip.part.id
    ensures ctrl.bus.reliable ==> rc == 0
  {
    StatusBits(ctrl.bus.chip);
    var stat;
    rc, stat := ReadStat(ctrl);
    noInfo := false;
    if rc != 0 {
      return;
    }
    if stat & STAT_WIP != 0 {
      rc, noInfo := SyncWaitIdle(ctrl);
      if rc != 0 || noInfo {
        return;
      }
    }
    ghost var f, b := [], ctrl.bus.chip;
    assert Frame(CMD_RDID, None, ctrl.mode4b, []) == [CMD_RDID];
    rc, f := ctrl.CmdRd(CMD_RDID, None, id, 3);
    if rc == 0 {
      IdBytes(b, ctrl.bus.replies, id[..3]);
    }
  }

  lemma IdBytes(b: Nor, replies: seq<byte>, got: seq<byte>)
    requires |b.mem| > 0 && b.busy == 0 && |replies| >= 3 && got == replies[..3]
    requires Answers(b, [CMD_RDID], replies)
    ensures (got[0], got[1], got[2]) == b.part.id
  {
    assert Reply(b, [CMD_RDID], 0) == Some(replies[0]);
    assert Reply(b, [CMD_RDID], 1) == Some(replies[1]);
    assert Reply(b, [CMD_RDID], 2) == Some(replies[2]);
  }

  lemma NoRow(id: (byte, byte, byte))
    requires forall info :: info in CHIPS ==> info.id != IdOf(id)
    ensures !Listed(id)
  {
    hide CHIPS;
  }

  /** flash_identify, from any state of the chip. */
  method Identify(ctrl: Sfc) returns (r: Identity)
    requires ctrl.bus.sturdy && ctrl.Resting()
    modifies ctrl, ctrl.bus
    ensures ctrl.Resting() && ctrl.mode4b == old(ctrl.mode4b)
    ensures ctrl.bus.chip == old(ctrl.bus.chip).(busy := ctrl.bus.chip.busy)
    ensures r.Known? ==>
              && r.info in CHIPS && r.info.id == IdOf(ctrl.bus.chip.part.id)
              && ctrl.bus.chip.busy == 0 && ctrl.info == Some(r.info)
              && SizeFitsId(ctrl.bus.chip.part.id, r.info.size)
    ensures r.Failed? ==> r.rc < 0 && ctrl.info == old(ctrl.info)
    ensures ctrl.bus.reliable ==>
              && (r.NoInfo? <==> old(ctrl.info) == None && old(ctrl.bus.chip).busy > 0)
              && (r.Failed? ==> r.rc == -ENXIO && !Listed(old(ctrl.bus.chip).part.id))
  {
    hide CHIPS, Listed, SizeFitsId;
    var id := new byte[16];
    var rc, noInfo := ChipId(ctrl, id);
    if rc != 0 {
      return Failed(rc);
    }
    if noInfo {
      return NoInfo;
    }
    var iid := id[0] as nat;
    iid := iid * 0x100 + id[1] as nat;
    iid := iid * 0x100 + id[2] as nat;
    var info := Lookup(iid);
    if info.None? {
      NoRow(ctrl.bus.chip.part.id);
      return Failed(-ENXIO);
    }
    ctrl.info := info;
    RowsFitIds(info.value, ctrl.bus.chip.part.id);
    return Known(info.value);
  }

  /** From identification on: crop the size, then bring chip and controller to the width
      that the usable size needs. enabled is how the write enable before EN4B or EX4B
      went; flash_set_4b ignores it. */
  method Configure(ctrl: Sfc, info: FlashInfo) returns (rc: int, c: FlashChip, enabled: bool)
    requires ctrl.bus.sturdy && ctrl.Resting() && !ctrl.mode4b && ctrl.info == Some(info)
    requires ctrl.bus.chip.busy == 0 && Describes(info, ctrl.bus.chip)
    modifies ctrl, ctrl.bus
    ensures fresh(c) && fresh(c.smartBuf) && c.ctrl == ctrl && c.info == info && c.tsize == UsableSize(info)
    ensures c.tsize == if info.size > 0x100_0000 && !info.bulkOr4b then 0x100_0000 else info.size
    ensures rc <= 0 && ctrl.bus.chip.part == old(ctrl.bus.chip.part)
    ensures ctrl.bus.chip.mem == old(ctrl.bus.chip.mem) && ctrl.bus.chip.ops == old(ctrl.bus.chip.ops)
    ensures rc == 0 ==>
              && c.Ready() && ctrl.bus.chip.busy == 0
              && (ctrl.mode4b <==> c.tsize > LIMIT_3B)
    ensures rc == 0 ==>
              c.Valid() || (ctrl.bus.chip.part.strict4b && !enabled && old(ctrl.bus.chip).wide != (c.tsize > LIMIT_3B))
    // On a working bus it always reports success, and the two sides agree exactly then.
    ensures ctrl.bus.reliable ==>
              rc == 0 && (c.Valid() <==> WidthSettles(old(ctrl.bus.chip), c.tsize > LIMIT_3B))
  {
    c := new FlashChip(ctrl, info, UsableSize(info));
    enabled := true;
    if c.tsize > LIMIT_3B {
      rc, enabled := c.Set4bChip(true);
      if rc != 0 {
        return;
      }
      rc := ctrl.Set4b(true);
    } else {
      if info.bulkOr4b {
        rc, enabled := c.Set4bChip(false);
        if rc != 0 {
          return;
        }
      }
      rc := ctrl.Set4b(false);
    }
  }

  datatype Initialised = Ok(c: FlashChip) | Error(rc: int) | NullInfo

  /** The rows with the chip's identifier describe it. */
  ghost predicate RowsDescribe(c: Nor) {
    forall info :: info in CHIPS && info.id == IdOf(c.part.id) ==> Describes(info, c)
  }

  lemma RowFits(info: FlashInfo, b: Nor, a: Nor)
    requires RowsDescribe(b) && info in CHIPS && info.id == IdOf(b.part.id) && a == b.(busy := a.busy)
    ensures Describes(info, a)
  {
  }

  lemma NoRowIsCropped(info: FlashInfo)
    requires info in CHIPS
    ensures !(info.size > 0x100_0000 && !info.bulkOr4b)
  {
    EveryRowWorks();
    hide CHIPS;
  }

  /** flash_init, from any state of the chip. */
  method Init(ctrl: Sfc) returns (r: Initialised)
    requires ctrl.bus.sturdy && ctrl.Resting() && !ctrl.mode4b && RowsDescribe(ctrl.bus.chip)
    modifies ctrl, ctrl.bus
    ensures ctrl.bus.chip.mem == old(ctrl.bus.chip.mem) && ctrl.bus.chip.ops == old(ctrl.bus.chip.ops)
    ensures r.Ok? ==>
              && fresh(r.c) && fresh(r.c.smartBuf) && r.c.ctrl == ctrl && r.c.Ready() && ctrl.bus.chip.busy == 0
              && r.c.info in CHIPS && r.c.info.id == IdOf(ctrl.bus.chip.part.id) && r.c.tsize == r.c.info.size
              && SizeFitsId(ctrl.bus.chip.part.id, r.c.tsize)
              && (ctrl.mode4b <==> r.c.tsize > 0x100_0000)
    ensures r.Error? ==> r.rc < 0
    // On a working bus: which end it comes to, and when the two sides agree.
    ensures ctrl.bus.reliable ==>
              && (r.NullInfo? <==> old(ctrl.info) == None && old(ctrl.bus.chip).busy > 0)
              && (r.Error? ==> r.rc == -ENXIO && !Listed(old(ctrl.bus.chip).part.id))
              && (r.Ok? ==> (r.c.Valid() <==> WidthSettles(old(ctrl.bus.chip).(busy := 0), r.c.tsize > LIMIT_3B)))
  {
    hide CHIPS, RowsDescribe, Describes, Listed, UsableSize, WidthSettles, SizeFitsId, FlashChip.Valid, FlashChip.Ready;
    ghost var b := ctrl.bus.chip;
    var identity := Identify(ctrl);
    match identity
    case Failed(rc) => r := Error(rc);
    case NoInfo => r := NullInfo;
    case Known(info) =>
      RowFits(info, b, ctrl.bus.chip);
      NoRowIsCropped(info);
      var rc, c, _ := Configure(ctrl, info);
      r := if rc == 0 then Ok(c) else Error(rc);
  }

  /** A chip that wants WEL for EN4B and EX4B drops them without it: the case in which
      flash_init can report success with the two sides at odds. */
  lemma StrictChipKeepsWidth(b: Nor, on: bool, a: Nor)
    requires WellFormed(b) && b.part.strict4b && !b.wel
    requires Completes(b, [if on then CMD_EN4B else CMD_EX4B], a)
    ensures a == b
  {
  }

  /** Such a chip: 32 MiB, strict, and too deaf for fl_wren. */
  method StrictChip() returns (c: FlashChip, rc: int)
    ensures rc == 0 && !c.Valid() && c.ctrl.mode4b && !c.ctrl.bus.chip.wide
  {
    var info := CHIPS[1];
    var part := Part((0xc2, 0x20, 0x19), info.sizes, true, true, true, WREN_TRIES);
    var chip := Nor(part, seq(info.size, _ => BLANK), false, false, 0, WREN_TRIES, 0, [], 0);
    var bus := new Bus(true, true, chip.mem, chip, 0, 0);
    var ctrl := new Sfc(bus, true);
    ctrl.info := Some(info);
    var enabled;
    rc, c, enabled := Configure(ctrl, info);
  }

  /** After flash_init every usable address survives the trip to the chip. */
  lemma AddressesReach(c: FlashChip, at: nat)
    requires c.Valid() && at < c.tsize
    ensures FromBytes(AddrBytes(at, c.ctrl.mode4b)) == at
    ensures |AddrBytes(at, c.ctrl.mode4b)| == AddrLen(c.ctrl.bus.chip)
  {
    AddressRoundTrip(at, c.ctrl.mode4b);
  }
}
