/** src/flash.c: reading, erasing and writing the chip through the controller. */
module FlashDriver {
  import opened Bytes
  import opened EraseTiling
  import opened NorChip
  import opened SpiBus
  import opened SfcDriver
  import opened FlashPlan
  import opened SmartOutcome
  import opened Limits

  const WREN_TRIES: nat := 1000

  /** How often fl_wren has to try: once to sit out a busy chip, then once for every
      write enable the chip ignores. */
  function Deafness(c: Nor): nat {
    (if c.busy > 0 then 1 else 0) + (if c.wel then 0 else c.deaf)
  }

  /** fl_read_stat */
  method ReadStat(ctrl: Sfc) returns (rc: int, stat: byte)
    requires ctrl.bus.sturdy && ctrl.Resting()
    modifies ctrl.bus
    ensures ctrl.Resting() && rc <= 0 && rc != -EREMOTEIO && (ctrl.bus.reliable ==> rc == 0)
    ensures ctrl.bus.chip == old(ctrl.bus.chip).(busy := ctrl.bus.chip.busy)
    ensures ctrl.bus.chip.busy <= old(ctrl.bus.chip.busy)
    ensures rc == 0 ==>
              && stat == Status(old(ctrl.bus.chip))
              && ctrl.bus.chip == Polled(old(ctrl.bus.chip), [CMD_RDSR])
  {
    var buf := new byte[1];
    assert Frame(CMD_RDSR, None, ctrl.mode4b, []) == [CMD_RDSR];
    ghost var f;
    rc, f := ctrl.CmdRd(CMD_RDSR, None, buf, 1);
    stat := buf[0];
    if rc == 0 {
      assert buf[..1][0] == ctrl.bus.replies[0];
      assert Reply(old(ctrl.bus.chip), [CMD_RDSR], 0) == Some(Status(old(ctrl.bus.chip)));
    }
  }

  /** The last thing sent was the flag status read that some chips must see after a
      program or erase, or they lock. */
  ghost predicate FlagsRead(bus: Bus)
    reads bus
  {
    bus.windows != [] && bus.windows[|bus.windows| - 1] == [CMD_MIC_RDFLST]
  }

  /** fl_micron_status: the reply and the result are not looked at. */
  method MicronStatus(ctrl: Sfc)
    requires ctrl.bus.sturdy && ctrl.Resting()
    modifies ctrl.bus
    ensures ctrl.Resting() && ctrl.bus.chip == old(ctrl.bus.chip)
    ensures ctrl.bus.reliable ==> FlagsRead(ctrl.bus)
  {
    var flst := new byte[1];
    ghost var f;
    var rc;
    assert Frame(CMD_MIC_RDFLST, None, ctrl.mode4b, []) == [CMD_MIC_RDFLST];
    rc, f := ctrl.CmdRd(CMD_MIC_RDFLST, None, flst, 1);
    FrameStart(CMD_MIC_RDFLST, None, ctrl.mode4b, [], f);
  }

  /** fl_sync_wait_idle. Once the chip is idle it looks at finfo; noInfo tells whether it
      came to that with finfo still null. */
  method SyncWaitIdle(ctrl: Sfc) returns (rc: int, noInfo: bool)
    requires ctrl.bus.sturdy && ctrl.Resting()
    modifies ctrl.bus
    ensures ctrl.Resting() && rc <= 0 && rc != -EREMOTEIO && (ctrl.bus.reliable ==> rc == 0)
    ensures ctrl.bus.chip == old(ctrl.bus.chip).(busy := ctrl.bus.chip.busy)
    ensures ctrl.bus.chip.busy <= old(ctrl.bus.chip.busy)
    ensures rc == 0 ==> ctrl.bus.chip.busy == 0
    ensures noInfo <==> rc == 0 && ctrl.info == None
    ensures rc == 0 && ctrl.bus.reliable && ctrl.info.Some? && ctrl.info.value.micronBugs ==> FlagsRead(ctrl.bus)
  {
    noInfo := false;
    while true
      invariant ctrl.Resting()
      invariant ctrl.bus.chip == old(ctrl.bus.chip).(busy := ctrl.bus.chip.busy)
      invariant ctrl.bus.chip.busy <= old(ctrl.bus.chip.busy)
      decreases ctrl.bus.chip.busy
    {
      StatusBits(ctrl.bus.chip);
      var stat;
      rc, stat := ReadStat(ctrl);
      if rc != 0 {
        return;
      }
      if stat & STAT_WIP == 0 {
        if ctrl.info == None {
          noInfo := true;
        } else if ctrl.info.value.micronBugs {
          MicronStatus(ctrl);
        }
        return;
      }
    }
  }

  class FlashChip {
    const ctrl: Sfc
    const info: FlashInfo
    const tsize: nat
    const minEraseMask: nat
    const smartBuf: array<byte>

    /** Enough for the commands without an address. */
    ghost predicate Ready()
      reads this, ctrl, ctrl.bus
    {
      && ctrl.bus.sturdy && ctrl.Resting() && ctrl.info == Some(info)
      && Fits(ctrl.bus.chip)
    }

    /** Both sides also agree on an address width that covers the usable size. */
    ghost predicate Valid()
      reads this, ctrl, ctrl.bus
    {
      && Ready()
      && ctrl.mode4b == ctrl.bus.chip.wide
      && (tsize > LIMIT_3B ==> ctrl.mode4b)
    }

    /** What flash_init has established about the chip. */
    ghost predicate Fits(c: Nor) {
      && WellFormed(c)
      && Usable(info.sizes) && c.part.sizes == info.sizes
      && minEraseMask + 1 == Granule(info.sizes) && smartBuf.Length == minEraseMask + 1
      && 0 < tsize <= |c.mem| && tsize % 0x10000 == 0
    }

    constructor (ctrl: Sfc, info: FlashInfo, tsize: nat)
      requires ctrl.bus.sturdy && ctrl.Resting() && ctrl.info == Some(info)
      requires Usable(info.sizes) && ctrl.bus.chip.part.sizes == info.sizes
      requires 0 < tsize <= |ctrl.bus.chip.mem| && tsize % 0x10000 == 0
      ensures Ready() && this.ctrl == ctrl && this.info == info && this.tsize == tsize && fresh(smartBuf)
    {
      this.ctrl, this.info, this.tsize := ctrl, info, tsize;
      minEraseMask := Granule(info.sizes) - 1;
      smartBuf := new byte[Granule(info.sizes)];
    }

    /** fl_sync_wait_idle on an identified chip. */
    method Wait() returns (rc: int)
      requires Ready()
      modifies ctrl.bus
      ensures Ready() && (old(Valid()) ==> Valid())
      ensures rc <= 0 && rc != -EREMOTEIO && (ctrl.bus.reliable ==> rc == 0)
      ensures ctrl.bus.chip == old(ctrl.bus.chip).(busy := ctrl.bus.chip.busy)
      ensures ctrl.bus.chip.busy <= old(ctrl.bus.chip.busy)
      ensures rc == 0 ==> ctrl.bus.chip.busy == 0
      ensures rc == 0 && ctrl.bus.reliable && info.micronBugs ==> FlagsRead(ctrl.bus)
    {
      var noInfo;
      rc, noInfo := SyncWaitIdle(ctrl);
    }

    /** One WREN frame. */
    method SendWren() returns (rc: int)
      requires Ready()
      modifies ctrl.bus
      ensures Ready() && (old(Valid()) ==> Valid())
      ensures rc <= 0 && rc != -EREMOTEIO && (ctrl.bus.reliable ==> rc == 0)
      ensures Quiet(old(ctrl.bus.chip), ctrl.bus.chip) && ctrl.bus.chip.busy == old(ctrl.bus.chip.busy)
      ensures rc == 0 ==> Executes(old(ctrl.bus.chip), WriteEnable, ctrl.bus.chip)
    {
      ghost var f;
      rc, f := ctrl.CmdWr(CMD_WREN, None, []);
      ShortFrame(old(ctrl.bus.chip), CMD_WREN, f, ctrl.bus.chip);
    }

    /** One turn of fl_wren's loop. */
    method TryWren() returns (rc: int, armed: bool)
      requires Ready()
      modifies ctrl.bus
      ensures Ready() && (old(Valid()) ==> Valid())
      ensures rc <= 0 && rc != -EREMOTEIO && (ctrl.bus.reliable ==> rc == 0)
      ensures Quiet(old(ctrl.bus.chip), ctrl.bus.chip)
      ensures rc == 0 ==> (armed <==> Deafness(old(ctrl.bus.chip)) == 0)
      ensures rc == 0 ==> ctrl.bus.chip.busy == 0 && ctrl.bus.chip.wrens > old(ctrl.bus.chip.wrens)
      ensures rc == 0 && armed ==> ctrl.bus.chip.wel
      ensures rc == 0 && !armed ==> Deafness(ctrl.bus.chip) + 1 == Deafness(old(ctrl.bus.chip))
      ensures rc == 0 && !armed && old(ctrl.bus.chip).busy == 0 ==> !ctrl.bus.chip.wel
    {
      armed := false;
      rc := SendWren();
      if rc != 0 {
        return;
      }
      StatusBits(ctrl.bus.chip);
      hide Status;
      var stat;
      rc, stat := ReadStat(ctrl);
      if rc != 0 {
        return;
      }
      if stat & STAT_WIP != 0 {
        rc := Wait();
      } else {
        armed := stat & STAT_WEN != 0;
      }
    }

    /** fl_wren */
    method Wren() returns (rc: int)
      requires Ready()
      modifies ctrl.bus
      ensures Ready() && (old(Valid()) ==> Valid())
      ensures rc <= 0 && rc != -EREMOTEIO
      ensures Quiet(old(ctrl.bus.chip), ctrl.bus.chip)
      ensures rc == 0 ==> Armed(ctrl.bus.chip) && ctrl.bus.chip.wrens > old(ctrl.bus.chip.wrens)
      ensures ctrl.bus.reliable ==> (rc == 0 <==> Deafness(old(ctrl.bus.chip)) < 1000)
      ensures ctrl.bus.reliable && rc != 0 ==> rc == -ETIMEDOUT && ctrl.bus.chip.busy == 0 && !ctrl.bus.chip.wel
    {
      hide Deafness;
      var i := 0;
      while i < WREN_TRIES
        invariant Ready() && i <= WREN_TRIES
        invariant i > 0 ==> ctrl.bus.chip.busy == 0
        invariant i > 1 ==> !ctrl.bus.chip.wel
        invariant Quiet(old(ctrl.bus.chip), ctrl.bus.chip)
        invariant i + Deafness(ctrl.bus.chip) == Deafness(old(ctrl.bus.chip))
      {
        var armed;
        rc, armed := TryWren();
        if rc != 0 || armed {
          return;
        }
        i := i + 1;
      }
      return -ETIMEDOUT;
    }

    /** flash_set_4b. A failed write enable is ignored; enabled tells how it went. */
    method Set4bChip(enable: bool) returns (rc: int, enabled: bool)
      requires Ready() && ctrl.bus.chip.busy == 0
      modifies ctrl.bus
      ensures Ready() && rc <= 0 && ctrl.bus.chip.busy == 0
      ensures ctrl.bus.chip == old(ctrl.bus.chip).(wide := ctrl.bus.chip.wide, wel := ctrl.bus.chip.wel,
                                                   deaf := ctrl.bus.chip.deaf, wrens := ctrl.bus.chip.wrens)
      ensures rc == 0 && (enabled || !ctrl.bus.chip.part.strict4b) ==> ctrl.bus.chip.wide == enable
      ensures ctrl.bus.chip.wide == enable || ctrl.bus.chip.wide == old(ctrl.bus.chip).wide
      ensures ctrl.bus.reliable ==> rc == 0 && (enabled <==> Deafness(old(ctrl.bus.chip)) < WREN_TRIES)
      ensures ctrl.bus.reliable && !enabled && ctrl.bus.chip.part.strict4b ==>
                ctrl.bus.chip.wide == old(ctrl.bus.chip).wide
    {
      var wr := Wren();
      enabled := wr == 0;
      var op := if enable then CMD_EN4B else CMD_EX4B;
      ghost var f, b := [], ctrl.bus.chip;
      rc, f := ctrl.CmdWr(op, None, []);
      ShortFrame(b, op, f, ctrl.bus.chip);
    }

    /** Nothing can go wrong on the wire and the chip takes write enables in time. */
    ghost predicate Healthy()
      reads this, ctrl, ctrl.bus
    {
      && ctrl.bus.reliable && ctrl.bus.chip.part.maxDeaf < WREN_TRIES
      && Deafness(ctrl.bus.chip) < WREN_TRIES
    }

    lemma InReach(c: Nor, at: nat)
      requires Fits(c) && at < tsize && (tsize > LIMIT_3B ==> c.wide)
      ensures Addressable(c, at)
    {
    }

    /** The PP frame of fl_wpage, sent with WEL set. */
    method SendProgram(dst: nat, data: seq<byte>) returns (rc: int)
      requires Valid() && Armed(ctrl.bus.chip) && data != [] && dst < tsize
      modifies ctrl.bus
      ensures Valid() && rc <= 0 && rc != -EREMOTEIO && (ctrl.bus.reliable ==> rc == 0)
      ensures InPageOf(old(ctrl.bus.chip), ctrl.bus.chip, dst, |data|)
      ensures rc == 0 ==> Took(old(ctrl.bus.chip), ctrl.bus.chip, dst, data)
      ensures OnePage(dst, |data|) && dst + |data| <= tsize ==>
                && Confined(old(ctrl.bus.chip), ctrl.bus.chip, dst, dst + |data|)
                && (rc == 0 ==> Did(old(ctrl.bus.chip), ctrl.bus.chip, [Program(dst, data, true)], dst, dst + |data|))
    {
      hide Frame, Completes, Did, Confined, Addressable, OnePage, InPageOf, Took;
      ghost var b := ctrl.bus.chip;
      InReach(b, dst);
      ghost var f;
      rc, f := ctrl.CmdWr(CMD_PP, Some(dst), data);
      ProgramReached(b, dst, data, f, ctrl.bus.chip);
    }

    /** fl_wpage. Past the end of the page the chip wraps to its start; the one caller never
        goes there, and then exactly the range is touched. */
    method Wpage(dst: nat, data: seq<byte>) returns (rc: int)
      requires Valid() && dst < tsize
      modifies ctrl.bus
      ensures Valid() && rc <= 0 && rc != -EREMOTEIO
      ensures |data| == 0 || |data| > PAGE ==> rc == -EINVAL && ctrl.bus.chip == old(ctrl.bus.chip)
      ensures InPageOf(old(ctrl.bus.chip), ctrl.bus.chip, dst, |data|)
      ensures rc == 0 ==> ctrl.bus.chip.busy == 0 && Took(old(ctrl.bus.chip), ctrl.bus.chip, dst, data)
      ensures OnePage(dst, |data|) && dst + |data| <= tsize ==>
                && Confined(old(ctrl.bus.chip), ctrl.bus.chip, dst, dst + |data|)
                && (rc == 0 ==> Did(old(ctrl.bus.chip), ctrl.bus.chip, [Program(dst, data, true)], dst, dst + |data|))
      ensures rc == 0 && ctrl.bus.reliable && info.micronBugs ==> FlagsRead(ctrl.bus)
      ensures 0 < |data| <= PAGE && old(Healthy()) ==> rc == 0
    {
      hide Did, Confined, OnePage;
      ghost var b, hi := ctrl.bus.chip, dst + |data|;
      if |data| < 1 || |data| > PAGE {
        ConfinedSelf(b, dst, hi);
        return -EINVAL;
      }
      rc := Wren();
      ghost var b1 := ctrl.bus.chip;
      if rc != 0 {
        QuietConfined(b, b1, dst, hi);
        return;
      }
      rc := SendProgram(dst, data);
      ghost var b2 := ctrl.bus.chip;
      ghost var inside := OnePage(dst, |data|) && hi <= tsize;
      if rc != 0 {
        if inside {
          ConfinedAfterQuiet(b, b1, b2, dst, hi);
        }
        return;
      }
      rc := Wait();
      if inside {
        DidBetweenQuiets(b, b1, b2, ctrl.bus.chip, Program(dst, data, true), dst, hi);
        DidConfines(b, ctrl.bus.chip, [Program(dst, data, true)], dst, hi);
      }
    }

    // ---- erase ----

    method SendErase(dst: nat, size: nat) returns (rc: int)
      requires Valid() && Armed(ctrl.bus.chip)
      requires Supported(info.sizes, size) && dst < tsize
      modifies ctrl.bus
      ensures Valid() && rc <= 0 && rc != -EREMOTEIO && (ctrl.bus.reliable ==> rc == 0)
      ensures var base := Start(dst, size);
              && Confined(old(ctrl.bus.chip), ctrl.bus.chip, base, base + size)
              && (rc == 0 ==> Did(old(ctrl.bus.chip), ctrl.bus.chip, [Erase(base, size, true)], base, base + size))
    {
      hide Frame, Completes, Did, Confined, EraseOpcode, Addressable, Start, Offset;
      ghost var b := ctrl.bus.chip;
      InReach(b, dst);
      ghost var f;
      rc, f := ctrl.CmdWr(EraseOpcode(size), Some(dst), []);
      EraseReached(b, dst, size, f, ctrl.bus.chip);
    }

    /** The body of flash_erase's loop: enable, erase one block, wait. The chip erases the
        block that holds the address, from wherever that starts. */
    method EraseOne(dst: nat, size: nat) returns (rc: int)
      requires Valid() && Supported(info.sizes, size) && dst < tsize
      modifies ctrl.bus
      ensures Valid() && rc <= 0 && rc != -EREMOTEIO
      ensures var base := Start(dst, size);
              && Confined(old(ctrl.bus.chip), ctrl.bus.chip, base, base + size)
              && (rc == 0 ==>
                    && ctrl.bus.chip.busy == 0
                    && Did(old(ctrl.bus.chip), ctrl.bus.chip, [Erase(base, size, true)], base, base + size))
      ensures rc == 0 && ctrl.bus.reliable && info.micronBugs ==> FlagsRead(ctrl.bus)
      ensures old(Healthy()) ==> rc == 0
    {
      hide Start, Offset;
      ghost var b, base := ctrl.bus.chip, Start(dst, size);
      rc := Wren();
      ghost var b1 := ctrl.bus.chip;
      if rc != 0 {
        QuietConfined(b, b1, base, base + size);
        return;
      }
      rc := SendErase(dst, size);
      ghost var b2 := ctrl.bus.chip;
      if rc != 0 {
        ConfinedAfterQuiet(b, b1, b2, base, base + size);
        return;
      }
      rc := Wait();
      DidBetweenQuiets(b, b1, b2, ctrl.bus.chip, Erase(base, size, true), base, base + size);
    }

    predicate EraseArgsOk(dst: nat, size: nat)
      requires Usable(info.sizes)
    {
      0 < size && dst + size <= tsize && GranuleAligned(info.sizes, dst, size)
    }

    lemma EraseArgsAre(dst: nat, size: nat, c: Nor)
      requires Fits(c)
      ensures EraseArgsOk(dst, size)
         <==> 0 < size && dst + size <= tsize && dst % (minEraseMask + 1) == 0 && size % (minEraseMask + 1) == 0
    {
    }

    /** A range the erase loop can still be asked to finish. */
    predicate Erasable(dst: nat, size: nat)
      requires Usable(info.sizes)
    {
      dst + size <= tsize && GranuleAligned(info.sizes, dst, size) && Tileable(info.sizes, dst, size)
    }

    function Remaining(dst: nat, size: nat): seq<Op>
      requires Usable(info.sizes) && Erasable(dst, size)
    {
      EraseOps(Greedy(info.sizes, dst, size))
    }

    lemma NothingRemains(d: nat)
      requires Usable(info.sizes) && Erasable(d, 0)
      ensures Remaining(d, 0) == []
    {
    }

    /** One iteration: choose a block, erase it. The chip was b before the loop, which
        has run done so far and works inside [lo, hi). */
    method EraseNext(d: nat, left: nat, ghost b: Nor, ghost done: seq<Op>, ghost lo: nat, ghost hi: nat)
      returns (rc: int, chunk: nat)
      requires Valid() && Erasable(d, left) && left > 0 && lo <= d && d + left <= hi
      requires Did(b, ctrl.bus.chip, done, lo, hi)
      modifies ctrl.bus
      ensures Valid() && rc <= 0 && rc != -EREMOTEIO
      ensures 0 < chunk <= left && Erasable(d + chunk, left - chunk)
      ensures Remaining(d, left) == [Erase(d, chunk, true)] + Remaining(d + chunk, left - chunk)
      ensures Confined(b, ctrl.bus.chip, lo, hi)
      ensures rc == 0 ==>
                ctrl.bus.chip.busy == 0 && Did(b, ctrl.bus.chip, done + [Erase(d, chunk, true)], lo, hi)
      ensures old(Healthy()) ==> rc == 0 && Healthy()
    {
      hide Did, Confined, BestErase, Greedy, EraseOps, Tileable, GranuleAligned, Granule, Start, Offset;
      chunk := BestErase(info.sizes, d % TWO_32, left % TWO_32);
      EraseStep(info.sizes, d, left);
      BestStartsHere(info.sizes, d, left);
      ghost var was := ctrl.bus.chip;
      DidConfines(b, was, done, lo, hi);
      rc := EraseOne(d, chunk);
      StillHealthy(was, ctrl.bus.chip, d, d + chunk);
      ConfinedOneMore(b, was, ctrl.bus.chip, lo, hi, d, d + chunk);
      if rc == 0 {
        DidOneMore(b, was, ctrl.bus.chip, done, Erase(d, chunk, true), lo, hi, d, d + chunk);
      }
    }

    /** The loop of flash_erase. */
    method EraseLoop(dst: nat, size: nat) returns (rc: int)
      requires Valid() && Erasable(dst, size) && size > 0
      modifies ctrl.bus
      ensures Valid() && rc <= 0 && rc != -EREMOTEIO
      ensures Confined(old(ctrl.bus.chip), ctrl.bus.chip, dst, dst + size)
      ensures rc == 0 ==>
                && ctrl.bus.chip.busy == 0
                && Did(old(ctrl.bus.chip), ctrl.bus.chip, Remaining(dst, size), dst, dst + size)
      ensures old(Healthy()) ==> rc == 0 && Healthy()
    {
      hide Greedy, BestErase, Tileable, GranuleAligned, Confined, EraseOps, Healthy;
      ghost var b, healthy := ctrl.bus.chip, Healthy();
      DidNothing(b, dst, dst + size);
      var d: nat, left: nat := dst, size;
      ghost var done: seq<Op> := [];
      while left > 0
        invariant Valid() && d + left == dst + size && dst <= d && Erasable(d, left)
        invariant done + Remaining(d, left) == Remaining(dst, size)
        invariant Did(b, ctrl.bus.chip, done, dst, dst + size)
        invariant left < size ==> ctrl.bus.chip.busy == 0
        invariant healthy ==> Healthy()
      {
        var chunk: nat;
        rc, chunk := EraseNext(d, left, b, done, dst, dst + size);
        if rc != 0 {
          return;
        }
        done := done + [Erase(d, chunk, true)];
        left := left - chunk;
        d := d + chunk;
      }
      rc := 0;
      NothingRemains(d);
      assert done + [] == done;
    }

    /** The loop of flash_erase on a range that is not tileable, up to its first bad block:
        if nothing fails, a byte outside the range has been erased by then. */
    method EraseAstray(dst: nat, size: nat) returns (rc: int)
      requires Valid() && EraseArgsOk(dst, size) && !Tileable(info.sizes, dst, size)
      modifies ctrl.bus
      ensures Valid() && rc <= 0 && rc != -EREMOTEIO
      ensures Confined(old(ctrl.bus.chip), ctrl.bus.chip, 0, |old(ctrl.bus.chip).mem|)
      ensures rc == 0 ==> ctrl.bus.chip.busy == 0 && Strayed(old(ctrl.bus.chip), ctrl.bus.chip, dst, size)
      ensures old(Healthy()) ==> rc == 0
    {
      hide Tileable, BestErase, GranuleAligned, Trail, Confined, Did, Start, Offset, AstrayByte;
      TsizeIs64K(ctrl.bus.chip);
      ghost var b, healthy := ctrl.bus.chip, Healthy();
      ConfinedSelf(b, 0, |b.mem|);
      UntileableSizes(info.sizes, dst, size);
      var d: nat, left: nat := dst, size;
      while true
        invariant Valid() && d + left == dst + size && |ctrl.bus.chip.mem| == |b.mem|
        invariant Confined(b, ctrl.bus.chip, 0, |b.mem|)
        invariant GranuleAligned(NO_32K, d, left) && !Tileable(NO_32K, d, left) && Trail(dst, d)
        invariant ctrl.bus.chip.flaws <= b.flaws && |ctrl.bus.chip.ops| >= |b.ops|
        invariant healthy ==> Healthy()
        decreases left
      {
        var chunk := BestErase(info.sizes, d % TWO_32, left % TWO_32);
        AstrayBlock(dst, d, left);
        ghost var was, base := ctrl.bus.chip, Start(d, chunk);
        rc := EraseOne(d, chunk);
        ghost var now := ctrl.bus.chip;
        BlockInside(was, d, chunk);
        ConfinedOneMore(b, was, now, 0, |b.mem|, base, base + chunk);
        ConfinedLength(was, now, base, base + chunk);
        StillHealthy(was, now, base, base + chunk);
        if rc != 0 {
          return;
        }
        BlockErased(was, now, base, chunk);
        if !GoodBlock(d, left, chunk) {
          AstrayReaches(dst, d, left, |now.mem|);
          assert StrayedAt(b, now, dst, size, AstrayByte(d, left));
          return;
        }
        d, left := d + chunk, left - chunk;
      }
    }

    /** flash_erase. Where the range is not tileable the loop leaves it, or never ends
        (EraseTiling.ExactIffTileable); it is followed up to its first bad block there, and
        astray says that it came to that. */
    method FlashErase(dst: nat, size: nat) returns (rc: int, astray: bool)
      requires Valid() && dst < TWO_64 && size < TWO_64
      modifies ctrl.bus
      ensures Valid() && rc <= 0 && rc != -EREMOTEIO
      ensures !EraseArgsOk(dst, size) ==> rc == -EINVAL && ctrl.bus.chip == old(ctrl.bus.chip)
      ensures Confined(old(ctrl.bus.chip), ctrl.bus.chip, 0, |old(ctrl.bus.chip).mem|)
      ensures EraseArgsOk(dst, size) ==> Tileable(info.sizes, dst, size) ==>
                Confined(old(ctrl.bus.chip), ctrl.bus.chip, dst, dst + size)
      ensures astray <==> rc == 0 && !Tileable(info.sizes, dst, size)
      ensures rc == 0 ==> ctrl.bus.chip.busy == 0
      ensures astray ==> Strayed(old(ctrl.bus.chip), ctrl.bus.chip, dst, size)
      ensures rc == 0 && !astray ==>
                Did(old(ctrl.bus.chip), ctrl.bus.chip, EraseOps(Greedy(info.sizes, dst, size)), dst, dst + size)
      ensures rc == 0 && !astray && ctrl.bus.chip.flaws == old(ctrl.bus.chip.flaws) ==>
                ctrl.bus.chip.mem == Blanked(old(ctrl.bus.chip.mem), dst, size)
      ensures EraseArgsOk(dst, size) && old(Healthy()) ==> rc == 0 && (!astray ==> Healthy())
      // A chip in good order is blanked on any tileable range of whole granules inside it.
      ensures 0 < size && dst + size <= tsize && dst % (minEraseMask + 1) == 0 && size % (minEraseMask + 1) == 0 ==>
                Tileable(info.sizes, dst, size) && old(Healthy()) ==>
                  rc == 0 && (ctrl.bus.chip.flaws == old(ctrl.bus.chip.flaws) ==>
                                ctrl.bus.chip.mem == Blanked(old(ctrl.bus.chip.mem), dst, size))
    {
      EraseArgsAre(dst, size, ctrl.bus.chip);
      hide Confined, Tileable, GranuleAligned, Greedy, Healthy, EraseOps, Blanked, Run, Strayed;
      ghost var b := ctrl.bus.chip;
      EraseRefusedIff(info.sizes, tsize, minEraseMask, dst, size);
      if EraseRefused(tsize, minEraseMask, dst, size) {
        ConfinedSelf(b, 0, |b.mem|);
        return -EINVAL, false;
      }
      if Tileable(info.sizes, dst, size) {
        rc := EraseLoop(dst, size);
        astray := false;
        ConfinedWidens(b, ctrl.bus.chip, dst, dst + size, 0, |b.mem|);
        GreedyErases(info.sizes, b.mem, dst, size);
      } else {
        rc := EraseAstray(dst, size);
        astray := rc == 0;
      }
    }

    lemma TsizeIs64K(c: Nor)
      requires Fits(c)
      ensures Offset(|c.mem|, 0x10000) == 0
    {
    }

    lemma BlockInside(c: Nor, d: nat, size: nat)
      requires Fits(c) && Supported(info.sizes, size) && d < |c.mem|
      ensures Start(d, size) + size <= |c.mem|
    {
      SharedMultiple(|c.mem|, 0x10000, size);
      GranuleInside(d, |c.mem|, size);
    }

    lemma UntileableSizes(s: EraseSet, dst: nat, size: nat)
      requires Usable(s) && GranuleAligned(s, dst, size) && !Tileable(s, dst, size)
      ensures s == NO_32K && Trail(dst, dst)
    {
    }

    /** The opcode flash_erase_chip picks is one this chip knows. */
    predicate ChipEraseKnown(c: Nor) {
      if info.chipErase then c.part.chipErase else c.part.bulkErase
    }

    /** flash_erase_chip */
    method EraseChip() returns (rc: int)
      requires Ready()
      modifies ctrl.bus
      ensures Ready() && (old(Valid()) ==> Valid()) && rc <= 0
      ensures !info.chipErase && !info.bulkOr4b ==> rc == -EOPNOTSUPP && ctrl.bus.chip == old(ctrl.bus.chip)
      ensures Confined(old(ctrl.bus.chip), ctrl.bus.chip, 0, |old(ctrl.bus.chip).mem|)
      ensures rc == 0 ==>
                && ctrl.bus.chip.busy == 0
                && (ChipEraseKnown(old(ctrl.bus.chip)) ==>
                      Did(old(ctrl.bus.chip), ctrl.bus.chip, [Erase(0, |old(ctrl.bus.chip).mem|, true)],
                          0, |old(ctrl.bus.chip).mem|))
      // Opcode 0x60 where the row has FL_ERASE_CHIP, otherwise 0xc7.
      ensures rc == 0 && (if info.chipErase then old(ctrl.bus.chip).part.chipErase
                          else old(ctrl.bus.chip).part.bulkErase) ==>
                && ctrl.bus.chip.ops == old(ctrl.bus.chip).ops + [Erase(0, |old(ctrl.bus.chip).mem|, true)]
                && (ctrl.bus.chip.flaws == old(ctrl.bus.chip).flaws ==>
                      forall i :: 0 <= i < |ctrl.bus.chip.mem| ==> ctrl.bus.chip.mem[i] == 0xff)
      ensures (info.chipErase || info.bulkOr4b) && old(Healthy()) ==> rc == 0
    {
      hide Confined, Did, Completes, Decode, Executes, Erases;
      ghost var b := ctrl.bus.chip;
      ghost var size := |b.mem|;
      ConfinedSelf(b, 0, size);
      if !info.chipErase && !info.bulkOr4b {
        return -EOPNOTSUPP;
      }
      rc := Wren();
      ghost var b1 := ctrl.bus.chip;
      QuietConfined(b, b1, 0, size);
      if rc != 0 {
        return;
      }
      var op := if info.chipErase then CMD_CE else CMD_MIC_BULK_ERASE;
      ghost var f;
      rc, f := ctrl.CmdWr(op, None, []);
      ghost var b2 := ctrl.bus.chip;
      ShortFrame(b1, op, f, b2);
      ChipEraseFrame(b1, op, f, b2);
      ConfinedAfterQuiet(b, b1, b2, 0, size);
      if rc != 0 {
        return;
      }
      rc := Wait();
      QuietConfined(b2, ctrl.bus.chip, 0, size);
      ConfinedTrans(b, b2, ctrl.bus.chip, 0, size);
      if ChipEraseKnown(b) {
        DidBetweenQuiets(b, b1, b2, ctrl.bus.chip, Erase(0, size, true), 0, size);
        WholeErased(b, ctrl.bus.chip);
      }
    }

    // ---- write ----

    /** One iteration of flash_write's first loop: program up to the end of the page. */
    method WriteNext(d: nat, s: seq<byte>, ghost b: Nor, ghost done: seq<Op>, ghost lo: nat, ghost hi: nat)
      returns (rc: int, chunk: nat)
      requires Valid() && s != [] && d + |s| <= tsize && lo <= d && d + |s| <= hi
      requires Did(b, ctrl.bus.chip, done, lo, hi)
      modifies ctrl.bus
      ensures Valid() && rc <= 0 && rc != -EREMOTEIO && 0 < chunk <= |s|
      ensures Pages(d, s) == [Program(d, s[..chunk], true)] + Pages(d + chunk, s[chunk..])
      ensures Confined(b, ctrl.bus.chip, lo, hi)
      ensures rc == 0 ==>
                && ctrl.bus.chip.busy == 0
                && Did(b, ctrl.bus.chip, done + [Program(d, s[..chunk], true)], lo, hi)
      ensures old(Healthy()) ==> rc == 0 && Healthy()
    {
      hide Pages, Did, Confined, Chunk, OnePage, Room;
      chunk := Room(d);
      if chunk > |s| {
        chunk := |s|;
      }
      FirstPage(d, s);
      ghost var was := ctrl.bus.chip;
      DidConfines(b, was, done, lo, hi);
      rc := Wpage(d, s[..chunk]);
      StillHealthy(was, ctrl.bus.chip, d, d + chunk);
      ConfinedOneMore(b, was, ctrl.bus.chip, lo, hi, d, d + chunk);
      if rc == 0 {
        DidOneMore(b, was, ctrl.bus.chip, done, Program(d, s[..chunk], true), lo, hi, d, d + chunk);
      }
    }

    /** The programming loop of flash_write. */
    method WriteLoop(dst: nat, src: seq<byte>) returns (rc: int)
      requires Valid() && src != [] && dst + |src| <= tsize
      modifies ctrl.bus
      ensures Valid() && rc <= 0 && rc != -EREMOTEIO
      ensures Confined(old(ctrl.bus.chip), ctrl.bus.chip, dst, dst + |src|)
      ensures rc == 0 ==>
                && ctrl.bus.chip.busy == 0
                && Did(old(ctrl.bus.chip), ctrl.bus.chip, Pages(dst, src), dst, dst + |src|)
      ensures old(Healthy()) ==> rc == 0
    {
      hide Pages;
      ghost var b, healthy := ctrl.bus.chip, Healthy();
      DidNothing(b, dst, dst + |src|);
      var k: nat := 0;
      ghost var done: seq<Op> := [];
      assert src[0..] == src;
      while k < |src|
        invariant Valid() && k <= |src|
        invariant done + Pages(dst + k, src[k..]) == Pages(dst, src)
        invariant Did(b, ctrl.bus.chip, done, dst, dst + |src|)
        invariant k > 0 ==> ctrl.bus.chip.busy == 0
        invariant healthy ==> Healthy()
      {
        var chunk: nat;
        rc, chunk := WriteNext(dst + k, src[k..], b, done, dst, dst + |src|);
        if rc != 0 {
          return;
        }
        done := done + [Program(dst + k, src[k..][..chunk], true)];
        assert src[k..][chunk..] == src[k + chunk..];
        k := k + chunk;
      }
      rc := 0;
      assert src[k..] == [];
      NoPages(dst + k);
      assert done + [] == done;
    }

    /** flash_read: sfc installs direct_read and set_4b, so the manual read is unreachable. */
    method FlashRead(pos: nat, buf: array<byte>, len: nat) returns (rc: int)
      requires Valid() && len <= buf.Length
      modifies buf
      ensures Valid() && rc <= 0 && rc != -EREMOTEIO && (ctrl.bus.reliable ==> rc == 0)
      ensures Healthy() ==> rc == 0
      ensures rc == 0 && pos + len <= tsize ==>
                buf[..len] == Seen(ctrl.bus.chip.mem, ctrl.bus.chip.busy > 0, ctrl.bus.noise)[pos..pos + len]
    {
      rc := ctrl.DirectRead(pos, buf, len);
    }

    /** The verify loop of flash_write. */
    method Verify(dst: nat, src: seq<byte>) returns (rc: int)
      requires Valid() && dst + |src| <= tsize && ctrl.bus.chip.busy == 0
      ensures Valid() && rc <= 0
      ensures rc == 0 ==> ctrl.bus.chip.mem[dst..dst + |src|] == src
      ensures rc == -EREMOTEIO ==> ctrl.bus.chip.mem[dst..dst + |src|] != src
      ensures ctrl.bus.reliable ==> rc == 0 || rc == -EREMOTEIO
    {
      var vbuf := new byte[0x100];
      ghost var mem := ctrl.bus.chip.mem;
      var k: nat := 0;
      while k < |src|
        invariant k <= |src| && Valid()
        invariant forall j :: 0 <= j < k ==> mem[dst + j] == src[j]
      {
        var chunk := if 0x100 > |src| - k then |src| - k else 0x100;
        rc := FlashRead(dst + k, vbuf, chunk);
        if rc != 0 {
          return;
        }
        PieceOf(mem, dst, src, k, chunk);
        if vbuf[..chunk] != src[k..k + chunk] {
          return -EREMOTEIO;
        }
        k := k + chunk;
      }
      return 0;
    }

    /** flash_write */
    method FlashWrite(dst: nat, src: seq<byte>, verify: bool) returns (rc: int)
      requires Valid() && dst < TWO_32 && |src| < TWO_32
      modifies ctrl.bus
      ensures Valid() && rc <= 0
      ensures Confined(old(ctrl.bus.chip), ctrl.bus.chip, dst, dst + |src|)
      ensures src == [] || dst + |src| > tsize ==> rc == -EINVAL && ctrl.bus.chip == old(ctrl.bus.chip)
      ensures rc == 0 || rc == -EREMOTEIO ==>
                && ctrl.bus.chip.busy == 0 && dst + |src| <= tsize
                && Did(old(ctrl.bus.chip), ctrl.bus.chip, Pages(dst, src), dst, dst + |src|)
                && (ctrl.bus.chip.flaws == old(ctrl.bus.chip.flaws) ==>
                      ctrl.bus.chip.mem == AndOver(old(ctrl.bus.chip.mem), dst, src))
      ensures rc == 0 && verify ==> ctrl.bus.chip.mem[dst..dst + |src|] == src
      ensures rc == -EREMOTEIO ==> verify && ctrl.bus.chip.mem[dst..dst + |src|] != src
      ensures src != [] && dst + |src| <= tsize && old(Healthy()) ==> (rc == 0 || rc == -EREMOTEIO) && Healthy()
      ensures verify && dst + |src| <= tsize && src != [] && old(Healthy()) ==>
                ctrl.bus.chip.flaws == old(ctrl.bus.chip.flaws) ==>
                (rc == 0 <==> forall i :: 0 <= i < |src| ==> !NeedsErase(src[i], old(ctrl.bus.chip.mem)[dst + i]))
    {
      WriteWrapCheck(tsize, dst, |src|);
      if (dst + |src|) % TWO_32 <= dst || |src| == 0 || (dst + |src|) % TWO_32 > tsize {
        DidNothing(ctrl.bus.chip, dst, dst + |src|);
        return -EINVAL;
      }
      rc := WriteLoop(dst, src);
      if rc != 0 {
        return;
      }
      PagesProgram(old(ctrl.bus.chip.mem), dst, src);
      AndStoresIff(old(ctrl.bus.chip.mem), dst, src);
      if verify {
        rc := Verify(dst, src);
      }
    }

    // ---- smart write ----

    /** flash_smart_comp */
    method SmartComp(src: seq<byte>, offset: nat) returns (r: CompResult)
      requires offset + |src| <= smartBuf.Length
      ensures r == Compare(src, smartBuf[offset..offset + |src|])
    {
      ghost var have := smartBuf[offset..offset + |src|];
      var isSame := true;
      var i := 0;
      while i < |src|
        invariant i <= |src|
        invariant forall j :: 0 <= j < i ==> !NeedsErase(src[j], have[j])
        invariant isSame <==> src[..i] == have[..i]
      {
        var b := smartBuf[offset + i];
        assert b == have[i];
        if src[i] & !b != 0 {
          assert NeedsErase(src[i], have[i]);
          return NeedErase;
        }
        assert src[..i + 1] == src[..i] + [src[i]] && have[..i + 1] == have[..i] + [have[i]];
        if isSame && b != src[i] {
          isSame := false;
        }
        i := i + 1;
      }
      assert src[..i] == src && have[..i] == have;
      return if isSame then NoChange else NeedWrite;
    }

    function Gran(): (g: nat)
      requires Usable(info.sizes)
      ensures BlockSize(g)
    {
      Granule(info.sizes)
    }

    lemma GranuleErasable(page: nat)
      requires Usable(info.sizes) && Offset(page, Gran()) == 0 && page + Gran() <= tsize
      ensures EraseArgsOk(page, Gran()) && Tileable(info.sizes, page, Gran())
      ensures GranuleAligned(info.sizes, page, Gran())
      ensures EraseOps(Greedy(info.sizes, page, Gran())) == [Erase(page, Gran(), true)]
    {
      OneGranule(info.sizes, page);
    }

    /** The sm_need_erase case: erase the granule, merge the new bytes into the copy that
        was read before, write it all back, whether or not the copy was a good one. */
    method EraseAndRewrite(page: nat, off: nat, want: seq<byte>) returns (rc: int)
      requires Valid()
      requires Offset(page, Gran()) == 0 && page + Gran() <= tsize && off + |want| <= Gran()
      modifies ctrl.bus, smartBuf
      ensures Valid() && rc <= 0
      ensures Confined(old(ctrl.bus.chip), ctrl.bus.chip, page, page + Gran())
      ensures rc == 0 ==>
                var merged := Overlay(old(smartBuf[..]), off, want);
                && ctrl.bus.chip.busy == 0
                && ctrl.bus.chip.mem == Overlay(old(ctrl.bus.chip).mem, page, merged)
                && ctrl.bus.chip.ops == old(ctrl.bus.chip).ops + ([Erase(page, Gran(), true)] + Pages(page, merged))
      ensures old(Healthy()) && ctrl.bus.chip.flaws == old(ctrl.bus.chip.flaws) ==> rc == 0 && Healthy()
    {
      hide Pages, Greedy, Tileable, GranuleAligned, BestErase, Confined, Did, AndOver, Blanked, Overlay,
        Healthy, NeedsErase, Granule, Offset, EraseArgsOk;
      ghost var b, have, healthy := ctrl.bus.chip, smartBuf[..], Healthy();
      var g := minEraseMask + 1;
      GranuleErasable(page);
      var astray;
      rc, astray := FlashErase(page, g);
      ghost var b1 := ctrl.bus.chip;
      if rc != 0 {
        return;
      }
      forall i | off <= i < off + |want| {
        smartBuf[i] := want[i - off];
      }
      ghost var merged := Overlay(have, off, want);
      OverlayInPlace(have, off, want, smartBuf[..]);
      rc := FlashWrite(page, smartBuf[..], true);
      ghost var b2 := ctrl.bus.chip;
      ConfinedTrans(b, b1, b2, page, page + g);
      if rc == 0 {
        Rewritten(b, b1, b2, page, merged);
      }
      if healthy {
        BlankTakesAnything(b.mem, page, merged);
        ConfinedLength(b, b1, page, page + g);
        ConfinedLength(b1, b2, page, page + g);
      }
    }

    /** The sm_need_write case: write over what is there. */
    method WriteOver(page: nat, off: nat, want: seq<byte>) returns (rc: int)
      requires Valid() && want != []
      requires page + Gran() <= tsize && off + |want| <= Gran()
      modifies ctrl.bus
      ensures Valid() && rc <= 0
      ensures Confined(old(ctrl.bus.chip), ctrl.bus.chip, page, page + Gran())
      ensures rc == 0 ==>
                && ctrl.bus.chip.busy == 0
                && ctrl.bus.chip.mem == Overlay(old(ctrl.bus.chip).mem, page + off, want)
                && ctrl.bus.chip.ops == old(ctrl.bus.chip).ops + Pages(page + off, want)
      ensures old(Healthy()) && ctrl.bus.chip.flaws == old(ctrl.bus.chip.flaws) ==>
                && (rc == 0 <==> forall i :: 0 <= i < |want| ==>
                                   !NeedsErase(want[i], old(ctrl.bus.chip).mem[page + off + i]))
                && (rc == 0 ==> Healthy())
    {
      hide Pages, AndOver, Overlay, Healthy, Did, Confined, NeedsErase, Granule;
      ghost var b := ctrl.bus.chip;
      var dst := page + off;
      rc := FlashWrite(dst, want, true);
      ConfinedWidens(b, ctrl.bus.chip, dst, dst + |want|, page, page + Gran());
      if rc == 0 {
        WroteOver(b, ctrl.bus.chip, dst, want);
      }
    }

    /** The switch in flash_smart_write's loop, for the copy of the granule that was read. */
    method SmartAct(sr: CompResult, page: nat, off: nat, want: seq<byte>) returns (rc: int)
      requires Valid() && want != []
      requires Offset(page, Gran()) == 0 && page + Gran() <= tsize && off + |want| <= Gran()
      requires sr == Compare(want, smartBuf[off..off + |want|])
      modifies ctrl.bus, smartBuf
      ensures Valid() && rc <= 0
      ensures Confined(old(ctrl.bus.chip), ctrl.bus.chip, page, page + Gran())
      ensures sr == NoChange ==> rc == 0 && ctrl.bus.chip == old(ctrl.bus.chip)
      ensures rc == 0 ==>
                && (sr != NoChange ==> ctrl.bus.chip.busy == 0)
                && ctrl.bus.chip.mem == RoundImage(old(ctrl.bus.chip).mem, page, old(smartBuf[..]), off, want)
                && ctrl.bus.chip.ops == old(ctrl.bus.chip).ops + Round(page, old(smartBuf[..]), off, want)
      ensures old(Healthy()) && ctrl.bus.chip.flaws == old(ctrl.bus.chip.flaws) ==>
                && (rc == 0 <==> RoundTakes(old(ctrl.bus.chip).mem, page, old(smartBuf[..]), off, want))
                && (rc == 0 ==> Healthy())
    {
      hide Pages, Confined, Overlay, Healthy, Compare, NeedsErase, Granule;
      ghost var b := ctrl.bus.chip;
      assert smartBuf[..][off..off + |want|] == smartBuf[off..off + |want|];
      match sr
      case NoChange =>
        ConfinedSelf(b, page, page + Gran());
        assert b.ops + [] == b.ops;
        rc := 0;
      case NeedWrite =>
        rc := WriteOver(page, off, want);
      case NeedErase =>
        rc := EraseAndRewrite(page, off, want);
    }

    /** One round of flash_smart_write's loop, for the share want at position at. */
    method SmartRound(at: nat, want: seq<byte>) returns (rc: int)
      requires Valid() && want != [] && InGranule(ctrl.bus.chip.mem, ctrl.bus.noise, at, want, Gran())
      requires Start(at, Gran()) + Gran() <= tsize
      modifies ctrl.bus, smartBuf
      ensures Valid() && rc <= 0 && |ctrl.bus.chip.mem| == |old(ctrl.bus.chip).mem|
      ensures Confined(old(ctrl.bus.chip), ctrl.bus.chip, Start(at, Gran()), Start(at, Gran()) + Gran())
      ensures rc == 0 ==> RoundDone(old(ctrl.bus.chip), ctrl.bus.chip, ctrl.bus.noise, at, want, Gran())
      ensures ctrl.bus.reliable && LooksStored(old(ctrl.bus.chip), ctrl.bus.noise, at, want) ==> rc == 0
      ensures old(Healthy()) && ctrl.bus.chip.flaws == old(ctrl.bus.chip.flaws) ==>
                && (rc == 0 <==> NextTakes(old(ctrl.bus.chip).mem, old(ctrl.bus.chip).busy > 0, ctrl.bus.noise, at,
                                           want, Gran()))
                && (rc == 0 ==> Healthy())
    {
      hide Confined, Healthy, Compare, Granule, RoundImage, Round, RoundTakes, Offset, Start, RoundDone, NextTakes,
        LooksStored, Seen;
      ghost var b := ctrl.bus.chip;
      var g := minEraseMask + 1;
      var page, off := Start(at, g), Offset(at, g);
      rc := FlashRead(page, smartBuf, g);
      if rc != 0 {
        ConfinedSelf(b, page, page + g);
        return;
      }
      assert smartBuf[..g] == smartBuf[..];
      ghost var have := smartBuf[..];
      assert have[off..off + |want|] == smartBuf[off..off + |want|];
      var sr := SmartComp(want, off);
      rc := SmartAct(sr, page, off, want);
      ConfinedLength(b, ctrl.bus.chip, page, page + g);
      RoundSettled(b, ctrl.bus.chip, ctrl.bus.noise, at, want, g, have);
    }

    /** How many bytes flash_smart_write really handles. Its end is a uint32_t: if
        dst + size does not fit, the truncated end decides when to stop, but the share
        of the last granule is still cut off the untruncated size. */
    function Span(dst: nat, size: nat): (n: nat)
      requires Usable(info.sizes)
      ensures dst + size < TWO_32 ==> n == size
    {
      var end := (dst + size) % TWO_32;
      if dst + size < TWO_32 then size else if end <= dst then 0 else RoundUp(end, Gran()) - dst
    }

    predicate SmartRefused(dst: nat, size: nat) {
      (dst + size) % TWO_32 <= dst || size == 0 || (dst + size) % TWO_32 > tsize
    }

    /** What the check accepts: without wrap-around exactly the non-empty ranges inside the
        chip, otherwise those whose end, taken modulo 32 bits, is past dst and in the chip. */
    lemma SmartRefusedIff(dst: nat, size: nat, end: nat)
      requires end < TWO_32 && Wraps(dst + size, end)
      ensures dst + size < TWO_32 ==> (!SmartRefused(dst, size) <==> 0 < size && dst + size <= tsize)
      ensures dst + size >= TWO_32 ==> (!SmartRefused(dst, size) <==> 0 < size && dst < end <= tsize)
    {
      SameResidue(dst + size, end);
    }

    lemma SpanFits(dst: nat, size: nat, c: Nor)
      requires Fits(c) && !SmartRefused(dst, size) && size < TWO_64
      ensures 0 < Span(dst, size) <= size && dst + Span(dst, size) <= tsize
      ensures Offset(tsize, Gran()) == 0 && Offset(|c.mem|, Gran()) == 0
      ensures dst + size >= TWO_32 ==> Span(dst, size) + Gran() <= size
    {
      TsizeMultiple(info.sizes, tsize);
      TsizeMultiple(info.sizes, |c.mem|);
      var end := (dst + size) % TWO_32;
      BoundaryPast(tsize, end, Gran());
      if dst + size >= TWO_32 {
        LongSize(dst, size);
      }
    }

    /** All the data is handled exactly if the end fits in 32 bits. */
    lemma SpanIsAll(dst: nat, size: nat, c: Nor)
      requires Fits(c) && !SmartRefused(dst, size) && size < TWO_64
      ensures Span(dst, size) == size <==> dst + size < TWO_32
    {
      SpanFits(dst, size, c);
    }

    lemma LongSize(dst: nat, size: nat)
      requires dst + size >= TWO_32 && dst < (dst + size) % TWO_32
      ensures size >= TWO_32 + ((dst + size) % TWO_32 - dst)
    {
      assert dst + size == TWO_32 * ((dst + size) / TWO_32) + (dst + size) % TWO_32;
    }

    /** Where the loop ends: the truncated end is passed exactly with the last share. */
    lemma LoopEnds(dst: nat, size: nat, k: nat, c: Nor)
      requires Fits(c) && !SmartRefused(dst, size) && size < TWO_64
      requires k <= Span(dst, size) <= size && (k > 0 && k < Span(dst, size) ==> Offset(dst + k, Gran()) == 0)
      ensures dst + k < (dst + size) % TWO_32 <==> k < Span(dst, size)
    {
      var end, n, g := (dst + size) % TWO_32, Span(dst, size), Gran();
      if dst + size >= TWO_32 && 0 < k < n && end <= dst + k {
        BoundaryPast(dst + k, end, g);
      }
    }

    /** The share the loop cuts off for the granule at dst + k. */
    lemma ShareOfRound(dst: nat, size: nat, k: nat, c: Nor)
      requires Fits(c) && !SmartRefused(dst, size) && size < TWO_64
      requires k < Span(dst, size) <= size && dst + k < (dst + size) % TWO_32
      ensures Start(dst + k, Gran()) + Gran() <= tsize
      ensures Share(dst + k, Span(dst, size) - k, Gran())
           == if size - k < Gran() - Offset(dst + k, Gran()) then size - k else Gran() - Offset(dst + k, Gran())
    {
      hide Offset, Start, RoundUp, Granule;
      SpanFits(dst, size, c);
      GranuleInside(dst + k, tsize, Gran());
      if dst + size >= TWO_32 {
        GranuleEnd(dst + k, (dst + size) % TWO_32, Gran());
      }
    }

    /** The granules that [dst, dst + n) overlaps. */
    function SpanLo(dst: nat): nat
      requires Usable(info.sizes)
    {
      Start(dst, Gran())
    }

    function SpanHi(dst: nat, n: nat): nat
      requires Usable(info.sizes)
    {
      RoundUp(dst + n, Gran())
    }

    lemma RoundInside(dst: nat, n: nat, k: nat)
      requires Usable(info.sizes) && k < n && (k == 0 || Offset(dst + k, Gran()) == 0)
      ensures SpanLo(dst) <= Start(dst + k, Gran()) && Start(dst + k, Gran()) + Gran() <= SpanHi(dst, n)
    {
      hide Start, Offset, RoundUp;
      StartOfAligned(dst + k, Gran());
      GranuleEnd(dst + k, dst + n, Gran());
    }

    /** One iteration of flash_smart_write's loop: the round for the share want of all the
        data that will be written from dst on. The chip was b before the loop. */
    method SmartNext(dst: nat, k: nat, want: seq<byte>, ghost b: Nor, ghost data: seq<byte>) returns (rc: int)
      requires Valid() && NextShare(b.mem, ctrl.bus.noise, dst, data, k, want, Gran())
      requires |ctrl.bus.chip.mem| == |b.mem| && Start(dst + k, Gran()) + Gran() <= tsize
      requires k == 0 || Offset(dst + k, Gran()) == 0
      requires Ahead(b, ctrl.bus.chip, ctrl.bus.noise, dst, data, k, Gran())
      requires Confined(b, ctrl.bus.chip, SpanLo(dst), SpanHi(dst, |data|))
      modifies ctrl.bus, smartBuf
      ensures Valid() && rc <= 0 && |ctrl.bus.chip.mem| == |b.mem|
      ensures Confined(b, ctrl.bus.chip, SpanLo(dst), SpanHi(dst, |data|))
      ensures rc == 0 ==> Ahead(b, ctrl.bus.chip, ctrl.bus.noise, dst, data, k + |want|, Gran())
      ensures ctrl.bus.reliable && LooksStored(b, ctrl.bus.noise, dst, data) ==> rc == 0
      ensures ctrl.bus.chip.flaws <= old(ctrl.bus.chip.flaws)
      ensures old(Healthy()) && ctrl.bus.chip.flaws == old(ctrl.bus.chip.flaws) ==>
                if rc == 0 then
                  Healthy() && (TakesFrom(old(ctrl.bus.chip), ctrl.bus.noise, dst, data, k, Gran())
                                <==> TakesFrom(ctrl.bus.chip, ctrl.bus.noise, dst, data, k + |want|, Gran()))
                else
                  !TakesFrom(old(ctrl.bus.chip), ctrl.bus.noise, dst, data, k, Gran())
    {
      hide Plan, Offset, Start, Healthy, Confined, Share, Granule, Ahead, RoundDone, NextTakes, TakesFrom, LooksStored;
      ghost var was := ctrl.bus.chip;
      NextLooksStored(b, was, ctrl.bus.noise, dst, data, k, |want|, Gran());
      TakesNext(was, ctrl.bus.noise, dst, data, k, want, Gran());
      rc := SmartRound(dst + k, want);
      ghost var now := ctrl.bus.chip;
      RoundInside(dst, |data|, k);
      ConfinedLength(was, now, Start(dst + k, Gran()), Start(dst + k, Gran()) + Gran());
      ConfinedOneMore(b, was, now, SpanLo(dst), SpanHi(dst, |data|), Start(dst + k, Gran()),
                      Start(dst + k, Gran()) + Gran());
      if rc == 0 {
        AheadStep(b, was, now, ctrl.bus.noise, dst, data, k, want, Gran());
        TakesAhead(was, now, ctrl.bus.noise, dst, data, k, want, Gran());
      }
    }

    /** The share for the granule at dst + k, and the round for it. */
    method SmartIteration(dst: nat, src: seq<byte>, k: nat, ghost b: Nor, ghost data: seq<byte>)
      returns (rc: int, chunk: nat)
      requires Valid() && !SmartRefused(dst, |src|) && |src| < TWO_64 && Fits(b)
      requires |data| == Span(dst, |src|) <= |src| && data == src[..|data|] && dst + |data| <= tsize
      requires k < |data| && dst + k < (dst + |src|) % TWO_32 && (k == 0 || Offset(dst + k, Gran()) == 0)
      requires Inside(b.mem, ctrl.bus.noise, dst, data, Gran()) && |ctrl.bus.chip.mem| == |b.mem|
      requires Ahead(b, ctrl.bus.chip, ctrl.bus.noise, dst, data, k, Gran())
      requires Confined(b, ctrl.bus.chip, SpanLo(dst), SpanHi(dst, |data|))
      modifies ctrl.bus, smartBuf
      ensures Valid() && rc <= 0 && |ctrl.bus.chip.mem| == |b.mem|
      ensures 0 < chunk && k + chunk <= |data| && (k + chunk == |data| || Offset(dst + k + chunk, Gran()) == 0)
      ensures Confined(b, ctrl.bus.chip, SpanLo(dst), SpanHi(dst, |data|))
      ensures rc == 0 ==> Ahead(b, ctrl.bus.chip, ctrl.bus.noise, dst, data, k + chunk, Gran())
      ensures ctrl.bus.reliable && LooksStored(b, ctrl.bus.noise, dst, data) ==> rc == 0
      ensures ctrl.bus.chip.flaws <= old(ctrl.bus.chip.flaws)
      ensures old(Healthy()) && ctrl.bus.chip.flaws == old(ctrl.bus.chip.flaws) ==>
                if rc == 0 then
                  Healthy() && (TakesFrom(old(ctrl.bus.chip), ctrl.bus.noise, dst, data, k, Gran())
                                <==> TakesFrom(ctrl.bus.chip, ctrl.bus.noise, dst, data, k + chunk, Gran()))
                else
                  !TakesFrom(old(ctrl.bus.chip), ctrl.bus.noise, dst, data, k, Gran())
    {
      hide Plan, Offset, Healthy, Confined, Start, RoundUp, Ahead, TakesFrom, SmartRefused, LooksStored;
      ShareOfRound(dst, |src|, k, b);
      var g := minEraseMask + 1;
      chunk := g - Offset(dst + k, g);
      if |src| - k < chunk {
        chunk := |src| - k;
      }
      hide Share;
      SliceOfSlice(src, 0, |data|, k, chunk);
      rc := SmartNext(dst, k, src[k..k + chunk], b, data);
    }

    /** The loop of flash_smart_write. */
    method SmartLoop(dst: nat, src: seq<byte>, ghost data: seq<byte>) returns (rc: int)
      requires Valid() && !SmartRefused(dst, |src|) && |src| < TWO_64
      requires |data| == Span(dst, |src|) <= |src| && data == src[..|data|] && dst + |data| <= tsize
      requires Inside(ctrl.bus.chip.mem, ctrl.bus.noise, dst, data, Gran())
      modifies ctrl.bus, smartBuf
      ensures Valid() && rc <= 0 && |ctrl.bus.chip.mem| == |old(ctrl.bus.chip).mem|
      ensures Confined(old(ctrl.bus.chip), ctrl.bus.chip, SpanLo(dst), SpanHi(dst, |data|))
      ensures rc == 0 ==> Ahead(old(ctrl.bus.chip), ctrl.bus.chip, ctrl.bus.noise, dst, data, |data|, Gran())
      ensures ctrl.bus.reliable && LooksStored(old(ctrl.bus.chip), ctrl.bus.noise, dst, data) ==> rc == 0
      ensures old(Healthy()) && ctrl.bus.chip.flaws == old(ctrl.bus.chip.flaws) ==>
                if rc == 0 then
                  TakesFrom(old(ctrl.bus.chip), ctrl.bus.noise, dst, data, 0, Gran())
                  <==> TakesFrom(ctrl.bus.chip, ctrl.bus.noise, dst, data, |data|, Gran())
                else
                  !TakesFrom(old(ctrl.bus.chip), ctrl.bus.noise, dst, data, 0, Gran())
    {
      hide Plan, Offset, Healthy, Confined, Start, Share, RoundUp, Ahead, TakesFrom, SmartRefused, LooksStored,
        SpanLo, SpanHi, Span, Gran;
      ghost var b, healthy := ctrl.bus.chip, Healthy();
      AheadAtStart(b, ctrl.bus.noise, dst, data, Gran());
      ConfinedSelf(b, SpanLo(dst), SpanHi(dst, |data|));
      var k: nat := 0;
      LoopEnds(dst, |src|, k, b);
      while dst + k < (dst + |src|) % TWO_32
        invariant Valid() && k <= |data| && |ctrl.bus.chip.mem| == |b.mem|
        invariant dst + k < (dst + |src|) % TWO_32 <==> k < |data|
        invariant k == 0 || k == |data| || Offset(dst + k, Gran()) == 0
        invariant Ahead(b, ctrl.bus.chip, ctrl.bus.noise, dst, data, k, Gran())
        invariant Confined(b, ctrl.bus.chip, SpanLo(dst), SpanHi(dst, |data|))
        invariant ctrl.bus.chip.flaws <= b.flaws
        invariant healthy && ctrl.bus.chip.flaws == b.flaws ==>
                    Healthy() && (TakesFrom(b, ctrl.bus.noise, dst, data, 0, Gran())
                                  <==> TakesFrom(ctrl.bus.chip, ctrl.bus.noise, dst, data, k, Gran()))
        decreases |data| - k
      {
        var chunk: nat;
        rc, chunk := SmartIteration(dst, src, k, b, data);
        if rc != 0 {
          return;
        }
        k := k + chunk;
        LoopEnds(dst, |src|, k, b);
      }
      rc := 0;
    }

    /** flash_smart_write. Whatever the state of the chip, it only ever touches the
        granules that the data overlaps. A zero result leaves what SmartOutcome.ImageLeft says,
        which from an idle chip is the data stored, by exactly the planned commands. */
    method SmartWrite(dst: nat, src: seq<byte>) returns (rc: int)
      requires Valid() && |src| < TWO_64
      modifies ctrl.bus, smartBuf
      ensures Valid() && rc <= 0
      ensures SmartRefused(dst, |src|) ==> rc == -EINVAL && ctrl.bus.chip == old(ctrl.bus.chip)
      ensures !SmartRefused(dst, |src|) ==>
                && 0 < Span(dst, |src|) <= |src| && dst + Span(dst, |src|) <= tsize <= |old(ctrl.bus.chip).mem|
                && Offset(|old(ctrl.bus.chip).mem|, Gran()) == 0
                && Confined(old(ctrl.bus.chip), ctrl.bus.chip, SpanLo(dst), SpanHi(dst, Span(dst, |src|)))
      ensures rc == 0 ==> ctrl.bus.chip.busy == 0 || ctrl.bus.chip == old(ctrl.bus.chip)
      ensures rc == 0 ==>
                && !SmartRefused(dst, |src|)
                && var was, data := old(ctrl.bus.chip), src[..Span(dst, |src|)];
                   && ctrl.bus.chip.mem == ImageLeft(was.mem, was.busy > 0, ctrl.bus.noise, dst, data, Gran())
                   && ctrl.bus.chip.ops
                      == was.ops + Commands(was.mem, was.busy > 0, ctrl.bus.noise, dst, data, Gran())
      ensures rc == 0 && old(ctrl.bus.chip).busy == 0 ==>
                var data := src[..Span(dst, |src|)];
                && ctrl.bus.chip.mem == Overlay(old(ctrl.bus.chip).mem, dst, data)
                && ctrl.bus.chip.ops == old(ctrl.bus.chip).ops + Plan(old(ctrl.bus.chip).mem, dst, data, Gran())
      // From an idle chip in good order, any range inside the chip is stored.
      ensures 0 < |src| && dst + |src| <= tsize && old(ctrl.bus.chip).busy == 0 ==>
                old(Healthy()) && ctrl.bus.chip.flaws == old(ctrl.bus.chip.flaws) ==>
                  rc == 0 && ctrl.bus.chip.mem == Overlay(old(ctrl.bus.chip).mem, dst, src)
      ensures dst + |src| < TWO_32 && !(0 < |src| && dst + |src| <= tsize) ==>
                rc == -EINVAL && ctrl.bus.chip == old(ctrl.bus.chip)
      // Where reads give the data already, nothing happens, whether or not it is there.
      ensures !SmartRefused(dst, |src|) ==>
                LooksStored(old(ctrl.bus.chip), ctrl.bus.noise, dst, src[..Span(dst, |src|)]) ==>
                  && (ctrl.bus.reliable ==> rc == 0)
                  && (rc == 0 ==> ctrl.bus.chip == old(ctrl.bus.chip))
      // When nothing goes wrong: always from an idle chip.
      ensures !SmartRefused(dst, |src|) ==>
                old(Healthy()) && ctrl.bus.chip.flaws == old(ctrl.bus.chip.flaws) ==>
                  (rc == 0 <==> Takes(old(ctrl.bus.chip).mem, old(ctrl.bus.chip).busy > 0, ctrl.bus.noise, dst,
                                      src[..Span(dst, |src|)], Gran()))
      ensures old(ctrl.bus.chip).busy == 0 && !SmartRefused(dst, |src|) ==>
                old(Healthy()) && ctrl.bus.chip.flaws == old(ctrl.bus.chip.flaws) ==> rc == 0
    {
      hide Plan, Overlay, Offset, Healthy, Confined, Start, Share, RoundUp, Ahead, TakesFrom, LooksStored, SmartRefused;
      SmartRefusedIff(dst, |src|, (dst + |src|) % TWO_32);
      assert src[..|src|] == src;
      if SmartRefused(dst, |src|) {
        return -EINVAL;
      }
      ghost var b := ctrl.bus.chip;
      SpanFits(dst, |src|, b);
      ghost var data := src[..Span(dst, |src|)];
      AheadAtStart(b, ctrl.bus.noise, dst, data, Gran());
      rc := SmartLoop(dst, src, data);
      if rc == 0 {
        AheadAtEnd(b, ctrl.bus.chip, ctrl.bus.noise, dst, data, Gran());
      }
    }
  }

  lemma WroteOver(b: Nor, a: Nor, at: nat, want: seq<byte>)
    requires Did(b, a, Pages(at, want), at, at + |want|)
    requires at + |want| <= |a.mem| && a.mem[at..at + |want|] == want
    ensures |b.mem| == |a.mem| && a.mem == Overlay(b.mem, at, want) && a.ops == b.ops + Pages(at, want)
  {
    OverlayFromSlice(b.mem, a.mem, at, want);
  }

  /** Erase, then write the whole granule: it holds what was written. */
  lemma Rewritten(b: Nor, b1: Nor, b2: Nor, page: nat, merged: seq<byte>)
    requires page + |merged| <= |b2.mem| && b2.mem[page..page + |merged|] == merged
    requires Did(b, b1, [Erase(page, |merged|, true)], page, page + |merged|)
    requires Did(b1, b2, Pages(page, merged), page, page + |merged|)
    ensures |b.mem| == |b2.mem| && b2.mem == Overlay(b.mem, page, merged)
    ensures b2.ops == b.ops + ([Erase(page, |merged|, true)] + Pages(page, merged))
  {
    hide Pages, Run;
    OverlayFromSlice(b.mem, b2.mem, page, merged);
    assert b2.ops == (b.ops + [Erase(page, |merged|, true)]) + Pages(page, merged);
  }

  lemma OverlayInPlace(have: seq<byte>, off: nat, want: seq<byte>, now: seq<byte>)
    requires off + |want| <= |have| && |now| == |have|
    requires forall i :: 0 <= i < |have| ==> now[i] == if off <= i < off + |want| then want[i - off] else have[i]
    ensures now == Overlay(have, off, want)
  {
  }

  lemma ConfinedLength(b: Nor, a: Nor, lo: int, hi: int)
    requires Confined(b, a, lo, hi)
    ensures |a.mem| == |b.mem| && a.flaws <= b.flaws
  {
  }

  /** A whole-chip erase opcode, sent with WEL set and WIP clear. */
  lemma ChipEraseFrame(b: Nor, op: byte, f: seq<byte>, a: Nor)
    requires Armed(b) && WellFormed(b) && (op == CMD_CE || op == CMD_MIC_BULK_ERASE)
    requires (f == [] || f == [op]) && Completes(b, f, a)
    ensures Confined(b, a, 0, |b.mem|)
    ensures f == [op] && (if op == CMD_CE then b.part.chipErase else b.part.bulkErase) ==>
              Did(b, a, [Erase(0, |b.mem|, true)], 0, |b.mem|)
  {
    if f == [op] && (if op == CMD_CE then b.part.chipErase else b.part.bulkErase) {
      DidErase(b, 0, |b.mem|, a);
    } else {
      ConfinedSelf(b, 0, |b.mem|);
    }
  }

  lemma ConfinedSelf(b: Nor, lo: int, hi: int)
    requires WellFormed(b)
    ensures Confined(b, b, lo, hi)
  {
    assert b.ops[|b.ops|..] == [];
  }

  lemma TsizeMultiple(s: EraseSet, tsize: nat)
    requires Usable(s) && tsize % 0x10000 == 0
    ensures Offset(tsize, Granule(s)) == 0
  {
    SharedMultiple(tsize, 0x10000, Granule(s));
  }

  /** One granule is erased by one command. */
  lemma OneGranule(s: EraseSet, page: nat)
    requires Usable(s) && Offset(page, Granule(s)) == 0
    ensures GranuleAligned(s, page, Granule(s)) && Tileable(s, page, Granule(s))
    ensures EraseOps(Greedy(s, page, Granule(s))) == [Erase(page, Granule(s), true)]
  {
    var g := Granule(s);
    AlwaysTileable(s, page, g);
    BestIsLargestFit(s, page, g);
    StepKeepsTileable(s, page, g);
    var c := BestErase(s, page, g);
    assert c == g;
    assert Greedy(s, page, g) == [Block(page, g)] + Greedy(s, page + g, 0);
    assert Greedy(s, page, g) == [Block(page, g)];
  }

  /** A blank range takes any data. */
  lemma BlankTakesAnything(mem: seq<byte>, at: nat, data: seq<byte>)
    requires at + |data| <= |mem|
    ensures forall i :: 0 <= i < |data| ==> !NeedsErase(data[i], Blanked(mem, at, |data|)[at + i])
  {
    forall i | 0 <= i < |data|
      ensures !NeedsErase(data[i], Blanked(mem, at, |data|)[at + i])
    {
      AndWithBlank(data[i]);
    }
  }

  /** Comparing a piece of an image with a piece of the data. */
  lemma PieceOf(mem: seq<byte>, dst: nat, src: seq<byte>, k: nat, n: nat)
    requires dst + |src| <= |mem| && k + n <= |src|
    ensures mem[dst + k..dst + k + n] == src[k..k + n] ==> forall j :: k <= j < k + n ==> mem[dst + j] == src[j]
    ensures mem[dst + k..dst + k + n] != src[k..k + n] ==> mem[dst..dst + |src|] != src
  {
    var got, want := mem[dst + k..dst + k + n], src[k..k + n];
    SliceOfSlice(mem, dst, |src|, k, n);
    if got == want {
      forall j | k <= j < k + n
        ensures mem[dst + j] == src[j]
      {
        assert got[j - k] == mem[dst + j] && want[j - k] == src[j];
      }
    }
  }

  /** From here to the end of the page: 0x100 - (at & 0xff). */
  function Room(at: nat): (n: nat)
    ensures 0 < n <= PAGE
  {
    0x100 - at % 0x100
  }

  /** The first program of a write goes up to the end of its page. */
  lemma FirstPage(at: nat, data: seq<byte>)
    requires data != []
    ensures var n := Chunk(at, |data|);
            && n == (if Room(at) > |data| then |data| else Room(at)) && OnePage(at, n)
            && Pages(at, data) == [Program(at, data[..n], true)] + Pages(at + n, data[n..])
  {
  }

  /** A chip that takes write enables in time still does once it is idle again. */
  lemma StillHealthy(b: Nor, a: Nor, lo: int, hi: int)
    requires Confined(b, a, lo, hi)
    ensures a.part == b.part && (a.busy == 0 && b.part.maxDeaf < WREN_TRIES ==> Deafness(a) < WREN_TRIES)
  {
  }

  lemma NoPages(at: nat)
    ensures Pages(at, []) == []
  {
  }

  /** flash_write's range check, on uint32_t. */
  lemma WriteWrapCheck(tsize: nat, dst: nat, size: nat)
    requires dst < TWO_32 && size < TWO_32 && tsize < TWO_32
    ensures !((dst + size) % TWO_32 <= dst || size == 0 || (dst + size) % TWO_32 > tsize)
       <==> 0 < size && dst + size <= tsize
  {
    if dst + size >= TWO_32 {
      assert (dst + size) % TWO_32 == dst + size - TWO_32;
    }
  }

  /** x is end, give or take multiples of 2 to the 32. */
  ghost predicate Wraps(x: nat, end: nat) {
    (x - end) % TWO_32 == 0
  }

  /** Only the 32-bit truncation does so. */
  lemma SameResidue(x: nat, end: nat)
    requires end < TWO_32 && Wraps(x, end)
    ensures x % TWO_32 == end
  {
    assert x == TWO_32 * ((x - end) / TWO_32) + end;
  }

  predicate GoodBlock(d: nat, left: nat, c: nat) {
    c > 0 && d % c == 0 && c <= left
  }

  /** An accepted 64 KiB erase that x lies in. */
  predicate Erases64K(op: Op, x: nat) {
    op.Erase? && op.armed && op.size == 0x10000 && op.base <= x < op.base + op.size
  }

  /** The last command was an erase that byte x lies in, outside the range, and unless a flaw
      was spent since the chip was b, x is erased now. */
  ghost predicate StrayedAt(b: Nor, a: Nor, dst: nat, size: nat, x: nat) {
    && x < |a.mem| && !(dst <= x < dst + size) && |a.ops| > |b.ops| && Erases64K(a.ops[|a.ops| - 1], x)
    && (a.flaws == b.flaws ==> a.mem[x] == BLANK)
  }

  ghost predicate Strayed(b: Nor, a: Nor, dst: nat, size: nat) {
    exists x :: StrayedAt(b, a, dst, size, x)
  }

  /** The next block on an untileable range: good, or the bad one. */
  lemma AstrayBlock(dst: nat, d: nat, left: nat)
    requires GranuleAligned(NO_32K, d, left) && !Tileable(NO_32K, d, left) && Trail(dst, d)
    requires d + left < TWO_32
    ensures var c := BestErase(NO_32K, d, left);
            && BestErase(NO_32K, d % TWO_32, left % TWO_32) == c && Supported(NO_32K, c) && left > 0
            && (GoodBlock(d, left, c) ==>
                  && GranuleAligned(NO_32K, d + c, left - c) && !Tileable(NO_32K, d + c, left - c)
                  && Trail(dst, d + c))
            && (!GoodBlock(d, left, c) ==> c == 0x10000)
  {
    NoWrap(d);
    NoWrap(left);
    NothingTiles(d);
    hide Tileable, GranuleAligned, Trail;
    if GoodBlock(d, left, BestErase(NO_32K, d, left)) {
      GoodBlockStays(dst, d, left);
    } else {
      BadBlockLeaves(dst, d, left);
    }
  }

  lemma AstrayReaches(dst: nat, d: nat, left: nat, n: nat)
    requires GranuleAligned(NO_32K, d, left) && !Tileable(NO_32K, d, left) && Trail(dst, d)
    requires !GoodBlock(d, left, BestErase(NO_32K, d, left)) && d < n && Offset(n, 0x10000) == 0
    ensures var x := AstrayByte(d, left);
            Start(d, 0x10000) <= x < Start(d, 0x10000) + 0x10000 && x < n && !(dst <= x < d + left)
  {
    AstrayIsBad(d, left);
    hide Tileable, BestErase, GranuleAligned, Trail, Offset, AstrayByte;
    BadBlockLeaves(dst, d, left);
    GranuleInside(d, n, 0x10000);
  }

  lemma AstrayIsBad(d: nat, left: nat)
    requires !GoodBlock(d, left, BestErase(NO_32K, d, left))
    ensures var c := BestErase(NO_32K, d, left); d % c != 0 || c > left
  {
  }

  lemma BlockErased(b: Nor, a: Nor, base: nat, c: nat)
    requires Did(b, a, [Erase(base, c, true)], base, base + c)
    ensures |a.ops| > |b.ops| && a.ops[|a.ops| - 1] == Erase(base, c, true)
    ensures a.flaws == b.flaws ==> forall i :: base <= i < base + c && i < |a.mem| ==> a.mem[i] == BLANK
  {
    var ops := [Erase(base, c, true)];
    assert ops[1..] == [];
    assert Run(b.mem, ops) == Run(Effect(b.mem, ops[0]), []);
  }

  lemma WholeErased(b: Nor, a: Nor)
    requires Did(b, a, [Erase(0, |b.mem|, true)], 0, |b.mem|)
    ensures a.ops == b.ops + [Erase(0, |b.mem|, true)]
    ensures a.flaws == b.flaws ==> forall i :: 0 <= i < |a.mem| ==> a.mem[i] == 0xff
  {
    BlockErased(b, a, 0, |b.mem|);
  }

  /** On a tileable range the chosen block starts at the address itself. */
  lemma BestStartsHere(s: EraseSet, d: nat, left: nat)
    requires Usable(s) && GranuleAligned(s, d, left) && Tileable(s, d, left) && 0 < left
    ensures var c := BestErase(s, d, left); Supported(s, c) && Start(d, c) == d
  {
    BestIsLargestFit(s, d, left);
    hide BestErase, GranuleAligned, Tileable;
    StartOfAligned(d, BestErase(s, d, left));
  }

  /** One iteration of the erase loop, in numbers. */
  lemma EraseStep(s: EraseSet, d: nat, left: nat)
    requires Usable(s) && GranuleAligned(s, d, left) && Tileable(s, d, left) && 0 < left
    requires d + left < TWO_32
    ensures BestErase(s, d % TWO_32, left % TWO_32) == BestErase(s, d, left)
    ensures BestErase(s, d, left) <= left
    ensures GranuleAligned(s, d + BestErase(s, d, left), left - BestErase(s, d, left))
    ensures Tileable(s, d + BestErase(s, d, left), left - BestErase(s, d, left))
    ensures EraseOps(Greedy(s, d, left))
         == [Erase(d, BestErase(s, d, left), true)]
            + EraseOps(Greedy(s, d + BestErase(s, d, left), left - BestErase(s, d, left)))
  {
    NoWrap(d);
    NoWrap(left);
    BestIsLargestFit(s, d, left);
    StepKeepsTileable(s, d, left);
    assert Greedy(s, d, left)[1..] == Greedy(s, d + BestErase(s, d, left), left - BestErase(s, d, left));
  }

  lemma GreedyErases(s: EraseSet, mem: seq<byte>, dst: nat, size: nat)
    requires Usable(s) && GranuleAligned(s, dst, size) && Tileable(s, dst, size)
    ensures Run(mem, EraseOps(Greedy(s, dst, size))) == Blanked(mem, dst, size)
  {
    GreedyIsTiling(s, dst, size);
    TilingErases(s, mem, Greedy(s, dst, size), dst, dst + size);
  }

  /** The two argument checks at the top of flash_erase, on uint64_t. */
  predicate EraseRefused(tsize: nat, mask: nat, dst: nat, size: nat) {
    || (dst + size) % TWO_64 <= dst || size == 0 || (dst + size) % TWO_64 > tsize
    || dst % (mask + 1) != 0 || size % (mask + 1) != 0
  }

  lemma EraseRefusedIff(s: EraseSet, tsize: nat, mask: nat, dst: nat, size: nat)
    requires Usable(s) && mask + 1 == Granule(s)
    requires dst < TWO_64 && size < TWO_64 && tsize < TWO_32
    ensures !EraseRefused(tsize, mask, dst, size)
       <==> 0 < size && dst + size <= tsize && GranuleAligned(s, dst, size)
  {
    WrapCheck(tsize, dst, size);
  }

  lemma WrapCheck(tsize: nat, dst: nat, size: nat)
    requires dst < TWO_64 && size < TWO_64 && tsize < TWO_64
    ensures !((dst + size) % TWO_64 <= dst || size == 0 || (dst + size) % TWO_64 > tsize)
       <==> 0 < size && dst + size <= tsize
  {
    if dst + size >= TWO_64 {
      assert (dst + size) % TWO_64 == dst + size - TWO_64;
    }
  }
}
