/** The erase, write and verify loop of cmd_write_firmware (src/cmd/write.c:202-228). */
module Firmware {
  import opened Bytes
  import opened EraseTiling
  import opened NorChip
  import opened SpiBus
  import opened FlashPlan
  import opened FlashDriver
  import opened Limits

  const SFC_FLASH_WIN: nat := 0x10000

  /** Standard input. A read may fail unless the input is steady, and may come up short
      unless it is whole, as a regular file is. */
  class Input {
    const data: seq<byte>
    const steady: bool
    const whole: bool
    var pos: nat

    ghost predicate Valid()
      reads this
    {
      pos <= |data|
    }

    constructor (data: seq<byte>, steady: bool, whole: bool)
      ensures Valid() && pos == 0 && this.data == data && this.steady == steady && this.whole == whole
    {
      this.data, this.steady, this.whole, pos := data, steady, whole, 0;
    }

    /** read(0, buf, n) */
    method Read(n: nat) returns (rc: int, buf: seq<byte>)
      requires Valid() && n > 0
      modifies this
      ensures Valid() && (steady ==> rc >= 0)
      ensures rc < 0 ==> pos == old(pos)
      ensures rc >= 0 ==> |buf| == rc <= n && pos == old(pos) + rc && buf == data[old(pos)..pos]
      ensures rc == 0 <==> old(pos) == |data|
      ensures whole && rc >= 0 ==> rc == if |data| - old(pos) < n then |data| - old(pos) else n
    {
      var fails: bool, most: nat := *, *;
      if fails && !steady && pos < |data| {
        return -5, [];
      }
      var len := if |data| - pos < n then |data| - pos else n;
      if !whole && 0 < most < len {
        len := most;
      }
      buf := data[pos..pos + len];
      pos := pos + len;
      rc := len;
    }
  }

  /** Erase and write one window until the verify passes or something else fails. */
  method WriteWindow(chip: FlashChip, phys: nat, buf: seq<byte>) returns (rc: int)
    requires chip.Valid() && chip.info.sizes.k64 && |buf| == SFC_FLASH_WIN
    requires phys % SFC_FLASH_WIN == 0 && phys <= chip.tsize
    modifies chip.ctrl.bus
    ensures chip.Valid() && rc <= 0 && rc != -EREMOTEIO
    ensures Confined(old(chip.ctrl.bus.chip), chip.ctrl.bus.chip, phys, phys + |buf|)
    ensures rc == 0 ==>
              && phys + |buf| <= chip.tsize && chip.ctrl.bus.chip.busy == 0
              && chip.ctrl.bus.chip.mem[phys..phys + |buf|] == buf
    ensures phys + |buf| <= chip.tsize && old(chip.Healthy()) ==> rc == 0 && chip.Healthy()
  {
    ghost var b, healthy := chip.ctrl.bus.chip, chip.Healthy();
    ConfinedSelf(b, phys, phys + |buf|);
    WindowErasable(chip.info.sizes, phys);
    rc := -EREMOTEIO;
    while rc == -EREMOTEIO
      invariant chip.Valid() && rc <= 0
      invariant Confined(b, chip.ctrl.bus.chip, phys, phys + |buf|)
      invariant rc == 0 ==>
        && phys + |buf| <= chip.tsize && chip.ctrl.bus.chip.busy == 0
        && chip.ctrl.bus.chip.mem[phys..phys + |buf|] == buf
      invariant phys + |buf| <= chip.tsize && healthy ==> (rc == 0 || rc == -EREMOTEIO) && chip.Healthy()
      decreases chip.ctrl.bus.chip.flaws + (if rc == -EREMOTEIO then 1 else 0)
    {
      rc := EraseAndWrite(chip, phys, buf, b);
    }
  }

  /** The body of the retry loop. A miscompare costs the chip one of its flaws. */
  method EraseAndWrite(chip: FlashChip, phys: nat, buf: seq<byte>, ghost b: Nor) returns (rc: int)
    requires chip.Valid() && |buf| == SFC_FLASH_WIN && phys <= chip.tsize
    requires GranuleAligned(chip.info.sizes, phys, |buf|) && Tileable(chip.info.sizes, phys, |buf|)
    requires Confined(b, chip.ctrl.bus.chip, phys, phys + |buf|)
    modifies chip.ctrl.bus
    ensures chip.Valid() && rc <= 0
    ensures Confined(b, chip.ctrl.bus.chip, phys, phys + |buf|)
    ensures chip.ctrl.bus.chip.flaws <= old(chip.ctrl.bus.chip).flaws
    ensures rc == -EREMOTEIO ==> chip.ctrl.bus.chip.flaws < old(chip.ctrl.bus.chip).flaws
    ensures rc == 0 ==>
              && phys + |buf| <= chip.tsize && chip.ctrl.bus.chip.busy == 0
              && chip.ctrl.bus.chip.mem[phys..phys + |buf|] == buf
    ensures phys + |buf| <= chip.tsize && old(chip.Healthy()) ==>
              (rc == 0 || rc == -EREMOTEIO) && chip.Healthy()
  {
    hide Pages, Tileable, GranuleAligned, Confined, Blanked, AndOver, Greedy, FlashChip.Healthy;
    ghost var b0 := chip.ctrl.bus.chip;
    var astray;
    rc, astray := chip.FlashErase(phys, |buf|);
    ghost var b1 := chip.ctrl.bus.chip;
    ConfinedTrans(b, b0, b1, phys, phys + |buf|);
    ConfinedLength(b0, b1, phys, phys + |buf|);
    if rc < 0 {
      return;
    }
    rc := chip.FlashWrite(phys, buf, true);
    ghost var b2 := chip.ctrl.bus.chip;
    ConfinedTrans(b, b1, b2, phys, phys + |buf|);
    ConfinedLength(b1, b2, phys, phys + |buf|);
    if rc == -EREMOTEIO && b2.flaws == b0.flaws {
      BlankTakesAnything(b0.mem, phys, buf);
      AndStoresIff(b1.mem, phys, buf);
      assert false;
    }
  }

  lemma WindowErasable(s: EraseSet, phys: nat)
    requires s.k64 && phys % SFC_FLASH_WIN == 0
    ensures GranuleAligned(s, phys, SFC_FLASH_WIN) && Tileable(s, phys, SFC_FLASH_WIN)
  {
    SharedMultiple(phys, 0x10000, Granule(s));
    SharedMultiple(0x10000, 0x10000, Granule(s));
    AlwaysTileable(s, phys, SFC_FLASH_WIN);
  }

  predicate OnWindow(phys: nat) {
    phys % SFC_FLASH_WIN == 0
  }

  /** What the loop keeps at its head: flash up to phys is the input consumed so far. */
  ghost predicate AtHead(chip: FlashChip, input: Input, b: Nor, phys: nat)
    reads chip, chip.ctrl, chip.ctrl.bus, input
  {
    && chip.Valid() && input.Valid()
    && phys == input.pos <= chip.tsize && OnWindow(phys)
    && Confined(b, chip.ctrl.bus.chip, 0, phys)
    && chip.ctrl.bus.chip.mem[..phys] == input.data[..phys]
  }

  /** A full buffer: write it at phys and move on if that worked. */
  method NextWindow(chip: FlashChip, input: Input, phys: nat, buf: seq<byte>, ghost b: Nor)
    returns (rc: int, next: nat)
    requires chip.Valid() && chip.info.sizes.k64 && input.Valid() && |buf| == SFC_FLASH_WIN
    requires OnWindow(phys) && phys <= chip.tsize
    requires input.pos == phys + |buf| && buf == input.data[phys..input.pos]
    requires Confined(b, chip.ctrl.bus.chip, 0, phys)
    requires chip.ctrl.bus.chip.mem[..phys] == input.data[..phys]
    modifies chip.ctrl.bus
    ensures chip.Valid() && rc <= 0
    ensures rc == 0 ==> next == phys + |buf| && AtHead(chip, input, b, next)
    ensures rc != 0 ==> next == phys && chip.ctrl.bus.chip.mem[..phys] == input.data[..phys]
    ensures Confined(b, chip.ctrl.bus.chip, 0, phys + |buf|)
    ensures phys + |buf| <= chip.tsize && old(chip.Healthy()) ==> rc == 0 && chip.Healthy()
  {
    hide Confined, SameOutside, FlashChip.Healthy;
    next := phys;
    ghost var was := chip.ctrl.bus.chip;
    rc := WriteWindow(chip, phys, buf);
    ghost var now := chip.ctrl.bus.chip;
    ConfinedWidens(b, was, 0, phys, 0, phys + |buf|);
    ConfinedOneMore(b, was, now, 0, phys + |buf|, phys, phys + |buf|);
    PrefixKept(was, now, phys, |buf|);
    if rc != 0 {
      return;
    }
    PrefixGrows(now.mem, input.data, phys, |buf|);
    next := phys + |buf|;
    WindowsFollow(phys);
  }

  lemma WindowsFollow(phys: nat)
    requires OnWindow(phys)
    ensures OnWindow(phys + SFC_FLASH_WIN)
  {
  }

  /** The loop of cmd_write_firmware. phys is where it stopped. */
  method WriteFirmware(chip: FlashChip, input: Input) returns (rc: int, phys: nat)
    requires chip.Valid() && chip.info.sizes.k64
    requires input.Valid() && input.pos == 0
    modifies chip.ctrl.bus, input
    ensures chip.Valid() && rc <= 0
    ensures phys <= chip.tsize && phys <= |input.data| && phys % 0x1_0000 == 0
    ensures chip.ctrl.bus.chip.mem[..phys] == input.data[..phys]
    ensures SameOutside(old(chip.ctrl.bus.chip.mem), chip.ctrl.bus.chip.mem, 0,
                        phys + if rc == 0 then 0 else 0x1_0000)
    // A zero result is either the end of the input or a read that came up short.
    ensures rc == 0 ==> phys == |input.data| || phys < input.pos < phys + 0x1_0000
    ensures rc == 0 && input.whole ==> (phys == |input.data| <==> |input.data| % 0x1_0000 == 0)
    // Nothing going wrong, the loop returns 0 having stored all but the tail of the input.
    ensures old(chip.Healthy()) && input.steady && input.whole && |input.data| <= chip.tsize ==>
              rc == 0 && phys == |input.data| - |input.data| % 0x1_0000
  {
    ghost var b, healthy := chip.ctrl.bus.chip, chip.Healthy();
    phys, rc := 0, 0;
    ConfinedSelf(b, 0, 0);
    while true
      invariant rc == 0 && AtHead(chip, input, b, phys)
      invariant healthy ==> chip.Healthy()
      decreases |input.data| - phys
    {
      hide Confined, SameOutside, FlashChip.Healthy, FlashChip.Fits, OnWindow;
      var ingress, buf := input.Read(SFC_FLASH_WIN);
      if ingress == 0 {
        break;
      }
      if ingress < 0 {
        rc := ingress;
        ConfinedWidens(b, chip.ctrl.bus.chip, 0, phys, 0, phys + SFC_FLASH_WIN);
        break;
      }
      if ingress < SFC_FLASH_WIN {
        ShortTail(|input.data|, phys, ingress);
        break;
      }
      rc, phys := NextWindow(chip, input, phys, buf, b);
      if rc != 0 {
        break;
      }
    }
    ConfinedMeans(b, chip.ctrl.bus.chip, 0, phys + if rc == 0 then 0 else SFC_FLASH_WIN);
  }

  lemma ConfinedMeans(b: Nor, a: Nor, lo: int, hi: int)
    requires Confined(b, a, lo, hi)
    ensures SameOutside(b.mem, a.mem, lo, hi)
  {
  }

  lemma ShortTail(size: nat, phys: nat, left: nat)
    requires OnWindow(phys) && 0 < left < SFC_FLASH_WIN
    ensures size == phys + left ==> size % SFC_FLASH_WIN == left
  {
    AddMod(left, phys, SFC_FLASH_WIN);
  }

  lemma PrefixKept(b: Nor, a: Nor, phys: nat, n: nat)
    requires Confined(b, a, phys, phys + n) && phys <= |b.mem|
    ensures |a.mem| == |b.mem| && a.mem[..phys] == b.mem[..phys]
  {
  }

  lemma PrefixGrows(mem: seq<byte>, data: seq<byte>, phys: nat, n: nat)
    requires phys + n <= |mem| && phys + n <= |data|
    requires mem[..phys] == data[..phys] && mem[phys..phys + n] == data[phys..phys + n]
    ensures mem[..phys + n] == data[..phys + n]
  {
    assert mem[..phys + n] == mem[..phys] + mem[phys..phys + n];
    assert data[..phys + n] == data[..phys] + data[phys..phys + n];
  }
}
