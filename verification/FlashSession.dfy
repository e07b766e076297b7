/** Whole runs of the flash layer: calls to src/flash.c one after the other, whether or
    not they succeed. */
module FlashSession {
  import opened Bytes
  import opened EraseTiling
  import opened NorChip
  import opened FlashPlan
  import opened SmartOutcome
  import opened FlashDriver
  import opened Limits

  datatype Call =
    | EraseCall(dst: nat, size: nat)
    | WriteCall(dst: nat, data: seq<byte>, verify: bool)
    | SmartCall(dst: nat, data: seq<byte>)
    | ChipEraseCall

  /** Arguments of the C types; a whole-chip erase must be one that this chip knows. */
  ghost predicate Callable(c: FlashChip, part: Part, call: Call)
    requires Usable(c.info.sizes)
  {
    match call
    case EraseCall(dst, size) => dst < TWO_64 && size < TWO_64
    case WriteCall(dst, data, _) => dst < TWO_32 && |data| < TWO_32
    case SmartCall(_, data) => |data| < TWO_64
    case ChipEraseCall => if c.info.chipErase then part.chipErase else part.bulkErase
  }

  /** An erase of a range that the chip's blocks cannot tile. */
  predicate Untileable(c: FlashChip, call: Call)
    requires Usable(c.info.sizes)
  {
    call.EraseCall? && !Tileable(c.info.sizes, call.dst, call.size)
  }

  /** What a call that returns 0 makes of the image. */
  ghost function Image(c: FlashChip, mem: seq<byte>, call: Call): (r: seq<byte>)
    requires Usable(c.info.sizes)
    ensures |r| == |mem|
  {
    match call
    case EraseCall(dst, size) => Blanked(mem, dst, size)
    case WriteCall(dst, data, _) => if dst + |data| <= |mem| then AndOver(mem, dst, data) else mem
    case SmartCall(dst, data) =>
      var n := c.Span(dst, |data|);
      if n <= |data| && dst + n <= |mem| then Overlay(mem, dst, data[..n]) else mem
    case ChipEraseCall => Blanked(mem, 0, |mem|)
  }

  ghost function Images(c: FlashChip, mem: seq<byte>, calls: seq<Call>): (r: seq<byte>)
    requires Usable(c.info.sizes)
    ensures |r| == |mem|
    decreases |calls|
  {
    if calls == [] then mem else Images(c, Image(c, mem, calls[0]), calls[1..])
  }

  lemma ChipErased(b: Nor, a: Nor)
    requires Did(b, a, [Erase(0, |b.mem|, true)], 0, |b.mem|) && a.flaws == b.flaws
    ensures a.mem == Blanked(b.mem, 0, |b.mem|)
  {
    var ops := [Erase(0, |b.mem|, true)];
    assert ops[1..] == [];
    assert Run(b.mem, ops) == Run(Effect(b.mem, ops[0]), []);
  }

  /** One call, whatever state an earlier one left the chip in. An erase that goes astray is
      followed up to its first block outside the range. */
  method Do(c: FlashChip, call: Call) returns (rc: int, astray: bool)
    requires c.Valid() && Callable(c, c.ctrl.bus.chip.part, call)
    modifies c.ctrl.bus, c.smartBuf
    ensures c.Valid() && rc <= 0
    ensures Confined(old(c.ctrl.bus.chip), c.ctrl.bus.chip, 0, |old(c.ctrl.bus.chip).mem|)
    ensures rc == 0 ==> c.ctrl.bus.chip.busy == 0 || c.ctrl.bus.chip == old(c.ctrl.bus.chip)
    ensures astray <==> rc == 0 && Untileable(c, call)
    ensures rc == 0 && !astray && old(c.ctrl.bus.chip).busy == 0 ==>
              c.ctrl.bus.chip.flaws == old(c.ctrl.bus.chip).flaws ==>
                c.ctrl.bus.chip.mem == Image(c, old(c.ctrl.bus.chip).mem, call)
  {
    hide Confined, Blanked, AndOver, Overlay, Tileable, GranuleAligned, Plan, Pages, FlashChip.Healthy,
      FlashChip.SmartRefused, Offset, Start, RoundUp, Did, Strayed, Greedy, EraseOps, NeedsErase, ImageLeft, Commands,
      Takes, LooksStored;
    ghost var b := c.ctrl.bus.chip;
    ConfinedSelf(b, 0, |b.mem|);
    astray := false;
    match call
    case EraseCall(dst, size) =>
      rc, astray := c.FlashErase(dst, size);
    case WriteCall(dst, data, verify) =>
      rc := c.FlashWrite(dst, data, verify);
      if dst + |data| <= c.tsize {
        ConfinedWidens(b, c.ctrl.bus.chip, dst, dst + |data|, 0, |b.mem|);
      }
    case SmartCall(dst, data) =>
      rc := c.SmartWrite(dst, data);
      if !c.SmartRefused(dst, |data|) {
        var n := c.Span(dst, |data|);
        BoundaryPast(|b.mem|, dst + n, c.Gran());
        ConfinedWidens(b, c.ctrl.bus.chip, c.SpanLo(dst), c.SpanHi(dst, n), 0, |b.mem|);
      }
    case ChipEraseCall =>
      rc := c.EraseChip();
      if rc == 0 && c.ctrl.bus.chip.flaws == b.flaws {
        ChipErased(b, c.ctrl.bus.chip);
      }
  }

  /** Any sequence of calls, carried on whatever a call returns, but not past an erase that
      goes astray: every command was accepted by the chip, inside the chip, aligned or
      inside a page. If the chip was idle and all calls returned 0 it is idle again, and
      unless it spent a flaw the image is what the calls make of it one after the other. */
  method Session(c: FlashChip, calls: seq<Call>) returns (ok: bool, astray: bool)
    requires c.Valid() && forall call :: call in calls ==> Callable(c, c.ctrl.bus.chip.part, call)
    modifies c.ctrl.bus, c.smartBuf
    ensures c.Valid()
    ensures Confined(old(c.ctrl.bus.chip), c.ctrl.bus.chip, 0, |old(c.ctrl.bus.chip).mem|)
    ensures astray ==> exists call :: call in calls && Untileable(c, call)
    ensures ok ==> !astray
    ensures ok && old(c.ctrl.bus.chip).busy == 0 ==> c.ctrl.bus.chip.busy == 0
    ensures ok && old(c.ctrl.bus.chip).busy == 0 && c.ctrl.bus.chip.flaws == old(c.ctrl.bus.chip).flaws ==>
              c.ctrl.bus.chip.mem == Images(c, old(c.ctrl.bus.chip).mem, calls)
    decreases |calls|
  {
    hide Confined, Image, Callable, Untileable;
    ghost var b := c.ctrl.bus.chip;
    ConfinedSelf(b, 0, |b.mem|);
    if calls == [] {
      return true, false;
    }
    var rc;
    rc, astray := Do(c, calls[0]);
    ghost var b1 := c.ctrl.bus.chip;
    ConfinedKeeps(b, b1, 0, |b.mem|);
    if astray {
      return false, true;
    }
    assert forall call :: call in calls[1..] ==> call in calls;
    var rest;
    rest, astray := Session(c, calls[1..]);
    ConfinedKeeps(b1, c.ctrl.bus.chip, 0, |b.mem|);
    ConfinedTrans(b, b1, c.ctrl.bus.chip, 0, |b.mem|);
    ok := rc == 0 && rest;
  }

  lemma ConfinedKeeps(b: Nor, a: Nor, lo: int, hi: int)
    requires Confined(b, a, lo, hi)
    ensures |a.mem| == |b.mem| && a.flaws <= b.flaws && a.part == b.part
  {
  }
}
