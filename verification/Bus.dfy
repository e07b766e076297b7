/** The SoC side of the flash chip as the bridge exposes it: one control register
    that frames commands with CE#, and the memory window that clocks bytes. */
module SpiBus {
  import opened Bytes
  import opened NorChip
  import opened EraseTiling
  import opened Words
  import opened Limits

  /** The replies are the ones the chip in state c gives to the frame. A status reply
      is only pinned down for the first four bytes, after which time has passed. */
  ghost predicate Answers(c: Nor, frame: seq<byte>, replies: seq<byte>)
    requires |c.mem| > 0
  {
    forall k :: 0 <= k < |replies| && (frame == [CMD_RDSR] ==> k < 4) ==>
      Reply(c, frame, k) in {None, Some(replies[k])}
  }

  /** Nothing but waiting happened to the chip, and that only if it was polled. */
  ghost predicate Waited(b: Nor, frame: seq<byte>, a: Nor) {
    a == b.(busy := a.busy) && a.busy <= b.busy && (frame != [CMD_RDSR] ==> a == b)
  }

  /** User mode with CE# driven active. */
  predicate Selects(ctl: word) {
    ctl & 7 == 3
  }

  /** Normal (memory-mapped) read mode. */
  predicate ReadMode(ctl: word) {
    ctl & 7 == 0
  }

  predicate FourByteBit(ctl: word) {
    ctl & 0x2000 != 0
  }

  lemma ReadModeRests(ctl: word)
    ensures ReadMode(ctl) ==> !Selects(ctl)
  {
  }

  /** Set or clear the address width bit. */
  function WithWidth(ctl: word, wide: bool): (r: word)
    ensures FourByteBit(r) == wide && (ReadMode(ctl) ==> ReadMode(r))
  {
    if wide then ctl | 0x2000 else ctl & !0x2000
  }

  /** Faults: a register write fails only if the bus is not sturdy, any other access
      only if it is not reliable. A failing access returns a negative errno other
      than the one the flash layer uses for a miscompare. noise is what the window
      gives at each address while the chip does not answer. */
  class Bus {
    const sturdy: bool
    const reliable: bool
    const noise: seq<byte>
    var chip: Nor
    var ctl: word
    var ceCtrl: word              // FMC_CE_CTRL
    var frame: seq<byte>          // shifted in since CE# went active
    var replies: seq<byte>        // shifted out since CE# went active
    ghost var windows: seq<seq<byte>>  // every finished CE# window

    ghost predicate Valid()
      reads this
    {
      WellFormed(chip) && |noise| == |chip.mem|
    }

    constructor (sturdy: bool, reliable: bool, noise: seq<byte>, chip: Nor, ctl: word, ceCtrl: word)
      requires WellFormed(chip) && |noise| == |chip.mem|
      ensures Valid() && this.sturdy == sturdy && this.reliable == reliable && this.noise == noise
      ensures this.chip == chip && this.ctl == ctl && this.ceCtrl == ceCtrl && windows == []
    {
      this.sturdy, this.reliable, this.noise, this.chip := sturdy, reliable, noise, chip;
      this.ctl, this.ceCtrl := ctl, ceCtrl;
      frame, replies, windows := [], [], [];
    }

    method Fault(may: bool) returns (rc: int)
      ensures rc <= 0 && rc != -EREMOTEIO && (rc < 0 ==> may)
    {
      var broken: bool, code: int := *, *;
      rc := if may && broken && code < 0 && code != -EREMOTEIO then code else 0;
    }

    /** A self-timed operation with its arbitrary duration, write-enable deafness and,
        while the chip has flaws left, arbitrary damage inside [lo, hi). */
    method Accept(op: Op, mem: seq<byte>, lo: nat, hi: nat) returns (a: Nor)
      requires Valid() && |mem| == |chip.mem| && SameOutside(chip.mem, mem, lo, hi)
      ensures Accepts(chip, op, mem, lo, hi, a) && WellFormed(a)
    {
      var time: nat, deaf: nat, bad: bool, junk: seq<byte> := *, *, *, *;
      if deaf > chip.part.maxDeaf {
        deaf := chip.part.maxDeaf;
      }
      a := chip.(mem := mem, wel := false, busy := time, deaf := deaf, ops := chip.ops + [op]);
      if bad && chip.flaws > 0 && |junk| == |mem| {
        var was := chip.mem;
        var m := seq(|mem|, i requires 0 <= i < |mem| => if lo <= i < hi then junk[i] else was[i]);
        assert SameOutside(was, m, lo, hi);
        a := a.(mem := m, flaws := chip.flaws - 1);
      }
    }

    method Erase(base: nat, size: nat)
      requires Valid()
      modifies `chip
      ensures Valid() && Erases(old(chip), base, size, chip)
    {
      if chip.wel && chip.busy == 0 {
        chip := Accept(Op.Erase(base, size, true), Blanked(chip.mem, base, size), base, base + size);
      } else {
        chip := chip.(ops := chip.ops + [Op.Erase(base, size, false)]);
      }
    }

    method Program(at: nat, data: seq<byte>)
      requires Valid()
      modifies `chip
      ensures Valid() && Programs(old(chip), at, data, chip)
    {
      if chip.wel && chip.busy == 0 {
        ProgrammedTouches(chip.mem, at, data);
        chip := Accept(Op.Program(at, data, true), Programmed(chip.mem, at, data),
                       TouchedLo(at, |data|), TouchedHi(at, |data|));
      } else {
        chip := chip.(ops := chip.ops + [Op.Program(at, data, false)]);
      }
    }

    /** CE# goes high: the chip acts on the frame it has shifted in. */
    method Deselect()
      requires Valid()
      modifies `chip, `windows
      ensures Valid() && Completes(old(chip), frame, chip)
      ensures windows == old(windows) + [frame]
    {
      windows := windows + [frame];
      match Decode(chip, frame)
      case WriteEnable =>
        if chip.busy > 0 {
          chip := chip.(wrens := chip.wrens + 1);
        } else if chip.deaf > 0 {
          chip := chip.(deaf := chip.deaf - 1, wrens := chip.wrens + 1);
        } else {
          chip := chip.(wel := true, wrens := chip.wrens + 1);
        }
      case SetWide(on) =>
        if chip.busy == 0 && (chip.wel || !chip.part.strict4b) {
          var keep: bool := *;
          chip := chip.(wide := on, wel := chip.wel && keep);
        }
      case EraseBlock(base, size) =>
        Erase(base, size);
      case ProgramPage(at, data) =>
        Program(at, data);
      case Nothing =>
    }

    /** soc_writel to the CE control register. */
    method WriteCtl(v: word) returns (rc: int)
      requires Valid()
      modifies `ctl, `chip, `frame, `replies, `windows
      ensures Valid() && rc <= 0 && rc != -EREMOTEIO && (sturdy ==> rc == 0)
      ensures rc < 0 ==> unchanged(this)
      ensures rc == 0 ==> ctl == v
      ensures rc == 0 && !(old(Selects(ctl)) && !Selects(v)) ==> chip == old(chip) && windows == old(windows)
      ensures rc == 0 && old(Selects(ctl)) && !Selects(v) ==>
                Completes(old(chip), old(frame), chip) && windows == old(windows) + [old(frame)]
      ensures rc == 0 && !old(Selects(ctl)) && Selects(v) ==> frame == [] && replies == []
      ensures rc == 0 && !(!old(Selects(ctl)) && Selects(v)) ==> frame == old(frame) && replies == old(replies)
    {
      rc := Fault(!sturdy);
      if rc == 0 {
        if Selects(ctl) && !Selects(v) {
          Deselect();
        } else if !Selects(ctl) && Selects(v) {
          frame, replies := [], [];
        }
        ctl := v;
      }
    }

    /** soc_readl of FMC_CE_CTRL. */
    method ReadCeCtrl() returns (rc: int, val: word)
      ensures rc <= 0 && rc != -EREMOTEIO && (reliable ==> rc == 0)
      ensures rc == 0 ==> val == ceCtrl
    {
      rc := Fault(!reliable);
      val := ceCtrl;
    }

    /** soc_writel of FMC_CE_CTRL. */
    method WriteCeCtrl(v: word) returns (rc: int)
      modifies `ceCtrl
      ensures rc <= 0 && rc != -EREMOTEIO && (reliable ==> rc == 0)
      ensures ceCtrl == if rc == 0 then v else old(ceCtrl)
    {
      rc := Fault(!reliable);
      if rc == 0 {
        ceCtrl := v;
      }
    }

    /** soc_write to the flash window: all bytes, or an error after some of them. */
    method WriteWindow(data: seq<byte>) returns (rc: int)
      requires Valid()
      modifies `frame
      ensures rc == |data| || (rc < 0 && rc != -EREMOTEIO)
      ensures reliable ==> rc == |data|
      ensures !Selects(ctl) ==> frame == old(frame)
      ensures Selects(ctl) ==> old(frame) <= frame <= old(frame) + data
      ensures Selects(ctl) && rc == |data| ==> frame == old(frame) + data
    {
      rc := Fault(!reliable);
      if rc == 0 {
        rc := |data|;
        if Selects(ctl) {
          frame := frame + data;
        }
      } else if Selects(ctl) {
        var sent: int := *;
        if 0 <= sent <= |data| {
          frame := frame + data[..sent];
        }
      }
    }

    function ReplyByte(k: nat, junk: byte): byte
      requires |chip.mem| > 0
      reads this
    {
      var r := Reply(chip, frame, k);
      if r.Some? then r.value else junk
    }

    /** soc_readl of the flash window in user mode: four reply bytes, little-endian. */
    method ReadWindowL() returns (rc: int, val: word)
      requires Valid()
      modifies `chip, `replies
      ensures Valid() && rc <= 0 && rc != -EREMOTEIO && (reliable ==> rc == 0)
      ensures chip == old(chip) || chip == Polled(old(chip), frame)
      ensures rc == 0 ==> chip == Polled(old(chip), frame)
      ensures rc == 0 ==> |replies| == |old(replies)| + 4 && old(replies) <= replies
      ensures rc == 0 ==>
                forall k :: |old(replies)| <= k < |replies| ==>
                  Reply(old(chip), frame, k) in {None, Some(replies[k])}
      ensures rc == 0 ==>
                val == LittleEndian(replies[|replies| - 4], replies[|replies| - 3],
                                    replies[|replies| - 2], replies[|replies| - 1])
    {
      rc := Fault(!reliable);
      val := 0;
      if rc == 0 {
        var j0: byte, j1: byte, j2: byte, j3: byte := *, *, *, *;
        var n := |replies|;
        var b0, b1, b2, b3 := ReplyByte(n, j0), ReplyByte(n + 1, j1), ReplyByte(n + 2, j2), ReplyByte(n + 3, j3);
        replies := replies + [b0, b1, b2, b3];
        val := LittleEndian(b0, b1, b2, b3);
        chip := Polled(chip, frame);
      } else {
        var late: bool := *;
        if late {
          chip := Polled(chip, frame);
        }
      }
    }

    /** The controller reads memory by itself only in read mode, with the chip idle
        and both sides agreeing on the address width. */
    ghost predicate Mapped(pos: nat, len: nat)
      reads this
    {
      && ReadMode(ctl) && chip.busy == 0 && FourByteBit(ctl) == chip.wide
      && pos + len <= |chip.mem| && (chip.wide || pos + len <= LIMIT_3B)
    }

    /** soc_read of the flash window. */
    method ReadWindow(pos: nat, buf: array<byte>, len: nat) returns (rc: int)
      requires Valid() && len <= buf.Length
      modifies buf
      ensures rc == len || (rc < 0 && rc != -EREMOTEIO)
      ensures reliable ==> rc == len
      ensures rc == len && pos + len <= |chip.mem| ==>
                buf[..len] == (if Mapped(pos, len) then chip.mem else noise)[pos..pos + len]
      ensures buf[len..] == old(buf[len..])
    {
      rc := Fault(!reliable);
      var good := ReadMode(ctl) && chip.busy == 0 && FourByteBit(ctl) == chip.wide
        && pos + len <= |chip.mem| && (chip.wide || pos + len <= LIMIT_3B);
      if rc == 0 {
        rc := len;
        forall i | 0 <= i < len {
          buf[i] := if good then chip.mem[pos + i] else if pos + i < |noise| then noise[pos + i] else 0xff;
        }
      }
    }
  }

  lemma ProgrammedTouches(mem: seq<byte>, at: nat, data: seq<byte>)
    ensures SameOutside(mem, Programmed(mem, at, data), TouchedLo(at, |data|), TouchedHi(at, |data|))
  {
    if at % PAGE + |data| <= PAGE {
      forall i | 0 <= i < |mem| && !(at <= i < at + |data|)
        ensures Programmed(mem, at, data)[i] == mem[i]
      {
        if at - at % PAGE <= i < at {
          assert (i - at) % PAGE == i - at + PAGE;
        }
      }
    }
  }
}
