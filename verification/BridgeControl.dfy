/** src/soc/sioctl.c, bridges.c and ilpcctl.c: who may use the iLPC bridge. */
module BridgeControl {
  import opened Words
  import opened Straps
  import opened Limits

  const LPC_HICRB: nat := 0x1e789100
  const ILPC_DIS: word := 0x2000_0000
  const ILPC_RO: word := 0x40

  datatype Decode = Disable | Decode2e | Decode4e
  datatype Mode = Permissive | Restricted | Disabled

  /** The same register, but for the bits in mask. */
  predicate SameButFor(a: word, b: word, mask: word) {
    And(a, Not(mask)) == And(b, Not(mask))
  }

  lemma SetWithin(x: word, m: word, mask: word)
    requires SubMask(m, mask)
    ensures SameButFor(x, Or(x, m), mask)
  {
  }

  lemma ClearWithin(x: word, m: word, mask: word)
    requires SubMask(m, mask)
    ensures SameButFor(x, And(x, Not(m)), mask)
  {
  }

  lemma SameTrans(x: word, y: word, z: word, mask: word)
    requires SameButFor(x, y, mask) && SameButFor(y, z, mask)
    ensures SameButFor(x, z, mask)
  {
  }

  // ---- sioctl.c ----

  function SioReg(gen: Generation): nat {
    if gen == Ast2600 then 0x510 else 0x70
  }

  function SioDisable(gen: Generation): word {
    if gen == Ast2600 then 0x8 else 0x10_0000
  }

  function SioSelect(gen: Generation): word {
    if gen == Ast2600 then 0x4 else 0x1_0000
  }

  function SioBits(gen: Generation): word {
    Or(SioDisable(gen), SioSelect(gen))
  }

  lemma SioMasks(gen: Generation)
    ensures IsStrap(gen, SioReg(gen))
    ensures SubMask(SioDisable(gen), SioBits(gen)) && SubMask(SioSelect(gen), SioBits(gen))
    ensures Apart(SioDisable(gen), SioSelect(gen)) && Apart(SioSelect(gen), SioDisable(gen))
    ensures SioDisable(gen) != 0 && SioSelect(gen) != 0
  {
  }

  /** Where the SuperIO answers, as the strap register says. */
  function SioDecode(gen: Generation, r: Regs): Decode {
    var strap := Get(r, SCU + SioReg(gen));
    if And(strap, SioDisable(gen)) != 0 then Disable
    else if And(strap, SioSelect(gen)) != 0 then Decode4e
    else Decode2e
  }

  /** No register but the strap register changed, and in it only the two SuperIO bits. */
  ghost predicate OnlySio(gen: Generation, a: Regs, b: Regs) {
    && SameButFor(Get(a, SCU + SioReg(gen)), Get(b, SCU + SioReg(gen)), SioBits(gen))
    && forall addr :: addr != SCU + SioReg(gen) ==> Get(a, addr) == Get(b, addr)
  }

  lemma OnlySioTrans(gen: Generation, a: Regs, b: Regs, c: Regs)
    requires OnlySio(gen, a, b) && OnlySio(gen, b, c)
    ensures OnlySio(gen, a, c)
  {
    hide SameButFor, Get;
    SameTrans(Get(a, SCU + SioReg(gen)), Get(b, SCU + SioReg(gen)), Get(c, SCU + SioReg(gen)), SioBits(gen));
  }

  lemma SioSets(gen: Generation, r: Regs, m: word)
    requires m == SioDisable(gen) || m == SioSelect(gen)
    ensures OnlySio(gen, r, AfterSet(gen, r, SioReg(gen), m))
    ensures var s := Get(AfterSet(gen, r, SioReg(gen), m), SCU + SioReg(gen));
            And(s, m) != 0
  {
    hide And, Or, Not, SameButFor, SubMask, SioBits, SioDisable, SioSelect;
    SioMasks(gen);
    var x := Get(r, SCU + SioReg(gen));
    SetWithin(x, m, SioBits(gen));
    SettingBits(x, m, 0);
  }

  lemma SioClears(gen: Generation, r: Regs, m: word, k: word)
    requires m == SioDisable(gen) || m == SioSelect(gen)
    requires Apart(m, k)
    ensures OnlySio(gen, r, AfterClear(r, SioReg(gen), m))
    ensures var s := Get(AfterClear(r, SioReg(gen), m), SCU + SioReg(gen));
            And(s, m) == 0 && And(s, k) == And(Get(r, SCU + SioReg(gen)), k)
  {
    hide And, Not, Or, SameButFor, SubMask, SioBits, SioDisable, SioSelect, AfterClear, Get, SioReg, Apart;
    SioMasks(gen);
    var x := Get(r, SCU + SioReg(gen));
    ClearWithin(x, m, SioBits(gen));
    ClearingBits(x, m, k);
    ClearPlaces(r, SioReg(gen), m);
  }

  lemma ClearPlaces(r: Regs, reg: nat, m: word)
    ensures Get(AfterClear(r, reg, m), SCU + reg) == And(Get(r, SCU + reg), Not(m))
    ensures forall addr :: addr != SCU + reg ==> Get(AfterClear(r, reg, m), addr) == Get(r, addr)
  {
    hide And, Not;
  }

  lemma SioVerdict(gen: Generation, r: Regs)
    ensures !WriteProtected(gen, r, SioReg(gen), SioBits(gen)) ==>
              && Verdict(gen, r, SioReg(gen), SioDisable(gen), SioDisable(gen)) == 0
              && Verdict(gen, r, SioReg(gen), SioSelect(gen), SioSelect(gen)) == 0
  {
    hide And, Or, SioDisable, SioSelect, SioBits, Get;
    SioMasks(gen);
    var p := Get(r, SCU + SioReg(gen) + 8);
    if gen == Ast2600 && And(p, SioBits(gen)) == 0 {
      ApartFromPart(p, SioBits(gen), SioDisable(gen));
      ApartFromPart(p, SioBits(gen), SioSelect(gen));
    }
    Complement(SioDisable(gen));
    Complement(SioSelect(gen));
  }

  lemma ApartFromPart(p: word, whole: word, part: word)
    requires And(p, whole) == 0 && SubMask(part, whole)
    ensures And(p, part) == 0
  {
  }

  lemma ProtectionStays(gen: Generation, a: Regs, b: Regs)
    requires OnlySio(gen, a, b)
    ensures WriteProtected(gen, a, SioReg(gen), SioBits(gen)) == WriteProtected(gen, b, SioReg(gen), SioBits(gen))
  {
    hide And, Get, SameButFor;
  }

  class SioCtl {
    const soc: Soc
    const strap: Strap

    constructor (soc: Soc, strap: Strap)
      requires strap.soc == soc
      ensures this.soc == soc && this.strap == strap && Valid()
    {
      this.soc, this.strap := soc, strap;
    }

    ghost predicate Valid() {
      strap.soc == soc
    }

    /** sioctl_decode_configure */
    method Configure(mode: Decode) returns (rc: int)
      requires Valid()
      modifies soc
      ensures rc <= 0
      ensures rc == 0 ==> SioDecode(soc.gen, soc.regs) == mode
      ensures soc.reliable && !WriteProtected(soc.gen, old(soc.regs), SioReg(soc.gen), SioBits(soc.gen)) ==> rc == 0
      ensures OnlySio(soc.gen, old(soc.regs), soc.regs)
    {
      hide And, Or, SubMask, SioDisable, SioSelect, SioBits, OnlySio, AfterSet, AfterClear, Verdict, WriteProtected,
        SioReg, Get, Apart;
      ghost var start := soc.regs;
      var reg, disable, select := SioReg(soc.gen), SioDisable(soc.gen), SioSelect(soc.gen);
      SioMasks(soc.gen);
      OnlySioSelf(soc.gen, start);
      SioVerdict(soc.gen, start);
      if mode == Disable {
        SioSets(soc.gen, start, disable);
        rc := strap.Set(reg, disable, disable);
        return;
      }
      if mode == Decode4e {
        SioSets(soc.gen, start, select);
        rc := strap.Set(reg, select, select);
        if rc < 0 {
          return;
        }
      } else {
        SioClears(soc.gen, start, select, disable);
        rc := strap.Clear(reg, select, select);
        if rc < 0 {
          return;
        }
      }
      ghost var mid := soc.regs;
      ProtectionStays(soc.gen, start, mid);
      SioVerdict(soc.gen, mid);
      SioClears(soc.gen, mid, disable, select);
      rc := strap.Clear(reg, disable, disable);
      OnlySioSelf(soc.gen, mid);
      OnlySioTrans(soc.gen, start, mid, soc.regs);
    }

    /** sioctl_decode_status */
    method Status() returns (rc: int, status: Decode)
      requires Valid()
      ensures rc <= 0 && (soc.reliable ==> rc == 0)
      ensures rc == 0 ==> status == SioDecode(soc.gen, soc.regs)
    {
      hide And, SioDisable, SioSelect;
      SioMasks(soc.gen);
      status := Disable;
      var strapping: word;
      rc, strapping := strap.Read(SioReg(soc.gen));
      if rc < 0 {
        return;
      }
      if And(strapping, SioDisable(soc.gen)) != 0 {
        return 0, Disable;
      }
      status := if And(strapping, SioSelect(soc.gen)) != 0 then Decode4e else Decode2e;
      rc := 0;
    }
  }

  lemma OnlySioSelf(gen: Generation, r: Regs)
    ensures OnlySio(gen, r, r)
  {
  }

  // ---- bridges.c ----

  datatype Gate = Gate(reg: nat, mask: word)

  /** The gates of a generation, by identifier. */
  function Gates(gen: Generation): seq<Gate> {
    match gen
    case Ast2400 => []
    case Ast2500 => [Gate(0x2c, 0x400)]
    case Ast2600 =>
      [Gate(0xd8, 0x8), Gate(0xc8, 0x2), Gate(0xc8, 0x1), Gate(0xc8, 0x4), Gate(0xc8, 0x100), Gate(0xd8, 0x2)]
  }

  const DEBUG_UART_GATE: int := 0
  const P2A_GATE: int := 2

  /** A gate is open while its bit is clear. */
  predicate Open(r: Regs, g: Gate) {
    And(Get(r, SCU + g.reg), g.mask) == 0
  }

  function WithGate(r: Regs, g: Gate, enable: bool): Regs {
    var v := Get(r, SCU + g.reg);
    r[SCU + g.reg := if enable then And(v, Not(g.mask)) else Or(v, g.mask)]
  }

  lemma GateObeys(r: Regs, g: Gate, enable: bool)
    requires g.mask != 0
    ensures Open(WithGate(r, g, enable), g) == enable
    ensures SameButFor(Get(r, SCU + g.reg), Get(WithGate(r, g, enable), SCU + g.reg), g.mask)
  {
    hide And, Or, Not, SubMask, SameButFor;
    var v := Get(r, SCU + g.reg);
    Complement(g.mask);
    SetWithin(v, g.mask, g.mask);
    ClearWithin(v, g.mask, g.mask);
    SettingBits(v, g.mask, 0);
    ClearingBits(v, g.mask, 0);
  }

  /** Gates of one generation do not share bits. */
  lemma GatesAreApart(gen: Generation, i: nat, j: nat)
    requires i < j < |Gates(gen)|
    ensures Gates(gen)[i].reg == Gates(gen)[j].reg ==> Apart(Gates(gen)[i].mask, Gates(gen)[j].mask)
    ensures Gates(gen)[i].mask != 0 && Gates(gen)[j].mask != 0
  {
  }

  class Bridges {
    const soc: Soc

    constructor (soc: Soc)
      ensures this.soc == soc
    {
      this.soc := soc;
    }

    /** bridges_configure */
    method Configure(bridge: int, enable: bool) returns (rc: int)
      modifies soc
      ensures rc <= 0 && (rc == 0 ==> 0 <= bridge < |Gates(soc.gen)|)
      ensures soc.reliable && 0 <= bridge < |Gates(soc.gen)| ==> rc == 0
      ensures rc == 0 ==> soc.regs == WithGate(old(soc.regs), Gates(soc.gen)[bridge], enable)
      ensures rc < 0 ==> soc.regs == old(soc.regs)
    {
      hide And, Or, Not;
      if bridge < 0 {
        return -EINVAL;
      }
      if bridge >= |Gates(soc.gen)| {
        return -EINVAL;
      }
      var desc := Gates(soc.gen)[bridge];
      var val: word;
      rc, val := soc.Readl(SCU + desc.reg);
      if rc < 0 {
        return;
      }
      val := if enable then And(val, Not(desc.mask)) else Or(val, desc.mask);
      rc := soc.Writel(SCU + desc.reg, val);
    }

    /** bridges_status: 1 for an open gate, 0 for a closed one. */
    method Status(bridge: int) returns (rc: int)
      ensures rc >= 0 ==>
                0 <= bridge < |Gates(soc.gen)| && rc == if Open(soc.regs, Gates(soc.gen)[bridge]) then 1 else 0
      ensures soc.reliable && 0 <= bridge < |Gates(soc.gen)| ==> rc >= 0
    {
      hide And;
      if bridge < 0 {
        return -EINVAL;
      }
      if bridge >= |Gates(soc.gen)| {
        return -EINVAL;
      }
      var desc := Gates(soc.gen)[bridge];
      var val: word;
      rc, val := soc.Readl(SCU + desc.reg);
      if rc < 0 {
        return;
      }
      rc := if And(val, desc.mask) == 0 then 1 else 0;
    }
  }

  // ---- ilpcctl.c ----

  /** What the registers say of the iLPC bridge. */
  function IlpcMode(gen: Generation, r: Regs, gate: Gate): Mode {
    if SioDecode(gen, r) == Disable then Disabled
    else if gen == Ast2600 && !Open(r, gate) then Disabled
    else if gen == Ast2600 && And(Get(r, LPC_HICRB), ILPC_DIS) != 0 then Disabled
    else if And(Get(r, LPC_HICRB), ILPC_RO) != 0 then Restricted
    else Permissive
  }

  /** The same bit by bit: on every generation a silent SuperIO disables the bridge, and on
      the AST2600 a closed gate or its disable bit do. */
  lemma IlpcInBits(gen: Generation, r: Regs, gate: Gate)
    ensures var strap := Get(r, if gen == Ast2600 then 0x1e6e_2510 else 0x1e6e_2070);
            var silent := And(strap, if gen == Ast2600 then 0x8 else 0x10_0000) != 0;
            var second := And(strap, if gen == Ast2600 then 0x4 else 0x1_0000) != 0;
            SioDecode(gen, r) == (if silent then Disable else if second then Decode4e else Decode2e)
    ensures var hicrb := Get(r, 0x1e78_9100);
            var closed := And(Get(r, 0x1e6e_2000 + gate.reg), gate.mask) != 0 || And(hicrb, 0x2000_0000) != 0;
            IlpcMode(gen, r, gate)
            == if SioDecode(gen, r) == Disable || (gen == Ast2600 && closed) then Disabled
               else if And(hicrb, 0x40) != 0 then Restricted
               else Permissive
  {
    hide And;
  }

  /** Closing its gate, or silencing the SuperIO, disables the bridge. */
  lemma ClosedIsDisabled(gen: Generation, r: Regs, gate: Gate)
    ensures SioDecode(gen, r) == Disable ==> IlpcMode(gen, r, gate) == Disabled
    ensures gen == Ast2600 && gate.mask != 0 ==> IlpcMode(gen, WithGate(r, gate, false), gate) == Disabled
  {
    if gate.mask != 0 {
      GateObeys(r, gate, false);
    }
    hide SioDecode, Open, WithGate, And;
  }

  /** The bits that enforcing a mode may change, register by register. */
  function IlpcBits(gen: Generation, gate: Gate, addr: nat): word {
    if addr == LPC_HICRB then Or(ILPC_DIS, ILPC_RO)
    else if addr == SCU + SioReg(gen) then SioBits(gen)
    else if gen == Ast2600 && addr == SCU + gate.reg then gate.mask
    else 0
  }

  ghost predicate OnlyIlpc(gen: Generation, gate: Gate, a: Regs, b: Regs) {
    forall addr :: SameButFor(Get(a, addr), Get(b, addr), IlpcBits(gen, gate, addr))
  }

  /** The new HICRB value. */
  function Hicrb(gen: Generation, v: word, mode: Mode): word {
    match mode
    case Permissive => if gen == Ast2600 then And(v, Not(Or(ILPC_DIS, ILPC_RO))) else And(v, Not(ILPC_RO))
    case Restricted => Or(if gen == Ast2600 then And(v, Not(ILPC_DIS)) else v, ILPC_RO)
    case Disabled => Or(v, ILPC_DIS)
  }

  lemma HicrbSays(gen: Generation, v: word, mode: Mode)
    ensures SameButFor(v, Hicrb(gen, v, mode), Or(ILPC_DIS, ILPC_RO))
    ensures mode != Disabled ==> (And(Hicrb(gen, v, mode), ILPC_RO) != 0 <==> mode == Restricted)
    ensures gen == Ast2600 ==> (And(Hicrb(gen, v, mode), ILPC_DIS) != 0 <==> mode == Disabled)
  {
    hide And, Or, Not, SubMask, SameButFor, Apart;
    HicrbMasks();
    var both := Or(ILPC_DIS, ILPC_RO);
    var enabled := if gen == Ast2600 then And(v, Not(ILPC_DIS)) else v;
    HicrbCleared(v, both);
    HicrbCleared(v, ILPC_RO);
    SetWithin(v, ILPC_DIS, both);
    SettingBits(v, ILPC_DIS, ILPC_RO);
    ClearWithin(v, ILPC_DIS, both);
    ClearingBits(v, ILPC_DIS, ILPC_RO);
    SetWithin(enabled, ILPC_RO, both);
    SettingBits(enabled, ILPC_RO, ILPC_DIS);
    SameSelf(v, both);
    SameTrans(v, enabled, Or(enabled, ILPC_RO), both);
  }

  lemma HicrbMasks()
    ensures var both := Or(ILPC_DIS, ILPC_RO);
            && ILPC_DIS != 0 && ILPC_RO != 0 && SubMask(ILPC_RO, ILPC_RO)
            && SubMask(ILPC_DIS, both) && SubMask(ILPC_RO, both) && SubMask(both, both)
            && Apart(ILPC_DIS, ILPC_RO) && Apart(ILPC_RO, ILPC_DIS)
  {
  }

  lemma HicrbCleared(v: word, m: word)
    requires SubMask(m, Or(ILPC_DIS, ILPC_RO))
    ensures SameButFor(v, And(v, Not(m)), Or(ILPC_DIS, ILPC_RO))
    ensures SubMask(ILPC_RO, m) ==> And(And(v, Not(m)), ILPC_RO) == 0
    ensures SubMask(ILPC_DIS, m) ==> And(And(v, Not(m)), ILPC_DIS) == 0
  {
    hide And, Or, Not, SubMask, SameButFor;
    ClearWithin(v, m, Or(ILPC_DIS, ILPC_RO));
    ClearingBits(v, m, 0);
    if SubMask(ILPC_RO, m) {
      ApartFromPart(And(v, Not(m)), m, ILPC_RO);
    }
    if SubMask(ILPC_DIS, m) {
      ApartFromPart(And(v, Not(m)), m, ILPC_DIS);
    }
  }

  lemma SameSelf(x: word, mask: word)
    ensures SameButFor(x, x, mask)
  {
  }

  lemma IlpcSelf(gen: Generation, gate: Gate, r: Regs)
    ensures OnlyIlpc(gen, gate, r, r)
  {
    hide And, Not, IlpcBits;
  }

  lemma IlpcTrans(gen: Generation, gate: Gate, a: Regs, b: Regs, c: Regs)
    requires OnlyIlpc(gen, gate, a, b) && OnlyIlpc(gen, gate, b, c)
    ensures OnlyIlpc(gen, gate, a, c)
  {
    hide SameButFor, Get, IlpcBits;
    forall addr: nat
      ensures SameButFor(Get(a, addr), Get(c, addr), IlpcBits(gen, gate, addr))
    {
      SameTrans(Get(a, addr), Get(b, addr), Get(c, addr), IlpcBits(gen, gate, addr));
    }
  }

  lemma SioIsIlpc(gen: Generation, gate: Gate, a: Regs, b: Regs)
    requires OnlySio(gen, a, b)
    ensures OnlyIlpc(gen, gate, a, b)
    ensures Get(b, LPC_HICRB) == Get(a, LPC_HICRB)
    ensures gate.reg != SioReg(gen) ==> Open(b, gate) == Open(a, gate)
    ensures WriteProtected(gen, b, SioReg(gen), SioBits(gen)) == WriteProtected(gen, a, SioReg(gen), SioBits(gen))
  {
    hide And, Not, Or, Get, SioBits, WriteProtected;
    ProtectionStays(gen, a, b);
  }

  lemma HicrbIsIlpc(gen: Generation, gate: Gate, a: Regs, mode: Mode)
    requires gate.reg < 0x1000
    ensures var b := a[LPC_HICRB := Hicrb(gen, Get(a, LPC_HICRB), mode)];
            && OnlyIlpc(gen, gate, a, b) && SioDecode(gen, b) == SioDecode(gen, a) && Open(b, gate) == Open(a, gate)
            && WriteProtected(gen, b, SioReg(gen), SioBits(gen)) == WriteProtected(gen, a, SioReg(gen), SioBits(gen))
            && (mode != Disabled ==> (And(Get(b, LPC_HICRB), ILPC_RO) != 0 <==> mode == Restricted))
            && (gen == Ast2600 ==> (And(Get(b, LPC_HICRB), ILPC_DIS) != 0 <==> mode == Disabled))
  {
    hide And, Not, Or, SioBits, Hicrb, SioDisable, SioSelect;
    HicrbSays(gen, Get(a, LPC_HICRB), mode);
  }

  lemma GateIsIlpc(gate: int, a: Regs)
    requires 0 <= gate < |Gates(Ast2600)|
    ensures var g := Gates(Ast2600)[gate];
            var b := WithGate(a, g, true);
            && OnlyIlpc(Ast2600, g, a, b) && Open(b, g) && Get(b, LPC_HICRB) == Get(a, LPC_HICRB)
            && WriteProtected(Ast2600, b, 0x510, SioBits(Ast2600))
               == WriteProtected(Ast2600, a, 0x510, SioBits(Ast2600))
  {
    var g := Gates(Ast2600)[gate];
    GatePlaces(gate);
    GateObeys(a, g, true);
    GateElsewhere(a, g, true);
    hide And, Not, Or, SioBits, Gates;
    hide WithGate;
  }

  lemma GateElsewhere(r: Regs, g: Gate, enable: bool)
    ensures forall addr :: addr != SCU + g.reg ==> Get(WithGate(r, g, enable), addr) == Get(r, addr)
  {
    hide And, Or, Not;
  }

  lemma GatePlaces(gate: int)
    requires 0 <= gate < |Gates(Ast2600)|
    ensures Gates(Ast2600)[gate].reg in {0xc8, 0xd8} && Gates(Ast2600)[gate].mask != 0
  {
  }

  class IlpcCtl {
    const soc: Soc
    const sioctl: SioCtl
    const bridges: Bridges
    const gate: int

    constructor (soc: Soc, sioctl: SioCtl, bridges: Bridges, gate: int)
      requires sioctl.soc == soc && sioctl.Valid() && bridges.soc == soc
      requires soc.gen == Ast2600 ==> 0 <= gate < |Gates(soc.gen)|
      ensures this.soc == soc && this.gate == gate && Valid()
    {
      this.soc, this.sioctl, this.bridges, this.gate := soc, sioctl, bridges, gate;
    }

    ghost predicate Valid() {
      && sioctl.soc == soc && sioctl.Valid() && bridges.soc == soc
      && (soc.gen == Ast2600 ==> 0 <= gate < |Gates(soc.gen)|)
    }

    function MyGate(): Gate {
      if 0 <= gate < |Gates(soc.gen)| then Gates(soc.gen)[gate] else Gate(0, 0)
    }

    lemma PlainGate()
      ensures MyGate().reg < 0x1000
    {
    }

    /** ilpcctl's enforce: once it returns 0, the bridge is in that mode. */
    method Enforce(mode: Mode) returns (rc: int)
      requires Valid()
      modifies soc
      ensures rc <= 0
      ensures rc == 0 ==> IlpcMode(soc.gen, soc.regs, MyGate()) == mode
      ensures soc.reliable && !WriteProtected(soc.gen, old(soc.regs), SioReg(soc.gen), SioBits(soc.gen)) ==> rc == 0
      ensures OnlyIlpc(soc.gen, MyGate(), old(soc.regs), soc.regs)
    {
      if soc.gen == Ast2600 {
        rc := Enforce2600(mode);
      } else {
        rc := Enforce2400(mode);
      }
    }

    /** The read-modify-write of HICRB. */
    method SetHicrb(mode: Mode) returns (rc: int)
      requires Valid()
      modifies soc
      ensures rc <= 0 && (soc.reliable ==> rc == 0)
      ensures rc < 0 ==> soc.regs == old(soc.regs)
      ensures rc == 0 ==> soc.regs == old(soc.regs)[LPC_HICRB := Hicrb(soc.gen, Get(old(soc.regs), LPC_HICRB), mode)]
    {
      hide And, Or, Not, Hicrb;
      var hicrb: word;
      rc, hicrb := soc.Readl(LPC_HICRB);
      if rc < 0 {
        return;
      }
      rc := soc.Writel(LPC_HICRB, Hicrb(soc.gen, hicrb, mode));
    }

    /** ast2400_ilpcctl_enforce, which the AST2500 shares */
    method Enforce2400(mode: Mode) returns (rc: int)
      requires Valid() && soc.gen != Ast2600
      modifies soc
      ensures rc <= 0
      ensures rc == 0 ==> IlpcMode(soc.gen, soc.regs, MyGate()) == mode
      ensures soc.reliable && !WriteProtected(soc.gen, old(soc.regs), SioReg(soc.gen), SioBits(soc.gen)) ==> rc == 0
      ensures OnlyIlpc(soc.gen, MyGate(), old(soc.regs), soc.regs)
    {
      PlainGate();
      hide And, Or, Not, Hicrb, SioDecode, OnlySio, SameButFor, SioBits, WriteProtected, Get, OnlyIlpc, MyGate;
      ghost var start := soc.regs;
      if mode == Disabled {
        rc := sioctl.Configure(Disable);
        SioIsIlpc(soc.gen, MyGate(), start, soc.regs);
        return;
      }
      rc := SetHicrb(mode);
      ghost var mid := soc.regs;
      HicrbIsIlpc(soc.gen, MyGate(), start, mode);
      IlpcSelf(soc.gen, MyGate(), start);
      if rc < 0 {
        return;
      }
      rc := sioctl.Configure(Decode2e);
      SioIsIlpc(soc.gen, MyGate(), mid, soc.regs);
      IlpcTrans(soc.gen, MyGate(), start, mid, soc.regs);
    }

    /** ast2600_ilpcctl_enforce */
    method Enforce2600(mode: Mode) returns (rc: int)
      requires Valid() && soc.gen == Ast2600
      modifies soc
      ensures rc <= 0
      ensures rc == 0 ==> IlpcMode(soc.gen, soc.regs, MyGate()) == mode
      ensures soc.reliable && !WriteProtected(soc.gen, old(soc.regs), SioReg(soc.gen), SioBits(soc.gen)) ==> rc == 0
      ensures OnlyIlpc(soc.gen, MyGate(), old(soc.regs), soc.regs)
    {
      GatePlaces(gate);
      hide And, Or, Not, Hicrb, SioDecode, OnlySio, SameButFor, SioBits, WriteProtected, Get, OnlyIlpc,
        Gates, Open, WithGate;
      ghost var start := soc.regs;
      rc := SetHicrb(mode);
      ghost var mid := soc.regs;
      HicrbIsIlpc(soc.gen, MyGate(), start, mode);
      IlpcSelf(soc.gen, MyGate(), start);
      if rc < 0 {
        return;
      }
      if mode == Permissive || mode == Restricted {
        rc := bridges.Configure(gate, true);
        if rc < 0 {
          return;
        }
        ghost var ungated := soc.regs;
        GateIsIlpc(gate, mid);
        IlpcTrans(soc.gen, MyGate(), start, mid, ungated);
        rc := sioctl.Configure(Decode2e);
        SioIsIlpc(soc.gen, MyGate(), ungated, soc.regs);
        IlpcTrans(soc.gen, MyGate(), start, ungated, soc.regs);
      }
    }

    /** ilpcctl's status */
    method Status() returns (rc: int, mode: Mode)
      requires Valid()
      ensures rc <= 0 && (soc.reliable ==> rc == 0)
      ensures rc == 0 ==> mode == IlpcMode(soc.gen, soc.regs, MyGate())
      ensures rc == 0 ==>
                (mode == Disabled <==>
                   || SioDecode(soc.gen, soc.regs) == Disable
                   || (soc.gen == Ast2600 &&
                         (!Open(soc.regs, MyGate()) || And(Get(soc.regs, LPC_HICRB), 0x2000_0000) != 0)))
    {
      hide And, SioDecode, Gates, Open;
      mode := Disabled;
      var decode: Decode;
      rc, decode := sioctl.Status();
      if rc < 0 || decode == Disable {
        return;
      }
      if soc.gen == Ast2600 {
        rc := bridges.Status(gate);
        if rc < 0 {
          return;
        } else if rc == 0 {
          return 0, Disabled;
        }
      }
      var hicrb: word;
      rc, hicrb := soc.Readl(LPC_HICRB);
      if rc < 0 {
        return;
      }
      if soc.gen == Ast2600 && And(hicrb, ILPC_DIS) != 0 {
        return 0, Disabled;
      }
      mode := if And(hicrb, ILPC_RO) != 0 then Restricted else Permissive;
      rc := 0;
    }

    /** The status after the bridge's gate has been closed. */
    method GateThenStatus() returns (rc: int, seen: int, mode: Mode)
      requires Valid() && soc.gen == Ast2600
      modifies soc
      ensures rc == 0 && seen == 0 ==> mode == Disabled
      ensures soc.reliable ==> rc == 0 && seen == 0
    {
      GatePlaces(gate);
      ClosedIsDisabled(soc.gen, soc.regs, MyGate());
      hide IlpcMode, WithGate, Gates;
      rc := bridges.Configure(gate, false);
      seen, mode := Status();
    }

    /** The status after the SuperIO has been told not to answer. */
    method SilenceThenStatus() returns (rc: int, seen: int, mode: Mode)
      requires Valid()
      modifies soc
      ensures rc == 0 && seen == 0 ==> mode == Disabled
    {
      rc := sioctl.Configure(Disable);
      ClosedIsDisabled(soc.gen, soc.regs, MyGate());
      seen, mode := Status();
    }
  }
}
