/** src/soc/pciectl.c: who may use the P2A bridge. */
module PcieControl {
  import opened Words
  import opened Straps
  import opened BridgeControl

  datatype Function = Mmio | Xdma

  /** A function of a PCIe device: its enable bits and, on the AST2600, its bridge gate. */
  datatype Endpoint = Endpoint(kind: Function, device: word, func: word, gate: int) {
    function Enables(): word {
      Or(device, func)
    }
  }

  function Misc(gen: Generation): nat {
    SCU + if gen == Ast2600 then 0xc0 else 0x2c
  }

  function Config(gen: Generation): nat {
    SCU + if gen == Ast2600 then 0xc20 else 0x180
  }

  /** The write-protect bits of all regions. */
  function RegionMask(regions: seq<word>): word {
    if regions == [] then 0 else Or(RegionMask(regions[..|regions| - 1]), regions[|regions| - 1])
  }

  predicate GateValid(gen: Generation, e: Endpoint) {
    gen == Ast2600 ==> 0 <= e.gate < |Gates(Ast2600)|
  }

  function GateOf(e: Endpoint): Gate
    requires GateValid(Ast2600, e)
  {
    Gates(Ast2600)[e.gate]
  }

  // ---- what the registers say ----

  function EndpointMode(gen: Generation, r: Regs, e: Endpoint, mask: word): Mode
    requires GateValid(gen, e)
  {
    if gen == Ast2600 && !Open(r, GateOf(e)) then Disabled
    else if And(Get(r, Config(gen)), e.Enables()) != e.Enables() then Disabled
    else if mask == 0 then Permissive
    else if And(Get(r, Misc(gen)), mask) == mask then Restricted
    else Permissive
  }

  function Weaker(a: Mode, b: Mode): Mode {
    if a == Permissive || b == Permissive then Permissive
    else if a == Restricted || b == Restricted then Restricted
    else Disabled
  }

  /** The bridge is as open as its most open MMIO endpoint. */
  function P2aMode(gen: Generation, r: Regs, es: seq<Endpoint>, mask: word): Mode
    requires forall e :: e in es ==> GateValid(gen, e)
  {
    if es == [] then Disabled
    else
      var n := |es| - 1;
      var rest := P2aMode(gen, r, es[..n], mask);
      if es[n].kind != Mmio then rest else Weaker(EndpointMode(gen, r, es[n], mask), rest)
  }

  ghost predicate SomeMmio(gen: Generation, r: Regs, es: seq<Endpoint>, mask: word, mode: Mode)
    requires forall e :: e in es ==> GateValid(gen, e)
  {
    exists e :: e in es && e.kind == Mmio && EndpointMode(gen, r, e, mask) == mode
  }

  /** The most open mode of the MMIO endpoints. */
  lemma {:induction false} MostOpen(gen: Generation, r: Regs, es: seq<Endpoint>, mask: word)
    requires forall e :: e in es ==> GateValid(gen, e)
    ensures var mode := P2aMode(gen, r, es, mask);
            && (mode == Permissive <==> SomeMmio(gen, r, es, mask, Permissive))
            && (mode == Disabled <==>
                  !SomeMmio(gen, r, es, mask, Permissive) && !SomeMmio(gen, r, es, mask, Restricted))
    decreases |es|
  {
    hide EndpointMode, GateValid;
    if es != [] {
      var n := |es| - 1;
      assert es == es[..n] + [es[n]];
      MostOpen(gen, r, es[..n], mask);
      MoreEndpoints(gen, r, es, mask, Permissive);
      MoreEndpoints(gen, r, es, mask, Restricted);
    }
  }

  lemma MoreEndpoints(gen: Generation, r: Regs, es: seq<Endpoint>, mask: word, mode: Mode)
    requires es != [] && forall e :: e in es ==> GateValid(gen, e)
    ensures var n := |es| - 1;
            SomeMmio(gen, r, es, mask, mode) <==>
            SomeMmio(gen, r, es[..n], mask, mode) ||
            (es[n].kind == Mmio && EndpointMode(gen, r, es[n], mask) == mode)
  {
    hide EndpointMode, GateValid;
    var n := |es| - 1;
    assert es == es[..n] + [es[n]];
    assert es[n] in es;
  }

  // ---- what enforcing does ----

  function Enforced(gen: Generation, r: Regs, e: Endpoint, mask: word, mode: Mode): Regs
    requires GateValid(gen, e)
  {
    var config := Get(r, Config(gen));
    if mode == Disabled then r[Config(gen) := And(config, Not(e.func))]
    else if mask == 0 then r
    else if gen == Ast2600 then WithGate(Filtered(gen, r, e, mask, mode), GateOf(e), true)
    else Filtered(gen, r, e, mask, mode)
  }

  /** The region filters of a mode. */
  function Masked(misc: word, mask: word, mode: Mode): word {
    if mode == Restricted then Or(misc, mask) else And(misc, Not(mask))
  }

  function Filtered(gen: Generation, r: Regs, e: Endpoint, mask: word, mode: Mode): Regs {
    var config, misc := Get(r, Config(gen)), Get(r, Misc(gen));
    r[Misc(gen) := Masked(misc, mask, mode)][Config(gen) := Or(config, e.Enables())]
  }

  function EnforcedAll(gen: Generation, r: Regs, es: seq<Endpoint>, mask: word, mode: Mode): Regs
    requires forall e :: e in es ==> GateValid(gen, e)
  {
    if es == [] then r
    else
      var n := |es| - 1;
      var before := EnforcedAll(gen, r, es[..n], mask, mode);
      if es[n].kind != Mmio then before else Enforced(gen, before, es[n], mask, mode)
  }

  /** The registers grant one endpoint what the mode says, whatever happens to others. */
  ghost predicate Settled(gen: Generation, r: Regs, e: Endpoint, mask: word, mode: Mode)
    requires GateValid(gen, e)
  {
    if mode == Disabled then And(Get(r, Config(gen)), e.func) == 0
    else
      && (gen == Ast2600 ==> Open(r, GateOf(e)))
      && And(Get(r, Config(gen)), e.Enables()) == e.Enables()
      && And(Get(r, Misc(gen)), mask) == if mode == Restricted then mask else 0
  }

  lemma PartOfEnables(x: word, e: Endpoint)
    ensures And(x, e.func) == 0 && e.func != 0 ==> And(x, e.Enables()) != e.Enables()
  {
  }

  lemma SettledSays(gen: Generation, r: Regs, e: Endpoint, mask: word, mode: Mode)
    requires GateValid(gen, e) && Settled(gen, r, e, mask, mode) && mask != 0 && e.func != 0
    ensures EndpointMode(gen, r, e, mask) == mode
  {
    PartOfEnables(Get(r, Config(gen)), e);
    hide And, Or, Get, Open, Endpoint.Enables;
  }

  lemma MoreBitsCleared(x: word, m: word, k: word)
    ensures And(And(x, Not(m)), m) == 0
    ensures And(x, k) == 0 ==> And(And(x, Not(m)), k) == 0
  {
  }

  lemma MoreBitsSet(x: word, m: word, k: word)
    ensures And(Or(x, m), m) == m
    ensures And(x, k) == k ==> And(Or(x, m), k) == k
  {
  }

  /** Enforcing the same mode on another endpoint keeps an endpoint settled, and settles
      the one it is for. */
  lemma EnforcedSettles(gen: Generation, r: Regs, e: Endpoint, d: Endpoint, mask: word, mode: Mode)
    requires GateValid(gen, e) && GateValid(gen, d) && mask != 0
    requires d == e || Settled(gen, r, d, mask, mode)
    ensures Settled(gen, Enforced(gen, r, e, mask, mode), d, mask, mode)
  {
    hide And, Or, Not, Open, Endpoint.Enables, Gates;
    var config, misc := Get(r, Config(gen)), Get(r, Misc(gen));
    if mode == Disabled {
      MoreBitsCleared(config, e.func, d.func);
    } else {
      MoreBitsSet(config, e.Enables(), d.Enables());
      MoreBitsSet(misc, mask, mask);
      MoreBitsCleared(misc, mask, mask);
      if gen == Ast2600 {
        OtherGateStaysOpen(r, e, d, mask, mode);
      }
    }
  }

  lemma OtherGateStaysOpen(r: Regs, e: Endpoint, d: Endpoint, mask: word, mode: Mode)
    requires GateValid(Ast2600, e) && GateValid(Ast2600, d) && mask != 0 && mode != Disabled
    requires d == e || Open(r, GateOf(d))
    ensures var b := Enforced(Ast2600, r, e, mask, mode);
            && Open(b, GateOf(d))
            && Get(b, Config(Ast2600)) == Or(Get(r, Config(Ast2600)), e.Enables())
            && Get(b, Misc(Ast2600)) == Masked(Get(r, Misc(Ast2600)), mask, mode)
  {
    GatePlaces(e.gate);
    GatePlaces(d.gate);
    hide And, Or, Not, Endpoint.Enables, Gates, Filtered, WithGate, Get, RegionMask;
    var g, h := GateOf(e), GateOf(d);
    var enabled := Filtered(Ast2600, r, e, mask, mode);
    FilteredPlaces(Ast2600, r, e, mask, mode);
    GateElsewhere(enabled, g, true);
    GateThere(enabled, g);
    GateThere(enabled, h);
    MoreBitsCleared(Get(enabled, SCU + g.reg), g.mask, h.mask);
    hide GateOf;
  }

  lemma GateThere(r: Regs, g: Gate)
    ensures Get(WithGate(r, g, true), SCU + g.reg) == And(Get(r, SCU + g.reg), Not(g.mask))
  {
    hide And, Or, Not;
  }

  lemma FilteredPlaces(gen: Generation, r: Regs, e: Endpoint, mask: word, mode: Mode)
    ensures var b := Filtered(gen, r, e, mask, mode);
            && Get(b, Config(gen)) == Or(Get(r, Config(gen)), e.Enables())
            && Get(b, Misc(gen)) == Masked(Get(r, Misc(gen)), mask, mode)
            && forall addr :: addr != Config(gen) && addr != Misc(gen) ==> Get(b, addr) == Get(r, addr)
  {
    hide And, Or, Not, Endpoint.Enables;
  }

  /** After enforcing a mode on all endpoints each MMIO endpoint is settled. */
  lemma {:induction false} AllSettled(gen: Generation, r: Regs, es: seq<Endpoint>, mask: word, mode: Mode, d: Endpoint)
    requires forall e :: e in es ==> GateValid(gen, e)
    requires d in es && d.kind == Mmio && mask != 0
    ensures Settled(gen, EnforcedAll(gen, r, es, mask, mode), d, mask, mode)
    decreases |es|
  {
    hide Settled, Enforced, GateValid;
    var n := |es| - 1;
    var before := EnforcedAll(gen, r, es[..n], mask, mode);
    assert es == es[..n] + [es[n]];
    if es[n] != d {
      AllSettled(gen, r, es[..n], mask, mode, d);
    }
    if es[n].kind == Mmio {
      EnforcedSettles(gen, before, es[n], d, mask, mode);
    }
  }

  lemma {:induction false} SettledTogether(gen: Generation, r: Regs, es: seq<Endpoint>, mask: word, mode: Mode)
    requires forall e :: e in es ==> GateValid(gen, e)
    requires forall e :: e in es && e.kind == Mmio ==> Settled(gen, r, e, mask, mode) && e.func != 0
    requires mask != 0
    ensures P2aMode(gen, r, es, mask) == if exists e :: e in es && e.kind == Mmio then mode else Disabled
    decreases |es|
  {
    hide Settled, GateValid, EndpointMode;
    if es != [] {
      var n := |es| - 1;
      assert es == es[..n] + [es[n]];
      SettledTogether(gen, r, es[..n], mask, mode);
      if es[n].kind == Mmio {
        SettledSays(gen, r, es[n], mask, mode);
      }
      assert es[n] in es;
    }
  }

  /** The main result: after enforcing a mode the status is that mode, for any endpoint
      list with an MMIO endpoint and any region table that protects something. */
  lemma EnforceThenStatus(gen: Generation, r: Regs, es: seq<Endpoint>, regions: seq<word>, mode: Mode)
    requires forall e :: e in es ==> GateValid(gen, e) && (e.kind == Mmio ==> e.func != 0)
    requires exists e :: e in es && e.kind == Mmio
    requires RegionMask(regions) != 0
    ensures var mask := RegionMask(regions);
            P2aMode(gen, EnforcedAll(gen, r, es, mask, mode), es, mask) == mode
  {
    hide Settled, GateValid, EndpointMode, RegionMask;
    var mask := RegionMask(regions);
    var b := EnforcedAll(gen, r, es, mask, mode);
    forall e | e in es && e.kind == Mmio
      ensures Settled(gen, b, e, mask, mode)
    {
      AllSettled(gen, r, es, mask, mode, e);
    }
    SettledTogether(gen, b, es, mask, mode);
  }

  // ---- what stays as it was ----

  /** The bits enforcing may change, register by register. */
  function P2aBits(gen: Generation, es: seq<Endpoint>, mask: word, addr: nat): word {
    if addr == Misc(gen) then mask
    else if addr == Config(gen) then AllEnables(es)
    else if gen == Ast2600 && addr == SCU + 0xc8 then 0x107
    else if gen == Ast2600 && addr == SCU + 0xd8 then 0xa
    else 0
  }

  function AllEnables(es: seq<Endpoint>): word {
    if es == [] then 0 else Or(AllEnables(es[..|es| - 1]), es[|es| - 1].Enables())
  }

  ghost predicate OnlyP2a(gen: Generation, es: seq<Endpoint>, mask: word, a: Regs, b: Regs) {
    forall addr :: SameButFor(Get(a, addr), Get(b, addr), P2aBits(gen, es, mask, addr))
  }

  lemma P2aSelf(gen: Generation, es: seq<Endpoint>, mask: word, r: Regs)
    ensures OnlyP2a(gen, es, mask, r, r)
  {
    hide And, Not, P2aBits;
  }

  lemma P2aTrans(gen: Generation, es: seq<Endpoint>, mask: word, a: Regs, b: Regs, c: Regs)
    requires OnlyP2a(gen, es, mask, a, b) && OnlyP2a(gen, es, mask, b, c)
    ensures OnlyP2a(gen, es, mask, a, c)
  {
    hide SameButFor, Get, P2aBits;
    forall addr: nat
      ensures SameButFor(Get(a, addr), Get(c, addr), P2aBits(gen, es, mask, addr))
    {
      SameTrans(Get(a, addr), Get(b, addr), Get(c, addr), P2aBits(gen, es, mask, addr));
    }
  }

  /** One register write is enough to look at where it lands. */
  lemma P2aWrite(gen: Generation, es: seq<Endpoint>, mask: word, r: Regs, addr: nat, v: word)
    requires SameButFor(Get(r, addr), v, P2aBits(gen, es, mask, addr))
    ensures OnlyP2a(gen, es, mask, r, r[addr := v])
  {
    hide And, Not, P2aBits;
  }

  lemma SubMaskWidens(part: word, whole: word, more: word)
    requires SubMask(part, whole)
    ensures SubMask(part, Or(whole, more))
  {
  }

  lemma SubMaskOr(d: word, f: word, rest: word)
    ensures SubMask(Or(d, f), Or(rest, Or(d, f))) && SubMask(f, Or(rest, Or(d, f)))
  {
  }

  lemma {:induction false} EnablesWithin(es: seq<Endpoint>, e: Endpoint)
    requires e in es
    ensures SubMask(e.Enables(), AllEnables(es)) && SubMask(e.func, AllEnables(es))
    decreases |es|
  {
    hide SubMask, Or;
    var n := |es| - 1;
    if es[n] == e {
      SubMaskOr(e.device, e.func, AllEnables(es[..n]));
    } else {
      EnablesWithin(es[..n], e);
      SubMaskWidens(e.Enables(), AllEnables(es[..n]), es[n].Enables());
      SubMaskWidens(e.func, AllEnables(es[..n]), es[n].Enables());
    }
  }

  lemma GateWithin(gen: Generation, es: seq<Endpoint>, mask: word, r: Regs, gate: int)
    requires gen == Ast2600 && 0 <= gate < |Gates(gen)|
    ensures OnlyP2a(gen, es, mask, r, WithGate(r, Gates(gen)[gate], true))
  {
    hide And, Not, Or, SubMask, SameButFor, Gates;
    var g := Gates(gen)[gate];
    GateMasks(gate);
    ClearWithin(Get(r, SCU + g.reg), g.mask, if g.reg == 0xc8 then 0x107 else 0xa);
    P2aWrite(gen, es, mask, r, SCU + g.reg, And(Get(r, SCU + g.reg), Not(g.mask)));
  }

  lemma GateMasks(gate: int)
    requires 0 <= gate < |Gates(Ast2600)|
    ensures var g := Gates(Ast2600)[gate];
            (g.reg == 0xc8 && SubMask(g.mask, 0x107)) || (g.reg == 0xd8 && SubMask(g.mask, 0xa))
  {
  }

  lemma ConfigWithin(gen: Generation, es: seq<Endpoint>, mask: word, r: Regs, e: Endpoint, config: word)
    requires e in es && config == Get(r, Config(gen))
    ensures OnlyP2a(gen, es, mask, r, r[Config(gen) := And(config, Not(e.func))])
    ensures OnlyP2a(gen, es, mask, r, r[Config(gen) := Or(config, e.Enables())])
  {
    hide And, Not, Or, SubMask, SameButFor, Endpoint.Enables;
    EnablesWithin(es, e);
    ClearWithin(config, e.func, AllEnables(es));
    SetWithin(config, e.Enables(), AllEnables(es));
    P2aWrite(gen, es, mask, r, Config(gen), And(config, Not(e.func)));
    P2aWrite(gen, es, mask, r, Config(gen), Or(config, e.Enables()));
  }

  lemma MiscWithin(gen: Generation, es: seq<Endpoint>, mask: word, r: Regs, misc: word)
    requires misc == Get(r, Misc(gen))
    ensures OnlyP2a(gen, es, mask, r, r[Misc(gen) := Or(misc, mask)])
    ensures OnlyP2a(gen, es, mask, r, r[Misc(gen) := And(misc, Not(mask))])
  {
    hide And, Not, Or, SubMask, SameButFor;
    Complement(mask);
    SetWithin(misc, mask, mask);
    ClearWithin(misc, mask, mask);
    P2aWrite(gen, es, mask, r, Misc(gen), Or(misc, mask));
    P2aWrite(gen, es, mask, r, Misc(gen), And(misc, Not(mask)));
  }

  /** Neither register is one of the special ones, and they are two. */
  lemma PlainRegisters(gen: Generation, r: Regs, e: Endpoint, mask: word, mode: Mode)
    ensures forall v :: Stored(gen, r, Config(gen), v) == r[Config(gen) := v]
    ensures var filtered := r[Misc(gen) := Masked(Get(r, Misc(gen)), mask, mode)];
            && Get(filtered, Config(gen)) == Get(r, Config(gen))
            && filtered[Config(gen) := Or(Get(r, Config(gen)), e.Enables())] == Filtered(gen, r, e, mask, mode)
  {
    hide And, Or, Not, Endpoint.Enables, Masked;
  }

  class PcieCtl {
    const soc: Soc
    const bridges: Bridges
    const endpoints: seq<Endpoint>
    const regions: seq<word>

    constructor (soc: Soc, bridges: Bridges, endpoints: seq<Endpoint>, regions: seq<word>)
      requires bridges.soc == soc && forall e :: e in endpoints ==> GateValid(soc.gen, e)
      ensures this.soc == soc && this.endpoints == endpoints && this.regions == regions && Valid()
    {
      this.soc, this.bridges, this.endpoints, this.regions := soc, bridges, endpoints, regions;
    }

    ghost predicate Valid() {
      bridges.soc == soc && forall e :: e in endpoints ==> GateValid(soc.gen, e)
    }

    /** pciectl_pdata_collect_region_mask */
    method CollectRegionMask(e: Endpoint) returns (mask: word)
      ensures mask == if e.kind == Mmio then RegionMask(regions) else 0
    {
      hide Or;
      mask := 0;
      if e.kind != Mmio {
        return;
      }
      for i := 0 to |regions|
        invariant mask == RegionMask(regions[..i])
      {
        assert regions[..i + 1][..i] == regions[..i];
        mask := Or(mask, regions[i]);
      }
      assert regions[..|regions|] == regions;
    }

    /** pciectl_device_enforce */
    method DeviceEnforce(e: Endpoint, mode: Mode) returns (rc: int)
      requires Valid() && e in endpoints && e.kind == Mmio
      modifies soc
      ensures rc <= 0
      ensures soc.reliable ==> rc == 0 && soc.regs == Enforced(soc.gen, old(soc.regs), e, RegionMask(regions), mode)
      ensures OnlyP2a(soc.gen, endpoints, RegionMask(regions), old(soc.regs), soc.regs)
    {
      hide And, Or, Not, OnlyP2a, RegionMask, Endpoint.Enables, Masked, Filtered, WithGate, Gates, Open, Get, Stored,
        Config, Misc;
      ghost var start, all := soc.regs, RegionMask(regions);
      P2aSelf(soc.gen, endpoints, all, start);
      PlainRegisters(soc.gen, start, e, all, mode);
      var pcie: word, misc: word;
      rc, pcie := soc.Readl(Config(soc.gen));
      if rc < 0 {
        return;
      }
      if mode == Disabled {
        ConfigWithin(soc.gen, endpoints, all, start, e, pcie);
        rc := soc.Writel(Config(soc.gen), And(pcie, Not(e.func)));
        return;
      }
      rc, misc := soc.Readl(Misc(soc.gen));
      if rc < 0 {
        return;
      }
      var mask := CollectRegionMask(e);
      if mask == 0 {
        return 0;
      }
      rc := Filter(misc, mask, mode);
      if rc < 0 {
        return;
      }
      rc := Enable(e, pcie, start, mode);
    }

    /** The second half of pciectl_device_enforce: the regions' write protection. */
    method Filter(misc: word, mask: word, mode: Mode) returns (rc: int)
      requires mask == RegionMask(regions) && misc == Get(soc.regs, Misc(soc.gen)) && mode != Disabled
      modifies soc
      ensures rc <= 0 && (soc.reliable ==> rc == 0)
      ensures rc < 0 ==> soc.regs == old(soc.regs)
      ensures rc == 0 ==> soc.regs == old(soc.regs)[Misc(soc.gen) := Masked(misc, mask, mode)]
      ensures OnlyP2a(soc.gen, endpoints, mask, old(soc.regs), soc.regs)
    {
      hide And, Or, Not, OnlyP2a, RegionMask;
      P2aSelf(soc.gen, endpoints, mask, soc.regs);
      MiscWithin(soc.gen, endpoints, mask, soc.regs, misc);
      rc := soc.Writel(Misc(soc.gen), if mode == Restricted then Or(misc, mask) else And(misc, Not(mask)));
    }

    /** The last part: enable the device and its function, and open the gate. */
    method Enable(e: Endpoint, pcie: word, ghost start: Regs, mode: Mode) returns (rc: int)
      requires Valid() && e in endpoints && mode != Disabled && RegionMask(regions) != 0
      requires pcie == Get(start, Config(soc.gen)) == Get(soc.regs, Config(soc.gen))
      requires OnlyP2a(soc.gen, endpoints, RegionMask(regions), start, soc.regs)
      requires soc.reliable ==>
                 soc.regs[Config(soc.gen) := Or(pcie, e.Enables())]
                 == Filtered(soc.gen, start, e, RegionMask(regions), mode)
      modifies soc
      ensures rc <= 0
      ensures soc.reliable ==> rc == 0 && soc.regs == Enforced(soc.gen, start, e, RegionMask(regions), mode)
      ensures OnlyP2a(soc.gen, endpoints, RegionMask(regions), start, soc.regs)
    {
      hide And, Or, Not, OnlyP2a, RegionMask, Endpoint.Enables, Filtered, WithGate, Gates, Get;
      ghost var all, mid := RegionMask(regions), soc.regs;
      ConfigWithin(soc.gen, endpoints, all, mid, e, pcie);
      P2aSelf(soc.gen, endpoints, all, mid);
      rc := soc.Writel(Config(soc.gen), Or(pcie, e.Enables()));
      ghost var enabled := soc.regs;
      P2aTrans(soc.gen, endpoints, all, start, mid, enabled);
      if soc.gen == Ast2600 {
        rc := 0;  // the gate's name resolves
        var ignored := bridges.Configure(e.gate, true);
        GateWithin(soc.gen, endpoints, all, enabled, e.gate);
        P2aSelf(soc.gen, endpoints, all, enabled);
        P2aTrans(soc.gen, endpoints, all, start, enabled, soc.regs);
      }
    }

    /** pciectl_enforce for MMIO, that is p2actl_enforce. */
    method Enforce(mode: Mode) returns (rc: int)
      requires Valid()
      modifies soc
      ensures rc <= 0 && (soc.reliable ==> rc == 0)
      ensures soc.reliable && Enforceable() ==> P2aMode(soc.gen, soc.regs, endpoints, RegionMask(regions)) == mode
      ensures OnlyP2a(soc.gen, endpoints, RegionMask(regions), old(soc.regs), soc.regs)
    {
      hide OnlyP2a, RegionMask, Enforced, P2aMode;
      ghost var start, all := soc.regs, RegionMask(regions);
      P2aSelf(soc.gen, endpoints, all, start);
      rc := 0;
      for i := 0 to |endpoints|
        invariant rc == 0 && OnlyP2a(soc.gen, endpoints, all, start, soc.regs)
        invariant soc.reliable ==> soc.regs == EnforcedAll(soc.gen, start, endpoints[..i], all, mode)
      {
        var e := endpoints[i];
        assert endpoints[..i + 1][..i] == endpoints[..i];
        if e.kind != Mmio {
          continue;
        }
        ghost var before := soc.regs;
        rc := DeviceEnforce(e, mode);
        P2aTrans(soc.gen, endpoints, all, start, before, soc.regs);
        if rc < 0 {
          return;
        }
      }
      assert endpoints[..|endpoints|] == endpoints;
      if soc.reliable && Enforceable() {
        EnforceThenStatus(soc.gen, start, endpoints, regions, mode);
      }
    }

    /** What enforcing a mode needs of the tables: an MMIO endpoint with a function bit,
        and regions to protect. */
    ghost predicate Enforceable() {
      && (exists e :: e in endpoints && e.kind == Mmio)
      && (forall e :: e in endpoints && e.kind == Mmio ==> e.func != 0)
      && RegionMask(regions) != 0
    }

    /** pciectl_device_status */
    method DeviceStatus(e: Endpoint) returns (rc: int, mode: Mode)
      requires Valid() && e in endpoints && e.kind == Mmio
      ensures rc <= 0 && (soc.reliable ==> rc == 0)
      ensures rc == 0 ==> mode == EndpointMode(soc.gen, soc.regs, e, RegionMask(regions))
    {
      hide And, Or, RegionMask, Endpoint.Enables, Gates, Open;
      mode := Disabled;
      if soc.gen == Ast2600 {
        rc := bridges.Status(e.gate);
        if rc < 0 {
          return;
        }
        if rc == 0 {
          return;
        }
      }
      var pcie: word, misc: word;
      rc, pcie := soc.Readl(Config(soc.gen));
      if rc < 0 {
        return;
      }
      if And(pcie, e.Enables()) != e.Enables() {
        return 0, Disabled;
      }
      var mask := CollectRegionMask(e);
      if mask == 0 {
        return 0, Permissive;
      }
      rc, misc := soc.Readl(Misc(soc.gen));
      if rc < 0 {
        return;
      }
      mode := if And(misc, mask) == mask then Restricted else Permissive;
      rc := 0;
    }

    /** pciectl_status for MMIO, that is p2actl_status. */
    method Status() returns (rc: int, mode: Mode)
      requires Valid()
      ensures rc <= 0 && (soc.reliable ==> rc == 0)
      ensures rc == 0 ==> mode == P2aMode(soc.gen, soc.regs, endpoints, RegionMask(regions))
      ensures rc == 0 ==>
                && (mode == Permissive <==>
                      exists e :: e in endpoints && e.kind == Mmio &&
                                  EndpointMode(soc.gen, soc.regs, e, RegionMask(regions)) == Permissive)
                && (mode == Disabled <==>
                      forall e :: e in endpoints && e.kind == Mmio ==>
                                    EndpointMode(soc.gen, soc.regs, e, RegionMask(regions)) == Disabled)
    {
      hide RegionMask, EndpointMode;
      MostOpen(soc.gen, soc.regs, endpoints, RegionMask(regions));
      rc, mode := 0, Disabled;
      for i := 0 to |endpoints|
        invariant rc == 0 && mode == P2aMode(soc.gen, soc.regs, endpoints[..i], RegionMask(regions))
      {
        var e := endpoints[i];
        assert endpoints[..i + 1][..i] == endpoints[..i];
        if e.kind != Mmio {
          continue;
        }
        var curr: Mode;
        rc, curr := DeviceStatus(e);
        if rc < 0 {
          return;
        }
        mode := Weaker(curr, mode);
      }
      assert endpoints[..|endpoints|] == endpoints;
    }
  }

  // ---- the tables ----

  function Endpoints(gen: Generation): seq<Endpoint> {
    var g := if gen == Ast2600 then P2A_GATE else -1;
    [Endpoint(Mmio, 0x100, 0x200, g), Endpoint(Mmio, 0x1, 0x2, g),
     Endpoint(Xdma, 0x100, 0x4000, if gen == Ast2600 then 3 else -1),
     Endpoint(Xdma, 0x1, 0x40, if gen == Ast2600 then 4 else -1)]
  }

  /** The write-protect bits of the regions, in address order. */
  function Regions(gen: Generation): seq<word> {
    if gen == Ast2400 then [0x40_0000, 0x80_0000, 0x40_0000, 0x100_0000, 0x200_0000, 0x80_0000, 0x80_0000]
    else [0x40_0000, 0x80_0000, 0x40_0000, 0x40_0000, 0x80_0000, 0x100_0000, 0x200_0000]
  }

  /** The tables of all three generations meet what enforcing needs. */
  lemma TablesWork(gen: Generation)
    ensures forall e :: e in Endpoints(gen) ==> GateValid(gen, e) && e.func != 0
    ensures exists e :: e in Endpoints(gen) && e.kind == Mmio
    ensures RegionMask(Regions(gen)) == 0x3c0_0000
  {
    assert Endpoints(gen)[0] in Endpoints(gen) && Endpoints(gen)[0].kind == Mmio;
    RegionMaskOf7(Regions(gen));
  }

  /** What the status is on each generation, bit by bit. */
  lemma P2aInBits(gen: Generation, r: Regs)
    requires forall e :: e in Endpoints(gen) ==> GateValid(gen, e)
    ensures var config := Get(r, if gen == Ast2600 then 0x1e6e_2c20 else 0x1e6e_2180);
            var misc := Get(r, if gen == Ast2600 then 0x1e6e_20c0 else 0x1e6e_202c);
            var reachable := && (config & 0x300 == 0x300 || config & 0x3 == 0x3)
                             && (gen == Ast2600 ==> Get(r, 0x1e6e_20c8) & 0x1 == 0);
            P2aMode(gen, r, Endpoints(gen), RegionMask(Regions(gen)))
            == if !reachable then Disabled
               else if misc & 0x3c0_0000 == 0x3c0_0000 then Restricted
               else Permissive
  {
    TablesWork(gen);
    var es, mask := Endpoints(gen), RegionMask(Regions(gen));
    hide RegionMask, P2aMode, EndpointMode;
    MostOpen(gen, r, es, mask);
    EndpointInBits(gen, r, es[0], 0x300);
    EndpointInBits(gen, r, es[1], 0x3);
  }

  /** What enforcing leaves on each generation, bit by bit. */
  lemma EnforcedInBits(gen: Generation, r: Regs, mode: Mode)
    requires forall e :: e in Endpoints(gen) ==> GateValid(gen, e)
    ensures var c, m := if gen == Ast2600 then 0x1e6e_2c20 else 0x1e6e_2180,
                        if gen == Ast2600 then 0x1e6e_20c0 else 0x1e6e_202c;
            var b := EnforcedAll(gen, r, Endpoints(gen), RegionMask(Regions(gen)), mode);
            if mode == Disabled then
              Get(b, c) == And(And(Get(r, c), Not(0x200)), Not(0x2)) && Get(b, m) == Get(r, m)
            else
              && Get(b, c) == Or(Or(Get(r, c), 0x300), 0x3)
              && Get(b, m) == Masked(Masked(Get(r, m), 0x3c0_0000, mode), 0x3c0_0000, mode)
              && (gen == Ast2600 ==> And(Get(b, 0x1e6e_20c8), 0x1) == 0)
  {
    TablesWork(gen);
    var es, mask := Endpoints(gen), RegionMask(Regions(gen));
    FourEndpoints(gen, r, es, mask, mode);
    TwoEnforced(gen, r, es[0], es[1], mode);
    hide RegionMask, EnforcedAll, Enforced;
  }

  lemma FourEndpoints(gen: Generation, r: Regs, es: seq<Endpoint>, mask: word, mode: Mode)
    requires |es| == 4 && forall e :: e in es ==> GateValid(gen, e)
    requires es[0].kind == Mmio == es[1].kind && es[2].kind == Xdma == es[3].kind
    ensures EnforcedAll(gen, r, es, mask, mode) == Enforced(gen, Enforced(gen, r, es[0], mask, mode), es[1], mask, mode)
  {
    hide Enforced, GateValid;
    EnforcedStep(gen, r, es, mask, mode, 0);
    EnforcedStep(gen, r, es, mask, mode, 1);
    EnforcedStep(gen, r, es, mask, mode, 2);
    EnforcedStep(gen, r, es, mask, mode, 3);
    assert es[..4] == es;
    hide EnforcedAll;
  }

  lemma EnforcedStep(gen: Generation, r: Regs, es: seq<Endpoint>, mask: word, mode: Mode, i: nat)
    requires i < |es| && forall e :: e in es ==> GateValid(gen, e)
    ensures EnforcedAll(gen, r, es[..0], mask, mode) == r
    ensures var before := EnforcedAll(gen, r, es[..i], mask, mode);
            EnforcedAll(gen, r, es[..i + 1], mask, mode)
            == if es[i].kind != Mmio then before else Enforced(gen, before, es[i], mask, mode)
  {
    hide Enforced, GateValid;
    assert es[..i + 1][..i] == es[..i];
  }

  lemma TwoEnforced(gen: Generation, r: Regs, d: Endpoint, e: Endpoint, mode: Mode)
    requires d.gate == e.gate == (if gen == Ast2600 then P2A_GATE else -1)
    requires d.Enables() == 0x300 && d.func == 0x200 && e.Enables() == 0x3 && e.func == 0x2
    ensures var c, m := if gen == Ast2600 then 0x1e6e_2c20 else 0x1e6e_2180,
                        if gen == Ast2600 then 0x1e6e_20c0 else 0x1e6e_202c;
            var b := Enforced(gen, Enforced(gen, r, d, 0x3c0_0000, mode), e, 0x3c0_0000, mode);
            if mode == Disabled then
              Get(b, c) == And(And(Get(r, c), Not(0x200)), Not(0x2)) && Get(b, m) == Get(r, m)
            else
              && Get(b, c) == Or(Or(Get(r, c), 0x300), 0x3)
              && Get(b, m) == Masked(Masked(Get(r, m), 0x3c0_0000, mode), 0x3c0_0000, mode)
              && (gen == Ast2600 ==> And(Get(b, 0x1e6e_20c8), 0x1) == 0)
  {
    hide And, Or, Not, Masked, Endpoint.Enables;
    if gen == Ast2600 && mode != Disabled {
      GateObeys(Filtered(gen, Enforced(gen, r, d, 0x3c0_0000, mode), e, 0x3c0_0000, mode), GateOf(e), true);
    }
  }

  lemma EndpointInBits(gen: Generation, r: Regs, e: Endpoint, enables: word)
    requires GateValid(gen, e) && e.gate == (if gen == Ast2600 then P2A_GATE else -1) && e.Enables() == enables
    ensures var config := Get(r, if gen == Ast2600 then 0x1e6e_2c20 else 0x1e6e_2180);
            var misc := Get(r, if gen == Ast2600 then 0x1e6e_20c0 else 0x1e6e_202c);
            var reachable := config & enables == enables && (gen == Ast2600 ==> Get(r, 0x1e6e_20c8) & 0x1 == 0);
            EndpointMode(gen, r, e, 0x3c0_0000)
            == if !reachable then Disabled
               else if misc & 0x3c0_0000 == 0x3c0_0000 then Restricted
               else Permissive
  {
  }

  lemma RegionMaskOf7(s: seq<word>)
    requires |s| == 7
    ensures RegionMask(s) == Or(Or(Or(Or(Or(Or(Or(0, s[0]), s[1]), s[2]), s[3]), s[4]), s[5]), s[6])
  {
    hide Or, RegionMask;
    RegionMaskStep(s, 0);
    RegionMaskStep(s, 1);
    RegionMaskStep(s, 2);
    RegionMaskStep(s, 3);
    RegionMaskStep(s, 4);
    RegionMaskStep(s, 5);
    RegionMaskStep(s, 6);
    assert s[..7] == s;
  }

  lemma RegionMaskStep(s: seq<word>, i: nat)
    requires i < |s|
    ensures RegionMask(s[..i + 1]) == Or(RegionMask(s[..i]), s[i]) && RegionMask(s[..0]) == 0
  {
    hide Or;
    assert s[..i + 1][..i] == s[..i];
  }

  /** On the AST2500 the register of the region bits also holds the debug UART gate, which
      no enforcing touches. */
  lemma DebugUartUntouched(a: Regs, b: Regs)
    requires OnlyP2a(Ast2500, Endpoints(Ast2500), RegionMask(Regions(Ast2500)), a, b)
    ensures Open(a, Gates(Ast2500)[DEBUG_UART_GATE]) == Open(b, Gates(Ast2500)[DEBUG_UART_GATE])
  {
    TablesWork(Ast2500);
    var addr := SCU + 0x2c;
    assert SameButFor(Get(a, addr), Get(b, addr), P2aBits(Ast2500, Endpoints(Ast2500), 0x3c0_0000, addr));
    SameOutsideMask(Get(a, addr), Get(b, addr), 0x3c0_0000, 0x400);
  }

  lemma SameOutsideMask(x: word, y: word, mask: word, k: word)
    requires SameButFor(x, y, mask) && Apart(mask, k)
    ensures And(x, k) == And(y, k)
  {
  }
}
