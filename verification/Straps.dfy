/** The SoC's registers with their three ways of writing straps, and src/soc/strap.c. */
module Straps {
  import opened Words
  import opened Limits

  datatype Generation = Ast2400 | Ast2500 | Ast2600

  const SCU: nat := 0x1e6e2000

  type Regs = map<nat, word>

  function Get(r: Regs, addr: nat): word {
    if addr in r then r[addr] else 0
  }

  /** What a register write does: the AST2500 strap register sets the bits written to it
      and the silicon ID register clears them; the AST2600 has such pairs for its first two
      strap registers, and after each a register of write-protected bits. */
  function Stored(gen: Generation, r: Regs, addr: nat, val: word): Regs {
    match gen
    case Ast2400 => r[addr := val]
    case Ast2500 =>
      if addr == SCU + 0x70 then r[addr := Or(Get(r, addr), val)]
      else if addr == SCU + 0x7c then r[SCU + 0x70 := And(Get(r, SCU + 0x70), Not(val))]
      else r[addr := val]
    case Ast2600 =>
      if addr == SCU + 0x500 || addr == SCU + 0x510 then
        r[addr := Or(Get(r, addr), And(val, Not(Get(r, addr + 8))))]
      else if addr == SCU + 0x504 || addr == SCU + 0x514 then
        r[addr - 4 := And(Get(r, addr - 4), Not(And(val, Not(Get(r, addr + 4)))))]
      else r[addr := val]
  }

  /** soc_readl and soc_writel; a failing write does not reach the register. */
  class Soc {
    const gen: Generation
    const reliable: bool
    var regs: Regs

    constructor (gen: Generation, reliable: bool, regs: Regs)
      ensures this.gen == gen && this.reliable == reliable && this.regs == regs
    {
      this.gen, this.reliable, this.regs := gen, reliable, regs;
    }

    method Fault() returns (rc: int)
      ensures rc <= 0 && (reliable ==> rc == 0)
    {
      rc := *;
      if reliable || rc > 0 {
        rc := 0;
      }
    }

    method Readl(addr: nat) returns (rc: int, val: word)
      ensures rc <= 0 && (reliable ==> rc == 0)
      ensures rc == 0 ==> val == Get(regs, addr)
    {
      val := Get(regs, addr);
      rc := Fault();
    }

    method Writel(addr: nat, val: word) returns (rc: int)
      modifies this
      ensures rc <= 0 && (reliable ==> rc == 0)
      ensures regs == if rc == 0 then Stored(gen, old(regs), addr, val) else old(regs)
    {
      rc := Fault();
      if rc == 0 {
        regs := Stored(gen, regs, addr, val);
      }
    }
  }

  // ---- what the strap operations mean ----

  predicate IsStrap(gen: Generation, reg: nat) {
    match gen
    case Ast2400 => reg == 0x70 || reg == 0xd0
    case Ast2500 => reg == 0x70
    case Ast2600 => reg == 0x500 || reg == 0x510 || reg == 0x51c
  }

  /** STRAP3 has no protection. */
  predicate WriteProtected(gen: Generation, r: Regs, reg: nat, mask: word) {
    gen == Ast2600 && reg != 0x51c && And(Get(r, SCU + reg + 8), mask) != 0
  }

  /** The errno of a strap operation whose register accesses succeed. */
  function Verdict(gen: Generation, r: Regs, reg: nat, update: word, mask: word): int {
    if !IsStrap(gen, reg) || !SubMask(update, mask) then -EINVAL
    else if WriteProtected(gen, r, reg, mask) then -EPERM
    else 0
  }

  /** strap_set sets the bits of update and keeps the others, except on STRAP3, where the
      register becomes update. */
  function AfterSet(gen: Generation, r: Regs, reg: nat, update: word): Regs {
    r[SCU + reg := if gen == Ast2600 && reg == 0x51c then update else Or(Get(r, SCU + reg), update)]
  }

  function AfterClear(r: Regs, reg: nat, update: word): Regs {
    r[SCU + reg := And(Get(r, SCU + reg), Not(update))]
  }

  /** Which registers are straps, by number. */
  lemma StrapRegisters(gen: Generation, reg: nat)
    ensures IsStrap(gen, reg)
       <==> || (gen == Ast2400 && reg in {0x70, 0xd0}) || (gen == Ast2500 && reg == 0x70)
            || (gen == Ast2600 && reg in {0x500, 0x510, 0x51c})
  {
  }

  /** What a strap operation answers when its accesses succeed, in numbers. A protection
      register with any bit of the mask set refuses it. */
  lemma VerdictInBits(gen: Generation, r: Regs, reg: nat, update: word, mask: word)
    ensures var known := || (gen == Ast2400 && reg in {0x70, 0xd0}) || (gen == Ast2500 && reg == 0x70)
                         || (gen == Ast2600 && reg in {0x500, 0x510, 0x51c});
            var guarded := && gen == Ast2600 && reg in {0x500, 0x510}
                           && And(Get(r, 0x1e6e_2008 + reg), mask) != 0;
            Verdict(gen, r, reg, update, mask)
            == if !known || And(update, mask) != update then -EINVAL
               else if guarded then -EPERM
               else 0
  {
    hide And;
  }

  /** Setting bits: those of update are set, others of the register stay outside STRAP3, and
      no other register changes. */
  lemma SetMeans(gen: Generation, r: Regs, reg: nat, update: word)
    ensures var x, y := Get(r, 0x1e6e_2000 + reg), Get(AfterSet(gen, r, reg, update), 0x1e6e_2000 + reg);
            && And(y, update) == update
            && (gen != Ast2600 || reg != 0x51c ==> And(y, Not(update)) == And(x, Not(update)))
    ensures forall addr :: addr != 0x1e6e_2000 + reg ==> Get(AfterSet(gen, r, reg, update), addr) == Get(r, addr)
  {
    Complement(update);
    SettingBits(Get(r, 0x1e6e_2000 + reg), update, Not(update));
    hide Or, And, Not;
  }

  /** Clearing bits: those of update are clear, and nothing else changes. */
  lemma ClearMeans(r: Regs, reg: nat, update: word)
    ensures var x, y := Get(r, 0x1e6e_2000 + reg), Get(AfterClear(r, reg, update), 0x1e6e_2000 + reg);
            And(y, update) == 0 && And(y, Not(update)) == And(x, Not(update))
    ensures forall addr :: addr != 0x1e6e_2000 + reg ==> Get(AfterClear(r, reg, update), addr) == Get(r, addr)
  {
    Complement(update);
    ClearingBits(Get(r, 0x1e6e_2000 + reg), update, Not(update));
    hide And, Not;
  }

  lemma UnprotectedBits(update: word, mask: word, protect: word)
    requires SubMask(update, mask) && And(protect, mask) == 0
    ensures And(update, Not(protect)) == update
    ensures And(update, mask) == update
  {
  }

  /** On STRAP3 setting bits keeps the others exactly if no other bit was set. */
  lemma Strap3KeepsIff(r: Regs, update: word)
    ensures AfterSet(Ast2600, r, 0x51c, update) == r[SCU + 0x51c := Or(Get(r, SCU + 0x51c), update)]
       <==> SubMask(Get(r, SCU + 0x51c), update)
  {
    var was := Get(r, SCU + 0x51c);
    OrAbsorbs(was, update);
    hide Or, SubMask;
    assert r[SCU + 0x51c := update][SCU + 0x51c] == update;
    assert r[SCU + 0x51c := Or(was, update)][SCU + 0x51c] == Or(was, update);
  }

  lemma OrAbsorbs(x: word, y: word)
    ensures Or(x, y) == y <==> SubMask(x, y)
  {
    Absorption(x, y);
    hide And, Or;
  }

  lemma Absorption(x: word, y: word)
    ensures And(x, Or(x, y)) == x && Or(And(x, y), y) == y
  {
  }

  class Strap {
    const soc: Soc

    constructor (soc: Soc)
      ensures this.soc == soc
    {
      this.soc := soc;
    }

    /** strap_read */
    method Read(reg: nat) returns (rc: int, val: word)
      ensures rc <= 0 && (soc.reliable && IsStrap(soc.gen, reg) ==> rc == 0)
      ensures rc == 0 ==> IsStrap(soc.gen, reg) && val == Get(soc.regs, SCU + reg)
    {
      if !IsStrap(soc.gen, reg) {
        return -EINVAL, 0;
      }
      rc, val := soc.Readl(SCU + reg);
    }

    /** ast2600_strap_is_protected */
    method IsProtected(reg: nat, mask: word) returns (rc: int)
      requires soc.gen == Ast2600
      ensures rc <= 1
      ensures rc >= 0 ==> IsStrap(Ast2600, reg) && (rc == 1 <==> WriteProtected(Ast2600, soc.regs, reg, mask))
      ensures soc.reliable ==>
                rc == if !IsStrap(Ast2600, reg) then -EINVAL
                      else if WriteProtected(Ast2600, soc.regs, reg, mask) then 1 else 0
    {
      if reg == 0x51c {
        return 0;
      }
      if reg == 0x500 || reg == 0x510 {
        var protect: word;
        rc, protect := soc.Readl(SCU + reg + 8);
        if rc < 0 {
          return;
        }
        return if And(protect, mask) != 0 then 1 else 0;
      }
      return -EINVAL;
    }

    /** strap_set */
    method Set(reg: nat, update: word, mask: word) returns (rc: int)
      modifies soc
      ensures rc <= 0 && (soc.reliable ==> rc == Verdict(soc.gen, old(soc.regs), reg, update, mask))
      ensures rc < 0 ==> soc.regs == old(soc.regs)
      ensures rc == 0 ==> Verdict(soc.gen, old(soc.regs), reg, update, mask) == 0
      ensures rc == 0 ==> soc.regs == AfterSet(soc.gen, old(soc.regs), reg, update)
    {
      match soc.gen
      case Ast2400 => rc := Set2400(reg, update, mask);
      case Ast2500 => rc := Set2500(reg, update, mask);
      case Ast2600 => rc := Set2600(reg, update, mask);
    }

    /** ast2400_strap_set */
    method Set2400(reg: nat, update: word, mask: word) returns (rc: int)
      requires soc.gen == Ast2400
      modifies soc
      ensures rc <= 0 && (soc.reliable ==> rc == Verdict(soc.gen, old(soc.regs), reg, update, mask))
      ensures rc < 0 ==> soc.regs == old(soc.regs)
      ensures rc == 0 ==> Verdict(soc.gen, old(soc.regs), reg, update, mask) == 0
      ensures rc == 0 ==> soc.regs == AfterSet(soc.gen, old(soc.regs), reg, update)
    {
      hide And, Or, SubMask;
      if !IsStrap(Ast2400, reg) {
        return -EINVAL;
      }
      if !SubMask(update, mask) {
        return -EINVAL;
      }
      var val: word;
      rc, val := soc.Readl(SCU + reg);
      if rc < 0 {
        return;
      }
      rc := soc.Writel(SCU + reg, Or(val, update));
    }

    /** ast2500_strap_set */
    method Set2500(reg: nat, update: word, mask: word) returns (rc: int)
      requires soc.gen == Ast2500
      modifies soc
      ensures rc <= 0 && (soc.reliable ==> rc == Verdict(soc.gen, old(soc.regs), reg, update, mask))
      ensures rc < 0 ==> soc.regs == old(soc.regs)
      ensures rc == 0 ==> Verdict(soc.gen, old(soc.regs), reg, update, mask) == 0
      ensures rc == 0 ==> soc.regs == AfterSet(soc.gen, old(soc.regs), reg, update)
    {
      hide And, Or, SubMask;
      if reg != 0x70 || !SubMask(update, mask) {
        return -EINVAL;
      }
      rc := soc.Writel(SCU + reg, update);
    }

    /** ast2600_strap_set */
    method Set2600(reg: nat, update: word, mask: word) returns (rc: int)
      requires soc.gen == Ast2600
      modifies soc
      ensures rc <= 0 && (soc.reliable ==> rc == Verdict(soc.gen, old(soc.regs), reg, update, mask))
      ensures rc < 0 ==> soc.regs == old(soc.regs)
      ensures rc == 0 ==> Verdict(soc.gen, old(soc.regs), reg, update, mask) == 0
      ensures rc == 0 ==> soc.regs == AfterSet(soc.gen, old(soc.regs), reg, update)
    {
      hide And, Or, Not, SubMask;
      if !IsStrap(Ast2600, reg) {
        return -EINVAL;
      }
      if !SubMask(update, mask) {
        return -EINVAL;
      }
      rc := IsProtected(reg, mask);
      if rc < 0 {
        return;
      } else if rc != 0 {
        return -EPERM;
      }
      if reg != 0x51c {
        UnprotectedBits(update, mask, Get(soc.regs, SCU + reg + 8));
      }
      rc := soc.Writel(SCU + reg, update);
    }

    /** strap_clear */
    method Clear(reg: nat, update: word, mask: word) returns (rc: int)
      modifies soc
      ensures rc <= 0 && (soc.reliable ==> rc == Verdict(soc.gen, old(soc.regs), reg, update, mask))
      ensures rc < 0 ==> soc.regs == old(soc.regs)
      ensures rc == 0 ==> Verdict(soc.gen, old(soc.regs), reg, update, mask) == 0
      ensures rc == 0 ==> soc.regs == AfterClear(old(soc.regs), reg, update)
    {
      match soc.gen
      case Ast2400 => rc := Clear2400(reg, update, mask);
      case Ast2500 => rc := Clear2500(reg, update, mask);
      case Ast2600 => rc := Clear2600(reg, update, mask);
    }

    /** ast2400_strap_clear */
    method Clear2400(reg: nat, update: word, mask: word) returns (rc: int)
      requires soc.gen == Ast2400
      modifies soc
      ensures rc <= 0 && (soc.reliable ==> rc == Verdict(soc.gen, old(soc.regs), reg, update, mask))
      ensures rc < 0 ==> soc.regs == old(soc.regs)
      ensures rc == 0 ==> Verdict(soc.gen, old(soc.regs), reg, update, mask) == 0
      ensures rc == 0 ==> soc.regs == AfterClear(old(soc.regs), reg, update)
    {
      hide And, Not, SubMask;
      if !IsStrap(Ast2400, reg) {
        return -EINVAL;
      }
      if !SubMask(update, mask) {
        return -EINVAL;
      }
      var val: word;
      rc, val := soc.Readl(SCU + reg);
      if rc < 0 {
        return;
      }
      rc := soc.Writel(SCU + reg, And(val, Not(update)));
    }

    /** ast2500_strap_clear: a write to the silicon ID register. */
    method Clear2500(reg: nat, update: word, mask: word) returns (rc: int)
      requires soc.gen == Ast2500
      modifies soc
      ensures rc <= 0 && (soc.reliable ==> rc == Verdict(soc.gen, old(soc.regs), reg, update, mask))
      ensures rc < 0 ==> soc.regs == old(soc.regs)
      ensures rc == 0 ==> Verdict(soc.gen, old(soc.regs), reg, update, mask) == 0
      ensures rc == 0 ==> soc.regs == AfterClear(old(soc.regs), reg, update)
    {
      hide And, Not, SubMask;
      if reg != 0x70 || !SubMask(update, mask) {
        return -EINVAL;
      }
      rc := soc.Writel(SCU + 0x7c, update);
    }

    /** ast2600_strap_clear: W1C for the pairs, read-modify-write for STRAP3. */
    method Clear2600(reg: nat, update: word, mask: word) returns (rc: int)
      requires soc.gen == Ast2600
      modifies soc
      ensures rc <= 0 && (soc.reliable ==> rc == Verdict(soc.gen, old(soc.regs), reg, update, mask))
      ensures rc < 0 ==> soc.regs == old(soc.regs)
      ensures rc == 0 ==> Verdict(soc.gen, old(soc.regs), reg, update, mask) == 0
      ensures rc == 0 ==> soc.regs == AfterClear(old(soc.regs), reg, update)
    {
      hide And, Not;
      if !SubMask(update, mask) {
        return -EINVAL;
      }
      rc := IsProtected(reg, mask);
      if rc < 0 {
        return;
      } else if rc != 0 {
        return -EPERM;
      }
      if reg == 0x500 || reg == 0x510 {
        UnprotectedBits(update, mask, Get(soc.regs, SCU + reg + 8));
        rc := soc.Writel(SCU + reg + 4, update);
        return;
      }
      var val: word;
      rc, val := soc.Readl(SCU + reg);
      if rc < 0 {
        return;
      }
      rc := soc.Writel(SCU + reg, And(val, Not(And(update, mask))));
    }
  }
}
