/** src/sio.c over a model of the SuperIO device: an index port, a data port, a lock
    that two equal key bytes open, and behind logical device 0x0d the iLPC2AHB bridge. */
module SuperIo {
  import opened Bytes
  import opened Words

  const KEY: byte := 0xa5
  const LOCK: byte := 0xaa
  const SELECT: byte := 0x07
  const ILPC: byte := 0x0d
  const ENABLE: byte := 0x30
  const TRIGGER: byte := 0xfe
  const TRIGGER_WRITE: byte := 0xcf

  type Memory = word -> byte
  type Registers = byte -> byte

  /** The 32-bit word at addr, lowest byte first; addresses wrap. */
  function Peek(m: Memory, addr: word): word {
    LittleEndian(m(addr), m(addr + 1), m(addr + 2), m(addr + 3))
  }

  function PokeByte(m: Memory, addr: word, b: byte): Memory {
    a => if a == addr then b else m(a)
  }

  function Poke(m: Memory, addr: word, val: word): Memory {
    PokeByte(PokeByte(PokeByte(PokeByte(m, addr, ByteOf(val, 0)), addr + 1, ByteOf(val, 1)),
                      addr + 2, ByteOf(val, 2)), addr + 3, ByteOf(val, 3))
  }

  lemma PeekAfterPoke(m: Memory, addr: word, val: word, other: word)
    ensures Peek(Poke(m, addr, val), addr) == val
    ensures other !in {addr, addr + 1, addr + 2, addr + 3} ==> Poke(m, addr, val)(other) == m(other)
  {
    WordFromBytes(val);
  }

  /** The device. keys counts how much of the key a locked device has seen; regs are the
      registers of the bridge, the only logical device modelled. */
  datatype Chip = Chip(mem: Memory, locked: bool, keyed: bool, index: byte, ldn: byte, regs: Registers) {

    /** A byte written to the index port. */
    function WriteIndex(v: byte): Chip {
      if locked then
        if v != KEY then this.(keyed := false)
        else if keyed then this.(locked := false, keyed := false)
        else this.(keyed := true)
      else if v == LOCK then this.(locked := true, keyed := false)
      else this.(index := v)
    }

    /** The bridge's address register, most significant byte in 0xf0. */
    function Address(): word {
      LittleEndian(regs(0xf3), regs(0xf2), regs(0xf1), regs(0xf0))
    }

    function Value(): word {
      LittleEndian(regs(0xf7), regs(0xf6), regs(0xf5), regs(0xf4))
    }

    predicate Working() {
      regs(ENABLE) & 1 == 1
    }

    /** Register 0xf8 selects the width: 0 for one byte, 2 for four. */
    function Store(): Chip {
      if !Working() then this
      else if regs(0xf8) == 0 then this.(mem := PokeByte(mem, Address(), regs(0xf7)))
      else if regs(0xf8) == 2 then this.(mem := Poke(mem, Address(), Value()))
      else this
    }

    function Fetch(): Chip {
      if !Working() then this
      else if regs(0xf8) == 0 then this.(regs := PutReg(regs, 0xf7, mem(Address())))
      else if regs(0xf8) == 2 then
        var w := Peek(mem, Address());
        this.(regs := PutReg(PutReg(PutReg(PutReg(regs, 0xf7, ByteOf(w, 0)), 0xf6, ByteOf(w, 1)),
                                    0xf5, ByteOf(w, 2)), 0xf4, ByteOf(w, 3)))
      else this
    }

    /** A byte written to the data port. */
    function WriteData(v: byte): Chip {
      if locked then this
      else if index == SELECT then this.(ldn := v)
      else if ldn != ILPC then this
      else if index == TRIGGER then if v == TRIGGER_WRITE then Store() else this
      else this.(regs := PutReg(regs, index, v))
    }

    /** A byte read from the data port, which may itself be a trigger. */
    function ReadData(): (byte, Chip) {
      if locked then (0xff, this)
      else if index == SELECT then (ldn, this)
      else if ldn != ILPC then (0xff, this)
      else if index == TRIGGER then (0, Fetch())
      else (regs(index), this)
    }
  }

  /** The bytes on the ports: 0xa5 twice opens a locked device and 0xaa locks it; register
      0x07 selects a logical device, of which 0x0d is the bridge with its enable bit in
      register 0x30; writing 0xcf to register 0xfe stores, and reading that fetches. */
  lemma PortBytes(c: Chip, v: byte)
    ensures c.locked ==> !c.WriteIndex(0xa5).WriteIndex(0xa5).locked
    ensures !c.locked ==> c.WriteIndex(0xaa).locked && c.WriteIndex(0x07).WriteData(v).ldn == v
    ensures !c.locked && c.ldn == 0x0d ==>
              && c.WriteIndex(0x30).WriteData(1).Working()
              && c.WriteIndex(0xfe).WriteData(0xcf) == c.WriteIndex(0xfe).Store()
              && c.WriteIndex(0xfe).ReadData() == (0, c.WriteIndex(0xfe).Fetch())
  {
  }

  /** The bridge's address and value registers, as numbers. */
  lemma RegisterNumbers(c: Chip)
    ensures c.Address() as nat == 0x100_0000 * c.regs(0xf0) as nat + 0x1_0000 * c.regs(0xf1) as nat
                                  + 0x100 * c.regs(0xf2) as nat + c.regs(0xf3) as nat
    ensures c.Value() as nat == 0x100_0000 * c.regs(0xf4) as nat + 0x1_0000 * c.regs(0xf5) as nat
                                + 0x100 * c.regs(0xf6) as nat + c.regs(0xf7) as nat
  {
    LittleEndianValue(c.regs(0xf3), c.regs(0xf2), c.regs(0xf1), c.regs(0xf0));
    LittleEndianValue(c.regs(0xf7), c.regs(0xf6), c.regs(0xf5), c.regs(0xf4));
    hide LittleEndian;
  }

  function PutReg(regs: Registers, r: byte, v: byte): Registers {
    x => if x == r then v else regs(x)
  }

  /** An errno as a 32-bit word; codes are combined with |. */
  predicate Failed(rc: word) {
    rc & 0x8000_0000 != 0
  }

  lemma EitherFails(a: word, b: word)
    requires (a == 0 || Failed(a)) && (b == 0 || Failed(b))
    ensures a | b == 0 <==> a == 0 && b == 0
    ensures a | b == 0 || Failed(a | b)
  {
  }

  /** The driver of the two ports; any access may fail unless the ports are reliable, and
      a failed access does not reach the device. */
  class Sio {
    const reliable: bool
    var chip: Chip

    constructor (reliable: bool, chip: Chip)
      ensures this.reliable == reliable && this.chip == chip
    {
      this.reliable := reliable;
      this.chip := chip;
    }

    method Fault() returns (rc: word)
      ensures rc == 0 || Failed(rc)
      ensures reliable ==> rc == 0
    {
      rc := *;
      if reliable || rc & 0x8000_0000 == 0 {
        rc := 0;
      }
    }

    method OutIndex(v: byte) returns (rc: word)
      modifies this
      ensures rc == 0 || Failed(rc)
      ensures reliable ==> rc == 0
      ensures chip == if rc == 0 then old(chip).WriteIndex(v) else old(chip)
    {
      rc := Fault();
      if rc == 0 {
        chip := chip.WriteIndex(v);
      }
    }

    method OutData(v: byte) returns (rc: word)
      modifies this
      ensures rc == 0 || Failed(rc)
      ensures reliable ==> rc == 0
      ensures chip == if rc == 0 then old(chip).WriteData(v) else old(chip)
    {
      rc := Fault();
      if rc == 0 {
        chip := chip.WriteData(v);
      }
    }

    method InData() returns (rc: word, v: byte)
      modifies this
      ensures rc == 0 || Failed(rc)
      ensures reliable ==> rc == 0
      ensures if rc == 0 then (v, chip) == old(chip).ReadData() else chip == old(chip)
    {
      v := 0;
      rc := Fault();
      if rc == 0 {
        var r := chip.ReadData();
        v, chip := r.0, r.1;
      }
    }

    /** sio_lock: whatever came before, a lock write that succeeds leaves it locked. */
    method Lock() returns (rc: word)
      modifies this
      ensures rc == 0 || Failed(rc)
      ensures reliable ==> rc == 0
      ensures rc == 0 ==> chip.locked && !chip.keyed
      ensures chip.mem == old(chip.mem)
    {
      rc := OutIndex(LOCK);
    }

    /** sio_unlock: opens the device whatever state it was in. An open one takes the key
        bytes as its index; memory, bridge registers and selection stay. */
    method Unlock() returns (rc: word)
      modifies this
      ensures rc == 0 || Failed(rc)
      ensures reliable ==> rc == 0
      ensures rc == 0 ==> !chip.locked
      ensures chip.mem == old(chip.mem) && chip.regs == old(chip.regs) && chip.ldn == old(chip.ldn)
    {
      rc := OutIndex(KEY);
      var rc2 := OutIndex(KEY);
      EitherFails(rc, rc2);
      rc := rc | rc2;
    }

    /** sio_writeb */
    method Writeb(addr: byte, val: byte) returns (rc: word)
      modifies this
      ensures rc == 0 || Failed(rc)
      ensures reliable ==> rc == 0
      ensures rc == 0 ==> chip == old(chip).WriteIndex(addr).WriteData(val)
      ensures rc != 0 ==> chip == old(chip) || chip == old(chip).WriteIndex(addr)
    {
      rc := OutIndex(addr);
      if rc != 0 {
        return;
      }
      rc := OutData(val);
    }

    /** sio_readb */
    method Readb(addr: byte) returns (rc: word, val: byte)
      modifies this
      ensures rc == 0 || Failed(rc)
      ensures reliable ==> rc == 0
      ensures rc == 0 ==> (val, chip) == old(chip).WriteIndex(addr).ReadData()
      ensures rc != 0 ==> chip == old(chip) || chip == old(chip).WriteIndex(addr)
    {
      val := 0;
      rc := OutIndex(addr);
      if rc != 0 {
        return;
      }
      rc, val := InData();
    }

    /** sio_select */
    method Select(dev: byte) returns (rc: word)
      modifies this
      ensures rc == 0 || Failed(rc)
      ensures reliable ==> rc == 0
      ensures rc == 0 && !old(chip).locked ==> !chip.locked && chip.ldn == dev
      ensures chip.mem == old(chip.mem) && chip.regs == old(chip.regs)
    {
      rc := Writeb(SELECT, dev);
    }
  }
}
