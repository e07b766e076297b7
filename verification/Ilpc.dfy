/** src/bridge/ilpc.c: the BMC's address space through the SuperIO's iLPC2AHB device. */
module IlpcBridge {
  import opened Bytes
  import opened Words
  import opened SuperIo
  import opened Limits

  /** addr + k, in 32 bits. */
  function Shifted(addr: word, k: nat): word
    decreases k
  {
    if k == 0 then addr else Shifted(addr, k - 1) + 1
  }

  function ByteAt(m: Memory, addr: word): byte {
    m(addr)
  }

  /** No byte but the one at addr differs. */
  ghost predicate OnlyAt(a: Memory, b: Memory, addr: word) {
    forall x: word :: x != addr ==> ByteAt(a, x) == ByteAt(b, x)
  }

  lemma OnlyAtSelf(a: Memory, addr: word)
    ensures OnlyAt(a, a, addr)
  {
  }

  lemma OnlyAtTrans(a: Memory, b: Memory, c: Memory, addr: word)
    requires OnlyAt(a, b, addr) && OnlyAt(b, c, addr)
    ensures OnlyAt(a, c, addr)
  {
  }

  /** The n bytes of memory from addr on. */
  function MemSlice(m: Memory, addr: word, n: nat): (r: seq<byte>)
    ensures |r| == n
    decreases n
  {
    if n == 0 then [] else MemSlice(m, addr, n - 1) + [ByteAt(m, Shifted(addr, n - 1))]
  }

  lemma {:induction false} MemSliceAt(m: Memory, addr: word, n: nat, k: nat)
    requires k < n
    ensures MemSlice(m, addr, n)[k] == ByteAt(m, Shifted(addr, k))
    decreases n
  {
    hide Shifted;
    if k < n - 1 {
      MemSliceAt(m, addr, n - 1, k);
    }
  }

  lemma ShiftedStart(m: Memory, addr: word)
    ensures Shifted(addr, 0) == addr && MemSlice(m, addr, 0) == []
  {
  }

  lemma MemSliceGrows(m: Memory, addr: word, n: nat)
    ensures MemSlice(m, addr, n + 1) == MemSlice(m, addr, n) + [ByteAt(m, Shifted(addr, n))]
    ensures Shifted(addr, n + 1) == Shifted(addr, n) + 1
  {
  }

  /** The four bytes read from addr on stand for this number. */
  ghost predicate Holds(m: Memory, addr: word, val: word) {
    StandFor(MemSlice(m, addr, 4), val)
  }

  lemma FourBytes(m: Memory, addr: word)
    ensures var b := MemSlice(m, addr, 4);
            Peek(m, addr) == LittleEndian(b[0], b[1], b[2], b[3])
  {
    ShiftedStart(m, addr);
    MemSliceGrows(m, addr, 0);
    MemSliceGrows(m, addr, 1);
    MemSliceGrows(m, addr, 2);
    MemSliceGrows(m, addr, 3);
    NextAddress(addr, 0);
    TwoOn(addr);
    ThreeOn(addr);
    hide LittleEndian, Shifted, MemSlice;
  }

  lemma NextAddress(addr: word, k: nat)
    ensures Shifted(addr, k + 1) == Shifted(addr, k) + 1 && Shifted(addr, 0) == addr
  {
  }

  lemma TwoOn(addr: word)
    ensures Shifted(addr, 2) == addr + 2
  {
    hide Shifted;
    NextAddress(addr, 0);
    NextAddress(addr, 1);
  }

  lemma ThreeOn(addr: word)
    ensures Shifted(addr, 3) == addr + 3
  {
    hide Shifted;
    TwoOn(addr);
    NextAddress(addr, 2);
  }

  /** The word at an address is the number its four bytes stand for, also after a store. */
  lemma WordsAreBytes(m: Memory, addr: word, val: word)
    ensures Holds(m, addr, Peek(m, addr)) && Holds(Poke(m, addr, val), addr, val)
  {
    PeekAfterPoke(m, addr, val, addr);
    PeekHolds(m, addr);
    PeekHolds(Poke(m, addr, val), addr);
    hide Peek, Poke, Holds;
  }

  lemma PeekHolds(m: Memory, addr: word)
    ensures Holds(m, addr, Peek(m, addr))
  {
    hide LittleEndian, Peek, MemSlice;
    FourBytes(m, addr);
    var b := MemSlice(m, addr, 4);
    LittleEndianValue(b[0], b[1], b[2], b[3]);
  }

  /** What ilpcb_write leaves of the bytes it was given: memory then holds them exactly if
      the first equals the last and every other was there already. */
  lemma WriteStoresIff(m: Memory, m': Memory, addr: word, data: seq<byte>)
    requires data != [] && OnlyAt(m, m', addr) && ByteAt(m', addr) == data[|data| - 1]
    ensures MemSlice(m', addr, |data|) == data <==>
            forall k {:trigger data[k]} :: 0 <= k < |data| ==>
              data[k] == if Shifted(addr, k) == addr then data[|data| - 1] else ByteAt(m, Shifted(addr, k))
    ensures |data| == 1 ==> MemSlice(m', addr, 1) == data
    ensures data[0] != data[|data| - 1] ==> MemSlice(m', addr, |data|) != data
  {
    ShiftedStart(m, addr);
    hide Shifted, MemSlice;
    var r := MemSlice(m', addr, |data|);
    forall k | 0 <= k < |data|
      ensures r[k] == if Shifted(addr, k) == addr then data[|data| - 1] else ByteAt(m, Shifted(addr, k))
    {
      MemSliceAt(m', addr, |data|, k);
    }
    assert r == data ==> forall k :: 0 <= k < |data| ==> r[k] == data[k];
  }

  /** Unlocked, with the bridge selected and enabled. */
  ghost predicate Ready(c: Chip, width: byte) {
    !c.locked && c.ldn == ILPC && c.Working() && c.regs(0xf8) == width
  }

  function PutFour(regs: Registers, r: byte, val: word): Registers {
    PutReg(PutReg(PutReg(PutReg(regs, r, ByteOf(val, 3)), r + 1, ByteOf(val, 2)), r + 2, ByteOf(val, 1)),
           r + 3, ByteOf(val, 0))
  }

  lemma PutFourAt(regs: Registers, r: byte, val: word, x: byte)
    requires r in {0xf0, 0xf4}
    ensures var after := PutFour(regs, r, val);
            && after(r) == ByteOf(val, 3) && after(r + 1) == ByteOf(val, 2)
            && after(r + 2) == ByteOf(val, 1) && after(r + 3) == ByteOf(val, 0)
    ensures x !in {r, r + 1, r + 2, r + 3} ==> PutFour(regs, r, val)(x) == regs(x)
  {
    hide ByteOf;
  }

  lemma AddressRegisters(c: Chip, val: word)
    ensures var a := c.(regs := PutFour(c.regs, 0xf0, val));
            a.Address() == val && a.Working() == c.Working() && a.regs(0xf8) == c.regs(0xf8)
  {
    WordFromBytes(val);
    PutFourAt(c.regs, 0xf0, val, ENABLE);
    PutFourAt(c.regs, 0xf0, val, 0xf8);
    hide LittleEndian, ByteOf, PutFour;
  }

  lemma ValueRegisters(c: Chip, val: word)
    ensures var v := c.(regs := PutFour(c.regs, 0xf4, val));
            && v.Value() == val && v.Address() == c.Address()
            && v.Working() == c.Working() && v.regs(0xf8) == c.regs(0xf8)
  {
    WordFromBytes(val);
    PutFourAt(c.regs, 0xf4, val, ENABLE);
    PutFourAt(c.regs, 0xf4, val, 0xf8);
    PutFourAt(c.regs, 0xf4, val, 0xf0);
    PutFourAt(c.regs, 0xf4, val, 0xf1);
    PutFourAt(c.regs, 0xf4, val, 0xf2);
    PutFourAt(c.regs, 0xf4, val, 0xf3);
    hide LittleEndian, ByteOf, PutFour;
  }

  lemma FetchFillsValue(c: Chip)
    requires Ready(c, 2)
    ensures c.Fetch().Value() == Peek(c.mem, c.Address())
  {
    WordFromBytes(Peek(c.mem, c.Address()));
    hide LittleEndian, ByteOf, Peek;
  }

  class Ilpcb {
    const sio: Sio

    constructor (sio: Sio)
      ensures this.sio == sio
    {
      this.sio := sio;
    }

    /** sio_writeb of a plain register of the open bridge. */
    method SetReg(r: byte, v: byte) returns (rc: word)
      requires !sio.chip.locked && sio.chip.ldn == ILPC && r !in {SELECT, TRIGGER, LOCK}
      modifies sio
      ensures rc == 0 || Failed(rc)
      ensures sio.reliable ==> rc == 0
      ensures !sio.chip.locked && sio.chip.ldn == ILPC && sio.chip.mem == old(sio.chip.mem)
      ensures sio.chip.regs == if rc == 0 then PutReg(old(sio.chip.regs), r, v) else old(sio.chip.regs)
    {
      rc := sio.Writeb(r, v);
    }

    /** The steps every access starts with: unlock, select, enable, set the width. */
    method Begin(width: byte) returns (rc: word)
      modifies sio
      ensures rc == 0 || Failed(rc)
      ensures sio.reliable ==> rc == 0
      ensures sio.chip.mem == old(sio.chip.mem)
      ensures rc == 0 ==> Ready(sio.chip, width)
    {
      rc := sio.Unlock();
      if rc != 0 {
        return;
      }
      rc := sio.Select(ILPC);
      if rc != 0 {
        return;
      }
      rc := SetReg(ENABLE, 0x01);
      if rc != 0 {
        return;
      }
      rc := SetReg(0xf8, width);
    }

    /** Four registers from r on, most significant byte first; a failure does not stop
        the other three. */
    method SetFour(r: byte, val: word) returns (rc: word)
      requires !sio.chip.locked && sio.chip.ldn == ILPC && r in {0xf0, 0xf4}
      modifies sio
      ensures rc == 0 || Failed(rc)
      ensures sio.reliable ==> rc == 0
      ensures !sio.chip.locked && sio.chip.ldn == ILPC && sio.chip.mem == old(sio.chip.mem)
      ensures rc == 0 ==> sio.chip.regs == PutFour(old(sio.chip.regs), r, val)
    {
      hide Failed, ByteOf, PutReg;
      rc := SetReg(r, ByteOf(val, 3));
      var e1 := SetReg(r + 1, ByteOf(val, 2));
      EitherFails(rc, e1);
      rc := rc | e1;
      var e2 := SetReg(r + 2, ByteOf(val, 1));
      EitherFails(rc, e2);
      rc := rc | e2;
      var e3 := SetReg(r + 3, ByteOf(val, 0));
      EitherFails(rc, e3);
      rc := rc | e3;
    }

    method SetAddress(addr: word, ghost width: byte) returns (rc: word)
      requires Ready(sio.chip, width)
      modifies sio
      ensures rc == 0 || Failed(rc)
      ensures sio.reliable ==> rc == 0
      ensures !sio.chip.locked && sio.chip.ldn == ILPC && sio.chip.mem == old(sio.chip.mem)
      ensures rc == 0 ==> Ready(sio.chip, width) && sio.chip.Address() == addr
    {
      AddressRegisters(sio.chip, addr);
      rc := SetFour(0xf0, addr);
    }

    method SetValue(val: word, ghost addr: word) returns (rc: word)
      requires Ready(sio.chip, 2) && sio.chip.Address() == addr
      modifies sio
      ensures rc == 0 || Failed(rc)
      ensures sio.reliable ==> rc == 0
      ensures !sio.chip.locked && sio.chip.ldn == ILPC && sio.chip.mem == old(sio.chip.mem)
      ensures rc == 0 ==> Ready(sio.chip, 2) && sio.chip.Address() == addr && sio.chip.Value() == val
    {
      ValueRegisters(sio.chip, val);
      rc := SetFour(0xf4, val);
    }

    /** sio_readb of a plain register of the open bridge. */
    method GetReg(r: byte) returns (rc: word, v: byte)
      requires !sio.chip.locked && sio.chip.ldn == ILPC && r !in {SELECT, TRIGGER, LOCK}
      modifies sio
      ensures rc == 0 || Failed(rc)
      ensures sio.reliable ==> rc == 0
      ensures !sio.chip.locked && sio.chip.ldn == ILPC
      ensures sio.chip.mem == old(sio.chip.mem) && sio.chip.regs == old(sio.chip.regs)
      ensures rc == 0 ==> v == sio.chip.regs(r)
    {
      rc, v := sio.Readb(r);
    }

    /** Reading the trigger register makes the bridge fetch. */
    method TriggerFetch(ghost width: byte) returns (rc: word)
      requires Ready(sio.chip, width)
      modifies sio
      ensures rc == 0 || Failed(rc)
      ensures sio.reliable ==> rc == 0
      ensures Ready(sio.chip, width) && sio.chip.mem == old(sio.chip.mem)
      ensures rc == 0 ==> sio.chip.regs == old(sio.chip).Fetch().regs
    {
      var data: byte;
      rc, data := sio.Readb(TRIGGER);
    }

    method TriggerStore(ghost width: byte) returns (rc: word)
      requires Ready(sio.chip, width)
      modifies sio
      ensures rc == 0 || Failed(rc)
      ensures sio.reliable ==> rc == 0
      ensures Ready(sio.chip, width)
      ensures sio.chip.mem == if rc == 0 then old(sio.chip).Store().mem else old(sio.chip.mem)
    {
      rc := sio.Writeb(TRIGGER, TRIGGER_WRITE);
    }

    /** The four value registers, put together; a failure does not stop the others. */
    method GetValue() returns (rc: word, val: word)
      requires Ready(sio.chip, 2)
      modifies sio
      ensures rc == 0 || Failed(rc)
      ensures sio.reliable ==> rc == 0
      ensures sio.chip.mem == old(sio.chip.mem)
      ensures rc == 0 ==> val == old(sio.chip.Value())
    {
      var b3, b2, b1, b0: byte, e1, e2, e3;
      rc, b3 := GetReg(0xf4);
      e1, b2 := GetReg(0xf5);
      EitherFails(rc, e1);
      rc := rc | e1;
      e2, b1 := GetReg(0xf6);
      EitherFails(rc, e2);
      rc := rc | e2;
      e3, b0 := GetReg(0xf7);
      EitherFails(rc, e3);
      rc := rc | e3;
      var extracted: word := 0;
      extracted := (extracted << 8) | b3 as word;
      extracted := (extracted << 8) | b2 as word;
      extracted := (extracted << 8) | b1 as word;
      extracted := (extracted << 8) | b0 as word;
      val := extracted;
    }

    /** ilpcb_read; locked is what the lock write returned. */
    method Read(addr: word, buf: array<byte>, len: nat) returns (rc: int, ghost locked: word)
      requires len <= buf.Length
      modifies sio, buf
      ensures len > 0x7fff_ffff_ffff_ffff ==> rc == -1 && sio.chip == old(sio.chip) && locked == 0
      ensures len <= SSIZE_MAX ==> (rc == -1 || rc == len) && (locked == 0 ==> sio.chip.locked)
      ensures len <= SSIZE_MAX && sio.reliable ==> rc == len && locked == 0
      ensures sio.chip.mem == old(sio.chip.mem)
      ensures rc != -1 ==> buf[..len] == MemSlice(sio.chip.mem, addr, len)
      ensures buf[len..] == old(buf[len..])
    {
      if len > SSIZE_MAX {
        return -1, 0;
      }
      var e := ReadBytes(addr, buf, len);
      var l := sio.Lock();
      locked := l;
      rc := if e != 0 then -1 else len;
    }

    /** ilpcb_read up to the label done. */
    method ReadBytes(addr: word, buf: array<byte>, len: nat) returns (rc: word)
      requires len <= buf.Length
      modifies sio, buf
      ensures sio.reliable ==> rc == 0
      ensures sio.chip.mem == old(sio.chip.mem)
      ensures rc == 0 ==> buf[..len] == MemSlice(sio.chip.mem, addr, len)
      ensures buf[len..] == old(buf[len..])
    {
      rc := Begin(0);
      if rc != 0 {
        return;
      }
      hide Ready, Failed, Shifted, MemSlice;
      ghost var m := sio.chip.mem;
      ShiftedStart(m, addr);
      var a, at, remaining := addr, 0, len;
      while remaining != 0
        invariant 0 <= remaining && 0 <= at && at + remaining == len && a == Shifted(addr, at)
        invariant rc == 0 && Ready(sio.chip, 0) && sio.chip.mem == m
        invariant buf[..at] == MemSlice(m, addr, at)
        invariant buf[len..] == old(buf[len..])
        decreases remaining
      {
        var b: byte;
        rc, b := ReadByte(a);
        if rc != 0 {
          return;
        }
        buf[at] := b;
        MemSliceGrows(m, addr, at);
        assert buf[..at + 1] == buf[..at] + [b];
        a, at, remaining := a + 1, at + 1, remaining - 1;
      }
    }

    /** One turn of the loop of ilpcb_read. */
    method ReadByte(addr: word) returns (rc: word, b: byte)
      requires Ready(sio.chip, 0)
      modifies sio
      ensures sio.reliable ==> rc == 0
      ensures sio.chip.mem == old(sio.chip.mem)
      ensures rc == 0 ==> Ready(sio.chip, 0) && b == ByteAt(sio.chip.mem, addr)
    {
      b := 0;
      rc := SetAddress(addr, 0);
      if rc != 0 {
        return;
      }
      rc := TriggerFetch(0);
      if rc != 0 {
        return;
      }
      rc, b := GetReg(0xf7);
    }

    /** ilpcb_write: the address is never advanced, so whatever the length only the byte
        at addr is stored, and it ends up as the last one given. */
    method Write(addr: word, data: seq<byte>) returns (rc: int, ghost locked: word)
      modifies sio
      ensures |data| > 0x7fff_ffff_ffff_ffff ==> rc == -1 && sio.chip == old(sio.chip) && locked == 0
      ensures |data| <= SSIZE_MAX ==> (rc == -1 || rc == |data|) && (locked == 0 ==> sio.chip.locked)
      ensures |data| <= SSIZE_MAX && sio.reliable ==> rc == |data| && locked == 0
      ensures OnlyAt(old(sio.chip.mem), sio.chip.mem, addr)
      ensures rc != -1 && data != [] ==> ByteAt(sio.chip.mem, addr) == data[|data| - 1]
    {
      OnlyAtSelf(sio.chip.mem, addr);
      if |data| > SSIZE_MAX {
        return -1, 0;
      }
      var e := WriteBytes(addr, data);
      var l := sio.Lock();
      locked := l;
      rc := if e != 0 then -1 else |data|;
    }

    /** ilpcb_write up to the label done. */
    method WriteBytes(addr: word, data: seq<byte>) returns (rc: word)
      modifies sio
      ensures sio.reliable ==> rc == 0
      ensures OnlyAt(old(sio.chip.mem), sio.chip.mem, addr)
      ensures rc == 0 && data != [] ==> ByteAt(sio.chip.mem, addr) == data[|data| - 1]
    {
      hide Ready, Failed, OnlyAt;
      OnlyAtSelf(sio.chip.mem, addr);
      rc := Begin(0);
      if rc != 0 {
        return;
      }
      var at, remaining := 0, |data|;
      while remaining != 0
        invariant 0 <= remaining && 0 <= at && at + remaining == |data|
        invariant rc == 0 && Ready(sio.chip, 0) && OnlyAt(old(sio.chip.mem), sio.chip.mem, addr)
        invariant at > 0 ==> ByteAt(sio.chip.mem, addr) == data[at - 1]
        decreases remaining
      {
        ghost var m := sio.chip.mem;
        rc := WriteByte(addr, data[at]);
        OnlyAtTrans(old(sio.chip.mem), m, sio.chip.mem, addr);
        if rc != 0 {
          return;
        }
        at, remaining := at + 1, remaining - 1;
      }
    }

    /** One turn of the loop of ilpcb_write. */
    method WriteByte(addr: word, b: byte) returns (rc: word)
      requires Ready(sio.chip, 0)
      modifies sio
      ensures sio.reliable ==> rc == 0
      ensures OnlyAt(old(sio.chip.mem), sio.chip.mem, addr)
      ensures rc == 0 ==> Ready(sio.chip, 0) && ByteAt(sio.chip.mem, addr) == b
    {
      rc := SetAddress(addr, 0);
      if rc != 0 {
        return;
      }
      rc := SetReg(0xf7, b);
      if rc != 0 {
        return;
      }
      rc := TriggerStore(0);
    }

    /** ilpcb_readl */
    method Readl(addr: word) returns (rc: word, val: word, ghost locked: word)
      modifies sio
      ensures sio.reliable ==> rc == 0 && locked == 0
      ensures locked == 0 ==> sio.chip.locked
      ensures sio.chip.mem == old(sio.chip.mem)
      ensures rc == 0 ==> val == Peek(sio.chip.mem, addr) && Holds(sio.chip.mem, addr, val)
    {
      WordsAreBytes(sio.chip.mem, addr, 0);
      hide Holds, Peek;
      rc, val := ReadWord(addr);
      var l := sio.Lock();
      locked := l;
    }

    /** ilpcb_readl up to the label done. */
    method ReadWord(addr: word) returns (rc: word, val: word)
      modifies sio
      ensures sio.reliable ==> rc == 0
      ensures sio.chip.mem == old(sio.chip.mem)
      ensures rc == 0 ==> val == Peek(sio.chip.mem, addr)
    {
      val := 0;
      rc := Begin(2);
      if rc != 0 {
        return;
      }
      rc := SetAddress(addr, 2);
      if rc != 0 {
        return;
      }
      FetchFillsValue(sio.chip);
      rc := TriggerFetch(2);
      if rc != 0 {
        return;
      }
      rc, val := GetValue();
    }

    /** ilpcb_writel: the store happens exactly if it reports success. */
    method Writel(addr: word, val: word) returns (rc: word, ghost locked: word)
      modifies sio
      ensures sio.reliable ==> rc == 0 && locked == 0
      ensures locked == 0 ==> sio.chip.locked
      ensures sio.chip.mem == if rc == 0 then Poke(old(sio.chip.mem), addr, val) else old(sio.chip.mem)
      ensures rc == 0 ==> Holds(sio.chip.mem, addr, val)
    {
      WordsAreBytes(sio.chip.mem, addr, val);
      hide Holds, Poke;
      rc := WriteWord(addr, val);
      var l := sio.Lock();
      locked := l;
    }

    /** ilpcb_writel up to the label done. */
    method WriteWord(addr: word, val: word) returns (rc: word)
      modifies sio
      ensures sio.reliable ==> rc == 0
      ensures sio.chip.mem == if rc == 0 then Poke(old(sio.chip.mem), addr, val) else old(sio.chip.mem)
    {
      rc := Begin(2);
      if rc != 0 {
        return;
      }
      rc := SetAddress(addr, 2);
      if rc != 0 {
        return;
      }
      rc := SetValue(val, addr);
      if rc != 0 {
        return;
      }
      rc := TriggerStore(2);
    }

    /** What is stored is what is loaded, whatever state the device was in before. */
    method StoreThenLoad(addr: word, val: word) returns (stored: word, loaded: word, got: word)
      modifies sio
      ensures stored == 0 && loaded == 0 ==> got == val
      ensures sio.reliable ==> stored == 0 && loaded == 0 && sio.chip.locked
    {
      ghost var l1, l2;
      PeekAfterPoke(sio.chip.mem, addr, val, addr);
      stored, l1 := Writel(addr, val);
      loaded, got, l2 := Readl(addr);
    }
  }
}
