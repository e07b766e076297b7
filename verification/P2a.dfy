/** src/bridge/p2a.c: the BMC's address space behind a 64 KiB window of a PCI device.
    The driver moves the window by writing RBAR and remembers what it wrote. */
module P2aBridge {
  import opened Bytes
  import opened Words
  import opened Limits

  const SPACE: nat := TWO_32
  const WINDOW: nat := 0x1_0000

  // ---- flat memory: what the bridge must agree with ----

  /** The n bytes from phys on; the physical address is 32 bits wide and wraps. */
  function FlatRead(m: seq<byte>, phys: nat, n: nat): (r: seq<byte>)
    requires |m| == SPACE
    ensures |r| == n
  {
    seq(n, k requires 0 <= k < n => m[(phys + k) % SPACE])
  }

  /** phys + n, in 32 bits. */
  function Advance(phys: nat, n: nat): (r: nat)
    ensures r < SPACE
  {
    (phys + n) % SPACE
  }

  lemma AdvanceTwice(phys: nat, a: nat, b: nat)
    ensures Advance(Advance(phys, a), b) == Advance(phys, a + b)
  {
  }

  function FlatWrite(m: seq<byte>, phys: nat, data: seq<byte>): (r: seq<byte>)
    requires |m| == SPACE && phys < SPACE
    ensures |r| == SPACE
    decreases |data|
  {
    if data == [] then m else FlatWrite(m[phys := data[0]], Advance(phys, 1), data[1..])
  }

  lemma FlatReadAppend(m: seq<byte>, phys: nat, a: nat, b: nat)
    requires |m| == SPACE
    ensures FlatRead(m, phys, a + b) == FlatRead(m, phys, a) + FlatRead(m, Advance(phys, a), b)
  {
  }

  lemma FlatReadWithin(m: seq<byte>, phys: nat, n: nat)
    requires |m| == SPACE && phys + n <= SPACE
    ensures FlatRead(m, phys, n) == m[phys..phys + n]
  {
  }

  lemma FlatWriteStep(m: seq<byte>, phys: nat, a: seq<byte>, b: seq<byte>)
    requires |m| == SPACE && phys < SPACE && a != []
    ensures FlatWrite(m, phys, a + b) == FlatWrite(m[phys := a[0]], Advance(phys, 1), a[1..] + b)
  {
    assert (a + b)[1..] == a[1..] + b && (a + b)[0] == a[0];
  }

  lemma {:induction false} FlatWriteAppend(m: seq<byte>, phys: nat, a: seq<byte>, b: seq<byte>)
    requires |m| == SPACE && phys < SPACE
    ensures FlatWrite(m, phys, a + b) == FlatWrite(FlatWrite(m, phys, a), Advance(phys, |a|), b)
    decreases |a|
  {
    if a == [] {
      assert a + b == b;
    } else {
      FlatWriteStep(m, phys, a, b);
      FlatWriteStep(m, phys, a, []);
      AdvanceTwice(phys, 1, |a| - 1);
      hide FlatWrite, Advance;
      assert a + [] == a && a[1..] + [] == a[1..];
      FlatWriteAppend(m[phys := a[0]], Advance(phys, 1), a[1..], b);
    }
  }

  lemma {:induction false} FlatWriteWithin(m: seq<byte>, phys: nat, data: seq<byte>)
    requires |m| == SPACE && phys < SPACE && phys + |data| <= SPACE
    ensures FlatWrite(m, phys, data) == Overlay(m, phys, data)
    decreases |data|
  {
    if |data| == 1 {
      assert FlatWrite(m, phys, data) == m[phys := data[0]];
    } else if data != [] {
      FlatWriteWithin(m[phys := data[0]], phys + 1, data[1..]);
    }
  }

  // ---- windows ----

  /** Exactly the requests whose every 64 KiB chunk stays inside the window. */
  predicate Clean(phys: nat, len: nat) {
    phys % WINDOW == 0 || phys % WINDOW + len <= WINDOW
  }

  predicate Fits(phys: nat, n: nat) {
    phys % WINDOW + n <= WINDOW
  }

  predicate AtChunk(done: nat) {
    done % WINDOW == 0
  }

  function ChunkOf(remaining: nat): (n: nat)
    ensures n <= remaining && (n == remaining || n == WINDOW)
  {
    if remaining > WINDOW then WINDOW else remaining
  }

  lemma OffsetKept(phys: nat, done: nat)
    requires AtChunk(done)
    ensures Advance(phys, done) % WINDOW == phys % WINDOW
  {
    assert SPACE % WINDOW == 0;
  }

  lemma NextChunk(done: nat)
    requires AtChunk(done)
    ensures AtChunk(done + WINDOW) && (done == 0 || done >= WINDOW)
  {
  }

  /** What one more chunk does to the requests served so far. */
  lemma CleanSteps(phys: nat, done: nat, remaining: nat)
    requires phys < SPACE && AtChunk(done)
    ensures var n := ChunkOf(remaining);
            && (Clean(phys, done + n) <==> Clean(phys, done) && Fits(Advance(phys, done), n))
            && Advance(Advance(phys, done), n) == Advance(phys, done + n)
            && (n < remaining ==> AtChunk(done + n) && 0 < n)
  {
    OffsetKept(phys, done);
    NextChunk(done);
    AdvanceTwice(phys, done, ChunkOf(remaining));
    hide Advance, AtChunk;
  }

  lemma CleanStart(phys: nat)
    requires phys < SPACE
    ensures Clean(phys, 0) && Advance(phys, 0) == phys && AtChunk(0)
  {
  }

  lemma NothingWritten(m: seq<byte>, phys: nat)
    requires |m| == SPACE && phys < SPACE
    ensures FlatWrite(m, phys, []) == m
  {
  }

  lemma NothingOver(img: seq<byte>, data: seq<byte>)
    requires |data| == 0
    ensures Overlay(img, 0, data) == img
  {
  }

  /** The variables of the copy loops: next address, bytes done, bytes left, and whether
      the do-while loop turns again. */
  datatype Cursor = Cursor(p: nat, at: nat, remaining: nat, again: bool) {
    ghost predicate Live(phys: nat) {
      phys < SPACE && p == Advance(phys, at) && AtChunk(at)
    }

    ghost predicate Valid(phys: nat, len: nat) {
      && phys < SPACE && at + remaining == len
      && (if again then Live(phys) && (at == 0 || remaining > 0) else remaining == 0)
    }

    function Next(): Cursor {
      var n := ChunkOf(remaining);
      Cursor(Advance(p, n), at + n, remaining - n, n != remaining)
    }

    function Left(): nat {
      if again then remaining + 1 else 0
    }

    lemma Step(phys: nat, len: nat)
      requires again && Valid(phys, len)
      ensures Live(phys) && Next().Valid(phys, len) && Next().Left() < Left()
      ensures at + remaining == len
      ensures Clean(phys, Next().at) <==> Clean(phys, at) && Fits(p, ChunkOf(remaining))
    {
      CleanSteps(phys, at, remaining);
      hide Clean, Fits, Advance, AtChunk;
    }
  }

  function Start(phys: nat, len: nat): (c: Cursor)
    requires phys < SPACE
    ensures c.again && c.at == 0 && c.Valid(phys, len) && Clean(phys, 0)
  {
    CleanStart(phys);
    Cursor(phys, 0, len, true)
  }

  // ---- runs ----

  /** What the bridge is asked for. A reset of the BMC leaves RBAR and memory as it likes
      and is followed by the driver's reinit. */
  datatype Request =
    | Get(phys: nat, len: nat)
    | Put(phys: nat, data: seq<byte>)
    | GetWord(phys: nat)
    | PutWord(phys: nat, val: word)
    | Reset(base: nat, mem: seq<byte>)
  {
    ghost predicate InBounds() {
      match this
      case Get(p, n) => p < SPACE && Clean(p, n)
      case Put(p, d) => p < SPACE && Clean(p, |d|)
      case GetWord(p) => p < SPACE
      case PutWord(p, _) => p < SPACE && Fits(p, 4)
      case Reset(b, m) => b < SPACE && b % WINDOW == 0 && |m| == SPACE
    }
  }

  datatype Reply = Data(bytes: seq<byte>) | Word(val: word) | Done | Refused

  ghost function WordAt(m: seq<byte>, phys: nat): word
    requires phys + 4 <= |m|
  {
    LittleEndian(m[phys], m[phys + 1], m[phys + 2], m[phys + 3])
  }

  function WordBytes(val: word): (r: seq<byte>)
    ensures |r| == 4
  {
    [ByteOf(val, 0), ByteOf(val, 1), ByteOf(val, 2), ByteOf(val, 3)]
  }

  ghost function FlatReply(m: seq<byte>, q: Request): Reply
    requires |m| == SPACE && q.InBounds()
  {
    match q
    case Get(p, n) => if n > SSIZE_MAX then Refused else Data(FlatRead(m, p, n))
    case Put(_, d) => if |d| > SSIZE_MAX then Refused else Done
    case GetWord(p) => if p % 4 != 0 then Refused else Word(WordAt(m, p))
    case _ => Done
  }

  ghost function FlatNext(m: seq<byte>, q: Request): (r: seq<byte>)
    requires |m| == SPACE && q.InBounds()
    ensures |r| == SPACE
  {
    match q
    case Put(p, d) => if |d| > SSIZE_MAX then m else FlatWrite(m, p, d)
    case PutWord(p, v) => FlatWrite(m, p, WordBytes(v))
    case Reset(_, mem) => mem
    case _ => m
  }

  ghost function FlatReplies(m: seq<byte>, reqs: seq<Request>): seq<Reply>
    requires |m| == SPACE && forall q :: q in reqs ==> q.InBounds()
    decreases |reqs|
  {
    if reqs == [] then [] else [FlatReply(m, reqs[0])] + FlatReplies(FlatNext(m, reqs[0]), reqs[1..])
  }

  ghost function FlatRun(m: seq<byte>, reqs: seq<Request>): (r: seq<byte>)
    requires |m| == SPACE && forall q :: q in reqs ==> q.InBounds()
    ensures |r| == SPACE
    decreases |reqs|
  {
    if reqs == [] then m else FlatRun(FlatNext(m, reqs[0]), reqs[1..])
  }

  /** The four bytes of memory from phys on stand for this number. */
  ghost predicate Holds(m: seq<byte>, phys: nat, val: word)
    requires phys + 4 <= |m|
  {
    StandFor(m[phys..phys + 4], val)
  }

  lemma WordHolds(m: seq<byte>, phys: nat)
    requires phys + 4 <= |m|
    ensures Holds(m, phys, WordAt(m, phys))
  {
    LittleEndianValue(m[phys], m[phys + 1], m[phys + 2], m[phys + 3]);
    hide LittleEndian;
  }

  lemma StoredHolds(m: seq<byte>, phys: nat, val: word)
    requires |m| == SPACE && phys + 4 <= SPACE
    ensures Holds(FlatWrite(m, phys, WordBytes(val)), phys, val)
  {
    FlatWriteWithin(m, phys, WordBytes(val));
    hide FlatWrite;
    var after := Overlay(m, phys, WordBytes(val));
    hide ByteOf;
    assert after[phys] == ByteOf(val, 0) && after[phys + 1] == ByteOf(val, 1);
    assert after[phys + 2] == ByteOf(val, 2) && after[phys + 3] == ByteOf(val, 3);
    ByteOfValue(val);
  }

  lemma StoredOutside(m: seq<byte>, phys: nat, val: word)
    requires |m| == SPACE && phys + 4 <= SPACE
    ensures SameOutside(m, FlatWrite(m, phys, WordBytes(val)), phys, phys + 4)
  {
    FlatWriteWithin(m, phys, WordBytes(val));
    hide FlatWrite, WordBytes;
  }

  lemma WordFits(phys: nat)
    requires phys < SPACE && phys % 4 == 0
    ensures Clean(phys, 4) && Fits(phys, 4) && phys + 4 <= SPACE
  {
  }

  /** A word request is answered with the number that the bytes a byte request gets stand
      for, and what a word request stores is that number to a byte request. */
  lemma WordsAreBytes(m: seq<byte>, phys: nat, val: word)
    requires |m| == SPACE && phys < SPACE && phys % 4 == 0
    ensures Get(phys, 4).InBounds() && PutWord(phys, val).InBounds()
    ensures var w, d := FlatReply(m, GetWord(phys)), FlatReply(m, Get(phys, 4));
            w.Word? && d.Data? && |d.bytes| == 4 && StandFor(d.bytes, w.val)
    ensures var d := FlatReply(FlatNext(m, PutWord(phys, val)), Get(phys, 4));
            d.Data? && |d.bytes| == 4 && StandFor(d.bytes, val)
  {
    hide WordAt, FlatWrite, WordBytes, FlatRead, StandFor, Holds;
    WordFits(phys);
    hide Fits, Clean;
    WordHolds(m, phys);
    StoredHolds(m, phys, val);
    HeldBytes(m, phys, WordAt(m, phys));
    HeldBytes(FlatWrite(m, phys, WordBytes(val)), phys, val);
  }

  lemma HeldBytes(m: seq<byte>, phys: nat, val: word)
    requires |m| == SPACE && phys + 4 <= SPACE && Holds(m, phys, val)
    ensures StandFor(FlatRead(m, phys, 4), val)
  {
    FlatReadWithin(m, phys, 4);
    hide FlatRead;
  }

  /** What was put is what is got, for bytes and for words. */
  lemma PutThenGet(m: seq<byte>, phys: nat, data: seq<byte>, val: word)
    requires |m| == SPACE && phys + |data| <= SPACE && phys + 4 <= SPACE
    ensures FlatRead(FlatWrite(m, phys, data), phys, |data|) == data
    ensures WordAt(FlatWrite(m, phys, WordBytes(val)), phys) == val
  {
    FlatWriteWithin(m, phys, data);
    FlatReadWithin(FlatWrite(m, phys, data), phys, |data|);
    FlatWriteWithin(m, phys, WordBytes(val));
    WordFromBytes(val);
  }

  /** The PCI device: two registers and the window. An access that leaves the mapping is
      recorded; the bytes it moves beyond are nobody's. */
  class Device {
    var mem: seq<byte>
    var rbar: nat
    var key: nat
    var overrun: bool

    ghost predicate Valid()
      reads this
    {
      |mem| == SPACE && rbar < SPACE && rbar % WINDOW == 0
    }

    method WindowRead(offset: nat, n: nat, buf: array<byte>, at: nat)
      requires Valid() && at + n <= buf.Length
      modifies this`overrun, buf
      ensures overrun == (old(overrun) || offset + n > WINDOW)
      ensures offset + n <= WINDOW ==> buf[..] == Overlay(old(buf[..]), at, mem[rbar + offset..rbar + offset + n])
    {
      if offset + n > WINDOW {
        overrun := true;
        return;
      }
      ghost var want := Overlay(buf[..], at, mem[rbar + offset..rbar + offset + n]);
      forall k | 0 <= k < n {
        buf[at + k] := mem[rbar + offset + k];
      }
      assert buf[..] == want;
    }

    method WindowWrite(offset: nat, data: seq<byte>)
      requires Valid()
      modifies this`overrun, this`mem
      ensures Valid() && overrun == (old(overrun) || offset + |data| > WINDOW)
      ensures offset + |data| <= WINDOW ==> mem == Overlay(old(mem), rbar + offset, data)
    {
      if offset + |data| > WINDOW {
        overrun := true;
      } else {
        mem := Overlay(mem, rbar + offset, data);
      }
    }
  }

  class Bridge {
    const dev: Device
    var rbar: nat

    /** p2ab_init, once the BAR is mapped. */
    constructor (dev: Device)
      requires dev.Valid()
      modifies dev
      ensures this.dev == dev && Valid() && dev.key == 1
      ensures dev.mem == old(dev.mem) && dev.overrun == old(dev.overrun)
    {
      this.dev := dev;
      rbar := 0;
      new;
      dev.rbar := rbar;
      dev.key := 1;
    }

    /** The cache agrees with the hardware. */
    ghost predicate Valid()
      reads this, dev
    {
      dev.Valid() && rbar == dev.rbar
    }

    /** p2ab_map. A register write cannot fail here. */
    method Map(phys: nat) returns (offset: nat)
      requires Valid() && phys < SPACE
      modifies this, dev`rbar
      ensures Valid() && offset < WINDOW && dev.rbar + offset == phys
    {
      offset := phys % WINDOW;
      var base := phys - offset;  // phys & 0xffff0000
      if rbar == base {
        return;
      }
      dev.rbar := base;
      rbar := base;
    }

    method ReadChunk(phys: nat, n: nat, buf: array<byte>, at: nat)
      requires Valid() && phys < SPACE && at + n <= buf.Length
      modifies this, dev`rbar, dev`overrun, buf
      ensures Valid() && dev.overrun == (old(dev.overrun) || !Fits(phys, n))
      ensures Fits(phys, n) ==> buf[..] == Overlay(old(buf[..]), at, FlatRead(dev.mem, phys, n))
    {
      var offset := Map(phys);
      assert offset == phys % WINDOW;
      dev.WindowRead(offset, n, buf, at);
      if offset + n <= WINDOW {
        FlatReadWithin(dev.mem, phys, n);
      }
    }

    /** The first at bytes have been fetched into the buffer, which held was before. */
    ghost predicate Fetched(phys: nat, buf: array<byte>, at: nat, was: seq<byte>)
      reads this, dev, buf
    {
      && Valid() && at <= buf.Length == |was|
      && (Clean(phys, at) ==> buf[..] == Overlay(was, 0, FlatRead(dev.mem, phys, at)))
    }

    /** One turn of the loop of p2ab_read. */
    method NextRead(ghost phys: nat, c: Cursor, buf: array<byte>, ghost was: seq<byte>) returns (c': Cursor)
      requires c.Live(phys) && Fetched(phys, buf, c.at, was) && c.at + c.remaining <= buf.Length
      modifies this, dev`rbar, dev`overrun, buf
      ensures c' == c.Next() && Fetched(phys, buf, c'.at, was)
      ensures dev.overrun == (old(dev.overrun) || !Fits(c.p, ChunkOf(c.remaining)))
    {
      hide Clean, Fits, Advance, AtChunk, FlatRead, Overlay;
      var n := ChunkOf(c.remaining);
      c' := c.Next();
      CleanSteps(phys, c.at, c.remaining);
      ReadChunk(c.p, n, buf, c.at);
      FlatReadAppend(dev.mem, phys, c.at, n);
      OverlayAppend(was, 0, FlatRead(dev.mem, phys, c.at), FlatRead(dev.mem, c.p, n));
    }

    /** p2ab_read */
    method Read(phys: nat, buf: array<byte>, len: nat) returns (rc: int)
      requires Valid() && phys < SPACE && len <= buf.Length
      modifies this, dev`rbar, dev`overrun, buf
      ensures Valid()
      ensures len > 0x7fff_ffff_ffff_ffff ==> rc == -1 && dev.overrun == old(dev.overrun) && buf[..] == old(buf[..])
      ensures len <= SSIZE_MAX ==> rc == len && dev.overrun == (old(dev.overrun) || !Clean(phys, len))
      ensures phys % 0x1_0000 == 0 || phys % 0x1_0000 + len <= 0x1_0000 <==> Clean(phys, len)
      ensures len <= SSIZE_MAX && Clean(phys, len) ==> buf[..] == Overlay(old(buf[..]), 0, FlatRead(dev.mem, phys, len))
    {
      if len > SSIZE_MAX {
        return -1;
      }
      ghost var was := buf[..];
      NothingOver(was, FlatRead(dev.mem, phys, 0));
      var c := Start(phys, len);
      while c.again
        invariant c.Valid(phys, len) && Fetched(phys, buf, c.at, was)
        invariant dev.overrun == (old(dev.overrun) || !Clean(phys, c.at))
        decreases c.Left()
      {
        hide Cursor.Valid, Cursor.Live, Cursor.Next, Fetched, Cursor.Left, Clean, Fits;
        c.Step(phys, len);
        c := NextRead(phys, c, buf, was);
      }
      return len;
    }

    method WriteChunk(phys: nat, data: seq<byte>)
      requires Valid() && phys < SPACE
      modifies this, dev`rbar, dev`overrun, dev`mem
      ensures Valid() && dev.overrun == (old(dev.overrun) || !Fits(phys, |data|))
      ensures Fits(phys, |data|) ==> dev.mem == FlatWrite(old(dev.mem), phys, data)
    {
      var offset := Map(phys);
      assert offset == phys % WINDOW;
      if offset + |data| <= WINDOW {
        FlatWriteWithin(dev.mem, phys, data);
      }
      dev.WindowWrite(offset, data);
    }

    /** These bytes have been stored, into memory that was. */
    ghost predicate Stored(phys: nat, was: seq<byte>, data: seq<byte>)
      reads this, dev
    {
      && Valid() && |was| == SPACE && phys < SPACE
      && (Clean(phys, |data|) ==> dev.mem == FlatWrite(was, phys, data))
    }

    /** One turn of the loop of p2ab_write. */
    method NextWrite(ghost phys: nat, c: Cursor, data: seq<byte>, ghost was: seq<byte>) returns (c': Cursor)
      requires c.Live(phys) && c.at + c.remaining <= |data| && Stored(phys, was, data[..c.at])
      modifies this, dev`rbar, dev`overrun, dev`mem
      ensures c' == c.Next() && c'.at <= |data| && Stored(phys, was, data[..c'.at])
      ensures dev.overrun == (old(dev.overrun) || !Fits(c.p, ChunkOf(c.remaining)))
    {
      hide Clean, Fits, Advance, AtChunk, FlatWrite;
      var n := ChunkOf(c.remaining);
      var chunk := data[c.at..c.at + n];
      c' := c.Next();
      CleanSteps(phys, c.at, c.remaining);
      WriteChunk(c.p, chunk);
      FlatWriteAppend(was, phys, data[..c.at], chunk);
      assert data[..c.at] + chunk == data[..c'.at];
    }

    /** p2ab_write */
    method Write(phys: nat, data: seq<byte>) returns (rc: int)
      requires Valid() && phys < SPACE
      modifies this, dev`rbar, dev`overrun, dev`mem
      ensures Valid()
      ensures |data| > 0x7fff_ffff_ffff_ffff ==> rc == -1 && dev.overrun == old(dev.overrun) && dev.mem == old(dev.mem)
      ensures |data| <= SSIZE_MAX ==> rc == |data| && dev.overrun == (old(dev.overrun) || !Clean(phys, |data|))
      ensures phys % 0x1_0000 == 0 || phys % 0x1_0000 + |data| <= 0x1_0000 <==> Clean(phys, |data|)
      ensures |data| <= SSIZE_MAX && Clean(phys, |data|) ==> dev.mem == FlatWrite(old(dev.mem), phys, data)
    {
      if |data| > SSIZE_MAX {
        return -1;
      }
      NothingWritten(dev.mem, phys);
      var c := Start(phys, |data|);
      while c.again
        invariant c.Valid(phys, |data|) && Stored(phys, old(dev.mem), data[..c.at])
        invariant dev.overrun == (old(dev.overrun) || !Clean(phys, c.at))
        decreases c.Left()
      {
        hide Cursor.Valid, Cursor.Live, Cursor.Next, Stored, Cursor.Left, Clean, Fits;
        c.Step(phys, |data|);
        c := NextWrite(phys, c, data, old(dev.mem));
      }
      assert data[..c.at] == data;
      return |data|;
    }

    /** p2ab_readl */
    method Readl(phys: nat) returns (rc: int, val: word)
      requires Valid() && phys < SPACE
      modifies this, dev`rbar
      ensures Valid()
      ensures phys % 4 != 0 ==> rc == -EINVAL
      ensures phys % 4 == 0 ==> rc == 0 && phys + 4 <= SPACE && val == WordAt(dev.mem, phys)
      ensures rc == 0 ==> StandFor(dev.mem[phys..phys + 4], val)
    {
      if phys % 4 != 0 {
        return -EINVAL, 0;
      }
      var offset := Map(phys);
      var at := dev.rbar + offset;
      val := LittleEndian(dev.mem[at], dev.mem[at + 1], dev.mem[at + 2], dev.mem[at + 3]);
      WordHolds(dev.mem, phys);
      hide LittleEndian, StandFor;
      rc := 0;
    }

    /** p2ab_writel; unlike p2ab_readl it takes any address. */
    method Writel(phys: nat, val: word) returns (rc: int)
      requires Valid() && phys < SPACE
      modifies this, dev`rbar, dev`overrun, dev`mem
      ensures Valid() && rc == 0
      ensures dev.overrun == (old(dev.overrun) || !Fits(phys, 4))
      ensures Fits(phys, 4) ==> dev.mem == FlatWrite(old(dev.mem), phys, WordBytes(val))
      ensures phys % 0x1_0000 + 4 <= 0x1_0000 ==>
                && SameOutside(old(dev.mem), dev.mem, phys, phys + 4)
                && StandFor(dev.mem[phys..phys + 4], val)
    {
      hide FlatWrite, WordBytes, StandFor;
      if phys % 0x1_0000 + 4 <= 0x1_0000 {
        StoredHolds(dev.mem, phys, val);
        StoredOutside(dev.mem, phys, val);
      }
      WriteChunk(phys, WordBytes(val));
      rc := 0;
    }

    /** p2ab_driver_reinit: whatever was done to the hardware, the cache agrees again. */
    method Reinit() returns (rc: int)
      requires dev.Valid()
      modifies this
      ensures Valid() && rc == 0
    {
      rbar := dev.rbar;
      rc := 0;
    }

    /** Any sequence of requests sees, and leaves, exactly flat memory. */
    method Serve(reqs: seq<Request>) returns (replies: seq<Reply>)
      requires Valid() && forall q :: q in reqs ==> q.InBounds()
      modifies this, dev`rbar, dev`overrun, dev`mem
      ensures Valid() && dev.overrun == old(dev.overrun)
      ensures replies == FlatReplies(old(dev.mem), reqs)
      ensures dev.mem == FlatRun(old(dev.mem), reqs)
      decreases |reqs|
    {
      if reqs == [] {
        return [];
      }
      var first := ServeOne(reqs[0]);
      assert forall q :: q in reqs[1..] ==> q in reqs;
      var rest := Serve(reqs[1..]);
      replies := [first] + rest;
    }

    method ServeOne(q: Request) returns (reply: Reply)
      requires Valid() && q.InBounds()
      modifies this, dev`rbar, dev`overrun, dev`mem
      ensures Valid() && dev.overrun == old(dev.overrun)
      ensures reply == FlatReply(old(dev.mem), q) && dev.mem == FlatNext(old(dev.mem), q)
    {
      match q
      case Get(phys, len) =>
        var buf := new byte[len];
        var rc := Read(phys, buf, len);
        reply := if rc < 0 then Refused else Data(buf[..]);
      case Put(phys, data) =>
        var rc := Write(phys, data);
        reply := if rc < 0 then Refused else Done;
      case GetWord(phys) =>
        var rc, val := Readl(phys);
        reply := if rc < 0 then Refused else Word(val);
      case PutWord(phys, val) =>
        var rc := Writel(phys, val);
        reply := if rc < 0 then Refused else Done;
      case Reset(base, mem) =>
        dev.rbar, dev.mem := base, mem;
        var rc := Reinit();
        reply := Done;
    }
  }
}
