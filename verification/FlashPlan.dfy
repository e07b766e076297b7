/** What the loops of src/flash.c ask of the chip, as command lists, and what those
    lists do to the memory. */
module FlashPlan {
  import opened Bytes
  import opened EraseTiling
  import opened NorChip

  // ---- commands confined to a range ----

  /** A command the chip accepted, that stays inside [lo, hi): a program of 1..256
      bytes inside one page, or an erase of a naturally aligned block. */
  predicate OpWithin(op: Op, lo: int, hi: int) {
    op.armed &&
    match op
    case Program(at, data, _) =>
      0 < |data| <= PAGE && at % PAGE + |data| <= PAGE && lo <= at && at + |data| <= hi
    case Erase(base, size, _) =>
      0 < size && base % size == 0 && lo <= base && base + size <= hi
  }

  predicate OpsWithin(ops: seq<Op>, lo: int, hi: int) {
    forall i :: 0 <= i < |ops| ==> OpWithin(ops[i], lo, hi)
  }

  /** Whatever happened between b and a, it was confined to [lo, hi): commands were
      only added, all accepted and in range, and the memory elsewhere is as before. */
  ghost predicate Confined(b: Nor, a: Nor, lo: int, hi: int) {
    && a.part == b.part && a.wide == b.wide && a.flaws <= b.flaws && a.wrens >= b.wrens
    && a.deaf <= a.part.maxDeaf
    && SameOutside(b.mem, a.mem, lo, hi)
    && b.ops <= a.ops && OpsWithin(a.ops[|b.ops|..], lo, hi)
  }

  lemma ConfinedTrans(a: Nor, b: Nor, c: Nor, lo: int, hi: int)
    requires Confined(a, b, lo, hi) && Confined(b, c, lo, hi)
    ensures Confined(a, c, lo, hi)
  {
    assert c.ops[|a.ops|..] == b.ops[|a.ops|..] + c.ops[|b.ops|..] by {
      assert c.ops[..|b.ops|] == b.ops;
    }
  }

  lemma ConfinedWidens(a: Nor, b: Nor, lo: int, hi: int, lo': int, hi': int)
    requires Confined(a, b, lo, hi) && lo' <= lo && hi <= hi'
    ensures Confined(a, b, lo', hi')
  {
    SameOutsideWidens(a.mem, b.mem, lo, hi, lo', hi');
  }

  /** Only the write-enable and busy bookkeeping moved. */
  ghost predicate Quiet(b: Nor, a: Nor) {
    && a == b.(wel := a.wel, busy := a.busy, deaf := a.deaf, wrens := a.wrens)
    && a.wrens >= b.wrens && a.deaf <= b.deaf && a.busy <= b.busy
  }

  lemma QuietConfined(b: Nor, a: Nor, lo: int, hi: int)
    requires Quiet(b, a) && WellFormed(b)
    ensures Confined(b, a, lo, hi)
  {
    assert a.ops[|b.ops|..] == [];
  }

  lemma AcceptsConfined(b: Nor, op: Op, mem: seq<byte>, lo: nat, hi: nat, a: Nor)
    requires Accepts(b, op, mem, lo, hi, a) && OpWithin(op, lo, hi)
    ensures Confined(b, a, lo, hi)
  {
    assert a.ops[|b.ops|..] == [op];
  }

  // ---- page splitting ----

  /** The size of the next program: up to the end of the page, or of the data. */
  function Chunk(at: nat, left: nat): (n: nat)
    ensures left > 0 ==> 0 < n <= left && n <= PAGE && at % PAGE + n <= PAGE
  {
    var room := PAGE - at % PAGE;
    if room > left then left else room
  }

  /** The page programs of flash_write. */
  function Pages(at: nat, data: seq<byte>): seq<Op>
    decreases |data|
  {
    if data == [] then []
    else
      var n := Chunk(at, |data|);
      [Program(at, data[..n], true)] + Pages(at + n, data[n..])
  }

  /** The bytes carried by a list of programs, in order. */
  function Payload(ops: seq<Op>): seq<byte> {
    if ops == [] then []
    else (if ops[0].Program? then ops[0].data else []) + Payload(ops[1..])
  }

  /** The memory after a fault-free chip has run one command. */
  function Effect(mem: seq<byte>, op: Op): (r: seq<byte>)
    ensures |r| == |mem|
  {
    match op
    case Program(at, data, _) => Programmed(mem, at, data)
    case Erase(base, size, _) => Blanked(mem, base, size)
  }

  /** The memory after a fault-free chip has run the commands. */
  function Run(mem: seq<byte>, ops: seq<Op>): (r: seq<byte>)
    ensures |r| == |mem|
    decreases |ops|
  {
    if ops == [] then mem
    else
      Run(Effect(mem, ops[0]), ops[1..])
  }

  /** The commands are programs at consecutive addresses from lo up to hi. */
  predicate Consecutive(ops: seq<Op>, lo: nat, hi: nat)
    decreases |ops|
  {
    if ops == [] then lo == hi
    else ops[0].Program? && ops[0].at == lo && Consecutive(ops[1..], lo + |ops[0].data|, hi)
  }

  lemma {:induction false} PagesWithin(at: nat, data: seq<byte>)
    ensures OpsWithin(Pages(at, data), at, at + |data|)
    decreases |data|
  {
    if data != [] {
      var n := Chunk(at, |data|);
      PagesWithin(at + n, data[n..]);
      assert Pages(at, data) == [Program(at, data[..n], true)] + Pages(at + n, data[n..]);
    }
  }

  lemma PagesCons(at: nat, data: seq<byte>)
    requires data != []
    ensures var n := Chunk(at, |data|);
            Pages(at, data) == [Program(at, data[..n], true)] + Pages(at + n, data[n..])
  {
  }

  lemma PayloadCons(op: Op, rest: seq<Op>)
    requires op.Program?
    ensures Payload([op] + rest) == op.data + Payload(rest)
  {
    assert ([op] + rest)[1..] == rest;
  }

  lemma CarryStep(op: Op, rest: seq<Op>, data: seq<byte>)
    requires op.Program? && |op.data| <= |data| && op.data == data[..|op.data|]
    requires Payload(rest) == data[|op.data|..]
    ensures Payload([op] + rest) == data
  {
    PayloadCons(op, rest);
    hide Payload;
    assert data[..|op.data|] + data[|op.data|..] == data;
  }

  lemma {:induction false} PagesCarry(at: nat, data: seq<byte>)
    ensures Payload(Pages(at, data)) == data
    decreases |data|
  {
    if data != [] {
      PagesCons(at, data);
      hide Pages, Chunk, Payload;
      var n := Chunk(at, |data|);
      PagesCarry(at + n, data[n..]);
      CarryStep(Program(at, data[..n], true), Pages(at + n, data[n..]), data);
    }
  }

  lemma ConsecutiveCons(op: Op, rest: seq<Op>, hi: nat)
    requires op.Program? && Consecutive(rest, op.at + |op.data|, hi)
    ensures Consecutive([op] + rest, op.at, hi)
  {
    assert ([op] + rest)[1..] == rest;
  }

  lemma {:induction false} PagesConsecutive(at: nat, data: seq<byte>)
    ensures Consecutive(Pages(at, data), at, at + |data|)
    decreases |data|
  {
    if data != [] {
      var n := Chunk(at, |data|);
      PagesConsecutive(at + n, data[n..]);
      ConsecutiveCons(Program(at, data[..n], true), Pages(at + n, data[n..]), at + |data|);
    }
  }

  /** Every command programs 1..256 bytes of one page; together they carry exactly
      the data, at consecutive addresses. */
  lemma PagesSplit(at: nat, data: seq<byte>)
    ensures OpsWithin(Pages(at, data), at, at + |data|)
    ensures Payload(Pages(at, data)) == data && Consecutive(Pages(at, data), at, at + |data|)
  {
    PagesWithin(at, data);
    PagesCarry(at, data);
    PagesConsecutive(at, data);
  }

  /** How many 256-byte pages the range overlaps. */
  function PagesOf(lo: nat, hi: nat): nat {
    if lo >= hi then 0 else (hi - 1) / 0x100 - lo / 0x100 + 1
  }

  /** The part of a page that is left over costs at most that page. */
  lemma PagesOfRest(lo: nat, n: nat, hi: nat)
    requires 0 < n && lo + n <= hi && lo % 0x100 + n <= 0x100
    ensures PagesOf(lo, hi) <= PagesOf(lo + n, hi) + 1
    ensures lo + n == hi || (lo + n) % 0x100 == 0 ==> PagesOf(lo, hi) == PagesOf(lo + n, hi) + 1
  {
    assert (lo + n - 1) / 0x100 == lo / 0x100;
  }

  lemma {:induction false} PagesCount(at: nat, data: seq<byte>)
    ensures |Pages(at, data)| == PagesOf(at, at + |data|)
    decreases |data|
  {
    if data != [] {
      var n := Chunk(at, |data|);
      PagesCons(at, data);
      PagesCount(at + n, data[n..]);
      ChunkEnds(at, |data|);
      PagesOfRest(at, n, at + |data|);
      hide Pages, PagesOf, Chunk;
    }
  }

  /** A program goes on to the end of its 256-byte page, or of the data. */
  lemma ChunkEnds(at: nat, left: nat)
    requires left > 0
    ensures var n := Chunk(at, left); at % 0x100 + n <= 0x100 && (n == left || (at + n) % 0x100 == 0)
  {
  }

  /** Consecutive programs, each inside a 256-byte page. */
  predicate Paged(ops: seq<Op>) {
    forall i :: 0 <= i < |ops| ==>
      ops[i].Program? && ops[i].data != [] && ops[i].at % 0x100 + |ops[i].data| <= 0x100
  }

  lemma {:induction false} PagesNeeded(ops: seq<Op>, lo: nat, hi: nat)
    requires Consecutive(ops, lo, hi) && Paged(ops)
    ensures lo <= hi && PagesOf(lo, hi) <= |ops|
    decreases |ops|
  {
    if ops != [] {
      assert Paged(ops[1..]) by {
        assert forall i :: 0 <= i < |ops| - 1 ==> ops[1..][i] == ops[i + 1];
      }
      PagesNeeded(ops[1..], lo + |ops[0].data|, hi);
      PagesOfRest(lo, |ops[0].data|, hi);
    }
  }

  /** No other way to program the range page by page takes fewer commands. */
  lemma PagesMinimal(at: nat, data: seq<byte>, ops: seq<Op>)
    requires Consecutive(ops, at, at + |data|) && Paged(ops)
    ensures |Pages(at, data)| <= |ops|
  {
    hide Pages, PagesOf, Paged, Consecutive;
    PagesCount(at, data);
    PagesNeeded(ops, at, at + |data|);
  }

  /** Inside a page, programming is the plain AND. */
  lemma ProgrammedInPage(mem: seq<byte>, at: nat, data: seq<byte>)
    requires at + |data| <= |mem| && at % PAGE + |data| <= PAGE
    ensures Programmed(mem, at, data) == AndOver(mem, at, data)
  {
    forall i | 0 <= i < |mem|
      ensures Programmed(mem, at, data)[i] == AndOver(mem, at, data)[i]
    {
      InPage(at, i);
    }
  }

  lemma InPage(at: nat, i: nat)
    ensures at <= i < at - at % PAGE + PAGE ==> (i - at) % PAGE == i - at
    ensures at - at % PAGE <= i < at ==> (i - at) % PAGE == i - at + PAGE
  {
  }

  lemma RunFirstPage(mem: seq<byte>, at: nat, data: seq<byte>)
    requires data != [] && at + |data| <= |mem|
    ensures var n := Chunk(at, |data|);
            Run(mem, Pages(at, data)) == Run(AndOver(mem, at, data[..n]), Pages(at + n, data[n..]))
  {
    var n := Chunk(at, |data|);
    ProgrammedInPage(mem, at, data[..n]);
    var ops := Pages(at, data);
    assert ops[0] == Program(at, data[..n], true);
    assert ops[1..] == Pages(at + n, data[n..]);
  }

  lemma AndOverGlue(mem: seq<byte>, at: nat, data: seq<byte>, n: nat)
    requires at + |data| <= |mem| && n <= |data|
    ensures AndOver(AndOver(mem, at, data[..n]), at + n, data[n..]) == AndOver(mem, at, data)
  {
    AndOverAppend(mem, at, data[..n], data[n..]);
    assert data[..n] + data[n..] == data;
  }

  /** On a fault-free chip the page programs of flash_write leave old AND new on the
      range and touch nothing else. */
  lemma {:induction false} PagesProgram(mem: seq<byte>, at: nat, data: seq<byte>)
    requires at + |data| <= |mem|
    ensures Run(mem, Pages(at, data)) == AndOver(mem, at, data)
    decreases |data|
  {
    if data == [] {
      assert AndOver(mem, at, data) == mem;
    } else {
      var n := Chunk(at, |data|);
      RunFirstPage(mem, at, data);
      PagesProgram(AndOver(mem, at, data[..n]), at + n, data[n..]);
      AndOverGlue(mem, at, data, n);
    }
  }

  // ---- erase commands ----

  function EraseOps(bs: seq<Block>): seq<Op> {
    if bs == [] then [] else [Erase(bs[0].base, bs[0].size, true)] + EraseOps(bs[1..])
  }

  lemma {:induction false} TilingWithin(s: EraseSet, bs: seq<Block>, lo: nat, hi: nat)
    requires IsTiling(s, bs, lo, hi)
    ensures OpsWithin(EraseOps(bs), lo, hi) && |EraseOps(bs)| == |bs|
  {
    if bs != [] {
      TilingWithin(s, bs[1..], lo + bs[0].size, hi);
      assert OpWithin(EraseOps(bs)[0], lo, hi);
      assert EraseOps(bs)[1..] == EraseOps(bs[1..]);
    }
  }

  /** Erasing the blocks of a tiling blanks precisely the range. */
  lemma {:induction false} TilingErases(s: EraseSet, mem: seq<byte>, bs: seq<Block>, lo: nat, hi: nat)
    requires IsTiling(s, bs, lo, hi) && lo <= hi
    decreases |bs|
    ensures Run(mem, EraseOps(bs)) == Blanked(mem, lo, hi - lo)
  {
    if bs == [] {
      assert Blanked(mem, lo, 0) == mem;
    } else {
      var b := bs[0].size;
      TilingErases(s, Blanked(mem, lo, b), bs[1..], lo + b, hi);
      BlankedAppend(mem, lo, b, hi - lo - b);
      assert EraseOps(bs)[1..] == EraseOps(bs[1..]);
    }
  }

  // ---- runs ----

  lemma {:induction false} RunAppend(mem: seq<byte>, a: seq<Op>, b: seq<Op>)
    ensures Run(mem, a + b) == Run(Run(mem, a), b)
    decreases |a|
  {
    if a == [] {
      assert a + b == b;
    } else {
      assert (a + b)[0] == a[0] && (a + b)[1..] == a[1..] + b;
      RunAppend(Effect(mem, a[0]), a[1..], b);
    }
  }

  /** Between b and a the chip ran exactly these commands, all of them accepted and
      inside [lo, hi), and the memory is theirs unless a flaw was spent. */
  ghost predicate Did(b: Nor, a: Nor, ops: seq<Op>, lo: int, hi: int) {
    && Confined(b, a, lo, hi)
    && a.ops == b.ops + ops
    && (a.flaws == b.flaws ==> a.mem == Run(b.mem, ops))
  }

  lemma DidNothing(b: Nor, lo: int, hi: int)
    requires WellFormed(b)
    ensures Did(b, b, [], lo, hi)
  {
    assert b.ops[|b.ops|..] == [];
    assert b.ops + [] == b.ops;
  }

  lemma DidQuietly(b: Nor, a: Nor, lo: int, hi: int)
    requires WellFormed(b) && Quiet(b, a)
    ensures Did(b, a, [], lo, hi)
  {
    assert a.ops[|b.ops|..] == [];
    assert b.ops + [] == b.ops;
  }

  lemma DidTrans(a: Nor, b: Nor, c: Nor, o1: seq<Op>, o2: seq<Op>, lo: int, hi: int)
    requires Did(a, b, o1, lo, hi) && Did(b, c, o2, lo, hi)
    ensures Did(a, c, o1 + o2, lo, hi)
  {
    ConfinedTrans(a, b, c, lo, hi);
    assert c.ops == a.ops + (o1 + o2) by {
      assert a.ops + (o1 + o2) == (a.ops + o1) + o2;
    }
    if c.flaws == a.flaws {
      assert c.mem == Run(Run(a.mem, o1), o2);
      RunAppend(a.mem, o1, o2);
    }
  }

  lemma DidWidens(a: Nor, b: Nor, ops: seq<Op>, lo: int, hi: int, lo': int, hi': int)
    requires Did(a, b, ops, lo, hi) && lo' <= lo && hi <= hi'
    ensures Did(a, b, ops, lo', hi')
  {
    ConfinedWidens(a, b, lo, hi, lo', hi');
  }

  /** One accepted page program. */
  lemma DidProgram(b: Nor, at: nat, data: seq<byte>, a: Nor)
    requires Armed(b) && Programs(b, at, data, a) && WellFormed(b)
    requires data != [] && at % PAGE + |data| <= PAGE && at + |data| <= |b.mem|
    ensures Did(b, a, [Program(at, data, true)], at, at + |data|)
  {
    var ops := [Program(at, data, true)];
    AcceptsConfined(b, ops[0], Programmed(b.mem, at, data), at, at + |data|, a);
    assert ops[1..] == [];
  }

  predicate OnePage(at: nat, n: nat) {
    at % PAGE + n <= PAGE
  }

  /** Nothing outside the page changed, and nothing outside the range if it does not leave
      the page. */
  ghost predicate InPageOf(b: Nor, a: Nor, at: nat, n: nat) {
    && a.part == b.part && a.wide == b.wide && a.flaws <= b.flaws && a.deaf <= a.part.maxDeaf
    && SameOutside(b.mem, a.mem, TouchedLo(at, n), TouchedHi(at, n))
  }

  /** The chip took one program, wrapping in its page. */
  ghost predicate Took(b: Nor, a: Nor, at: nat, data: seq<byte>) {
    && a.ops == b.ops + [Program(at, data, true)]
    && (a.flaws == b.flaws ==> a.mem == Programmed(b.mem, at, data))
  }

  /** What a program frame, or a prefix of one, does to a chip that is ready for it. */
  lemma ProgramReached(b: Nor, at: nat, data: seq<byte>, f: seq<byte>, a: Nor)
    requires Armed(b) && WellFormed(b) && Addressable(b, at) && data != []
    requires f <= Frame(CMD_PP, Some(at), b.wide, data) && Completes(b, f, a)
    ensures InPageOf(b, a, at, |data|)
    ensures WellFormed(a) && a.part == b.part && a.wide == b.wide && |a.mem| == |b.mem|
    ensures f == Frame(CMD_PP, Some(at), b.wide, data) ==> Took(b, a, at, data)
    ensures OnePage(at, |data|) && at + |data| <= |b.mem| ==>
              && Confined(b, a, at, at + |data|)
              && (f == Frame(CMD_PP, Some(at), b.wide, data) ==>
                    Did(b, a, [Program(at, data, true)], at, at + |data|))
  {
    hide Frame, Completes, Did, Confined, Addressable, FrameAddr, Programmed, Run;
    var n := ProgramFrame(b, at, data, f, a);
    if n == 0 {
      DidNothing(b, at, at + |data|);
      DidConfines(b, a, [], at, at + |data|);
    } else {
      assert n == |data| ==> data[..n] == data;
      TouchedGrows(at, n, |data|);
      if OnePage(at, |data|) && at + |data| <= |b.mem| {
        DidProgram(b, at, data[..n], a);
        DidConfines(b, a, [Program(at, data[..n], true)], at, at + n);
        ConfinedWidens(b, a, at, at + n, at, at + |data|);
      }
    }
  }

  lemma TouchedGrows(at: nat, n: nat, m: nat)
    requires 0 < n <= m
    ensures TouchedLo(at, m) <= TouchedLo(at, n) && TouchedHi(at, n) <= TouchedHi(at, m)
  {
  }

  /** One accepted erase. */
  lemma DidErase(b: Nor, base: nat, size: nat, a: Nor)
    requires Armed(b) && Erases(b, base, size, a) && WellFormed(b)
    requires size > 0 && base % size == 0
    ensures Did(b, a, [Erase(base, size, true)], base, base + size)
  {
    var ops := [Erase(base, size, true)];
    AcceptsConfined(b, ops[0], Blanked(b.mem, base, size), base, base + size, a);
    assert ops[1..] == [];
  }

  /** What an erase frame, or a prefix of one, does to a chip that is ready for it. */
  lemma EraseReached(b: Nor, at: nat, size: nat, f: seq<byte>, a: Nor)
    requires Armed(b) && WellFormed(b) && Addressable(b, at)
    requires Supported(b.part.sizes, size)
    requires f <= Frame(EraseOpcode(size), Some(at), b.wide, []) && Completes(b, f, a)
    ensures var base := Start(at, size);
            && Confined(b, a, base, base + size)
            && (f == Frame(EraseOpcode(size), Some(at), b.wide, []) ==>
                  Did(b, a, [Erase(base, size, true)], base, base + size))
    ensures WellFormed(a) && a.part == b.part && a.wide == b.wide && |a.mem| == |b.mem|
  {
    EraseFrame(b, at, size, f, a);
    var base := Start(at, size);
    assert base == at - at % size && base % size == 0;
    hide Frame, Completes, Did, Confined, EraseOpcode, Addressable, WellFormed, Offset, Start;
    if a == b {
      DidNothing(b, base, base + size);
      DidConfines(b, a, [], base, base + size);
    } else {
      DidErase(b, base, size, a);
      DidConfines(b, a, [Erase(base, size, true)], base, base + size);
    }
    ConfinedShape(b, a, base, base + size);
  }

  lemma ConfinedShape(b: Nor, a: Nor, lo: int, hi: int)
    requires Confined(b, a, lo, hi) && WellFormed(b)
    ensures WellFormed(a) && a.part == b.part && a.wide == b.wide && |a.mem| == |b.mem|
  {
  }

  lemma DidConfines(b: Nor, a: Nor, ops: seq<Op>, lo: int, hi: int)
    requires Did(b, a, ops, lo, hi)
    ensures Confined(b, a, lo, hi)
  {
  }

  lemma ConfinedAfterQuiet(b: Nor, b1: Nor, b2: Nor, lo: int, hi: int)
    requires WellFormed(b) && Quiet(b, b1) && Confined(b1, b2, lo, hi)
    ensures Confined(b, b2, lo, hi)
  {
    QuietConfined(b, b1, lo, hi);
    ConfinedTrans(b, b1, b2, lo, hi);
  }

  /** Write enable, one command, wait: only the command counts. */
  lemma DidBetweenQuiets(b: Nor, b1: Nor, b2: Nor, b3: Nor, op: Op, lo: int, hi: int)
    requires WellFormed(b) && Quiet(b, b1) && Did(b1, b2, [op], lo, hi) && WellFormed(b2) && Quiet(b2, b3)
    ensures Did(b, b3, [op], lo, hi)
  {
    DidQuietly(b, b1, lo, hi);
    DidTrans(b, b1, b2, [], [op], lo, hi);
    DidQuietly(b2, b3, lo, hi);
    DidTrans(b, b2, b3, [] + [op], [], lo, hi);
    assert ([] + [op]) + [] == [op];
  }

  /** One more confined command after a run of them. */
  lemma DidOneMore(b: Nor, was: Nor, now: Nor, done: seq<Op>, op: Op, lo: int, hi: int, lo': int, hi': int)
    requires Did(b, was, done, lo, hi) && Did(was, now, [op], lo', hi') && lo <= lo' && hi' <= hi
    ensures Did(b, now, done + [op], lo, hi)
  {
    DidWidens(was, now, [op], lo', hi', lo, hi);
    DidTrans(b, was, now, done, [op], lo, hi);
  }

  lemma ConfinedOneMore(b: Nor, was: Nor, now: Nor, lo: int, hi: int, lo': int, hi': int)
    requires Confined(b, was, lo, hi) && Confined(was, now, lo', hi') && lo <= lo' && hi' <= hi
    ensures Confined(b, now, lo, hi)
  {
    ConfinedWidens(was, now, lo', hi', lo, hi);
    ConfinedTrans(b, was, now, lo, hi);
  }

  // ---- smart write ----

  datatype CompResult = NoChange | NeedWrite | NeedErase

  /** What flash_smart_comp answers for equally long strings. */
  function Compare(want: seq<byte>, have: seq<byte>): CompResult
    requires |want| == |have|
  {
    if exists i :: 0 <= i < |want| && NeedsErase(want[i], have[i]) then NeedErase
    else if want == have then NoChange
    else NeedWrite
  }

  lemma CompareFacts(want: seq<byte>, have: seq<byte>)
    requires |want| == |have|
    ensures Compare(want, have) != NeedErase ==> forall i :: 0 <= i < |want| ==> !NeedsErase(want[i], have[i])
    ensures Compare(want, have) == NoChange ==> want == have
    ensures want == have ==> Compare(want, have) == NoChange
  {
    if want == have {
      forall i | 0 <= i < |want|
        ensures !NeedsErase(want[i], have[i])
      {
        AndReachesTarget(want[i], have[i]);
      }
    }
  }

  lemma TakesWithoutErase(mem: seq<byte>, at: nat, want: seq<byte>)
    requires at + |want| <= |mem| && Compare(want, mem[at..at + |want|]) != NeedErase
    ensures forall i :: 0 <= i < |want| ==> !NeedsErase(want[i], mem[at + i])
  {
    forall i | 0 <= i < |want|
      ensures !NeedsErase(want[i], mem[at + i])
    {
      assert mem[at..at + |want|][i] == mem[at + i];
    }
  }

  /** The next granule's share of the data. */
  function Share(at: nat, left: nat, g: nat): (n: nat)
    requires BlockSize(g)
    ensures left > 0 ==> 0 < n <= left && Offset(at, g) + n <= g
    ensures n == left || Offset(at + n, g) == 0
  {
    var off := Offset(at, g);
    if left < g - off then left
    else
      NextStart(at, g);
      g - off
  }

  lemma NextStart(at: nat, g: nat)
    requires BlockSize(g)
    ensures Offset(at + (g - Offset(at, g)), g) == 0
  {
    OffsetOfSum(Start(at, g), g, g);
  }

  /** The granule of an address below a multiple of the granule size ends below it. */
  lemma GranuleInside(at: nat, size: nat, g: nat)
    requires BlockSize(g) && Offset(size, g) == 0 && at < size
    ensures Start(at, g) + g <= size
  {
    AlignedApart(Start(at, g), size, g);
  }

  /** What one round of flash_smart_write does to the granule at page whose bytes are
      have, to get want stored from offset off on. */
  function Round(page: nat, have: seq<byte>, off: nat, want: seq<byte>): seq<Op>
    requires off + |want| <= |have|
  {
    match Compare(want, have[off..off + |want|])
    case NoChange => []
    case NeedWrite => Pages(page + off, want)
    case NeedErase => [Erase(page, |have|, true)] + Pages(page, Overlay(have, off, want))
  }

  /** All rounds: the granules are independent, so each is compared with the image
      as it was at the start. */
  function Plan(mem: seq<byte>, at: nat, src: seq<byte>, g: nat): seq<Op>
    requires BlockSize(g) && Offset(|mem|, g) == 0 && at + |src| <= |mem|
    decreases |src|
  {
    if src == [] then []
    else
      var n := Share(at, |src|, g);
      var page := Start(at, g);
      GranuleInside(at, |mem|, g);
      Round(page, mem[page..page + g], Offset(at, g), src[..n]) + Plan(mem, at + n, src[n..], g)
  }

  // ---- granules ----

  function RoundUp(x: nat, g: nat): (r: nat)
    requires BlockSize(g)
    ensures x <= r < x + g && Offset(r, g) == 0
  {
    if Offset(x, g) == 0 then x
    else
      OffsetOfSum(Start(x, g), g, g);
      Start(x, g) + g
  }

  /** The end of the granule that holds x. */
  lemma GranuleEnd(x: nat, y: nat, g: nat)
    requires BlockSize(g) && x < y
    ensures Start(x, g) + g <= RoundUp(y, g)
  {
    AlignedApart(Start(x, g), RoundUp(y, g), g);
  }

  /** A granule boundary at or past y is at or past the end of y's granule. */
  lemma BoundaryPast(x: nat, y: nat, g: nat)
    requires BlockSize(g) && Offset(x, g) == 0 && y <= x
    ensures RoundUp(y, g) <= x
  {
    if x < RoundUp(y, g) {
      AlignedApart(x, RoundUp(y, g), g);
    }
  }

  lemma StartOfAligned(x: nat, g: nat)
    requires BlockSize(g)
    ensures Offset(x, g) == 0 ==> Start(x, g) == x
  {
  }
}
