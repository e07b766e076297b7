/** What a flash_smart_write that returns 0 leaves behind, from an idle chip and from one
    that was still busy, when reads give noise in place of the image. */
module SmartOutcome {
  import opened Bytes
  import opened EraseTiling
  import opened NorChip
  import opened FlashPlan

  /** What the memory window gives. Each granule is read once, so that noise, one byte for
      each address, stands for anything a busy chip may give back. */
  function Seen(mem: seq<byte>, busy: bool, noise: seq<byte>): (r: seq<byte>)
    requires |noise| == |mem|
    ensures |r| == |mem|
  {
    if busy then noise else mem
  }

  /** A range inside an image of whole granules. */
  predicate Inside(mem: seq<byte>, noise: seq<byte>, at: nat, src: seq<byte>, g: nat) {
    BlockSize(g) && Offset(|mem|, g) == 0 && |noise| == |mem| && at + |src| <= |mem|
  }

  /** A range inside one granule. */
  predicate InGranule(mem: seq<byte>, noise: seq<byte>, at: nat, want: seq<byte>, g: nat) {
    Inside(mem, noise, at, want, g) && Start(at, g) + g <= |mem| && Offset(at, g) + |want| <= g
  }

  /** The share of the data that follows its first k bytes. */
  predicate NextShare(mem: seq<byte>, noise: seq<byte>, dst: nat, data: seq<byte>, k: nat, want: seq<byte>,
                      g: nat): (r: bool)
    ensures r ==> InGranule(mem, noise, dst + k, want, g)
  {
    && Inside(mem, noise, dst, data, g) && k + |want| <= |data| && want == data[k..k + |want|]
    && want != [] && |want| == Share(dst + k, |data| - k, g) && Start(dst + k, g) + g <= |mem|
  }

  // ---- one round ----

  /** The image after a round for the granule at page, of which the copy have was read. */
  function RoundImage(mem: seq<byte>, page: nat, have: seq<byte>, off: nat, want: seq<byte>): (r: seq<byte>)
    requires off + |want| <= |have| && page + |have| <= |mem|
    ensures |r| == |mem|
  {
    match Compare(want, have[off..off + |want|])
    case NoChange => mem
    case NeedWrite => Overlay(mem, page + off, want)
    case NeedErase => Overlay(mem, page, Overlay(have, off, want))
  }

  /** On a working bus and a faultless chip it returns 0: writing over what is there does
      so only where no bit has to be set. */
  predicate RoundTakes(mem: seq<byte>, page: nat, have: seq<byte>, off: nat, want: seq<byte>)
    requires off + |want| <= |have| && page + |have| <= |mem|
  {
    Compare(want, have[off..off + |want|]) == NeedWrite ==>
      forall i :: 0 <= i < |want| ==> !NeedsErase(want[i], mem[page + off + i])
  }

  /** Comparing with the image itself is right: the share gets stored. */
  lemma IdleRound(mem: seq<byte>, page: nat, off: nat, want: seq<byte>, g: nat)
    requires page + g <= |mem| && off + |want| <= g
    ensures RoundImage(mem, page, mem[page..page + g], off, want) == Overlay(mem, page + off, want)
    ensures RoundTakes(mem, page, mem[page..page + g], off, want)
  {
    hide Compare, NeedsErase, Overlay;
    var at, n := page + off, |want|;
    SliceOfSlice(mem, page, g, off, n);
    CompareFacts(want, mem[at..at + n]);
    match Compare(want, mem[at..at + n])
    case NoChange => OverlaySame(mem, at, want);
    case NeedWrite => TakesWithoutErase(mem, at, want);
    case NeedErase => OverlayMerged(mem, page, g, off, want);
  }

  /** Where the copy has the share already, nothing happens. */
  lemma SkippedRound(mem: seq<byte>, noise: seq<byte>, page: nat, off: nat, want: seq<byte>, g: nat)
    requires page + g <= |mem| == |noise| && off + |want| <= g
    requires want == noise[page + off..page + off + |want|]
    ensures var have := noise[page..page + g];
            && RoundImage(mem, page, have, off, want) == mem && Round(page, have, off, want) == []
            && RoundTakes(mem, page, have, off, want)
  {
    SliceOfSlice(noise, page, g, off, |want|);
    CompareFacts(want, noise[page + off..page + off + |want|]);
  }

  // ---- all rounds ----

  /** The image after a call that returned 0. From a busy chip, shares that equal the noise
      are skipped. The first other one is written, or its granule is rewritten with the
      noise around it; the chip has been waited for then, and the rest gets stored. */
  function ImageLeft(mem: seq<byte>, busy: bool, noise: seq<byte>, at: nat, src: seq<byte>, g: nat): (r: seq<byte>)
    requires Inside(mem, noise, at, src, g)
    ensures |r| == |mem|
    decreases |src|
  {
    if !busy || src == [] then Overlay(mem, at, src)
    else
      var n := Share(at, |src|, g);
      GranuleInside(at, |mem|, g);
      if src[..n] == noise[at..at + n] then ImageLeft(mem, busy, noise, at + n, src[n..], g)
      else
        var page := Start(at, g);
        Overlay(RoundImage(mem, page, noise[page..page + g], Offset(at, g), src[..n]), at + n, src[n..])
  }

  /** The commands of such a call. */
  function Commands(mem: seq<byte>, busy: bool, noise: seq<byte>, at: nat, src: seq<byte>, g: nat): seq<Op>
    requires Inside(mem, noise, at, src, g)
    decreases |src|
  {
    if !busy || src == [] then Plan(mem, at, src, g)
    else
      var n := Share(at, |src|, g);
      GranuleInside(at, |mem|, g);
      if src[..n] == noise[at..at + n] then Commands(mem, busy, noise, at + n, src[n..], g)
      else
        var page, off := Start(at, g), Offset(at, g);
        var have := noise[page..page + g];
        Round(page, have, off, src[..n]) + Plan(RoundImage(mem, page, have, off, src[..n]), at + n, src[n..], g)
  }

  /** On a working bus and a faultless chip the call returns 0. */
  predicate Takes(mem: seq<byte>, busy: bool, noise: seq<byte>, at: nat, src: seq<byte>, g: nat)
    requires Inside(mem, noise, at, src, g)
    decreases |src|
  {
    busy && src != [] ==>
      var n := Share(at, |src|, g);
      GranuleInside(at, |mem|, g);
      if src[..n] == noise[at..at + n] then Takes(mem, busy, noise, at + n, src[n..], g)
      else
        var page := Start(at, g);
        RoundTakes(mem, page, noise[page..page + g], Offset(at, g), src[..n])
  }

  /** The plan depends on the granules ahead only. */
  lemma {:induction false} PlanAhead(a: seq<byte>, b: seq<byte>, at: nat, src: seq<byte>, g: nat)
    requires BlockSize(g) && Offset(|a|, g) == 0 && |b| == |a| && at + |src| <= |a|
    requires src != [] ==> a[Start(at, g)..] == b[Start(at, g)..]
    ensures Plan(a, at, src, g) == Plan(b, at, src, g)
    decreases |src|
  {
    hide Offset, Start, Round, Share;
    if src != [] {
      var n, page := Share(at, |src|, g), Start(at, g);
      GranuleInside(at, |a|, g);
      assert a[page..page + g] == a[page..][..g] == b[page..][..g] == b[page..page + g];
      if src[n..] != [] {
        LaterGranule(at, |src|, g);
        var next := Start(at + n, g);
        assert a[next..] == a[page..][next - page..] == b[page..][next - page..] == b[next..];
      }
      PlanAhead(a, b, at + n, src[n..], g);
    }
  }

  /** After a share that is not the last one starts a later granule. */
  lemma LaterGranule(at: nat, left: nat, g: nat)
    requires BlockSize(g) && Share(at, left, g) < left
    ensures var next := at + Share(at, left, g);
            Offset(next, g) == 0 && Start(next, g) == next && Start(at, g) + g == next
  {
  }

  // ---- progress of the loop ----

  /** A round that returned 0 took the image and the busy flag to these. */
  predicate Rounded(mem: seq<byte>, busy: bool, noise: seq<byte>, at: nat, want: seq<byte>, g: nat,
                    mem': seq<byte>, busy': bool)
    requires InGranule(mem, noise, at, want, g)
  {
    var page := Start(at, g);
    && mem' == RoundImage(mem, page, Seen(mem, busy, noise)[page..page + g], Offset(at, g), want)
    && busy' == (busy && want == noise[at..at + |want|])
  }

  /** The commands a round issues. */
  function RoundCommands(mem: seq<byte>, busy: bool, noise: seq<byte>, at: nat, want: seq<byte>, g: nat): seq<Op>
    requires InGranule(mem, noise, at, want, g)
  {
    var page := Start(at, g);
    Round(page, Seen(mem, busy, noise)[page..page + g], Offset(at, g), want)
  }

  predicate NextTakes(mem: seq<byte>, busy: bool, noise: seq<byte>, at: nat, want: seq<byte>, g: nat)
    requires InGranule(mem, noise, at, want, g)
  {
    var page := Start(at, g);
    RoundTakes(mem, page, Seen(mem, busy, noise)[page..page + g], Offset(at, g), want)
  }

  /** One round brings the outcome of the call one share nearer. */
  lemma LeftStep(mem: seq<byte>, busy: bool, noise: seq<byte>, at: nat, src: seq<byte>, g: nat, n: nat,
                 mem': seq<byte>, busy': bool)
    requires Inside(mem, noise, at, src, g) && src != [] && n == Share(at, |src|, g)
    requires Start(at, g) + g <= |mem| && Rounded(mem, busy, noise, at, src[..n], g, mem', busy')
    ensures ImageLeft(mem', busy', noise, at + n, src[n..], g) == ImageLeft(mem, busy, noise, at, src, g)
  {
    hide Share, RoundImage, Overlay, Start, Offset;
    var page, off := Start(at, g), Offset(at, g);
    if busy {
      if src[..n] == noise[at..at + n] {
        SkippedRound(mem, noise, page, off, src[..n], g);
      }
    } else {
      IdleRound(mem, page, off, src[..n], g);
      OverlayAppend(mem, at, src[..n], src[n..]);
      assert src[..n] + src[n..] == src;
    }
  }

  lemma PlanSplit(mem: seq<byte>, at: nat, src: seq<byte>, g: nat, n: nat)
    requires BlockSize(g) && Offset(|mem|, g) == 0 && at + |src| <= |mem| && src != []
    requires n == Share(at, |src|, g) && Start(at, g) + g <= |mem|
    ensures var page := Start(at, g);
            Plan(mem, at, src, g)
            == Round(page, mem[page..page + g], Offset(at, g), src[..n]) + Plan(mem, at + n, src[n..], g)
  {
    hide Share, Start, Offset, Round;
  }

  /** What is written into one granule leaves the plan for the later ones alone. */
  lemma PlanAfterShare(mem: seq<byte>, at: nat, src: seq<byte>, g: nat, n: nat, mem': seq<byte>)
    requires BlockSize(g) && Offset(|mem|, g) == 0 && at + |src| <= |mem| && src != []
    requires n == Share(at, |src|, g) && mem' == Overlay(mem, at, src[..n])
    ensures Plan(mem', at + n, src[n..], g) == Plan(mem, at + n, src[n..], g)
  {
    hide Share, Start, Offset, Plan;
    if n < |src| {
      LaterGranule(at, |src|, g);
      assert mem'[at + n..] == mem[at + n..];
    }
    PlanAhead(mem', mem, at + n, src[n..], g);
  }

  /** One round issues the first of the commands to come. */
  lemma CommandsStep(mem: seq<byte>, busy: bool, noise: seq<byte>, at: nat, src: seq<byte>, g: nat, n: nat,
                     mem': seq<byte>, busy': bool)
    requires Inside(mem, noise, at, src, g) && src != [] && n == Share(at, |src|, g)
    requires Start(at, g) + g <= |mem| && Rounded(mem, busy, noise, at, src[..n], g, mem', busy')
    ensures Commands(mem, busy, noise, at, src, g)
         == RoundCommands(mem, busy, noise, at, src[..n], g) + Commands(mem', busy', noise, at + n, src[n..], g)
  {
    hide Share, RoundImage, Overlay, Start, Offset, Plan, Round;
    var page, off := Start(at, g), Offset(at, g);
    if busy {
      if src[..n] == noise[at..at + n] {
        SkippedRound(mem, noise, page, off, src[..n], g);
      }
    } else {
      IdleRound(mem, page, off, src[..n], g);
      PlanSplit(mem, at, src, g, n);
      PlanAfterShare(mem, at, src, g, n, mem');
    }
  }

  /** The call returns 0 if its next round does and the rest does. */
  lemma TakesStep(mem: seq<byte>, busy: bool, noise: seq<byte>, at: nat, src: seq<byte>, g: nat, n: nat,
                  mem': seq<byte>, busy': bool)
    requires Inside(mem, noise, at, src, g) && src != [] && n == Share(at, |src|, g)
    requires Start(at, g) + g <= |mem| && Rounded(mem, busy, noise, at, src[..n], g, mem', busy')
    ensures Takes(mem, busy, noise, at, src, g)
       <==> NextTakes(mem, busy, noise, at, src[..n], g) && Takes(mem', busy', noise, at + n, src[n..], g)
  {
    hide Share, RoundImage, Overlay, Start, Offset, RoundTakes;
    var page, off := Start(at, g), Offset(at, g);
    if busy {
      if src[..n] == noise[at..at + n] {
        SkippedRound(mem, noise, page, off, src[..n], g);
      }
    } else {
      IdleRound(mem, page, off, src[..n], g);
    }
  }

  /** Reads give the data already. */
  predicate LooksStored(c: Nor, noise: seq<byte>, at: nat, data: seq<byte>)
    requires |noise| == |c.mem| && at + |data| <= |c.mem|
  {
    Seen(c.mem, c.busy > 0, noise)[at..at + |data|] == data
  }

  /** The chip was b before the loop and is c with data[..k] handled: what is still to come
      adds up to the outcome of the whole call, and nothing happened if there was nothing to
      do. */
  ghost predicate Ahead(b: Nor, c: Nor, noise: seq<byte>, dst: nat, data: seq<byte>, k: nat, g: nat)
    requires Inside(b.mem, noise, dst, data, g) && |c.mem| == |b.mem| && k <= |data|
  {
    && (c.busy == 0 || c == b)
    && ImageLeft(c.mem, c.busy > 0, noise, dst + k, data[k..], g) == ImageLeft(b.mem, b.busy > 0, noise, dst, data, g)
    && c.ops + Commands(c.mem, c.busy > 0, noise, dst + k, data[k..], g)
       == b.ops + Commands(b.mem, b.busy > 0, noise, dst, data, g)
    && (LooksStored(b, noise, dst, data) ==> c == b)
  }

  /** The rest of the call returns 0 on a working bus and a faultless chip. */
  predicate TakesFrom(c: Nor, noise: seq<byte>, dst: nat, data: seq<byte>, k: nat, g: nat)
    requires k <= |data| && Inside(c.mem, noise, dst, data, g)
  {
    Takes(c.mem, c.busy > 0, noise, dst + k, data[k..], g)
  }

  lemma AheadAtStart(b: Nor, noise: seq<byte>, dst: nat, data: seq<byte>, g: nat)
    requires Inside(b.mem, noise, dst, data, g)
    ensures Ahead(b, b, noise, dst, data, 0, g)
    ensures TakesFrom(b, noise, dst, data, 0, g) == Takes(b.mem, b.busy > 0, noise, dst, data, g)
  {
    assert data[0..] == data;
  }

  lemma AheadAtEnd(b: Nor, c: Nor, noise: seq<byte>, dst: nat, data: seq<byte>, g: nat)
    requires Inside(b.mem, noise, dst, data, g) && |c.mem| == |b.mem|
    requires Ahead(b, c, noise, dst, data, |data|, g)
    ensures c.busy == 0 || c == b
    ensures c.mem == ImageLeft(b.mem, b.busy > 0, noise, dst, data, g)
    ensures c.ops == b.ops + Commands(b.mem, b.busy > 0, noise, dst, data, g)
    ensures LooksStored(b, noise, dst, data) ==> c == b
    ensures TakesFrom(c, noise, dst, data, |data|, g)
  {
    assert data[|data|..] == [];
    assert Overlay(c.mem, dst + |data|, []) == c.mem;
    assert Plan(c.mem, dst + |data|, [], g) == [];
    assert c.ops + [] == c.ops;
  }

  /** What a round on the chip was, for the share want at position at, did to it. */
  ghost predicate RoundDone(was: Nor, now: Nor, noise: seq<byte>, at: nat, want: seq<byte>, g: nat)
    requires InGranule(was.mem, noise, at, want, g)
  {
    && Rounded(was.mem, was.busy > 0, noise, at, want, g, now.mem, now.busy > 0)
    && now.ops == was.ops + RoundCommands(was.mem, was.busy > 0, noise, at, want, g)
    && (LooksStored(was, noise, at, want) ==> now == was)
  }

  /** What the switch did for the copy have of the granule at position at. */
  lemma RoundSettled(was: Nor, now: Nor, noise: seq<byte>, at: nat, want: seq<byte>, g: nat, have: seq<byte>)
    requires InGranule(was.mem, noise, at, want, g) && |have| == g
    requires have == Seen(was.mem, was.busy > 0, noise)[Start(at, g)..Start(at, g) + g]
    ensures LooksStored(was, noise, at, want)
       <==> Compare(want, have[Offset(at, g)..Offset(at, g) + |want|]) == NoChange
    ensures NextTakes(was.mem, was.busy > 0, noise, at, want, g)
       <==> RoundTakes(was.mem, Start(at, g), have, Offset(at, g), want)
    ensures now.mem == RoundImage(was.mem, Start(at, g), have, Offset(at, g), want) ==>
            now.ops == was.ops + Round(Start(at, g), have, Offset(at, g), want) ==>
            (if LooksStored(was, noise, at, want) then now == was else now.busy == 0) ==>
              RoundDone(was, now, noise, at, want, g)
  {
    hide Compare, RoundTakes, RoundImage, Round, Start, Offset;
    var seen := Seen(was.mem, was.busy > 0, noise);
    SliceOfSlice(seen, Start(at, g), g, Offset(at, g), |want|);
    CompareFacts(want, seen[at..at + |want|]);
  }

  lemma ShareLooksStored(c: Nor, noise: seq<byte>, dst: nat, data: seq<byte>, k: nat, n: nat)
    requires |noise| == |c.mem| && dst + |data| <= |c.mem| && k + n <= |data|
    requires LooksStored(c, noise, dst, data)
    ensures LooksStored(c, noise, dst + k, data[k..k + n])
  {
    SliceOfSlice(Seen(c.mem, c.busy > 0, noise), dst, |data|, k, n);
  }

  lemma AheadStep(b: Nor, was: Nor, now: Nor, noise: seq<byte>, dst: nat, data: seq<byte>, k: nat, want: seq<byte>,
                  g: nat)
    requires NextShare(b.mem, noise, dst, data, k, want, g) && |was.mem| == |now.mem| == |b.mem|
    requires Ahead(b, was, noise, dst, data, k, g) && RoundDone(was, now, noise, dst + k, want, g)
    ensures Ahead(b, now, noise, dst, data, k + |want|, g)
  {
    hide ImageLeft, Commands, Share, Start, Offset, Rounded, RoundCommands, LooksStored;
    var n, rest := |want|, data[k..];
    assert rest[..n] == want && rest[n..] == data[k + n..] && dst + k + n == dst + (k + n);
    LeftStep(was.mem, was.busy > 0, noise, dst + k, rest, g, n, now.mem, now.busy > 0);
    CommandsStep(was.mem, was.busy > 0, noise, dst + k, rest, g, n, now.mem, now.busy > 0);
    BusyFlag(was, now, noise, dst + k, want, g);
    if LooksStored(b, noise, dst, data) {
      ShareLooksStored(b, noise, dst, data, k, n);
    }
  }

  lemma TakesAhead(was: Nor, now: Nor, noise: seq<byte>, dst: nat, data: seq<byte>, k: nat, want: seq<byte>, g: nat)
    requires NextShare(was.mem, noise, dst, data, k, want, g) && |was.mem| == |now.mem|
    requires RoundDone(was, now, noise, dst + k, want, g)
    ensures TakesFrom(was, noise, dst, data, k, g)
       <==> NextTakes(was.mem, was.busy > 0, noise, dst + k, want, g)
            && TakesFrom(now, noise, dst, data, k + |want|, g)
  {
    hide Takes, Share, Start, Offset, Rounded, NextTakes, RoundCommands, RoundImage, Seen, LooksStored;
    var n, rest := |want|, data[k..];
    assert rest[..n] == want && rest[n..] == data[k + n..] && dst + k + n == dst + (k + n);
    TakesStep(was.mem, was.busy > 0, noise, dst + k, rest, g, n, now.mem, now.busy > 0);
  }

  /** If a round does not return 0, the call does not. */
  lemma TakesNext(c: Nor, noise: seq<byte>, dst: nat, data: seq<byte>, k: nat, want: seq<byte>, g: nat)
    requires NextShare(c.mem, noise, dst, data, k, want, g)
    ensures TakesFrom(c, noise, dst, data, k, g) ==> NextTakes(c.mem, c.busy > 0, noise, dst + k, want, g)
  {
    hide Takes, Share, Start, Offset, RoundImage, NextTakes;
    var n, rest, at, page := |want|, data[k..], dst + k, Start(dst + k, g);
    assert rest[..n] == want;
    var mem' := RoundImage(c.mem, page, Seen(c.mem, c.busy > 0, noise)[page..page + g], Offset(at, g), want);
    TakesStep(c.mem, c.busy > 0, noise, at, rest, g, n, mem', c.busy > 0 && want == noise[at..at + n]);
  }

  /** Where reads give the data already, the next share is one of them. */
  lemma NextLooksStored(b: Nor, c: Nor, noise: seq<byte>, dst: nat, data: seq<byte>, k: nat, n: nat, g: nat)
    requires Inside(b.mem, noise, dst, data, g) && |c.mem| == |b.mem| && k + n <= |data|
    requires Ahead(b, c, noise, dst, data, k, g)
    ensures LooksStored(b, noise, dst, data) ==> LooksStored(c, noise, dst + k, data[k..k + n])
  {
    if LooksStored(b, noise, dst, data) {
      ShareLooksStored(b, noise, dst, data, k, n);
    }
  }

  /** Still busy means that the round did nothing. */
  lemma BusyFlag(was: Nor, now: Nor, noise: seq<byte>, at: nat, want: seq<byte>, g: nat)
    requires InGranule(was.mem, noise, at, want, g)
    requires RoundDone(was, now, noise, at, want, g)
    ensures now.busy > 0 ==> now == was
  {
  }
}
