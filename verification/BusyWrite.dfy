/** flash_smart_write on a chip that is still busy with an earlier operation when it is
    called: exactly when a zero result still means that the data is stored. */
module BusyWrite {
  import opened Bytes
  import opened EraseTiling
  import opened NorChip
  import opened FlashPlan
  import opened SmartOutcome
  import opened SmartPlan
  import opened SpiBus
  import opened SfcDriver
  import opened FlashDriver
  import opened FlashInit

  /** Around the share, the granule reads as it is. */
  predicate ReadsRightAround(mem: seq<byte>, noise: seq<byte>, at: nat, n: nat, g: nat)
    requires BlockSize(g) && |noise| == |mem|
  {
    var page := Start(at, g);
    forall i :: page <= i < page + g && i < |mem| && !(at <= i < at + n) ==> noise[i] == mem[i]
  }

  /** What was skipped was there, and if the first other granule was erased, what was put
      back around the share was there too. */
  predicate Stores(mem: seq<byte>, noise: seq<byte>, at: nat, src: seq<byte>, g: nat)
    requires Inside(mem, noise, at, src, g)
    decreases |src|
  {
    src == [] ||
    var n := Share(at, |src|, g);
    if src[..n] == noise[at..at + n] then mem[at..at + n] == src[..n] && Stores(mem, noise, at + n, src[n..], g)
    else Compare(src[..n], noise[at..at + n]) == NeedErase ==> ReadsRightAround(mem, noise, at, n, g)
  }

  lemma SkippedLeaves(mem: seq<byte>, noise: seq<byte>, at: nat, src: seq<byte>, g: nat, n: nat)
    requires Inside(mem, noise, at, src, g) && src != [] && n == Share(at, |src|, g)
    requires src[..n] == noise[at..at + n]
    ensures ImageLeft(mem, true, noise, at, src, g) == ImageLeft(mem, true, noise, at + n, src[n..], g)
  {
    hide Share, Start, Offset, Overlay, RoundImage;
  }

  /** The first share that is not skipped. */
  lemma OtherLeaves(mem: seq<byte>, noise: seq<byte>, at: nat, src: seq<byte>, g: nat, n: nat)
    requires Inside(mem, noise, at, src, g) && src != [] && n == Share(at, |src|, g)
    requires src[..n] != noise[at..at + n] && Start(at, g) + g <= |mem|
    ensures ImageLeft(mem, true, noise, at, src, g)
         == Overlay(RoundImage(mem, Start(at, g), noise[Start(at, g)..Start(at, g) + g], Offset(at, g), src[..n]),
                    at + n, src[n..])
  {
    hide Share, Start, Offset, Overlay, RoundImage;
  }

  /** No granule before the first one is touched. */
  lemma {:induction false} LeftBefore(mem: seq<byte>, noise: seq<byte>, at: nat, src: seq<byte>, g: nat, i: nat)
    requires Inside(mem, noise, at, src, g) && i < |mem| && (i < Start(at, g) || (src == [] && i < at))
    ensures ImageLeft(mem, true, noise, at, src, g)[i] == mem[i]
    decreases |src|
  {
    hide ImageLeft, Share, Start, Offset, Compare;
    if src == [] {
      NothingLeft(mem, noise, at, g);
    } else {
      var n := Share(at, |src|, g);
      GranuleInside(at, |mem|, g);
      if src[..n] == noise[at..at + n] {
        SkippedLeaves(mem, noise, at, src, g, n);
        if n < |src| {
          LaterGranule(at, |src|, g);
        }
        LeftBefore(mem, noise, at + n, src[n..], g, i);
      } else {
        OtherLeaves(mem, noise, at, src, g, n);
      }
    }
  }

  lemma NothingLeft(mem: seq<byte>, noise: seq<byte>, at: nat, g: nat)
    requires Inside(mem, noise, at, [], g)
    ensures ImageLeft(mem, true, noise, at, [], g) == mem
  {
    assert Overlay(mem, at, []) == mem;
  }

  lemma OverlayByte(img: seq<byte>, at: nat, data: seq<byte>, i: nat)
    requires at + |data| <= |img| && i < |img|
    ensures |Overlay(img, at, data)| == |img|
    ensures Overlay(img, at, data)[i] == if at <= i < at + |data| then data[i - at] else img[i]
  {
  }

  /** The image after a granule has been rewritten with the noise around the share, and the
      rest of the data stored. */
  function Rewrite(mem: seq<byte>, noise: seq<byte>, page: nat, off: nat, want: seq<byte>, rest: seq<byte>,
                   g: nat): (r: seq<byte>)
    requires |noise| == |mem| && page + g <= |mem| && off + |want| <= g && page + off + |want| + |rest| <= |mem|
    ensures |r| == |mem|
  {
    Overlay(Overlay(mem, page, Overlay(noise[page..page + g], off, want)), page + off + |want|, rest)
  }

  lemma RewriteByte(mem: seq<byte>, noise: seq<byte>, page: nat, off: nat, want: seq<byte>, rest: seq<byte>, g: nat,
                    i: nat)
    requires |noise| == |mem| && page + g <= |mem| && off + |want| <= g && page + off + |want| + |rest| <= |mem|
    requires i < |mem| && 0 < g && (rest != [] ==> off + |want| == g)
    ensures Rewrite(mem, noise, page, off, want, rest, g)[i]
         == if page <= i < page + g && !(page + off <= i < page + off + |want|) then noise[i]
            else Overlay(mem, page + off, want + rest)[i]
  {
    hide Overlay;
    var merged := Overlay(noise[page..page + g], off, want);
    OverlayByte(noise[page..page + g], off, want, if page <= i < page + g then i - page else 0);
    OverlayByte(mem, page, merged, i);
    OverlayByte(Overlay(mem, page, merged), page + off + |want|, rest, i);
    OverlayByte(mem, page + off, want + rest, i);
  }

  /** A granule that is erased is put back as it was read. */
  lemma RewriteStores(mem: seq<byte>, noise: seq<byte>, page: nat, off: nat, want: seq<byte>, rest: seq<byte>, g: nat)
    requires BlockSize(g) && |noise| == |mem| && page + g <= |mem| && off + |want| <= g
    requires Start(page + off, g) == page && (rest != [] ==> off + |want| == g)
    requires page + off + |want| + |rest| <= |mem|
    ensures Rewrite(mem, noise, page, off, want, rest, g) == Overlay(mem, page + off, want + rest)
       <==> ReadsRightAround(mem, noise, page + off, |want|, g)
  {
    var a, b := Rewrite(mem, noise, page, off, want, rest, g), Overlay(mem, page + off, want + rest);
    hide Start, Rewrite, Overlay;
    forall i | 0 <= i < |mem|
      ensures |b| == |a|
      ensures page <= i < page + g && !(page + off <= i < page + off + |want|) ==> a[i] == noise[i] && b[i] == mem[i]
      ensures !(page <= i < page + g && !(page + off <= i < page + off + |want|)) ==> a[i] == b[i]
    {
      RewriteByte(mem, noise, page, off, want, rest, g, i);
      OverlayByte(mem, page + off, want + rest, i);
    }
  }

  lemma OtherRound(mem: seq<byte>, noise: seq<byte>, page: nat, off: nat, want: seq<byte>, rest: seq<byte>, g: nat)
    requires |noise| == |mem| && page + g <= |mem| && off + |want| <= g && page + off + |want| + |rest| <= |mem|
    requires Compare(want, noise[page + off..page + off + |want|]) != NoChange
    ensures Overlay(RoundImage(mem, page, noise[page..page + g], off, want), page + off + |want|, rest)
         == if Compare(want, noise[page + off..page + off + |want|]) == NeedErase
            then Rewrite(mem, noise, page, off, want, rest, g)
            else Overlay(Overlay(mem, page + off, want), page + off + |want|, rest)
  {
    hide Compare, Overlay;
    SliceOfSlice(noise, page, g, off, |want|);
  }

  lemma OtherImage(mem: seq<byte>, noise: seq<byte>, at: nat, src: seq<byte>, g: nat, n: nat)
    requires Inside(mem, noise, at, src, g) && src != [] && n == Share(at, |src|, g)
    requires src[..n] != noise[at..at + n] && Start(at, g) + g <= |mem|
    ensures Compare(src[..n], noise[at..at + n]) != NoChange
    ensures ImageLeft(mem, true, noise, at, src, g)
         == if Compare(src[..n], noise[at..at + n]) == NeedErase
            then Rewrite(mem, noise, Start(at, g), Offset(at, g), src[..n], src[n..], g)
            else Overlay(Overlay(mem, at, src[..n]), at + n, src[n..])
  {
    hide ImageLeft, Share, Start, Offset, Compare, Overlay, RoundImage, Rewrite;
    OtherLeaves(mem, noise, at, src, g, n);
    CompareFacts(src[..n], noise[at..at + n]);
    OtherRound(mem, noise, Start(at, g), Offset(at, g), src[..n], src[n..], g);
  }

  /** The first share that is not skipped decides: written over it is stored, and with an
      erase if the granule reads right around it. */
  lemma OtherStores(mem: seq<byte>, noise: seq<byte>, at: nat, src: seq<byte>, g: nat, n: nat)
    requires Inside(mem, noise, at, src, g) && src != [] && n == Share(at, |src|, g)
    requires src[..n] != noise[at..at + n] && Start(at, g) + g <= |mem|
    ensures ImageLeft(mem, true, noise, at, src, g) == Overlay(mem, at, src)
       <==> Stores(mem, noise, at, src, g)
  {
    var page, off, want, rest := Start(at, g), Offset(at, g), src[..n], src[n..];
    OtherImage(mem, noise, at, src, g, n);
    assert want + rest == src;
    if n < |src| {
      LaterGranule(at, |src|, g);
    }
    hide ImageLeft, Share, Start, Offset, Compare, Overlay, ReadsRightAround, Rewrite;
    RewriteStores(mem, noise, page, off, want, rest, g);
    OverlayAppend(mem, at, want, rest);
  }

  /** For one noise: a call on a busy chip that returned 0 has stored the data exactly then. */
  lemma {:induction false} StoresIff(mem: seq<byte>, noise: seq<byte>, at: nat, src: seq<byte>, g: nat)
    requires Inside(mem, noise, at, src, g)
    ensures ImageLeft(mem, true, noise, at, src, g) == Overlay(mem, at, src)
       <==> Stores(mem, noise, at, src, g)
    decreases |src|
  {
    hide ImageLeft, Share, Start, Offset, Compare, Overlay, ReadsRightAround;
    if src == [] {
      NothingLeft(mem, noise, at, g);
      OverlaySame(mem, at, src);
    } else {
      var n := Share(at, |src|, g);
      GranuleInside(at, |mem|, g);
      if src[..n] == noise[at..at + n] {
        StoresIff(mem, noise, at + n, src[n..], g);
        SkippedLeaves(mem, noise, at, src, g, n);
        SkippedStores(mem, noise, at, src, g, n);
      } else {
        OtherStores(mem, noise, at, src, g, n);
      }
    }
  }

  lemma SkippedStores(mem: seq<byte>, noise: seq<byte>, at: nat, src: seq<byte>, g: nat, n: nat)
    requires Inside(mem, noise, at, src, g) && src != [] && n == Share(at, |src|, g)
    ensures var left := ImageLeft(mem, true, noise, at + n, src[n..], g);
            left == Overlay(mem, at, src)
            <==> mem[at..at + n] == src[..n] && left == Overlay(mem, at + n, src[n..])
  {
    hide ImageLeft, Share, Start, Offset, Overlay;
    var left := ImageLeft(mem, true, noise, at + n, src[n..], g);
    assert src[..n] + src[n..] == src;
    OverlayAppend(mem, at, src[..n], src[n..]);
    if n < |src| {
      LaterGranule(at, |src|, g);
    }
    forall i | 0 <= i < n
      ensures left == Overlay(mem, at, src) ==> mem[at..at + n][i] == src[..n][i]
    {
      LeftBefore(mem, noise, at + n, src[n..], g, at + i);
      OverlayByte(mem, at, src, at + i);
    }
    if mem[at..at + n] == src[..n] {
      OverlaySame(mem, at, src[..n]);
    }
  }

  // ---- whatever a busy chip gives back ----

  /** Every granule that holds a byte of the data other than 0 is covered by the data as a
      whole: no granule can be erased with bytes in it that have to be put back. */
  predicate NothingToPutBack(at: nat, src: seq<byte>, g: nat)
    requires BlockSize(g)
  {
    forall i :: at <= i < at + |src| && src[i - at] != 0 ==> at <= Start(i, g) && Start(i, g) + g <= at + |src|
  }

  /** Then data that is there already stays there, and the call returns 0. */
  lemma {:induction false} StaysStored(mem: seq<byte>, noise: seq<byte>, at: nat, src: seq<byte>, g: nat)
    requires Inside(mem, noise, at, src, g)
    requires mem[at..at + |src|] == src && NothingToPutBack(at, src, g)
    ensures Stores(mem, noise, at, src, g) && Takes(mem, true, noise, at, src, g)
    decreases |src|
  {
    hide Share, Start, Offset, Compare, ReadsRightAround, RoundTakes, NothingToPutBack;
    if src != [] {
      var n := Share(at, |src|, g);
      GranuleInside(at, |mem|, g);
      PiecesOf(mem, at, src, n);
      if src[..n] == noise[at..at + n] {
        NothingToPutBackLater(at, src, g, n);
        StaysStored(mem, noise, at + n, src[n..], g);
      } else {
        ShareStays(mem, noise, at, src, g, n);
      }
    }
  }

  lemma NothingToPutBackLater(at: nat, src: seq<byte>, g: nat, n: nat)
    requires BlockSize(g) && src != [] && n == Share(at, |src|, g) && NothingToPutBack(at, src, g)
    ensures NothingToPutBack(at + n, src[n..], g)
  {
    hide Share, Offset, Start;
    if n < |src| {
      LaterGranule(at, |src|, g);
    }
    forall i | at + n <= i < at + |src| && src[n..][i - at - n] != 0
      ensures at + n <= Start(i, g) && Start(i, g) + g <= at + |src|
    {
      assert src[n..][i - at - n] == src[i - at];
      GranuleStartsPast(at + n, i, g);
    }
  }

  lemma GranuleStartsPast(x: nat, i: nat, g: nat)
    requires BlockSize(g) && Offset(x, g) == 0 && x <= i
    ensures x <= Start(i, g)
  {
    if Start(i, g) < x {
      AlignedApart(Start(i, g), x, g);
    }
  }

  lemma ShareStays(mem: seq<byte>, noise: seq<byte>, at: nat, src: seq<byte>, g: nat, n: nat)
    requires Inside(mem, noise, at, src, g) && src != [] && n == Share(at, |src|, g) && Start(at, g) + g <= |mem|
    requires mem[at..at + n] == src[..n] && NothingToPutBack(at, src, g)
    ensures Compare(src[..n], noise[at..at + n]) == NeedErase ==> ReadsRightAround(mem, noise, at, n, g)
    ensures RoundTakes(mem, Start(at, g), noise[Start(at, g)..Start(at, g) + g], Offset(at, g), src[..n])
  {
    hide Share, Start, Offset, NeedsErase;
    forall i | 0 <= i < n
      ensures !NeedsErase(src[..n][i], mem[at + i])
    {
      assert mem[at..at + n][i] == mem[at + i];
      AndReachesTarget(mem[at + i], mem[at + i]);
    }
    if j :| 0 <= j < n && NeedsErase(src[..n][j], noise[at..at + n][j]) {
      ErasedShareIsWhole(at, src, g, n, j, noise[at + j]);
    }
  }

  lemma ErasedShareIsWhole(at: nat, src: seq<byte>, g: nat, n: nat, j: nat, have: byte)
    requires BlockSize(g) && src != [] && n == Share(at, |src|, g) && NothingToPutBack(at, src, g)
    requires j < n && NeedsErase(src[j], have)
    ensures Start(at, g) == at && n == g
  {
    ShareGranule(at, |src|, g, at + j);
    assert src[at + j - at] != 0;
  }

  /** All bytes of the range but byte i read as they are. */
  predicate ReadsRightBut(mem: seq<byte>, noise: seq<byte>, at: nat, n: nat, i: nat)
    requires |noise| == |mem| && at + n <= |mem|
  {
    forall x :: at <= x < at + n && x != i ==> noise[x] == mem[x]
  }

  /** A nonzero byte i of data that is there already, in a granule with a byte j that the data
      does not cover: if i reads as 0 and j as something else than it is, j is lost. */
  lemma {:induction false} Spoils(mem: seq<byte>, noise: seq<byte>, at: nat, src: seq<byte>, g: nat, i: nat, j: nat)
    requires Inside(mem, noise, at, src, g) && mem[at..at + |src|] == src
    requires at <= i < at + |src| && src[i - at] != 0 && noise[i] == 0
    requires Start(i, g) <= j < Start(i, g) + g && j < |mem| && !(at <= j < at + |src|) && noise[j] != mem[j]
    requires ReadsRightBut(mem, noise, at, |src|, i)
    ensures !Stores(mem, noise, at, src, g) && Takes(mem, true, noise, at, src, g)
    decreases |src|
  {
    hide Share, Start, Offset, Compare, ReadsRightAround, ReadsRightBut, RoundTakes;
    var n := Share(at, |src|, g);
    GranuleInside(at, |mem|, g);
    ShareGranule(at, |src|, g, i);
    if at + n <= i {
      ReadsAsItIs(mem, noise, at, src, n, i);
      Spoils(mem, noise, at + n, src[n..], g, i, j);
    } else {
      SpoilsHere(mem, noise, at, src, g, n, i);
      NotRightAround(mem, noise, at, n, g, j);
    }
  }

  lemma ReadsAsItIs(mem: seq<byte>, noise: seq<byte>, at: nat, src: seq<byte>, n: nat, i: nat)
    requires |noise| == |mem| && at + |src| <= |mem| && mem[at..at + |src|] == src && at + n <= i < at + |src|
    requires ReadsRightBut(mem, noise, at, |src|, i)
    ensures src[..n] == noise[at..at + n] && mem[at + n..at + |src|] == src[n..]
    ensures src[n..][i - (at + n)] == src[i - at] && ReadsRightBut(mem, noise, at + n, |src[n..]|, i)
  {
    PiecesOf(mem, at, src, n);
    assert mem[at..at + n] == noise[at..at + n];
  }

  lemma NotRightAround(mem: seq<byte>, noise: seq<byte>, at: nat, n: nat, g: nat, j: nat)
    requires BlockSize(g) && |noise| == |mem| && Start(at, g) <= j < Start(at, g) + g && j < |mem|
    requires !(at <= j < at + n) && noise[j] != mem[j]
    ensures !ReadsRightAround(mem, noise, at, n, g)
  {
  }

  lemma SpoilsHere(mem: seq<byte>, noise: seq<byte>, at: nat, src: seq<byte>, g: nat, n: nat, i: nat)
    requires Inside(mem, noise, at, src, g) && src != [] && n == Share(at, |src|, g) && Start(at, g) + g <= |mem|
    requires at <= i < at + n && src[i - at] != 0 && noise[i] == 0
    ensures Compare(src[..n], noise[at..at + n]) == NeedErase && src[..n] != noise[at..at + n]
    ensures RoundTakes(mem, Start(at, g), noise[Start(at, g)..Start(at, g) + g], Offset(at, g), src[..n])
  {
    hide Share, Start, Offset, NeedsErase;
    SliceOfSlice(noise, Start(at, g), g, Offset(at, g), n);
    assert src[..n][i - at] == src[i - at] && noise[at..at + n][i - at] == noise[i];
    NonzeroOverZero(src[i - at]);
  }

  lemma NonzeroOverZero(b: byte)
    requires b != 0
    ensures NeedsErase(b, 0)
  {
  }

  /** If everything reads as the data, nothing is done. */
  lemma {:induction false} AllSkipped(mem: seq<byte>, noise: seq<byte>, at: nat, src: seq<byte>, g: nat)
    requires Inside(mem, noise, at, src, g) && noise[at..at + |src|] == src
    ensures ImageLeft(mem, true, noise, at, src, g) == mem && Takes(mem, true, noise, at, src, g)
    decreases |src|
  {
    hide ImageLeft, Share, Start, Offset;
    if src == [] {
      NothingLeft(mem, noise, at, g);
    } else {
      var n := Share(at, |src|, g);
      PiecesOf(noise, at, src, n);
      SkippedLeaves(mem, noise, at, src, g, n);
      AllSkipped(mem, noise, at + n, src[n..], g);
    }
  }

  /** A call that returned 0 has stored the data, whatever the noise. */
  ghost predicate AlwaysStores(mem: seq<byte>, busy: bool, at: nat, src: seq<byte>, g: nat)
    requires BlockSize(g) && Offset(|mem|, g) == 0 && at + |src| <= |mem|
  {
    forall noise :: Inside(mem, noise, at, src, g) && Takes(mem, busy, noise, at, src, g) ==>
      ImageLeft(mem, busy, noise, at, src, g) == Overlay(mem, at, src)
  }

  /** That is so exactly if the chip was idle, or if the image held the data already and no
      granule could be erased with bytes to put back. */
  lemma AlwaysStoresIff(mem: seq<byte>, busy: bool, at: nat, src: seq<byte>, g: nat)
    requires BlockSize(g) && Offset(|mem|, g) == 0 && at + |src| <= |mem|
    ensures AlwaysStores(mem, busy, at, src, g)
       <==> !busy || (mem[at..at + |src|] == src && NothingToPutBack(at, src, g))
  {
    if busy && AlwaysStores(mem, busy, at, src, g) {
      HeldAlready(mem, at, src, g);
      NoByteAtRisk(mem, at, src, g);
    }
    if busy && mem[at..at + |src|] == src && NothingToPutBack(at, src, g) {
      forall noise | Inside(mem, noise, at, src, g)
        ensures ImageLeft(mem, busy, noise, at, src, g) == Overlay(mem, at, src)
      {
        StaysStored(mem, noise, at, src, g);
        StoresIff(mem, noise, at, src, g);
      }
    }
  }

  lemma HeldAlready(mem: seq<byte>, at: nat, src: seq<byte>, g: nat)
    requires BlockSize(g) && Offset(|mem|, g) == 0 && at + |src| <= |mem| && AlwaysStores(mem, true, at, src, g)
    ensures mem[at..at + |src|] == src
  {
    var noise := Overlay(mem, at, src);
    assert noise[at..at + |src|] == src;
    AllSkipped(mem, noise, at, src, g);
  }

  lemma NoByteAtRisk(mem: seq<byte>, at: nat, src: seq<byte>, g: nat)
    requires BlockSize(g) && Offset(|mem|, g) == 0 && at + |src| <= |mem| && AlwaysStores(mem, true, at, src, g)
    requires mem[at..at + |src|] == src
    ensures NothingToPutBack(at, src, g)
  {
    hide ImageLeft, Takes, Stores, Offset, Start;
    forall i | at <= i < at + |src| && src[i - at] != 0
      ensures at <= Start(i, g) && Start(i, g) + g <= at + |src|
    {
      GranuleInside(i, |mem|, g);
      var j := if Start(i, g) < at then Start(i, g) else Start(i, g) + g - 1;
      if !(at <= j < at + |src|) {
        var noise := mem[i := 0][j := !mem[j]];
        Spoils(mem, noise, at, src, g, i, j);
        StoresIff(mem, noise, at, src, g);
      }
    }
  }

  // ---- two runs ----

  const MIB: nat := 0x10_0000

  function Filled(b: byte): (r: seq<byte>)
    ensures |r| == MIB && forall i :: 0 <= i < MIB ==> r[i] == b
  {
    seq(MIB, _ => b)
  }

  /** A blank 1 MiB chip without any flaw on a working bus, busy for one more poll. */
  method BusyBlank(noise: seq<byte>) returns (c: FlashChip)
    requires |noise| == MIB
    ensures fresh(c) && fresh(c.smartBuf) && fresh(c.ctrl.bus) && c.Valid() && c.Healthy()
    ensures !c.SmartRefused(0, 1) && c.Span(0, 1) == 1 && c.Gran() == 0x1000 && c.ctrl.bus.noise == noise
    ensures c.ctrl.bus.chip.mem == Filled(BLANK)
    ensures c.ctrl.bus.chip.busy == 1 && c.ctrl.bus.chip.flaws == 0
  {
    var info := CHIPS[12];
    var part := Part((0x55, 0xaa, 0x55), info.sizes, true, true, false, 0);
    var chip := Nor(part, Filled(BLANK), false, false, 1, 0, 0, [], 0);
    var bus := new Bus(true, true, noise, chip, 0, 0);
    var ctrl := new Sfc(bus, true);
    ctrl.info := Some(info);
    c := new FlashChip(ctrl, info, info.size);
  }

  /** flash_smart_write of one byte at address 0 of such a chip. */
  method WriteByte(b: byte, noise: seq<byte>) returns (c: FlashChip, rc: int)
    requires |noise| == MIB && Inside(Filled(BLANK), noise, 0, [b], 0x1000)
    ensures noise[0] == b ==> rc == 0 && c.ctrl.bus.chip.mem == Filled(BLANK)
    ensures Takes(Filled(BLANK), true, noise, 0, [b], 0x1000) ==> rc == 0
    ensures rc == 0 ==> c.ctrl.bus.chip.mem == ImageLeft(Filled(BLANK), true, noise, 0, [b], 0x1000)
  {
    hide FlashChip.Healthy, FlashChip.SmartRefused, FlashChip.Gran, FlashChip.Span, Plan, Overlay,
      Confined, ImageLeft, Commands, Takes, Filled, Offset;
    c := BusyBlank(noise);
    ghost var was := c.ctrl.bus.chip;
    rc := c.SmartWrite(0, [b]);
    assert [b][..1] == [b];
    ConfinedLength(was, c.ctrl.bus.chip, c.SpanLo(0), c.SpanHi(0, 1));
  }

  /** The byte 0 is to be stored, and the busy chip gives back zeros: nothing is done. */
  method NothingStored() returns (c: FlashChip, rc: int)
    ensures rc == 0 && |c.ctrl.bus.chip.mem| > 0 && c.ctrl.bus.chip.mem[0] == BLANK
  {
    c, rc := WriteByte(0, Filled(0));
  }

  /** The byte 0xff is to be stored where it is already: the granule is erased, and the
      zeros that the busy chip gave back are written around it. */
  method GranuleLost() returns (c: FlashChip, rc: int)
    ensures rc == 0 && |c.ctrl.bus.chip.mem| >= 0x1000 && c.ctrl.bus.chip.mem[0] == BLANK
    ensures forall i :: 1 <= i < 0x1000 ==> c.ctrl.bus.chip.mem[i] == 0
  {
    ZerosPutBack();
    hide Filled, ImageLeft, Takes;
    c, rc := WriteByte(BLANK, Filled(0));
  }

  lemma WholeGranules()
    ensures Offset(MIB, 0x1000) == 0
  {
  }

  lemma ZerosPutBack()
    ensures var mem, noise := Filled(BLANK), Filled(0);
            && Takes(mem, true, noise, 0, [BLANK], 0x1000)
            && var left := ImageLeft(mem, true, noise, 0, [BLANK], 0x1000);
               left[0] == BLANK && forall i :: 1 <= i < 0x1000 ==> left[i] == 0
  {
    var mem, noise, src, g := Filled(BLANK), Filled(0), [BLANK], 0x1000;
    WholeGranules();
    hide ImageLeft, Share, Start, Offset, Compare, Rewrite, Overlay, RoundTakes, Filled;
    assert Share(0, 1, g) == 1 && src[..1] == src && src[1..] == [] && src + [] == src;
    SpoilsHere(mem, noise, 0, src, g, 1, 0);
    OtherImage(mem, noise, 0, src, g, 1);
    var left := ImageLeft(mem, true, noise, 0, src, g);
    assert left == Rewrite(mem, noise, 0, 0, src, [], g);
    forall i | 0 <= i < g
      ensures left[i] == if i == 0 then BLANK else 0
    {
      RewriteByte(mem, noise, 0, 0, src, [], g, i);
      OverlayByte(mem, 0, src, i);
    }
  }
}
