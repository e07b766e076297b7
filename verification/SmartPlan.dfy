/** What flash_smart_write's command list says about the image: which granules it
    erases, and that there is nothing left to do after it. */
module SmartPlan {
  import opened Bytes
  import opened EraseTiling
  import opened NorChip
  import opened FlashPlan

  /** The bases of the erase commands in a list, in order. */
  function EraseBases(ops: seq<Op>): seq<nat> {
    if ops == [] then []
    else (if ops[0].Erase? then [ops[0].base] else []) + EraseBases(ops[1..])
  }

  lemma {:induction false} EraseBasesAppend(a: seq<Op>, b: seq<Op>)
    ensures EraseBases(a + b) == EraseBases(a) + EraseBases(b)
  {
    if a == [] {
      assert a + b == b;
    } else {
      assert (a + b)[0] == a[0] && (a + b)[1..] == a[1..] + b;
      EraseBasesAppend(a[1..], b);
    }
  }

  lemma {:induction false} PagesEraseNothing(at: nat, data: seq<byte>)
    ensures EraseBases(Pages(at, data)) == []
    decreases |data|
  {
    if data != [] {
      var n := Chunk(at, |data|);
      PagesEraseNothing(at + n, data[n..]);
      assert Pages(at, data)[1..] == Pages(at + n, data[n..]);
    }
  }

  /** A byte of the range that needs some bit to go from 0 to 1. */
  predicate Dirty(mem: seq<byte>, at: nat, src: seq<byte>, i: nat)
    requires at + |src| <= |mem|
  {
    at <= i < at + |src| && NeedsErase(src[i - at], mem[i])
  }

  /** There is one among the first n. */
  ghost predicate DirtyWithin(mem: seq<byte>, at: nat, src: seq<byte>, n: nat)
    requires at + |src| <= |mem|
  {
    exists i: nat :: i < at + n && Dirty(mem, at, src, i)
  }

  /** The granules that hold such a byte. */
  ghost function DirtyGranules(mem: seq<byte>, at: nat, src: seq<byte>, g: nat): set<nat>
    requires BlockSize(g) && at + |src| <= |mem|
  {
    set i: nat | at <= i < at + |src| && Dirty(mem, at, src, i) :: Start(i, g)
  }

  /** All bytes of one share lie in one granule, later bytes in later granules. */
  lemma ShareGranule(at: nat, left: nat, g: nat, i: nat)
    requires BlockSize(g) && left > 0 && at <= i < at + left
    ensures i < at + Share(at, left, g) ==> Start(i, g) == Start(at, g)
    ensures at + Share(at, left, g) <= i ==> Start(at, g) < Start(i, g)
  {
    var n := Share(at, left, g);
    var p, q := Start(at, g), Start(i, g);
    hide Offset, Start, Share;
    if i < at + n {
      if q < p {
        AlignedApart(q, p, g);
      } else if p < q {
        AlignedApart(p, q, g);
      }
    } else {
      AlignedApart(p, at + n, g);
    }
  }

  lemma RoundErases(page: nat, have: seq<byte>, off: nat, want: seq<byte>)
    requires off + |want| <= |have|
    ensures EraseBases(Round(page, have, off, want))
         == if Compare(want, have[off..off + |want|]) == NeedErase then [page] else []
  {
    hide Pages, Compare, Overlay;
    PagesEraseNothing(page + off, want);
    PagesEraseNothing(page, Overlay(have, off, want));
    var e := Erase(page, |have|, true);
    EraseBasesAppend([e], Pages(page, Overlay(have, off, want)));
    assert EraseBases([e]) == [page] by {
      assert [e][1..] == [];
    }
  }

  /** The first share of the data is dirty iff its round erases. */
  lemma ShareDirty(mem: seq<byte>, at: nat, src: seq<byte>, g: nat, n: nat)
    requires BlockSize(g) && at + |src| <= |mem| && n <= |src|
    requires Start(at, g) + g <= |mem| && Offset(at, g) + n <= g
    ensures Compare(src[..n], mem[Start(at, g)..Start(at, g) + g][Offset(at, g)..Offset(at, g) + n]) == NeedErase
       <==> DirtyWithin(mem, at, src, n)
  {
    hide Offset, Start, Compare, DirtyWithin;
    SliceOfSlice(mem, Start(at, g), g, Offset(at, g), n);
    DirtyBytes(mem, at, src, n);
  }

  lemma DirtyBytes(mem: seq<byte>, at: nat, src: seq<byte>, n: nat)
    requires at + |src| <= |mem| && n <= |src|
    ensures Compare(src[..n], mem[at..at + n]) == NeedErase <==> DirtyWithin(mem, at, src, n)
  {
    hide NeedsErase;
    var have, want := mem[at..at + n], src[..n];
    if j :| 0 <= j < n && NeedsErase(want[j], have[j]) {
      assert Dirty(mem, at, src, at + j);
    }
    if i: nat :| i < at + n && Dirty(mem, at, src, i) {
      assert want[i - at] == src[i - at] && have[i - at] == mem[i];
    }
  }

  lemma DirtySplit(mem: seq<byte>, at: nat, src: seq<byte>, g: nat, n: nat)
    requires BlockSize(g) && at + |src| <= |mem| && src != [] && n == Share(at, |src|, g)
    ensures var first := if DirtyWithin(mem, at, src, n) then {Start(at, g)} else {};
            && DirtyGranules(mem, at, src, g) == first + DirtyGranules(mem, at + n, src[n..], g)
            && Start(at, g) !in DirtyGranules(mem, at + n, src[n..], g)
  {
    var all, rest := DirtyGranules(mem, at, src, g), DirtyGranules(mem, at + n, src[n..], g);
    forall i: nat | at <= i < at + |src|
      ensures i < at + n ==> Start(i, g) == Start(at, g)
      ensures at + n <= i ==> Start(at, g) < Start(i, g)
      ensures at + n <= i ==> (Dirty(mem, at, src, i) <==> Dirty(mem, at + n, src[n..], i))
    {
      ShareGranule(at, |src|, g, i);
    }
    hide Share, Start, Offset;
    forall p | p in rest
      ensures p in all && p != Start(at, g)
    {
      var i: nat :| at + n <= i < at + |src| && Dirty(mem, at + n, src[n..], i) && p == Start(i, g);
      assert Dirty(mem, at, src, i);
    }
    forall p | p in all && p != Start(at, g)
      ensures p in rest
    {
      var i: nat :| at <= i < at + |src| && Dirty(mem, at, src, i) && p == Start(i, g);
      assert Dirty(mem, at + n, src[n..], i);
    }
    if i: nat :| i < at + n && Dirty(mem, at, src, i) {
      assert Start(i, g) in all;
    }
    if Start(at, g) in all {
      var i: nat :| at <= i < at + |src| && Dirty(mem, at, src, i) && Start(at, g) == Start(i, g);
      assert i < at + n;
    }
  }

  /** A granule is erased iff some source bit in it has to go from 0 to 1, and then
      once: as many erase commands as there are such granules. */
  lemma {:induction false} ErasesExactlyDirty(mem: seq<byte>, at: nat, src: seq<byte>, g: nat)
    requires BlockSize(g) && Offset(|mem|, g) == 0 && at + |src| <= |mem|
    ensures var bases := EraseBases(Plan(mem, at, src, g));
            && (forall p :: p in bases <==> p in DirtyGranules(mem, at, src, g))
            && |bases| == |DirtyGranules(mem, at, src, g)|
    decreases |src|
  {
    hide Plan, Compare, NeedsErase, Offset, Start, DirtyGranules, DirtyWithin;
    if src == [] {
      NoPlan(mem, at, g);
    } else {
      var n := Share(at, |src|, g);
      GranuleInside(at, |mem|, g);
      var rest := DirtyGranules(mem, at + n, src[n..], g);
      ErasesExactlyDirty(mem, at + n, src[n..], g);
      DirtySplit(mem, at, src, g, n);
      ShareDirty(mem, at, src, g, n);
      PlanBases(mem, at, src, g, n);
    }
  }

  lemma NoPlan(mem: seq<byte>, at: nat, g: nat)
    requires BlockSize(g) && Offset(|mem|, g) == 0 && at <= |mem|
    ensures Plan(mem, at, [], g) == [] && DirtyGranules(mem, at, [], g) == {}
  {
  }

  lemma PlanBases(mem: seq<byte>, at: nat, src: seq<byte>, g: nat, n: nat)
    requires BlockSize(g) && Offset(|mem|, g) == 0 && at + |src| <= |mem| && src != []
    requires n == Share(at, |src|, g) && Start(at, g) + g <= |mem|
    ensures var have := mem[Start(at, g)..Start(at, g) + g][Offset(at, g)..Offset(at, g) + n];
            EraseBases(Plan(mem, at, src, g))
            == (if Compare(src[..n], have) == NeedErase then [Start(at, g)] else [])
               + EraseBases(Plan(mem, at + n, src[n..], g))
  {
    hide Round, Compare, Offset, Start, Share;
    var page, off := Start(at, g), Offset(at, g);
    RoundErases(page, mem[page..page + g], off, src[..n]);
    EraseBasesAppend(Round(page, mem[page..page + g], off, src[..n]), Plan(mem, at + n, src[n..], g));
  }

  /** Where the image already holds the data there is nothing to do; in particular
      after a successful call, so repeating it plans no command at all. */
  lemma {:induction false} NothingPlanned(mem: seq<byte>, at: nat, src: seq<byte>, g: nat)
    requires BlockSize(g) && Offset(|mem|, g) == 0 && at + |src| <= |mem|
    requires mem[at..at + |src|] == src
    ensures Plan(mem, at, src, g) == []
    decreases |src|
  {
    hide Plan, Start, Offset;
    if src == [] {
      NoPlan(mem, at, g);
    } else {
      var n := Share(at, |src|, g);
      GranuleInside(at, |mem|, g);
      hide Share;
      PiecesOf(mem, at, src, n);
      NothingPlanned(mem, at + n, src[n..], g);
      FirstRoundIdle(mem, at, src, g, n);
    }
  }

  lemma FirstRoundIdle(mem: seq<byte>, at: nat, src: seq<byte>, g: nat, n: nat)
    requires BlockSize(g) && Offset(|mem|, g) == 0 && at + |src| <= |mem| && src != []
    requires n == Share(at, |src|, g) && Start(at, g) + g <= |mem|
    requires mem[at..at + n] == src[..n]
    ensures Plan(mem, at, src, g) == Plan(mem, at + n, src[n..], g)
  {
    hide Share, Start, Offset, Pages, Compare;
    var page, off := Start(at, g), Offset(at, g);
    SliceOfSlice(mem, page, g, off, n);
    CompareFacts(src[..n], mem[page..page + g][off..off + n]);
  }

  lemma RepeatPlansNothing(mem: seq<byte>, at: nat, src: seq<byte>, g: nat)
    requires BlockSize(g) && Offset(|mem|, g) == 0 && at + |src| <= |mem|
    ensures Plan(Overlay(mem, at, src), at, src, g) == []
  {
    assert Overlay(mem, at, src)[at..at + |src|] == src;
    NothingPlanned(Overlay(mem, at, src), at, src, g);
  }
}
