/** The erase-block choice of src/flash.c as pure arithmetic: which sequence of
    erase commands the loop of flash_erase issues, when that sequence is an exact
    tiling of the requested range, and that it is then a shortest tiling. */
module EraseTiling {
  import opened Limits

  /** The FL_ERASE_4K, FL_ERASE_32K and FL_ERASE_64K flags of a chip. */
  datatype EraseSet = EraseSet(k4: bool, k32: bool, k64: bool)

  /** A chip with a gap in its sizes. */
  const NO_32K := EraseSet(true, false, true)

  datatype Block = Block(base: nat, size: nat)

  predicate Supported(s: EraseSet, size: nat) {
    || (s.k4 && size == 0x1000)
    || (s.k32 && size == 0x8000)
    || (s.k64 && size == 0x10000)
  }

  /** A chip without any erase size is refused by flash_identify. */
  predicate Usable(s: EraseSet) {
    s.k4 || s.k32 || s.k64
  }

  /** min_erase_mask + 1 as flash_identify computes it. */
  function Granule(s: EraseSet): (g: nat)
    requires Usable(s)
    ensures Supported(s, g)
    ensures forall c: nat :: Supported(s, c) ==> g <= c && c % g == 0
  {
    if s.k4 then 0x1000 else if s.k32 then 0x8000 else 0x10000
  }

  /** Both are multiples of the granule. */
  predicate GranuleAligned(s: EraseSet, dst: nat, size: nat)
    requires Usable(s)
  {
    if s.k4 then dst % 0x1000 == 0 && size % 0x1000 == 0
    else if s.k32 then dst % 0x8000 == 0 && size % 0x8000 == 0
    else dst % 0x10000 == 0 && size % 0x10000 == 0
  }

  /** fl_get_best_erase: the branches of the source, in its order, given whether the
      address is on a 32 KiB and on a 64 KiB boundary. */
  function BestOf(s: EraseSet, on32K: bool, on64K: bool, size: nat): nat {
    if !on32K || size < 0x8000 then 0x1000
    else if s.k32 && (!on64K || size < 0x10000) then 0x8000
    else if !s.k64 then (if s.k32 then 0x8000 else 0x1000)
    else 0x10000
  }

  function BestErase(s: EraseSet, dst: nat, size: nat): nat {
    BestOf(s, dst % 0x8000 == 0, dst % 0x10000 == 0, size)
  }

  /** dst rounded up to a 32 KiB boundary. */
  function Up32K(dst: nat): nat {
    dst + (0x8000 - dst % 0x8000) % 0x8000
  }

  /** What a caller has to check before erasing on a chip that has 4 KiB and
      64 KiB blocks but no 32 KiB block; every other chip needs no check. */
  predicate Tileable(s: EraseSet, dst: nat, size: nat) {
    s == NO_32K && dst + size >= Up32K(dst) + 0x8000 ==>
      Up32K(dst) % 0x10000 == 0 && (dst + size) % 0x10000 < 0x8000
  }

  /** A left-to-right cover of [lo, hi) by supported, naturally aligned blocks. */
  predicate IsTiling(s: EraseSet, bs: seq<Block>, lo: nat, hi: nat) {
    if bs == [] then lo == hi
    else
      && bs[0].base == lo
      && Supported(s, bs[0].size)
      && lo % bs[0].size == 0
      && lo + bs[0].size <= hi
      && IsTiling(s, bs[1..], lo + bs[0].size, hi)
  }

  predicate BlockSize(m: nat) {
    m == 0x1000 || m == 0x8000 || m == 0x10000
  }

  /** The position of x in its block of size g. */
  function Offset(x: nat, g: nat): (r: nat)
    requires BlockSize(g)
    ensures r < g && r <= x
  {
    x % g
  }

  /** Start of the block of size g that holds x. */
  function Start(x: nat, g: nat): (r: nat)
    requires BlockSize(g)
    ensures r + Offset(x, g) == x && x < r + g && Offset(r, g) == 0
  {
    StartIsAligned(x, g);
    x - Offset(x, g)
  }

  lemma {:induction false} StartIsAligned(x: nat, g: nat)
    requires BlockSize(g)
    ensures Offset(x - Offset(x, g), g) == 0
    decreases x
  {
    if x >= g {
      StartIsAligned(x - g, g);
    }
  }

  lemma OffsetOfSum(x: nat, y: nat, g: nat)
    requires BlockSize(g) && Offset(y, g) == 0
    ensures Offset(x + y, g) == Offset(x, g)
  {
    AddMod(x, y, g);
  }

  lemma AlignedApart(x: nat, y: nat, g: nat)
    requires BlockSize(g) && Offset(x, g) == 0 && Offset(y, g) == 0 && x < y
    ensures x + g <= y
  {
    MultiplesApart(x, y, g);
  }

  lemma AddMod4K(x: int, q: int)
    ensures (x + 0x1000 * q) % 0x1000 == x % 0x1000
  {
  }

  lemma AddMod32K(x: int, q: int)
    ensures (x + 0x8000 * q) % 0x8000 == x % 0x8000
  {
  }

  lemma AddMod64K(x: int, q: int)
    ensures (x + 0x10000 * q) % 0x10000 == x % 0x10000
  {
  }

  /** Adding a multiple does not change the remainder. */
  lemma AddMod(x: int, y: int, m: nat)
    requires BlockSize(m) && y % m == 0
    ensures (x + y) % m == x % m
  {
    if m == 0x1000 {
      AddMod4K(x, y / 0x1000);
    } else if m == 0x8000 {
      AddMod32K(x, y / 0x8000);
    } else {
      AddMod64K(x, y / 0x10000);
    }
  }

  lemma Up32KValue(x: nat)
    ensures Up32K(x) == if x % 0x8000 == 0 then x else x + 0x8000 - x % 0x8000
  {
  }

  lemma RemainderStep(dst: nat)
    requires dst % 0x1000 == 0
    ensures (dst + 0x1000) % 0x8000 == if dst % 0x8000 == 0x7000 then 0 else dst % 0x8000 + 0x1000
  {
    var r := dst % 0x8000;
    Remainder4K(dst);
    AddMod32K(r + 0x1000, dst / 0x8000);
  }

  lemma Up32KInside(dst: nat)
    requires dst % 0x1000 == 0 && dst % 0x8000 != 0
    ensures Up32K(dst + 0x1000) == Up32K(dst)
  {
    RemainderStep(dst);
    Up32KValue(dst);
    Up32KValue(dst + 0x1000);
  }

  lemma Up32KAtBoundary(dst: nat)
    requires dst % 0x8000 == 0
    ensures Up32K(dst) == dst && Up32K(dst + 0x1000) == dst + 0x8000 && Up32K(dst + 0x10000) == dst + 0x10000
  {
    AddMod(0x1000, dst, 0x8000);
    AddMod32K(dst, 2);
  }

  lemma Remainder4K(dst: nat)
    requires dst % 0x1000 == 0
    ensures dst % 0x8000 <= 0x7000
  {
    AddMod4K(dst % 0x8000, 8 * (dst / 0x8000));
    assert dst == dst % 0x8000 + 0x1000 * (8 * (dst / 0x8000));
  }

  lemma BestOfFits(s: EraseSet, on32K: bool, on64K: bool, size: nat)
    requires Usable(s) && s != NO_32K
    requires (on64K ==> on32K) && size >= 0x1000
    requires !s.k4 ==> on32K && size >= 0x8000
    requires !s.k4 && !s.k32 ==> on64K && size >= 0x10000
    ensures var c := BestOf(s, on32K, on64K, size);
            && Supported(s, c) && c <= size
            && (c == 0x8000 ==> on32K) && (c == 0x10000 ==> on64K)
            && (s.k32 && on32K && size >= 0x8000 ==> c >= 0x8000)
            && (s.k64 && on64K && size >= 0x10000 ==> c == 0x10000)
  {
  }

  lemma BestOnGapFreeSets(s: EraseSet, dst: nat, size: nat)
    requires Usable(s) && s != NO_32K && GranuleAligned(s, dst, size) && size > 0
    ensures var c := BestErase(s, dst, size); Supported(s, c) && dst % c == 0 && c <= size
    ensures forall b: nat :: Supported(s, b) && dst % b == 0 && b <= size ==> b <= BestErase(s, dst, size)
  {
    AlignedFacts(s, dst, size);
    BestOfFits(s, dst % 0x8000 == 0, dst % 0x10000 == 0, size);
  }

  lemma AlignedFacts(s: EraseSet, dst: nat, size: nat)
    requires Usable(s) && GranuleAligned(s, dst, size) && size > 0
    ensures dst % 0x10000 == 0 ==> dst % 0x8000 == 0
    ensures dst % 0x1000 == 0 && size >= 0x1000
    ensures !s.k4 ==> dst % 0x8000 == 0 && size >= 0x8000
    ensures !s.k4 && !s.k32 ==> dst % 0x10000 == 0 && size >= 0x10000
  {
    if dst % 0x10000 == 0 {
      SharedMultiple(dst, 0x10000, 0x8000);
    }
    if dst % 0x8000 == 0 {
      SharedMultiple(dst, 0x8000, 0x1000);
    }
    if s.k4 {
      AtLeastOne(size, 0x1000);
    } else if s.k32 {
      AtLeastOne(size, 0x8000);
    } else {
      AtLeastOne(size, 0x10000);
    }
  }

  lemma AtLeastOne(size: nat, m: nat)
    requires BlockSize(m) && size % m == 0 && size > 0
    ensures size >= m
  {
  }

  lemma BestWithoutGap(dst: nat, size: nat)
    requires dst % 0x1000 == 0 && size % 0x1000 == 0 && size > 0
    requires Tileable(NO_32K, dst, size)
    ensures var c := BestErase(NO_32K, dst, size); dst % c == 0 && c <= size
    ensures dst % 0x10000 == 0 && 0x10000 <= size ==> BestErase(NO_32K, dst, size) == 0x10000
  {
    AlignedFacts(NO_32K, dst, size);
    if dst % 0x8000 == 0 && size >= 0x8000 {
      LongEnough(dst, size);
    }
  }

  lemma LongEnough(dst: nat, size: nat)
    requires dst % 0x8000 == 0 && size >= 0x8000
    requires Tileable(NO_32K, dst, size)
    ensures dst % 0x10000 == 0 && size >= 0x10000
  {
    Up32KAtBoundary(dst);
    AddMod(size, dst, 0x10000);
  }

  /** On a Tileable range the source's choice is the largest supported block that
      starts here aligned and fits. */
  lemma BestIsLargestFit(s: EraseSet, dst: nat, size: nat)
    requires Usable(s) && GranuleAligned(s, dst, size) && Tileable(s, dst, size) && size > 0
    ensures var c := BestErase(s, dst, size); Supported(s, c) && dst % c == 0 && c <= size
    ensures forall b: nat :: Supported(s, b) && dst % b == 0 && b <= size ==> b <= BestErase(s, dst, size)
  {
    if s == NO_32K {
      BestWithoutGap(dst, size);
    } else {
      BestOnGapFreeSets(s, dst, size);
    }
  }

  /** A step over an aligned block that fits neither gains nor loses Tileable. */
  lemma StepKeepsTileable(s: EraseSet, dst: nat, size: nat)
    requires Usable(s) && GranuleAligned(s, dst, size) && size > 0
    requires var c := BestErase(s, dst, size); Supported(s, c) && dst % c == 0 && c <= size
    ensures var c := BestErase(s, dst, size);
            && GranuleAligned(s, dst + c, size - c)
            && (Tileable(s, dst, size) <==> Tileable(s, dst + c, size - c))
  {
    StepKeepsAligned(s, dst, size, BestErase(s, dst, size));
    if s == NO_32K {
      StepInGap(dst, size);
    }
  }

  lemma StepKeepsAligned(s: EraseSet, dst: nat, size: nat, c: nat)
    requires Usable(s) && GranuleAligned(s, dst, size) && Supported(s, c) && c <= size
    ensures GranuleAligned(s, dst + c, size - c)
  {
    var g := Granule(s);
    assert c % g == 0 && BlockSize(g);
    AddMod(dst, c, g);
    AddMod(size - c, c, g);
  }

  lemma StepInGap(dst: nat, size: nat)
    requires dst % 0x1000 == 0 && size % 0x1000 == 0 && size > 0
    requires var c := BestErase(NO_32K, dst, size); dst % c == 0 && c <= size
    ensures var s, c := NO_32K, BestErase(NO_32K, dst, size);
            Tileable(s, dst, size) <==> Tileable(s, dst + c, size - c)
  {
    var c := BestErase(NO_32K, dst, size);
    var end := dst + size;
    assert dst + c + (size - c) == end;
    if dst % 0x8000 != 0 {
      Up32KInside(dst);
    } else if size < 0x8000 {
      Up32KAtBoundary(dst);
    } else {
      Up32KAtBoundary(dst);
      if end < dst + 0x18000 {
        LastSixtyFourK(dst, end);
      }
    }
  }

  lemma LastSixtyFourK(dst: nat, end: nat)
    requires dst % 0x10000 == 0 && dst + 0x10000 <= end < dst + 0x18000
    ensures end % 0x10000 < 0x8000
  {
    AddMod(end - dst, dst, 0x10000);
    AddMod64K(end - dst - 0x10000, 1);
  }

  /** The blocks flash_erase issues on a Tileable range. */
  function Greedy(s: EraseSet, dst: nat, size: nat): seq<Block>
    requires Usable(s) && GranuleAligned(s, dst, size) && Tileable(s, dst, size)
    decreases size
  {
    if size == 0 then []
    else
      BestIsLargestFit(s, dst, size);
      StepKeepsTileable(s, dst, size);
      var c := BestErase(s, dst, size);
      [Block(dst, c)] + Greedy(s, dst + c, size - c)
  }

  lemma {:induction false} GreedyIsTiling(s: EraseSet, dst: nat, size: nat)
    requires Usable(s) && GranuleAligned(s, dst, size) && Tileable(s, dst, size)
    ensures IsTiling(s, Greedy(s, dst, size), dst, dst + size)
    decreases size
  {
    hide BestErase, Tileable, GranuleAligned;
    if size > 0 {
      BestIsLargestFit(s, dst, size);
      StepKeepsTileable(s, dst, size);
      var c := BestErase(s, dst, size);
      GreedyIsTiling(s, dst + c, size - c);
      assert Greedy(s, dst, size)[1..] == Greedy(s, dst + c, size - c);
    }
  }

  lemma AlignedBlocksNest(s: EraseSet, lo: nat, b: nat, mid: nat, c: nat)
    requires Supported(s, b) && Supported(s, c)
    requires lo % b == 0 && mid % c == 0 && lo < mid < lo + c
    ensures lo + b <= mid
  {
    if b <= c {
      SharedMultiple(mid, c, b);
      MultiplesApart(lo, mid, b);
    } else {
      SharedMultiple(lo, b, c);
      MultiplesApart(lo, mid, c);
      assert false;
    }
  }

  lemma SharedMultiple(x: nat, big: nat, small: nat)
    requires BlockSize(small) && BlockSize(big) && small <= big && x % big == 0
    ensures x % small == 0
  {
    var q := x / big;
    assert x == big * q;
    if small == 0x1000 {
      AddMod4K(0, big / 0x1000 * q);
      assert big == 0x1000 || big == 0x8000 || big == 0x10000;
    } else if small == 0x8000 {
      AddMod32K(0, big / 0x8000 * q);
      assert big == 0x8000 || big == 0x10000;
    }
  }

  lemma MultiplesApart(x: nat, y: nat, m: nat)
    requires BlockSize(m) && x % m == 0 && y % m == 0 && x < y
    ensures x + m <= y
  {
    AddMod(y - x, x, m);
  }

  /** Aligned blocks nest: a tiling that starts inside an aligned block of size c
      and is cut by no larger block has a prefix that ends exactly where it ends. */
  lemma {:induction false} TilingSplits(s: EraseSet, t: seq<Block>, lo: nat, mid: nat, hi: nat, c: nat)
    returns (k: nat)
    requires Supported(s, c) && mid % c == 0 && lo <= mid <= hi && mid - lo < c
    requires IsTiling(s, t, lo, hi)
    ensures k <= |t| && IsTiling(s, t[k..], mid, hi)
    ensures lo < mid ==> k > 0
  {
    if lo == mid {
      k := 0;
      assert t[0..] == t;
    } else {
      var b := t[0].size;
      AlignedBlocksNest(s, lo, b, mid, c);
      var j := TilingSplits(s, t[1..], lo + b, mid, hi, c);
      k := j + 1;
      assert t[1..][j..] == t[k..];
    }
  }

  /** Greedy is a shortest tiling: no cover of the range by supported, naturally
      aligned blocks needs fewer erase commands. */
  lemma {:induction false} GreedyIsMinimal(s: EraseSet, dst: nat, size: nat, t: seq<Block>)
    requires Usable(s) && GranuleAligned(s, dst, size) && Tileable(s, dst, size)
    requires IsTiling(s, t, dst, dst + size)
    ensures |Greedy(s, dst, size)| <= |t|
    decreases size
  {
    hide BestErase, Tileable, GranuleAligned;
    if size > 0 {
      BestIsLargestFit(s, dst, size);
      StepKeepsTileable(s, dst, size);
      var c := BestErase(s, dst, size);
      var b := t[0].size;
      AddMod(dst, c, c);
      var j := TilingSplits(s, t[1..], dst + b, dst + c, dst + size, c);
      GreedyIsMinimal(s, dst + c, size - c, t[1..][j..]);
    }
  }

  // ---- the loop as the machine runs it, with 64-bit wrap-around ----

  /** The first n blocks of the loop; dst and size are uint64_t, and
      fl_get_best_erase sees only their low 32 bits. */
  function Issued(s: EraseSet, dst: nat, size: nat, n: nat): seq<Block>
    decreases n
  {
    if n == 0 || size == 0 then []
    else
      var c := BestErase(s, dst % TWO_32, size % TWO_32);
      [Block(dst, c)] + Issued(s, (dst + c) % TWO_64, (size - c) % TWO_64, n - 1)
  }

  /** The size variable after n iterations. */
  function Left(s: EraseSet, dst: nat, size: nat, n: nat): nat
    decreases n
  {
    if n == 0 || size == 0 then size
    else
      var c := BestErase(s, dst % TWO_32, size % TWO_32);
      Left(s, (dst + c) % TWO_64, (size - c) % TWO_64, n - 1)
  }

  lemma NoWrap(x: nat)
    requires x < TWO_32
    ensures x % TWO_32 == x && x % TWO_64 == x
  {
  }

  /** While the range is below 4 GiB and the block fits, nothing wraps. */
  lemma StepWithoutWrap(s: EraseSet, dst: nat, size: nat, n: nat)
    requires 0 < size && dst + size < TWO_32 && BestErase(s, dst, size) <= size && n > 0
    ensures var c := BestErase(s, dst, size);
            && Issued(s, dst, size, n) == [Block(dst, c)] + Issued(s, dst + c, size - c, n - 1)
            && Left(s, dst, size, n) == Left(s, dst + c, size - c, n - 1)
  {
    var c := BestErase(s, dst, size);
    NoWrap(dst);
    NoWrap(size);
    NoWrap(dst + c);
    NoWrap(size - c);
  }

  /** The loop ends, having issued exactly an aligned tiling of the range. */
  ghost predicate ExactErase(s: EraseSet, dst: nat, size: nat) {
    exists n: nat :: Left(s, dst, size, n) == 0 && IsTiling(s, Issued(s, dst, size, n), dst, dst + size)
  }

  lemma {:induction false} TileableRuns(s: EraseSet, dst: nat, size: nat) returns (n: nat)
    requires Usable(s) && GranuleAligned(s, dst, size) && Tileable(s, dst, size)
    requires dst + size < TWO_32
    ensures Left(s, dst, size, n) == 0 && Issued(s, dst, size, n) == Greedy(s, dst, size)
    decreases size
  {
    if size == 0 {
      n := 0;
    } else {
      BestIsLargestFit(s, dst, size);
      StepKeepsTileable(s, dst, size);
      var c := BestErase(s, dst, size);
      var m := TileableRuns(s, dst + c, size - c);
      n := m + 1;
      StepWithoutWrap(s, dst, size, n);
    }
  }

  /** On a range that is not Tileable, the next step either keeps it so or issues a
      block that is misaligned or runs past the end. */
  lemma {:induction false} UntileableGoesWrong(s: EraseSet, dst: nat, size: nat, n: nat)
    requires Usable(s) && GranuleAligned(s, dst, size) && !Tileable(s, dst, size)
    requires dst + size < TWO_32
    ensures !(Left(s, dst, size, n) == 0 && IsTiling(s, Issued(s, dst, size, n), dst, dst + size))
    decreases n
  {
    if n > 0 && size > 0 {
      var c := BestErase(s, dst, size);
      if Supported(s, c) && dst % c == 0 && c <= size {
        StepKeepsTileable(s, dst, size);
        UntileableGoesWrong(s, dst + c, size - c, n - 1);
        StepWithoutWrap(s, dst, size, n);
        assert Issued(s, dst, size, n)[1..] == Issued(s, dst + c, size - c, n - 1);
      } else {
        FirstBlock(s, dst, size, n);
      }
    }
  }

  lemma FirstBlock(s: EraseSet, dst: nat, size: nat, n: nat)
    requires 0 < size && dst + size < TWO_32 && n > 0
    ensures Issued(s, dst, size, n) != [] && Issued(s, dst, size, n)[0] == Block(dst, BestErase(s, dst, size))
  {
    NoWrap(dst);
    NoWrap(size);
  }

  /** flash_erase is exact on precisely the Tileable ranges. */
  lemma ExactIffTileable(s: EraseSet, dst: nat, size: nat)
    requires Usable(s) && GranuleAligned(s, dst, size)
    requires dst + size < TWO_32
    ensures ExactErase(s, dst, size) <==> Tileable(s, dst, size)
  {
    if Tileable(s, dst, size) {
      var n := TileableRuns(s, dst, size);
      GreedyIsTiling(s, dst, size);
    } else {
      forall n: nat
        ensures !(Left(s, dst, size, n) == 0 && IsTiling(s, Issued(s, dst, size, n), dst, dst + size))
      {
        UntileableGoesWrong(s, dst, size, n);
      }
    }
  }

  /** Chips with all three sizes, or with any set other than {4K, 64K}, need no check;
      a 64 KiB aligned range needs none on any chip that has 64 KiB blocks; and one
      block of the smallest size is always fine. */
  lemma AlwaysTileable(s: EraseSet, dst: nat, size: nat)
    requires Usable(s) && GranuleAligned(s, dst, size)
    requires
      || s != NO_32K
      || (dst % 0x10000 == 0 && size % 0x10000 == 0)
      || size == Granule(s)
    ensures Tileable(s, dst, size)
  {
    if s == NO_32K {
      Up32KValue(dst);
      if size != 0x1000 {
        SharedMultiple(dst, 0x10000, 0x8000);
        AddMod(size, dst, 0x10000);
      }
    }
  }

  // ---- where the loop goes wrong ----

  /** On the way from dst the loop is still before the first 32 KiB boundary or at it, or
      on 64 KiB boundaries. */
  predicate Trail(dst: nat, d: nat) {
    Up32K(d) == Up32K(dst) || d % 0x10000 == 0
  }

  /** The byte outside the range that a bad block at d reaches. */
  function AstrayByte(d: nat, left: nat): int {
    if d % 0x10000 == 0 then d + left else d - 0x8000
  }

  /** A block that is misaligned or too long reaches a byte before the range or past it. */
  lemma BadBlockLeaves(dst: nat, d: nat, left: nat)
    requires GranuleAligned(NO_32K, d, left) && !Tileable(NO_32K, d, left) && Trail(dst, d)
    requires var c := BestErase(NO_32K, d, left); d % c != 0 || c > left
    ensures var x := AstrayByte(d, left);
            && BestErase(NO_32K, d, left) == 0x10000
            && Start(d, 0x10000) <= x < Start(d, 0x10000) + 0x10000
            && !(dst <= x < d + left)
  {
    Up32KValue(d);
    Up32KValue(dst);
    AlignedFacts(NO_32K, d, left);
    if d % 0x10000 != 0 {
      HalfWay(d);
    }
  }

  lemma HalfWay(d: nat)
    requires d % 0x8000 == 0 && d % 0x10000 != 0
    ensures d % 0x10000 == 0x8000
  {
  }

  /** A good block keeps the loop on its trail, with a bad one still to come. */
  lemma GoodBlockStays(dst: nat, d: nat, left: nat)
    requires GranuleAligned(NO_32K, d, left) && !Tileable(NO_32K, d, left) && Trail(dst, d)
    requires var c := BestErase(NO_32K, d, left); d % c == 0 && c <= left
    ensures var c := BestErase(NO_32K, d, left);
            && Supported(NO_32K, c) && GranuleAligned(NO_32K, d + c, left - c) && !Tileable(NO_32K, d + c, left - c)
            && Trail(dst, d + c) && left - c > 0
  {
    StepKeepsTileable(NO_32K, d, left);
    TrailStep(dst, d, left);
    hide Tileable, BestErase, GranuleAligned, Trail;
    var c := BestErase(NO_32K, d, left);
    NothingTiles(d + c);
  }

  lemma NothingTiles(d: nat)
    ensures Tileable(NO_32K, d, 0)
  {
    Up32KValue(d);
  }

  lemma TrailStep(dst: nat, d: nat, left: nat)
    requires GranuleAligned(NO_32K, d, left) && !Tileable(NO_32K, d, left) && Trail(dst, d)
    requires var c := BestErase(NO_32K, d, left); d % c == 0 && c <= left
    ensures Supported(NO_32K, BestErase(NO_32K, d, left)) && Trail(dst, d + BestErase(NO_32K, d, left))
  {
    Up32KValue(d);
    if d % 0x8000 != 0 {
      Up32KInside(d);
      Remainder4K(d);
      Multiple64KIs32K(d);
    } else {
      AddMod64K(d, 1);
    }
  }

  lemma Multiple64KIs32K(x: nat)
    ensures x % 0x10000 == 0 ==> x % 0x8000 == 0
  {
    AddMod32K(0, 2 * (x / 0x10000));
  }

  /** The smallest range that goes wrong on a {4K, 64K} chip. */
  lemma FirstUntileable()
    ensures !ExactErase(NO_32K, 0, 0x8000)
  {
    ExactIffTileable(NO_32K, 0, 0x8000);
  }
}
