/** src/soc/otp.c: one-time-programmable configuration words. Sixteen configuration words,
    twelve words of strap options (six options for each of 64 straps), and among the rest
    the two words that protect straps. */
module Otp {
  import opened Words

  const NUM_OTP_CONF: nat := 16
  const NUM_PROG_TRIES: nat := 16
  const OTP_PASSWD: word := 0x349fe38a

  type Image = i: seq<word> | |i| == 32 witness seq(32, _ => 0)

  // ---- addresses ----

  /** The OTP address of a configuration word; the fields joined with | are disjoint. */
  function ConfAddr(i: nat): nat {
    0x800 + i / 8 * 0x200 + i % 8 * 2
  }

  /** The controller's decoding of an address. */
  function SlotOf(addr: nat): (slot: nat)
    ensures slot <= 32
  {
    if 0x800 <= addr < 0x1000 && addr % 2 == 0 && addr % 0x200 < 16 then (addr - 0x800) / 0x200 * 8 + addr % 0x200 / 2
    else 32
  }

  lemma AddressRoundTrip(i: nat)
    requires i < 32
    ensures SlotOf(ConfAddr(i)) == i
    ensures ConfAddr(i) == if i < 8 then 0x800 + 2 * i else if i < 16 then 0x9f0 + 2 * i
                           else if i < 24 then 0xbe0 + 2 * i else 0xdd0 + 2 * i
  {
    assert ConfAddr(i) % 0x200 == i % 8 * 2;
    assert (ConfAddr(i) - 0x800) / 0x200 == i / 8;
  }

  // ---- bits ----

  /** Exactly one bit is set. */
  predicate IsBit(mask: word) {
    mask != 0 && mask & (mask - 1) == 0
  }

  function BitMask(bit: word): (mask: word)
    requires bit < 32
    ensures IsBit(mask)
  {
    1 << bit
  }

  lemma BitIsAtomic(mask: word, s: word)
    requires IsBit(mask) && s & mask == s
    ensures s == 0 || s == mask
  {
  }

  predicate Has(x: word, mask: word) {
    And(x, mask) != 0
  }

  lemma AndOfBit(mask: word, x: word)
    requires IsBit(mask)
    ensures mask != 0 && (And(x, mask) == 0 || And(x, mask) == mask)
    ensures And(0, mask) == 0
  {
  }

  lemma ExorOfAnds(mask: word, x: word, y: word)
    ensures And(Exor(x, y), mask) == Exor(And(x, mask), And(y, mask))
  {
  }

  lemma ExorOfSame(mask: word)
    ensures Exor(mask, mask) == 0 && Exor(mask, 0) == mask && Exor(0, mask) == mask && Exor(0, 0) == 0
  {
  }

  lemma BitOfXor(mask: word, x: word, y: word)
    requires IsBit(mask)
    ensures Has(Exor(x, y), mask) <==> Has(x, mask) != Has(y, mask)
    ensures !Has(0, mask)
  {
    hide And, Exor, IsBit;
    AndOfBit(mask, x);
    AndOfBit(mask, y);
    ExorOfAnds(mask, x, y);
    ExorOfSame(mask);
  }

  lemma OrDistributes(x: word, y: word, mask: word)
    ensures (x | y) & mask == (x & mask) | (y & mask) && (x & mask) | 0 == x & mask
    ensures (x | mask) & mask == mask && x & mask & mask == x & mask && x & mask & x == x & mask
  {
  }

  lemma BitOfOr(mask: word, other: word, x: word)
    requires IsBit(mask) && IsBit(other)
    ensures Has(Or(x, mask), other) <==> mask == other || Has(x, other)
  {
    OrDistributes(x, mask, other);
    if mask != other {
      OrDistributes(mask, 0, other);
      BitIsAtomic(other, mask & other);
      BitIsAtomic(mask, mask & other);
    }
  }

  /** Every bit of x is a bit of y. */
  predicate Keeps(x: word, y: word) {
    x & y == x
  }

  lemma KeepsOr(x: word, m: word)
    ensures Keeps(x, x) && Keeps(x, Or(x, m))
  {
  }

  lemma KeepsChain(x: word, y: word, z: word)
    requires Keeps(x, y) && Keeps(y, z)
    ensures Keeps(x, z)
  {
  }

  // ---- straps ----

  /** Option i of the straps in word w. */
  function OptionSlot(w: nat, i: nat): nat {
    16 + i * 2 + w
  }

  /** The exclusive or of the first n options. */
  function Xor(img: Image, w: nat, n: nat): word
    requires w < 2 && n <= 6
    decreases n
  {
    if n == 0 then 0 else Exor(Xor(img, w, n - 1), img[OptionSlot(w, n - 1)])
  }

  /** The value of a strap. */
  predicate StrapIs(img: Image, w: nat, mask: word)
    requires w < 2
  {
    Has(Xor(img, w, 6), mask)
  }

  /** How many of the first n options have the bit set. */
  function Used(img: Image, w: nat, mask: word, n: nat): (u: nat)
    requires w < 2 && n <= 6
    ensures u <= n
    decreases n
  {
    if n == 0 then 0 else Used(img, w, mask, n - 1) + if Has(img[OptionSlot(w, n - 1)], mask) then 1 else 0
  }

  /** The first of the first n options whose bit is free, or -1. */
  function FirstFree(img: Image, w: nat, mask: word, n: nat): (f: int)
    requires w < 2 && n <= 6
    ensures -1 <= f < n
    decreases n
  {
    if n == 0 then -1
    else
      var f := FirstFree(img, w, mask, n - 1);
      if f < 0 && !Has(img[OptionSlot(w, n - 1)], mask) then n - 1 else f
  }

  lemma {:induction false} FirstFreeMeans(img: Image, w: nat, mask: word, n: nat)
    requires w < 2 && n <= 6
    ensures var f := FirstFree(img, w, mask, n);
            if f < 0 then Used(img, w, mask, n) == n
            else !Has(img[OptionSlot(w, f)], mask) && Used(img, w, mask, f) == f
    decreases n
  {
    hide Has;
    if n > 0 {
      FirstFreeMeans(img, w, mask, n - 1);
    }
  }

  predicate Odd(n: nat) {
    n % 2 == 1
  }

  lemma OddStep(n: nat)
    ensures (Odd(n + 1) <==> !Odd(n)) && !Odd(0)
  {
  }

  /** One of the first n options of the straps in word w. */
  predicate Among(slot: nat, w: nat, n: nat) {
    16 + w <= slot < 16 + w + n * 2 && (slot - 16 - w) % 2 == 0
  }

  lemma AmongStep(slot: nat, w: nat, n: nat)
    ensures Among(slot, w, n + 1) <==> Among(slot, w, n) || slot == OptionSlot(w, n)
    ensures !Among(slot, w, 0) && (Among(slot, w, n) ==> slot != OptionSlot(w, n))
  {
  }

  lemma AmongOptions(w': nat, f: nat, w: nat)
    requires w < 2 && w' < 2 && f < 6
    ensures Among(OptionSlot(w', f), w, 6) <==> w == w'
    ensures OptionSlot(w', f) < 28
  {
  }

  lemma AmongConf(i: nat, w: nat)
    requires i < NUM_OTP_CONF
    ensures !Among(i, w, 6)
  {
  }

  /** A strap is set exactly if an odd number of its options are. */
  lemma {:induction false} ValueIsParity(img: Image, w: nat, mask: word, n: nat)
    requires w < 2 && n <= 6 && IsBit(mask)
    ensures Has(Xor(img, w, n), mask) <==> Odd(Used(img, w, mask, n))
    decreases n
  {
    hide Has, IsBit, Odd, Exor;
    if n == 0 {
      BitOfXor(mask, 0, 0);
      OddStep(0);
    } else {
      ValueIsParity(img, w, mask, n - 1);
      OddStep(Used(img, w, mask, n - 1));
      BitOfXor(mask, Xor(img, w, n - 1), img[OptionSlot(w, n - 1)]);
    }
  }

  /** The image with the bits of m set in one word. */
  function SetBits(a: Image, slot: nat, m: word): (b: Image)
    requires slot < 32
  {
    a[slot := Or(a[slot], m)]
  }

  lemma OptionAfter(a: Image, slot: nat, m: word, mask: word, o: nat)
    requires slot < 32 && o < 32 && IsBit(m) && IsBit(mask)
    ensures Has(SetBits(a, slot, m)[o], mask) <==> Has(a[o], mask) || (m == mask && slot == o)
  {
    hide Has, IsBit, Or;
    BitOfOr(m, mask, a[slot]);
  }

  /** What setting one bit does to the options counted for a strap. */
  lemma {:induction false} UsedAfter(a: Image, slot: nat, m: word, w: nat, mask: word, n: nat)
    requires slot < 32 && !Has(a[slot], m) && IsBit(m) && IsBit(mask) && w < 2 && n <= 6
    ensures Used(SetBits(a, slot, m), w, mask, n) ==
            Used(a, w, mask, n) + if m == mask && Among(slot, w, n) then 1 else 0
    decreases n
  {
    hide Has, IsBit, Among, SetBits;
    if n == 0 {
      AmongStep(slot, w, 0);
    } else {
      UsedAfter(a, slot, m, w, mask, n - 1);
      AmongStep(slot, w, n - 1);
      OptionAfter(a, slot, m, mask, OptionSlot(w, n - 1));
      hide OptionSlot;
    }
  }

  // ---- what a call may do ----

  datatype Call = Conf(index: nat, bit: word) | Strap(bit: word, val: word)

  function WordOf(bit: word): nat {
    if bit > 31 then 1 else 0
  }

  function MaskOf(bit: word): (mask: word)
    requires bit < 64
    ensures IsBit(mask)
  {
    BitMask(if bit > 31 then bit - 32 else bit)
  }

  predicate Protected(img: Image, w: nat, mask: word)
    requires w < 2
  {
    Has(img[30 + w], mask)
  }

  /** A call changes nothing, or sets one bit: the configuration bit it names, or the first
      free option of a strap that is not protected and does not have the wanted value. */
  ghost predicate Allowed(a: Image, call: Call, b: Image) {
    a == b ||
    match call
    case Conf(i, bit) =>
      i < NUM_OTP_CONF && bit < 32 && !Has(a[i], BitMask(bit)) && b == SetBits(a, i, BitMask(bit))
    case Strap(bit, val) =>
      bit < 64 && val <= 1 &&
      var w, mask := WordOf(bit), MaskOf(bit);
      var f := FirstFree(a, w, mask, 6);
      && !Protected(a, w, mask) && f >= 0 && StrapIs(a, w, mask) != (val == 1)
      && b == SetBits(a, OptionSlot(w, f), mask)
  }

  /** A strap write that sets its bit makes the strap equal to val. */
  lemma StrapTakesValue(a: Image, bit: word, val: word, b: Image)
    requires Allowed(a, Strap(bit, val), b) && a != b
    ensures StrapIs(b, WordOf(bit), MaskOf(bit)) <==> val == 1
  {
    hide Has, IsBit, BitMask, MaskOf, FirstFree, Xor, Used, Among, Odd;
    var w, mask := WordOf(bit), MaskOf(bit);
    var f := FirstFree(a, w, mask, 6);
    FirstFreeMeans(a, w, mask, 6);
    AmongOptions(w, f, w);
    OddStep(Used(a, w, mask, 6));
    UsedAfter(a, OptionSlot(w, f), mask, w, mask, 6);
    ValueIsParity(a, w, mask, 6);
    ValueIsParity(b, w, mask, 6);
  }

  /** One call, seen from one strap: the value changes exactly when one of its options is
      used up, and not at all while it is protected; the protection words never change. */
  lemma CallSeenByStrap(a: Image, call: Call, b: Image, w: nat, mask: word)
    requires Allowed(a, call, b) && w < 2 && IsBit(mask)
    ensures Used(b, w, mask, 6) == Used(a, w, mask, 6) + if StrapIs(a, w, mask) != StrapIs(b, w, mask) then 1 else 0
    ensures Protected(a, w, mask) ==> StrapIs(a, w, mask) == StrapIs(b, w, mask)
    ensures b[28..] == a[28..]
  {
    hide Has, IsBit, BitMask, MaskOf, FirstFree, Xor, Used, Among, Odd;
    ValueIsParity(a, w, mask, 6);
    ValueIsParity(b, w, mask, 6);
    OddStep(Used(a, w, mask, 6));
    if a != b {
      match call {
        case Conf(i, bit) =>
          AmongConf(i, w);
          UsedAfter(a, i, BitMask(bit), w, mask, 6);
        case Strap(bit, val) =>
          var w', mask' := WordOf(bit), MaskOf(bit);
          var slot := OptionSlot(w', FirstFree(a, w', mask', 6));
          FirstFreeMeans(a, w', mask', 6);
          AmongOptions(w', FirstFree(a, w', mask', 6), w);
          UsedAfter(a, slot, mask', w, mask, 6);
      }
    }
  }

  // ---- the same in numbers, for the bit as the caller gives it ----

  ghost function One(n: nat): word
    requires n < 32
  {
    1 << n
  }

  ghost predicate Bit(x: word, n: nat)
    requires n < 32
  {
    x & One(n) != 0
  }

  ghost function WithBit(x: word, n: nat): word
    requires n < 32
  {
    x | One(n)
  }

  ghost function XorOfSix(a: word, b: word, c: word, d: word, e: word, f: word): word {
    Exor(Exor(Exor(Exor(Exor(a, b), c), d), e), f)
  }

  /** Nothing but this bit of this word is new. */
  ghost predicate NewBit(a: Image, b: Image, slot: nat, n: nat)
    requires n < 32
  {
    slot < 32 && !Bit(a[slot], n) && b == a[slot := WithBit(a[slot], n)]
  }

  /** The strap's bit in option i. */
  ghost predicate OptionBit(img: Image, strap: nat, i: nat)
    requires strap < 64 && i < 6
  {
    Bit(img[16 + 2 * i + strap / 32], strap % 32)
  }

  /** What is new is the strap's bit in option i, the first in which it was clear. */
  ghost predicate NewOption(a: Image, b: Image, strap: nat, i: nat)
    requires strap < 64
  {
    && i < 6 && NewBit(a, b, 16 + 2 * i + strap / 32, strap % 32)
    && forall j :: 0 <= j < i ==> OptionBit(a, strap, j)
  }

  ghost predicate TakesOption(a: Image, b: Image, strap: nat)
    requires strap < 64
  {
    exists i :: NewOption(a, b, strap, i)
  }

  /** The exclusive or of the six options. */
  ghost predicate StrapValue(img: Image, strap: nat)
    requires strap < 64
  {
    var w := strap / 32;
    Bit(XorOfSix(img[16 + w], img[18 + w], img[20 + w], img[22 + w], img[24 + w], img[26 + w]), strap % 32)
  }

  ghost predicate StrapProtected(img: Image, strap: nat)
    requires strap < 64
  {
    Bit(img[30 + strap / 32], strap % 32)
  }

  lemma ShiftByWord(bit: word)
    requires bit < 32
    ensures bit as nat < 32 && BitMask(bit) == One(bit as nat)
  {
  }

  lemma WordInNumbers(bit: word)
    requires bit < 64
    ensures WordOf(bit) == bit as nat / 32 && bit as nat < 64
  {
  }

  lemma BitOfWord(bit: word, strap: nat)
    requires bit < 64 && strap == bit as nat
    ensures (if bit > 31 then bit - 32 else bit) < 32
    ensures (if bit > 31 then bit - 32 else bit) as nat == strap % 32
  {
  }

  lemma MaskInNumbers(bit: word, strap: nat)
    requires bit < 64 && strap == bit as nat
    ensures MaskOf(bit) == One(strap % 32)
  {
    BitOfWord(bit, strap);
    ShiftByWord(if bit > 31 then bit - 32 else bit);
    hide BitMask;
  }

  lemma BitIsHas(x: word, mask: word, n: nat)
    requires n < 32 && mask == One(n)
    ensures Bit(x, n) <==> Has(x, mask)
    ensures Or(x, mask) == WithBit(x, n)
  {
    hide One;
  }

  lemma ZeroExor(x: word)
    ensures Exor(0, x) == x
  {
  }

  lemma XorStep(img: Image, w: nat, n: nat)
    requires w < 2 && n < 6
    ensures Xor(img, w, n + 1) == Exor(Xor(img, w, n), img[16 + 2 * n + w]) && Xor(img, w, 0) == 0
  {
    hide Exor;
  }

  lemma XorUnfolds(img: Image, w: nat)
    requires w < 2
    ensures Xor(img, w, 6)
         == XorOfSix(img[16 + w], img[18 + w], img[20 + w], img[22 + w], img[24 + w], img[26 + w])
  {
    hide Exor, Xor;
    ZeroExor(img[16 + w]);
    XorStep(img, w, 0);
    XorStep(img, w, 1);
    XorStep(img, w, 2);
    XorStep(img, w, 3);
    XorStep(img, w, 4);
    XorStep(img, w, 5);
  }

  /** The first free option is the first one in which the bit is clear. */
  lemma {:induction false} FirstFreeIsFirst(img: Image, w: nat, mask: word, n: nat, i: nat)
    requires w < 2 && n <= 6 && i < n
    ensures var f := FirstFree(img, w, mask, n);
            (f < 0 || i < f ==> Has(img[OptionSlot(w, i)], mask)) && (f >= 0 ==> !Has(img[OptionSlot(w, f)], mask))
    decreases n
  {
    hide Has;
    if i < n - 1 {
      FirstFreeIsFirst(img, w, mask, n - 1, i);
    } else if n > 1 {
      FirstFreeIsFirst(img, w, mask, n - 1, n - 2);
    }
  }

  /** What the driver looks at for a strap, where the strap's number says it is. */
  lemma StrapFacts(img: Image, strap: nat, w: nat, mask: word)
    requires strap < 64 && w == strap / 32 && mask == One(strap % 32)
    ensures StrapIs(img, w, mask) <==> StrapValue(img, strap)
    ensures Protected(img, w, mask) <==> StrapProtected(img, strap)
  {
    hide Xor, One, Has, Bit, XorOfSix;
    XorUnfolds(img, w);
    BitIsHas(Xor(img, w, 6), mask, strap % 32);
    BitIsHas(img[30 + w], mask, strap % 32);
  }

  lemma OptionFacts(img: Image, strap: nat, w: nat, mask: word, i: nat)
    requires strap < 64 && w == strap / 32 && mask == One(strap % 32) && i < 6
    ensures OptionSlot(w, i) == 16 + 2 * i + strap / 32
    ensures Has(img[OptionSlot(w, i)], mask) <==> OptionBit(img, strap, i)
    ensures OptionBit(img, strap, i) <==> Bit(img[OptionSlot(w, i)], strap % 32)
    ensures Or(img[OptionSlot(w, i)], mask) == WithBit(img[OptionSlot(w, i)], strap % 32)
  {
    hide One, Has, Bit, WithBit, Or;
    BitIsHas(img[OptionSlot(w, i)], mask, strap % 32);
  }

  /** The first free option is the first one that a strap write takes. */
  lemma OptionTaken(a: Image, strap: nat, w: nat, mask: word, b: Image)
    requires strap < 64 && w == strap / 32 && mask == One(strap % 32)
    requires FirstFree(a, w, mask, 6) >= 0 && b == SetBits(a, OptionSlot(w, FirstFree(a, w, mask, 6)), mask)
    ensures TakesOption(a, b, strap)
  {
    hide FirstFree, OptionBit, Has, Bit, Or, WithBit, One;
    var f := FirstFree(a, w, mask, 6);
    FirstFreeIsFirst(a, w, mask, 6, 0);
    OptionFacts(a, strap, w, mask, f);
    forall j | 0 <= j < f
      ensures OptionBit(a, strap, j)
    {
      FirstFreeIsFirst(a, w, mask, 6, j);
      OptionFacts(a, strap, w, mask, j);
    }
    assert NewOption(a, b, strap, f);
  }

  /** A strap write that changes anything sets the strap's bit in the first option where
      that is clear, and then the strap has the value asked for. */
  lemma StrapWriteInNumbers(a: Image, bit: word, val: word, b: Image, strap: nat)
    requires Allowed(a, Strap(bit, val), b) && a != b && strap == bit as nat
    ensures strap < 64 && val <= 1
    ensures TakesOption(a, b, strap) && !StrapProtected(a, strap)
    ensures StrapValue(b, strap) <==> val == 1
    ensures StrapValue(a, strap) <==> val == 0
  {
    StrapTakesValue(a, bit, val, b);
    WordInNumbers(bit);
    MaskInNumbers(bit, strap);
    hide FirstFree, StrapIs, Protected, StrapValue, StrapProtected, WordOf, MaskOf, SetBits, OptionSlot, One,
      TakesOption;
    var w, mask := WordOf(bit), MaskOf(bit);
    StrapFacts(a, strap, w, mask);
    StrapFacts(b, strap, w, mask);
    OptionTaken(a, strap, w, mask, b);
  }

  /** A configuration write that changes anything sets the bit it names. */
  lemma ConfWriteInNumbers(a: Image, index: nat, bit: word, b: Image, n: nat)
    requires Allowed(a, Conf(index, bit), b) && a != b && n == bit as nat
    ensures index < 16 && n < 32 && NewBit(a, b, index, n)
  {
    ShiftByWord(bit);
    hide Has, Bit, Or, BitMask, WithBit, One;
    BitIsHas(a[index], BitMask(bit), n);
  }

  lemma CallSetsOnly(a: Image, call: Call, b: Image, j: nat)
    requires Allowed(a, call, b) && j < 32
    ensures Keeps(a[j], b[j])
  {
    hide Or, Has, Keeps, BitMask, MaskOf, FirstFree, Xor, IsBit;
    match call {
      case Conf(i, bit) =>
        KeepsOr(a[j], if bit < 32 then BitMask(bit) else 0);
      case Strap(bit, _) =>
        KeepsOr(a[j], if bit < 64 then MaskOf(bit) else 0);
    }
  }

  // ---- runs ----

  ghost predicate IsRun(trace: seq<Image>, calls: seq<Call>) {
    && |trace| == |calls| + 1
    && forall k :: 0 <= k < |calls| ==> Allowed(trace[k], calls[k], trace[k + 1])
  }

  /** How often a strap changed its value. */
  ghost function Changes(trace: seq<Image>, w: nat, mask: word): nat
    requires w < 2
    decreases |trace|
  {
    if |trace| < 2 then 0
    else
      var n := |trace| - 1;
      Changes(trace[..n], w, mask) + if StrapIs(trace[n - 1], w, mask) != StrapIs(trace[n], w, mask) then 1 else 0
  }

  /** Over any run: no bit is ever cleared, the protection words stay, a strap changes at
      most as often as it has options left, never more than six times, and a protected
      strap never. */
  lemma {:induction false} RunSafe(trace: seq<Image>, calls: seq<Call>, w: nat, mask: word, j: nat)
    requires IsRun(trace, calls) && w < 2 && IsBit(mask) && j < 32
    ensures var first, last := trace[0], trace[|calls|];
            && Keeps(first[j], last[j])
            && last[28..] == first[28..]
            && Changes(trace, w, mask) == Used(last, w, mask, 6) - Used(first, w, mask, 6) <= 6
            && (Protected(first, w, mask) ==>
                  Changes(trace, w, mask) == 0 && StrapIs(last, w, mask) == StrapIs(first, w, mask))
    decreases |calls|
  {
    hide Has, Keeps, IsBit, Used, Xor, Allowed, StrapIs;
    KeepsOr(trace[0][j], 0);
    if calls != [] {
      var n := |calls|;
      var t, c := trace[..n], calls[..n - 1];
      var first, prev, last := trace[0], trace[n - 1], trace[n];
      RunSafe(t, c, w, mask, j);
      CallSeenByStrap(prev, calls[n - 1], last, w, mask);
      CallSetsOnly(prev, calls[n - 1], last, j);
      assert t[|c|] == prev && t[0] == first;
      assert first[30 + w] == first[28..][2 + w] == prev[28..][2 + w] == prev[30 + w];
      KeepsChain(first[j], prev[j], last[j]);
      assert Changes(trace, w, mask) ==
             Changes(t, w, mask) + if StrapIs(prev, w, mask) != StrapIs(last, w, mask) then 1 else 0;
    }
  }
}
