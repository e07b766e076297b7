/** src/mmio.c: the copy that touches device memory in aligned words where it can.
    An address is an index into mem, whose first byte is word aligned. */
module Mmio {
  import opened Bytes

  predicate Aligned(addr: nat) {
    addr % 4 == 0
  }

  predicate Congruent(a: nat, b: nat) {
    a % 4 == b % 4
  }

  lemma StepsTogether(a: nat, b: nat)
    requires Congruent(a, b)
    ensures (Aligned(a) <==> a % 4 == 0) && (Aligned(a) <==> Aligned(b))
    ensures Congruent(a + 1, b + 1)
    ensures a <= b || b + 4 <= a
  {
  }

  lemma NextWord(a: nat)
    requires Aligned(a)
    ensures Aligned(a + 4)
  {
  }

  /** The meaning of the copy: one byte after the other, lowest address first. */
  ghost function ByteCopy(m: seq<byte>, dst: nat, src: nat, n: nat): (r: seq<byte>)
    requires dst + n <= |m| && src + n <= |m|
    ensures |r| == |m|
    decreases n
  {
    if n == 0 then m else ByteCopy(m[dst := m[src]], dst + 1, src + 1, n - 1)
  }

  /** Moving four bytes at once is the same, unless the later bytes of the source are
      the earlier bytes of the destination. */
  lemma WordIsFourBytes(m: seq<byte>, dst: nat, src: nat, n: nat)
    requires 4 <= n && dst + n <= |m| && src + n <= |m|
    requires dst <= src || src + 4 <= dst
    ensures ByteCopy(m, dst, src, n) == ByteCopy(Overlay(m, dst, m[src..src + 4]), dst + 4, src + 4, n - 4)
  {
    var m1 := m[dst := m[src]];
    var m2 := m1[dst + 1 := m1[src + 1]];
    var m3 := m2[dst + 2 := m2[src + 2]];
    var m4 := m3[dst + 3 := m3[src + 3]];
    assert m4 == Overlay(m, dst, m[src..src + 4]);
    assert ByteCopy(m2, dst + 2, src + 2, n - 2) == ByteCopy(m3, dst + 3, src + 3, n - 3);
  }

  /** The copy writes nowhere else, and where the source is not overtaken by what is
      written each byte of the destination gets its byte of the source. */
  lemma {:induction false} ByteCopied(m: seq<byte>, dst: nat, src: nat, n: nat, i: nat)
    requires dst + n <= |m| && src + n <= |m| && i < |m|
    ensures !(dst <= i < dst + n) ==> ByteCopy(m, dst, src, n)[i] == m[i]
    ensures dst <= i < dst + n && (dst <= src || src + n <= dst) ==> ByteCopy(m, dst, src, n)[i] == m[src + (i - dst)]
    decreases n
  {
    if n > 0 {
      ByteCopied(m[dst := m[src]], dst + 1, src + 1, n - 1, i);
    }
  }

  lemma ByteCopyIsOverlay(m: seq<byte>, dst: nat, src: nat, n: nat)
    requires dst + n <= |m| && src + n <= |m|
    requires dst <= src || src + n <= dst
    ensures ByteCopy(m, dst, src, n) == Overlay(m, dst, m[src..src + n])
  {
    var a, b := ByteCopy(m, dst, src, n), Overlay(m, dst, m[src..src + n]);
    hide ByteCopy;
    forall i | 0 <= i < |m|
      ensures a[i] == b[i]
    {
      ByteCopied(m, dst, src, n, i);
    }
  }

  lemma NothingLeft(m: seq<byte>, dst: nat, src: nat)
    requires dst <= |m| && src <= |m|
    ensures ByteCopy(m, dst, src, 0) == m
  {
  }

  /** One 8-bit access on each side. */
  method CopyByte(mem: array<byte>, dst: nat, src: nat, ghost n: nat)
    requires 0 < n && dst + n <= mem.Length && src + n <= mem.Length
    modifies mem
    ensures ByteCopy(mem[..], dst + 1, src + 1, n - 1) == ByteCopy(old(mem[..]), dst, src, n)
  {
    ghost var m := mem[..];
    mem[dst] := mem[src];
    assert mem[..] == m[dst := m[src]];
  }

  /** One 32-bit access on each side, which must be aligned. */
  method CopyWord(mem: array<byte>, dst: nat, src: nat, ghost n: nat)
    requires Aligned(dst) && Aligned(src)
    requires 4 <= n && dst + n <= mem.Length && src + n <= mem.Length
    modifies mem
    ensures ByteCopy(mem[..], dst + 4, src + 4, n - 4) == ByteCopy(old(mem[..]), dst, src, n)
  {
    ghost var m := mem[..];
    assert dst <= src || src + 4 <= dst;
    hide ByteCopy, Aligned;
    WordIsFourBytes(m, dst, src, n);
    ghost var after := Overlay(m, dst, m[src..src + 4]);
    mem[dst], mem[dst + 1], mem[dst + 2], mem[dst + 3] := mem[src], mem[src + 1], mem[src + 2], mem[src + 3];
    forall i | 0 <= i < |m|
      ensures mem[i] == after[i]
    {
    }
    assert mem[..] == after;
  }

  /** mmio_memcpy */
  method MmioMemcpy(mem: array<byte>, dst: nat, src: nat, len: nat) returns (end: nat)
    requires dst + len <= mem.Length && src + len <= mem.Length
    modifies mem
    ensures end == dst + len
    ensures mem[..] == ByteCopy(old(mem[..]), dst, src, len)
  {
    hide ByteCopy, Aligned, Congruent;
    var d: nat, s: nat, n: nat := dst, src, len;
    if !Congruent(s, d) {
      while n != 0
        invariant d + n == dst + len && s + n == src + len
        invariant ByteCopy(mem[..], d, s, n) == ByteCopy(old(mem[..]), dst, src, len)
        decreases n
      {
        CopyByte(mem, d, s, n);
        d, s, n := d + 1, s + 1, n - 1;
      }
      NothingLeft(mem[..], d, s);
      return d;
    }
    while n != 0 && !Aligned(s) && !Aligned(d)
      invariant d + n == dst + len && s + n == src + len && Congruent(s, d)
      invariant ByteCopy(mem[..], d, s, n) == ByteCopy(old(mem[..]), dst, src, len)
      decreases n
    {
      CopyByte(mem, d, s, n);
      StepsTogether(s, d);
      d, s, n := d + 1, s + 1, n - 1;
    }
    StepsTogether(s, d);
    while n > 3
      invariant d + n == dst + len && s + n == src + len
      invariant n > 3 ==> Aligned(d) && Aligned(s)
      invariant ByteCopy(mem[..], d, s, n) == ByteCopy(old(mem[..]), dst, src, len)
    {
      CopyWord(mem, d, s, n);
      NextWord(d);
      NextWord(s);
      d, s, n := d + 4, s + 4, n - 4;
    }
    while n != 0
      invariant d + n == dst + len && s + n == src + len
      invariant ByteCopy(mem[..], d, s, n) == ByteCopy(old(mem[..]), dst, src, len)
      decreases n
    {
      CopyByte(mem, d, s, n);
      d, s, n := d + 1, s + 1, n - 1;
    }
    NothingLeft(mem[..], d, s);
    return d;
  }

  /** What the drivers rely on: between buffers that do not overlap, mmio_memcpy stores
      exactly the source bytes, whatever the alignments. */
  method CopyApart(mem: array<byte>, dst: nat, src: nat, len: nat) returns (end: nat)
    requires dst + len <= src || src + len <= dst
    requires dst + len <= mem.Length && src + len <= mem.Length
    modifies mem
    ensures end == dst + len && mem[..] == Overlay(old(mem[..]), dst, old(mem[src..src + len]))
  {
    ByteCopyIsOverlay(mem[..], dst, src, len);
    assert mem[..][src..src + len] == mem[src..src + len];
    end := MmioMemcpy(mem, dst, src, len);
  }
}
