/** Bytes, images of bytes and the three ways a flash chip and its driver change them. */
module Bytes {

  type byte = bv8

  datatype Option<+T> = None | Some(value: T)

  const BLANK: byte := 0xff

  /** The image with data written over it at position at. */
  function Overlay(img: seq<byte>, at: nat, data: seq<byte>): seq<byte>
    requires at + |data| <= |img|
  {
    img[..at] + data + img[at + |data|..]
  }

  /** Bitwise AND of data into the image: all that programming can do. */
  function AndOver(img: seq<byte>, at: nat, data: seq<byte>): (r: seq<byte>)
    requires at + |data| <= |img|
    ensures |r| == |img|
  {
    seq(|img|, i requires 0 <= i < |img| => if at <= i < at + |data| then img[i] & data[i - at] else img[i])
  }

  /** The image with n bytes from lo on set to 0xff: all that erasing can do. */
  function Blanked(img: seq<byte>, lo: nat, n: nat): (r: seq<byte>)
    ensures |r| == |img|
  {
    seq(|img|, i requires 0 <= i < |img| => if lo <= i < lo + n then BLANK else img[i])
  }

  ghost predicate SameOutside(a: seq<byte>, b: seq<byte>, lo: int, hi: int) {
    |a| == |b| && forall i :: 0 <= i < |a| && !(lo <= i < hi) ==> a[i] == b[i]
  }

  lemma SameOutsideWidens(a: seq<byte>, b: seq<byte>, lo: int, hi: int, lo': int, hi': int)
    requires SameOutside(a, b, lo, hi) && lo' <= lo && (hi <= hi' || hi <= lo)
    ensures SameOutside(a, b, lo', hi')
  {
  }

  /** Some bit of want is set where have holds a 0. */
  predicate NeedsErase(want: byte, have: byte) {
    want & !have != 0
  }

  lemma AndReachesTarget(want: byte, have: byte)
    ensures !NeedsErase(want, have) <==> have & want == want
  {
  }

  lemma AndWithBlank(b: byte)
    ensures BLANK & b == b && !NeedsErase(b, BLANK)
  {
  }

  /** Programming data over the image stores data exactly if no byte needs an erase. */
  lemma AndStoresIff(img: seq<byte>, at: nat, data: seq<byte>)
    requires at + |data| <= |img|
    ensures AndOver(img, at, data)[at..at + |data|] == data
       <==> (forall i :: 0 <= i < |data| ==> !NeedsErase(data[i], img[at + i]))
    ensures (forall i :: 0 <= i < |data| ==> !NeedsErase(data[i], img[at + i])) ==>
              AndOver(img, at, data) == Overlay(img, at, data)
  {
    var r := AndOver(img, at, data);
    forall i | 0 <= i < |data|
      ensures r[at..at + |data|][i] == img[at + i] & data[i]
      ensures r[at..at + |data|][i] == data[i] <==> !NeedsErase(data[i], img[at + i])
    {
      assert r[at..at + |data|][i] == r[at + i];
      AndReachesTarget(data[i], img[at + i]);
    }
  }

  /** Two adjacent programs are one. */
  lemma AndOverAppend(img: seq<byte>, at: nat, d1: seq<byte>, d2: seq<byte>)
    requires at + |d1| + |d2| <= |img|
    ensures AndOver(AndOver(img, at, d1), at + |d1|, d2) == AndOver(img, at, d1 + d2)
  {
  }

  /** Two adjacent erases are one. */
  lemma BlankedAppend(img: seq<byte>, lo: nat, n: nat, m: nat)
    ensures Blanked(Blanked(img, lo, n), lo + n, m) == Blanked(img, lo, n + m)
  {
  }

  /** Two adjacent overlays are one. */
  lemma OverlayAppend(img: seq<byte>, at: nat, d1: seq<byte>, d2: seq<byte>)
    requires at + |d1| + |d2| <= |img|
    ensures Overlay(Overlay(img, at, d1), at + |d1|, d2) == Overlay(img, at, d1 + d2)
  {
  }

  lemma OverlaySame(img: seq<byte>, at: nat, data: seq<byte>)
    requires at + |data| <= |img| && img[at..at + |data|] == data
    ensures Overlay(img, at, data) == img
  {
  }

  /** Data laid over a copy of some bytes, and that over the image. */
  lemma OverlayMerged(img: seq<byte>, lo: nat, len: nat, off: nat, data: seq<byte>)
    requires lo + len <= |img| && off + |data| <= len
    ensures Overlay(img, lo, Overlay(img[lo..lo + len], off, data)) == Overlay(img, lo + off, data)
  {
  }

  lemma OverlayFromSlice(a: seq<byte>, b: seq<byte>, at: nat, data: seq<byte>)
    requires at + |data| <= |a| && SameOutside(a, b, at, at + |data|) && b[at..at + |data|] == data
    ensures b == Overlay(a, at, data)
  {
    forall i | 0 <= i < |b|
      ensures b[i] == Overlay(a, at, data)[i]
    {
      if at <= i < at + |data| {
        assert b[i] == b[at..at + |data|][i - at];
      }
    }
  }

  lemma SliceOfSlice(img: seq<byte>, lo: nat, len: nat, k: nat, n: nat)
    requires lo + len <= |img| && k + n <= len
    ensures img[lo..lo + len][k..k + n] == img[lo + k..lo + k + n]
  {
    var a, b := img[lo..lo + len][k..k + n], img[lo + k..lo + k + n];
    forall i | 0 <= i < n
      ensures a[i] == b[i]
    {
      assert a[i] == img[lo..lo + len][k + i] == img[lo + (k + i)];
    }
  }

  lemma PiecesOf(img: seq<byte>, at: nat, src: seq<byte>, n: nat)
    requires at + |src| <= |img| && img[at..at + |src|] == src && n <= |src|
    ensures img[at..at + n] == src[..n] && img[at + n..at + |src|] == src[n..]
    ensures at + |src| == at + n + |src[n..]|
  {
    SliceOfSlice(img, at, |src|, 0, n);
    SliceOfSlice(img, at, |src|, n, |src| - n);
  }
}
