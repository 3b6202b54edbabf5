/**
 * Byte-array equality as the change detector uses it for serialized code and
 * texture blobs (DiffUtils.UnsafeCompare).
 */
module Bytes {
  import opened Base

  newtype byte = x: int | 0 <= x < 256

  /** The contents of a possibly-null array; None stands for a null reference. */
  function Contents(a: array?<byte>): (r: Option<seq<byte>>)
    reads a
    ensures r.Some? <==> a != null
    ensures a != null ==> |r.value| == a.Length
  {
    if a == null then None else Some(a[..])
  }

  /** The relation UnsafeCompare decides: both blobs present and equal byte for byte. */
  predicate BlobsEqual(a: Option<seq<byte>>, b: Option<seq<byte>>)
  {
    a.Some? && b.Some? && a.value == b.value
  }

  /**
   * `(n & p) != 0` for a non-negative `n` and a power of two `p`: the bit of
   * weight `p` is set iff the remainder modulo `2p` is at least `p`.
   */
  predicate HasBit(n: nat, p: nat)
    requires p > 0
  {
    n % (p + p) >= p
  }

  /** How far a tail step of width `p` advances the cursors. */
  function TailWidth(n: nat, p: nat): nat
    requires p > 0
  {
    if HasBit(n, p) then p else 0
  }

  /** Eight more bytes add one 8-byte step. */
  lemma OneMoreStep(n: nat)
    ensures (n + 8) / 8 == n / 8 + 1
  {
  }

  /** Eight more bytes leave the bits of weight 4, 2 and 1 as they were. */
  lemma SameBit4(n: nat)
    ensures TailWidth(n + 8, 4) == TailWidth(n, 4)
  {
    assert (n + 8) % 8 == n % 8;
  }

  lemma SameBit2(n: nat)
    ensures TailWidth(n + 8, 2) == TailWidth(n, 2)
  {
    assert (n + 8) % 4 == n % 4;
  }

  lemma SameBit1(n: nat)
    ensures TailWidth(n + 8, 1) == TailWidth(n, 1)
  {
    assert (n + 8) % 2 == n % 2;
  }

  /**
   * The len/8 steps of eight bytes and the tail steps of four, two and one byte
   * selected by `len & 4`, `len & 2` and `len & 1` add up to exactly `len`.
   */
  lemma {:induction false} ChunksCoverLength(len: nat)
    ensures 8 * (len / 8) + TailWidth(len, 4) + TailWidth(len, 2) + TailWidth(len, 1) == len
    decreases len
  {
    if len >= 8 {
      ChunksCoverLength(len - 8);
      OneMoreStep(len - 8);
      SameBit4(len - 8);
      SameBit2(len - 8);
      SameBit1(len - 8);
    } else if len < 4 {
      if len < 2 {
        assert len == 0 || len == 1;
      } else {
        assert len == 2 || len == 3;
      }
    } else if len < 6 {
      assert len == 4 || len == 5;
    } else {
      assert len == 6 || len == 7;
    }
  }

  /**
   * UnsafeCompare: false when either array is null or the lengths differ;
   * otherwise both cursors walk the arrays in 8-byte steps, then a 4-, 2- and
   * 1-byte tail, returning false at the first chunk that differs.
   */
  method UnsafeCompare(a1: array?<byte>, a2: array?<byte>) returns (equal: bool)
    ensures equal <==> a1 != null && a2 != null && a1[..] == a2[..]
    ensures equal == BlobsEqual(Contents(a1), Contents(a2))
  {
    if a1 == null || a2 == null || a1.Length != a2.Length {
      return false;
    }
    var len := a1.Length;
    ChunksCoverLength(len);
    var x := 0;  // how far both cursors x1 and x2 have advanced
    var i := 0;
    while i < len / 8
      invariant 0 <= i <= len / 8
      invariant x == 8 * i
      invariant a1[..x] == a2[..x]
    {
      if a1[x..x + 8] != a2[x..x + 8] {
        ChunkDiffers(a1, a2, x, 8);
        return false;
      }
      ChunkEqual(a1, a2, x, 8);
      x := x + 8;
      i := i + 1;
    }
    assert x + TailWidth(len, 4) + TailWidth(len, 2) + TailWidth(len, 1) == len;
    if HasBit(len, 4) {
      if a1[x..x + 4] != a2[x..x + 4] {
        ChunkDiffers(a1, a2, x, 4);
        return false;
      }
      ChunkEqual(a1, a2, x, 4);
      x := x + 4;
    }
    assert x + TailWidth(len, 2) + TailWidth(len, 1) == len;
    if HasBit(len, 2) {
      if a1[x..x + 2] != a2[x..x + 2] {
        ChunkDiffers(a1, a2, x, 2);
        return false;
      }
      ChunkEqual(a1, a2, x, 2);
      x := x + 2;
    }
    assert x + TailWidth(len, 1) == len;
    if HasBit(len, 1) {
      if a1[x] != a2[x] {
        ByteDiffers(a1, a2, x);
        return false;
      }
      ByteEqual(a1, a2, x);
      x := x + 1;
    }
    assert x == len;
    assert a1[..] == a1[..x] && a2[..] == a2[..x];
    return true;
  }

  /** An equal chunk extends the prefix on which the arrays agree. */
  lemma ChunkEqual(a1: array<byte>, a2: array<byte>, x: nat, w: nat)
    requires x + w <= a1.Length && x + w <= a2.Length
    requires a1[..x] == a2[..x]
    requires a1[x..x + w] == a2[x..x + w]
    ensures a1[..x + w] == a2[..x + w]
  {
    assert a1[..x + w] == a1[..x] + a1[x..x + w];
    assert a2[..x + w] == a2[..x] + a2[x..x + w];
  }

  /** An equal byte extends the prefix on which the arrays agree. */
  lemma ByteEqual(a1: array<byte>, a2: array<byte>, x: nat)
    requires x < a1.Length && x < a2.Length
    requires a1[..x] == a2[..x]
    requires a1[x] == a2[x]
    ensures a1[..x + 1] == a2[..x + 1]
  {
    assert a1[..x + 1] == a1[..x] + [a1[x]];
    assert a2[..x + 1] == a2[..x] + [a2[x]];
  }

  /** A differing byte makes the contents differ. */
  lemma ByteDiffers(a1: array<byte>, a2: array<byte>, x: nat)
    requires x < a1.Length && x < a2.Length
    requires a1[x] != a2[x]
    ensures a1[..] != a2[..]
  {
    assert a1[..][x] != a2[..][x];
  }

  /** A differing chunk makes the contents differ. */
  lemma ChunkDiffers(a1: array<byte>, a2: array<byte>, x: nat, w: nat)
    requires x + w <= a1.Length && x + w <= a2.Length
    requires a1[x..x + w] != a2[x..x + w]
    ensures a1[..] != a2[..]
  {
    assert a1[x..x + w] == a1[..][x..x + w];
    assert a2[x..x + w] == a2[..][x..x + w];
  }

  /** Equal contents are the same length and agree at every index. */
  lemma ContentsEqualIff(a1: array<byte>, a2: array<byte>)
    ensures a1[..] == a2[..] <==> a1.Length == a2.Length && forall k :: 0 <= k < a1.Length ==> a1[k] == a2[k]
  {
    if a1.Length == a2.Length && forall k :: 0 <= k < a1.Length ==> a1[k] == a2[k] {
      assert forall k :: 0 <= k < a1.Length ==> a1[..][k] == a2[..][k];
    }
  }

  /**
   * What the postcondition of UnsafeCompare implies: the comparison is
   * symmetric, reflexive on present blobs, and false whenever a blob is null.
   */
  lemma BlobsEqualLaws(a: Option<seq<byte>>, b: Option<seq<byte>>)
    ensures BlobsEqual(a, b) == BlobsEqual(b, a)
    ensures a.Some? ==> BlobsEqual(a, a)
    ensures a.None? ==> !BlobsEqual(a, b) && !BlobsEqual(b, a)
  {
  }

  /** A fresh array holding a blob, or null for a missing one. */
  method ToArray(b: Option<seq<byte>>) returns (a: array?<byte>)
    ensures Contents(a) == b
  {
    match b {
      case None => a := null;
      case Some(s) =>
        a := new byte[|s|](k requires 0 <= k < |s| => s[k]);
        assert a[..] == s;
    }
  }

  /** UnsafeCompare applied to two blobs held as (possibly null) arrays. */
  method CompareBlobs(b1: Option<seq<byte>>, b2: Option<seq<byte>>) returns (equal: bool)
    ensures equal <==> b1.Some? && b2.Some? && b1.value == b2.value
  {
    var a1 := ToArray(b1);
    var a2 := ToArray(b2);
    equal := UnsafeCompare(a1, a2);
  }
}
