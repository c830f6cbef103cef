/**
 Byte strings and the little-endian fields stored in them. Every struct that the
 source writes through a pointer into a mapped memory block (tensor headers, MQTT
 headers, ZIP records) is read and written with these operations.
 */
module Bytes {

  type Byte = b: int | 0 <= b < 256

  type Block = seq<Byte>

  const TWO_32: int := 0x1_0000_0000
  const TWO_63: int := 0x8000_0000_0000_0000
  const TWO_64: int := 0x1_0000_0000_0000_0000

  type Word32 = x: int | 0 <= x < TWO_32
  type Word64 = x: int | 0 <= x < TWO_64

  /** The value a `gsize` or `guint64` keeps of an exact result. */
  function Wrap64(x: int): (r: Word64)
  {
    x % TWO_64
  }

  /** Whatever is a multiple of 2^64 away is kept the same. */
  lemma WrapShifts(x: int, q: int)
    ensures Wrap64(x + q * TWO_64) == Wrap64(x)
  {
  }

  /** Wrapping before an addition or a multiplication does not change the wrapped result. */
  lemma WrapAdd(x: int, y: int)
    ensures Wrap64(Wrap64(x) + Wrap64(y)) == Wrap64(x + y)
  {
  }

  lemma WrapMul(x: int, c: int)
    ensures Wrap64(Wrap64(x) * c) == Wrap64(x * c)
  {
    var q, r := x / TWO_64, x % TWO_64;
    assert x == q * TWO_64 + r;
    assert x * c == r * c + (q * c) * TWO_64;
    WrapShifts(r * c, q * c);
  }

  lemma WrapSmall(x: int)
    requires 0 <= x < TWO_64
    ensures Wrap64(x) == x
  {
  }

  lemma SliceOfSlice<T>(m: seq<T>, lo: nat, hi: nat, a: nat, b: nat)
    requires lo <= hi <= |m| && a <= b <= hi - lo
    ensures m[lo..hi][a..b] == m[lo + a..lo + b]
  {
    var s := m[lo..hi];
    forall k | 0 <= k < b - a ensures s[a..b][k] == m[lo + a..lo + b][k] {
      assert s[a..b][k] == s[a + k] == m[lo + a + k];
    }
  }

  // ----- fields -----

  function Get16(m: Block, off: nat): (v: int)
    requires off + 2 <= |m|
    ensures 0 <= v < 0x1_0000
  {
    m[off] as int + 0x100 * m[off + 1] as int
  }

  function Get32(m: Block, off: nat): (v: Word32)
    requires off + 4 <= |m|
  {
    m[off] as int + 0x100 * m[off + 1] as int + 0x1_0000 * m[off + 2] as int + 0x100_0000 * m[off + 3] as int
  }

  function Get64(m: Block, off: nat): (v: Word64)
    requires off + 8 <= |m|
  {
    Get32(m, off) as int + TWO_32 * Get32(m, off + 4) as int
  }

  function Le32(v: Word32): (b: Block)
    ensures |b| == 4
  {
    [v % 0x100, v / 0x100 % 0x100, v / 0x1_0000 % 0x100, v / 0x100_0000]
  }

  function Le64(v: Word64): (b: Block)
    ensures |b| == 8
  {
    Le32(v % TWO_32) + Le32(v / TWO_32)
  }

  /** Least significant byte first. */
  lemma LittleEndian(m: Block, off: nat)
    requires off + 8 <= |m|
    ensures Get16(m, off) % 0x100 == m[off] && Get16(m, off) / 0x100 == m[off + 1]
    ensures Get32(m, off) % 0x1_0000 == Get16(m, off) && Get32(m, off) / 0x1_0000 == Get16(m, off + 2)
    ensures Get64(m, off) % TWO_32 == Get32(m, off) && Get64(m, off) / TWO_32 == Get32(m, off + 4)
  {
  }

  /** Overwrites part of a block, as a `memcpy` into a mapped memory does. */
  function Put(m: Block, off: nat, b: Block): (r: Block)
    requires off + |b| <= |m|
    ensures |r| == |m|
    ensures r[..off] == m[..off]
    ensures r[off..off + |b|] == b
    ensures r[off + |b|..] == m[off + |b|..]
  {
    m[..off] + b + m[off + |b|..]
  }

  function Put32(m: Block, off: nat, v: Word32): (r: Block)
    requires off + 4 <= |m|
    ensures |r| == |m|
  {
    Put(m, off, Le32(v))
  }

  function Put64(m: Block, off: nat, v: Word64): (r: Block)
    requires off + 8 <= |m|
    ensures |r| == |m|
  {
    Put(m, off, Le64(v))
  }

  lemma Get32OfLe32(v: Word32)
    ensures Get32(Le32(v), 0) == v
  {
    var q1, q2, q3 := v / 0x100, v / 0x1_0000, v / 0x100_0000;
    assert q2 == q1 / 0x100 && q3 == q2 / 0x100;
  }

  /** Reading a field depends only on its own bytes. */
  lemma Get32Local(m: Block, n: Block, off: nat, at: nat)
    requires off + 4 <= |m| && at + 4 <= |n|
    requires m[off..off + 4] == n[at..at + 4]
    ensures Get32(m, off) == Get32(n, at)
  {
    var p, q := m[off..off + 4], n[at..at + 4];
    assert p[0] == q[0] && p[1] == q[1] && p[2] == q[2] && p[3] == q[3];
  }

  lemma Get64Local(m: Block, n: Block, off: nat, at: nat)
    requires off + 8 <= |m| && at + 8 <= |n|
    requires m[off..off + 8] == n[at..at + 8]
    ensures Get64(m, off) == Get64(n, at)
  {
    assert m[off..off + 4] == m[off..off + 8][..4] == n[at..at + 4];
    assert m[off + 4..off + 8] == m[off..off + 8][4..] == n[at + 4..at + 8];
    Get32Local(m, n, off, at);
    Get32Local(m, n, off + 4, at + 4);
  }

  lemma Get32OfPut(m: Block, off: nat, v: Word32)
    requires off + 4 <= |m|
    ensures Get32(Put32(m, off, v), off) == v
  {
    Get32OfLe32(v);
    Get32Local(Put32(m, off, v), Le32(v), off, 0);
  }

  lemma Get64OfPut(m: Block, off: nat, v: Word64)
    requires off + 8 <= |m|
    ensures Get64(Put64(m, off, v), off) == v
  {
    var b := Le64(v);
    Get32OfLe32(v % TWO_32);
    Get32OfLe32(v / TWO_32);
    assert b[0..4] == Le32(v % TWO_32)[0..4] && b[4..8] == Le32(v / TWO_32)[0..4];
    Get32Local(b, Le32(v % TWO_32), 0, 0);
    Get32Local(b, Le32(v / TWO_32), 4, 0);
    Get64Local(Put64(m, off, v), b, off, 0);
  }

  /** Fields disjoint from an overwritten range keep their values. */
  lemma SliceAfterPut(m: Block, off: nat, b: Block, lo: nat, hi: nat)
    requires off + |b| <= |m| && lo <= hi <= |m|
    requires hi <= off || off + |b| <= lo
    ensures Put(m, off, b)[lo..hi] == m[lo..hi]
  {
    hide Put;
    var r, end := Put(m, off, b), off + |b|;
    if hi <= off {
      SliceOfSlice(r, 0, off, lo, hi);
      SliceOfSlice(m, 0, off, lo, hi);
      assert r[0..off] == r[..off] && m[0..off] == m[..off];
    } else {
      SliceOfSlice(r, end, |m|, lo - end, hi - end);
      SliceOfSlice(m, end, |m|, lo - end, hi - end);
      assert r[end..|m|] == r[end..] && m[end..|m|] == m[end..];
    }
  }

  // ----- concatenation -----

  function Lengths(bs: seq<Block>): (r: seq<nat>)
    ensures |r| == |bs|
    ensures forall k :: 0 <= k < |bs| ==> r[k] == |bs[k]|
  {
    seq(|bs|, k requires 0 <= k < |bs| => |bs[k]|)
  }

  /** All blocks of a list, one after the other (`gst_buffer_get_all_memory`). */
  function Flatten<T>(bs: seq<seq<T>>): (r: seq<T>)
  {
    if bs == [] then [] else bs[0] + Flatten(bs[1..])
  }

  function TotalSize<T>(bs: seq<seq<T>>): (n: nat)
  {
    if bs == [] then 0 else |bs[0]| + TotalSize(bs[1..])
  }

  lemma {:induction false} FlattenLength<T>(bs: seq<seq<T>>)
    ensures |Flatten(bs)| == TotalSize(bs)
  {
    if bs != [] {
      FlattenLength(bs[1..]);
    }
  }

  lemma Associative<T>(x: seq<T>, y: seq<T>, z: seq<T>)
    ensures x + (y + z) == x + y + z
  {
  }

  lemma {:induction false} FlattenConcat<T>(a: seq<seq<T>>, b: seq<seq<T>>)
    ensures Flatten(a + b) == Flatten(a) + Flatten(b)
  {
    if a == [] {
      assert a + b == b;
    } else {
      FlattenConcat(a[1..], b);
      assert (a + b)[1..] == a[1..] + b;
      Associative(a[0], Flatten(a[1..]), Flatten(b));
    }
  }

  lemma {:induction false} TotalSizeConcat<T>(a: seq<seq<T>>, b: seq<seq<T>>)
    ensures TotalSize(a + b) == TotalSize(a) + TotalSize(b)
  {
    if a == [] {
      assert a + b == b;
    } else {
      TotalSizeConcat(a[1..], b);
      assert (a + b)[1..] == a[1..] + b;
    }
  }

  lemma FlattenOne<T>(m: seq<T>)
    ensures Flatten([m]) == m && TotalSize([m]) == |m|
  {
  }

  /** The three parts of a flattened list around block `i`. */
  lemma FlattenSplit<T>(bs: seq<seq<T>>, i: nat)
    requires i < |bs|
    ensures Flatten(bs) == Flatten(bs[..i]) + bs[i] + Flatten(bs[i + 1..])
  {
    assert bs == bs[..i] + bs[i..];
    FlattenConcat(bs[..i], bs[i..]);
    Associative(Flatten(bs[..i]), bs[i], Flatten(bs[i + 1..]));
    assert bs[i..][1..] == bs[i + 1..];
  }

  /** Block `i` occupies the bytes right after the blocks before it. */
  lemma FlattenSlice<T>(bs: seq<seq<T>>, i: nat)
    requires i < |bs|
    ensures TotalSize(bs[..i]) + |bs[i]| <= |Flatten(bs)|
    ensures Flatten(bs)[TotalSize(bs[..i])..TotalSize(bs[..i]) + |bs[i]|] == bs[i]
  {
    hide Flatten, TotalSize;
    FlattenSplit(bs, i);
    FlattenLength(bs[..i]);
  }

  /** The same, for a list flattened behind `h` other bytes. */
  lemma FlattenSliceAt<T>(p: seq<T>, h: nat, bs: seq<seq<T>>, i: nat)
    requires h <= |p| && p[h..] == Flatten(bs) && i < |bs|
    ensures h + TotalSize(bs[..i]) + |bs[i]| <= |p|
    ensures p[h + TotalSize(bs[..i])..h + TotalSize(bs[..i]) + |bs[i]|] == bs[i]
  {
    hide Flatten, TotalSize;
    FlattenSlice(bs, i);
    assert p[h..] == p[h..|p|];
    SliceOfSlice(p, h, |p|, TotalSize(bs[..i]), TotalSize(bs[..i]) + |bs[i]|);
  }

  lemma TotalSizeStep<T>(bs: seq<seq<T>>, i: nat)
    requires i < |bs|
    ensures TotalSize(bs[..i + 1]) == TotalSize(bs[..i]) + |bs[i]|
  {
    assert bs[..i + 1] == bs[..i] + [bs[i]];
    TotalSizeConcat(bs[..i], [bs[i]]);
    FlattenOne(bs[i]);
  }

  lemma {:induction false} FlattenUniform<T>(ss: seq<seq<T>>, n: nat)
    requires forall k :: 0 <= k < |ss| ==> |ss[k]| == n
    ensures |Flatten(ss)| == |ss| * n
  {
    if ss != [] {
      FlattenUniform(ss[1..], n);
      assert |ss[0]| == n;
    }
  }
}
