/**
 A GstBuffer holds at most MEMORY_MAX memories. Tensor number MEMORY_MAX and the ones
 after it are packed into the last memory, behind a `GstTensorExtraInfo` header that
 records how long the original last memory was and a description of every packed tensor.
 */
module TensorBuffer {
  import opened Bytes
  import opened Options
  import opened TensorMeta

  /** A memory block that an allocator can hand out. */
  type Memory = b: Block | |b| < TWO_64

  /** Whatever lies in memory behind a block. */
  type Surroundings = b: Block | |b| >= META_SIZE witness Zeros(META_SIZE)

  // ----- layout of GstTensorExtraInfo (little endian, 64-bit pointers) -----

  const EXTRA_LIMIT: nat := SIZE_LIMIT - MEMORY_MAX
  const EXTRA_MAGIC: Word32 := 0xf00d_c0de
  const EXTRA_INFOS: nat := 24
  const INFO_STRIDE: nat := 80
  const EXTRA_SIZE: nat := EXTRA_INFOS + INFO_STRIDE * EXTRA_LIMIT

  predicate LooksExtra(m: Block)
  {
    |m| >= EXTRA_SIZE && Get32(m, 0) == EXTRA_MAGIC
  }

  function ExtraCount(m: Block): Word32
    requires |m| >= EXTRA_SIZE
  {
    Get32(m, 8)
  }

  function Reserved(m: Block): Word64
    requires |m| >= EXTRA_SIZE
  {
    Get64(m, 16)
  }

  function InfoOffset(k: nat): (off: nat)
    requires k < EXTRA_LIMIT
    ensures EXTRA_INFOS <= off && off + INFO_STRIDE <= EXTRA_SIZE
  {
    EXTRA_INFOS + INFO_STRIDE * k
  }

  /** `infos[k]`: a name pointer, the element type and the dimension. */
  function ExtraInfo(m: Block, k: nat): TensorInfo
    requires |m| >= EXTRA_SIZE && k < EXTRA_LIMIT
  {
    TensorInfo(Get32(m, InfoOffset(k) + 8), WordsAt(m, InfoOffset(k) + 12, RANK_LIMIT))
  }

  function InfoBytes(info: TensorInfo): (b: Block)
    ensures |b| == 76
  {
    Zeros(8) + Le32s([info.elementType] + info.dimension)
  }

  function PutInfo(m: Block, k: nat, info: TensorInfo): (r: Block)
    requires |m| >= EXTRA_SIZE && k < EXTRA_LIMIT
    ensures |r| == |m|
  {
    Put(m, InfoOffset(k), InfoBytes(info))
  }

  lemma ExtraInfoLocal(m: Block, p: Block, k: nat)
    requires |m| >= EXTRA_SIZE && |p| >= EXTRA_SIZE && k < EXTRA_LIMIT
    requires m[InfoOffset(k)..InfoOffset(k) + 76] == p[InfoOffset(k)..InfoOffset(k) + 76]
    ensures ExtraInfo(m, k) == ExtraInfo(p, k)
  {
    var off := InfoOffset(k);
    SliceOfSlice(m, off, off + 76, 8, 12);
    SliceOfSlice(p, off, off + 76, 8, 12);
    SliceOfSlice(m, off, off + 76, 12, 76);
    SliceOfSlice(p, off, off + 76, 12, 76);
    Get32Local(m, p, off + 8, off + 8);
    WordsAtLocal(m, p, off + 12, off + 12, RANK_LIMIT);
  }

  /** Writing slot `k` sets that slot and leaves every other slot alone. */
  lemma ExtraInfoOfPut(m: Block, k: nat, info: TensorInfo, j: nat)
    requires |m| >= EXTRA_SIZE && k < EXTRA_LIMIT && j < EXTRA_LIMIT
    ensures ExtraInfo(PutInfo(m, k, info), j) == if j == k then info else ExtraInfo(m, j)
  {
    var p, off := PutInfo(m, k, info), InfoOffset(k);
    if j == k {
      var ws := [info.elementType] + info.dimension;
      SliceOfSlice(p, off, off + 76, 8, 76);
      assert InfoBytes(info)[8..76] == Le32s(ws);
      WordsAtOfLe32s(p, off + 8, ws);
      assert WordsAt(p, off + 8, 17)[0] == info.elementType;
      assert WordsAt(p, off + 12, 16) == WordsAt(p, off + 8, 17)[1..] == info.dimension;
    } else {
      SliceAfterPut(m, off, InfoBytes(info), InfoOffset(j), InfoOffset(j) + 76);
      ExtraInfoLocal(p, m, j);
    }
  }

  /** Slots of 80 bytes behind the 24 fixed ones: a name pointer of 8 bytes, the type, the dimension. */
  lemma SlotLayout(m: Block, k: nat, info: TensorInfo, j: nat)
    requires |m| >= EXTRA_SIZE && k < 240 && j < RANK_LIMIT
    ensures EXTRA_SIZE == 19224 && EXTRA_LIMIT == 240 && EXTRA_MAGIC == 0xf00d_c0de && MEMORY_MAX == 16
    ensures var p := PutInfo(m, k, info);
            && Get32(p, 24 + 80 * k + 8) == info.elementType
            && Get32(p, 24 + 80 * k + 12 + 4 * j) == info.dimension[j]
  {
    hide Get32, PutInfo;
    ExtraInfoOfPut(m, k, info, k);
    var p := PutInfo(m, k, info);
    assert ExtraInfo(p, k) == info;
    assert WordsAt(p, InfoOffset(k) + 12, RANK_LIMIT)[j] == Get32(p, InfoOffset(k) + 12 + 4 * j);
  }

  lemma FieldsOfPutInfo(m: Block, k: nat, info: TensorInfo)
    requires |m| >= EXTRA_SIZE && k < EXTRA_LIMIT
    ensures var p := PutInfo(m, k, info);
            && Get32(p, 0) == Get32(m, 0) && Get32(p, 4) == Get32(m, 4)
            && ExtraCount(p) == ExtraCount(m) && Reserved(p) == Reserved(m)
            && p[EXTRA_SIZE..] == m[EXTRA_SIZE..]
  {
  }

  lemma FieldsOfPutCount(m: Block, n: Word32)
    requires |m| >= EXTRA_SIZE
    ensures var p := Put32(m, 8, n);
            && Get32(p, 0) == Get32(m, 0) && ExtraCount(p) == n && Reserved(p) == Reserved(m)
            && p[EXTRA_SIZE..] == m[EXTRA_SIZE..]
            && forall j :: 0 <= j < EXTRA_LIMIT ==> ExtraInfo(p, j) == ExtraInfo(m, j)
  {
    var p := Put32(m, 8, n);
    Get32OfPut(m, 8, n);
    SliceAfterPut(m, 8, Le32(n), 0, 4);
    SliceAfterPut(m, 8, Le32(n), 16, 24);
    SliceAfterPut(m, 8, Le32(n), EXTRA_SIZE, |m|);
    Get32Local(p, m, 0, 0);
    Get64Local(p, m, 16, 16);
    assert p[EXTRA_SIZE..] == p[EXTRA_SIZE..|m|];
    forall j | 0 <= j < EXTRA_LIMIT ensures ExtraInfo(p, j) == ExtraInfo(m, j) {
      SliceAfterPut(m, 8, Le32(n), InfoOffset(j), InfoOffset(j) + 76);
      ExtraInfoLocal(p, m, j);
    }
  }

  /** `gst_memory_share`: a window of a block, if it lies inside. */
  function Share(m: Block, off: int, size: int): Option<Block>
  {
    if 0 <= off && 0 <= size && off + size <= |m| then Some(m[off..off + size]) else None
  }

  // ----- what a buffer stands for -----

  /** One appended tensor: its bytes, and the description recorded when it is packed. */
  datatype Item = Item(bytes: Memory, info: TensorInfo)

  /** The bytes of the appended tensors: the plain list a buffer stands for. */
  function BytesOf(items: seq<Item>): (bs: seq<Block>)
    ensures |bs| == |items|
    ensures forall k :: 0 <= k < |items| ==> bs[k] == items[k].bytes
  {
    seq(|items|, k requires 0 <= k < |items| => items[k].bytes)
  }

  /** The packed memory that stands for the tensors `tail`, the first one unrecorded. */
  predicate Packs(p: Block, tail: seq<Item>)
    requires |tail| > 0
  {
    var n := |tail| - 1;
    && n <= EXTRA_LIMIT
    && LooksExtra(p)
    && ExtraCount(p) == n
    && Reserved(p) == |tail[0].bytes|
    && (forall k :: 0 <= k < n ==> ExtraInfo(p, k) == tail[1 + k].info)
    && p[EXTRA_SIZE..] == Flatten(BytesOf(tail))
  }

  predicate Represents(mems: seq<Memory>, items: seq<Item>)
  {
    if |items| <= MEMORY_MAX then
      mems == BytesOf(items)
    else
      && |mems| == MEMORY_MAX
      && mems[..MEMORY_MAX - 1] == BytesOf(items[..MEMORY_MAX - 1])
      && Packs(mems[MEMORY_MAX - 1], items[MEMORY_MAX - 1..])
  }

  /** The last plain memory cannot be mistaken for a packed one. */
  predicate Honest(items: seq<Item>)
  {
    |items| >= MEMORY_MAX ==> !LooksExtra(items[MEMORY_MAX - 1].bytes)
  }

  /** Within the limits of the packed format: the count fits the table and nothing poses as packed. */
  predicate Sound(items: seq<Item>)
  {
    Honest(items) && |items| <= SIZE_LIMIT
  }

  /** What the allocator is asked for at most: the header and the tensors from the sixteenth on. */
  predicate Fits(items: seq<Item>)
  {
    |items| > MEMORY_MAX ==> EXTRA_SIZE + TotalSize(BytesOf(items[MEMORY_MAX - 1..])) < TWO_64
  }

  /** A buffer for `items`: the memories are the format's, and within its limits count and contents follow. */
  ghost predicate StandsFor(mems: seq<Memory>, items: seq<Item>)
  {
    && |mems| <= MEMORY_MAX
    && (|items| <= MEMORY_MAX ==> mems == BytesOf(items))
    && (Sound(items) ==>
          && Represents(mems, items) && Count(mems) == |items|
          && (ReadsBack(mems, items) <==> SizesAgree(items)))
  }

  /** The number of extra tensors that a posing sixteenth block claims to hold. */
  function Claimed(items: seq<Item>): nat
  {
    if Honest(items) || |items| < MEMORY_MAX then 0 else ExtraCount(items[MEMORY_MAX - 1].bytes)
  }

  // ----- reading -----

  function Count(mems: seq<Memory>): (n: nat)
  {
    if |mems| == MEMORY_MAX && LooksExtra(mems[MEMORY_MAX - 1])
    then MEMORY_MAX + ExtraCount(mems[MEMORY_MAX - 1])
    else |mems|
  }

  /** Where packed tensor `k` starts, summing the sizes computed from the recorded descriptions. */
  function ExtraOffset(m: Block, k: nat): (off: Word64)
    requires |m| >= EXTRA_SIZE && k <= EXTRA_LIMIT
  {
    if k == 0 then Wrap64(EXTRA_SIZE + Reserved(m))
    else Wrap64(ExtraOffset(m, k - 1) + InfoSize(ExtraInfo(m, k - 1)))
  }

  /** Tensor `i`. A count beyond the table is not checked by the source; slots outside it are not modelled. */
  function GetNth(mems: seq<Memory>, i: nat): Option<Block>
    requires |mems| <= MEMORY_MAX && (i < SIZE_LIMIT || Count(mems) <= i)
  {
    if i >= Count(mems) then None
    else if Count(mems) <= MEMORY_MAX || i < MEMORY_MAX - 1 then Some(mems[i])
    else
      var p := mems[MEMORY_MAX - 1];
      if i == MEMORY_MAX - 1 then Share(p, EXTRA_SIZE, Reserved(p))
      else Share(p, ExtraOffset(p, i - MEMORY_MAX), InfoSize(ExtraInfo(p, i - MEMORY_MAX)))
  }

  /** The size the reader computes for every packed tensor is its real size. */
  predicate SizesAgree(items: seq<Item>)
  {
    forall i :: MEMORY_MAX <= i < |items| ==> InfoSize(items[i].info) == |items[i].bytes|
  }

  predicate ReadsBack(mems: seq<Memory>, items: seq<Item>)
    requires |mems| <= MEMORY_MAX && Count(mems) <= SIZE_LIMIT
  {
    forall i :: 0 <= i < |items| ==> GetNth(mems, i) == Some(items[i].bytes)
  }

  lemma CountIsLength(mems: seq<Memory>, items: seq<Item>)
    requires Represents(mems, items) && Honest(items)
    ensures |mems| <= MEMORY_MAX && Count(mems) == |items| <= SIZE_LIMIT
  {
  }

  lemma {:induction false} ExtraOffsetIsTotal(p: Memory, tail: seq<Item>, k: nat)
    requires |tail| > 0 && Packs(p, tail)
    requires forall i :: 1 <= i < |tail| ==> InfoSize(tail[i].info) == |tail[i].bytes|
    requires k < |tail|
    ensures ExtraOffset(p, k) == EXTRA_SIZE + TotalSize(BytesOf(tail)[..k + 1])
  {
    hide InfoSize, ExtraInfo, Flatten, Get64, Get32;
    var bs := BytesOf(tail);
    FlattenSliceAt(p, EXTRA_SIZE, bs, k);
    TotalSizeStep(bs, k);
    if k == 0 {
      assert bs[..0] == [];
    } else {
      ExtraOffsetIsTotal(p, tail, k - 1);
      assert ExtraInfo(p, k - 1) == tail[k].info;
    }
  }

  lemma ReservedReadsBack(p: Memory, tail: seq<Item>)
    requires |tail| > 0 && Packs(p, tail)
    ensures Share(p, EXTRA_SIZE, Reserved(p)) == Some(tail[0].bytes)
  {
    hide ExtraInfo, Flatten, Get64, Get32;
    var bs := BytesOf(tail);
    FlattenSliceAt(p, EXTRA_SIZE, bs, 0);
    assert bs[..0] == [];
  }

  lemma PackedReadsBack(p: Memory, tail: seq<Item>, k: nat)
    requires |tail| > 0 && Packs(p, tail)
    requires forall i :: 1 <= i < |tail| ==> InfoSize(tail[i].info) == |tail[i].bytes|
    requires 0 < k < |tail|
    ensures Share(p, ExtraOffset(p, k - 1), InfoSize(ExtraInfo(p, k - 1))) == Some(tail[k].bytes)
  {
    hide InfoSize, ExtraInfo, ExtraOffset, Flatten, TotalSize, Get64, Get32;
    var bs := BytesOf(tail);
    FlattenSliceAt(p, EXTRA_SIZE, bs, k);
    ExtraOffsetIsTotal(p, tail, k - 1);
    assert ExtraInfo(p, k - 1) == tail[1 + (k - 1)].info;
    assert InfoSize(tail[k].info) == |bs[k]|;
  }

  /**
   A buffer answers like the plain list of appended byte strings, for every index,
   exactly when every packed tensor has the size its recorded description computes to.
   */
  lemma ReadsBackIff(mems: seq<Memory>, items: seq<Item>)
    requires Represents(mems, items) && Honest(items)
    ensures |mems| <= MEMORY_MAX && Count(mems) == |items| <= SIZE_LIMIT
    ensures ReadsBack(mems, items) <==> SizesAgree(items)
    ensures forall i :: |items| <= i ==> GetNth(mems, i) == None
  {
    hide InfoSize, ExtraInfo, Flatten, Get64, ExtraOffset;
    CountIsLength(mems, items);
    if |items| > MEMORY_MAX {
      var p, tail := mems[MEMORY_MAX - 1], items[MEMORY_MAX - 1..];
      if SizesAgree(items) {
        forall i | 0 <= i < |items| ensures GetNth(mems, i) == Some(items[i].bytes) {
          if i < MEMORY_MAX - 1 {
            assert mems[i] == mems[..MEMORY_MAX - 1][i];
          } else if i == MEMORY_MAX - 1 {
            ReservedReadsBack(p, tail);
          } else {
            PackedReadsBack(p, tail, i - (MEMORY_MAX - 1));
          }
        }
      }
      if ReadsBack(mems, items) {
        forall i | MEMORY_MAX <= i < |items| ensures InfoSize(items[i].info) == |items[i].bytes| {
          assert GetNth(mems, i) == Some(items[i].bytes);
          assert ExtraInfo(p, i - MEMORY_MAX) == tail[1 + (i - MEMORY_MAX)].info;
        }
      }
    }
  }

  // ----- appending -----

  /** What the description slot of a packed tensor receives. */
  function StoredInfo(memory: Memory, info: TensorInfo): TensorInfo
  {
    if HasHeader(memory) && ParseHeader(memory).format != FORMAT_STATIC
    then ToInfo(ParseHeader(memory)) else info
  }

  /** Only a block without header needs a valid description. */
  predicate Accepted(memory: Memory, info: TensorInfo)
  {
    HasHeader(memory) || InfoValid(info)
  }

  /**
   What is recorded for a block: the description in its header, if the header is of the flexible
   or sparse format, whatever description is given; otherwise the given one.
   */
  lemma RecordedDescription(m: Meta, data: Block, info: TensorInfo)
    requires MetaValid(m) && (m.format == FORMAT_SPARSE || m.nnz == 0) && HEADER_SIZE + |data| < TWO_64
    ensures StoredInfo(EncodeHeader(m) + data, info) == if m.format == FORMAT_STATIC then info else ToInfo(m)
    ensures |data| < HEADER_SIZE ==> StoredInfo(data, info) == info
    ensures Accepted(EncodeHeader(m) + data, info)
    ensures |data| < HEADER_SIZE ==>
              (Accepted(data, info) <==>
                 && info.elementType != 11 && info.dimension[0] > 0
                 && forall i, j :: 0 <= i < j < 16 && info.dimension[i] == 0 ==> info.dimension[j] == 0)
  {
    hide MetaValid, EncodeHeader, ParseHeader;
    HeaderRoundTrip(m, data);
    ValidDimension(info.dimension);
  }

  /** The item that an accepted append adds to the represented list. */
  function Stored(item: Item): Item
  {
    item.(info := StoredInfo(item.bytes, item.info))
  }

  function StoredAll(items: seq<Item>): (r: seq<Item>)
    ensures |r| == |items|
    ensures forall k :: 0 <= k < |items| ==> r[k] == Stored(items[k])
  {
    seq(|items|, k requires 0 <= k < |items| => Stored(items[k]))
  }

  /** `gst_tensor_info_init`: no type, no dimension. */
  function EmptyInfo(): TensorInfo
  {
    TensorInfo(TYPE_END, seq(RANK_LIMIT, _ => 0))
  }

  /** A header without extra tensors: magic, version, count, reserved size, and every slot empty. */
  predicate FreshHeader(m: Block, reserved: Word64)
    requires |m| >= EXTRA_SIZE
  {
    && Get32(m, 0) == EXTRA_MAGIC && Get32(m, 4) == 0 && ExtraCount(m) == 0 && Reserved(m) == reserved
    && forall k :: 0 <= k < EXTRA_LIMIT ==> ExtraInfo(m, k) == EmptyInfo()
  }

  /** The first 24 bytes of a header, written into a block of arbitrary content. */
  function PutFields(m: Block, count: Word32, reserved: Word64): (r: Block)
    requires |m| >= EXTRA_SIZE
    ensures |r| == |m|
  {
    Put64(Put32(Put32(Put32(m, 0, EXTRA_MAGIC), 4, 0), 8, count), 16, reserved)
  }

  lemma FieldsOfPutFields(m: Block, count: Word32, reserved: Word64)
    requires |m| >= EXTRA_SIZE
    ensures var r := PutFields(m, count, reserved);
            && Get32(r, 0) == EXTRA_MAGIC && Get32(r, 4) == 0 && ExtraCount(r) == count && Reserved(r) == reserved
            && r[EXTRA_SIZE..] == m[EXTRA_SIZE..]
  {
    hide Put, Get64;
    var m1 := Put32(m, 0, EXTRA_MAGIC);
    var m2 := Put32(m1, 4, 0);
    var m3 := Put32(m2, 8, count);
    var r := Put64(m3, 16, reserved);
    Get32OfPut(m, 0, EXTRA_MAGIC);
    Get32OfPut(m1, 4, 0);
    Get32OfPut(m2, 8, count);
    Get64OfPut(m3, 16, reserved);
    SliceAfterPut(m1, 4, Le32(0), 0, 4);
    SliceAfterPut(m2, 8, Le32(count), 0, 8);
    SliceAfterPut(m3, 16, Le64(reserved), 0, 12);
    SliceOfSlice(r, 0, 12, 0, 8);
    SliceOfSlice(m3, 0, 12, 0, 8);
    SliceOfSlice(r, 0, 12, 8, 12);
    SliceOfSlice(m3, 0, 12, 8, 12);
    SliceOfSlice(r, 0, 8, 0, 4);
    SliceOfSlice(m2, 0, 8, 0, 4);
    SliceOfSlice(r, 0, 8, 4, 8);
    SliceOfSlice(m2, 0, 8, 4, 8);
    Get32Local(r, m1, 0, 0);
    Get32Local(r, m2, 4, 4);
    Get32Local(r, m3, 8, 8);
    SliceAfterPut(m, 0, Le32(EXTRA_MAGIC), EXTRA_SIZE, |m|);
    SliceAfterPut(m1, 4, Le32(0), EXTRA_SIZE, |m|);
    SliceAfterPut(m2, 8, Le32(count), EXTRA_SIZE, |m|);
    SliceAfterPut(m3, 16, Le64(reserved), EXTRA_SIZE, |m|);
    assert r[EXTRA_SIZE..] == r[EXTRA_SIZE..|m|] && m[EXTRA_SIZE..] == m[EXTRA_SIZE..|m|];
  }

  /** `gst_tensor_extra_info_init` in a block of uninitialised bytes. */
  method InitExtra(block: Block, reserved: Word64) returns (r: Block)
    requires |block| >= EXTRA_SIZE
    ensures |r| == |block| && r[EXTRA_SIZE..] == block[EXTRA_SIZE..]
    ensures FreshHeader(r, reserved)
  {
    hide Put, PutInfo, Get32, Get64, ExtraInfo, PutFields;
    r := PutFields(block, 0, reserved);
    FieldsOfPutFields(block, 0, reserved);
    for i := 0 to EXTRA_LIMIT
      invariant |r| == |block| && r[EXTRA_SIZE..] == block[EXTRA_SIZE..]
      invariant Get32(r, 0) == EXTRA_MAGIC && Get32(r, 4) == 0 && ExtraCount(r) == 0 && Reserved(r) == reserved
      invariant forall j :: 0 <= j < i ==> ExtraInfo(r, j) == EmptyInfo()
    {
      FieldsOfPutInfo(r, i, EmptyInfo());
      forall j | 0 <= j <= i ensures ExtraInfo(PutInfo(r, i, EmptyInfo()), j) == EmptyInfo() {
        ExtraInfoOfPut(r, i, EmptyInfo(), j);
      }
      r := PutInfo(r, i, EmptyInfo());
    }
  }

  /** Adding one tensor behind a packed memory, or behind a plain last memory given a new header. */
  lemma PacksSnoc(p: Memory, tail: seq<Item>, q: Memory, item: Item)
    requires |tail| > 0 && Packs(p, tail) && |tail| <= EXTRA_LIMIT
    requires |q| >= EXTRA_SIZE && Get32(q, 0) == EXTRA_MAGIC
    requires ExtraCount(q) == |tail| && Reserved(q) == Reserved(p)
    requires forall k :: 0 <= k < EXTRA_LIMIT ==>
      ExtraInfo(q, k) == if k == |tail| - 1 then item.info else ExtraInfo(p, k)
    requires q[EXTRA_SIZE..] == p[EXTRA_SIZE..] + item.bytes
    ensures Packs(q, tail + [item])
  {
    var t := tail + [item];
    assert BytesOf(t) == BytesOf(tail) + [item.bytes];
    FlattenConcat(BytesOf(tail), [item.bytes]);
    FlattenOne(item.bytes);
    forall k | 0 <= k < |t| - 1 ensures ExtraInfo(q, k) == t[1 + k].info {
      if k < |tail| - 1 {
        assert ExtraInfo(p, k) == tail[1 + k].info;
      }
    }
  }

  lemma PacksFirst(first: Item, q: Memory, item: Item)
    requires |q| >= EXTRA_SIZE && Get32(q, 0) == EXTRA_MAGIC
    requires ExtraCount(q) == 1 && Reserved(q) == |first.bytes|
    requires ExtraInfo(q, 0) == item.info
    requires q[EXTRA_SIZE..] == first.bytes + item.bytes
    ensures Packs(q, [first] + [item])
  {
    var t := [first] + [item];
    assert BytesOf(t) == [first.bytes] + [item.bytes];
    FlattenConcat([first.bytes], [item.bytes]);
    FlattenOne(first.bytes);
    FlattenOne(item.bytes);
    assert t[1 + 0].info == item.info;
  }

  /** Blocks that agree on the header bytes agree on every header field. */
  lemma HeaderKept(m: Block, p: Block)
    requires |m| >= EXTRA_SIZE && |p| >= EXTRA_SIZE
    requires m[..EXTRA_SIZE] == p[..EXTRA_SIZE]
    ensures Get32(m, 0) == Get32(p, 0) && ExtraCount(m) == ExtraCount(p) && Reserved(m) == Reserved(p)
    ensures forall j :: 0 <= j < EXTRA_LIMIT ==> ExtraInfo(m, j) == ExtraInfo(p, j)
  {
  }

  /** Behind the header lie the bytes of the old last memory and then the new tensor. */
  lemma PayloadOf(copied: Block, described: Block, final: Block, offset: nat, last: Block, memory: Block)
    requires offset == EXTRA_SIZE || (offset == 0 && |last| >= EXTRA_SIZE)
    requires |copied| == |described| == offset + |last| + |memory|
    requires copied[offset..offset + |last|] == last
    requires described[EXTRA_SIZE..] == copied[EXTRA_SIZE..]
    requires final == Put(described, offset + |last|, memory)
    ensures final[EXTRA_SIZE..] == (if offset == 0 then last[EXTRA_SIZE..] else last) + memory
  {
  }

  /**
   The new last memory: a copy of the old one, behind a new header unless it already had
   one, with the count raised, one more slot filled in and the new tensor at the end. The
   source does not check that a slot is left; a write past the table is undefined in C, and
   then any content may result.
   */
  method Pack(last: Memory, memory: Memory, stored: TensorInfo) returns (block: Block)
    ensures |block| == |last| + |memory| + if LooksExtra(last) then 0 else EXTRA_SIZE
    ensures LooksExtra(last) && ExtraCount(last) < EXTRA_LIMIT ==>
              && LooksExtra(block)
              && ExtraCount(block) == ExtraCount(last) + 1 && Reserved(block) == Reserved(last)
              && block[EXTRA_SIZE..] == last[EXTRA_SIZE..] + memory
              && forall k :: 0 <= k < EXTRA_LIMIT ==>
                   ExtraInfo(block, k) == if k == ExtraCount(last) then stored else ExtraInfo(last, k)
    ensures !LooksExtra(last) ==>
              && LooksExtra(block)
              && ExtraCount(block) == 1 && Reserved(block) == |last|
              && block[EXTRA_SIZE..] == last + memory
              && ExtraInfo(block, 0) == stored
  {
    hide Put, PutInfo, ExtraInfo, Get64, Get32;
    var isExtra := LooksExtra(last);
    var newSize := |last| + |memory| + if isExtra then 0 else EXTRA_SIZE;
    block := *;  // uninitialised memory
    if |block| != newSize {
      block := Zeros(newSize);
    }
    var offset := 0;
    if !isExtra {
      block := InitExtra(block, |last|);
      offset := EXTRA_SIZE;
    }
    ghost var initial := block;
    block := Put(block, offset, last);
    ghost var copied := block;
    if !isExtra {
      SliceAfterPut(initial, offset, last, 0, EXTRA_SIZE);
      HeaderKept(initial, copied);
    } else {
      SliceOfSlice(copied, 0, |last|, 0, EXTRA_SIZE);
      HeaderKept(last, copied);
    }
    var slot := ExtraCount(block);
    if slot >= EXTRA_LIMIT {
      block := *;
      if |block| != newSize {
        block := Zeros(newSize);
      }
      return;
    }
    FieldsOfPutCount(block, slot + 1);
    block := Put32(block, 8, slot + 1);
    ghost var counted := block;
    FieldsOfPutInfo(block, slot, stored);
    block := PutInfo(block, slot, stored);
    forall j | 0 <= j < EXTRA_LIMIT
      ensures ExtraInfo(block, j) == if j == slot then stored else ExtraInfo(copied, j)
    {
      ExtraInfoOfPut(counted, slot, stored, j);
    }
    ghost var described := block;
    block := Put(block, offset + |last|, memory);
    SliceAfterPut(described, offset + |last|, memory, 0, EXTRA_SIZE);
    HeaderKept(described, block);
    PayloadOf(copied, described, block, offset, last, memory);
  }

  /** The size of the block that packing one more memory asks the allocator for. */
  function Needed(mems: seq<Memory>, memory: Memory): nat
  {
    if |mems| != MEMORY_MAX then |memory|
    else
      var last := mems[MEMORY_MAX - 1];
      |last| + |memory| + if LooksExtra(last) then 0 else EXTRA_SIZE
  }

  /** A packed memory is as long as its header and its tensors. */
  lemma PackedLength(p: Memory, tail: seq<Item>)
    requires |tail| > 0 && Packs(p, tail)
    ensures |p| == EXTRA_SIZE + TotalSize(BytesOf(tail))
  {
    hide Get32, Get64, ExtraInfo, Flatten;
    FlattenLength(BytesOf(tail));
    assert |p[EXTRA_SIZE..]| == |Flatten(BytesOf(tail))|;
  }

  /** No append of a run asks for more than the header and all packed tensors together. */
  lemma NeededBelow(mems: seq<Memory>, items: seq<Item>, k: nat)
    requires MEMORY_MAX <= k < |items| && Honest(items) && Represents(mems, items[..k])
    ensures |mems| == MEMORY_MAX
    ensures Needed(mems, items[k].bytes) <= EXTRA_SIZE + TotalSize(BytesOf(items[MEMORY_MAX - 1..]))
  {
    hide LooksExtra, TotalSize, Flatten, Packs;
    var n := MEMORY_MAX - 1;
    var bs, tail := BytesOf(items[n..]), items[..k][n..];
    assert BytesOf(tail) == bs[..k - n];
    if k == MEMORY_MAX {
      assert mems[n] == BytesOf(items[..k])[n] == bs[0];
      assert BytesOf(tail) == [bs[0]];
      FlattenOne(bs[0]);
    } else {
      PackedLength(mems[n], tail);
      PackedLooksExtra(mems[n], tail);
    }
    TotalSizeStep(bs, k - n);
    assert bs == bs[..k - n + 1] + bs[k - n + 1..];
    TotalSizeConcat(bs[..k - n + 1], bs[k - n + 1..]);
  }

  lemma PackedLooksExtra(p: Memory, tail: seq<Item>)
    requires |tail| > 0 && Packs(p, tail)
    ensures LooksExtra(p)
  {
  }

  class Buffer {
    var mems: seq<Memory>
    ghost var log: seq<Item>

    ghost predicate Valid()
      reads this
    {
      && (if |log| <= MEMORY_MAX then mems == BytesOf(log) else |mems| == MEMORY_MAX)
      && (Sound(log) ==> Represents(mems, log))
      && (|log| + Claimed(log) <= SIZE_LIMIT ==> Count(mems) == |log| + Claimed(log))
    }

    constructor ()
      ensures Valid() && mems == [] && log == []
    {
      mems, log := [], [];
    }

    /** `gst_tensor_buffer_append_memory` */
    method AppendMemory(memory: Memory, info: TensorInfo) returns (appended: bool)
      requires Valid()
      modifies this
      ensures Valid()
      ensures appended ==> Accepted(memory, info) && log == old(log) + [Stored(Item(memory, info))]
      ensures !appended ==> mems == old(mems) && log == old(log)
      ensures Accepted(memory, info) && |old(mems)| < MEMORY_MAX ==> appended
      ensures !appended && Accepted(memory, info) ==> Needed(old(mems), memory) >= TWO_64
    {
      hide MetaValid, ParseHeader, InfoValid, Get32, Get64, ExtraInfo, Flatten;
      var isStatic := true;
      var stored := info;
      if HasHeader(memory) {
        isStatic := ParseHeader(memory).format == FORMAT_STATIC;
      } else if !InfoValid(info) {
        return false;
      }
      ghost var item := Stored(Item(memory, info));
      if |mems| < MEMORY_MAX {
        assert BytesOf(log + [item]) == BytesOf(log) + [memory];
        mems, log := mems + [memory], log + [item];
        return true;
      }

      var last := mems[MEMORY_MAX - 1];
      var isExtra := LooksExtra(last);
      if |last| + |memory| + (if isExtra then 0 else EXTRA_SIZE) >= TWO_64 {
        return false;  // no allocator can satisfy the request
      }
      if !isStatic {
        stored := ToInfo(ParseHeader(memory));
      }
      var block := Pack(last, memory, stored);
      if Sound(log + [item]) {
        assert Sound(log);
        if isExtra {
          PacksSnoc(last, log[MEMORY_MAX - 1..], block, item);
          assert log[MEMORY_MAX - 1..] + [item] == (log + [item])[MEMORY_MAX - 1..];
        } else {
          assert mems == BytesOf(log);
          PacksFirst(log[MEMORY_MAX - 1], block, item);
          assert [log[MEMORY_MAX - 1]] + [item] == (log + [item])[MEMORY_MAX - 1..];
        }
        assert (log + [item])[..MEMORY_MAX - 1] == log[..MEMORY_MAX - 1];
      }
      mems := mems[..MEMORY_MAX - 1] + [block];
      log := log + [item];
      appended := true;
    }

    /**
     A run of appends onto an empty buffer, as the synchroniser and the readers do, up to the
     first one refused. It succeeds if every block is accepted and the allocator can hold them
     together with the header; then the buffer stands for the list of appended tensors, and
     reads back at every index exactly when the packed ones agree in size.
     */
    method AppendAll(items: seq<Item>) returns (ok: bool)
      requires Valid() && log == []
      modifies this
      ensures Valid() && log <= StoredAll(items)
      ensures ok <==> log == StoredAll(items)
      ensures ok ==> forall k :: 0 <= k < |items| ==> Accepted(items[k].bytes, items[k].info)
      ensures ok ==> StandsFor(mems, StoredAll(items))
      ensures (&& (forall k :: 0 <= k < |items| ==> Accepted(items[k].bytes, items[k].info))
               && (|items| <= MEMORY_MAX || (Sound(StoredAll(items)) && Fits(items)))) ==> ok
    {
      hide StoredInfo, Accepted, Represents, SizesAgree, ReadsBack, LooksExtra, TotalSize, Needed;
      ghost var goal := StoredAll(items);
      assert BytesOf(goal) == BytesOf(items);
      for k := 0 to |items|
        invariant Valid() && log == goal[..k]
        invariant forall j :: 0 <= j < k ==> Accepted(items[j].bytes, items[j].info)
      {
        if Sound(goal) && Fits(items) && k >= MEMORY_MAX {
          assert Sound(log) && BytesOf(goal[MEMORY_MAX - 1..]) == BytesOf(items[MEMORY_MAX - 1..]);
          NeededBelow(mems, goal, k);
        }
        ok := AppendMemory(items[k].bytes, items[k].info);
        if !ok {
          return;
        }
      }
      assert goal[..|items|] == goal;
      if Sound(log) {
        ReadsBackIff(mems, log);
      }
      ok := true;
    }

    /** `gst_tensor_buffer_get_count`: the number of appended tensors. */
    method GetCount() returns (n: nat)
      requires Valid()
      ensures n == Count(mems)
      ensures |log| + Claimed(log) <= SIZE_LIMIT ==> n == |log| + Claimed(log)
    {
      n := |mems|;
      if n < MEMORY_MAX {
        return;
      }
      if LooksExtra(mems[n - 1]) {
        n := ExtraCount(mems[n - 1]) + MEMORY_MAX;
      }
    }

    /** `gst_tensor_buffer_get_nth_memory`: tensor `index` of the list of appended tensors. */
    method GetNthMemory(index: nat) returns (r: Option<Block>)
      requires Valid()
      ensures index < SIZE_LIMIT || Count(mems) <= index ==> r == GetNth(mems, index)
      ensures Sound(log) && SizesAgree(log) ==>
                r == if index < |log| then Some(log[index].bytes) else None
    {
      hide InfoSize;
      if Sound(log) {
        ReadsBackIff(mems, log);
      }
      var numTensors := GetCount();
      if index >= numTensors {
        return None;
      }
      if numTensors <= MEMORY_MAX || index < MEMORY_MAX - 1 {
        return Some(mems[index]);
      }
      var p := mems[MEMORY_MAX - 1];
      var offset := EXTRA_SIZE;
      if index == MEMORY_MAX - 1 {
        return Share(p, offset, Reserved(p));
      }
      if index >= SIZE_LIMIT {
        r := *;  // slots outside the table
        return;
      }
      offset := Wrap64(offset + Reserved(p));
      for i := 1 to index - MEMORY_MAX + 1
        invariant offset == ExtraOffset(p, i - 1)
      {
        offset := Wrap64(offset + InfoSize(ExtraInfo(p, i - 1)));
      }
      r := Share(p, offset, InfoSize(ExtraInfo(p, index - MEMORY_MAX)));
    }
  }
}
