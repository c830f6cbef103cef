/**
 Where packed buffers stop behaving like a plain list, with buffers that show it. Every list of
 up to SIZE_LIMIT tensors has a packed buffer; it is built here byte by byte.
 */
module BufferLimits {
  import opened Bytes
  import opened Options
  import opened TensorMeta
  import opened TensorBuffer
  import opened BufferSplit

  // ----- a buffer for every list -----

  /** The description slots filled in, one after the other. */
  function PutInfos(m: Block, infos: seq<TensorInfo>): (r: Block)
    requires |m| >= EXTRA_SIZE && |infos| <= EXTRA_LIMIT
    ensures |r| == |m|
  {
    if infos == [] then m
    else
      var n := |infos| - 1;
      PutInfo(PutInfos(m, infos[..n]), n, infos[n])
  }

  lemma {:induction false} PutInfosReads(m: Block, infos: seq<TensorInfo>)
    requires |m| >= EXTRA_SIZE && |infos| <= EXTRA_LIMIT
    ensures var r := PutInfos(m, infos);
            && Get32(r, 0) == Get32(m, 0) && ExtraCount(r) == ExtraCount(m) && Reserved(r) == Reserved(m)
            && r[EXTRA_SIZE..] == m[EXTRA_SIZE..]
            && forall k :: 0 <= k < |infos| ==> ExtraInfo(r, k) == infos[k]
  {
    hide PutInfo, Get32, Get64, ExtraInfo;
    if infos != [] {
      var n := |infos| - 1;
      var before, r := PutInfos(m, infos[..n]), PutInfos(m, infos);
      PutInfosReads(m, infos[..n]);
      FieldsOfPutInfo(before, n, infos[n]);
      forall k | 0 <= k < |infos| ensures ExtraInfo(r, k) == infos[k] {
        ExtraInfoOfPut(before, n, infos[n], k);
      }
    }
  }

  function Packed(tail: seq<Item>): (p: Block)
    requires 0 < |tail| <= EXTRA_LIMIT + 1
    ensures |p| == EXTRA_SIZE + TotalSize(BytesOf(tail))
  {
    FlattenLength(BytesOf(tail));
    PutInfos(PutFields(Zeros(EXTRA_SIZE) + Flatten(BytesOf(tail)), |tail| - 1, |tail[0].bytes|), InfosOf(tail[1..]))
  }

  lemma PackedPacks(tail: seq<Item>)
    requires 0 < |tail| <= EXTRA_LIMIT + 1
    ensures Packs(Packed(tail), tail)
    ensures Get32(Packed(tail), 0) == EXTRA_MAGIC
  {
    hide PutFields, PutInfos, Get32, Get64, ExtraInfo, Flatten;
    var blank := Zeros(EXTRA_SIZE) + Flatten(BytesOf(tail));
    FieldsOfPutFields(blank, |tail| - 1, |tail[0].bytes|);
    PutInfosReads(PutFields(blank, |tail| - 1, |tail[0].bytes|), InfosOf(tail[1..]));
    assert blank[EXTRA_SIZE..] == Flatten(BytesOf(tail));
  }

  /** The memories of a buffer that stands for `items`. */
  function Memories(items: seq<Item>): (mems: seq<Memory>)
    requires |items| <= SIZE_LIMIT && Fits(items)
    ensures |mems| <= MEMORY_MAX
  {
    if |items| <= MEMORY_MAX then BytesOf(items)
    else
      var n := MEMORY_MAX - 1;
      BytesOf(items[..n]) + [Packed(items[n..])]
  }

  lemma MemoriesRepresent(items: seq<Item>)
    requires |items| <= SIZE_LIMIT && Fits(items)
    ensures Represents(Memories(items), items)
  {
    hide Packed, Packs, TotalSize;
    if |items| > MEMORY_MAX {
      PackedPacks(items[MEMORY_MAX - 1..]);
    }
  }

  /** A buffer built this way keeps all promises. */
  lemma MemoriesStandFor(items: seq<Item>)
    requires |items| <= SIZE_LIMIT && Fits(items)
    ensures Represents(Memories(items), items) && StandsFor(Memories(items), items)
  {
    hide Memories, ReadsBack, SizesAgree, Honest;
    MemoriesRepresent(items);
    if Sound(items) {
      ReadsBackIff(Memories(items), items);
    }
    assert |items| <= MEMORY_MAX ==> Memories(items) == BytesOf(items);
  }

  lemma {:induction false} TotalSizeBound(bs: seq<Block>, size: nat)
    requires forall k :: 0 <= k < |bs| ==> |bs[k]| <= size
    ensures TotalSize(bs) <= |bs| * size
  {
    if bs != [] {
      TotalSizeBound(bs[1..], size);
    }
  }

  /** Tensors of less than 4 GiB always fit. */
  lemma SmallTensorsFit(items: seq<Item>)
    requires |items| <= SIZE_LIMIT && forall k :: 0 <= k < |items| ==> |items[k].bytes| < TWO_32
    ensures EXTRA_SIZE + TotalSize(BytesOf(items)) < TWO_64 && Fits(items)
  {
    hide TotalSize;
    TotalSizeBound(BytesOf(items), TWO_32);
    if |items| > MEMORY_MAX {
      TotalSizeBound(BytesOf(items[MEMORY_MAX - 1..]), TWO_32);
    }
  }

  function Copies(item: Item, n: nat): (r: seq<Item>)
    ensures |r| == n && forall k :: 0 <= k < n ==> r[k] == item
  {
    seq(n, _ => item)
  }

  // ----- headers in the packed part -----

  /**
   A header, of the flexible format or of the static format that the synchroniser writes, and its
   data, with the description that an append records for it.
   */
  predicate FlexibleTensor(item: Item)
  {
    && Framed(item.bytes) && ParseHeader(item.bytes).format != FORMAT_SPARSE
    && item.info == ToInfo(ParseHeader(item.bytes))
  }

  /** The description computes to the data alone; the block has the header in front. */
  lemma FlexibleLength(item: Item)
    requires FlexibleTensor(item)
    ensures |item.bytes| == HEADER_SIZE + InfoSize(item.info)
    ensures HasHeader(item.bytes) && !LooksExtra(item.bytes) && Stored(item) == item
  {
    hide DimensionValid, ElementCount, ElementSize, WordsAt, VersionOne, VersionValid;
    assert ParseHeader(item.bytes).magic == META_MAGIC != EXTRA_MAGIC;
  }

  /**
   A tensor with a header in front of its data is described without the header, so once it is
   packed it never reads back: the window is short by the size of the header.
   */
  lemma HeaderTailIsCutShort(mems: seq<Memory>, items: seq<Item>, i: nat)
    requires Represents(mems, items) && Honest(items) && MEMORY_MAX <= i < |items| && FlexibleTensor(items[i])
    ensures |mems| <= MEMORY_MAX && Count(mems) == |items| <= SIZE_LIMIT
    ensures GetNth(mems, i).Some? ==> |GetNth(mems, i).value| == |items[i].bytes| - HEADER_SIZE
    ensures !ReadsBack(mems, items)
  {
    hide FlexibleTensor, InfoSize, Flatten, Get32, Get64, ExtraInfo, ExtraOffset;
    CountIsLength(mems, items);
    FlexibleLength(items[i]);
    var p, tail := mems[MEMORY_MAX - 1], items[MEMORY_MAX - 1..];
    assert ExtraInfo(p, i - MEMORY_MAX) == tail[1 + (i - MEMORY_MAX)].info;
    assert GetNth(mems, i) != Some(items[i].bytes);
  }

  /** `n` bytes of data: type uint8 and a single dimension. */
  function ByteVector(n: Word32): (info: TensorInfo)
    requires n > 0
    ensures InfoValid(info) && info.elementType < TYPE_END && InfoSize(info) == n
  {
    var d: Dimension := [n, 0, 0, 0, 0, 0, 0, 0, 0, 0, 0, 0, 0, 0, 0, 0];
    assert Rank(d) == 1;
    assert Product(d, 0) == 1 && Product(d, 1) == n;
    TensorInfo(5, d)
  }

  /** The same in the flexible format, header in front of zeros. */
  function FramedBytes(n: Word32): (item: Item)
    requires n > 0
    ensures |item.bytes| == HEADER_SIZE + n && item.info == ByteVector(n)
  {
    Item(EncodeHeader(FromInfo(ByteVector(n)).(format := FORMAT_FLEXIBLE)) + Zeros(n), ByteVector(n))
  }

  lemma FramedBytesIsFlexible(n: Word32)
    requires n > 0
    ensures FlexibleTensor(FramedBytes(n))
  {
    hide ByteVector, ElementCount, ElementSize, Get32, DimensionValid, EncodeHeader;
    var m := FromInfo(ByteVector(n)).(format := FORMAT_FLEXIBLE);
    assert VersionOne(m.version) && DataSize(m) == InfoSize(ByteVector(n));
    AppendedHeaderFrames(m, Zeros(n));
  }

  /** Seventeen times the same tensor: the buffer stands for them, and the seventeenth does not come back. */
  lemma SeventeenCutShort(item: Item)
    requires FlexibleTensor(item) && |item.bytes| < TWO_32
    ensures var items := Copies(item, 17);
            && Fits(items) && Honest(items) && StoredAll(items) == items
            && Represents(Memories(items), items) && Count(Memories(items)) == 17
            && !ReadsBack(Memories(items), items)
  {
    hide FlexibleTensor, TotalSize, Represents, ReadsBack, LooksExtra, StoredInfo, Memories, Fits;
    var items := Copies(item, 17);
    FlexibleLength(item);
    SmallTensorsFit(items);
    MemoriesRepresent(items);
    HeaderTailIsCutShort(Memories(items), items, 16);
  }

  /** Seventeen one-byte flexible tensors. */
  lemma CutShortWitness()
    ensures FlexibleTensor(FramedBytes(1)) && Fits(Copies(FramedBytes(1), 17))
    ensures var items := Copies(FramedBytes(1), 17);
            && Represents(Memories(items), items) && Count(Memories(items)) == 17
            && !ReadsBack(Memories(items), items)
  {
    hide FramedBytes, FlexibleTensor, Represents, ReadsBack, Memories, Fits;
    FramedBytesIsFlexible(1);
    SeventeenCutShort(FramedBytes(1));
  }

  // ----- a sixteenth block that poses as packed -----

  /** A plain block that begins like a packed one with one extra tensor. */
  function Poser(): (b: Memory)
    ensures |b| == EXTRA_SIZE
  {
    PutFields(Zeros(EXTRA_SIZE), 1, 0)
  }

  /** Sixteen plain memories of which the last poses as packed count as seventeen. */
  lemma PosingWitness()
    ensures var items := Copies(Item(Poser(), ByteVector(1)), 16);
            Represents(BytesOf(items), items) && Claimed(items) == 1 && Count(BytesOf(items)) == 17
  {
    hide PutFields, Get32, Get64, ByteVector;
    FieldsOfPutFields(Zeros(EXTRA_SIZE), 1, 0);
  }
}
