/**
 From buffer to buffer through the data repository, for flexible tensors: what was recorded comes
 back exactly as long as no tensor is packed.
 */
module FlexibleRepo {
  import opened Bytes
  import opened Options
  import opened TensorMeta
  import opened TensorBuffer
  import opened BufferLimits
  import opened DataRepoSink
  import opened DataRepoSource

  /** Framed tensors, not sparse, with the descriptions that an append records for them. */
  predicate FlexibleTensors(items: seq<Item>)
  {
    forall k :: 0 <= k < |items| ==> FlexibleTensor(items[k])
  }

  lemma FlexibleIsHonest(items: seq<Item>)
    requires FlexibleTensors(items)
    ensures Honest(items)
  {
    hide FlexibleTensor, LooksExtra;
    if |items| >= MEMORY_MAX {
      FlexibleLength(items[MEMORY_MAX - 1]);
    }
  }

  /** Up to sixteen flexible tensors reach the writer whole, and are written. */
  lemma FlexibleView(mems: seq<Memory>, past: seq<Surroundings>, items: seq<Item>)
    requires Represents(mems, items) && FlexibleTensors(items) && |items| <= MEMORY_MAX && |past| == |mems|
    ensures |mems| <= MEMORY_MAX && Count(mems) == |items| && View(mems) == BytesOf(items) && AllLong(View(mems))
    ensures AllWritable(mems, past)
  {
    hide FlexibleTensor, HasHeader, MetaValid, ParseHeader, ExtraOffset, LooksExtra;
    FlexibleIsHonest(items);
    CountIsLength(mems, items);
    forall k | 0 <= k < |items|
      ensures View(mems)[k] == items[k].bytes && |items[k].bytes| >= META_SIZE && Writable(mems, past, k)
    {
      assert Seen(mems, k) == mems[k] && Pointed(mems, past, k) == mems[k] + past[k];
      FlexibleLength(items[k]);
      HeaderInFront(mems[k], past[k]);
    }
  }

  lemma HeaderInFront(b: Block, rest: Block)
    requires HasHeader(b)
    ensures |b + rest| >= META_SIZE && MetaValid(ParseHeader(b + rest))
  {
    hide MetaValid, ParseHeader;
    PastIgnored(b, rest);
  }

  /** The first packed tensor starts where the writer looks for it, so what is cut off is its end. */
  lemma FirstPackedStarts(mems: seq<Memory>, past: seq<Surroundings>, items: seq<Item>)
    requires Represents(mems, items) && Honest(items) && |items| > MEMORY_MAX && |past| == |mems|
    requires InfoSize(items[MEMORY_MAX].info) <= |items[MEMORY_MAX].bytes|
    ensures |mems| == MEMORY_MAX && Count(mems) == |items|
    ensures var whole := items[MEMORY_MAX].bytes;
            && GetNth(mems, MEMORY_MAX) == Some(whole[..InfoSize(items[MEMORY_MAX].info)])
            && whole <= Pointed(mems, past, MEMORY_MAX)
  {
    hide InfoSize, ExtraInfo, Flatten, Get64, Get32, TotalSize;
    CountIsLength(mems, items);
    var p, tail := mems[MEMORY_MAX - 1], items[MEMORY_MAX - 1..];
    var bs := BytesOf(tail);
    FlattenSliceAt(p, EXTRA_SIZE, bs, 1);
    assert bs[..1] == [bs[0]];
    FlattenOne(bs[0]);
    var at, size := EXTRA_SIZE + |bs[0]|, InfoSize(items[MEMORY_MAX].info);
    assert ExtraInfo(p, 0) == tail[1].info;
    assert ExtraOffset(p, 0) == at;
    assert p[at..at + |bs[1]|] == bs[1];
    SliceOfSlice(p, at, at + |bs[1]|, 0, size);
    assert Pointed(mems, past, MEMORY_MAX) == p[at..] + past[MEMORY_MAX - 1];
  }

  /** The tensors before the packed ones, and the sixteenth, are written whatever they are packed with. */
  lemma UnpackedWritable(mems: seq<Memory>, past: seq<Surroundings>, items: seq<Item>, k: nat)
    requires Represents(mems, items) && FlexibleTensors(items) && |items| > MEMORY_MAX
    requires |past| == |mems| && k < MEMORY_MAX
    ensures |mems| == MEMORY_MAX && Writable(mems, past, k) && Seen(mems, k) == items[k].bytes
  {
    hide FlexibleTensor, HasHeader, MetaValid, ParseHeader, ExtraOffset, Packs;
    FlexibleIsHonest(items);
    CountIsLength(mems, items);
    FlexibleLength(items[k]);
    var n := MEMORY_MAX - 1;
    if k < n {
      assert mems[k] == mems[..n][k] == items[k].bytes;
    } else {
      ReservedReadsBack(mems[n], items[n..]);
    }
    var rest := Pointed(mems, past, k)[|items[k].bytes|..];
    assert Seen(mems, k) == items[k].bytes && Pointed(mems, past, k) == items[k].bytes + rest;
    HeaderInFront(items[k].bytes, rest);
  }

  /** The data of the first packed tensor begins with its whole header, even if its window is shorter. */
  lemma FirstPackedWritable(mems: seq<Memory>, past: seq<Surroundings>, items: seq<Item>)
    requires Represents(mems, items) && FlexibleTensors(items) && |items| > MEMORY_MAX && |past| == |mems|
    ensures |mems| == MEMORY_MAX && Count(mems) == |items| && Writable(mems, past, MEMORY_MAX)
    ensures InfoSize(items[MEMORY_MAX].info) <= |items[MEMORY_MAX].bytes|
    ensures Seen(mems, MEMORY_MAX) == items[MEMORY_MAX].bytes[..InfoSize(items[MEMORY_MAX].info)]
  {
    hide Represents, FlexibleTensor, HasHeader, MetaValid, ParseHeader, GetNth, InfoSize, Pointed, LooksExtra;
    FlexibleIsHonest(items);
    FlexibleLength(items[MEMORY_MAX]);
    FirstPackedStarts(mems, past, items);
    var whole, seen := items[MEMORY_MAX].bytes, Pointed(mems, past, MEMORY_MAX);
    assert seen == whole + seen[|whole|..];
    HeaderInFront(whole, seen[|whole|..]);
  }

  /** Seventeen flexible tensors are always recorded. */
  lemma SeventeenRecorded(mems: seq<Memory>, past: seq<Surroundings>, items: seq<Item>)
    requires Represents(mems, items) && FlexibleTensors(items) && |items| == MEMORY_MAX + 1 && |past| == |mems|
    ensures |mems| == MEMORY_MAX && Count(mems) == |items| && AllWritable(mems, past)
  {
    hide Represents, FlexibleTensor, Writable, InfoSize, Seen;
    FirstPackedWritable(mems, past, items);
    forall k | 0 <= k < MEMORY_MAX ensures Writable(mems, past, k) {
      UnpackedWritable(mems, past, items, k);
    }
  }

  // ----- what comes back -----

  /** Packed tensor `k` of a memory, whatever it was made of. */
  function PackedTensor(p: Block, k: nat): Option<Block>
    requires |p| >= EXTRA_SIZE && k < EXTRA_LIMIT
  {
    Share(p, ExtraOffset(p, k), InfoSize(ExtraInfo(p, k)))
  }

  /** If the packed tensors of a memory are read back as `bs`, their offsets are those of `bs`. */
  lemma {:induction false} OffsetsRead(p: Memory, bs: seq<Block>, k: nat)
    requires |p| >= EXTRA_SIZE && |p| >= EXTRA_SIZE + Reserved(p) && k <= |bs| <= EXTRA_LIMIT
    requires forall j :: 0 <= j < k ==> PackedTensor(p, j) == Some(bs[j])
    ensures ExtraOffset(p, k) == EXTRA_SIZE + Reserved(p) + TotalSize(bs[..k]) <= |p|
  {
    hide InfoSize, ExtraInfo, Get64, TotalSize;
    if k == 0 {
      EmptyTotal(bs);
    } else {
      OffsetsRead(p, bs, k - 1);
      TotalSizeStep(bs, k - 1);
      assert PackedTensor(p, k - 1) == Some(bs[k - 1]);
    }
  }

  /** A packed buffer can only be read back as tensors for which it has room. */
  lemma ReadingNeedsRoom(out: seq<Memory>, made: seq<Item>, items: seq<Item>)
    requires Represents(out, made) && Honest(made) && |made| == |items| > MEMORY_MAX
    requires |out| <= MEMORY_MAX && Count(out) <= SIZE_LIMIT && ReadsBack(out, items)
    ensures TotalSize(BytesOf(items[MEMORY_MAX..])) <= TotalSize(BytesOf(made[MEMORY_MAX..]))
  {
    hide InfoSize, ExtraInfo, Get64, Get32, TotalSize, ExtraOffset, Flatten;
    CountIsLength(out, made);
    var n := MEMORY_MAX - 1;
    var p, bs := out[n], BytesOf(items[MEMORY_MAX..]);
    PackedLength(p, made[n..]);
    assert BytesOf(made[n..]) == [made[n].bytes] + BytesOf(made[MEMORY_MAX..]);
    TotalSizeConcat([made[n].bytes], BytesOf(made[MEMORY_MAX..]));
    FlattenOne(made[n].bytes);
    forall j | 0 <= j < |bs| ensures PackedTensor(p, j) == Some(bs[j]) {
      assert GetNth(out, MEMORY_MAX + j) == Some(items[MEMORY_MAX + j].bytes);
    }
    OffsetsRead(p, bs, |bs|);
    assert bs[..|bs|] == bs;
  }

  /** Cut tensors are shorter together than whole ones. */
  lemma {:induction false} CutIsLess(cut: seq<Block>, whole: seq<Block>)
    requires |cut| == |whole| && forall k :: 0 <= k < |cut| ==> |cut[k]| < |whole[k]|
    ensures if cut == [] then TotalSize(whole) == 0 else TotalSize(cut) < TotalSize(whole)
  {
    if cut != [] {
      CutIsLess(cut[1..], whole[1..]);
    }
  }

  /** What the writer gets of a packed tensor is shorter than the tensor. */
  lemma SeenIsShort(mems: seq<Memory>, items: seq<Item>, k: nat)
    requires Represents(mems, items) && FlexibleTensors(items) && MEMORY_MAX <= k < |items|
    requires |mems| <= MEMORY_MAX && k < SIZE_LIMIT
    ensures |Seen(mems, k)| < |items[k].bytes|
  {
    hide FlexibleTensor, InfoSize, ExtraInfo, ExtraOffset, Get32, Get64, Flatten;
    FlexibleIsHonest(items);
    CountIsLength(mems, items);
    FlexibleLength(items[k]);
    assert ExtraInfo(mems[MEMORY_MAX - 1], k - MEMORY_MAX) == items[MEMORY_MAX - 1..][1 + (k - MEMORY_MAX)].info;
  }

  /**
   Whatever buffer the reader makes of a recorded buffer of flexible tensors, it reads back as
   those tensors if and only if there are at most sixteen. (Up to sixteen, the writer accepts
   them and the reader always makes one, see `FlexibleView` and `LongIsAccepted`.)
   */
  lemma FlexibleSurvivesIff(mems: seq<Memory>, items: seq<Item>, out: seq<Memory>)
    requires Represents(mems, items) && FlexibleTensors(items)
    requires |mems| <= MEMORY_MAX && Count(mems) <= SIZE_LIMIT && MayDeliver(out, View(mems))
    ensures |out| <= MEMORY_MAX && Count(out) == |items| <= SIZE_LIMIT
    ensures ReadsBack(out, items) <==> |items| <= MEMORY_MAX
  {
    hide FlexibleTensor, Represents, MetaValid, ParseHeader, ReadsBack, SizesAgree, Seen, LooksExtra;
    FlexibleIsHonest(items);
    CountIsLength(mems, items);
    var past: seq<Surroundings> :| Delivers(out, View(mems), past);
    FlexItemsSound(View(mems), past);
    if |items| <= MEMORY_MAX {
      assert out == BytesOf(FlexItems(View(mems), past)) == View(mems);
      PlainSurvives(mems, items, out);
    } else {
      LongDoesNotSurvive(mems, items, out, FlexItems(View(mems), past));
    }
  }

  lemma PlainSurvives(mems: seq<Memory>, items: seq<Item>, out: seq<Memory>)
    requires Represents(mems, items) && FlexibleTensors(items) && |items| <= MEMORY_MAX
    requires |mems| <= MEMORY_MAX && Count(mems) <= SIZE_LIMIT && out == View(mems)
    ensures |out| <= MEMORY_MAX && Count(out) <= SIZE_LIMIT && ReadsBack(out, items)
  {
    hide FlexibleTensor, ReadsBack, View, AllWritable;
    FlexibleIsHonest(items);
    FlexibleView(mems, seq(|mems|, _ => Zeros(META_SIZE)), items);
    ReadsBackIff(out, items);
    assert SizesAgree(items);
  }

  lemma LongDoesNotSurvive(mems: seq<Memory>, items: seq<Item>, out: seq<Memory>, made: seq<Item>)
    requires Represents(mems, items) && FlexibleTensors(items) && |items| > MEMORY_MAX
    requires |mems| <= MEMORY_MAX && Count(mems) == |items| <= SIZE_LIMIT
    requires Represents(out, made) && Honest(made) && BytesOf(made) == View(mems)
    requires |out| <= MEMORY_MAX && Count(out) <= SIZE_LIMIT
    ensures !ReadsBack(out, items)
  {
    hide Represents, FlexibleTensor, ReadsBack, Seen, TotalSize, Honest;
    var cut, whole := BytesOf(made[MEMORY_MAX..]), BytesOf(items[MEMORY_MAX..]);
    forall k | 0 <= k < |cut| ensures |cut[k]| < |whole[k]| {
      assert cut[k] == BytesOf(made)[MEMORY_MAX + k] == Seen(mems, MEMORY_MAX + k);
      SeenIsShort(mems, items, MEMORY_MAX + k);
    }
    CutIsLess(cut, whole);
    if ReadsBack(out, items) {
      ReadingNeedsRoom(out, made, items);
    }
  }

  // ----- samples that do not come back -----

  /**
   Seventeen times the same flexible tensor: recorded whatever lies behind the memories, and no
   buffer that the reader makes of the recording reads back.
   */
  lemma CopiesRecorded(item: Item, past: seq<Surroundings>, out: seq<Memory>)
    requires FlexibleTensor(item) && |item.bytes| < TWO_32 && |past| == MEMORY_MAX
    ensures var items := Copies(item, 17);
            && Fits(items)
            && var mems := Memories(items);
               && |mems| == MEMORY_MAX && Count(mems) == 17 && AllWritable(mems, past)
               && (MayDeliver(out, View(mems)) ==> |out| <= MEMORY_MAX && Count(out) == 17 && !ReadsBack(out, items))
  {
    hide FlexibleTensor, Represents, ReadsBack, Memories, Fits, AllWritable, MayDeliver, View, Count;
    var items := Copies(item, 17);
    SeventeenCutShort(item);
    var mems := Memories(items);
    assert |mems| == MEMORY_MAX by { PackedIsFull(mems, items); }
    SeventeenRecorded(mems, past, items);
    if MayDeliver(out, View(mems)) {
      FlexibleSurvivesIff(mems, items, out);
    }
  }

  lemma PackedIsFull(mems: seq<Memory>, items: seq<Item>)
    requires Represents(mems, items) && |items| > MEMORY_MAX
    ensures |mems| == MEMORY_MAX
  {
  }

  lemma CopiesAreLong(item: Item, past: seq<Surroundings>, mems: seq<Memory>)
    requires FlexibleTensor(item) && META_SIZE <= InfoSize(item.info) && |item.bytes| < TWO_32
    requires Represents(mems, Copies(item, 17)) && |mems| == |past| == MEMORY_MAX && Count(mems) == 17
    ensures forall k :: 0 <= k < 17 ==> META_SIZE <= |View(mems)[k]| < TWO_32
  {
    hide FlexibleTensor, Represents, Writable, InfoSize, Count, GetNth;
    var items := Copies(item, 17);
    FlexibleLength(item);
    FirstPackedWritable(mems, past, items);
    forall k | 0 <= k < 17 ensures META_SIZE <= |Seen(mems, k)| < TWO_32 {
      if k < MEMORY_MAX {
        UnpackedWritable(mems, past, items, k);
      }
    }
  }

  /** Every sample that the reader accepts and can allocate is delivered in some buffer. */
  lemma AcceptedIsDelivered(bs: seq<Block>, past: seq<Surroundings>)
    requires AllHeaders(bs, past) && |bs| <= SIZE_LIMIT && forall k :: 0 <= k < |bs| ==> |bs[k]| < TWO_32
    ensures Allocatable(bs) && Fits(FlexItems(bs, past)) && Delivers(Memories(FlexItems(bs, past)), bs, past)
  {
    hide MetaValid, ParseHeader, Memories, StandsFor, Fits, Honest, Represents;
    FlexItemsSound(bs, past);
    SmallTensorsFit(FlexItems(bs, past));
    MemoriesStandFor(FlexItems(bs, past));
  }

  /** If the data is at least as long as the meta data, the reader also accepts and delivers the sample, cut short. */
  lemma LongCopiesDelivered(item: Item, past: seq<Surroundings>, readPast: seq<Surroundings>)
    requires FlexibleTensor(item) && |item.bytes| < TWO_32 && InfoSize(item.info) >= META_SIZE
    requires |past| == MEMORY_MAX && |readPast| == 17
    ensures Fits(Copies(item, 17))
    ensures var mems := Memories(Copies(item, 17));
            && |mems| == MEMORY_MAX && Count(mems) == 17
            && Allocatable(View(mems)) && Fits(FlexItems(View(mems), readPast))
            && Delivers(Memories(FlexItems(View(mems), readPast)), View(mems), readPast)
  {
    hide FlexibleTensor, Represents, Memories, Fits, AllWritable, AllHeaders, Count, InfoSize, Seen, Delivers;
    hide MayDeliver, FlexItems, ReadsBack;
    var items := Copies(item, 17);
    CopiesRecorded(item, past, []);
    var mems := Memories(items);
    MemoriesRepresent(items);
    CopiesAreLong(item, past, mems);
    LongIsAccepted(mems, past, readPast);
    AcceptedIsDelivered(View(mems), readPast);
  }

  /** One byte of data: the written window of the seventeenth tensor is a single byte of its header. */
  lemma ShortTensorWitness(past: seq<Surroundings>, out: seq<Memory>)
    requires |past| == MEMORY_MAX
    ensures Fits(Copies(FramedBytes(1), 17))
    ensures var items := Copies(FramedBytes(1), 17); var mems := Memories(items);
            && |mems| == MEMORY_MAX && Count(mems) == 17 && AllWritable(mems, past)
            && (MayDeliver(out, View(mems)) ==> |out| <= MEMORY_MAX && Count(out) == 17 && !ReadsBack(out, items))
  {
    hide FlexibleTensor, FramedBytes, ReadsBack, Memories, Fits, AllWritable, MayDeliver, View, Count;
    FramedBytesIsFlexible(1);
    CopiesRecorded(FramedBytes(1), past, out);
  }

  /** 128 bytes of data: recorded, delivered for every state of the memory, and cut short. */
  lemma LongTensorWitness(past: seq<Surroundings>, readPast: seq<Surroundings>)
    requires |past| == MEMORY_MAX && |readPast| == 17
    ensures Fits(Copies(FramedBytes(128), 17))
    ensures var items := Copies(FramedBytes(128), 17); var mems := Memories(items);
            && |mems| == MEMORY_MAX && Count(mems) == 17 && AllWritable(mems, past)
            && exists out: seq<Memory> :: Delivers(out, View(mems), readPast)
                 && |out| <= MEMORY_MAX && Count(out) == 17 && !ReadsBack(out, items)
  {
    hide FlexibleTensor, FramedBytes, ReadsBack, Memories, Fits, AllWritable, Delivers, View, Count, ByteVector;
    hide InfoSize, FlexItems, AllHeaders, Allocatable;
    var items := Copies(FramedBytes(128), 17);
    FramedBytesIsFlexible(128);
    LongCopiesDelivered(FramedBytes(128), past, readPast);
    var mems := Memories(items);
    var out := Memories(FlexItems(View(mems), readPast));
    assert MayDeliver(out, View(mems));
    CopiesRecorded(FramedBytes(128), past, out);
  }
}
