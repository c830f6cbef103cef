/** Pads and buffers that show where the synchroniser keeps all tensors and where it does not. */
module PadWitnesses {
  import opened Bytes
  import opened Options
  import opened TensorMeta
  import opened TensorConfig
  import opened TensorBuffer
  import opened BufferSplit
  import opened BufferLimits
  import opened PadBuffers

  /** A buffer of two equal tensors in one memory. */
  function TwoInOne(b: Memory): TimedBuffer
    requires |b| < TWO_32
  {
    FlattenOne(b + b);
    TimedBuffer(0, [b + b], Zeros(META_SIZE))
  }

  function FlexibleConfig(): Config
  {
    Config(FORMAT_FLEXIBLE, [], 0, 1)
  }

  lemma SecondIsLost(b: Memory)
    requires Framed(b) && |b| < TWO_32
    ensures var buffer, config := TwoInOne(b), FlexibleConfig();
            && Split(buffer.mems, config, buffer.past) == Some([b, b]) && Asserted(buffer, config)
            && |Taken(buffer, config)| == 1 && Taken(buffer, config)[0].bytes == Some(b)
  {
    hide Split, Framed, Taken, Asserted;
    var bs := [b] + [b];
    FlattenConcat([b], [b]);
    FlattenOne(b);
    assert bs == [b, b] && Framing(bs);
    OnlyFirstOfFlattened(TwoInOne(b), FlexibleConfig(), bs);
  }

  /** Two one-byte tensors in one memory: the second is lost. */
  lemma FlattenedWitness()
    ensures FlexibleTensor(FramedBytes(1))
    ensures var b := FramedBytes(1).bytes;
            var buffer, config := TwoInOne(b), FlexibleConfig();
            && Split(buffer.mems, config, buffer.past) == Some([b, b]) && Asserted(buffer, config)
            && |Taken(buffer, config)| == 1 && Taken(buffer, config)[0].bytes == Some(b)
  {
    hide FramedBytes, Split, Framed, Taken, TwoInOne, FlexibleConfig, Asserted;
    FramedBytesIsFlexible(1);
    SecondIsLost(FramedBytes(1).bytes);
  }

  /** A pad of a flexible stream that has received a single tensor. */
  function OneTensorPad(b: Memory): (p: Pad)
  {
    FlattenOne(b);
    Pad([], Some(TimedBuffer(0, [b], Zeros(META_SIZE))), Config(FORMAT_FLEXIBLE, [], 0, 1))
  }

  function OneTensorPads(b: Memory, n: nat): (r: seq<Pad>)
    ensures |r| == n && forall i :: 0 <= i < n ==> r[i] == OneTensorPad(b)
  {
    seq(n, _ => OneTensorPad(b))
  }

  function OneTensorLists(b: Memory, n: nat): (r: seq<seq<Item>>)
    ensures |r| == n && forall i :: 0 <= i < n ==> r[i] == [Item(b, EmptyInfo())]
  {
    seq(n, _ => [Item(b, EmptyInfo())])
  }

  lemma OneTensorCarried(b: Memory)
    requires FramedTensor(b) && |b| + HEADER_SIZE < TWO_64
    ensures OneTensorPad(b).kept.Some? && IsFlexible(OneTensorPad(b))
    ensures CarriesItems(OneTensorPad(b).kept.value, OneTensorPad(b).config, [Item(b, EmptyInfo())])
  {
    hide FramedTensor, LooksExtra;
    assert BytesOf([Item(b, EmptyInfo())]) == [b];
  }

  lemma {:induction false} OneTensorEach(b: Memory, n: nat)
    ensures |Carried(OneTensorPads(b, n), OneTensorLists(b, n))| == n
    ensures forall k :: 0 <= k < n ==>
              Carried(OneTensorPads(b, n), OneTensorLists(b, n))[k]
              == Tensor(Some(b), EmptyInfo(), IsFlexible(OneTensorPad(b)))
  {
    hide OneTensorPad, OneTensorPads, OneTensorLists, EmptyInfo;
    if n > 0 {
      OneTensorEach(b, n - 1);
      assert OneTensorPads(b, n)[..n - 1] == OneTensorPads(b, n - 1);
      assert OneTensorLists(b, n)[..n - 1] == OneTensorLists(b, n - 1);
    }
  }

  /** More than sixteen flexible pads with a tensor each: no buffer made of them gives all tensors back. */
  lemma ManyPadsDoNotReadBack(b: Memory, n: nat, out: seq<Memory>)
    requires FramedTensor(b) && |b| + HEADER_SIZE < TWO_64 && MEMORY_MAX < n <= SIZE_LIMIT
    ensures var pads, lists := OneTensorPads(b, n), OneTensorLists(b, n);
            && PadsCarry(pads, lists) && Collectable(pads) && AnyFlexible(pads)
            && AllOutgoing(Collected(pads), true)
            && var items := StoredAll(OutgoingItems(Collected(pads), true));
               && |items| == n
               && (StandsFor(out, items) ==> |out| <= MEMORY_MAX && Count(out) == n && !AllArrive(out, pads, lists))
  {
    hide CarriesItems, Collected, Collectable, OneTensorPad, AllOutgoing, StandsFor, AllArrive, Stored, Honest;
    hide Accepted, FramedTensor, TotalSize;
    var pads, lists := OneTensorPads(b, n), OneTensorLists(b, n);
    OneTensorCarried(b);
    assert IsFlexible(pads[0]);
    OneTensorEach(b, n);
    CarriedLength(pads, lists);
    OutputReadsBackIff(pads, lists, out);
  }

  /** Seventeen pads with one byte each: there is an output, and it does not give all tensors back. */
  lemma SeventeenPadsWitness()
    ensures FlexibleTensor(FramedBytes(1))
    ensures var pads, lists := OneTensorPads(FramedBytes(1).bytes, 17), OneTensorLists(FramedBytes(1).bytes, 17);
            && Collectable(pads) && AllOutgoing(Collected(pads), true)
            && var items := StoredAll(OutgoingItems(Collected(pads), true));
               && Fits(items) && |items| == 17 && StandsFor(Memories(items), items)
               && Count(Memories(items)) == 17 && !AllArrive(Memories(items), pads, lists)
  {
    hide Collected, Collectable, AllOutgoing, StandsFor, AllArrive, OneTensorPads, FramedBytes, FlexibleTensor;
    hide FramedTensor, Fits, Memories, Count, OneTensorLists;
    FramedBytesIsFlexible(1);
    var b := FramedBytes(1).bytes;
    assert FramedTensor(b) by { FlexibleIsFramed(FramedBytes(1)); }
    ManyPadsDoNotReadBack(b, 17, []);
    OneTensorSizes(b, 17);
    var items := StoredAll(OutgoingItems(Collected(OneTensorPads(b, 17)), true));
    SmallTensorsFit(items);
    MemoriesStandFor(items);
    ManyPadsDoNotReadBack(b, 17, Memories(items));
  }

  /** A static pad with seventeen one-byte tensors, packed. */
  function StaticPad(): (p: Pad)
  {
    var items := Copies(Item([0], ByteVector(1)), 17);
    StaticPadFits();
    Pad([], Some(TimedBuffer(0, Memories(items), Zeros(META_SIZE))), Config(FORMAT_STATIC, InfosOf(items), 0, 1))
  }

  lemma StaticPadFits()
    ensures var items := Copies(Item([0], ByteVector(1)), 17);
            Fits(items) && |Memories(items)| <= MEMORY_MAX && |Flatten(Memories(items))| < TWO_64
  {
    hide ByteVector, TotalSize, Flatten, Memories, Packs, InfoSize, Fits;
    var items := Copies(Item([0], ByteVector(1)), 17);
    SmallTensorsFit(items);
    MemoriesRepresent(items);
    var mems, n := Memories(items), MEMORY_MAX - 1;
    PackedLength(mems[n], items[n..]);
    SmallTensorsFit(items[n..]);
    SmallTensorsFit(items[..n]);
    assert mems == BytesOf(items[..n]) + [mems[n]];
    TotalSizeConcat(BytesOf(items[..n]), [mems[n]]);
    FlattenOne(mems[n]);
    FlattenLength(mems);
    TotalSizeBound(BytesOf(items[..n]), 1);
    TotalSizeBound(BytesOf(items[n..]), 1);
  }

  /** Packed static tensors pass through: seventeen come in, seventeen go out. */
  lemma StaticPadWitness()
    ensures var items := Copies(Item([0], ByteVector(1)), 17);
            && PadsCarry([StaticPad()], [items]) && !AnyFlexible([StaticPad()])
            && Collectable([StaticPad()]) && AllOutgoing(Collected([StaticPad()]), false)
            && var sent := StoredAll(OutgoingItems(Collected([StaticPad()]), false));
               && Fits(sent) && StandsFor(Memories(sent), sent)
               && Count(Memories(sent)) == 17 && AllArrive(Memories(sent), [StaticPad()], [items])
  {
    hide ByteVector, Memories, Fits, StandsFor, AllArrive, Collected, Collectable, Count, PadsCarry, StaticPad;
    hide AllOutgoing, TotalSize, NobodyPoses;
    var items := Copies(Item([0], ByteVector(1)), 17);
    var pads, lists := [StaticPad()], [items];
    StaticPadCarries();
    FlattenOne(items);
    StaticPadSent();
    var sent := StoredAll(OutgoingItems(Collected(pads), false));
    SmallTensorsFit(sent);
    MemoriesStandFor(sent);
    OutputReadsBackIff(pads, lists, Memories(sent));
  }

  /** What the static pad sends is what it carries. */
  lemma StaticPadSent()
    ensures var pads, lists := [StaticPad()], [Copies(Item([0], ByteVector(1)), 17)];
            && Collectable(pads) && AllOutgoing(Collected(pads), false) && NobodyPoses(pads, lists)
            && var sent := OutgoingItems(Collected(pads), false);
               |sent| == 17 && forall k :: 0 <= k < 17 ==> sent[k].bytes == [0]
  {
    hide ByteVector, Collected, Collectable, PadsCarry, AllOutgoing, TotalSize, Carried, LooksExtra, StaticPad;
    var items := Copies(Item([0], ByteVector(1)), 17);
    var pads, lists := [StaticPad()], [items];
    StaticPadCarries();
    FlattenOne(items);
    CarriedLength(pads, lists);
    StaticGoesOutSame(pads, lists);
    OneByteIsHonest();
    forall k | 0 <= k < 17 ensures Carried(pads, lists)[k] == Tensor(Some([0]), ByteVector(1), false) {
      OnePadAt(pads[0], items, k);
    }
  }

  lemma OnePadAt(p: Pad, items: seq<Item>, k: nat)
    requires k < |items|
    ensures k < |Carried([p], [items])|
    ensures Carried([p], [items])[k] == Tensor(Some(items[k].bytes), items[k].info, IsFlexible(p))
  {
    hide Carried, IsFlexible, TotalSize;
    CarriedAt([p], [items], 0, k);
    assert [items][..0] == [];
    NoTotal<Item>();
  }

  lemma OneByteIsHonest()
    ensures !LooksExtra([0])
  {
  }

  lemma StaticPadCarries()
    ensures PadsCarry([StaticPad()], [Copies(Item([0], ByteVector(1)), 17)])
    ensures StaticPad().config.format == FORMAT_STATIC && !AnyFlexible([StaticPad()])
  {
    hide ByteVector, Memories, Represents, InfoValid, InfoSize, Fits;
    var items := Copies(Item([0], ByteVector(1)), 17);
    StaticPadFits();
    MemoriesRepresent(items);
  }

  lemma FlexibleIsFramed(item: Item)
    requires FlexibleTensor(item)
    ensures FramedTensor(item.bytes)
  {
  }

  /** The tensors of the pads go out as they came. */
  lemma OneTensorSizes(b: Memory, n: nat)
    requires FramedTensor(b) && |b| + HEADER_SIZE < TWO_64 && MEMORY_MAX < n <= SIZE_LIMIT
    requires Collectable(OneTensorPads(b, n)) && AllOutgoing(Collected(OneTensorPads(b, n)), true)
    ensures forall k :: 0 <= k < |Collected(OneTensorPads(b, n))| ==>
              OutgoingItems(Collected(OneTensorPads(b, n)), true)[k].bytes == b
  {
    hide FramedTensor, CarriesItems, Collectable, AllOutgoing, WellFormed, Collected, Carried, Outgoing, SentAs;
    hide Accepted, SizesAgree, Honest, InfoSize, StoredAll, OneTensorPad, EmptyInfo;
    var pads, lists := OneTensorPads(b, n), OneTensorLists(b, n);
    OneTensorCarried(b);
    CarriedIsCollected(pads, lists);
    CarriedWellFormed(pads, lists, true);
    OneTensorEach(b, n);
    var ts := Collected(pads);
    AllGoOut(ts, true);
    forall k | 0 <= k < |ts| ensures OutgoingItems(ts, true)[k].bytes == b {
      PlainIsSame(OutgoingItems(ts, true)[k].bytes, ts[k]);
    }
  }
}
