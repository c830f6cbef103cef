/**
 What the synchroniser takes from the buffers of its pads, and the buffer it makes of it: the
 tensors of every pad, in pad order, with a header in front of static ones if some pad is
 flexible.
 */
module PadBuffers {
  import opened Bytes
  import opened Options
  import opened TensorMeta
  import opened TensorConfig
  import opened TensorBuffer
  import opened BufferSplit

  /** A valid timestamp, for which 64-bit clock differences are exact. */
  type ClockTime = t: int | 0 <= t < TWO_63

  /** The memories of a buffer; their total size is a `gsize`. */
  type MemoryList = ms: seq<Memory> | |ms| <= MEMORY_MAX && |Flatten(ms)| < TWO_64

  datatype TimedBuffer = TimedBuffer(pts: ClockTime, mems: MemoryList, past: Surroundings)

  datatype Pad = Pad(queue: seq<TimedBuffer>, kept: Option<TimedBuffer>, config: Config)

  predicate IsFlexible(p: Pad)
  {
    p.config.format == FORMAT_FLEXIBLE
  }

  predicate AnyFlexible(pads: seq<Pad>)
  {
    exists i :: 0 <= i < |pads| && IsFlexible(pads[i])
  }

  // ----- taking the tensors of a pad -----

  /** One entry of the list of collected memories; a missing memory is kept as such. */
  datatype Tensor = Tensor(bytes: Option<Block>, info: TensorInfo, flexible: bool)

  /** `gst_tensors_info_get_nth_info`: entries beyond the number of tensors are initialised. */
  function InfoAt(config: Config, k: nat): TensorInfo
  {
    if k < |config.infos| then config.infos[k] else EmptyInfo()
  }

  lemma SplitIsSmall(mems: seq<Memory>, config: Config, past: Block)
    requires |past| >= META_SIZE && |mems| <= MEMORY_MAX && |Flatten(mems)| < TWO_64
    ensures var r := Split(mems, config, past);
            r.Some? ==> |r.value| <= MEMORY_MAX && forall k :: 0 <= k < |r.value| ==> |r.value[k]| < TWO_64
  {
    hide Flatten, ScanSizes, ConfigValid, InfoSize, WrapSum, Cut;
    var r := Split(mems, config, past);
    if r.Some? && r.value != mems {
      var sizes := if config.format == FORMAT_STATIC then StaticSizes(config.infos)
                   else ScanSizes(Flatten(mems), past, 0, 0);
      CutSound(Flatten(mems), sizes, 0);
      assert sizes == Lengths(r.value);
    }
  }

  /** Memory `k` of a buffer that was matched with its configuration first. */
  function MemoryOf(b: TimedBuffer, config: Config, k: nat): Option<Block>
    requires k < SIZE_LIMIT
  {
    SplitIsSmall(b.mems, config, b.past);
    match Split(b.mems, config, b.past)
    case None => None
    case Some(out) => GetNth(out, k)
  }

  /** The two assertions of the source hold for this buffer: the number of tensors is right and not too large. */
  predicate Asserted(b: TimedBuffer, config: Config)
  {
    Count(b.mems) <= SIZE_LIMIT && (config.format == FORMAT_STATIC ==> Count(b.mems) == |config.infos|)
  }

  /** The tensors of one buffer. Their number is determined before the buffer is matched with its configuration. */
  function Taken(b: TimedBuffer, config: Config): (r: seq<Tensor>)
    requires Asserted(b, config)
    ensures |r| == Count(b.mems)
    ensures forall k :: 0 <= k < |r| ==>
              r[k] == Tensor(MemoryOf(b, config, k), InfoAt(config, k), config.format == FORMAT_FLEXIBLE)
  {
    seq(Count(b.mems), k requires 0 <= k < Count(b.mems) =>
      Tensor(MemoryOf(b, config, k), InfoAt(config, k), config.format == FORMAT_FLEXIBLE))
  }

  /** Every kept buffer passes the assertions. */
  predicate Collectable(pads: seq<Pad>)
  {
    forall i :: 0 <= i < |pads| ==> CollectableFrom(pads[i])
  }

  predicate CollectableFrom(p: Pad)
  {
    p.kept.Some? ==> Asserted(p.kept.value, p.config)
  }

  /** A pad without a buffer contributes nothing. */
  function TakenFrom(p: Pad): (r: seq<Tensor>)
    requires CollectableFrom(p)
  {
    if p.kept.None? then [] else Taken(p.kept.value, p.config)
  }

  /** The tensors of all kept buffers, in pad order. */
  function Collected(pads: seq<Pad>): (r: seq<Tensor>)
    requires Collectable(pads)
  {
    if pads == [] then []
    else
      var n := |pads| - 1;
      Collected(pads[..n]) + TakenFrom(pads[n])
  }

  // ----- the outgoing tensors -----

  /** A collected tensor as it is appended to the output, if there is one and it can be allocated. */
  function Outgoing(t: Tensor, anyFlexible: bool): Option<Item>
  {
    if t.bytes.None? || |t.bytes.value| + HEADER_SIZE >= TWO_64 then None
    else if anyFlexible && !t.flexible then
      if MetaValid(FromInfo(t.info)) then Some(Item(EncodeHeader(FromInfo(t.info)) + t.bytes.value, t.info)) else None
    else Some(Item(t.bytes.value, t.info))
  }

  predicate AllOutgoing(ts: seq<Tensor>, anyFlexible: bool)
  {
    forall k :: 0 <= k < |ts| ==> Outgoing(ts[k], anyFlexible).Some?
  }

  function OutgoingItems(ts: seq<Tensor>, anyFlexible: bool): (r: seq<Item>)
    requires AllOutgoing(ts, anyFlexible)
    ensures |r| == |ts|
    ensures forall k :: 0 <= k < |ts| ==> r[k] == Outgoing(ts[k], anyFlexible).value
  {
    seq(|ts|, k requires 0 <= k < |ts| => Outgoing(ts[k], anyFlexible).value)
  }

  /** Nothing stands in the way of the appends: all blocks are there and accepted, and the packed part fits. */
  predicate Appendable(ts: seq<Tensor>, anyFlexible: bool)
  {
    && AllOutgoing(ts, anyFlexible)
    && var items := OutgoingItems(ts, anyFlexible);
       && (forall k :: 0 <= k < |items| ==> Accepted(items[k].bytes, items[k].info))
       && (|items| <= MEMORY_MAX || (Sound(StoredAll(items)) && Fits(items)))
  }

  // ----- pads that carry well-formed buffers -----

  /**
   The buffer stands for `items` in a stream of the configuration: static tensors of the announced
   descriptions, packed or not; or up to sixteen framed tensors of a flexible stream.
   */
  ghost predicate CarriesItems(b: TimedBuffer, config: Config, items: seq<Item>)
  {
    && Represents(b.mems, items) && Honest(items) && ConfigValid(config)
    && (forall k :: 0 <= k < |items| ==> |items[k].bytes| + HEADER_SIZE < TWO_64)
    && if config.format == FORMAT_STATIC then
         && config.infos == InfosOf(items) && AllSizesAgree(items)
         && forall k :: 0 <= k < |items| ==> items[k].info.elementType < TYPE_END && Stored(items[k]) == items[k]
       else
         && config.format == FORMAT_FLEXIBLE && config.infos == [] && |items| <= MEMORY_MAX
         && forall k :: 0 <= k < |items| ==> FramedTensor(items[k].bytes) && items[k].info == EmptyInfo()
  }

  /** A header of the flexible format, or of the static format that the synchroniser itself writes, and its data. */
  predicate FramedTensor(b: Block)
  {
    Framed(b) && ParseHeader(b).format != FORMAT_SPARSE
  }

  lemma CarriedPassesSplit(b: TimedBuffer, config: Config, items: seq<Item>)
    requires CarriesItems(b, config, items)
    ensures Split(b.mems, config, b.past) == Some(b.mems)
  {
    hide Cut, StaticSizes, ScanSizes, InfoSize, ConfigValid, Framed, Honest, Stored, Flatten, Packs, Accepted;
    if config.format == FORMAT_STATIC {
      if |b.mems| != |items| {
        ResplitUndoesFlatten(b.mems, items, config, b.mems, b.past);
      }
    } else if |b.mems| <= 1 {
      if |b.mems| == 1 {
        assert Framed(items[0].bytes) && b.mems == [items[0].bytes];
        FlattenOne(b.mems[0]);
        FlexibleSplitInverts(b.mems, config, b.past);
      } else {
        NothingSplits(b, config);
      }
    }
  }

  lemma NothingSplits(b: TimedBuffer, config: Config)
    requires b.mems == [] && ConfigValid(config) && config.format != FORMAT_STATIC
    ensures Split(b.mems, config, b.past) == Some([])
  {
  }

  /** From a well-formed buffer exactly its tensors are taken, packed ones included. */
  lemma CarriedIsTaken(b: TimedBuffer, config: Config, items: seq<Item>)
    requires CarriesItems(b, config, items)
    ensures Asserted(b, config) && |Taken(b, config)| == |items|
    ensures forall k :: 0 <= k < |items| ==>
              Taken(b, config)[k] == Tensor(Some(items[k].bytes), items[k].info, config.format == FORMAT_FLEXIBLE)
  {
    hide Split, InfoSize, ConfigValid, Framed, Stored, Represents, LooksExtra, GetNth;
    CarriedPassesSplit(b, config, items);
    ReadsBackIff(b.mems, items);
  }

  /**
   The number of tensors is taken from the buffer as it arrived. A buffer of framed tensors that
   arrives in one memory is cut into its tensors, but only the first of them is collected.
   */
  lemma OnlyFirstOfFlattened(b: TimedBuffer, config: Config, bs: seq<Block>)
    requires ConfigValid(config) && config.format == FORMAT_FLEXIBLE
    requires bs != [] && Framing(bs) && b.mems == [Flatten(bs)]
    ensures Split(b.mems, config, b.past) == Some(bs)
    ensures Asserted(b, config) && |Taken(b, config)| == 1 && Taken(b, config)[0].bytes == Some(bs[0])
    ensures |Taken(b, config)| == |bs| <==> |bs| == 1
  {
    hide Split, Flatten, ConfigValid, Framed, LooksExtra;
    FlattenOne(Flatten(bs));
    FlexibleSplitInverts(bs, config, b.past);
    SplitIsSmall(b.mems, config, b.past);
  }

  /**
   A static buffer of several tensors that arrives in one memory would be cut back into its
   memories, but the assertion on the number of tensors stops the process.
   */
  lemma FlattenedStaticStops(b: TimedBuffer, config: Config, mems: MemoryList, items: seq<Item>)
    requires Represents(mems, items) && AllSizesAgree(items) && |items| > 1
    requires ConfigValid(config) && config.format == FORMAT_STATIC && config.infos == InfosOf(items)
    requires b.mems == [Flatten(mems)]
    ensures Split(b.mems, config, b.past) == Some(mems) && !Asserted(b, config)
  {
    hide Represents, AllSizesAgree, ConfigValid, Flatten, Split;
    FlattenOne(Flatten(mems));
    ResplitUndoesFlatten(mems, items, config, b.mems, b.past);
  }

  // ----- the output of well-formed pads -----

  ghost predicate PadsCarry(pads: seq<Pad>, lists: seq<seq<Item>>)
  {
    && |lists| == |pads|
    && forall i :: 0 <= i < |pads| ==>
         pads[i].kept.Some? && CarriesItems(pads[i].kept.value, pads[i].config, lists[i])
  }

  function TensorsOf(items: seq<Item>, flexible: bool): (r: seq<Tensor>)
    ensures |r| == |items|
    ensures forall k :: 0 <= k < |r| ==> r[k] == Tensor(Some(items[k].bytes), items[k].info, flexible)
  {
    seq(|items|, k requires 0 <= k < |items| => Tensor(Some(items[k].bytes), items[k].info, flexible))
  }

  /** The carried tensors of all pads, in pad order. */
  function Carried(pads: seq<Pad>, lists: seq<seq<Item>>): (r: seq<Tensor>)
    requires |lists| == |pads|
  {
    if pads == [] then []
    else
      var n := |pads| - 1;
      Carried(pads[..n], lists[..n]) + TensorsOf(lists[n], IsFlexible(pads[n]))
  }

  lemma {:induction false} CarriedLength(pads: seq<Pad>, lists: seq<seq<Item>>)
    requires |lists| == |pads|
    ensures |Carried(pads, lists)| == TotalSize(lists)
  {
    hide TotalSize;
    if pads == [] {
      assert lists == [];
      NoTotal<Item>();
    } else {
      var n := |pads| - 1;
      CarriedLength(pads[..n], lists[..n]);
      TotalSizeStep(lists, n);
      assert lists[..n + 1] == lists;
    }
  }

  lemma NoTotal<T>()
    ensures TotalSize<T>([]) == 0
  {
  }

  /** Tensor `j` of pad `i` comes behind all tensors of the pads before and the ones before it on its pad. */
  lemma {:induction false} CarriedAt(pads: seq<Pad>, lists: seq<seq<Item>>, i: nat, j: nat)
    requires |lists| == |pads| && i < |pads| && j < |lists[i]|
    ensures var k := TotalSize(lists[..i]) + j;
            && k < |Carried(pads, lists)|
            && Carried(pads, lists)[k] == Tensor(Some(lists[i][j].bytes), lists[i][j].info, IsFlexible(pads[i]))
  {
    hide TotalSize, IsFlexible;
    var n := |pads| - 1;
    CarriedLength(pads[..n], lists[..n]);
    if i < n {
      CarriedAt(pads[..n], lists[..n], i, j);
      assert lists[..n][..i] == lists[..i];
    }
  }

  /** Every position belongs to a tensor of a pad. */
  lemma {:induction false} PadOf(lists: seq<seq<Item>>, k: nat) returns (i: nat, j: nat)
    requires k < TotalSize(lists)
    ensures i < |lists| && j < |lists[i]| && TotalSize(lists[..i]) + j == k
  {
    if k < |lists[0]| {
      i, j := 0, k;
    } else {
      i, j := PadOf(lists[1..], k - |lists[0]|);
      i := i + 1;
      assert lists[..i][1..] == lists[1..][..i - 1];
    }
  }

  lemma TakenIsCarried(p: Pad, items: seq<Item>)
    requires p.kept.Some? && CarriesItems(p.kept.value, p.config, items)
    ensures CollectableFrom(p) && TakenFrom(p) == TensorsOf(items, IsFlexible(p))
  {
    hide CarriesItems, Taken, Asserted;
    CarriedIsTaken(p.kept.value, p.config, items);
  }

  /** Nothing is lost or reordered between the pads and the appends. */
  lemma {:induction false} CarriedIsCollected(pads: seq<Pad>, lists: seq<seq<Item>>)
    requires PadsCarry(pads, lists)
    ensures Collectable(pads) && Collected(pads) == Carried(pads, lists)
  {
    hide CollectableFrom, CarriesItems, TakenFrom, TensorsOf, IsFlexible;
    forall i | 0 <= i < |pads| ensures CollectableFrom(pads[i]) {
      TakenIsCarried(pads[i], lists[i]);
    }
    if pads != [] {
      var n := |pads| - 1;
      CarriedIsCollected(pads[..n], lists[..n]);
      TakenIsCarried(pads[n], lists[n]);
    }
  }

  /** A static tensor of its announced size, or a framed tensor. */
  predicate WellFormed(t: Tensor, anyFlexible: bool)
  {
    && t.bytes.Some? && |t.bytes.value| + HEADER_SIZE < TWO_64
    && if t.flexible then anyFlexible && FramedTensor(t.bytes.value) && t.info == EmptyInfo()
       else
         && InfoValid(t.info) && t.info.elementType < TYPE_END && InfoSize(t.info) == |t.bytes.value|
         && StoredInfo(t.bytes.value, t.info) == t.info
  }

  lemma {:induction false} CarriedWellFormed(pads: seq<Pad>, lists: seq<seq<Item>>, anyFlexible: bool)
    requires PadsCarry(pads, lists) && forall i :: 0 <= i < |pads| && IsFlexible(pads[i]) ==> anyFlexible
    ensures forall k :: 0 <= k < |Carried(pads, lists)| ==> WellFormed(Carried(pads, lists)[k], anyFlexible)
  {
    hide Represents, Honest, FramedTensor, InfoValid, InfoSize, StoredInfo;
    if pads != [] {
      var n := |pads| - 1;
      CarriedWellFormed(pads[..n], lists[..n], anyFlexible);
      var p, items := pads[n], lists[n];
      forall k | 0 <= k < |items| ensures WellFormed(TensorsOf(items, IsFlexible(p))[k], anyFlexible) {
        if !IsFlexible(p) {
          assert Stored(items[k]) == items[k];
          assert p.config.infos[k] == items[k].info && InfoValid(p.config.infos[k]);
        }
      }
    }
  }

  /** A header in front of the data makes the block longer than any recorded description says. */
  lemma FramedDisagrees(b: Block, info: TensorInfo)
    requires FramedTensor(b) && (info == ToInfo(ParseHeader(b)) || info == EmptyInfo())
    ensures InfoSize(info) != |b|
  {
    hide ParseHeader, ElementSize, DimensionValid, VersionOne, VersionValid;
    if info == EmptyInfo() {
      assert Rank(info.dimension) == 0;
      assert InfoSize(info) == 0;
    }
  }

  lemma FramedIsHonest(b: Block)
    requires FramedTensor(b)
    ensures !LooksExtra(b) && HasHeader(b)
  {
    hide DimensionValid, DataSize, WordsAt, VersionValid, VersionOne;
    assert ParseHeader(b).magic == META_MAGIC != EXTRA_MAGIC;
  }

  /** A converted tensor is framed, describes itself and ends in the original bytes. */
  lemma ConvertedIsFramed(info: TensorInfo, bytes: Block)
    requires InfoValid(info) && info.elementType < TYPE_END && InfoSize(info) == |bytes|
    ensures var b := EncodeHeader(FromInfo(info)) + bytes;
            && FramedTensor(b) && ParseHeader(b).format == FORMAT_STATIC
            && ToInfo(ParseHeader(b)) == info && b[HEADER_SIZE..] == bytes
  {
    hide InfoValid, ElementCount, ElementSize;
    AppendedHeaderFrames(FromInfo(info), bytes);
  }

  /** The block that a tensor becomes: itself, or behind a header that describes it. */
  predicate SentAs(b: Block, bytes: Block, info: TensorInfo, converted: bool)
  {
    if converted then
      && |b| == HEADER_SIZE + |bytes| && b[HEADER_SIZE..] == bytes
      && HasHeader(b) && ToInfo(ParseHeader(b)) == info && ParseHeader(b).format == FORMAT_STATIC
    else b == bytes
  }

  /** Every well-formed tensor goes out whole; a static one in a flexible stream behind a header. */
  lemma OutgoingKeepsBytes(t: Tensor, anyFlexible: bool)
    requires WellFormed(t, anyFlexible)
    ensures Outgoing(t, anyFlexible).Some?
    ensures SentAs(Outgoing(t, anyFlexible).value.bytes, t.bytes.value, t.info, anyFlexible && !t.flexible)
  {
    hide InfoValid, InfoSize, ParseHeader, EncodeHeader, MetaValid, FramedTensor, HasHeader, StoredInfo;
    if anyFlexible && !t.flexible {
      ConvertedIsFramed(t.info, t.bytes.value);
      FramedIsHonest(EncodeHeader(FromInfo(t.info)) + t.bytes.value);
    }
  }

  /** A missing memory, or a static tensor without a valid description in a flexible stream, goes nowhere. */
  lemma OutgoingRefuses(t: Tensor, anyFlexible: bool)
    ensures t.bytes == None ==> Outgoing(t, anyFlexible) == None
    ensures anyFlexible && !t.flexible && !InfoValid(t.info) ==> Outgoing(t, anyFlexible) == None
  {
    hide DimensionValid;
  }

  /** How the recorded descriptions of outgoing tensors relate to their sizes. */
  lemma WellFormedGoesOut(t: Tensor, anyFlexible: bool)
    requires WellFormed(t, anyFlexible)
    ensures Outgoing(t, anyFlexible).Some?
    ensures var item := Outgoing(t, anyFlexible).value;
            && Accepted(item.bytes, item.info)
            && (if anyFlexible then !LooksExtra(item.bytes) && InfoSize(Stored(item).info) != |item.bytes|
                else Stored(item) == item && InfoSize(item.info) == |item.bytes|)
  {
    hide InfoValid, InfoSize, ParseHeader, EncodeHeader, MetaValid, LooksExtra, FramedTensor, HasHeader;
    if anyFlexible {
      if !t.flexible {
        ConvertedIsFramed(t.info, t.bytes.value);
      }
      var item := Outgoing(t, anyFlexible).value;
      FramedIsHonest(item.bytes);
      FramedDisagrees(item.bytes, Stored(item).info);
    }
  }

  lemma AllGoOut(ts: seq<Tensor>, anyFlexible: bool)
    requires forall k :: 0 <= k < |ts| ==> WellFormed(ts[k], anyFlexible)
    ensures AllOutgoing(ts, anyFlexible)
    ensures var items := OutgoingItems(ts, anyFlexible);
            && (forall k :: 0 <= k < |items| ==> Accepted(items[k].bytes, items[k].info))
            && (anyFlexible ==> Honest(StoredAll(items)))
            && (SizesAgree(StoredAll(items)) <==> !anyFlexible || |items| <= MEMORY_MAX)
            && (forall k :: 0 <= k < |ts| ==>
                  && ts[k].bytes.Some?
                  && SentAs(items[k].bytes, ts[k].bytes.value, ts[k].info, anyFlexible && !ts[k].flexible))
            && (anyFlexible ==> forall k :: 0 <= k < |items| ==>
                  InfoSize(StoredAll(items)[k].info) != |items[k].bytes|)
  {
    hide WellFormed, Outgoing, Accepted, LooksExtra, InfoSize, StoredInfo, SentAs;
    forall k | 0 <= k < |ts|
      ensures Outgoing(ts[k], anyFlexible).Some? && ts[k].bytes.Some?
      ensures var item := Outgoing(ts[k], anyFlexible).value;
              && Accepted(item.bytes, item.info)
              && (if anyFlexible then !LooksExtra(item.bytes) && InfoSize(Stored(item).info) != |item.bytes|
                  else Stored(item) == item && InfoSize(item.info) == |item.bytes|)
              && SentAs(item.bytes, ts[k].bytes.value, ts[k].info, anyFlexible && !ts[k].flexible)
    {
      WellFormedGoesOut(ts[k], anyFlexible);
      HasBytes(ts[k], anyFlexible);
      OutgoingKeepsBytes(ts[k], anyFlexible);
    }
    var items := OutgoingItems(ts, anyFlexible);
    if anyFlexible && |items| > MEMORY_MAX {
      assert InfoSize(StoredAll(items)[MEMORY_MAX].info) != |StoredAll(items)[MEMORY_MAX].bytes|;
    }
  }

  lemma HasBytes(t: Tensor, anyFlexible: bool)
    requires WellFormed(t, anyFlexible)
    ensures t.bytes.Some?
  {
  }

  /** What is read at position `k` of a buffer is the given tensor, as it was sent. */
  predicate Arrives(out: seq<Memory>, k: nat, item: Item, converted: bool)
    requires |out| <= MEMORY_MAX
  {
    && k < SIZE_LIMIT
    && match GetNth(out, k)
       case None => false
       case Some(b) => SentAs(b, item.bytes, item.info, converted)
  }

  /** Every tensor of every pad is read from the output, in pad order. */
  ghost predicate AllArrive(out: seq<Memory>, pads: seq<Pad>, lists: seq<seq<Item>>)
    requires |out| <= MEMORY_MAX && |lists| == |pads|
  {
    forall i, j :: 0 <= i < |pads| && 0 <= j < |lists[i]| ==>
      Arrives(out, TotalSize(lists[..i]) + j, lists[i][j], AnyFlexible(pads) && !IsFlexible(pads[i]))
  }

  /** The sixteenth tensor of the output does not pose as packed; in a flexible stream none does. */
  predicate NobodyPoses(pads: seq<Pad>, lists: seq<seq<Item>>)
    requires |lists| == |pads|
  {
    AnyFlexible(pads)
    || (|Carried(pads, lists)| >= MEMORY_MAX ==>
          var t := Carried(pads, lists)[MEMORY_MAX - 1]; t.bytes.Some? && !LooksExtra(t.bytes.value))
  }

  /**
   The output made of well-formed pads: nothing stands in the way of the appends; the number of
   tensors is always right; and every tensor of every pad is read from the output, at its place in
   pad order, with its own bytes or behind a header that describes it, if and only if no pad is
   flexible or there are at most sixteen tensors.
   */
  lemma OutputReadsBackIff(pads: seq<Pad>, lists: seq<seq<Item>>, out: seq<Memory>)
    requires PadsCarry(pads, lists) && TotalSize(lists) <= SIZE_LIMIT
    ensures Collectable(pads) && AllOutgoing(Collected(pads), AnyFlexible(pads))
    ensures var items := OutgoingItems(Collected(pads), AnyFlexible(pads));
            && |items| == TotalSize(lists)
            && (forall k :: 0 <= k < |items| ==> Accepted(items[k].bytes, items[k].info))
            && (NobodyPoses(pads, lists) ==> Honest(StoredAll(items)))
            && (NobodyPoses(pads, lists) && StandsFor(out, StoredAll(items)) ==>
                  && |out| <= MEMORY_MAX && Count(out) == TotalSize(lists)
                  && (AllArrive(out, pads, lists) <==> !AnyFlexible(pads) || TotalSize(lists) <= MEMORY_MAX))
  {
    hide CarriesItems, WellFormed, Outgoing, Accepted, ReadsBack, Represents, StoredInfo, Collectable, TotalSize;
    hide SentAs, LooksExtra, InfoSize, IsFlexible, Carried;
    var any := AnyFlexible(pads);
    CarriedIsCollected(pads, lists);
    CarriedWellFormed(pads, lists, any);
    AllGoOut(Collected(pads), any);
    CarriedLength(pads, lists);
    var ts := Carried(pads, lists);
    var items := OutgoingItems(ts, any);
    if NobodyPoses(pads, lists) && !any && |items| >= MEMORY_MAX {
      PlainIsSame(items[MEMORY_MAX - 1].bytes, ts[MEMORY_MAX - 1]);
    }
    if NobodyPoses(pads, lists) && StandsFor(out, StoredAll(items)) {
      if !any || |items| <= MEMORY_MAX {
        WholeArrive(pads, lists, out, items);
      } else {
        CutDoesNotArrive(pads, lists, out, items);
      }
    }
  }

  lemma PlainIsSame(b: Block, t: Tensor)
    requires t.bytes.Some? && SentAs(b, t.bytes.value, t.info, false)
    ensures b == t.bytes.value
  {
  }

  lemma WholeArrive(pads: seq<Pad>, lists: seq<seq<Item>>, out: seq<Memory>, items: seq<Item>)
    requires |lists| == |pads| && |items| == |Carried(pads, lists)| <= SIZE_LIMIT && |out| <= MEMORY_MAX
    requires Count(out) == |items| && ReadsBack(out, StoredAll(items))
    requires forall k :: 0 <= k < |items| ==>
      var t := Carried(pads, lists)[k];
      t.bytes.Some? && SentAs(items[k].bytes, t.bytes.value, t.info, AnyFlexible(pads) && !t.flexible)
    ensures AllArrive(out, pads, lists)
  {
    hide SentAs, TotalSize, StoredInfo, GetNth, Count, IsFlexible, Carried;
    forall i, j | 0 <= i < |pads| && 0 <= j < |lists[i]|
      ensures Arrives(out, TotalSize(lists[..i]) + j, lists[i][j], AnyFlexible(pads) && !IsFlexible(pads[i]))
    {
      CarriedAt(pads, lists, i, j);
      var k := TotalSize(lists[..i]) + j;
      assert GetNth(out, k) == Some(StoredAll(items)[k].bytes);
    }
  }

  /** The seventeenth tensor of a flexible output is read with another length than it was sent with. */
  lemma CutDoesNotArrive(pads: seq<Pad>, lists: seq<seq<Item>>, out: seq<Memory>, items: seq<Item>)
    requires |lists| == |pads| && MEMORY_MAX < |items| == |Carried(pads, lists)| <= SIZE_LIMIT
    requires Represents(out, StoredAll(items)) && Honest(StoredAll(items)) && |out| <= MEMORY_MAX
    requires InfoSize(StoredAll(items)[MEMORY_MAX].info) != |items[MEMORY_MAX].bytes|
    requires forall k :: 0 <= k < |items| ==>
      var t := Carried(pads, lists)[k];
      t.bytes.Some? && SentAs(items[k].bytes, t.bytes.value, t.info, AnyFlexible(pads) && !t.flexible)
    ensures !AllArrive(out, pads, lists)
  {
    hide Represents, InfoSize, StoredInfo, GetNth, IsFlexible, TotalSize, HasHeader, ParseHeader, Carried;
    CarriedLength(pads, lists);
    var i, j := PadOf(lists, MEMORY_MAX);
    CarriedAt(pads, lists, i, j);
    PackedWindow(out, StoredAll(items), MEMORY_MAX);
    assert !Arrives(out, TotalSize(lists[..i]) + j, lists[i][j], AnyFlexible(pads) && !IsFlexible(pads[i]));
  }

  /** A packed tensor is read with the length that its recorded description computes to. */
  lemma PackedWindow(mems: seq<Memory>, items: seq<Item>, k: nat)
    requires Represents(mems, items) && Honest(items) && MEMORY_MAX <= k < |items|
    ensures |mems| <= MEMORY_MAX && k < SIZE_LIMIT
    ensures GetNth(mems, k).Some? ==> |GetNth(mems, k).value| == InfoSize(items[k].info)
  {
    hide InfoSize, ExtraInfo, ExtraOffset, Flatten, Get32, Get64;
    CountIsLength(mems, items);
    assert ExtraInfo(mems[MEMORY_MAX - 1], k - MEMORY_MAX) == items[MEMORY_MAX - 1..][1 + (k - MEMORY_MAX)].info;
  }

  /** Without flexible pads the tensors go out exactly as they came. */
  lemma StaticGoesOutSame(pads: seq<Pad>, lists: seq<seq<Item>>)
    requires PadsCarry(pads, lists) && !AnyFlexible(pads)
    ensures Collectable(pads) && AllOutgoing(Collected(pads), false)
    ensures var sent, ts := OutgoingItems(Collected(pads), false), Carried(pads, lists);
            |sent| == |ts| && forall k :: 0 <= k < |ts| ==> ts[k].bytes == Some(sent[k].bytes)
  {
    hide Collectable, Collected, CarriesItems, AllOutgoing, Carried, SentAs, WellFormed, Outgoing, Accepted, IsFlexible;
    hide SizesAgree, Honest, InfoSize, StoredAll;
    CarriedIsCollected(pads, lists);
    CarriedWellFormed(pads, lists, false);
    var ts := Carried(pads, lists);
    AllGoOut(ts, false);
    forall k | 0 <= k < |ts| ensures ts[k].bytes == Some(OutgoingItems(ts, false)[k].bytes) {
      PlainIsSame(OutgoingItems(ts, false)[k].bytes, ts[k]);
    }
  }

  /**
   What is cut from a packed tensor of a flexible output: the length of its header, if the header
   is of the flexible format or was added by the synchroniser; everything, if a flexible pad
   delivered it with a header of the static format.
   */
  lemma PackedIsCut(t: Tensor, out: seq<Memory>, items: seq<Item>, k: nat)
    requires MEMORY_MAX <= k < |items| && Represents(out, StoredAll(items)) && Honest(StoredAll(items))
    requires WellFormed(t, true) && Outgoing(t, true).Some? && items[k] == Outgoing(t, true).value
    ensures |out| <= MEMORY_MAX && k < SIZE_LIMIT
    ensures GetNth(out, k).Some? ==>
              var length := |GetNth(out, k).value|;
              if t.flexible && ParseHeader(t.bytes.value).format == FORMAT_STATIC then length == 0
              else length == |items[k].bytes| - HEADER_SIZE
  {
    hide Represents, InfoValid, InfoSize, ParseHeader, EncodeHeader, MetaValid, GetNth, HasHeader, VersionOne, DataSize;
    PackedWindow(out, StoredAll(items), k);
    if !t.flexible {
      ConvertedIsFramed(t.info, t.bytes.value);
    }
    FramedIsHonest(items[k].bytes);
    FramedLength(items[k].bytes);
    assert InfoSize(EmptyInfo()) == 0 by { NoRankNoSize(EmptyInfo()); }
  }

  lemma FramedLength(b: Block)
    requires FramedTensor(b)
    ensures |b| == HEADER_SIZE + InfoSize(ToInfo(ParseHeader(b)))
  {
    hide ElementCount, ElementSize, DimensionValid, VersionOne, WordsAt;
  }
}
