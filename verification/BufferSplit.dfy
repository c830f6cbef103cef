/**
 `gst_tensor_buffer_from_config`: a buffer whose memories do not match the stream is cut
 again into one memory per tensor, by the sizes of a static configuration or by the
 headers found in the data.
 */
module BufferSplit {
  import opened Bytes
  import opened Options
  import opened TensorMeta
  import opened TensorConfig
  import opened TensorBuffer

  // ----- sizes of the pieces -----

  function InfoSizes(infos: seq<TensorInfo>): (r: seq<Word64>)
    ensures |r| == |infos|
    ensures forall k :: 0 <= k < |infos| ==> r[k] == InfoSize(infos[k])
  {
    seq(|infos|, k requires 0 <= k < |infos| => InfoSize(infos[k]))
  }

  /** The 64-bit sum of a list of sizes, added one after the other to `start`. */
  function WrapSum(start: Word64, sizes: seq<Word64>): (r: Word64)
  {
    if sizes == [] then start else Wrap64(WrapSum(start, sizes[..|sizes| - 1]) + sizes[|sizes| - 1])
  }

  /** One piece per tensor; the last of MEMORY_MAX pieces takes the extra header and all further tensors. */
  function StaticSizes(infos: seq<TensorInfo>): (r: seq<Word64>)
  {
    if |infos| <= MEMORY_MAX then InfoSizes(infos)
    else
      InfoSizes(infos[..MEMORY_MAX - 1])
      + [WrapSum(Wrap64(InfoSize(infos[MEMORY_MAX - 1]) + EXTRA_SIZE), InfoSizes(infos[MEMORY_MAX..]))]
  }

  /** Header and data size announced at `offset`. `past` is what lies in memory behind the block. */
  function PieceSize(data: Block, past: Block, offset: nat): (n: Word64)
    requires offset < |data| && |past| >= META_SIZE
  {
    var meta := ParseHeader((data + past)[offset..]);
    Wrap64(HeaderSize(meta) + DataSize(meta))
  }

  /** The sizes found by following headers from `offset`, with `num` pieces already found. */
  function ScanSizes(data: Block, past: Block, offset: Word64, num: nat): (r: seq<Word64>)
    requires |past| >= META_SIZE && |data| < TWO_64 && num < MEMORY_MAX
    ensures num + |r| <= MEMORY_MAX
    decreases MEMORY_MAX - num
  {
    if offset >= |data| then []
    else if num == MEMORY_MAX - 1 then [|data| - offset]
    else
      var size := PieceSize(data, past, offset);
      [size] + ScanSizes(data, past, Wrap64(offset + size), num + 1)
  }

  /** Consecutive pieces of the given sizes, if the data is long enough. */
  function Cut(data: Block, sizes: seq<Word64>, offset: Word64): Option<seq<Block>>
    decreases |sizes|
  {
    if sizes == [] then Some([])
    else if Wrap64(offset + sizes[0]) > |data| then None
    else
      match Share(data, offset, sizes[0])
      case None => None
      case Some(piece) =>
        match Cut(data, sizes[1..], Wrap64(offset + sizes[0]))
        case None => None
        case Some(rest) => Some([piece] + rest)
  }

  function Split(mems: seq<Block>, config: Config, past: Block): Option<seq<Block>>
    requires |past| >= META_SIZE && |Flatten(mems)| < TWO_64
  {
    if !ConfigValid(config) then None
    else if config.format == FORMAT_STATIC then
      if |mems| == |config.infos| then Some(mems)
      else Cut(Flatten(mems), StaticSizes(config.infos), 0)
    else if |mems| > 1 then Some(mems)
    else
      var sizes := ScanSizes(Flatten(mems), past, 0, 0);
      if |sizes| == 1 then Some(mems) else Cut(Flatten(mems), sizes, 0)
  }

  // ----- the loops of the source -----

  method ComputeStaticSizes(infos: seq<TensorInfo>) returns (sizes: seq<Word64>)
    ensures sizes == StaticSizes(infos)
  {
    hide InfoSize;
    var num := if |infos| > MEMORY_MAX then MEMORY_MAX else |infos|;
    sizes := [];
    for i := 0 to num
      invariant sizes == InfoSizes(infos[..i])
    {
      sizes := sizes + [InfoSize(infos[i])];
    }
    if |infos| > MEMORY_MAX {
      var last := Wrap64(sizes[num - 1] + EXTRA_SIZE);
      ghost var start := last;
      for i := num to |infos|
        invariant last == WrapSum(start, InfoSizes(infos[MEMORY_MAX..i]))
      {
        ghost var all := InfoSizes(infos[MEMORY_MAX..i + 1]);
        assert all[..|all| - 1] == InfoSizes(infos[MEMORY_MAX..i]);
        last := Wrap64(last + InfoSize(infos[i]));
      }
      assert infos[MEMORY_MAX..|infos|] == infos[MEMORY_MAX..];
      sizes := sizes[num - 1 := last];
    } else {
      assert infos[..num] == infos;
    }
  }

  lemma ScanStep(data: Block, past: Block, offset: Word64, num: nat)
    requires |past| >= META_SIZE && |data| < TWO_64 && num < MEMORY_MAX
    ensures offset >= |data| ==> ScanSizes(data, past, offset, num) == []
    ensures offset < |data| && num == MEMORY_MAX - 1 ==> ScanSizes(data, past, offset, num) == [|data| - offset]
    ensures offset < |data| && num < MEMORY_MAX - 1 ==>
              var size := PieceSize(data, past, offset);
              ScanSizes(data, past, offset, num) == [size] + ScanSizes(data, past, Wrap64(offset + size), num + 1)
  {
  }

  method ComputeScanSizes(data: Block, past: Block) returns (sizes: seq<Word64>)
    requires |past| >= META_SIZE && |data| < TWO_64
    ensures sizes == ScanSizes(data, past, 0, 0)
  {
    hide PieceSize, Wrap64, ScanSizes;
    sizes := [];
    var offset: Word64 := 0;
    assert [] + ScanSizes(data, past, 0, 0) == ScanSizes(data, past, 0, 0);
    while offset < |data|
      invariant |sizes| < MEMORY_MAX
      invariant sizes + ScanSizes(data, past, offset, |sizes|) == ScanSizes(data, past, 0, 0)
      decreases MEMORY_MAX - |sizes|
    {
      ScanStep(data, past, offset, |sizes|);
      if |sizes| >= MEMORY_MAX - 1 {
        sizes := sizes + [|data| - offset];
        return;
      }
      var size := PieceSize(data, past, offset);
      Associative(sizes, [size], ScanSizes(data, past, Wrap64(offset + size), |sizes| + 1));
      sizes := sizes + [size];
      offset := Wrap64(offset + size);
    }
    ScanStep(data, past, offset, |sizes|);
  }

  method ComputeCut(data: Block, sizes: seq<Word64>) returns (r: Option<seq<Block>>)
    requires |data| < TWO_64
    ensures r == Cut(data, sizes, 0)
  {
    hide Wrap64, Share;
    var out: seq<Block> := [];
    var offset: Word64 := 0;
    assert sizes[0..] == sizes;
    if Cut(data, sizes, 0).Some? {
      assert [] + Cut(data, sizes, 0).value == Cut(data, sizes, 0).value;
    }
    for i := 0 to |sizes|
      invariant Prepend(out, Cut(data, sizes[i..], offset)) == Cut(data, sizes, 0)
    {
      assert sizes[i..][1..] == sizes[i + 1..];
      if Wrap64(offset + sizes[i]) > |data| {
        return None;
      }
      var piece := Share(data, offset, sizes[i]);
      if piece == None {
        return None;
      }
      ghost var rest := Cut(data, sizes[i + 1..], Wrap64(offset + sizes[i]));
      if rest != None {
        Associative(out, [piece.value], rest.value);
      }
      out := out + [piece.value];
      offset := Wrap64(offset + sizes[i]);
    }
    assert out + [] == out;
    r := Some(out);
  }

  method FromConfig(mems: seq<Block>, config: Config, past: Block) returns (r: Option<seq<Block>>)
    requires |past| >= META_SIZE && |Flatten(mems)| < TWO_64
    ensures r == Split(mems, config, past)
  {
    hide Cut, StaticSizes, ScanSizes, Flatten;
    if !ConfigValid(config) {
      return None;
    }
    var sizes: seq<Word64>;
    if config.format == FORMAT_STATIC {
      if |mems| == |config.infos| {
        return Some(mems);
      }
      sizes := ComputeStaticSizes(config.infos);
    } else {
      if |mems| > 1 {
        return Some(mems);
      }
      sizes := ComputeScanSizes(Flatten(mems), past);
      if |sizes| == 1 {
        return Some(mems);
      }
    }
    r := ComputeCut(Flatten(mems), sizes);
  }

  // ----- cutting undoes flattening -----

  /** One piece that fits, then the rest. */
  lemma CutStep(data: Block, sizes: seq<Word64>, offset: nat, rest: seq<Block>)
    requires |data| < TWO_64 && sizes != [] && offset + sizes[0] <= |data|
    requires Cut(data, sizes[1..], offset + sizes[0]) == Some(rest)
    ensures Cut(data, sizes, offset) == Some([data[offset..offset + sizes[0]]] + rest)
  {
  }

  /** Cutting data into pieces of the lengths of `bs`, from the place where `bs[i..]` starts, gives `bs[i..]`. */
  lemma {:induction false} CutOfFlatten(data: Block, bs: seq<Block>, sizes: seq<Word64>, i: nat)
    requires |data| < TWO_64 && i <= |bs| && data == Flatten(bs) && sizes == Lengths(bs)
    ensures TotalSize(bs[..i]) <= |data|
    ensures Cut(data, sizes[i..], TotalSize(bs[..i])) == Some(bs[i..])
    decreases |bs| - i
  {
    hide Flatten, TotalSize;
    if i == |bs| {
      FlattenLength(bs);
      assert bs[..i] == bs;
    } else {
      hide Cut;
      CutOfFlatten(data, bs, sizes, i + 1);
      TotalSizeStep(bs, i);
      FlattenSlice(bs, i);
      assert sizes[i..][1..] == sizes[i + 1..] && sizes[i..][0] == |bs[i]|;
      CutStep(data, sizes[i..], TotalSize(bs[..i]), bs[i + 1..]);
      assert bs[i..] == [bs[i]] + bs[i + 1..];
    }
  }

  lemma CutOfFlattenAll(bs: seq<Block>, sizes: seq<Word64>)
    requires |Flatten(bs)| < TWO_64 && sizes == Lengths(bs)
    ensures Cut(Flatten(bs), sizes, 0) == Some(bs)
  {
    hide Flatten, Cut;
    CutOfFlatten(Flatten(bs), bs, sizes, 0);
    assert bs[..0] == [] && bs[0..] == bs && sizes[0..] == sizes;
  }

  /** A successful cut yields pieces of exactly the given sizes, lying side by side from `offset` on. */
  lemma {:induction false} CutSound(data: Block, sizes: seq<Word64>, offset: Word64)
    requires |data| < TWO_64 && offset <= |data| && Cut(data, sizes, offset).Some?
    ensures var out := Cut(data, sizes, offset).value;
            && sizes == Lengths(out)
            && offset + TotalSize(out) <= |data|
            && Flatten(out) == data[offset..offset + TotalSize(out)]
    decreases |sizes|
  {
    if sizes != [] {
      var next := Wrap64(offset + sizes[0]);
      assert next == offset + sizes[0];
      CutSound(data, sizes[1..], next);
      var rest := Cut(data, sizes[1..], next).value;
      var out := Cut(data, sizes, offset).value;
      assert out[1..] == rest;
      var n := TotalSize(rest);
      assert data[offset..next] + data[next..next + n] == data[offset..next + n];
    }
  }

  // ----- static streams -----

  lemma {:induction false} WrapSumIsTotal(start: nat, bs: seq<Block>, sizes: seq<Word64>)
    requires sizes == Lengths(bs) && start + TotalSize(bs) < TWO_64
    ensures WrapSum(start, sizes) == start + TotalSize(bs)
  {
    if bs != [] {
      var n := |bs| - 1;
      TotalSizeStep(bs, n);
      assert bs[..n + 1] == bs;
      WrapSumIsTotal(start, bs[..n], sizes[..n]);
    }
  }

  /** Every tensor, packed or not, has the size its description computes to. */
  predicate AllSizesAgree(items: seq<Item>)
  {
    forall i :: 0 <= i < |items| ==> InfoSize(items[i].info) == |items[i].bytes|
  }

  function InfosOf(items: seq<Item>): (r: seq<TensorInfo>)
    ensures |r| == |items|
    ensures forall k :: 0 <= k < |items| ==> r[k] == items[k].info
  {
    seq(|items|, k requires 0 <= k < |items| => items[k].info)
  }

  /** The pieces computed from the configuration are the memories of the buffer, header included. */
  lemma StaticSizesAreLengths(mems: seq<Memory>, items: seq<Item>)
    requires Represents(mems, items) && AllSizesAgree(items)
    ensures StaticSizes(InfosOf(items)) == Lengths(mems)
  {
    hide InfoSize, Packs, Flatten, TotalSize, WrapSum;
    var infos := InfosOf(items);
    if |items| > MEMORY_MAX {
      var tail, last := items[MEMORY_MAX - 1..], mems[MEMORY_MAX - 1];
      PackedLength(last, tail);
      var rest := BytesOf(tail)[1..];
      assert BytesOf(tail) == [tail[0].bytes] + rest;
      TotalSizeConcat([tail[0].bytes], rest);
      FlattenOne(tail[0].bytes);
      assert InfoSizes(infos[MEMORY_MAX..]) == Lengths(rest);
      WrapSumIsTotal(|tail[0].bytes| + EXTRA_SIZE, rest, Lengths(rest));
      WrapSmall(|tail[0].bytes| + EXTRA_SIZE);
      assert InfoSizes(infos[..MEMORY_MAX - 1]) == Lengths(mems[..MEMORY_MAX - 1]);
      assert Lengths(mems) == Lengths(mems[..MEMORY_MAX - 1]) + [|last|];
    }
  }

  /**
   Re-splitting undoes flattening: whatever blocks the bytes of a buffer of static tensors
   arrive in, the same memories come back, the packed one included.
   */
  lemma ResplitUndoesFlatten(mems: seq<Memory>, items: seq<Item>, config: Config, blocks: seq<Block>, past: Block)
    requires Represents(mems, items) && AllSizesAgree(items)
    requires ConfigValid(config) && config.format == FORMAT_STATIC && config.infos == InfosOf(items)
    requires |past| >= META_SIZE && |Flatten(mems)| < TWO_64
    requires Flatten(blocks) == Flatten(mems) && (|blocks| == |items| ==> blocks == mems)
    ensures Split(blocks, config, past) == Some(mems)
  {
    hide Cut, StaticSizes, Flatten, InfoSize, Represents, ConfigValid;
    StaticSizesAreLengths(mems, items);
    CutOfFlattenAll(mems, StaticSizes(config.infos));
  }

  // ----- flexible streams -----

  /** A tensor in flexible framing: a version-1 header and exactly the data it announces. */
  predicate Framed(b: Block)
  {
    && HasHeader(b)
    && var m := ParseHeader(b);
       VersionOne(m.version) && |b| == HEADER_SIZE + DataSize(m)
  }

  /** `gst_tensor_meta_info_append_header` in front of the announced amount of data frames it. */
  lemma AppendedHeaderFrames(m: Meta, data: Block)
    requires MetaValid(m) && VersionOne(m.version) && (m.format == FORMAT_SPARSE || m.nnz == 0)
    requires |data| == DataSize(m)
    ensures Framed(EncodeHeader(m) + data) && ParseHeader(EncodeHeader(m) + data) == m
  {
    hide ParseHeader, EncodeHeader, MetaValid, DataSize, VersionOne;
    HeaderRoundTrip(m, data);
  }

  lemma PieceOfFramed(data: Block, past: Block, offset: nat, b: Block)
    requires |past| >= META_SIZE && |data| < TWO_64 && Framed(b)
    requires offset + |b| <= |data| && data[offset..offset + |b|] == b
    ensures PieceSize(data, past, offset) == |b|
  {
    hide DataSize, DimensionValid, ParseHeader, VersionValid;
    var view := (data + past)[offset..];
    assert |b| >= META_SIZE;
    assert view[..META_SIZE] == data[offset..offset + |b|][..META_SIZE];
    ParseHeaderLocal(view, b);
  }

  /** What a header announces: the header itself if its version is the known one, and the data. */
  lemma AnnouncedPiece(m: Meta, rest: Block, past: Block)
    requires |past| >= META_SIZE && (m.format == FORMAT_SPARSE || m.nnz == 0)
    ensures PieceSize(EncodeHeader(m) + rest, past, 0)
            == if !Recognised(m) then 0 else Wrap64((if VersionOne(m.version) then 128 else 0) + DataSize(m))
  {
    hide EncodeHeader, ParseHeader, DataSize, VersionOne, VersionValid;
    var data := EncodeHeader(m) + rest;
    assert (data + past)[0..] == EncodeHeader(m) + (rest + past);
    HeaderRoundTrip(m, rest + past);
    NothingAnnounced(m);
  }

  lemma NothingAnnounced(m: Meta)
    ensures !Recognised(m) ==> DataSize(m) == 0
  {
  }

  /** All blocks but a sixteenth one are framed; a sixteenth one may hold anything. */
  predicate Framing(bs: seq<Block>)
  {
    && |bs| <= MEMORY_MAX
    && (forall k :: 0 <= k < |bs| && k < MEMORY_MAX - 1 ==> Framed(bs[k]))
    && (|bs| == MEMORY_MAX ==> bs[MEMORY_MAX - 1] != [])
  }

  lemma {:induction false} ScanFindsLengths(data: Block, bs: seq<Block>, past: Block, i: nat)
    requires |past| >= META_SIZE && |data| < TWO_64 && data == Flatten(bs)
    requires Framing(bs) && i <= |bs| && i < MEMORY_MAX
    ensures TotalSize(bs[..i]) <= |data|
    ensures ScanSizes(data, past, TotalSize(bs[..i]), i) == Lengths(bs[i..])
    decreases |bs| - i
  {
    hide Flatten, TotalSize, Framed, PieceSize, ScanSizes;
    FlattenLength(bs);
    var at := TotalSize(bs[..i]);
    if i == |bs| {
      assert bs[..i] == bs;
      ScanStep(data, past, at, i);
    } else {
      FlattenSlice(bs, i);
      TotalSizeStep(bs, i);
      ScanStep(data, past, at, i);
      if i == MEMORY_MAX - 1 {
        assert bs[..i + 1] == bs && |bs[i]| > 0;
        assert Lengths(bs[i..]) == [|bs[i]|];
      } else {
        PieceOfFramed(data, past, at, bs[i]);
        FramedNotEmpty(bs[i]);
        ScanFindsLengths(data, bs, past, i + 1);
        assert Lengths(bs[i..]) == [|bs[i]|] + Lengths(bs[i + 1..]);
      }
    }
  }

  lemma FramedNotEmpty(b: Block)
    requires Framed(b)
    ensures |b| > 0
  {
  }

  /** Flexible split inverts framing: up to MEMORY_MAX tensors laid end to end are recovered exactly. */
  lemma FlexibleSplitInverts(bs: seq<Block>, config: Config, past: Block)
    requires ConfigValid(config) && config.format != FORMAT_STATIC
    requires |past| >= META_SIZE && |Flatten(bs)| < TWO_64 && Framing(bs)
    ensures |Flatten([Flatten(bs)])| < TWO_64
    ensures bs != [] ==> Split([Flatten(bs)], config, past) == Some(bs)
  {
    hide Flatten, Cut, ScanSizes, Framed, ConfigValid;
    var data := Flatten(bs);
    FlattenOne(data);
    if bs != [] {
      ScanFindsLengths(data, bs, past, 0);
      assert bs[..0] == [] && bs[0..] == bs;
      CutOfFlattenAll(bs, Lengths(bs));
      if |bs| == 1 {
        FlattenOne(bs[0]);
        assert bs == [bs[0]];
      }
    }
  }

  /** If every announced piece fits, the scan stops exactly at the end of the data. */
  lemma {:induction false} ScanCovers(data: Block, past: Block, offset: Word64, num: nat)
    requires |past| >= META_SIZE && |data| < TWO_64 && num < MEMORY_MAX && offset <= |data|
    requires Cut(data, ScanSizes(data, past, offset, num), offset).Some?
    ensures offset + TotalSize(Cut(data, ScanSizes(data, past, offset, num), offset).value) == |data|
    decreases MEMORY_MAX - num
  {
    hide PieceSize, Flatten, ScanSizes;
    var sizes := ScanSizes(data, past, offset, num);
    ScanStep(data, past, offset, num);
    if offset < |data| {
      var next := Wrap64(offset + sizes[0]);
      assert next == offset + sizes[0];
      var out := Cut(data, sizes, offset).value;
      if num == MEMORY_MAX - 1 {
        assert sizes[1..] == [] && out[1..] == [];
      } else {
        assert sizes[1..] == ScanSizes(data, past, next, num + 1);
        ScanCovers(data, past, next, num + 1);
        assert out[1..] == Cut(data, sizes[1..], next).value;
      }
    }
  }

  /** For arbitrary bytes: at most MEMORY_MAX memories come out, and a flexible split loses no byte. */
  lemma FlexibleSplitConserves(mems: seq<Block>, config: Config, past: Block)
    requires |past| >= META_SIZE && |Flatten(mems)| < TWO_64 && |mems| <= MEMORY_MAX
    requires ConfigValid(config) && config.format != FORMAT_STATIC
    requires Split(mems, config, past).Some?
    ensures |Split(mems, config, past).value| <= MEMORY_MAX
    ensures Flatten(Split(mems, config, past).value) == Flatten(mems)
  {
    hide Flatten, Cut, ScanSizes, ConfigValid;
    var data := Flatten(mems);
    var sizes := ScanSizes(data, past, 0, 0);
    if |mems| <= 1 && |sizes| != 1 {
      CutSound(data, sizes, 0);
      ScanCovers(data, past, 0, 0);
    }
  }

  /** Data without a recognised header counts as empty pieces until the last one takes everything. */
  lemma {:induction false} GarbageScan(data: Block, past: Block, num: nat)
    requires |past| >= META_SIZE && 0 < |data| < TWO_64 && num < MEMORY_MAX
    requires !Recognised(ParseHeader(data + past))
    ensures ScanSizes(data, past, 0, num) == seq(MEMORY_MAX - 1 - num, _ => 0) + [|data|]
    decreases MEMORY_MAX - num
  {
    hide ParseHeader;
    assert (data + past)[0..] == data + past;
    if num < MEMORY_MAX - 1 {
      GarbageScan(data, past, num + 1);
      assert PieceSize(data, past, 0) == 0;
    }
  }

  /** An invalid configuration splits nothing. */
  lemma InvalidConfigFails(mems: seq<Block>, config: Config, past: Block)
    requires |past| >= META_SIZE && |Flatten(mems)| < TWO_64
    requires config.rateN < 0 || config.rateD <= 0 || config.format >= 3
             || (config.format == FORMAT_STATIC
                 && (config.infos == [] || exists k :: 0 <= k < |config.infos| && !InfoValid(config.infos[k])))
    ensures Split(mems, config, past) == None
  {
  }

  // ----- idempotence -----

  /** Splitting the result once more changes nothing, for every buffer and configuration. */
  lemma SplitIdempotent(mems: seq<Block>, config: Config, past: Block)
    requires |past| >= META_SIZE && |Flatten(mems)| < TWO_64
    requires Split(mems, config, past).Some?
    ensures var out := Split(mems, config, past).value;
            |Flatten(out)| < TWO_64 && Split(out, config, past) == Some(out)
  {
    hide Flatten, Cut, ScanSizes, StaticSizes, ConfigValid;
    var out := Split(mems, config, past).value;
    var data := Flatten(mems);
    if out != mems {
      var sizes := if config.format == FORMAT_STATIC then StaticSizes(config.infos) else ScanSizes(data, past, 0, 0);
      CutSound(data, sizes, 0);
      FlattenLength(out);
      CutOfFlattenAll(out, sizes);
      if config.format != FORMAT_STATIC && |out| <= 1 {
        ScanCovers(data, past, 0, 0);
        assert Flatten(out) == data;
      }
    }
  }
}
