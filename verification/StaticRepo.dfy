/**
 Static samples in the data repository. The writer stores the memories of a buffer in a row; the
 reader locates tensors with tables computed from the configuration. This module says exactly
 which tables find every tensor, whatever was recorded, and which of the reader's tables do.
 */
module StaticRepo {
  import opened Bytes
  import opened Options
  import opened TensorMeta
  import opened TensorBuffer
  import opened BufferSplit
  import opened BufferLimits
  import opened DataRepoSink
  import opened DataRepoSource

  // ----- the tables of the reader -----

  /** Sizes added up one after the other. */
  function Sum(sizes: seq<nat>): nat
  {
    if sizes == [] then 0 else Sum(sizes[..|sizes| - 1]) + sizes[|sizes| - 1]
  }

  function Offsets(sizes: seq<nat>): (r: seq<nat>)
    ensures |r| == |sizes| && forall k :: 0 <= k < |sizes| ==> r[k] == Sum(sizes[..k])
  {
    seq(|sizes|, k requires 0 <= k < |sizes| => Sum(sizes[..k]))
  }

  /** `tensors_offset` and `tensors_size` are arrays of fixed length. */
  datatype RawTables = RawTables(offsets: seq<nat>, sizes: seq<Word64>, sampleSize: nat)

  type Tables = tb: RawTables | |tb.offsets| == |tb.sizes| == SIZE_LIMIT
    witness RawTables(seq(SIZE_LIMIT, _ => 0), seq(SIZE_LIMIT, _ => 0), 0)

  function NoTables(): Tables
  {
    RawTables(seq(SIZE_LIMIT, _ => 0), seq(SIZE_LIMIT, _ => 0), 0)
  }

  lemma SumPrefix(sizes: seq<nat>, i: nat)
    ensures Sum(sizes[..0]) == 0
    ensures i < |sizes| ==> Sum(sizes[..i + 1]) == Sum(sizes[..i]) + sizes[i]
  {
    if i < |sizes| {
      assert sizes[..i + 1][..i] == sizes[..i];
    }
  }

  /** The entries of the described tensors are replaced, the ones behind them stay. */
  function Parsed(old': Tables, infos: seq<TensorInfo>): (r: Tables)
    requires |infos| <= SIZE_LIMIT
  {
    var sizes, n := InfoSizes(infos), |infos|;
    RawTables(Offsets(sizes) + old'.offsets[n..], sizes + old'.sizes[n..], Sum(sizes))
  }

  /** The table loop of `gst_data_repo_src_parse_caps`, in place. */
  method ParseCaps(before: Tables, infos: seq<TensorInfo>) returns (r: Tables)
    requires |infos| <= SIZE_LIMIT
    ensures r == Parsed(before, infos)
  {
    hide InfoSize, Sum;
    r := before.(sampleSize := 0);
    ghost var sizes: seq<nat> := InfoSizes(infos);
    SumPrefix(sizes, 0);
    for i := 0 to |infos|
      invariant r.sampleSize == Sum(sizes[..i])
      invariant forall k :: 0 <= k < i ==> r.offsets[k] == Sum(sizes[..k]) && r.sizes[k] == sizes[k]
      invariant forall k :: i <= k < SIZE_LIMIT ==> r.offsets[k] == before.offsets[k] && r.sizes[k] == before.sizes[k]
    {
      SumPrefix(sizes, i);
      r := r.(offsets := r.offsets[i := r.sampleSize], sizes := r.sizes[i := InfoSize(infos[i])],
              sampleSize := r.sampleSize + InfoSize(infos[i]));
    }
    assert sizes[..|infos|] == sizes;
    assert r.offsets == Parsed(before, infos).offsets && r.sizes == Parsed(before, infos).sizes;
  }

  function Chosen<T>(all: seq<T>, selection: seq<nat>): (r: seq<T>)
    requires forall k :: 0 <= k < |selection| ==> selection[k] < |all|
    ensures |r| == |selection| && forall k :: 0 <= k < |selection| ==> r[k] == all[selection[k]]
  {
    seq(|selection|, k requires 0 <= k < |selection| => all[selection[k]])
  }

  /** What `gst_data_repo_src_set_tensors_sequence` accepts. */
  predicate Selectable(infos: seq<TensorInfo>, selection: seq<nat>)
  {
    |selection| <= |infos| <= SIZE_LIMIT && forall k :: 0 <= k < |selection| ==> selection[k] < |infos|
  }

  /** The tables from the configuration of the file. */
  function FileTables(infos: seq<TensorInfo>): Tables
    requires |infos| <= SIZE_LIMIT
  {
    Parsed(NoTables(), infos)
  }

  /** With a tensors-sequence, the configuration of the selected tensors is parsed on top of it. */
  function RebuiltTables(infos: seq<TensorInfo>, selection: seq<nat>): Tables
    requires Selectable(infos, selection)
  {
    Parsed(FileTables(infos), Chosen(infos, selection))
  }

  // ----- recorded samples -----

  /** Buffers of static tensors, all of the same stream. */
  ghost predicate RecordedAs(samples: seq<seq<Memory>>, lists: seq<seq<Item>>, infos: seq<TensorInfo>)
  {
    && |samples| == |lists|
    && forall i :: 0 <= i < |samples| ==> StaticSample(samples[i], lists[i], infos)
  }

  ghost predicate StaticSample(mems: seq<Memory>, items: seq<Item>, infos: seq<TensorInfo>)
  {
    Represents(mems, items) && AllSizesAgree(items) && InfosOf(items) == infos
  }

  /** How many bytes a sample takes in the file: a packed one has its header. */
  function SampleLength(sizes: seq<nat>): nat
  {
    Sum(sizes) + if |sizes| > MEMORY_MAX then EXTRA_SIZE else 0
  }

  /** Where tensor `t` lies in its sample: the packed header stands before the sixteenth. */
  function TrueOffset(sizes: seq<nat>, t: nat): nat
    requires t <= |sizes|
  {
    Sum(sizes[..t]) + if |sizes| > MEMORY_MAX && t >= MEMORY_MAX - 1 then EXTRA_SIZE else 0
  }

  lemma {:induction false} SumIsTotal(bs: seq<Block>)
    ensures Sum(Lengths(bs)) == TotalSize(bs)
  {
    if bs != [] {
      var n := |bs| - 1;
      SumIsTotal(bs[..n]);
      assert Lengths(bs)[..n] == Lengths(bs[..n]);
      TotalSizeStep(bs, n);
      assert bs[..n + 1] == bs;
    }
  }

  lemma SizesOf(items: seq<Item>, t: nat)
    requires AllSizesAgree(items) && t <= |items|
    ensures InfoSizes(InfosOf(items)) == Lengths(BytesOf(items))
    ensures Sum(InfoSizes(InfosOf(items))[..t]) == TotalSize(BytesOf(items)[..t])
    ensures Sum(InfoSizes(InfosOf(items))) == TotalSize(BytesOf(items))
  {
    hide InfoSize;
    SumIsTotal(BytesOf(items));
    SumIsTotal(BytesOf(items)[..t]);
    assert Lengths(BytesOf(items))[..t] == Lengths(BytesOf(items)[..t]);
  }

  lemma {:induction false} SumSplit(sizes: seq<nat>, n: nat)
    requires n <= |sizes|
    ensures Sum(sizes) == Sum(sizes[..n]) + Sum(sizes[n..])
  {
    if n < |sizes| {
      var k := |sizes| - 1;
      SumSplit(sizes[..k], n);
      assert sizes[..k][..n] == sizes[..n] && sizes[..k][n..] == sizes[n..][..k - n];
    } else {
      assert sizes[..n] == sizes;
    }
  }

  /** The memory that holds tensor `t`, and where in it. */
  function Holder(items: nat, t: nat): nat
  {
    if items > MEMORY_MAX && t >= MEMORY_MAX - 1 then MEMORY_MAX - 1 else t
  }

  function InHolder(items: seq<Item>, t: nat): nat
    requires t < |items|
  {
    if |items| > MEMORY_MAX && t >= MEMORY_MAX - 1
    then EXTRA_SIZE + TotalSize(BytesOf(items[MEMORY_MAX - 1..])[..t - (MEMORY_MAX - 1)]) else 0
  }

  /** The tensor in its memory. */
  lemma TensorInMemory(mems: seq<Memory>, items: seq<Item>, t: nat)
    requires Represents(mems, items) && t < |items|
    ensures var j, at := Holder(|items|, t), InHolder(items, t);
            j < |mems| && at + |items[t].bytes| <= |mems[j]| && mems[j][at..at + |items[t].bytes|] == items[t].bytes
  {
    hide Flatten, TotalSize, ExtraInfo, Get32, Get64;
    var n := MEMORY_MAX - 1;
    if |items| > MEMORY_MAX && t >= n {
      FlattenSliceAt(mems[n], EXTRA_SIZE, BytesOf(items[n..]), t - n);
    } else if |items| > MEMORY_MAX {
      assert mems[t] == mems[..n][t];
    }
  }

  /** The memories before the tensor, and the way to it, add up to its offset. */
  lemma OffsetOfTensor(mems: seq<Memory>, items: seq<Item>, t: nat)
    requires Represents(mems, items) && AllSizesAgree(items) && t < |items|
    ensures var j := Holder(|items|, t);
            j < |mems| && TotalSize(mems[..j]) + InHolder(items, t) == TrueOffset(InfoSizes(InfosOf(items)), t)
  {
    hide Flatten, TotalSize, InfoSize, Sum, Packs;
    var n, bs := MEMORY_MAX - 1, BytesOf(items);
    SizesOf(items, t);
    if |items| <= MEMORY_MAX {
      assert mems[..t] == bs[..t];
    } else if t < n {
      assert mems[..t] == mems[..n][..t] == bs[..t];
    } else {
      assert mems[..n] == bs[..n];
      assert BytesOf(items[n..])[..t - n] == bs[n..t];
      assert bs[..t] == bs[..n] + bs[n..t];
      TotalSizeConcat(bs[..n], bs[n..t]);
    }
  }

  lemma LengthOfSample(mems: seq<Memory>, items: seq<Item>)
    requires Represents(mems, items) && AllSizesAgree(items)
    ensures |Flatten(mems)| == SampleLength(InfoSizes(InfosOf(items)))
  {
    hide Flatten, TotalSize, InfoSize, Sum, Packs;
    var n, bs := MEMORY_MAX - 1, BytesOf(items);
    SizesOf(items, 0);
    FlattenLength(mems);
    if |items| > MEMORY_MAX {
      PackedLength(mems[n], items[n..]);
      assert BytesOf(items[n..]) == bs[n..] && bs == bs[..n] + bs[n..];
      TotalSizeConcat(bs[..n], bs[n..]);
      assert mems == bs[..n] + [mems[n]];
      TotalSizeConcat(bs[..n], [mems[n]]);
      FlattenOne(mems[n]);
    }
  }

  /** Every sample as one block. */
  function Flats(samples: seq<seq<Block>>): (r: seq<Block>)
    ensures |r| == |samples| && forall i :: 0 <= i < |r| ==> r[i] == Flatten(samples[i])
  {
    seq(|samples|, i requires 0 <= i < |samples| => Flatten(samples[i]))
  }

  lemma {:induction false} FileIsFlats(samples: seq<seq<Block>>)
    ensures FileOf(samples) == Flatten(Flats(samples))
  {
    if samples != [] {
      FileIsFlats(samples[1..]);
      FlattenConcat(samples[0], Flatten(samples[1..]));
      assert Flats(samples)[1..] == Flats(samples[1..]);
    }
  }

  lemma {:induction false} UniformTotal(bs: seq<Block>, size: nat, i: nat)
    requires (forall k :: 0 <= k < |bs| ==> |bs[k]| == size) && i <= |bs|
    ensures TotalSize(bs[..i]) == size * i
  {
    if i == 0 {
      EmptyTotal(bs);
    } else {
      UniformTotal(bs, size, i - 1);
      TotalSizeStep(bs, i - 1);
    }
  }

  /** Sample `i` starts at its multiple of the sample length. */
  lemma SampleStarts(samples: seq<seq<Memory>>, lists: seq<seq<Item>>, infos: seq<TensorInfo>, i: nat)
    requires RecordedAs(samples, lists, infos) && i < |samples|
    ensures TotalSize(Flats(samples)[..i]) == SampleLength(InfoSizes(infos)) * i
  {
    hide Flatten, TotalSize, InfoSize, Sum, Represents, AllSizesAgree;
    forall k | 0 <= k < |samples| ensures |Flats(samples)[k]| == SampleLength(InfoSizes(infos)) {
      assert StaticSample(samples[k], lists[k], infos);
      LengthOfSample(samples[k], lists[k]);
    }
    UniformTotal(Flats(samples), SampleLength(InfoSizes(infos)), i);
  }

  /** Where tensor `t` of sample `i` lies in the file. */
  function TruePosition(sizes: seq<nat>, i: nat, t: nat): nat
    requires t <= |sizes|
  {
    SampleLength(sizes) * i + TrueOffset(sizes, t)
  }

  lemma TensorInFlat(mems: seq<Memory>, items: seq<Item>, t: nat)
    requires Represents(mems, items) && AllSizesAgree(items) && t < |items|
    ensures var at := TrueOffset(InfoSizes(InfosOf(items)), t);
            && at + |items[t].bytes| <= |Flatten(mems)|
            && Flatten(mems)[at..at + |items[t].bytes|] == items[t].bytes
  {
    hide Flatten, TotalSize, InfoSize, Sum, Packs, InHolder, TrueOffset, Represents;
    var j, inner, size := Holder(|items|, t), InHolder(items, t), |items[t].bytes|;
    TensorInMemory(mems, items, t);
    OffsetOfTensor(mems, items, t);
    FlattenSlice(mems, j);
    var start := TotalSize(mems[..j]);
    SliceOfSlice(Flatten(mems), start, start + |mems[j]|, inner, inner + size);
  }

  lemma TrueTensorAt(samples: seq<seq<Memory>>, lists: seq<seq<Item>>, infos: seq<TensorInfo>, i: nat, t: nat)
    requires RecordedAs(samples, lists, infos) && i < |samples| && t < |infos|
    ensures |lists[i]| == |infos| && |lists[i][t].bytes| == InfoSize(infos[t])
    ensures Share(FileOf(samples), TruePosition(InfoSizes(infos), i, t), InfoSize(infos[t])) == Some(lists[i][t].bytes)
  {
    hide Flatten, TotalSize, InfoSize, Sum, Represents, TrueOffset, SampleLength, FileOf;
    assert StaticSample(samples[i], lists[i], infos);
    assert InfosOf(lists[i])[t] == infos[t];
    var flats, at, size := Flats(samples), TrueOffset(InfoSizes(infos), t), InfoSize(infos[t]);
    FileIsFlats(samples);
    SampleStarts(samples, lists, infos, i);
    TensorInFlat(samples[i], lists[i], t);
    FlattenSlice(flats, i);
    var start := TotalSize(flats[..i]);
    SliceOfSlice(Flatten(flats), start, start + |flats[i]|, at, at + size);
  }

  // ----- changing one byte of a recording -----

  function SetByte(b: Block, at: nat, v: Byte): (r: Block)
    requires at < |b|
    ensures |r| == |b| && r[at] == v && forall k :: 0 <= k < |b| && k != at ==> r[k] == b[k]
  {
    b[at := v]
  }

  lemma FlattenUpdate(bs: seq<Block>, k: nat, r: nat, v: Byte)
    requires k < |bs| && r < |bs[k]|
    ensures TotalSize(bs[..k]) + r < |Flatten(bs)|
    ensures Flatten(bs[k := SetByte(bs[k], r, v)]) == SetByte(Flatten(bs), TotalSize(bs[..k]) + r, v)
  {
    hide Flatten, TotalSize;
    var changed := bs[k := SetByte(bs[k], r, v)];
    FlattenSplit(bs, k);
    FlattenSplit(changed, k);
    assert changed[..k] == bs[..k] && changed[k + 1..] == bs[k + 1..];
    FlattenLength(bs[..k]);
  }

  /** An item with its first byte changed. */
  function Marked(item: Item, v: Byte): Item
    requires item.bytes != []
  {
    item.(bytes := SetByte(item.bytes, 0, v))
  }

  lemma MarkPacked(p: Memory, tail: seq<Item>, k: nat, v: Byte)
    requires 0 < |tail| && Packs(p, tail) && k < |tail| && tail[k].bytes != []
    ensures var at := EXTRA_SIZE + TotalSize(BytesOf(tail)[..k]);
            at < |p| && Packs(SetByte(p, at, v), tail[k := Marked(tail[k], v)])
  {
    hide Flatten, TotalSize, ExtraInfo, Get32, Get64;
    var bs, after := BytesOf(tail), tail[k := Marked(tail[k], v)];
    FlattenUpdate(bs, k, 0, v);
    assert BytesOf(after) == bs[k := SetByte(bs[k], 0, v)];
    var at := EXTRA_SIZE + TotalSize(bs[..k]);
    var q := SetByte(p, at, v);
    assert |p[EXTRA_SIZE..]| == |Flatten(bs)|;
    assert q[..EXTRA_SIZE] == p[..EXTRA_SIZE];
    HeaderKept(q, p);
    assert q[EXTRA_SIZE..] == SetByte(p[EXTRA_SIZE..], at - EXTRA_SIZE, v);
    forall j | 0 <= j < |tail| - 1 ensures ExtraInfo(q, j) == after[1 + j].info {
      assert ExtraInfo(p, j) == tail[1 + j].info;
    }
  }

  /** Changing the first byte of a tensor changes one byte of its memory. */
  lemma MarkMemory(mems: seq<Memory>, items: seq<Item>, t: nat, v: Byte)
    requires Represents(mems, items) && t < |items| && items[t].bytes != []
    ensures var j, at := Holder(|items|, t), InHolder(items, t);
            && j < |mems| && at < |mems[j]|
            && Represents(mems[j := SetByte(mems[j], at, v)], items[t := Marked(items[t], v)])
  {
    hide Packs, TotalSize;
    var n, after := MEMORY_MAX - 1, items[t := Marked(items[t], v)];
    TensorInMemory(mems, items, t);
    var j, at := Holder(|items|, t), InHolder(items, t);
    var marked := mems[j := SetByte(mems[j], at, v)];
    if |items| <= MEMORY_MAX {
      assert marked == BytesOf(after);
    } else if t < n {
      assert mems[t] == mems[..n][t] == items[t].bytes;
      assert marked[..n] == BytesOf(after[..n]) && after[n..] == items[n..];
    } else {
      MarkPacked(mems[n], items[n..], t - n, v);
      assert after[n..] == items[n..][t - n := Marked(items[t], v)] && after[..n] == items[..n];
      assert marked[..n] == mems[..n];
    }
  }

  lemma MarkKeepsSizes(items: seq<Item>, t: nat, v: Byte)
    requires t < |items| && items[t].bytes != [] && AllSizesAgree(items)
    ensures var after := items[t := Marked(items[t], v)]; AllSizesAgree(after) && InfosOf(after) == InfosOf(items)
  {
    hide InfoSize;
  }

  /** Another recording of the same stream, that differs in the first byte of one tensor and nowhere else. */
  lemma MarkRecording(samples: seq<seq<Memory>>, lists: seq<seq<Item>>, infos: seq<TensorInfo>, i: nat, t: nat, v: Byte)
    returns (samples': seq<seq<Memory>>, lists': seq<seq<Item>>)
    requires RecordedAs(samples, lists, infos) && i < |samples| && t < |infos| && InfoSize(infos[t]) > 0
    ensures RecordedAs(samples', lists', infos) && |lists'| == |lists| && |lists'[i]| == |infos|
    ensures lists'[i][t].bytes != [] && lists'[i][t].bytes[0] == v
    ensures var at := TruePosition(InfoSizes(infos), i, t);
            at < |FileOf(samples)| && FileOf(samples') == SetByte(FileOf(samples), at, v)
  {
    hide Flatten, TotalSize, InfoSize, Sum, Represents, AllSizesAgree, TrueOffset, SampleLength, FileOf, InHolder;
    var mems, items := samples[i], lists[i];
    assert StaticSample(mems, items, infos);
    TrueTensorAt(samples, lists, infos, i, t);
    var j, inner := Holder(|items|, t), InHolder(items, t);
    MarkMemory(mems, items, t, v);
    MarkKeepsSizes(items, t, v);
    OffsetOfTensor(mems, items, t);
    FlattenUpdate(mems, j, inner, v);
    var mems': seq<Memory> := mems[j := SetByte(mems[j], inner, v)];
    samples', lists' := samples[i := mems'], lists[i := items[t := Marked(items[t], v)]];
    assert StaticSample(mems', lists'[i], infos);
    FileIsFlats(samples);
    FileIsFlats(samples');
    var at := TrueOffset(InfoSizes(infos), t);
    assert Flats(samples') == Flats(samples)[i := SetByte(Flats(samples)[i], at, v)];
    FlattenUpdate(Flats(samples), i, at, v);
    SampleStarts(samples, lists, infos, i);
  }

  // ----- which tables find every tensor -----

  /** A read of no bytes always succeeds; any other delivers the window, if the file has it. */
  function ReadWindow(file: Block, pos: nat, size: nat): Option<Block>
  {
    if size == 0 then Some([]) else Share(file, pos, size)
  }

  /** Every selected tensor of every sample is read as recorded. */
  ghost predicate ReadsSelected(samples: seq<seq<Memory>>, lists: seq<seq<Item>>, tb: Tables, selection: seq<nat>)
  {
    forall i, k :: 0 <= i < |lists| && 0 <= k < |selection| ==> ReadsTensor(samples, lists, tb, i, selection[k])
  }

  ghost predicate ReadsTensor(samples: seq<seq<Memory>>, lists: seq<seq<Item>>, tb: Tables, i: nat, t: nat)
    requires i < |lists|
  {
    && t < |lists[i]| && t < SIZE_LIMIT
    && ReadWindow(FileOf(samples), tb.sampleSize * i + tb.offsets[t], tb.sizes[t]) == Some(lists[i][t].bytes)
  }

  /** The tables find the selected tensors in every recording of the stream. */
  ghost predicate AlwaysReads(infos: seq<TensorInfo>, tb: Tables, selection: seq<nat>)
  {
    forall samples: seq<seq<Memory>>, lists: seq<seq<Item>> ::
      RecordedAs(samples, lists, infos) ==> ReadsSelected(samples, lists, tb, selection)
  }

  /** The entry has the right size and, unless the tensor is empty, the right place. */
  predicate RightAt(infos: seq<TensorInfo>, tb: Tables, t: nat)
    requires t < |infos| <= SIZE_LIMIT
  {
    var sizes := InfoSizes(infos);
    && tb.sizes[t] == sizes[t]
    && (sizes[t] > 0 ==> tb.offsets[t] == TrueOffset(sizes, t) && tb.sampleSize == SampleLength(sizes))
  }

  /** No packed buffer of the stream can be allocated. */
  predicate Unallocatable(infos: seq<TensorInfo>)
  {
    |infos| > MEMORY_MAX && EXTRA_SIZE + Sum(InfoSizes(infos[MEMORY_MAX - 1..])) >= TWO_64
  }

  lemma RightReads(samples: seq<seq<Memory>>, lists: seq<seq<Item>>, infos: seq<TensorInfo>, tb: Tables, i: nat, t: nat)
    requires RecordedAs(samples, lists, infos) && i < |samples| && t < |infos| <= SIZE_LIMIT && RightAt(infos, tb, t)
    ensures ReadsTensor(samples, lists, tb, i, t)
  {
    hide FileOf, InfoSize, Sum, TrueOffset, SampleLength, Represents, AllSizesAgree;
    TrueTensorAt(samples, lists, infos, i, t);
    assert InfoSizes(infos)[t] > 0 ==> tb.sampleSize * i + tb.offsets[t] == TruePosition(InfoSizes(infos), i, t);
  }

  /** Tensors of the given descriptions, all bytes zero. */
  function ZeroItems(infos: seq<TensorInfo>): (r: seq<Item>)
    ensures |r| == |infos| && InfosOf(r) == infos && AllSizesAgree(r)
    ensures forall k :: 0 <= k < |infos| ==> r[k].bytes == Zeros(InfoSize(infos[k]))
  {
    seq(|infos|, k requires 0 <= k < |infos| => Item(Zeros(InfoSize(infos[k])), infos[k]))
  }

  /** A recording of two samples of zeros. */
  lemma ZeroRecording(infos: seq<TensorInfo>) returns (samples: seq<seq<Memory>>, lists: seq<seq<Item>>)
    requires |infos| <= SIZE_LIMIT && !Unallocatable(infos)
    ensures RecordedAs(samples, lists, infos) && |samples| == |lists| == 2 && lists[0] == lists[1] == ZeroItems(infos)
  {
    hide InfoSize, TotalSize, Sum, Memories, Represents;
    var items := ZeroItems(infos);
    if |infos| > MEMORY_MAX {
      var n := MEMORY_MAX - 1;
      SizesOf(items[n..], 0);
      assert InfosOf(items[n..]) == infos[n..];
    }
    MemoriesRepresent(items);
    assert StaticSample(Memories(items), items, infos);
    samples, lists := [Memories(items), Memories(items)], [items, items];
  }

  /** If a tensor is found in all recordings, it is looked for in its place, in the first and the second sample. */
  lemma ReadingFindsPlace(infos: seq<TensorInfo>, tb: Tables, selection: seq<nat>, k: nat, i: nat,
                          samples: seq<seq<Memory>>, lists: seq<seq<Item>>)
    requires AlwaysReads(infos, tb, selection) && k < |selection| && selection[k] < |infos| <= SIZE_LIMIT
    requires RecordedAs(samples, lists, infos) && i < |samples| && lists[i] == ZeroItems(infos)
    ensures tb.sizes[selection[k]] == InfoSize(infos[selection[k]])
    ensures InfoSize(infos[selection[k]]) > 0 ==>
              tb.sampleSize * i + tb.offsets[selection[k]] == TruePosition(InfoSizes(infos), i, selection[k])
  {
    hide FileOf, InfoSize, Sum, Represents, AllSizesAgree, RecordedAs, TruePosition;
    var t := selection[k];
    var pos := tb.sampleSize * i + tb.offsets[t];
    assert |samples| == |lists| by { RecordedLength(samples, lists, infos); }
    assert ReadsSelected(samples, lists, tb, selection) && ReadsTensor(samples, lists, tb, i, selection[k]);
    if InfoSize(infos[t]) > 0 {
      var file := FileOf(samples);
      assert file[pos] == lists[i][t].bytes[0] == 0;
      var samples', lists' := MarkRecording(samples, lists, infos, i, t, 1);
      assert ReadsSelected(samples', lists', tb, selection) && ReadsTensor(samples', lists', tb, i, selection[k]);
      assert FileOf(samples')[pos] == lists'[i][t].bytes[0] == 1;
    }
  }

  lemma RecordedLength(samples: seq<seq<Memory>>, lists: seq<seq<Item>>, infos: seq<TensorInfo>)
    requires RecordedAs(samples, lists, infos)
    ensures |samples| == |lists|
  {
  }

  lemma ReadingIsRight(infos: seq<TensorInfo>, tb: Tables, selection: seq<nat>, k: nat)
    requires AlwaysReads(infos, tb, selection) && !Unallocatable(infos)
    requires k < |selection| && selection[k] < |infos| <= SIZE_LIMIT
    ensures RightAt(infos, tb, selection[k])
  {
    hide AlwaysReads, RecordedAs, InfoSize, Sum, TrueOffset, SampleLength;
    var samples, lists := ZeroRecording(infos);
    ReadingFindsPlace(infos, tb, selection, k, 0, samples, lists);
    ReadingFindsPlace(infos, tb, selection, k, 1, samples, lists);
  }

  /** Of a stream that cannot be allocated nothing is recorded. */
  lemma NothingRecorded(samples: seq<seq<Memory>>, lists: seq<seq<Item>>, infos: seq<TensorInfo>)
    requires RecordedAs(samples, lists, infos) && Unallocatable(infos)
    ensures lists == []
  {
    hide Sum, InfoSize, Packs, TotalSize;
    if samples != [] {
      var n, items := MEMORY_MAX - 1, lists[0];
      assert StaticSample(samples[0], items, infos);
      PackedLength(samples[0][n], items[n..]);
      assert InfosOf(items[n..]) == infos[n..];
      SizesOf(items[n..], 0);
    }
  }

  /**
   Tables find the selected tensors in every recording if and only if every selected entry is
   right (or nothing can be recorded).
   */
  lemma TablesReadIff(infos: seq<TensorInfo>, tb: Tables, selection: seq<nat>)
    requires |infos| <= SIZE_LIMIT && forall k :: 0 <= k < |selection| ==> selection[k] < |infos|
    ensures AlwaysReads(infos, tb, selection) <==>
            Unallocatable(infos) || forall k :: 0 <= k < |selection| ==> RightAt(infos, tb, selection[k])
  {
    hide RecordedAs, RightAt, ReadsTensor, Unallocatable;
    if Unallocatable(infos) {
      forall samples, lists | RecordedAs(samples, lists, infos) ensures ReadsSelected(samples, lists, tb, selection) {
        NothingRecorded(samples, lists, infos);
      }
    } else if forall k :: 0 <= k < |selection| ==> RightAt(infos, tb, selection[k]) {
      forall samples, lists | RecordedAs(samples, lists, infos) ensures ReadsSelected(samples, lists, tb, selection) {
        RightReadsSelected(samples, lists, infos, tb, selection);
      }
    } else {
      var k :| 0 <= k < |selection| && !RightAt(infos, tb, selection[k]);
      if AlwaysReads(infos, tb, selection) {
        ReadingIsRight(infos, tb, selection, k);
      }
    }
  }

  // ----- the tables of the reader -----

  lemma FileTablesAt(infos: seq<TensorInfo>, t: nat)
    requires t < |infos| <= SIZE_LIMIT
    ensures var tb, sizes := FileTables(infos), InfoSizes(infos);
            tb.sizes[t] == sizes[t] && tb.offsets[t] == Sum(sizes[..t]) && tb.sampleSize == Sum(sizes)
  {
    hide InfoSize, Sum;
  }

  lemma {:induction false} SumPositive(sizes: seq<nat>) returns (t: nat)
    requires Sum(sizes) > 0
    ensures t < |sizes| && sizes[t] > 0
  {
    t := |sizes| - 1;
    if sizes[t] == 0 {
      t := SumPositive(sizes[..t]);
    }
  }

  lemma SumAtLeast(sizes: seq<nat>, t: nat)
    requires t < |sizes|
    ensures Sum(sizes) >= sizes[t]
  {
    SumSplit(sizes, t + 1);
    assert sizes[..t + 1][..t] == sizes[..t];
  }

  /**
   Without a tensors-sequence, the static repository returns every tensor exactly as recorded,
   for all contents, if and only if a sample has at most sixteen tensors. The writer stores a
   packed memory with its header, which the table of the reader does not know. (The only other
   streams are those without any data, and those of which no buffer can be allocated.)
   */
  lemma StaticRoundTripIff(infos: seq<TensorInfo>)
    requires |infos| <= SIZE_LIMIT
    ensures AlwaysReads(infos, FileTables(infos), Range(0, |infos|)) <==>
            |infos| <= MEMORY_MAX || Sum(InfoSizes(infos)) == 0 || Unallocatable(infos)
  {
    hide AlwaysReads, InfoSize, Sum, Unallocatable, FileTables;
    var tb, sizes, all := FileTables(infos), InfoSizes(infos), Range(0, |infos|);
    TablesReadIff(infos, tb, all);
    forall t | 0 <= t < |infos|
      ensures RightAt(infos, tb, t) <==> |infos| <= MEMORY_MAX || sizes[t] == 0
    {
      FileTablesAt(infos, t);
    }
    if Sum(sizes) == 0 {
      forall t | 0 <= t < |infos| ensures sizes[t] == 0 {
        SumAtLeast(sizes, t);
      }
    } else {
      var t := SumPositive(sizes);
      assert all[t] == t;
    }
  }

  /** The rebuilt tables: right up to the number of selected tensors for these, and behind that for the file. */
  predicate SelectionRight(infos: seq<TensorInfo>, selection: seq<nat>)
    requires Selectable(infos, selection)
  {
    var sizes, chosen := InfoSizes(infos), InfoSizes(Chosen(infos, selection));
    forall k :: 0 <= k < |selection| ==>
      var t := selection[k];
      && (t < |selection| ==> chosen[t] == sizes[t])
      && (sizes[t] > 0 ==>
            && (if t < |selection| then Sum(chosen[..t]) else Sum(sizes[..t])) == TrueOffset(sizes, t)
            && Sum(chosen) == SampleLength(sizes))
  }

  lemma RebuiltTablesAt(infos: seq<TensorInfo>, selection: seq<nat>, t: nat)
    requires Selectable(infos, selection) && t < |infos|
    ensures var tb, sizes := RebuiltTables(infos, selection), InfoSizes(infos);
            var chosen := InfoSizes(Chosen(infos, selection));
            && tb.sizes[t] == (if t < |selection| then chosen[t] else sizes[t])
            && tb.offsets[t] == (if t < |selection| then Sum(chosen[..t]) else Sum(sizes[..t]))
            && tb.sampleSize == Sum(chosen)
  {
    hide InfoSize, Sum, FileTables;
    FileTablesAt(infos, t);
  }

  /**
   With a tensors-sequence the tables are rebuilt for the selected tensors but still indexed with
   their old numbers. The selected tensors are read as recorded, for all contents, if and only if
   the sizes, offsets and the sample size happen to agree at the selected numbers.
   */
  lemma SelectionReadsIff(infos: seq<TensorInfo>, selection: seq<nat>)
    requires Selectable(infos, selection)
    ensures AlwaysReads(infos, RebuiltTables(infos, selection), selection) <==>
            Unallocatable(infos) || SelectionRight(infos, selection)
  {
    hide AlwaysReads, Unallocatable, RebuiltTables, RightAt, SelectionRight;
    TablesReadIff(infos, RebuiltTables(infos, selection), selection);
    RightEverywhere(infos, selection);
  }

  lemma RightEverywhere(infos: seq<TensorInfo>, selection: seq<nat>)
    requires Selectable(infos, selection)
    ensures SelectionRight(infos, selection) <==>
            forall k :: 0 <= k < |selection| ==> RightAt(infos, RebuiltTables(infos, selection), selection[k])
  {
    hide InfoSize, Sum, RebuiltTables, TrueOffset, SampleLength;
    forall k | 0 <= k < |selection|
      ensures var tb, sizes, chosen, t :=
                RebuiltTables(infos, selection), InfoSizes(infos), InfoSizes(Chosen(infos, selection)), selection[k];
              && tb.sizes[t] == (if t < |selection| then chosen[t] else sizes[t])
              && tb.offsets[t] == (if t < |selection| then Sum(chosen[..t]) else Sum(sizes[..t]))
              && tb.sampleSize == Sum(chosen)
    {
      RebuiltTablesAt(infos, selection, selection[k]);
    }
  }

  // ----- streams that are misread -----

  /** Behind fifteen plain memories the file of a packed buffer goes on with the packed header. */
  lemma HeaderInFile(mems: seq<Memory>, items: seq<Item>)
    requires Represents(mems, items) && AllSizesAgree(items) && |items| > MEMORY_MAX
    ensures var at := Sum(InfoSizes(InfosOf(items))[..MEMORY_MAX - 1]);
            at < |FileOf([mems])| && FileOf([mems])[at] == EXTRA_MAGIC % 0x100
  {
    hide Flatten, TotalSize, Sum, InfoSize, Get64, ExtraInfo;
    var n := MEMORY_MAX - 1;
    OnceFlattened(mems);
    FlattenSlice(mems, n);
    SizesOf(items, n);
    assert mems[..n] == BytesOf(items)[..n];
    var at := TotalSize(mems[..n]);
    assert Flatten(mems)[at] == Flatten(mems)[at..at + |mems[n]|][0] == mems[n][0];
    assert Get32(mems[n], 0) == EXTRA_MAGIC;
  }

  lemma OnceFlattened(mems: seq<Block>)
    ensures FileOf([mems]) == Flatten(mems)
  {
    FlattenOne(mems);
  }

  lemma {:induction false} OnesSum(sizes: seq<nat>)
    requires forall k :: 0 <= k < |sizes| ==> sizes[k] == 1
    ensures Sum(sizes) == |sizes|
  {
    if sizes != [] {
      OnesSum(sizes[..|sizes| - 1]);
    }
  }

  /** Seventeen one-byte tensors of value 0: the sixteenth is read as the first byte of the header. */
  lemma SeventeenMisread()
    ensures var items := Copies(Item([0], ByteVector(1)), 17);
            && Fits(items) && StaticSample(Memories(items), items, InfosOf(items))
            && FileTables(InfosOf(items)).offsets[15] == 15 && FileTables(InfosOf(items)).sizes[15] == 1
            && ReadWindow(FileOf([Memories(items)]), 15, 1) == Some([0xde]) && items[15].bytes == [0]
  {
    hide ByteVector, InfoSize, Represents, Memories, Flatten, Sum, Fits, FileTables, FileOf;
    var items := Copies(Item([0], ByteVector(1)), 17);
    SmallTensorsFit(items);
    MemoriesRepresent(items);
    var mems := Memories(items);
    OnesSum(InfoSizes(InfosOf(items))[..15]);
    FileTablesAt(InfosOf(items), 15);
    HeaderInFile(mems, items);
    var file := FileOf([mems]);
    assert file[15] == EXTRA_MAGIC % 0x100 == 0xde;
    assert file[15..16] == [file[15]];
  }

  /** A float32 tensor of dimension `1:1:n:1`. */
  function Floats(n: Word32): (info: TensorInfo)
    requires 0 < n < 1000
    ensures InfoValid(info) && InfoSize(info) == 4 * n
  {
    var d: Dimension := [1, 1, n, 1, 0, 0, 0, 0, 0, 0, 0, 0, 0, 0, 0, 0];
    FloatsCount(d, n);
    TensorInfo(7, d)
  }

  lemma FloatsCount(d: Dimension, n: Word32)
    requires 0 < n < 1000 && d[0] == 1 && d[1] == 1 && d[2] == n && d[3] == 1
    requires forall k :: 4 <= k < RANK_LIMIT ==> d[k] == 0
    ensures DimensionValid(d) && ElementCount(d) == n
  {
    hide Product;
    var r := Rank(d);
    assert r < RANK_LIMIT ==> d[r] == 0;
    assert d[4] == 0;
    ProductStep(d, 0);
    ProductStep(d, 1);
    ProductStep(d, 2);
    ProductStep(d, 3);
  }

  lemma ProductStep(d: Dimension, k: nat)
    requires k < RANK_LIMIT
    ensures Product(d, 0) == 1 && Product(d, k + 1) == Wrap64(Product(d, k) * d[k])
  {
  }

  /** The four tensors of the example in the comment of `gst_data_repo_src_read_tensors`. */
  function ExampleInfos(): (r: seq<TensorInfo>)
    ensures |r| == 4
  {
    [Floats(784), Floats(10), Floats(784), Floats(10)]
  }

  lemma ExampleSizes()
    ensures InfoSizes(ExampleInfos()) == [3136, 40, 3136, 40]
  {
    hide Floats, InfoSize;
  }

  /** The tensors-sequence 2,1 of that example: the sample size becomes 3176 instead of 6352. */
  lemma ExampleSelectionMisread()
    ensures !AlwaysReads(ExampleInfos(), RebuiltTables(ExampleInfos(), [2, 1]), [2, 1])
  {
    hide ExampleInfos, AlwaysReads, InfoSize, RebuiltTables;
    var infos, selection := ExampleInfos(), [2, 1];
    var sizes, chosen := InfoSizes(infos), InfoSizes(Chosen(infos, selection));
    ExampleSizes();
    assert chosen == [sizes[2], sizes[1]] == [3136, 40];
    assert Sum(chosen) == 3176 by { SumOfTwo(3136, 40); }
    assert Sum(sizes) == 6352 by {
      SumSplit(sizes, 2);
      assert sizes[..2] == [3136, 40] && sizes[2..] == [3136, 40];
      SumOfTwo(3136, 40);
    }
    assert !SelectionRight(infos, selection) by { assert selection[0] == 2 && sizes[2] > 0; }
    SelectionReadsIff(infos, selection);
  }

  lemma SumOfTwo(a: nat, b: nat)
    ensures Sum([a, b]) == a + b
  {
    var one, two := [a], [a, b];
    assert two[..1] == one && one[..0] == [];
    assert Sum(one) == Sum(one[..0]) + a;
    assert Sum(two) == Sum(two[..1]) + b;
  }

  // ----- reading and replay -----

  /** The selected windows can be read. */
  predicate InFile(file: Block, tb: Tables, at: nat, selection: seq<nat>)
  {
    forall k :: 0 <= k < |selection| ==>
      selection[k] < SIZE_LIMIT && ReadWindow(file, at + tb.offsets[selection[k]], tb.sizes[selection[k]]).Some?
  }

  /** The selected tensors as they are appended; the descriptions go by position in the selection. */
  function Picked(file: Block, tb: Tables, at: nat, selection: seq<nat>, infos: seq<TensorInfo>): (r: seq<Item>)
    requires InFile(file, tb, at, selection) && |selection| <= |infos|
    ensures |r| == |selection|
    ensures forall k :: 0 <= k < |selection| ==>
              r[k] == Item(ReadWindow(file, at + tb.offsets[selection[k]], tb.sizes[selection[k]]).value, infos[k])
  {
    seq(|selection|, k requires 0 <= k < |selection| =>
      Item(ReadWindow(file, at + tb.offsets[selection[k]], tb.sizes[selection[k]]).value, infos[k]))
  }

  lemma PickedAt(file: Block, tb: Tables, at: nat, selection: seq<nat>, infos: seq<TensorInfo>, k: nat)
    requires InFile(file, tb, at, selection) && k < |selection| <= |infos|
    ensures selection[k] < SIZE_LIMIT
    ensures var window := ReadWindow(file, at + tb.offsets[selection[k]], tb.sizes[selection[k]]);
            window.Some? && Picked(file, tb, at, selection, infos)[k] == Item(window.value, infos[k])
  {
  }

  /** A window that can be read is read. */
  method ReadOne(file: Block, pos: nat, size: Word64, interrupts: nat) returns (r: Option<Memory>)
    ensures ReadWindow(file, pos, size).Some? ==> r == ReadWindow(file, pos, size)
  {
    var mem := ReadAt(file, pos, size, interrupts);
    r := if mem.None? then None else Some(mem.value);
  }

  /** The reads of one sample. */
  method ReadSelected(file: Block, tb: Tables, at: nat, selection: seq<nat>, infos: seq<TensorInfo>, interrupts: nat)
    returns (r: Option<seq<Item>>)
    requires |selection| <= |infos| && forall k :: 0 <= k < |selection| ==> selection[k] < SIZE_LIMIT
    ensures r.Some? ==> |r.value| == |selection| && forall k :: 0 <= k < |selection| ==> r.value[k].info == infos[k]
    ensures InFile(file, tb, at, selection) ==> r == Some(Picked(file, tb, at, selection, infos))
  {
    hide InFile, Picked, ReadWindow;
    ghost var inside := InFile(file, tb, at, selection);
    ghost var goal := if inside then Picked(file, tb, at, selection, infos) else [];
    var items: seq<Item> := [];
    for k := 0 to |selection|
      invariant |items| == k && (forall j :: 0 <= j < k ==> items[j].info == infos[j])
      invariant inside ==> |goal| == |selection| && forall j :: 0 <= j < k ==> items[j] == goal[j]
    {
      var t := selection[k];
      if inside {
        PickedAt(file, tb, at, selection, infos, k);
      }
      var mem := ReadOne(file, at + tb.offsets[t], tb.sizes[t], interrupts);
      if mem.None? {
        return None;
      }
      items := items + [Item(mem.value, infos[k])];
    }
    assert inside ==> items == goal;
    r := Some(items);
  }

  /**
   `gst_data_repo_src_read_tensors`, for any file and any tables: the windows of the selected
   tensors, however the reads split the transfer, appended to a new buffer.
   */
  method ReadTensors(file: Block, tb: Tables, i: nat, selection: seq<nat>, infos: seq<TensorInfo>, interrupts: nat)
    returns (r: Option<seq<Memory>>)
    requires |selection| <= |infos| && forall k :: 0 <= k < |selection| ==> selection[k] < SIZE_LIMIT
    requires forall k :: 0 <= k < |infos| ==> InfoValid(infos[k])
    ensures InFile(file, tb, tb.sampleSize * i, selection) ==>
              && r.Some?
              && var items := Picked(file, tb, tb.sampleSize * i, selection, infos);
                 |items| <= MEMORY_MAX || (Sound(StoredAll(items)) && Fits(items)) ==>
                   StandsFor(r.value, StoredAll(items))
  {
    hide InfoValid, StandsFor, StoredInfo, Sound, Fits, InFile, Picked;
    var items := ReadSelected(file, tb, tb.sampleSize * i, selection, infos, interrupts);
    if items.None? {
      return None;
    }
    var buffer := new Buffer();
    var ok := buffer.AppendAll(items.value);
    r := Some(buffer.mems);
  }

  method RecordStatic(buffers: seq<seq<Memory>>) returns (file: Block)
    ensures file == FileOf(buffers)
  {
    hide FileOf;
    var sink := new StaticSink();
    for i := 0 to |buffers|
      invariant sink.Valid() && fresh(sink) && sink.samples == buffers[..i]
    {
      sink.WriteOthers(buffers[i]);
    }
    assert buffers[..|buffers|] == buffers;
    file := sink.file;
  }

  /** A tensors-sequence, if the property is set; otherwise all tensors are read. */
  function SelectionOf(infos: seq<TensorInfo>, sequence: Option<seq<nat>>): seq<nat>
  {
    if sequence.Some? then sequence.value else Range(0, |infos|)
  }

  function TablesOf(infos: seq<TensorInfo>, sequence: Option<seq<nat>>): Tables
    requires Selectable(infos, SelectionOf(infos, sequence))
  {
    if sequence.Some? then RebuiltTables(infos, sequence.value) else FileTables(infos)
  }

  /** All tensors of a stream of at most sixteen are found. */
  lemma PlainIsRight(infos: seq<TensorInfo>, k: nat)
    requires |infos| <= MEMORY_MAX && k < |infos|
    ensures RightAt(infos, FileTables(infos), SelectionOf(infos, None)[k])
  {
    hide InfoSize, Sum, FileTables;
    FileTablesAt(infos, k);
  }

  lemma PickedIsChosen(samples: seq<seq<Memory>>, lists: seq<seq<Item>>, tb: Tables, i: nat, at: nat,
                       selection: seq<nat>, infos: seq<TensorInfo>)
    requires ReadsSelected(samples, lists, tb, selection) && i < |lists| && at == tb.sampleSize * i
    requires |selection| <= |infos|
    ensures InFile(FileOf(samples), tb, at, selection)
    ensures forall k :: 0 <= k < |selection| ==> selection[k] < |lists[i]|
    ensures BytesOf(StoredAll(Picked(FileOf(samples), tb, at, selection, infos)))
            == Chosen(BytesOf(lists[i]), selection)
  {
    hide FileOf, StoredInfo, ReadWindow;
    forall k | 0 <= k < |selection| ensures ReadsTensor(samples, lists, tb, i, selection[k]) {
    }
  }

  /** Reading one sample with tables that find every selected tensor. */
  method ReadSample(file: Block, tb: Tables, i: nat, selection: seq<nat>, infos: seq<TensorInfo>, interrupts: nat,
                    ghost samples: seq<seq<Memory>>, ghost lists: seq<seq<Item>>)
    returns (mems: seq<Memory>)
    requires file == FileOf(samples) && i < |lists| && ReadsSelected(samples, lists, tb, selection)
    requires |selection| <= |infos| && |selection| <= MEMORY_MAX
    requires forall k :: 0 <= k < |selection| ==> selection[k] < SIZE_LIMIT
    requires forall k :: 0 <= k < |infos| ==> InfoValid(infos[k])
    ensures forall k :: 0 <= k < |selection| ==> selection[k] < |lists[i]|
    ensures mems == Chosen(BytesOf(lists[i]), selection)
  {
    hide FileOf, InfoValid, InFile, Picked, Chosen, ReadsSelected, Sound;
    PickedIsChosen(samples, lists, tb, i, tb.sampleSize * i, selection, infos);
    var r := ReadTensors(file, tb, i, selection, infos, interrupts);
    mems := r.value;
  }

  /**
   Writer, tables, reader and replay together. If the entries of the selected tensors are right
   (which `PlainIsRight` and `SelectionReadsIff` decide), a run delivers, at position `k`, the
   selected tensors of the sample recorded under the index chosen for `k`, each in a memory of
   its own.
   */
  method StaticReplay(buffers: seq<seq<Memory>>, infos: seq<TensorInfo>, sequence: Option<seq<nat>>, start: nat,
                      stop: nat, epochs: nat, isShuffle: bool, interrupts: nat, ghost lists: seq<seq<Item>>)
    returns (out: seq<seq<Memory>>, indices: seq<nat>, ghost orders: seq<seq<nat>>)
    requires RecordedAs(buffers, lists, infos) && forall k :: 0 <= k < |infos| ==> InfoValid(infos[k])
    requires var selection := SelectionOf(infos, sequence);
             && Selectable(infos, selection) && |selection| <= MEMORY_MAX
             && forall k :: 0 <= k < |selection| ==> RightAt(infos, TablesOf(infos, sequence), selection[k])
    requires start <= stop < |buffers| && epochs >= 1
    ensures indices == Flatten(orders) && |orders| == epochs && orders[0] == Range(start, stop - start + 1)
    ensures |out| == |indices| == epochs * (stop - start + 1)
    ensures forall e :: 0 <= e < |orders| ==> Permutes(orders[e], start, stop - start + 1)
    ensures var selection := SelectionOf(infos, sequence);
            forall k :: 0 <= k < |out| ==>
              && indices[k] < |lists| && |lists[indices[k]]| == |infos|
              && out[k] == Chosen(BytesOf(lists[indices[k]]), selection)
  {
    hide Flatten, FileOf, Permutes, StaticSample, InfoValid, InfoSize, Chosen, ReadsSelected, RightAt, Parsed;
    var file := RecordStatic(buffers);
    var selection := SelectionOf(infos, sequence);
    var tb := ParseCaps(NoTables(), infos);
    var config := infos;
    if sequence.Some? {
      config := Chosen(infos, selection);
      tb := ParseCaps(tb, config);
    }
    assert tb == TablesOf(infos, sequence);
    RightReadsSelected(buffers, lists, infos, tb, selection);
    var player := new Player(start, stop, epochs, isShuffle);
    indices, orders := player.Play();
    out := [];
    for k := 0 to |indices|
      invariant |out| == k
      invariant forall j :: 0 <= j < k ==>
        && indices[j] < |lists| && |lists[indices[j]]| == |infos|
        && out[j] == Chosen(BytesOf(lists[indices[j]]), selection)
    {
      SampleCount(buffers, lists, infos, indices[k]);
      var mems := ReadSample(file, tb, indices[k], selection, config, interrupts, buffers, lists);
      out := out + [mems];
    }
  }

  lemma SampleCount(samples: seq<seq<Memory>>, lists: seq<seq<Item>>, infos: seq<TensorInfo>, i: nat)
    requires RecordedAs(samples, lists, infos) && i < |samples|
    ensures i < |lists| && |lists[i]| == |infos|
  {
    assert StaticSample(samples[i], lists[i], infos);
  }

  lemma RightReadsSelected(samples: seq<seq<Memory>>, lists: seq<seq<Item>>, infos: seq<TensorInfo>, tb: Tables,
                           selection: seq<nat>)
    requires RecordedAs(samples, lists, infos) && |infos| <= SIZE_LIMIT
    requires forall k :: 0 <= k < |selection| ==> selection[k] < |infos| && RightAt(infos, tb, selection[k])
    ensures ReadsSelected(samples, lists, tb, selection)
  {
    hide RecordedAs, RightAt, ReadsTensor;
    RecordedLength(samples, lists, infos);
    forall i, k | 0 <= i < |lists| && 0 <= k < |selection|
      ensures ReadsTensor(samples, lists, tb, i, selection[k])
    {
      RightReads(samples, lists, infos, tb, i, selection[k]);
    }
  }
}
