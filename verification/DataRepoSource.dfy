/**
 The data repository reader: random access to samples through the index arrays or the
 offset table, and the replay of a range of samples over several epochs, shuffled in place
 between epochs.
 */
module DataRepoSource {
  import opened Bytes
  import opened Options
  import opened TensorMeta
  import opened TensorBuffer
  import opened DataRepoSink

  // ----- reading bytes -----

  /**
   The read loop. Each `read` may deliver any positive part of what was asked for, and may be
   interrupted up to `interrupts` times; at the end of the file it delivers nothing. The buffer
   is uninitialised memory.
   */
  method ReadAt(file: Block, pos: nat, size: nat, interrupts: nat) returns (r: Option<Block>)
    ensures pos + size <= |file| ==> r == Some(file[pos..pos + size])
    ensures size == 0 ==> r == Some([])
    ensures size > 0 && pos >= |file| ==> r == None
    ensures r.Some? ==> |r.value| == size
    ensures r.Some? && pos < |file| < pos + size ==> r.value[..|file| - pos] == file[pos..]
  {
    var data: Block := *;
    if |data| != size {
      data := Zeros(size);
    }
    var toRead, byteRead, patience := size, 0, interrupts;
    while toRead > 0
      invariant 0 <= toRead && 0 <= byteRead && toRead + byteRead == size == |data|
      invariant byteRead > 0 ==> pos + byteRead <= |file|
      invariant pos + byteRead <= |file| ==> data[..byteRead] == file[pos..pos + byteRead]
      decreases toRead, patience
    {
      var interrupted: bool := *;
      if interrupted && patience > 0 {
        patience := patience - 1;
        continue;
      }
      var available := if pos + byteRead < |file| then |file| - pos - byteRead else 0;
      if available == 0 {
        if byteRead > 0 {
          break;
        }
        return None;
      }
      var limit := if toRead < available then toRead else available;
      var n :| 1 <= n <= limit;
      ghost var before := data;
      var chunk := file[pos + byteRead..pos + byteRead + n];
      data := Put(data, byteRead, chunk);
      ChunkAppended(file, pos, byteRead, n, before, data);
      toRead := toRead - n;
      byteRead := byteRead + n;
    }
    if toRead == 0 {
      assert data[..size] == data;
    } else {
      assert file[pos..pos + byteRead] == file[pos..];
    }
    r := Some(data);
  }

  lemma ChunkAppended(file: Block, pos: nat, read: nat, n: nat, before: Block, after: Block)
    requires pos + read + n <= |file| && read + n <= |before|
    requires before[..read] == file[pos..pos + read]
    requires after == Put(before, read, file[pos + read..pos + read + n])
    ensures after[..read + n] == file[pos..pos + read + n]
  {
  }

  // ----- flexible samples -----

  /** `gst_data_repo_src_get_num_tensors`; the last sample is bounded by the size array. */
  function NumTensors(ix: Index, i: nat): int
    requires i < |ix.tensorCount|
  {
    (if i + 1 == |ix.tensorCount| then |ix.tensorSize| else ix.tensorCount[i + 1]) - ix.tensorCount[i]
  }

  lemma TotalSizeThrough<T>(ss: seq<seq<T>>, i: nat)
    requires i < |ss|
    ensures i + 1 == |ss| ==> TotalSize(ss) == TotalSize(ss[..i]) + |ss[i]|
    ensures TotalSize(ss[..i + 1]) == TotalSize(ss[..i]) + |ss[i]|
  {
    TotalSizeStep(ss, i);
    if i + 1 == |ss| {
      assert ss[..i + 1] == ss;
    }
  }

  /** The cumulative counts delimit exactly the tensors of sample `i`, also for the last sample. */
  lemma NumTensorsIsLength(file: Block, ix: Index, samples: seq<seq<Block>>, i: nat)
    requires Describes(file, ix, samples) && i < |samples|
    ensures NumTensors(ix, i) == |samples[i]|
    ensures ix.tensorCount[i] + |samples[i]| <= |ix.tensorSize|
    ensures forall k :: 0 <= k < |samples[i]| ==> ix.tensorSize[ix.tensorCount[i] + k] == |samples[i][k]|
  {
    hide Flatten, TotalSize;
    TotalSizeThrough(samples, i);
    FlattenLength(samples);
    FlattenSlice(samples, i);
    var all, c := Flatten(samples), TotalSize(samples[..i]);
    forall k | 0 <= k < |samples[i]| ensures ix.tensorSize[c + k] == |samples[i][k]| {
      assert samples[i][k] == all[c..c + |samples[i]|][k] == all[c + k];
    }
  }

  /** Tensor `k` of sample `i` lies behind the samples before and the tensors before it. */
  lemma TensorInFile(samples: seq<seq<Block>>, i: nat, k: nat)
    requires i < |samples| && k < |samples[i]|
    ensures var at := TotalSize(Flatten(samples[..i])) + TotalSize(samples[i][..k]);
            at + |samples[i][k]| <= |FileOf(samples)| && FileOf(samples)[at..at + |samples[i][k]|] == samples[i][k]
  {
    hide Flatten, TotalSize;
    var all, s := Flatten(samples), samples[i];
    FlattenSplit(samples, i);
    var before := Flatten(samples[..i]);
    var j := |before| + k;
    assert all[j] == s[k];
    assert all[..j] == before + s[..k];
    TotalSizeConcat(before, s[..k]);
    FlattenSlice(all, j);
  }

  /** The index arrays locate tensor `k` of sample `i`: the sample offset plus the sizes before it. */
  lemma TensorAt(file: Block, ix: Index, samples: seq<seq<Block>>, i: nat, k: nat)
    requires Describes(file, ix, samples) && i < |samples| && k < |samples[i]|
    ensures var at := ix.sampleOffset[i] + TotalSize(samples[i][..k]);
            at + |samples[i][k]| <= |file| && file[at..at + |samples[i][k]|] == samples[i][k]
  {
    hide Flatten, TotalSize, FileOf;
    TensorInFile(samples, i, k);
  }

  /** No tensor is larger than an allocator can provide. */
  predicate Allocatable(bs: seq<Block>)
  {
    forall k :: 0 <= k < |bs| ==> |bs[k]| < TWO_64
  }

  /** A header is found at the beginning of every tensor; behind the end of a short one the reader looks at `past`. */
  predicate AllHeaders(bs: seq<Block>, past: seq<Surroundings>)
  {
    |past| == |bs| && forall k :: 0 <= k < |bs| ==> MetaValid(ParseHeader(bs[k] + past[k]))
  }

  /** The tensors of a sample as they are appended, each with the description taken from its header. */
  function FlexItems(bs: seq<Block>, past: seq<Surroundings>): (r: seq<Item>)
    requires |past| == |bs| && Allocatable(bs)
    ensures |r| == |bs|
    ensures forall k :: 0 <= k < |bs| ==> r[k] == Item(bs[k], ToInfo(ParseHeader(bs[k] + past[k])))
  {
    seq(|bs|, k requires 0 <= k < |bs| => Item(bs[k], ToInfo(ParseHeader(bs[k] + past[k]))))
  }

  /** What is found in a block of at least the size of the meta data does not depend on what lies behind it. */
  lemma PastIgnored(b: Block, past: Block)
    requires |b| >= META_SIZE
    ensures ParseHeader(b + past) == ParseHeader(b)
  {
    assert (b + past)[..META_SIZE] == b[..META_SIZE];
    ParseHeaderLocal(b + past, b);
  }

  /** One tensor of a sample is accepted, keeps its description, and does not pose as packed. */
  lemma FlexItemSound(b: Memory, past: Surroundings)
    requires MetaValid(ParseHeader(b + past))
    ensures var item := Item(b, ToInfo(ParseHeader(b + past)));
            Stored(item) == item && Accepted(item.bytes, item.info) && !LooksExtra(b)
  {
    hide DimensionValid, ParseHeader;
    if |b| >= META_SIZE {
      PastIgnored(b, past);
      assert Get32(b, 0) == META_MAGIC != EXTRA_MAGIC by { MagicIsFirst(b); }
    }
  }

  lemma MagicIsFirst(b: Block)
    requires |b| >= META_SIZE
    ensures ParseHeader(b).magic == Get32(b, 0)
  {
  }

  /** Tensors with headers are all accepted, none poses as packed, and the slots hold what is given. */
  lemma FlexItemsSound(bs: seq<Block>, past: seq<Surroundings>)
    requires AllHeaders(bs, past) && Allocatable(bs)
    ensures var items := FlexItems(bs, past);
            && StoredAll(items) == items && Honest(items) && BytesOf(items) == bs
            && forall k :: 0 <= k < |items| ==> Accepted(items[k].bytes, items[k].info)
  {
    hide MetaValid, ParseHeader, StoredInfo, Accepted, LooksExtra;
    forall k | 0 <= k < |bs|
      ensures var item := FlexItems(bs, past)[k];
              Stored(item) == item && Accepted(item.bytes, item.info) && !LooksExtra(item.bytes)
    {
      FlexItemSound(bs[k], past[k]);
    }
  }

  lemma SampleIsSmall(file: Block, ix: Index, samples: seq<seq<Block>>, i: nat)
    requires Describes(file, ix, samples) && i < |samples|
    ensures TotalSize(samples[i]) <= |file|
    ensures forall k :: 0 <= k < |samples[i]| ==> |samples[i][k]| <= |file|
  {
    hide Flatten, TotalSize;
    var s := samples[i];
    FlattenSplit(samples, i);
    FlattenLength(Flatten(samples));
    TotalSizeConcat(Flatten(samples[..i]) + s, Flatten(samples[i + 1..]));
    TotalSizeConcat(Flatten(samples[..i]), s);
    forall k | 0 <= k < |s| ensures |s[k]| <= |file| {
      TensorAt(file, ix, samples, i, k);
    }
  }

  lemma FlexItemsFit(bs: seq<Block>, past: seq<Surroundings>)
    requires |past| == |bs| && Allocatable(bs) && EXTRA_SIZE + TotalSize(bs) < TWO_64
    ensures Fits(FlexItems(bs, past))
  {
    hide TotalSize, ParseHeader;
    if |bs| > MEMORY_MAX {
      var n := MEMORY_MAX - 1;
      assert bs == bs[..n] + bs[n..];
      TotalSizeConcat(bs[..n], bs[n..]);
      assert BytesOf(FlexItems(bs, past)[n..]) == bs[n..];
    }
  }

  /** The buffer `mems` stands for the tensors `bs`, described by the headers found. */
  ghost predicate Delivers(mems: seq<Memory>, bs: seq<Block>, past: seq<Surroundings>)
  {
    && AllHeaders(bs, past) && Allocatable(bs)
    && Sound(FlexItems(bs, past)) && StandsFor(mems, FlexItems(bs, past))
  }

  /**
   `gst_data_repo_src_read_flexible_or_sparse_tensors`: through the index arrays the reader
   gets exactly the tensors written as sample `i` and appends them to a new buffer; it rejects
   a tensor without a header. `past` is what lies in memory behind the blocks read into.
   */
  method ReadFlexible(file: Block, ix: Index, i: nat, interrupts: nat, past: seq<Surroundings>,
                      ghost samples: seq<seq<Block>>)
    returns (r: Option<seq<Memory>>)
    requires Describes(file, ix, samples) && |file| < TWO_63
    requires i < |samples| && |past| == |samples[i]| <= SIZE_LIMIT
    ensures r.Some? <==> AllHeaders(samples[i], past)
    ensures r.Some? ==> Delivers(r.value, samples[i], past)
    ensures r.Some? && |samples[i]| <= MEMORY_MAX ==> r.value == samples[i]
  {
    hide MetaValid, ParseHeader, Flatten, TotalSize, Represents, ReadsBack, SizesAgree, Fits;
    NumTensorsIsLength(file, ix, samples, i);
    SampleIsSmall(file, ix, samples, i);
    var fdOffset := ix.sampleOffset[i];
    var tensorCount := ix.tensorCount[i];
    var numTensors := NumTensors(ix, i);
    var items: seq<Item> := [];
    assert TotalSize(samples[i][..0]) == 0 by { EmptyTotal(samples[i]); }
    for k := 0 to numTensors
      invariant AllHeaders(samples[i][..k], past[..k]) && items == FlexItems(samples[i][..k], past[..k])
      invariant fdOffset == ix.sampleOffset[i] + TotalSize(samples[i][..k])
    {
      var tensorSize := ix.tensorSize[tensorCount + k];
      TensorAt(file, ix, samples, i, k);
      TotalSizeStep(samples[i], k);
      var mem := ReadAt(file, fdOffset, tensorSize, interrupts);
      var meta := ParseHeader(mem.value + past[k]);
      if !MetaValid(meta) {
        return None;
      }
      fdOffset := fdOffset + tensorSize;
      items := items + [Item(mem.value, ToInfo(meta))];
    }
    assert samples[i][..numTensors] == samples[i] && past[..numTensors] == past;
    FlexItemsSound(samples[i], past);
    FlexItemsFit(samples[i], past);
    var buffer := new Buffer();
    var ok := buffer.AppendAll(items);
    assert |items| <= MEMORY_MAX ==> buffer.mems == samples[i];
    r := Some(buffer.mems);
  }

  lemma EmptyTotal(bs: seq<Block>)
    ensures TotalSize(bs[..0]) == 0
  {
  }

  // ----- epochs -----

  /** `start, start+1, ..., start+n-1` */
  function Range(start: nat, n: nat): (r: seq<nat>)
    ensures |r| == n
    ensures forall k :: 0 <= k < n ==> r[k] == start + k
  {
    seq(n, k requires 0 <= k < n => start + k)
  }

  ghost predicate Permutes(order: seq<nat>, start: nat, n: nat)
  {
    |order| == n && multiset(order) == multiset(Range(start, n))
  }

  lemma SwapPermutes(s: seq<nat>, i: nat, j: nat)
    requires i < |s| && j < |s|
    ensures multiset(s[i := s[j]][j := s[i]]) == multiset(s)
  {
  }

  lemma ShuffleNeeds(order: seq<nat>, start: nat, n: nat)
    requires Permutes(order, start, n)
    ensures |order| == n
  {
  }

  lemma ShuffleKeeps(before: seq<nat>, after: seq<nat>, start: nat, n: nat)
    requires Permutes(before, start, n) && |after| == n && multiset(after) == multiset(before)
    ensures Permutes(after, start, n)
  {
  }

  class Player {
    const start: nat
    const numSamples: nat
    const isShuffle: bool
    const totalEpochs: nat
    var epochs: nat
    var arrayIndex: nat
    var firstEpochIsDone: bool
    var currentSampleIndex: nat
    var shuffled: seq<nat>
    /** The orders of the finished epochs. */
    ghost var played: seq<seq<nat>>

    ghost predicate Valid()
      reads this
    {
      && 0 < numSamples && arrayIndex <= numSamples
      && epochs + |played| == totalEpochs
      && (firstEpochIsDone <==> |played| > 0)
      && (!firstEpochIsDone ==>
            shuffled == Range(start, arrayIndex) && currentSampleIndex == start + arrayIndex)
      && (firstEpochIsDone ==>
            && Permutes(shuffled, start, numSamples)
            && played[0] == Range(start, numSamples)
            && (!isShuffle ==> shuffled == Range(start, numSamples)))
      && (forall e :: 0 <= e < |played| ==> Permutes(played[e], start, numSamples))
      && (!isShuffle ==> forall e :: 0 <= e < |played| ==> played[e] == Range(start, numSamples))
    }

    /** The indices emitted so far. */
    ghost function Emitted(): seq<nat>
      reads this
      requires Valid()
    {
      Flatten(played) + shuffled[..arrayIndex]
    }

    constructor (start: nat, stop: nat, epochs: nat, isShuffle: bool)
      requires start <= stop && epochs >= 1
      ensures Valid() && Emitted() == [] && this.epochs == epochs == totalEpochs
      ensures this.start == start && numSamples == stop - start + 1 && this.isShuffle == isShuffle
    {
      this.start, numSamples := start, stop - start + 1;
      this.isShuffle, totalEpochs := isShuffle, epochs;
      this.epochs := epochs;
      arrayIndex, firstEpochIsDone, currentSampleIndex := 0, false, start;
      shuffled, played := [], [];
    }

    /** `gst_data_repo_src_shuffle_samples_index`: any random choices leave a permutation. */
    method Shuffle()
      requires numSamples > 0 && |shuffled| == numSamples
      modifies this`shuffled
      ensures |shuffled| == numSamples && multiset(shuffled) == multiset(old(shuffled))
    {
      var i := numSamples - 1;
      while i > 0
        invariant 0 <= i < numSamples == |shuffled|
        invariant multiset(shuffled) == multiset(old(shuffled))
      {
        var j :| 0 <= j < numSamples;
        SwapPermutes(shuffled, i, j);
        var valueI, valueJ := shuffled[i], shuffled[j];
        shuffled := shuffled[i := valueJ][j := valueI];
        i := i - 1;
      }
    }

    /** `gst_data_repo_src_epoch_is_done` */
    method EpochIsDone() returns (done: bool)
      requires Valid() && epochs > 0
      modifies this
      ensures Valid() && Emitted() == old(Emitted())
      ensures done == (old(arrayIndex) == numSamples)
      ensures done ==> arrayIndex == 0 && firstEpochIsDone && epochs == old(epochs) - 1
      ensures !done ==> arrayIndex == old(arrayIndex) && epochs == old(epochs) && arrayIndex < numSamples
    {
      if numSamples != arrayIndex {
        return false;
      }
      FlattenSnoc(played, shuffled);
      assert shuffled[..numSamples] == shuffled && shuffled[..0] == [];
      firstEpochIsDone := true;
      arrayIndex := 0;
      epochs := epochs - 1;
      played := played + [shuffled];
      assert Flatten(played) + [] == Flatten(played);
      done := true;
    }

    /** The choice of the next sample, common to all read functions; None means end of stream. */
    method NextIndex() returns (r: Option<nat>)
      requires Valid() && epochs > 0
      modifies this
      ensures Valid()
      ensures r.None? ==> epochs == 0 && arrayIndex == 0 && Emitted() == old(Emitted())
      ensures r.Some? ==> epochs > 0 && Emitted() == old(Emitted()) + [r.value]
      ensures r.Some? ==> epochs < old(epochs) || (epochs == old(epochs) && arrayIndex == old(arrayIndex) + 1)
      ensures r.Some? ==> start <= r.value < start + numSamples
    {
      hide Flatten, Permutes;
      var done := EpochIsDone();
      if done {
        if epochs == 0 {
          return None;
        }
        if isShuffle {
          ghost var before := shuffled;
          ShuffleNeeds(before, start, numSamples);
          Shuffle();
          ShuffleKeeps(before, shuffled, start, numSamples);
        }
        assert shuffled[..0] == [];
      }
      var value := TakeNext();
      r := Some(value);
    }

    /** Takes the next index from the array, which the first epoch fills on the way. */
    method TakeNext() returns (value: nat)
      requires Valid() && arrayIndex < numSamples
      modifies this`shuffled, this`currentSampleIndex, this`arrayIndex
      ensures Valid() && Emitted() == old(Emitted()) + [value]
      ensures arrayIndex == old(arrayIndex) + 1 && start <= value < start + numSamples
    {
      hide Flatten, Permutes;
      if firstEpochIsDone {
        ShuffleNeeds(shuffled, start, numSamples);
      }
      ghost var prefix := shuffled[..arrayIndex];
      if !firstEpochIsDone {
        shuffled := shuffled + [currentSampleIndex];
        currentSampleIndex := currentSampleIndex + 1;
        assert shuffled == Range(start, arrayIndex + 1);
      }
      value := shuffled[arrayIndex];
      InRange(shuffled, start, numSamples, firstEpochIsDone, arrayIndex);
      assert shuffled[..arrayIndex + 1] == prefix + [value];
      Associative(Flatten(played), prefix, [value]);
      arrayIndex := arrayIndex + 1;
    }

    /**
     A whole run: every epoch is a permutation of the range, the first one in ascending order,
     and exactly `epochs * numSamples` indices come out before the end of the stream.
     */
    method Play() returns (out: seq<nat>, ghost orders: seq<seq<nat>>)
      requires Valid() && epochs > 0 && Emitted() == []
      modifies this
      ensures Valid() && epochs == 0
      ensures out == Flatten(orders) && |orders| == totalEpochs
      ensures |out| == totalEpochs * numSamples
      ensures forall e :: 0 <= e < |orders| ==> Permutes(orders[e], start, numSamples)
      ensures orders[0] == Range(start, numSamples)
      ensures !isShuffle ==> forall e :: 0 <= e < |orders| ==> orders[e] == Range(start, numSamples)
      ensures forall k :: 0 <= k < |out| ==> start <= out[k] < start + numSamples
    {
      hide Flatten;
      out := [];
      var running := true;
      while running
        invariant Valid() && out == Emitted()
        invariant if running then epochs > 0 else epochs == 0 && arrayIndex == 0
        invariant forall k :: 0 <= k < |out| ==> start <= out[k] < start + numSamples
        decreases running, epochs, numSamples - arrayIndex
      {
        var next := NextIndex();
        match next
        case None => running := false;
        case Some(i) => out := out + [i];
      }
      orders := played;
      assert shuffled[..0] == [] && Flatten(played) + [] == Flatten(played);
      FlattenUniform(played, numSamples);
    }
  }

  /** Every index of an order, finished or being built, lies in the range. */
  lemma InRange(order: seq<nat>, start: nat, n: nat, finished: bool, k: nat)
    requires if finished then Permutes(order, start, n) else |order| <= n && order == Range(start, |order|)
    requires k < |order|
    ensures start <= order[k] < start + n
  {
    if finished {
      assert order[k] in multiset(order);
      assert order[k] in multiset(Range(start, n));
    }
  }

  /** The buffers that a writer can be given: the packed format keeps within its table. */
  predicate Countable(buffers: seq<seq<Memory>>)
  {
    forall i :: 0 <= i < |buffers| ==> |buffers[i]| <= MEMORY_MAX && Count(buffers[i]) <= SIZE_LIMIT
  }

  function Views(buffers: seq<seq<Memory>>): (r: seq<seq<Block>>)
    requires Countable(buffers)
    ensures |r| == |buffers| && forall i :: 0 <= i < |r| ==> r[i] == View(buffers[i])
  {
    seq(|buffers|, i requires 0 <= i < |buffers| => View(buffers[i]))
  }

  /** Memories and what lies behind each of them. */
  predicate Surrounded(buffers: seq<seq<Memory>>, pasts: seq<seq<Surroundings>>)
  {
    |pasts| == |buffers| && forall i :: 0 <= i < |buffers| ==> |pasts[i]| == |buffers[i]|
  }

  /** Every tensor of every buffer is written, and the file can hold them. */
  ghost predicate Recordable(buffers: seq<seq<Memory>>, pasts: seq<seq<Surroundings>>)
    requires Countable(buffers) && Surrounded(buffers, pasts)
  {
    && (forall i :: 0 <= i < |buffers| ==> AllWritable(buffers[i], pasts[i]))
    && |FileOf(Views(buffers))| < TWO_63
  }

  /** No tensor is shorter than the meta data of its header. */
  predicate AllLong(bs: seq<Block>)
  {
    forall k :: 0 <= k < |bs| ==> |bs[k]| >= META_SIZE
  }

  /** A long tensor that was written is accepted by the reader, whatever lies behind it there. */
  lemma LongIsAccepted(mems: seq<Memory>, past: seq<Surroundings>, readPast: seq<Surroundings>)
    requires |mems| <= MEMORY_MAX && |past| == |mems| && Count(mems) <= SIZE_LIMIT
    requires AllWritable(mems, past) && AllLong(View(mems)) && |readPast| == Count(mems)
    ensures AllHeaders(View(mems), readPast)
  {
    hide MetaValid, ParseHeader, Pointed, GetNth;
    var bs := View(mems);
    forall k | 0 <= k < |bs| ensures MetaValid(ParseHeader(bs[k] + readPast[k])) {
      assert Writable(mems, past, k) && Seen(mems, k) <= Pointed(mems, past, k);
      PastIgnored(bs[k], readPast[k]);
      PastIgnored(bs[k], Pointed(mems, past, k)[|bs[k]|..]);
      assert bs[k] + Pointed(mems, past, k)[|bs[k]|..] == Pointed(mems, past, k);
    }
  }

  /** A buffer that the reader may make of a sample. */
  ghost predicate MayDeliver(mems: seq<Memory>, bs: seq<Block>)
  {
    exists past: seq<Surroundings> :: Delivers(mems, bs, past)
  }

  /** Arbitrary memory behind `n` blocks. */
  method Behind(n: nat) returns (past: seq<Surroundings>)
    ensures |past| == n
  {
    past := *;
    if |past| != n {
      past := seq(n, _ => Zeros(META_SIZE));
    }
  }

  /**
   Writer, reader and replay together: buffers are recorded one after the other, and a run over
   a range of the repository delivers, at position `k`, a buffer with the tensors that the writer
   got from the buffer recorded under the index chosen for `k`. Only a tensor shorter than its
   header can make the reader give up.
   */
  method FlexibleReplay(buffers: seq<seq<Memory>>, pasts: seq<seq<Surroundings>>, start: nat, stop: nat, epochs: nat,
                        isShuffle: bool, interrupts: nat)
    returns (r: Option<(seq<seq<Memory>>, seq<nat>)>, ghost orders: seq<seq<nat>>)
    requires Countable(buffers) && Surrounded(buffers, pasts) && start <= stop < |buffers| && epochs >= 1
    ensures r.Some? ==> Recordable(buffers, pasts)
    ensures Recordable(buffers, pasts) && (forall i :: 0 <= i < |buffers| ==> AllLong(View(buffers[i]))) ==> r.Some?
    ensures r.Some? ==>
              var (out, indices) := r.value;
              && indices == Flatten(orders) && |orders| == epochs && orders[0] == Range(start, stop - start + 1)
              && |out| == |indices| == epochs * (stop - start + 1)
              && (forall e :: 0 <= e < |orders| ==> Permutes(orders[e], start, stop - start + 1))
              && (forall k :: 0 <= k < |out| ==>
                    indices[k] < |buffers| && MayDeliver(out[k], View(buffers[indices[k]])))
  {
    hide Flatten, AllWritable, AllHeaders, AllLong, Describes, Permutes, View, Delivers, Count;
    orders := [];
    var sink := new Sink();
    for i := 0 to |buffers|
      invariant sink.Valid() && fresh(sink) && sink.samples == Views(buffers)[..i]
      invariant forall j :: 0 <= j < i ==> AllWritable(buffers[j], pasts[j])
    {
      var ok := sink.WriteFlexible(buffers[i], pasts[i]);
      if !ok {
        return None, [];
      }
    }
    var file, index := sink.file, sink.index;
    ghost var samples := sink.samples;
    assert samples == Views(buffers);
    assert file == FileOf(samples) by { DescribedFile(file, index, samples); }
    if |file| >= TWO_63 {
      return None, [];  // no file has so many bytes
    }
    var player := new Player(start, stop, epochs, isShuffle);
    var indices;
    indices, orders := player.Play();
    var out: seq<seq<Memory>> := [];
    for k := 0 to |indices|
      invariant |out| == k
      invariant forall j :: 0 <= j < k ==>
        indices[j] < |buffers| && MayDeliver(out[j], View(buffers[indices[j]]))
    {
      var i := indices[k];
      var past := Behind(Count(buffers[i]));
      var sample := ReadFlexible(file, index, i, interrupts, past, samples);
      if sample.None? {
        if AllLong(View(buffers[i])) {
          LongIsAccepted(buffers[i], pasts[i], past);
        }
        return None, [];
      }
      assert Delivers(sample.value, View(buffers[i]), past);
      out := out + [sample.value];
    }
    r := Some((out, indices));
  }

  lemma DescribedFile(file: Block, ix: Index, samples: seq<seq<Block>>)
    requires Describes(file, ix, samples)
    ensures file == FileOf(samples)
  {
  }
}
