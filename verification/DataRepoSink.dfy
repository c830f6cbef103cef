/**
 The data repository writer. Samples are appended to one byte file. For flexible tensors
 three index arrays are kept next to it: where each sample starts, how many tensors come
 before it, and the size of every tensor.
 */
module DataRepoSink {
  import opened Bytes
  import opened Options
  import opened TensorMeta
  import opened TensorBuffer

  /** Tensor `k` as the writer gets it from the buffer; a window outside the packed memory gives nothing. */
  function Seen(mems: seq<Memory>, k: nat): Block
    requires |mems| <= MEMORY_MAX && (k < SIZE_LIMIT || Count(mems) <= k)
  {
    match GetNth(mems, k)
    case None => []
    case Some(b) => b
  }

  /** All tensors as the writer gets them. */
  function View(mems: seq<Memory>): (r: seq<Block>)
    requires |mems| <= MEMORY_MAX && Count(mems) <= SIZE_LIMIT
    ensures |r| == Count(mems)
    ensures forall k :: 0 <= k < |r| ==> r[k] == Seen(mems, k)
  {
    seq(Count(mems), k requires 0 <= k < Count(mems) => Seen(mems, k))
  }

  /**
   What can be read from the data pointer of tensor `k` on. A packed tensor is a window of its
   memory: behind its end the memory goes on, and behind the memory lies `past`.
   */
  function Pointed(mems: seq<Memory>, past: seq<Surroundings>, k: nat): (r: Block)
    requires |mems| <= MEMORY_MAX && |past| == |mems| && k < SIZE_LIMIT && GetNth(mems, k) != None
    ensures |r| >= META_SIZE && Seen(mems, k) <= r
  {
    if Count(mems) <= MEMORY_MAX || k < MEMORY_MAX - 1 then mems[k] + past[k]
    else
      var p := mems[MEMORY_MAX - 1];
      var start := if k == MEMORY_MAX - 1 then EXTRA_SIZE else ExtraOffset(p, k - MEMORY_MAX);
      p[start..] + past[MEMORY_MAX - 1]
  }

  /** There is a tensor, and a header where its data begins; the source does not look at its size. */
  predicate Writable(mems: seq<Memory>, past: seq<Surroundings>, k: nat)
    requires |mems| <= MEMORY_MAX && |past| == |mems| && k < SIZE_LIMIT
  {
    GetNth(mems, k) != None && MetaValid(ParseHeader(Pointed(mems, past, k)))
  }

  predicate AllWritable(mems: seq<Memory>, past: seq<Surroundings>)
    requires |mems| <= MEMORY_MAX && |past| == |mems| && Count(mems) <= SIZE_LIMIT
  {
    forall k :: 0 <= k < Count(mems) ==> Writable(mems, past, k)
  }

  /** The index arrays of the JSON file. */
  datatype Index = Index(sampleOffset: seq<nat>, tensorCount: seq<nat>, tensorSize: seq<nat>)

  /** A sample is a list of tensors. The file and its index describe exactly `samples`. */
  ghost predicate Describes(file: Block, ix: Index, samples: seq<seq<Block>>)
  {
    && file == FileOf(samples)
    && ix.tensorSize == Lengths(Flatten(samples))
    && |ix.sampleOffset| == |ix.tensorCount| == |samples|
    && (forall i :: 0 <= i < |samples| ==> ix.tensorCount[i] == TotalSize(samples[..i]))
    && (forall i :: 0 <= i < |samples| ==> ix.sampleOffset[i] == TotalSize(Flatten(samples[..i])))
  }

  /** All samples, written one after the other. */
  function FileOf(samples: seq<seq<Block>>): Block
  {
    Flatten(Flatten(samples))
  }

  lemma FileOfSnoc(samples: seq<seq<Block>>, sample: seq<Block>)
    ensures FileOf(samples + [sample]) == FileOf(samples) + Flatten(sample)
  {
    hide Flatten;
    FlattenSnoc(samples, sample);
    FlattenConcat(Flatten(samples), sample);
  }

  lemma LengthsConcat(a: seq<Block>, b: seq<Block>)
    ensures Lengths(a + b) == Lengths(a) + Lengths(b)
  {
  }

  lemma FlattenSnoc<T>(ss: seq<seq<T>>, s: seq<T>)
    ensures Flatten(ss + [s]) == Flatten(ss) + s
  {
    FlattenConcat(ss, [s]);
    FlattenOne(s);
  }

  /** One more sample: its tensors go to the end of the file, one entry to each sample array. */
  lemma DescribesSnoc(file: Block, ix: Index, samples: seq<seq<Block>>, sample: seq<Block>)
    requires Describes(file, ix, samples)
    ensures Describes(
              file + Flatten(sample),
              Index(ix.sampleOffset + [|file|], ix.tensorCount + [|ix.tensorSize|], ix.tensorSize + Lengths(sample)),
              samples + [sample])
  {
    hide Flatten, TotalSize;
    var grown := samples + [sample];
    FlattenSnoc(samples, sample);
    FlattenConcat(Flatten(samples), sample);
    LengthsConcat(Flatten(samples), sample);
    FlattenLength(samples);
    FlattenLength(Flatten(samples));
    assert grown[..|samples|] == samples;
    forall i | 0 <= i < |samples| ensures grown[..i] == samples[..i] {
    }
  }

  class Sink {
    var file: Block
    var index: Index
    var fdOffset: nat
    var cumulativeTensors: nat
    var totalSamples: nat
    ghost var samples: seq<seq<Block>>

    ghost predicate Valid()
      reads this
    {
      && Describes(file, index, samples)
      && fdOffset == |file| && cumulativeTensors == |index.tensorSize| && totalSamples == |samples|
    }

    constructor ()
      ensures Valid() && samples == []
    {
      file, index := [], Index([], [], []);
      fdOffset, cumulativeTensors, totalSamples := 0, 0, 0;
      samples := [];
    }

    /**
     `gst_data_repo_sink_write_flexible_or_sparse_tensors`. A tensor without a header stops
     the sample: what was written of it stays in the file and the size array, without entries
     in the sample arrays.
     */
    method WriteFlexible(mems: seq<Memory>, past: seq<Surroundings>) returns (ok: bool)
      requires Valid() && |mems| <= MEMORY_MAX && |past| == |mems| && Count(mems) <= SIZE_LIMIT
      modifies this
      ensures ok <==> AllWritable(mems, past)
      ensures ok ==> Valid() && samples == old(samples) + [View(mems)]
      ensures !ok ==>
                var sample := View(mems);
                && index.sampleOffset == old(index).sampleOffset && index.tensorCount == old(index).tensorCount
                && totalSamples == old(totalSamples) && fdOffset == old(fdOffset)
                && exists k :: 0 <= k < |sample| && !Writable(mems, past, k)
                     && file == old(file) + Flatten(sample[..k])
                     && index.tensorSize == old(index).tensorSize + Lengths(sample[..k])
    {
      hide MetaValid, ParseHeader, Pointed, Flatten, Describes, GetNth, Count;
      var totalWrite := 0;
      var numTensors := Count(mems);
      ghost var sample := View(mems);
      EmptyPrefix(sample);
      for i := 0 to numTensors
        invariant forall k :: 0 <= k < i ==> Writable(mems, past, k)
        invariant file == old(file) + Flatten(sample[..i])
        invariant index == old(index).(tensorSize := old(index).tensorSize + Lengths(sample[..i]))
        invariant totalWrite == |Flatten(sample[..i])|
        invariant fdOffset == old(fdOffset) && totalSamples == old(totalSamples)
        invariant cumulativeTensors == old(cumulativeTensors) && samples == old(samples)
      {
        var mem := GetNth(mems, i);
        if mem.None? {
          assert !Writable(mems, past, i);
          return false;
        }
        assert sample[i] == Seen(mems, i) == mem.value;
        if !MetaValid(ParseHeader(Pointed(mems, past, i))) {
          assert !Writable(mems, past, i);
          return false;
        }
        NextTensor(old(file), old(index).tensorSize, sample, i);
        file := file + mem.value;
        index := index.(tensorSize := index.tensorSize + [|mem.value|]);
        totalWrite := totalWrite + |mem.value|;
      }
      assert sample[..|sample|] == sample;
      DescribesSnoc(old(file), old(index), samples, sample);
      index := index.(sampleOffset := index.sampleOffset + [fdOffset]);
      fdOffset := fdOffset + totalWrite;
      index := index.(tensorCount := index.tensorCount + [cumulativeTensors]);
      cumulativeTensors := cumulativeTensors + numTensors;
      totalSamples := totalSamples + 1;
      samples := samples + [sample];
      ok := true;
    }
  }

  lemma EmptyPrefix(sample: seq<Block>)
    ensures Flatten(sample[..0]) == [] && Lengths(sample[..0]) == []
  {
  }

  lemma NextTensor(file: Block, sizes: seq<nat>, sample: seq<Block>, i: nat)
    requires i < |sample|
    ensures file + Flatten(sample[..i]) + sample[i] == file + Flatten(sample[..i + 1])
    ensures sizes + Lengths(sample[..i]) + [|sample[i]|] == sizes + Lengths(sample[..i + 1])
    ensures |Flatten(sample[..i])| + |sample[i]| == |Flatten(sample[..i + 1])|
  {
    assert sample[..i + 1] == sample[..i] + [sample[i]];
    FlattenSnoc(sample[..i], sample[i]);
    Associative(file, Flatten(sample[..i]), sample[i]);
    LengthsConcat(sample[..i], [sample[i]]);
    Associative(sizes, Lengths(sample[..i]), [|sample[i]|]);
  }

  /** Static samples: `gst_data_repo_sink_write_others` writes the mapped buffer and counts it. */
  class StaticSink {
    var file: Block
    var fdOffset: nat
    var totalSamples: nat
    var sampleSize: nat
    ghost var samples: seq<seq<Memory>>

    ghost predicate Valid()
      reads this
    {
      file == FileOf(samples) && fdOffset == |file| && totalSamples == |samples|
    }

    constructor ()
      ensures Valid() && samples == []
    {
      file, fdOffset, totalSamples, sampleSize, samples := [], 0, 0, 0, [];
    }

    /** The mapped buffer is all its memories in a row, the header of a packed one included. */
    method WriteOthers(mems: seq<Memory>)
      requires Valid()
      modifies this
      ensures Valid() && samples == old(samples) + [mems] && sampleSize == |Flatten(mems)|
    {
      hide Flatten, FileOf;
      FileOfSnoc(samples, mems);
      var data := Flatten(mems);
      sampleSize := |data|;
      file := file + data;
      fdOffset := fdOffset + |data|;
      totalSamples := totalSamples + 1;
      samples := samples + [mems];
    }
  }
}
