/**
 Tensor descriptions (`GstTensorInfo`) and the 128-byte header that a flexible or
 sparse tensor carries in front of its data (`GstTensorMetaInfo`).
 */
module TensorMeta {
  import opened Bytes

  const RANK_LIMIT: nat := 16
  const MEMORY_MAX: nat := 16
  const SIZE_LIMIT: nat := 256

  /** `_NNS_END`: one more than the last tensor type. */
  const TYPE_END: Word32 := 11

  const FORMAT_STATIC: Word32 := 0
  const FORMAT_FLEXIBLE: Word32 := 1
  const FORMAT_SPARSE: Word32 := 2
  const FORMAT_END: Word32 := 3
  const MEDIA_TENSOR: Word32 := 4

  type Dimension = d: seq<Word32> | |d| == RANK_LIMIT witness seq(RANK_LIMIT, _ => 0)

  datatype TensorInfo = TensorInfo(elementType: Word32, dimension: Dimension)

  datatype Meta = Meta(magic: Word32, version: Word32, elementType: Word32, dimension: Dimension,
                       format: Word32, mediaType: Word32, nnz: Word32)

  // ----- dimensions and sizes -----

  function RankFrom(d: Dimension, i: nat): (r: nat)
    requires i <= RANK_LIMIT
    ensures i <= r <= RANK_LIMIT
    ensures forall k :: i <= k < r ==> d[k] > 0
    ensures r < RANK_LIMIT ==> d[r] == 0
    decreases RANK_LIMIT - i
  {
    if i == RANK_LIMIT || d[i] == 0 then i else RankFrom(d, i + 1)
  }

  /** The position of the first zero. */
  function Rank(d: Dimension): (r: nat)
    ensures r <= RANK_LIMIT
    ensures forall k :: 0 <= k < r ==> d[k] > 0
    ensures r < RANK_LIMIT ==> d[r] == 0
  {
    RankFrom(d, 0)
  }

  predicate DimensionValid(d: Dimension)
  {
    Rank(d) > 0 && forall k :: Rank(d) <= k < RANK_LIMIT ==> d[k] == 0
  }

  /** A dimension is valid if it has an entry and no gap. */
  lemma ValidDimension(d: Dimension)
    ensures DimensionValid(d) <==> d[0] > 0 && forall i, j :: 0 <= i < j < 16 && d[i] == 0 ==> d[j] == 0
  {
    if d[0] > 0 && forall i, j :: 0 <= i < j < 16 && d[i] == 0 ==> d[j] == 0 {
      assert Rank(d) > 0;
    }
  }

  predicate InfoValid(info: TensorInfo)
  {
    info.elementType != TYPE_END && DimensionValid(info.dimension)
  }

  /** Bytes per element of int32, uint32, int16, uint16, int8, uint8, double, float, int64, uint64 and float16. */
  const ELEMENT_SIZES: seq<nat> := [4, 4, 2, 2, 1, 1, 8, 4, 8, 8, 2]

  function ElementSize(t: Word32): (n: nat)
    ensures n == if t < TYPE_END then ELEMENT_SIZES[t] else 0
    ensures n <= 8
  {
    if t == 6 || t == 8 || t == 9 then 8
    else if t == 0 || t == 1 || t == 7 then 4
    else if t == 2 || t == 3 || t == 10 then 2
    else if t == 4 || t == 5 then 1
    else 0
  }

  /** The 64-bit product of the first `n` dimensions. */
  function Product(d: Dimension, n: nat): (c: Word64)
    requires n <= RANK_LIMIT
  {
    if n == 0 then 1 else Wrap64(Product(d, n - 1) * d[n - 1])
  }

  function ElementCount(d: Dimension): (c: Word64)
  {
    if Rank(d) == 0 then 0 else Product(d, Rank(d))
  }

  function InfoSize(info: TensorInfo): (n: Word64)
  {
    Wrap64(ElementCount(info.dimension) * ElementSize(info.elementType))
  }

  // ----- header -----

  const META_MAGIC: Word32 := 0xfeed_cced
  const META_VERSION: Word32 := 0xDE00_1000

  /** Size of the header in front of the data. */
  const HEADER_SIZE: nat := 128

  /** Bytes of `GstTensorMetaInfo`: 22 words. */
  const META_SIZE: nat := 88

  /** `(v & 0xDE000000) == 0xDE000000`, bit by bit. */
  predicate VersionValid(v: Word32)
  {
    var high := v / 0x100_0000;
    high / 64 == 3 && high / 2 % 16 == 15
  }

  /** `VersionValid` and bit 12 set. */
  predicate VersionOne(v: Word32)
  {
    VersionValid(v) && v / 0x1000 % 2 == 1
  }

  predicate Recognised(m: Meta)
  {
    m.magic == META_MAGIC && VersionValid(m.version)
  }

  predicate MetaValid(m: Meta)
  {
    && Recognised(m)
    && m.elementType < TYPE_END
    && DimensionValid(m.dimension)
    && m.format < FORMAT_END
    && m.mediaType <= MEDIA_TENSOR
  }

  function HeaderSize(m: Meta): (n: nat)
    ensures n == 0 || n == HEADER_SIZE
  {
    if Recognised(m) && VersionOne(m.version) then HEADER_SIZE else 0
  }

  function DataSize(m: Meta): (n: Word64)
  {
    if !Recognised(m) then 0
    else if m.format == FORMAT_SPARSE then m.nnz * (ElementSize(m.elementType) + 4)
    else Wrap64(ElementSize(m.elementType) * ElementCount(m.dimension))
  }

  function ToInfo(m: Meta): (info: TensorInfo)
  {
    TensorInfo(m.elementType, m.dimension)
  }

  /** What `gst_tensor_info_convert_to_meta` makes of a tensor description. */
  function FromInfo(info: TensorInfo): (m: Meta)
    ensures ToInfo(m) == info
    ensures InfoValid(info) && info.elementType < TYPE_END ==> MetaValid(m)
  {
    Meta(META_MAGIC, META_VERSION, info.elementType, info.dimension, FORMAT_STATIC, MEDIA_TENSOR, 0)
  }

  /** A description becomes a header of version 1.0 in the static format, for a tensor. */
  lemma FreshMeta(info: TensorInfo)
    ensures FromInfo(info) == Meta(0xfeed_cced, 0xDE00_1000, info.elementType, info.dimension, 0, 4, 0)
  {
  }

  // ----- words in a block -----

  /** `n` consecutive 32-bit words starting at `off`. */
  function WordsAt(m: Block, off: nat, n: nat): (ws: seq<Word32>)
    requires off + 4 * n <= |m|
    ensures |ws| == n
    ensures forall k :: 0 <= k < n ==> ws[k] == Get32(m, off + 4 * k)
  {
    seq(n, k requires 0 <= k < n => Get32(m, off + 4 * k))
  }

  function Le32s(ws: seq<Word32>): (b: Block)
    ensures |b| == 4 * |ws|
  {
    if ws == [] then [] else Le32(ws[0]) + Le32s(ws[1..])
  }

  lemma {:induction false} Get32OfLe32s(ws: seq<Word32>, k: nat)
    requires k < |ws|
    ensures Get32(Le32s(ws), 4 * k) == ws[k]
  {
    hide Get32, Le32;
    var b, c := Le32s(ws), Le32s(ws[1..]);
    if k == 0 {
      Get32OfLe32(ws[0]);
      assert b[0..4] == Le32(ws[0])[0..4];
      Get32Local(b, Le32(ws[0]), 0, 0);
    } else {
      Get32OfLe32s(ws[1..], k - 1);
      assert b[4..] == c && b[4..] == b[4..|b|];
      SliceOfSlice(b, 4, |b|, 4 * k - 4, 4 * k);
      Get32Local(b, c, 4 * k, 4 * (k - 1));
    }
  }

  /** Words written one after the other anywhere in a block are read back. */
  lemma WordsAtOfLe32s(m: Block, off: nat, ws: seq<Word32>)
    requires off + 4 * |ws| <= |m|
    requires m[off..off + 4 * |ws|] == Le32s(ws)
    ensures WordsAt(m, off, |ws|) == ws
  {
    var c, n := Le32s(ws), |ws|;
    WordsAtLocal(m, c, off, 0, n);
    forall k | 0 <= k < n ensures WordsAt(c, 0, n)[k] == ws[k] {
      Get32OfLe32s(ws, k);
    }
  }

  lemma WordsAtLocal(m: Block, p: Block, off: nat, at: nat, n: nat)
    requires off + 4 * n <= |m| && at + 4 * n <= |p|
    requires m[off..off + 4 * n] == p[at..at + 4 * n]
    ensures WordsAt(m, off, n) == WordsAt(p, at, n)
  {
  }

  // ----- encoding and decoding -----

  function Words(m: Meta): (ws: seq<Word32>)
    ensures |ws| == 22
  {
    [m.magic, m.version, m.elementType] + m.dimension + [m.format, m.mediaType, m.nnz]
  }

  function Zeros(n: nat): (b: Block)
    ensures |b| == n
  {
    seq(n, _ => 0)
  }

  function EncodeHeader(m: Meta): (b: Block)
    ensures |b| == HEADER_SIZE
  {
    Le32s(Words(m)) + Zeros(HEADER_SIZE - META_SIZE)
  }

  /** The sparse count is read only when the format word says sparse. */
  function ParseHeader(b: Block): (m: Meta)
    requires |b| >= META_SIZE
  {
    var format := Get32(b, 76);
    Meta(Get32(b, 0), Get32(b, 4), Get32(b, 8), WordsAt(b, 12, RANK_LIMIT), format, Get32(b, 80),
         if format == FORMAT_SPARSE then Get32(b, 84) else 0)
  }

  /** `gst_tensor_meta_info_parse_memory`: a block too short for a header has none. */
  predicate HasHeader(b: Block)
  {
    |b| >= HEADER_SIZE && MetaValid(ParseHeader(b))
  }

  /** Parsing looks at nothing behind the 22 words. */
  lemma ParseHeaderLocal(a: Block, b: Block)
    requires |a| >= META_SIZE && |b| >= META_SIZE
    requires a[..META_SIZE] == b[..META_SIZE]
    ensures ParseHeader(a) == ParseHeader(b)
  {
    assert a[0..88] == b[0..88];
    WordsAtLocal(a, b, 0, 0, 22);
    var u, v := WordsAt(a, 0, 22), WordsAt(b, 0, 22);
    assert u[0] == v[0] && u[1] == v[1] && u[2] == v[2] && u[19] == v[19] && u[20] == v[20] && u[21] == v[21];
    assert WordsAt(a, 12, 16) == u[3..19] && WordsAt(b, 12, 16) == v[3..19];
  }

  /** Where the fields of a header lie. */
  lemma HeaderLayout(m: Meta, k: nat)
    requires k < RANK_LIMIT
    ensures var b := EncodeHeader(m);
            && Get32(b, 0) == m.magic && Get32(b, 4) == m.version && Get32(b, 8) == m.elementType
            && Get32(b, 12 + 4 * k) == m.dimension[k]
            && Get32(b, 76) == m.format && Get32(b, 80) == m.mediaType && Get32(b, 84) == m.nnz
  {
    hide Get32, Le32s;
    var b, ws := EncodeHeader(m), Words(m);
    assert b[0..0 + 4 * |ws|] == Le32s(ws);
    WordsAtOfLe32s(b, 0, ws);
    var u := WordsAt(b, 0, 22);
    assert Get32(b, 0 + 4 * 0) == u[0] && Get32(b, 0 + 4 * 1) == u[1] && Get32(b, 0 + 4 * 2) == u[2];
    assert Get32(b, 0 + 4 * (3 + k)) == u[3 + k] == m.dimension[k];
    assert Get32(b, 0 + 4 * 19) == u[19] && Get32(b, 0 + 4 * 20) == u[20] && Get32(b, 0 + 4 * 21) == u[21];
  }

  /** Header round trip: every meta with a meaningful sparse count survives, whatever data follows. */
  lemma HeaderRoundTrip(m: Meta, data: Block)
    requires m.format == FORMAT_SPARSE || m.nnz == 0
    ensures ParseHeader(EncodeHeader(m) + data) == m
  {
    var b := EncodeHeader(m) + data;
    var ws := Words(m);
    assert b[0..0 + 4 * |ws|] == Le32s(ws);
    WordsAtOfLe32s(b, 0, ws);
    var u := WordsAt(b, 0, 22);
    assert u[0] == m.magic && u[1] == m.version && u[2] == m.elementType;
    assert u[19] == m.format && u[20] == m.mediaType && u[21] == m.nnz;
    assert WordsAt(b, 12, 16) == u[3..19] == m.dimension;
  }
}
