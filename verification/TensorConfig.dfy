/** Tensor stream configurations (`GstTensorsConfig`): validity, equality and tensor sizes. */
module TensorConfig {
  import opened Bytes
  import opened TensorMeta
  import Framerate

  /** `infos` are the first `num_tensors` entries of the info table. */
  datatype Config = Config(format: Word32, infos: seq<TensorInfo>, rateN: int, rateD: int)

  predicate InfosValid(c: Config)
  {
    && c.format < FORMAT_END
    && (c.format == FORMAT_STATIC ==>
          1 <= |c.infos| <= SIZE_LIMIT && forall k :: 0 <= k < |c.infos| ==> InfoValid(c.infos[k]))
  }

  predicate ConfigValid(c: Config)
  {
    c.rateN >= 0 && c.rateD > 0 && InfosValid(c)
  }

  /** A framerate that is not negative, a known format, and for a static one 1 to 256 valid tensors. */
  lemma ValidConfigs(c: Config)
    ensures ConfigValid(c) <==>
            && c.rateN >= 0 && c.rateD >= 1 && c.format <= 2
            && (c.format == 0 ==>
                  && |c.infos| > 0 && |c.infos| < 257
                  && forall info :: info in c.infos ==>
                       && info.elementType != 11 && info.dimension[0] > 0
                       && forall i, j :: 0 <= i < j < 16 && info.dimension[i] == 0 ==> info.dimension[j] == 0)
  {
    hide DimensionValid;
    forall info | info in c.infos
      ensures InfoValid(info) <==>
              && info.elementType != 11 && info.dimension[0] > 0
              && forall i, j :: 0 <= i < j < 16 && info.dimension[i] == 0 ==> info.dimension[j] == 0
    {
      ValidDimension(info.dimension);
    }
  }

  // ----- equality, declaratively -----

  /** Entry by entry equal, where an absent dimension and a dimension of 1 are alike. */
  predicate SameShape(a: Dimension, b: Dimension)
  {
    forall k :: 0 <= k < RANK_LIMIT ==> a[k] == b[k] || (a[k] <= 1 && b[k] <= 1)
  }

  predicate SameInfo(a: TensorInfo, b: TensorInfo)
  {
    a.elementType == b.elementType && SameShape(a.dimension, b.dimension)
  }

  /** The same rational number. */
  predicate SameRate(a: Config, b: Config)
  {
    a.rateN * b.rateD == b.rateN * a.rateD
  }

  predicate SameStream(a: Config, b: Config)
  {
    && SameRate(a, b)
    && a.format == b.format
    && (a.format == FORMAT_STATIC ==>
          |a.infos| == |b.infos| && forall k :: 0 <= k < |a.infos| ==> SameInfo(a.infos[k], b.infos[k]))
  }

  // ----- the loops of the source -----

  method DimensionIsEqual(a: Dimension, b: Dimension) returns (r: bool)
    ensures r <==> DimensionValid(a) && DimensionValid(b) && SameShape(a, b)
  {
    if !DimensionValid(a) || !DimensionValid(b) {
      return false;
    }
    for i := 0 to RANK_LIMIT
      invariant forall k :: 0 <= k < i ==> a[k] == b[k] || (a[k] <= 1 && b[k] <= 1)
    {
      if a[i] != b[i] {
        if a[i] > 1 || b[i] > 1 {
          return false;
        }
      }
    }
    return true;
  }

  method InfoIsEqual(a: TensorInfo, b: TensorInfo) returns (r: bool)
    ensures r <==> InfoValid(a) && InfoValid(b) && SameInfo(a, b)
  {
    if !InfoValid(a) || !InfoValid(b) || a.elementType != b.elementType {
      return false;
    }
    r := DimensionIsEqual(a.dimension, b.dimension);
  }

  /** `gst_tensors_config_is_equal`, with the info comparison it ends in. */
  method ConfigIsEqual(a: Config, b: Config) returns (r: bool)
    ensures r <==> ConfigValid(a) && ConfigValid(b) && SameStream(a, b)
  {
    if !ConfigValid(a) || !ConfigValid(b) {
      return false;
    }
    var order, _ := Framerate.CompareRate(a.rateN, a.rateD, b.rateN, b.rateD);
    if order != 0 {
      return false;
    }
    if a.format != b.format || a.format == FORMAT_END {
      return false;
    }
    if a.format != FORMAT_STATIC {
      return true;
    }
    if |a.infos| != |b.infos| {
      return false;
    }
    for i := 0 to |a.infos|
      invariant forall k :: 0 <= k < i ==> SameInfo(a.infos[k], b.infos[k])
    {
      var same := InfoIsEqual(a.infos[i], b.infos[i]);
      if !same {
        return false;
      }
    }
    return true;
  }

  // ----- an equivalence relation -----

  /** Reflexive, symmetric and transitive on valid configurations. */
  lemma SameStreamEquivalence(a: Config, b: Config, c: Config)
    requires ConfigValid(a) && ConfigValid(b) && ConfigValid(c)
    ensures SameStream(a, a)
    ensures SameStream(a, b) ==> SameStream(b, a)
    ensures SameStream(a, b) && SameStream(b, c) ==> SameStream(a, c)
  {
  }

  /** Ones behind the last dimension make no difference; any other difference does. */
  lemma TrailingOnes(d: Dimension, n: nat)
    requires DimensionValid(d) && Rank(d) <= n <= RANK_LIMIT
    ensures var e := d[..Rank(d)] + seq(n - Rank(d), _ => 1) + seq(RANK_LIMIT - n, _ => 0);
            DimensionValid(e) && Rank(e) == n && SameShape(d, e)
  {
    var e := d[..Rank(d)] + seq(n - Rank(d), _ => 1) + seq(RANK_LIMIT - n, _ => 0);
    assert forall k :: 0 <= k < n ==> e[k] > 0;
    assert forall k :: n <= k < RANK_LIMIT ==> e[k] == 0;
    var r := Rank(e);
    assert r < RANK_LIMIT ==> e[r] == 0;
    assert n < RANK_LIMIT ==> e[n] == 0;
  }

  lemma DifferencesMatter(a: Config, b: Config, k: nat, j: nat)
    requires a.format == FORMAT_STATIC && k < |a.infos| && j < RANK_LIMIT
    requires || b.format != FORMAT_STATIC || |b.infos| != |a.infos|
             || b.infos[k].elementType != a.infos[k].elementType
             || (&& b.infos[k].dimension[j] != a.infos[k].dimension[j]
                 && (b.infos[k].dimension[j] > 1 || a.infos[k].dimension[j] > 1))
    ensures !SameStream(a, b)
  {
  }

  // ----- sizes -----

  lemma {:induction false} ProductExtendsByOnes(d: Dimension, n: nat, m: nat)
    requires n <= m <= RANK_LIMIT
    requires forall k :: n <= k < m ==> d[k] == 1
    ensures Product(d, m) == Product(d, n)
  {
    hide Wrap64;
    if n < m {
      ProductExtendsByOnes(d, n, m - 1);
      WrapSmall(Product(d, m - 1));
      assert Product(d, m - 1) * d[m - 1] == Product(d, m - 1);
    }
  }

  lemma {:induction false} ProductAgrees(a: Dimension, b: Dimension, n: nat)
    requires n <= RANK_LIMIT && a[..n] == b[..n]
    ensures Product(a, n) == Product(b, n)
  {
    if n > 0 {
      assert a[..n - 1] == a[..n][..n - 1] && b[..n - 1] == b[..n][..n - 1];
      assert a[n - 1] == a[..n][n - 1] && b[n - 1] == b[..n][n - 1];
      ProductAgrees(a, b, n - 1);
    }
  }

  /** The shorter of two equal shapes is a prefix of the longer, which goes on with ones. */
  lemma SameShapeSameCount(a: Dimension, b: Dimension)
    requires DimensionValid(a) && DimensionValid(b) && SameShape(a, b)
    requires Rank(a) <= Rank(b)
    ensures ElementCount(a) == ElementCount(b)
  {
    hide Product;
    var n := Rank(a);
    forall k | 0 <= k < n ensures a[k] == b[k] {
      assert a[k] > 0 && b[k] > 0;
    }
    assert a[..n] == b[..n];
    ProductAgrees(a, b, n);
    forall k | n <= k < Rank(b) ensures b[k] == 1 {
      assert a[k] == 0 && b[k] > 0;
    }
    ProductExtendsByOnes(b, n, Rank(b));
  }

  /** Equal static streams agree on the byte size of every tensor. */
  lemma EqualStreamsSameSizes(a: Config, b: Config, k: nat)
    requires ConfigValid(a) && ConfigValid(b) && SameStream(a, b)
    requires a.format == FORMAT_STATIC && k < |a.infos|
    ensures InfoSize(a.infos[k]) == InfoSize(b.infos[k])
  {
    hide ElementCount, ElementSize;
    var x, y := a.infos[k], b.infos[k];
    assert SameInfo(x, y) && InfoValid(x) && InfoValid(y);
    if Rank(x.dimension) <= Rank(y.dimension) {
      SameShapeSameCount(x.dimension, y.dimension);
    } else {
      SameShapeSameCount(y.dimension, x.dimension);
    }
  }

  /** The loop of `gst_tensor_get_element_count`. */
  method GetElementCount(d: Dimension) returns (count: Word64)
    ensures count == ElementCount(d)
  {
    hide Wrap64;
    count := 1;
    var i := 0;
    while i < RANK_LIMIT && d[i] != 0
      invariant i <= Rank(d)
      invariant count == Product(d, i)
    {
      count := Wrap64(count * d[i]);
      i := i + 1;
    }
    if i == 0 {
      count := 0;
    }
  }

  // ----- what the counts mean -----

  /** A dimension cut in two pieces along one axis has as many elements as the pieces together. */
  lemma {:induction false} ProductAdditive(d: Dimension, k: nat, a: Word32, b: Word32, n: nat)
    requires k < n <= RANK_LIMIT && a + b < TWO_32
    ensures Product(d[k := a + b], n) == Wrap64(Product(d[k := a], n) + Product(d[k := b], n))
  {
    hide Wrap64;
    var p, q, r := d[k := a], d[k := b], d[k := a + b];
    if k == n - 1 {
      assert p[..k] == q[..k] == r[..k];
      ProductAgrees(p, q, k);
      ProductAgrees(p, r, k);
      WrapProductSum(Product(p, k), a, b);
    } else {
      ProductAdditive(d, k, a, b, n - 1);
      WrapDistributes(Product(p, n - 1), Product(q, n - 1), d[n - 1]);
    }
  }

  lemma WrapProductSum(x: int, a: int, b: int)
    ensures Wrap64(x * (a + b)) == Wrap64(Wrap64(x * a) + Wrap64(x * b))
  {
    WrapAdd(x * a, x * b);
    assert x * (a + b) == x * a + x * b;
  }

  lemma WrapDistributes(x: int, y: int, c: int)
    ensures Wrap64(Wrap64(x + y) * c) == Wrap64(Wrap64(x * c) + Wrap64(y * c))
  {
    WrapMul(x + y, c);
    WrapAdd(x * c, y * c);
    assert (x + y) * c == x * c + y * c;
  }

  /** Changing one positive entry to another positive one keeps the rank. */
  lemma RankKept(d: Dimension, k: nat, a: Word32)
    requires k < Rank(d) && a > 0
    ensures Rank(d[k := a]) == Rank(d)
  {
    var e := d[k := a];
    var r := if Rank(e) < Rank(d) then Rank(e) else Rank(d);
    assert r < RANK_LIMIT ==> (e[r] == 0 <==> d[r] == 0);
  }

  /**
   The element count is additive along every axis below the rank, and a single element counts
   one: together these laws leave only the number of elements, in 64-bit arithmetic.
   */
  lemma CountAdditive(d: Dimension, k: nat, a: Word32, b: Word32)
    requires k < Rank(d) && a > 0 && b > 0 && a + b < TWO_32
    ensures ElementCount(d[k := a + b]) == Wrap64(ElementCount(d[k := a]) + ElementCount(d[k := b]))
  {
    hide Product, Wrap64, Rank;
    RankKept(d, k, a);
    RankKept(d, k, b);
    RankKept(d, k, a + b);
    ProductAdditive(d, k, a, b, Rank(d));
  }

  lemma OnesCountOne(d: Dimension)
    requires Rank(d) > 0 && forall k :: 0 <= k < Rank(d) ==> d[k] == 1
    ensures ElementCount(d) == 1
  {
    ProductExtendsByOnes(d, 0, Rank(d));
  }

  /** The same laws for the size in bytes: additive along every axis, and one element has its width. */
  lemma SizeAdditive(t: Word32, d: Dimension, k: nat, a: Word32, b: Word32)
    requires k < Rank(d) && a > 0 && b > 0 && a + b < TWO_32
    ensures InfoSize(TensorInfo(t, d[k := a + b]))
            == Wrap64(InfoSize(TensorInfo(t, d[k := a])) + InfoSize(TensorInfo(t, d[k := b])))
  {
    hide ElementCount, ElementSize, Wrap64, Rank;
    CountAdditive(d, k, a, b);
    WrapDistributes(ElementCount(d[k := a]), ElementCount(d[k := b]), ElementSize(t));
  }

  lemma OneElementSize(t: Word32, d: Dimension)
    requires t < TYPE_END && Rank(d) > 0 && forall k :: 0 <= k < Rank(d) ==> d[k] == 1
    ensures InfoSize(TensorInfo(t, d)) == ELEMENT_SIZES[t]
  {
    hide ElementCount, Rank;
    OnesCountOne(d);
  }

  /** Without a dimension there is nothing. */
  lemma NoRankNoSize(info: TensorInfo)
    requires info.dimension[0] == 0
    ensures ElementCount(info.dimension) == 0 && InfoSize(info) == 0
  {
  }

  /**
   The data announced by a header: the tensor itself, or for a sparse one a value and a 4-byte
   index per nonzero element.
   */
  lemma AnnouncedData(m: Meta, a: Word32, b: Word32)
    requires Recognised(m) && m.elementType < TYPE_END && a + b < TWO_32
    ensures m.format != FORMAT_SPARSE ==> DataSize(m) == InfoSize(ToInfo(m))
    ensures m.format == FORMAT_SPARSE ==>
              && DataSize(m.(nnz := a + b)) == DataSize(m.(nnz := a)) + DataSize(m.(nnz := b))
              && DataSize(m.(nnz := 1)) == ELEMENT_SIZES[m.elementType] + 4
  {
    hide ElementCount;
    assert m.format == FORMAT_SPARSE ==>
        (a + b) * (ElementSize(m.elementType) + 4)
        == a * (ElementSize(m.elementType) + 4) + b * (ElementSize(m.elementType) + 4);
  }

  // ----- what a valid header is -----

  predicate Bit(v: Word32, power: nat)
    requires power > 0
  {
    v / power % 2 == 1
  }

  /** The version test asks for the bits of 0xDE000000, version one for bit 12 as well. */
  lemma VersionBits(v: Word32)
    ensures VersionValid(v) <==>
            && Bit(v, 0x8000_0000) && Bit(v, 0x4000_0000) && Bit(v, 0x1000_0000)
            && Bit(v, 0x0800_0000) && Bit(v, 0x0400_0000) && Bit(v, 0x0200_0000)
    ensures VersionOne(v) <==> VersionValid(v) && Bit(v, 0x1000)
  {
    var high := v / 0x100_0000;
    assert v / 0x8000_0000 == high / 128 && v / 0x4000_0000 == high / 64 && v / 0x1000_0000 == high / 16;
    assert v / 0x0800_0000 == high / 8 && v / 0x0400_0000 == high / 4 && v / 0x0200_0000 == high / 2;
  }

  /** Every field of a valid header matters: replacing one keeps it valid exactly for the values of its kind. */
  lemma HeaderFields(m: Meta, w: Word32, d: Dimension)
    requires MetaValid(m)
    ensures MetaValid(m.(magic := w)) <==> w == 0xfeed_cced
    ensures MetaValid(m.(version := w)) <==> VersionValid(w)
    ensures MetaValid(m.(elementType := w)) <==> w < 11
    ensures MetaValid(m.(dimension := d)) <==> d[0] > 0 && forall i, j :: 0 <= i < j < 16 && d[i] == 0 ==> d[j] == 0
    ensures MetaValid(m.(format := w)) <==> w < 3
    ensures MetaValid(m.(mediaType := w)) <==> w <= 4
    ensures MetaValid(m.(nnz := w))
  {
    ValidDimension(d);
    hide VersionValid, DimensionValid;
  }
}
