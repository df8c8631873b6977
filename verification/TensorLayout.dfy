/** Tensor layouts and strides of tensorflow/stream_executor/dnn.cc.

A batch descriptor stores one number per logical axis (batch, depth and any number of spatial
axes).  A layout lists those axes in some order; strides are always computed in the order of the
descriptor's own (physical) layout and then reordered to the layout the caller asks for.
*/
module TensorLayout {
  import opened Common

  datatype DataLayout = YXDepthBatch | YXBatchDepth | BatchYXDepth | BatchDepthYX | BatchDepthYX4

  // ---------------------------------------------------------------------------------------
  // What a layout means: the order in which it lists the axes
  // ---------------------------------------------------------------------------------------

  /** One value per logical axis. */
  datatype Axes = Axes(batch: int, depth: int, spatial: seq<int>)

  /** The values of the axes in the order that the name of the layout spells out. */
  function Arrange(layout: DataLayout, a: Axes): (s: seq<int>)
    ensures |s| == |a.spatial| + 2
  {
    match layout
    case YXDepthBatch => a.spatial + [a.depth, a.batch]
    case YXBatchDepth => a.spatial + [a.batch, a.depth]
    case BatchYXDepth => [a.batch] + a.spatial + [a.depth]
    case BatchDepthYX => [a.batch, a.depth] + a.spatial
    case BatchDepthYX4 => [a.batch, a.depth] + a.spatial
  }

  /** The axes that a sequence in the given layout lists. */
  function AxesOf(layout: DataLayout, s: seq<int>): (a: Axes)
    requires |s| >= 2
    ensures |a.spatial| == |s| - 2
  {
    var n := |s|;
    match layout
    case YXDepthBatch => Axes(s[n - 1], s[n - 2], s[..n - 2])
    case YXBatchDepth => Axes(s[n - 2], s[n - 1], s[..n - 2])
    case BatchYXDepth => Axes(s[0], s[n - 1], s[1..n - 1])
    case BatchDepthYX => Axes(s[0], s[1], s[2..])
    case BatchDepthYX4 => Axes(s[0], s[1], s[2..])
  }

  lemma ArrangeAxesOf(layout: DataLayout, s: seq<int>)
    requires |s| >= 2
    ensures Arrange(layout, AxesOf(layout, s)) == s
  {
  }

  lemma AxesOfArrange(layout: DataLayout, a: Axes)
    ensures AxesOf(layout, Arrange(layout, a)) == a
  {
    assert AxesOf(layout, Arrange(layout, a)).spatial == a.spatial;
  }

  /** Reordering keeps every axis value and moves it to where the target layout wants it. */
  function Reorder(s: seq<int>, from: DataLayout, to: DataLayout): (r: seq<int>)
    requires |s| >= 2
    ensures |r| == |s|
  {
    Arrange(to, AxesOf(from, s))
  }

  /** Going through an intermediate layout changes nothing. */
  lemma ReorderComposes(s: seq<int>, a: DataLayout, b: DataLayout, c: DataLayout)
    requires |s| >= 2
    ensures Reorder(Reorder(s, a, b), b, c) == Reorder(s, a, c)
  {
    AxesOfArrange(b, AxesOf(a, s));
  }

  /** Coming back restores the sequence. */
  lemma ReorderRoundTrips(s: seq<int>, a: DataLayout, b: DataLayout)
    requires |s| >= 2
    ensures Reorder(Reorder(s, a, b), b, a) == s
  {
    ReorderComposes(s, a, b, a);
    ArrangeAxesOf(a, s);
  }

  lemma ArrangeMultiset(layout: DataLayout, a: Axes)
    ensures multiset(Arrange(layout, a)) == multiset{a.batch, a.depth} + multiset(a.spatial)
  {
    var b, d := a.batch, a.depth;
    assert multiset([b, d]) == multiset([d, b]) == multiset{b, d};
    assert [b] + a.spatial + [d] == [b] + (a.spatial + [d]);
  }

  /** No value is lost or duplicated. */
  lemma ReorderIsPermutation(s: seq<int>, from: DataLayout, to: DataLayout)
    requires |s| >= 2
    ensures multiset(Reorder(s, from, to)) == multiset(s)
  {
    ArrangeMultiset(from, AxesOf(from, s));
    ArrangeMultiset(to, AxesOf(from, s));
    ArrangeAxesOf(from, s);
  }

  // ---------------------------------------------------------------------------------------
  // The operations of dnn.cc
  // ---------------------------------------------------------------------------------------

  datatype DimIndices = DimIndices(depth: int, batch: int, spatial: int)

  /** Where a layout puts the depth axis, the batch axis and the first spatial axis. */
  function GetDimIndices(layout: DataLayout, dataDims: int): (r: DimIndices)
    requires dataDims >= 2
    ensures 0 <= r.batch < dataDims && 0 <= r.depth < dataDims && r.batch != r.depth
    ensures 0 <= r.spatial <= 2
    ensures !(r.spatial <= r.batch < r.spatial + dataDims - 2)
    ensures !(r.spatial <= r.depth < r.spatial + dataDims - 2)
  {
    match layout
    case YXBatchDepth => DimIndices(dataDims - 1, dataDims - 2, 0)
    case YXDepthBatch => DimIndices(dataDims - 2, dataDims - 1, 0)
    case BatchYXDepth => DimIndices(dataDims - 1, 0, 1)
    case BatchDepthYX => DimIndices(1, 0, 2)
    case BatchDepthYX4 => DimIndices(1, 0, 2)
  }

  /** The indices find the axes in every sequence of that layout. */
  lemma DimIndicesLocateAxes(layout: DataLayout, s: seq<int>)
    requires |s| >= 2
    ensures
      var i, a := GetDimIndices(layout, |s|), AxesOf(layout, s);
      && s[i.batch] == a.batch && s[i.depth] == a.depth
      && forall k :: 0 <= k < |s| - 2 ==> s[i.spatial + k] == a.spatial[k]
  {
  }

  /** A sequence that shows the axes at the positions of a layout is the arrangement. */
  lemma ArrangeFromPositions(layout: DataLayout, a: Axes, s: seq<int>)
    requires |s| == |a.spatial| + 2
    requires
      var i := GetDimIndices(layout, |s|);
      && s[i.batch] == a.batch && s[i.depth] == a.depth
      && forall k :: 0 <= k < |s| - 2 ==> s[i.spatial + k] == a.spatial[k]
    ensures s == Arrange(layout, a)
  {
    var i := GetDimIndices(layout, |s|);
    assert s[i.spatial..i.spatial + |s| - 2] == a.spatial;
  }

  method ReorderDims(input: seq<int>, from: DataLayout, to: DataLayout) returns (r: seq<int>)
    requires |input| >= 2
    ensures r == Reorder(input, from, to)
  {
    if from == to {
      ArrangeAxesOf(from, input);
      return input;
    }
    ghost var axes := AxesOf(from, input);
    DimIndicesLocateAxes(from, input);
    var n := |input|;
    var f := GetDimIndices(from, n);
    var t := GetDimIndices(to, n);
    var reordered := new int[n];
    reordered[t.batch] := input[f.batch];
    reordered[t.depth] := input[f.depth];
    var spatialFrom, spatialTo := f.spatial, t.spatial;
    for i := 0 to n - 2
      invariant spatialFrom == f.spatial + i && spatialTo == t.spatial + i
      invariant reordered[t.batch] == input[f.batch] && reordered[t.depth] == input[f.depth]
      invariant forall k :: 0 <= k < i ==> reordered[t.spatial + k] == axes.spatial[k]
    {
      reordered[spatialTo] := input[spatialFrom];
      spatialFrom, spatialTo := spatialFrom + 1, spatialTo + 1;
    }
    r := reordered[..];
    ArrangeFromPositions(to, axes, r);
  }

  /** The fields of a batch descriptor that dimensions and strides depend on. */
  datatype BatchDescriptor = BatchDescriptor(count: int, featureMaps: int, spatial: seq<int>, layout: DataLayout)
  {
    function Dims(): Axes { Axes(count, featureMaps, spatial) }

    /** No axis has a negative length. */
    predicate Valid() {
      count >= 0 && featureMaps >= 0 && forall i :: 0 <= i < |spatial| ==> spatial[i] >= 0
    }
  }

  function Product(s: seq<int>): int {
    if s == [] then 1 else s[0] * Product(s[1..])
  }

  /** Strides of a dense array whose last axis varies fastest: one step along an axis jumps over
      everything that lies to the right of it. */
  function RowMajorStrides(dims: seq<int>): (r: seq<int>)
    ensures |r| == |dims|
  {
    if dims == [] then [] else [Product(dims[1..])] + RowMajorStrides(dims[1..])
  }

  method FullDims(d: BatchDescriptor, layout: DataLayout) returns (r: seq<int>)
    ensures r == Arrange(layout, d.Dims())
  {
    var bdyx := new int[|d.spatial| + 2];
    bdyx[0] := d.count;
    bdyx[1] := d.featureMaps;
    for i := 0 to |d.spatial|
      invariant bdyx[0] == d.count && bdyx[1] == d.featureMaps
      invariant bdyx[2..i + 2] == d.spatial[..i]
    {
      bdyx[i + 2] := d.spatial[i];
    }
    assert bdyx[..] == Arrange(BatchDepthYX, d.Dims());
    AxesOfArrange(BatchDepthYX, d.Dims());
    r := ReorderDims(bdyx[..], BatchDepthYX, layout);
  }

  /** The strides seen through a layout: computed in the physical layout, then reordered. */
  function Strides(d: BatchDescriptor, layout: DataLayout): (r: seq<int>)
    ensures |r| == |d.spatial| + 2
  {
    Reorder(RowMajorStrides(Arrange(d.layout, d.Dims())), d.layout, layout)
  }

  /** One step along axis k jumps over all the elements of the axes to its right. */
  lemma {:induction false} StrideAt(dims: seq<int>, k: nat)
    requires k < |dims|
    ensures RowMajorStrides(dims)[k] == Product(dims[k + 1..])
  {
    if k > 0 {
      StrideAt(dims[1..], k - 1);
      assert dims[1..][k..] == dims[k + 1..];
    }
  }

  /** The stride loop of full_strides, from the last axis to the first. */
  method DenseStrides(dims: seq<int>) returns (r: seq<int>)
    requires |dims| >= 2
    ensures r == RowMajorStrides(dims)
  {
    var ndims := |dims| - 2;
    var strides := new int[|dims|];
    strides[ndims + 1] := 1;
    var i := ndims;
    while i >= 0
      invariant -1 <= i <= ndims
      invariant forall k :: i < k < |dims| ==> strides[k] == Product(dims[k + 1..])
    {
      assert dims[i + 1..][1..] == dims[i + 2..];
      strides[i] := strides[i + 1] * dims[i + 1];
      i := i - 1;
    }
    r := strides[..];
    forall k | 0 <= k < |dims| ensures r[k] == RowMajorStrides(dims)[k] {
      StrideAt(dims, k);
    }
  }

  method FullStrides(d: BatchDescriptor, layout: DataLayout) returns (r: seq<int>)
    requires d.layout != BatchDepthYX4
    ensures r == Strides(d, layout)
  {
    var dims := FullDims(d, d.layout);
    var strides := DenseStrides(dims);
    r := ReorderDims(strides, d.layout, layout);
  }

  /** Where the strides of the axes come from, layout by layout: the axis that the layout names last is dense, and
      every other one jumps over all that are named after it. */
  lemma StridesByLayout(d: BatchDescriptor, k: nat)
    requires k < |d.spatial|
    ensures
      var s, n, c, m, later := Strides(d, BatchDepthYX), Product(d.spatial), d.count, d.featureMaps,
                               Product(d.spatial[k + 1..]);
      match d.layout
      case YXDepthBatch => s[0] == 1 && s[1] == c && s[k + 2] == later * (m * c)
      case YXBatchDepth => s[0] == m && s[1] == 1 && s[k + 2] == later * (c * m)
      case BatchYXDepth => s[0] == n * m && s[1] == 1 && s[k + 2] == later * m
      case BatchDepthYX => s[0] == m * n && s[1] == n && s[k + 2] == later
      case BatchDepthYX4 => true
  {
    match d.layout
    case YXDepthBatch => SpatialFirst(d, k);
    case YXBatchDepth => SpatialFirst(d, k);
    case BatchYXDepth => DepthLast(d, k);
    case BatchDepthYX => SpatialLast(d, k);
    case BatchDepthYX4 =>
  }

  lemma SpatialFirst(d: BatchDescriptor, k: nat)
    requires k < |d.spatial| && (d.layout == YXDepthBatch || d.layout == YXBatchDepth)
    ensures
      var s, c, m := RowMajorStrides(Arrange(d.layout, d.Dims())), d.count, d.featureMaps;
      var p, q := if d.layout == YXDepthBatch then m else c, if d.layout == YXDepthBatch then c else m;
      s[|s| - 1] == 1 && s[|s| - 2] == q && s[k] == Product(d.spatial[k + 1..]) * (p * q)
  {
    var dims, c, m := Arrange(d.layout, d.Dims()), d.count, d.featureMaps;
    var last := if d.layout == YXDepthBatch then [m, c] else [c, m];
    LastStride(dims);
    NextToLastStride(dims);
    ProductPair(last[0], last[1]);
    SpatialStride(dims, d.spatial[..k + 1], d.spatial[k + 1..], last, k);
  }

  lemma DepthLast(d: BatchDescriptor, k: nat)
    requires k < |d.spatial| && d.layout == BatchYXDepth
    ensures
      var s, m := RowMajorStrides(Arrange(d.layout, d.Dims())), d.featureMaps;
      s[|s| - 1] == 1 && s[0] == Product(d.spatial) * m && s[k + 1] == Product(d.spatial[k + 1..]) * m
  {
    var dims, c, m := Arrange(d.layout, d.Dims()), d.count, d.featureMaps;
    LastStride(dims);
    ProductPair(m, 0);
    SpatialStride(dims, [c] + d.spatial[..k + 1], d.spatial[k + 1..], [m], k + 1);
    SpatialStride(dims, [c], d.spatial, [m], 0);
  }

  lemma SpatialLast(d: BatchDescriptor, k: nat)
    requires k < |d.spatial| && d.layout == BatchDepthYX
    ensures
      var s, m, n := RowMajorStrides(Arrange(d.layout, d.Dims())), d.featureMaps, Product(d.spatial);
      s[0] == m * n && s[1] == n && s[k + 2] == Product(d.spatial[k + 1..])
  {
    var dims, c, m := Arrange(d.layout, d.Dims()), d.count, d.featureMaps;
    ProductPair(m, 0);
    ProductConcat([m], d.spatial);
    SpatialStride(dims, [c, m] + d.spatial[..k + 1], d.spatial[k + 1..], [], k + 2);
    SpatialStride(dims, [c, m], d.spatial, [], 1);
    SpatialStride(dims, [c], [m] + d.spatial, [], 0);
  }

  lemma SpatialStride(dims: seq<int>, before: seq<int>, middle: seq<int>, last: seq<int>, k: nat)
    requires dims == before + (middle + last) && k + 1 == |before|
    ensures RowMajorStrides(dims)[k] == Product(middle) * Product(last)
  {
    StrideAt(dims, k);
    assert dims[k + 1..] == middle + last;
    ProductConcat(middle, last);
  }

  lemma LastStride(dims: seq<int>)
    requires |dims| >= 1
    ensures RowMajorStrides(dims)[|dims| - 1] == 1
  {
    StrideAt(dims, |dims| - 1);
    assert dims[|dims|..] == [];
  }

  lemma NextToLastStride(dims: seq<int>)
    requires |dims| >= 2
    ensures RowMajorStrides(dims)[|dims| - 2] == dims[|dims| - 1]
  {
    var last := dims[|dims| - 1];
    StrideAt(dims, |dims| - 2);
    assert dims[|dims| - 1..] == [last];
    ProductPair(last, 0);
  }

  /** With positive lengths no stride exceeds the number of elements, nor does any product on the way to it:
      they fit into 64 bits whenever that number does. */
  lemma StridesFit(d: BatchDescriptor, layout: DataLayout, k: nat)
    requires d.count > 0 && d.featureMaps > 0 && forall i :: 0 <= i < |d.spatial| ==> d.spatial[i] > 0
    requires k < |d.spatial| + 2
    ensures 1 <= Strides(d, layout)[k] <= d.count * d.featureMaps * Product(d.spatial)
  {
    var dims := Arrange(d.layout, d.Dims());
    ArrangePositive(d.layout, d.Dims());
    ProductArrange(d.layout, d.Dims());
    var i := ReorderedFrom(RowMajorStrides(dims), d.layout, layout, k);
    StrideFits(dims, i);
  }

  lemma ArrangePositive(layout: DataLayout, a: Axes)
    requires a.batch > 0 && a.depth > 0 && forall i :: 0 <= i < |a.spatial| ==> a.spatial[i] > 0
    ensures forall i :: 0 <= i < |Arrange(layout, a)| ==> Arrange(layout, a)[i] > 0
  {
  }

  lemma ReorderedFrom(s: seq<int>, from: DataLayout, to: DataLayout, k: nat) returns (i: nat)
    requires 2 <= |s| && k < |s|
    ensures i < |s| && s[i] == Reorder(s, from, to)[k]
  {
    ReorderIsPermutation(s, from, to);
    assert Reorder(s, from, to)[k] in multiset(s);
    i :| 0 <= i < |s| && s[i] == Reorder(s, from, to)[k];
  }

  lemma {:induction false} StrideFits(dims: seq<int>, k: nat)
    requires k < |dims| && forall i :: 0 <= i < |dims| ==> dims[i] > 0
    ensures 1 <= RowMajorStrides(dims)[k] <= Product(dims)
  {
    var rest := Product(dims[1..]);
    PositiveProduct(dims[1..]);
    MulMonotone(1, dims[0], rest);
    if k > 0 { StrideFits(dims[1..], k - 1); }
  }

  lemma {:induction false} PositiveProduct(dims: seq<int>)
    requires forall i :: 0 <= i < |dims| ==> dims[i] > 0
    ensures Product(dims) >= 1
  {
    if dims != [] {
      PositiveProduct(dims[1..]);
      MulMonotone(1, dims[0], Product(dims[1..]));
    }
  }

  method NodesPerFeatureMap(d: BatchDescriptor) returns (r: int)
    ensures r == Product(d.spatial)
  {
    r := 1;
    for i := 0 to |d.spatial|
      invariant r == Product(d.spatial[..i])
    {
      assert d.spatial[..i + 1] == d.spatial[..i] + [d.spatial[i]];
      ProductConcat(d.spatial[..i], [d.spatial[i]]);
      r := r * d.spatial[i];
    }
    assert d.spatial[..|d.spatial|] == d.spatial;
  }

  method ElementCount(d: BatchDescriptor) returns (r: int)
    ensures forall layout :: r == Product(Arrange(layout, d.Dims()))
  {
    var nodes := NodesPerFeatureMap(d);
    r := d.count * d.featureMaps * nodes;
    forall layout ensures r == Product(Arrange(layout, d.Dims())) {
      ProductArrange(layout, d.Dims());
    }
  }

  lemma {:induction false} ProductConcat(a: seq<int>, b: seq<int>)
    ensures Product(a + b) == Product(a) * Product(b)
  {
    if a == [] {
      assert a + b == b;
    } else {
      assert (a + b)[1..] == a[1..] + b;
      ProductConcat(a[1..], b);
      assert a[0] * (Product(a[1..]) * Product(b)) == (a[0] * Product(a[1..])) * Product(b);
    }
  }

  /** The number of elements does not depend on the layout. */
  lemma ProductArrange(layout: DataLayout, a: Axes)
    ensures Product(Arrange(layout, a)) == a.batch * a.depth * Product(a.spatial)
  {
    var b, d, p := a.batch, a.depth, Product(a.spatial);
    ProductPair(b, d);
    ProductPair(d, b);
    match layout
    case YXDepthBatch => ProductConcat(a.spatial, [d, b]);
    case YXBatchDepth => ProductConcat(a.spatial, [b, d]);
    case BatchYXDepth =>
      ProductConcat([b] + a.spatial, [d]);
      ProductConcat([b], a.spatial);
    case BatchDepthYX => ProductConcat([b, d], a.spatial);
    case BatchDepthYX4 => ProductConcat([b, d], a.spatial);
  }

  lemma ProductPair(x: int, y: int)
    ensures Product([x]) == x && Product([x, y]) == x * y
  {
    assert [y][1..] == [] && Product([y]) == y * Product([]);
    assert [x][1..] == [] && [x, y][1..] == [y];
  }

  // ---------------------------------------------------------------------------------------
  // One memory offset per logical element
  // ---------------------------------------------------------------------------------------

  function Dot(a: seq<int>, b: seq<int>): int
    requires |a| == |b|
  {
    if a == [] then 0 else a[0] * b[0] + Dot(a[1..], b[1..])
  }

  predicate InRange(index: seq<int>, dims: seq<int>) {
    |index| == |dims| && forall k :: 0 <= k < |dims| ==> 0 <= index[k] < dims[k]
  }

  predicate Lengths(dims: seq<int>) {
    forall k :: 0 <= k < |dims| ==> dims[k] >= 0
  }

  lemma {:induction false} DotConcat(a: seq<int>, b: seq<int>, c: seq<int>, d: seq<int>)
    requires |a| == |b| && |c| == |d|
    ensures Dot(a + c, b + d) == Dot(a, b) + Dot(c, d)
  {
    if a == [] {
      assert a + c == c && b + d == d;
    } else {
      assert (a + c)[1..] == a[1..] + c && (b + d)[1..] == b[1..] + d;
      DotConcat(a[1..], b[1..], c, d);
    }
  }

  /** A dot product does not depend on the layout both sides are listed in. */
  lemma DotArrange(layout: DataLayout, a: Axes, b: Axes)
    requires |a.spatial| == |b.spatial|
    ensures Dot(Arrange(layout, a), Arrange(layout, b))
            == a.batch * b.batch + a.depth * b.depth + Dot(a.spatial, b.spatial)
  {
    assert forall x, y {:trigger Dot([x], [y])} :: Dot([x], [y]) == x * y + Dot([], []);
    assert forall x, y, z, w {:trigger Dot([x, y], [z, w])} ::
        [x, y][1..] == [y] && [z, w][1..] == [w] && Dot([x, y], [z, w]) == x * z + y * w;
    DotConcat(a.spatial, b.spatial, [a.depth, a.batch], [b.depth, b.batch]);
    DotConcat(a.spatial, b.spatial, [a.batch, a.depth], [b.batch, b.depth]);
    DotConcat([a.batch, a.depth], [b.batch, b.depth], a.spatial, b.spatial);
    DotConcat([a.batch], [b.batch], a.spatial, b.spatial);
    DotConcat([a.batch] + a.spatial, [b.batch] + b.spatial, [a.depth], [b.depth]);
  }

  lemma DotReorder(x: seq<int>, y: seq<int>, from: DataLayout, to: DataLayout)
    requires |x| == |y| >= 2
    ensures Dot(Reorder(x, from, to), Reorder(y, from, to)) == Dot(x, y)
  {
    ArrangeAxesOf(from, x);
    ArrangeAxesOf(from, y);
    DotArrange(from, AxesOf(from, x), AxesOf(from, y));
    DotArrange(to, AxesOf(from, x), AxesOf(from, y));
  }

  lemma InRangeReorder(index: seq<int>, dims: seq<int>, from: DataLayout, to: DataLayout)
    requires |dims| >= 2 && InRange(index, dims)
    ensures InRange(Reorder(index, from, to), Reorder(dims, from, to))
  {
    ArrangeAxesOf(from, index);
    ArrangeAxesOf(from, dims);
    InRangeArrange(from, AxesOf(from, index), AxesOf(from, dims));
    InRangeArrange(to, AxesOf(from, index), AxesOf(from, dims));
  }

  lemma InRangeConcat(a: seq<int>, b: seq<int>, c: seq<int>, d: seq<int>)
    requires |a| == |b| && |c| == |d|
    ensures InRange(a + c, b + d) <==> InRange(a, b) && InRange(c, d)
  {
    if InRange(a + c, b + d) {
      forall k | 0 <= k < |a| ensures 0 <= a[k] < b[k] { assert (a + c)[k] == a[k]; }
      forall k | 0 <= k < |c| ensures 0 <= c[k] < d[k] { assert (a + c)[|a| + k] == c[k]; }
    }
  }

  lemma InRangePair(x: int, y: int, m: int, n: int)
    ensures InRange([x, y], [m, n]) <==> 0 <= x < m && 0 <= y < n
    ensures InRange([x], [m]) <==> 0 <= x < m
  {
    if InRange([x, y], [m, n]) { assert [x, y][0] == x && [x, y][1] == y; }
    if InRange([x], [m]) { assert [x][0] == x; }
  }

  /** Being in range is a matter of each axis on its own. */
  lemma InRangeArrange(layout: DataLayout, i: Axes, d: Axes)
    requires |i.spatial| == |d.spatial|
    ensures InRange(Arrange(layout, i), Arrange(layout, d)) <==>
            0 <= i.batch < d.batch && 0 <= i.depth < d.depth && InRange(i.spatial, d.spatial)
  {
    InRangePair(i.batch, i.depth, d.batch, d.depth);
    InRangePair(i.depth, i.batch, d.depth, d.batch);
    match layout
    case YXDepthBatch => InRangeConcat(i.spatial, d.spatial, [i.depth, i.batch], [d.depth, d.batch]);
    case YXBatchDepth => InRangeConcat(i.spatial, d.spatial, [i.batch, i.depth], [d.batch, d.depth]);
    case BatchYXDepth =>
      InRangeConcat([i.batch] + i.spatial, [d.batch] + d.spatial, [i.depth], [d.depth]);
      InRangeConcat([i.batch], [d.batch], i.spatial, d.spatial);
    case BatchDepthYX => InRangeConcat([i.batch, i.depth], [d.batch, d.depth], i.spatial, d.spatial);
    case BatchDepthYX4 => InRangeConcat([i.batch, i.depth], [d.batch, d.depth], i.spatial, d.spatial);
  }

  lemma {:induction false} ProductNonNegative(dims: seq<int>)
    requires Lengths(dims)
    ensures Product(dims) >= 0
  {
    if dims != [] { ProductNonNegative(dims[1..]); }
  }

  /** The index whose offset is given: the digits of the offset in the mixed radix of the lengths. */
  function IndexAt(dims: seq<int>, offset: int): (index: seq<int>)
    ensures |index| == |dims|
  {
    if dims == [] then []
    else
      var p := Product(dims[1..]);
      if p == 0 then seq(|dims|, _ => 0) else [offset / p] + IndexAt(dims[1..], offset % p)
  }

  lemma DigitBound(i: int, d: int, p: int, rest: int)
    requires 0 <= i < d && 0 <= rest < p
    ensures 0 <= i * p + rest < d * p
  {
    assert i * p + p == (i + 1) * p <= d * p;
  }

  lemma LeadingDigit(q: int, r: int, d: int, p: int)
    requires r >= 0 && p >= 0 && q * p + r < d * p
    ensures q < d
  {
    if d <= q { MulMonotone(d, q, p); }
  }

  lemma DigitUnique(i: int, p: int, rest: int)
    requires 0 <= rest < p
    ensures (i * p + rest) / p == i && (i * p + rest) % p == rest
  {
    var n := i * p + rest;
    var q, r := n / p, n % p;
    assert n == q * p + r;
    assert (i + 1) * p == i * p + p && (q + 1) * p == q * p + p;
    LeadingDigit(q, r, i + 1, p);
    LeadingDigit(i, rest, q + 1, p);
  }

  lemma DigitSplit(n: int, d: int, p: int) returns (q: int, r: int)
    requires p >= 0 && 0 <= n < d * p
    ensures p > 0 && q == n / p && r == n % p
    ensures 0 <= q < d && 0 <= r < p && n == q * p + r
  {
    assert p > 0 by { if p == 0 { MulMonotone(0, d, p); } }
    q, r := n / p, n % p;
    LeadingDigit(q, r, d, p);
    if q < 0 { MulMonotone(q, -1, p); }
  }

  lemma {:induction false} RowMajorOffset(dims: seq<int>, index: seq<int>)
    requires Lengths(dims) && InRange(index, dims)
    ensures 0 <= Dot(index, RowMajorStrides(dims)) < Product(dims)
    ensures IndexAt(dims, Dot(index, RowMajorStrides(dims))) == index
  {
    if dims != [] {
      var p, rest := Product(dims[1..]), Dot(index[1..], RowMajorStrides(dims[1..]));
      RowMajorOffset(dims[1..], index[1..]);
      assert RowMajorStrides(dims)[1..] == RowMajorStrides(dims[1..]);
      DigitBound(index[0], dims[0], p, rest);
      DigitUnique(index[0], p, rest);
      assert index == [index[0]] + index[1..];
    }
  }

  lemma {:induction false} OffsetRowMajor(dims: seq<int>, offset: int)
    requires Lengths(dims) && 0 <= offset < Product(dims)
    ensures InRange(IndexAt(dims, offset), dims)
    ensures Dot(IndexAt(dims, offset), RowMajorStrides(dims)) == offset
  {
    if dims != [] {
      var p := Product(dims[1..]);
      ProductNonNegative(dims[1..]);
      var q, r := DigitSplit(offset, dims[0], p);
      OffsetRowMajor(dims[1..], r);
      var index := IndexAt(dims, offset);
      assert index[1..] == IndexAt(dims[1..], r);
      assert RowMajorStrides(dims)[1..] == RowMajorStrides(dims[1..]);
    }
  }

  /** Whichever layout the caller asks for, an element lies at the same offset. */
  lemma OffsetIndependentOfLayout(d: BatchDescriptor, a: DataLayout, b: DataLayout, index: seq<int>)
    requires InRange(index, Arrange(a, d.Dims()))
    ensures InRange(Reorder(index, a, b), Arrange(b, d.Dims()))
    ensures Dot(Reorder(index, a, b), Strides(d, b)) == Dot(index, Strides(d, a))
  {
    AxesOfArrange(a, d.Dims());
    InRangeReorder(index, Arrange(a, d.Dims()), a, b);
    ReorderComposes(RowMajorStrides(Arrange(d.layout, d.Dims())), d.layout, a, b);
    DotReorder(index, Strides(d, a), a, b);
  }

  lemma PhysicalStrides(d: BatchDescriptor)
    ensures Strides(d, d.layout) == RowMajorStrides(Arrange(d.layout, d.Dims()))
  {
    ArrangeAxesOf(d.layout, RowMajorStrides(Arrange(d.layout, d.Dims())));
  }

  /** The index, in the asked layout, of the element stored at an offset. */
  function ElementAt(d: BatchDescriptor, layout: DataLayout, offset: int): (index: seq<int>)
    ensures |index| == |d.spatial| + 2
  {
    Reorder(IndexAt(Arrange(d.layout, d.Dims()), offset), d.layout, layout)
  }

  /** Offsets are in range, and no two elements share one: the element is recovered from it. */
  lemma OffsetIsInjective(d: BatchDescriptor, layout: DataLayout, index: seq<int>)
    requires d.Valid() && InRange(index, Arrange(layout, d.Dims()))
    ensures 0 <= Dot(index, Strides(d, layout)) < d.count * d.featureMaps * Product(d.spatial)
    ensures ElementAt(d, layout, Dot(index, Strides(d, layout))) == index
  {
    var dims := Arrange(d.layout, d.Dims());
    var phys := Reorder(index, layout, d.layout);
    OffsetIndependentOfLayout(d, layout, d.layout, index);
    PhysicalStrides(d);
    RowMajorOffset(dims, phys);
    ProductArrange(d.layout, d.Dims());
    ReorderRoundTrips(index, layout, d.layout);
  }

  /** Every offset below the element count is the offset of an element. */
  lemma OffsetIsSurjective(d: BatchDescriptor, layout: DataLayout, offset: int)
    requires d.Valid() && 0 <= offset < d.count * d.featureMaps * Product(d.spatial)
    ensures InRange(ElementAt(d, layout, offset), Arrange(layout, d.Dims()))
    ensures Dot(ElementAt(d, layout, offset), Strides(d, layout)) == offset
  {
    var dims := Arrange(d.layout, d.Dims());
    ProductArrange(d.layout, d.Dims());
    OffsetRowMajor(dims, offset);
    PhysicalStrides(d);
    OffsetIndependentOfLayout(d, d.layout, layout, IndexAt(dims, offset));
  }
}
