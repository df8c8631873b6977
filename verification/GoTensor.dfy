/** Tensors made from nested Go values, tensorflow/go/tensor.go: the shape is derived by following
    index 0, the elements are written one after the other, and the shape drives the decoding. */
module GoTensor {
  import opened Bytes
  import opened Common
  import opened StringTensor
  import opened TensorLayout

  /** The supported element types.  A number is the bit pattern of its fixed width in bytes. */
  datatype Kind = BoolKind | NumberKind(width: nat) | StringKind | UnsupportedKind
  {
    predicate Numeric() { BoolKind? || (NumberKind? && width > 0) }

    function Width(): nat
      requires Numeric()
    {
      if BoolKind? then 1 else width
    }
  }

  datatype Value = Number(bits: nat) | Text(s: Str) | Slice(elems: seq<Value>)

  /** Go types are static: all elements lie at the same depth and have the same kind. */
  predicate HasType(v: Value, kind: Kind, depth: nat) {
    if depth == 0 then
      match v
      case Number(bits) => kind.Numeric() && bits < (if kind.BoolKind? then 2 else Power256(kind.Width()))
      case Text(_) => kind.StringKind?
      case Slice(_) => false
    else v.Slice? && forall i :: 0 <= i < |v.elems| ==> HasType(v.elems[i], kind, depth - 1)
  }

  // ---------------------------------------------------------------------------------------
  // Shapes and row-major order
  // ---------------------------------------------------------------------------------------

  /** A rectangular value: every slice at level k has the length of dimension k. */
  predicate HasShape(v: Value, shape: seq<int>) {
    if shape == [] then !v.Slice?
    else v.Slice? && |v.elems| == shape[0] && forall i :: 0 <= i < |v.elems| ==> HasShape(v.elems[i], shape[1..])
  }

  /** The elements from left to right. */
  function Leaves(v: Value): seq<Value>
    decreases v, 1
  {
    if v.Slice? then AllLeaves(v.elems) else [v]
  }

  function AllLeaves(es: seq<Value>): seq<Value>
    decreases es, 0
  {
    if es == [] then [] else AllLeaves(es[..|es| - 1]) + Leaves(es[|es| - 1])
  }

  /** The element at an index of the nested value. */
  function Lookup(v: Value, index: seq<int>): Value
    decreases |index|
  {
    if index == [] then v
    else if v.Slice? && 0 <= index[0] < |v.elems| then Lookup(v.elems[index[0]], index[1..])
    else v
  }

  lemma AllLeavesStep(es: seq<Value>, i: nat)
    requires i < |es|
    ensures AllLeaves(es[..i + 1]) == AllLeaves(es[..i]) + Leaves(es[i])
  {
    assert es[..i + 1][..i] == es[..i];
  }

  lemma {:induction false} LeafCount(v: Value, shape: seq<int>)
    requires HasShape(v, shape)
    ensures |Leaves(v)| == Product(shape)
    decreases shape, 0
  {
    if shape != [] { AllLeafCount(v.elems, shape[1..]); }
  }

  lemma {:induction false} AllLeafCount(es: seq<Value>, shape: seq<int>)
    requires forall i :: 0 <= i < |es| ==> HasShape(es[i], shape)
    ensures |AllLeaves(es)| == |es| * Product(shape)
    decreases shape, 1, |es|
  {
    if es != [] {
      var n := |es| - 1;
      AllLeafCount(es[..n], shape);
      LeafCount(es[n], shape);
      OneMore(n, Product(shape));
    }
  }

  /** Element k of a list of equally shaped values starts after k times their size. */
  lemma {:induction false} LeafBlock(es: seq<Value>, shape: seq<int>, k: nat, j: nat)
    requires forall i :: 0 <= i < |es| ==> HasShape(es[i], shape)
    requires k < |es| && j < Product(shape)
    ensures |AllLeaves(es)| == |es| * Product(shape) && |Leaves(es[k])| == Product(shape)
    ensures 0 <= k * Product(shape) + j < |AllLeaves(es)|
    ensures AllLeaves(es)[k * Product(shape) + j] == Leaves(es[k])[j]
    decreases |es|
  {
    var n, p := |es| - 1, Product(shape);
    AllLeafCount(es, shape);
    AllLeafCount(es[..n], shape);
    LeafCount(es[k], shape);
    DigitBound(k, |es|, p, j);
    if k < n {
      LeafBlock(es[..n], shape, k, j);
    }
  }

  /** The elements stand in row-major order: the one at an index is found at the dot product of the
      index with the dense strides of the shape. */
  lemma {:induction false} RowMajorOrder(v: Value, shape: seq<int>, index: seq<int>)
    requires HasShape(v, shape) && InRange(index, shape)
    ensures 0 <= Dot(index, RowMajorStrides(shape)) < |Leaves(v)|
    ensures Leaves(v)[Dot(index, RowMajorStrides(shape))] == Lookup(v, index)
    decreases shape
  {
    LeafCount(v, shape);
    if shape != [] {
      var i, rest := index[0], Dot(index[1..], RowMajorStrides(shape[1..]));
      RowMajorOrder(v.elems[i], shape[1..], index[1..]);
      LeafCount(v.elems[i], shape[1..]);
      DotStep(shape, index);
      LeafBlock(v.elems, shape[1..], i, rest);
    }
  }

  lemma DotStep(shape: seq<int>, index: seq<int>)
    requires shape != [] && |index| == |shape|
    ensures Dot(index, RowMajorStrides(shape))
            == index[0] * Product(shape[1..]) + Dot(index[1..], RowMajorStrides(shape[1..]))
  {
    assert RowMajorStrides(shape)[1..] == RowMajorStrides(shape[1..]);
  }

  /** The shape and the elements determine a rectangular value. */
  lemma {:induction false} LeavesDetermine(u: Value, v: Value, shape: seq<int>)
    requires HasShape(u, shape) && HasShape(v, shape) && Leaves(u) == Leaves(v)
    ensures u == v
    decreases shape, 0
  {
    if shape == [] {
      assert Leaves(u)[0] == u && Leaves(v)[0] == v;
    } else {
      AllLeavesDetermine(u.elems, v.elems, shape[1..]);
    }
  }

  lemma {:induction false} AllLeavesDetermine(us: seq<Value>, vs: seq<Value>, shape: seq<int>)
    requires |us| == |vs| && AllLeaves(us) == AllLeaves(vs)
    requires forall i :: 0 <= i < |us| ==> HasShape(us[i], shape) && HasShape(vs[i], shape)
    ensures us == vs
    decreases shape, 1, |us|
  {
    if us != [] {
      var n := |us| - 1;
      AllLeafCount(us[..n], shape);
      AllLeafCount(vs[..n], shape);
      var m := |AllLeaves(us[..n])|;
      assert AllLeaves(us)[..m] == AllLeaves(us[..n]) && AllLeaves(us)[m..] == Leaves(us[n]);
      assert AllLeaves(vs)[..m] == AllLeaves(vs[..n]) && AllLeaves(vs)[m..] == Leaves(vs[n]);
      AllLeavesDetermine(us[..n], vs[..n], shape);
      LeavesDetermine(us[n], vs[n], shape);
      assert us == us[..n] + [us[n]] && vs == vs[..n] + [vs[n]];
    }
  }

  // ---------------------------------------------------------------------------------------
  // Deriving the shape
  // ---------------------------------------------------------------------------------------

  predicate EqualLengths(es: seq<Value>) {
    forall i :: 0 < i < |es| && es[i].Slice? && es[0].Slice? ==> |es[i].elems| == |es[0].elems|
  }

  function Zeros(n: nat): (s: seq<int>)
    ensures |s| == n
  {
    seq(n, _ => 0)
  }

  /** Only index 0 is followed; below an empty slice every dimension is 0. */
  function ShapeOf(v: Value, depth: nat): (r: Option<seq<int>>)
    ensures r.Some? ==> |r.value| == depth
  {
    if depth == 0 || !v.Slice? then (if depth == 0 then Some([]) else None)
    else if v.elems == [] then Some(Zeros(depth))
    else if depth > 1 && !EqualLengths(v.elems) then None
    else
      match ShapeOf(v.elems[0], depth - 1)
      case None => None
      case Some(rest) => Some([|v.elems|] + rest)
  }

  /** A rectangular value has the shape that is derived from it. */
  lemma {:induction false} DerivedShapeFits(v: Value, shape: seq<int>)
    requires HasShape(v, shape)
    ensures ShapeOf(v, |shape|).Some? && HasShape(v, ShapeOf(v, |shape|).value)
    decreases shape
  {
    if shape != [] && v.elems != [] {
      DerivedShapeFits(v.elems[0], shape[1..]);
      assert forall i :: 0 <= i < |v.elems| ==> HasShape(v.elems[i], shape[1..]);
      var derived := ShapeOf(v.elems[0], |shape| - 1).value;
      forall i | 0 <= i < |v.elems| ensures HasShape(v.elems[i], derived) {
        SameDerivedShape(v.elems[0], v.elems[i], shape[1..]);
        DerivedShapeFits(v.elems[i], shape[1..]);
      }
    }
  }

  /** Two values of one shape derive the same shape. */
  lemma {:induction false} SameDerivedShape(u: Value, v: Value, shape: seq<int>)
    requires HasShape(u, shape) && HasShape(v, shape)
    ensures ShapeOf(u, |shape|) == ShapeOf(v, |shape|)
    decreases shape
  {
    if shape != [] && u.elems != [] {
      SameDerivedShape(u.elems[0], v.elems[0], shape[1..]);
      assert EqualLengths(u.elems) && EqualLengths(v.elems) by {
        assert forall i :: 0 <= i < |u.elems| ==> HasShape(u.elems[i], shape[1..]) && HasShape(v.elems[i], shape[1..]);
      }
    }
  }

  function Prefixed(shape: seq<int>, r: Option<seq<int>>): Option<seq<int>> {
    if r.None? then None else Some(shape + r.value)
  }

  lemma PrefixedNothing(r: Option<seq<int>>)
    ensures Prefixed([], r) == r
  {
    if r.Some? { assert [] + r.value == r.value; }
  }

  lemma ShapeStep(v: Value, depth: nat, shape: seq<int>)
    requires depth > 0 && v.Slice? && (depth > 1 ==> EqualLengths(v.elems))
    ensures Prefixed(shape, ShapeOf(v, depth))
            == Prefixed(shape + [|v.elems|], ShapeOf(if v.elems == [] then v else v.elems[0], depth - 1))
  {
    if v.elems == [] {
      assert shape + Zeros(depth) == (shape + [0]) + Zeros(depth - 1);
    } else {
      var r := ShapeOf(v.elems[0], depth - 1);
      if r.Some? { assert shape + ([|v.elems|] + r.value) == (shape + [|v.elems|]) + r.value; }
    }
  }

  /** The length check on the elements of a slice of slices. */
  method SameLengths(es: seq<Value>) returns (ok: bool)
    requires forall i :: 0 <= i < |es| ==> es[i].Slice?
    ensures ok <==> EqualLengths(es)
  {
    if |es| > 0 {
      var expected := |es[0].elems|;
      for i := 1 to |es|
        invariant forall k :: 0 <= k < i ==> |es[k].elems| == expected
      {
        if |es[i].elems| != expected { return false; }
      }
    }
    return true;
  }

  method ShapeAndDataTypeOf(v: Value, kind: Kind, depth: nat) returns (r: Option<seq<int>>)
    requires HasType(v, kind, depth) || kind.UnsupportedKind?
    ensures r == if kind.UnsupportedKind? then None else ShapeOf(v, depth)
  {
    if kind.UnsupportedKind? { return None; }
    var shape: seq<int>, val, typ: nat := [], v, depth;
    PrefixedNothing(ShapeOf(v, depth));
    while typ > 0
      invariant typ <= depth && (val == Slice([]) || HasType(val, kind, typ))
      invariant ShapeOf(v, depth) == Prefixed(shape, ShapeOf(val, typ))
    {
      ghost var before, level := shape, val;
      shape := shape + [|val.elems|];
      if |val.elems| > 0 {
        if typ > 1 {
          var same := SameLengths(val.elems);
          if !same { return None; }
        }
        val := val.elems[0];
      }
      ShapeStep(level, typ, before);
      typ := typ - 1;
    }
    assert shape + [] == shape;
    r := Some(shape);
  }

  // ---------------------------------------------------------------------------------------
  // Numeric tensors
  // ---------------------------------------------------------------------------------------

  predicate AllNumbers(ls: seq<Value>, kind: Kind) {
    forall i :: 0 <= i < |ls| ==> HasType(ls[i], kind, 0) && ls[i].Number?
  }

  /** Elements of a numeric tensor are numbers; nothing is said about other values. */
  function EncodeLeaf(order: ByteOrder, kind: Kind, v: Value): (s: seq<Byte>)
    requires kind.Numeric()
    ensures |s| == kind.Width()
  {
    EncodeWord(order, if v.Number? then v.bits else 0, kind.Width())
  }

  /** A boolean is true exactly when its byte is 1. */
  function DecodeLeaf(order: ByteOrder, kind: Kind, s: seq<Byte>): Value
    requires kind.Numeric() && |s| == kind.Width()
  {
    if kind.BoolKind? then Number(if s[0] == 1 then 1 else 0) else Number(DecodeWord(order, s))
  }

  /** The codes of all elements, one after the other. */
  function Joined(encode: Value -> seq<Byte>, ls: seq<Value>): seq<Byte> {
    if ls == [] then [] else encode(ls[0]) + Joined(encode, ls[1..])
  }

  function LeafEncoder(order: ByteOrder, kind: Kind): Value -> seq<Byte>
    requires kind.Numeric()
  {
    (v: Value) => EncodeLeaf(order, kind, v)
  }

  function EncodeLeaves(order: ByteOrder, kind: Kind, ls: seq<Value>): seq<Byte>
    requires kind.Numeric()
  {
    Joined(LeafEncoder(order, kind), ls)
  }

  ghost predicate Sized(encode: Value -> seq<Byte>, size: nat) {
    forall v :: |encode(v)| == size
  }

  lemma JoinedOne(encode: Value -> seq<Byte>, v: Value)
    ensures Joined(encode, [v]) == encode(v)
  {
    assert [v][1..] == [] && encode(v) + [] == encode(v);
  }

  lemma {:induction false} JoinedLength(encode: Value -> seq<Byte>, ls: seq<Value>, size: nat)
    requires Sized(encode, size)
    ensures |Joined(encode, ls)| == |ls| * size
  {
    if ls != [] {
      JoinedLength(encode, ls[1..], size);
      OneMore(|ls| - 1, size);
    }
  }

  lemma {:induction false} JoinedConcat(encode: Value -> seq<Byte>, a: seq<Value>, b: seq<Value>)
    ensures Joined(encode, a + b) == Joined(encode, a) + Joined(encode, b)
  {
    if a == [] {
      assert a + b == b;
    } else {
      assert (a + b)[1..] == a[1..] + b;
      JoinedConcat(encode, a[1..], b);
      Associates(encode(a[0]), Joined(encode, a[1..]), Joined(encode, b));
    }
  }

  lemma {:induction false} JoinedAt(encode: Value -> seq<Byte>, ls: seq<Value>, size: nat, k: nat, at: nat)
    requires Sized(encode, size) && k < |ls| && at == k * size
    ensures at + size <= |Joined(encode, ls)| && Joined(encode, ls)[at..at + size] == encode(ls[k])
    decreases |ls|
  {
    var first, rest := encode(ls[0]), Joined(encode, ls[1..]);
    if k > 0 {
      OneMore(k - 1, size);
      JoinedAt(encode, ls[1..], size, k - 1, at - size);
      assert (first + rest)[at..at + size] == rest[at - size..at];
    } else {
      assert (first + rest)[0..size] == first;
    }
  }

  lemma EncodeLeavesLength(order: ByteOrder, kind: Kind, ls: seq<Value>)
    requires kind.Numeric()
    ensures |EncodeLeaves(order, kind, ls)| == |ls| * kind.Width()
  {
    JoinedLength(LeafEncoder(order, kind), ls, kind.Width());
  }

  /** Element k of a numeric tensor stands at k times its width, as a word of that many bytes. */
  lemma ElementWord(order: ByteOrder, kind: Kind, ls: seq<Value>, k: nat)
    requires kind.Numeric() && AllNumbers(ls, kind) && k < |ls|
    ensures
      var raw, w := EncodeLeaves(order, kind, ls), kind.Width();
      && 0 <= k * w <= k * w + w <= |raw|
      && raw[k * w..k * w + w] == EncodeWord(order, ls[k].bits, w)
  {
    JoinedAt(LeafEncoder(order, kind), ls, kind.Width(), k, k * kind.Width());
  }

  lemma LeafRoundTrip(order: ByteOrder, kind: Kind, v: Value)
    requires kind.Numeric() && v.Number? && HasType(v, kind, 0)
    ensures DecodeLeaf(order, kind, EncodeLeaf(order, kind, v)) == v
  {
    assert Power256(1) == 256;
    WordRoundTrip(order, v.bits, kind.Width());
    assert LowFirst(v.bits, 1) == [v.bits % 256];
  }

  lemma EncodedStep(order: ByteOrder, kind: Kind, start: seq<Byte>, done: seq<Value>, more: seq<Value>)
    requires kind.Numeric()
    ensures (start + EncodeLeaves(order, kind, done)) + EncodeLeaves(order, kind, more)
            == start + EncodeLeaves(order, kind, done + more)
  {
    JoinedConcat(LeafEncoder(order, kind), done, more);
  }

  lemma {:induction false} LeavesTyped(v: Value, kind: Kind, depth: nat)
    requires HasType(v, kind, depth)
    ensures forall i :: 0 <= i < |Leaves(v)| ==> HasType(Leaves(v)[i], kind, 0)
    decreases depth, 0
  {
    if depth > 0 { AllLeavesTyped(v.elems, kind, depth - 1); }
  }

  lemma {:induction false} AllLeavesTyped(es: seq<Value>, kind: Kind, depth: nat)
    requires forall i :: 0 <= i < |es| ==> HasType(es[i], kind, depth)
    ensures forall i :: 0 <= i < |AllLeaves(es)| ==> HasType(AllLeaves(es)[i], kind, 0)
    decreases depth, 1, |es|
  {
    if es != [] {
      AllLeavesTyped(es[..|es| - 1], kind, depth);
      LeavesTyped(es[|es| - 1], kind, depth);
    }
  }

  /** The check that encodeTensor makes at every slice of slices. */
  predicate SiblingsAgree(v: Value, depth: nat) {
    depth > 0 && v.Slice? ==>
      (depth > 1 ==> EqualLengths(v.elems)) && forall i :: 0 <= i < |v.elems| ==> SiblingsAgree(v.elems[i], depth - 1)
  }

  lemma {:induction false} RectangularSiblingsAgree(v: Value, shape: seq<int>)
    requires HasShape(v, shape)
    ensures SiblingsAgree(v, |shape|)
    decreases shape
  {
    if shape != [] {
      forall i | 0 <= i < |v.elems| ensures SiblingsAgree(v.elems[i], |shape| - 1) {
        RectangularSiblingsAgree(v.elems[i], shape[1..]);
      }
      assert forall i :: 0 <= i < |v.elems| ==> HasShape(v.elems[i], shape[1..]);
    }
  }

  /** bytes.Buffer */
  class Buffer {
    var contents: seq<Byte>

    constructor ()
      ensures contents == []
    {
      contents := [];
    }
  }

  method EncodeNumeric(order: ByteOrder, kind: Kind, w: Buffer, v: Value, depth: nat) returns (ok: bool)
    requires kind.Numeric() && HasType(v, kind, depth)
    modifies w
    ensures ok <==> SiblingsAgree(v, depth)
    ensures ok ==> w.contents == old(w.contents) + EncodeLeaves(order, kind, Leaves(v))
    decreases depth, 0
  {
    if depth == 0 {
      var code := EncodeLeaf(order, kind, v);
      w.contents := w.contents + code;
      JoinedOne(LeafEncoder(order, kind), v);
      return true;
    }
    if depth > 1 {
      var same := SameLengths(v.elems);
      if !same { return false; }
    }
    ok := EncodeNumericElements(order, kind, w, v.elems, depth - 1);
  }

  /** The loop over the elements of a slice. */
  method EncodeNumericElements(order: ByteOrder, kind: Kind, w: Buffer, es: seq<Value>, depth: nat) returns (ok: bool)
    requires kind.Numeric() && forall i :: 0 <= i < |es| ==> HasType(es[i], kind, depth)
    modifies w
    ensures ok <==> forall i :: 0 <= i < |es| ==> SiblingsAgree(es[i], depth)
    ensures ok ==> w.contents == old(w.contents) + EncodeLeaves(order, kind, AllLeaves(es))
    decreases depth, 1
  {
    ghost var start, done := w.contents, [];
    for i := 0 to |es|
      invariant done == AllLeaves(es[..i])
      invariant forall k :: 0 <= k < i ==> SiblingsAgree(es[k], depth)
      invariant w.contents == start + EncodeLeaves(order, kind, done)
    {
      ok := EncodeNumeric(order, kind, w, es[i], depth);
      if !ok { return false; }
      AllLeavesStep(es, i);
      EncodedStep(order, kind, start, done, Leaves(es[i]));
      done := done + Leaves(es[i]);
    }
    assert es[..|es|] == es;
    ok := true;
  }

  // ---------------------------------------------------------------------------------------
  // Decoding
  // ---------------------------------------------------------------------------------------

  /** What can go wrong: an error is returned, an index or a length is out of range, or bytes outside the
      tensor are read. */
  datatype Fault = ReadError | Panic | StrayRead

  datatype Read<T> = Done(value: T) | Failed(fault: Fault)

  /** The string behind an offset.  The index is taken before it is compared with the length of the data, and
      the length of the string is converted to 32 bits and not compared with what is left of the data. */
  function ReadString(data: seq<Byte>, offset: nat): Read<Str> {
    if offset >= |data| then Failed(Panic)
    else
      match StringDecode(data[offset..])
      case InvalidArgument => Failed(ReadError)
      case Ok(span) =>
        var start, length := offset + span.start, AsInt(span.length);
        if length < 0 then Failed(Panic)
        else if start + length > |data| then Failed(StrayRead)
        else Done(data[start..start + length])
  }

  /** One input for every way in which a string can fail to be read, and one that can be. */
  lemma StringFaults()
    ensures ReadString([], 0) == Failed(Panic)
    ensures ReadString([128], 0) == Failed(ReadError)
    ensures ReadString([2, 65], 0) == Failed(StrayRead)
    ensures ReadString([1, 65], 0) == Done([65])
  {
    assert GetVarint64([2, 65]) == Some(Varint(2, 1)) && GetVarint64([1, 65]) == Some(Varint(1, 1));
    assert [128][0..] == [128] && [128][1..] == [] && ReadVarint([], 9) == None;
    assert GetVarint64([128]) == None;
    assert [2, 65][0..] == [2, 65] && [1, 65][0..] == [1, 65] && [1, 65][1..2] == [65];
  }

  /** A byte other than 1 is read as false. */
  lemma BoolIsOne(order: ByteOrder, b: Byte)
    ensures Numbers(order, BoolKind).Element([b]) == Done(Number(if b == 1 then 1 else 0))
  {
  }

  /** How one word of the stream becomes an element: a number is the word itself; for a string the word
      is an offset, and the string stands in the data there. */
  datatype Source = Numbers(order: ByteOrder, kind: Kind) | Strings(order: ByteOrder, data: seq<Byte>)
  {
    function WordSize(): nat {
      if Strings? then 8 else if kind.Numeric() then kind.Width() else 0
    }

    function Element(word: seq<Byte>): (v: Read<Value>)
      ensures v.Done? ==> !v.value.Slice?
    {
      match this
      case Numbers(order, kind) =>
        if kind.Numeric() && |word| == kind.Width() then Done(DecodeLeaf(order, kind, word))
        else Failed(ReadError)
      case Strings(order, data) =>
        var r := ReadString(data, DecodeWord(order, word));
        if r.Failed? then Failed(r.fault) else Done(Text(r.value))
    }
  }

  /** Elements read from a stream, and what is left of it. */
  datatype Taken = Taken(values: seq<Value>, rest: seq<Byte>)

  function Push(v: Read<Value>, t: Read<Taken>): Read<Taken> {
    if v.Failed? then Failed(v.fault)
    else if t.Failed? then t
    else Done(Taken([v.value] + t.value.values, t.value.rest))
  }

  /** The next n elements of a stream of words. */
  function Take(size: nat, element: seq<Byte> -> Read<Value>, n: nat, s: seq<Byte>): (r: Read<Taken>)
    ensures r.Done? ==> |r.value.values| == n
  {
    if n == 0 then Done(Taken([], s))
    else if |s| < size then Failed(ReadError)
    else Push(element(s[..size]), Take(size, element, n - 1, s[size..]))
  }

  function ThenTake(size: nat, element: seq<Byte> -> Read<Value>, r: Read<Taken>, n: nat): Read<Taken> {
    if r.Failed? then r
    else
      var t := Take(size, element, n, r.value.rest);
      if t.Failed? then t else Done(Taken(r.value.values + t.value.values, t.value.rest))
  }

  lemma PushThenTake(size: nat, element: seq<Byte> -> Read<Value>, v: Read<Value>, r: Read<Taken>, n: nat)
    ensures ThenTake(size, element, Push(v, r), n) == Push(v, ThenTake(size, element, r, n))
  {
    if v.Done? && r.Done? {
      var t := Take(size, element, n, r.value.rest);
      if t.Done? {
        assert ([v.value] + r.value.values) + t.value.values == [v.value] + (r.value.values + t.value.values);
      }
    }
  }

  /** Reading m + n elements is reading m, then n. */
  lemma {:induction false} TakeSplits(size: nat, element: seq<Byte> -> Read<Value>, m: nat, n: nat, s: seq<Byte>)
    ensures Take(size, element, m + n, s) == ThenTake(size, element, Take(size, element, m, s), n)
  {
    if m == 0 {
      var t := Take(size, element, n, s);
      if t.Done? { assert [] + t.value.values == t.value.values; }
    } else if |s| >= size {
      TakeSplits(size, element, m - 1, n, s[size..]);
      PushThenTake(size, element, element(s[..size]), Take(size, element, m - 1, s[size..]), n);
    }
  }

  /** bytes.Reader: what has not been read yet. */
  class Reader {
    var rest: seq<Byte>

    constructor (s: seq<Byte>)
      ensures rest == s
    {
      rest := s;
    }
  }

  /** decodeTensor and stringDecoder.decode, which differ in how a word becomes an element: the elements
      come from the stream in order, and the value has the shape that was asked for. */
  method Decode(size: nat, element: seq<Byte> -> Read<Value>, r: Reader, shape: seq<int>) returns (v: Read<Value>)
    requires Lengths(shape) && forall word :: element(word).Done? ==> !element(word).value.Slice?
    modifies r
    ensures Product(shape) >= 0
    ensures v.Failed? ==> Take(size, element, Product(shape), old(r.rest)) == Failed(v.fault)
    ensures v.Done? ==> HasShape(v.value, shape)
    ensures v.Done? ==> Take(size, element, Product(shape), old(r.rest)) == Done(Taken(Leaves(v.value), r.rest))
    decreases shape, 0
  {
    ProductNonNegative(shape);
    if shape == [] {
      if |r.rest| < size { return Failed(ReadError); }
      var word := r.rest[..size];
      r.rest := r.rest[size..];
      v := element(word);
      if v.Done? { assert [v.value] + [] == Leaves(v.value); }
    } else {
      var elems := DecodeElements(size, element, r, shape[0], shape[1..]);
      v := if elems.Failed? then Failed(elems.fault) else Done(Slice(elems.value));
    }
  }

  /** The loop that fills a slice. */
  method DecodeElements(size: nat, element: seq<Byte> -> Read<Value>, r: Reader, n: nat, shape: seq<int>)
      returns (es: Read<seq<Value>>)
    requires Lengths(shape) && forall word :: element(word).Done? ==> !element(word).value.Slice?
    modifies r
    ensures n * Product(shape) >= 0
    ensures es.Failed? ==> Take(size, element, n * Product(shape), old(r.rest)) == Failed(es.fault)
    ensures es.Done? ==> |es.value| == n && (forall i :: 0 <= i < n ==> HasShape(es.value[i], shape))
    ensures es.Done? ==>
              Take(size, element, n * Product(shape), old(r.rest)) == Done(Taken(AllLeaves(es.value), r.rest))
    decreases shape, 1
  {
    ghost var p, s := Product(shape), r.rest;
    ProductNonNegative(shape);
    MulMonotone(0, n, p);
    var elems: seq<Value> := [];
    for i := 0 to n
      invariant |elems| == i && forall j :: 0 <= j < i ==> HasShape(elems[j], shape)
      invariant 0 <= i * p && Take(size, element, i * p, s) == Done(Taken(AllLeaves(elems), r.rest))
    {
      assert i * p + p == (i + 1) * p;
      TakeSplits(size, element, i * p, p, s);
      var e := Decode(size, element, r, shape);
      if e.Failed? {
        MulMonotone(i + 1, n, p);
        TakeSplits(size, element, (i + 1) * p, n * p - (i + 1) * p, s);
        return Failed(e.fault);
      }
      assert (elems + [e.value])[..i] == elems;
      elems := elems + [e.value];
    }
    es := Done(elems);
  }

  lemma TakeNumbers(order: ByteOrder, kind: Kind, ls: seq<Value>)
    requires kind.Numeric() && AllNumbers(ls, kind)
    ensures Take(kind.Width(), Numbers(order, kind).Element, |ls|, EncodeLeaves(order, kind, ls)) == Done(Taken(ls, []))
  {
    var encode, element := LeafEncoder(order, kind), Numbers(order, kind).Element;
    forall i | 0 <= i < |ls| ensures element(encode(ls[i])) == Done(ls[i]) {
      NumberElement(order, kind, ls[i]);
    }
    TakeJoined(kind.Width(), element, encode, ls);
  }

  /** Elements whose codes are read back one by one are read back from the joined codes. */
  lemma {:induction false} TakeJoined(size: nat, element: seq<Byte> -> Read<Value>, encode: Value -> seq<Byte>,
                                      ls: seq<Value>)
    requires Sized(encode, size) && forall i :: 0 <= i < |ls| ==> element(encode(ls[i])) == Done(ls[i])
    ensures Take(size, element, |ls|, Joined(encode, ls)) == Done(Taken(ls, []))
  {
    if ls != [] {
      TakeJoined(size, element, encode, ls[1..]);
      TakeOne(size, element, encode(ls[0]), ls[0], Joined(encode, ls[1..]), ls[1..]);
      assert [ls[0]] + ls[1..] == ls;
    }
  }

  lemma NumberElement(order: ByteOrder, kind: Kind, v: Value)
    requires kind.Numeric() && v.Number? && HasType(v, kind, 0)
    ensures Numbers(order, kind).Element(EncodeLeaf(order, kind, v)) == Done(v)
  {
    LeafRoundTrip(order, kind, v);
  }

  lemma TakeOne(size: nat, element: seq<Byte> -> Read<Value>, word: seq<Byte>, v: Value, s: seq<Byte>,
                vs: seq<Value>)
    requires |word| == size && element(word) == Done(v) && Take(size, element, |vs|, s) == Done(Taken(vs, []))
    ensures Take(size, element, |vs| + 1, word + s) == Done(Taken([v] + vs, []))
  {
    assert (word + s)[..size] == word && (word + s)[size..] == s;
  }

  // ---------------------------------------------------------------------------------------
  // String tensors
  // ---------------------------------------------------------------------------------------

  function Texts(ls: seq<Value>): (ss: seq<Str>)
    ensures |ss| == |ls|
  {
    seq(|ls|, i requires 0 <= i < |ls| => if ls[i].Text? then ls[i].s else [])
  }

  lemma TextsConcat(a: seq<Value>, b: seq<Value>)
    ensures Texts(a + b) == Texts(a) + Texts(b)
  {
  }

  lemma {:induction false} DataConcat(a: seq<Str>, b: seq<Str>)
    ensures Data(a + b) == Data(a) + Data(b)
    decreases |b|
  {
    if b == [] {
      assert a + b == a;
    } else {
      var n := |b| - 1;
      var front := b[..n];
      assert a + b == (a + front) + [b[n]] && b == front + [b[n]];
      DataConcat(a, front);
      DataAppend(a + front, b[n]);
      DataAppend(front, b[n]);
    }
  }

  lemma DataAppend(ss: seq<Str>, s: Str)
    ensures Data(ss + [s]) == Data(ss) + EncodeString(s)
  {
    assert (ss + [s])[..|ss|] == ss;
  }

  /** The bytes that the strings of a nested value take. */
  function TextBytes(v: Value): nat {
    |Data(Texts(Leaves(v)))|
  }

  function AllTextBytes(es: seq<Value>): nat {
    |Data(Texts(AllLeaves(es)))|
  }

  lemma TextBytesStep(es: seq<Value>, i: nat)
    requires i < |es|
    ensures AllTextBytes(es[..i + 1]) == AllTextBytes(es[..i]) + TextBytes(es[i])
  {
    AllLeavesStep(es, i);
    TextsConcat(AllLeaves(es[..i]), Leaves(es[i]));
    DataConcat(Texts(AllLeaves(es[..i])), Texts(Leaves(es[i])));
  }

  lemma {:induction false} TextBytesGrow(es: seq<Value>, i: nat)
    requires i <= |es|
    ensures AllTextBytes(es[..i]) <= AllTextBytes(es)
    decreases |es| - i
  {
    if i < |es| {
      TextBytesStep(es, i);
      TextBytesGrow(es, i + 1);
    } else {
      assert es[..i] == es;
    }
  }

  /** As long as the whole size fits, no sum on the way to it wraps around. */
  lemma TextBytesFit(es: seq<Value>, i: nat)
    requires i < |es| && AllTextBytes(es) < TWO_64
    ensures TextBytes(es[i]) < TWO_64
    ensures (AllTextBytes(es[..i]) + TextBytes(es[i])) % TWO_64 == AllTextBytes(es[..i + 1])
  {
    TextBytesStep(es, i);
    TextBytesGrow(es, i + 1);
  }

  lemma OneText(v: Value)
    requires v.Text?
    ensures Texts(Leaves(v)) == [v.s] && TextBytes(v) == VarintLength(|v.s|) + |v.s|
  {
    assert [v.s][..0] == [];
    assert Data([v.s]) == Data([]) + EncodeString(v.s);
  }

  method ByteSizeOfEncodedStrings(v: Value, depth: nat) returns (size: nat)
    requires HasType(v, StringKind, depth) && TextBytes(v) < TWO_64
    ensures size == TextBytes(v)
    decreases depth
  {
    if depth == 0 {
      OneText(v);
      EncodedSizeExact(|v.s|);
      return StringEncodedSize(|v.s|);
    }
    size := 0;
    for i := 0 to |v.elems|
      invariant size == AllTextBytes(v.elems[..i])
    {
      TextBytesFit(v.elems, i);
      var bytes := ByteSizeOfEncodedStrings(v.elems[i], depth - 1);
      size := (size + bytes) % TWO_64;
    }
    assert v.elems[..|v.elems|] == v.elems;
  }

  class StringEncoder {
    const order: ByteOrder
    const data: array<Byte>
    var offsets: seq<Byte>
    var offset: nat

    /** The strings encoded so far; Valid() ties them to the fields above. */
    ghost var done: seq<Str>

    ghost predicate Valid()
      reads this, data
    {
      && offsets == OffsetTable(order, done, |done|)
      && offset == |Data(done)| <= data.Length && data[..offset] == Data(done)
    }

    constructor (order: ByteOrder, size: nat)
      ensures Valid() && fresh(data) && done == [] && this.order == order && data.Length == size
    {
      this.order := order;
      data := new Byte[size];
      offsets, offset, done := [], 0, [];
    }

    method EncodeOne(s: Str)
      requires Valid() && offset + VarintLength(|s|) + |s| <= data.Length < TWO_64
      modifies this, data
      ensures Valid() && done == old(done) + [s]
    {
      offsets := offsets + EncodeWord(order, offset, 8);
      // the index that the source takes the address of is in range
      assert offset < data.Length;
      ghost var before := data[..offset];
      var r := StringEncode(s, data, offset, data.Length - offset);
      assert data[..offset + r.value] == before + EncodeString(s);
      offset := offset + r.value;
      assert (done + [s])[..|done|] == done;
      OffsetTableExtends(order, done, s, |done|);
      done := done + [s];
    }

    method Encode(v: Value, depth: nat)
      requires Valid() && HasType(v, StringKind, depth)
      requires offset + TextBytes(v) <= data.Length < TWO_64
      modifies this, data
      ensures Valid() && done == old(done) + Texts(Leaves(v))
      decreases depth, 0
    {
      if depth == 0 {
        OneText(v);
        EncodeOne(v.s);
      } else {
        EncodeElements(v.elems, depth - 1);
      }
    }

    method EncodeElements(es: seq<Value>, depth: nat)
      requires Valid() && forall i :: 0 <= i < |es| ==> HasType(es[i], StringKind, depth)
      requires offset + AllTextBytes(es) <= data.Length < TWO_64
      modifies this, data
      ensures Valid() && done == old(done) + Texts(AllLeaves(es))
      decreases depth, 1
    {
      ghost var start := done;
      for i := 0 to |es|
        invariant Valid() && done == start + Texts(AllLeaves(es[..i]))
      {
        TextsStep(start, es, i);
        Encode(es[i], depth);
      }
      assert es[..|es|] == es;
    }
  }

  /** Element i appends its strings, and there is room for them. */
  lemma TextsStep(start: seq<Str>, es: seq<Value>, i: nat)
    requires i < |es|
    ensures AllLeaves(es[..i + 1]) == AllLeaves(es[..i]) + Leaves(es[i])
    ensures start + Texts(AllLeaves(es[..i + 1])) == start + Texts(AllLeaves(es[..i])) + Texts(Leaves(es[i]))
    ensures |Data(start + Texts(AllLeaves(es[..i])))| + TextBytes(es[i]) <= |Data(start)| + AllTextBytes(es)
  {
    var a, b := AllLeaves(es[..i]), Leaves(es[i]);
    AllLeavesStep(es, i);
    TextsConcat(a, b);
    assert start + (Texts(a) + Texts(b)) == start + Texts(a) + Texts(b);
    assert |Data(Texts(a))| + |Data(Texts(b))| <= AllTextBytes(es) by {
      TextBytesStep(es, i);
      TextBytesGrow(es, i + 1);
    }
    DataConcat(start, Texts(a));
  }

  lemma {:induction false} OffsetTableExtends(order: ByteOrder, ss: seq<Str>, s: Str, n: nat)
    requires n <= |ss|
    ensures OffsetTable(order, ss + [s], n) == OffsetTable(order, ss, n)
  {
    if n > 0 {
      OffsetTableExtends(order, ss, s, n - 1);
      assert (ss + [s])[..n - 1] == ss[..n - 1];
    }
  }

  // ---------------------------------------------------------------------------------------
  // NewTensor and Value
  // ---------------------------------------------------------------------------------------

  datatype Tensor = Tensor(kind: Kind, shape: seq<int>, raw: seq<Byte>)

  /** The format of the raw bytes: the elements in row-major order. */
  function Raw(order: ByteOrder, kind: Kind, v: Value): seq<Byte> {
    if kind.Numeric() then EncodeLeaves(order, kind, Leaves(v)) else EncodeTensor(order, Texts(Leaves(v)))
  }

  /** The number of bytes that NewTensor allocates for the derived shape. */
  function AllocatedBytes(kind: Kind, v: Value, shape: seq<int>): int {
    if kind.Numeric() then kind.Width() * Product(shape) else 8 * Product(shape) + TextBytes(v)
  }

  /** The raw memory is viewed as a slice of at most 2^30 bytes; a larger tensor panics. */
  ghost predicate FitsSlice(kind: Kind, v: Value, depth: nat) {
    ShapeOf(v, depth).Some? ==> AllocatedBytes(kind, v, ShapeOf(v, depth).value) <= 0x4000_0000
  }

  /** What NewTensor checks: lengths along index 0, for numbers the lengths of all siblings, and that the
      number of elements is the product of the dimensions. */
  predicate Accepted(v: Value, kind: Kind, depth: nat) {
    && !kind.UnsupportedKind?
    && ShapeOf(v, depth).Some? && |Leaves(v)| == Product(ShapeOf(v, depth).value)
    && (kind.Numeric() ==> SiblingsAgree(v, depth))
  }

  method NumElements(shape: seq<int>) returns (n: int)
    ensures n == Product(shape)
  {
    n := 1;
    for i := 0 to |shape|
      invariant n == Product(shape[..i])
    {
      assert shape[..i + 1] == shape[..i] + [shape[i]];
      ProductConcat(shape[..i], [shape[i]]);
      n := n * shape[i];
    }
    assert shape[..|shape|] == shape;
  }

  lemma {:induction false} DerivedLengths(v: Value, depth: nat)
    ensures ShapeOf(v, depth).Some? ==> Lengths(ShapeOf(v, depth).value)
  {
    if depth > 0 && v.Slice? && v.elems != [] { DerivedLengths(v.elems[0], depth - 1); }
  }

  method NewTensor(order: ByteOrder, v: Value, kind: Kind, depth: nat) returns (r: Option<Tensor>)
    requires kind.UnsupportedKind? || HasType(v, kind, depth)
    requires kind.NumberKind? ==> kind.width > 0
    requires FitsSlice(kind, v, depth)
    ensures r.Some? <==> Accepted(v, kind, depth)
    ensures r.Some? ==> r.value == Tensor(kind, ShapeOf(v, depth).value, Raw(order, kind, v))
  {
    var derived := ShapeAndDataTypeOf(v, kind, depth);
    if derived.None? { return None; }
    var shape := derived.value;
    DerivedLengths(v, depth);
    ProductNonNegative(shape);
    var n := NumElements(shape);
    if kind.Numeric() {
      var raw := NewNumericRaw(order, v, kind, depth, n);
      r := if raw.None? then None else Some(Tensor(kind, shape, raw.value));
    } else {
      var raw := NewStringRaw(order, v, depth, n);
      r := if raw.None? then None else Some(Tensor(kind, shape, raw.value));
    }
  }

  method NewNumericRaw(order: ByteOrder, v: Value, kind: Kind, depth: nat, n: nat) returns (raw: Option<seq<Byte>>)
    requires kind.Numeric() && HasType(v, kind, depth)
    ensures raw.Some? <==> SiblingsAgree(v, depth) && |Leaves(v)| == n
    ensures raw.Some? ==> raw.value == EncodeLeaves(order, kind, Leaves(v))
  {
    var nbytes := kind.Width() * n;
    var buf := new Buffer();
    var ok := EncodeNumeric(order, kind, buf, v, depth);
    if !ok { return None; }
    assert [] + EncodeLeaves(order, kind, Leaves(v)) == EncodeLeaves(order, kind, Leaves(v));
    EncodeLeavesLength(order, kind, Leaves(v));
    SameProduct(|Leaves(v)|, n, kind.Width());
    if |buf.contents| != nbytes { return None; }
    raw := Some(buf.contents);
  }

  lemma SameProduct(a: nat, b: nat, w: nat)
    requires w > 0
    ensures a * w == w * b <==> a == b
  {
    if a < b { MulMonotone(a + 1, b, w); OneMore(a, w); }
    if b < a { MulMonotone(b + 1, a, w); OneMore(b, w); }
  }

  method NewStringRaw(order: ByteOrder, v: Value, depth: nat, n: nat) returns (raw: Option<seq<Byte>>)
    requires HasType(v, StringKind, depth) && 8 * n + TextBytes(v) <= 0x4000_0000
    ensures raw.Some? <==> |Leaves(v)| == n
    ensures raw.Some? ==> raw.value == EncodeTensor(order, Texts(Leaves(v)))
  {
    var size := ByteSizeOfEncodedStrings(v, depth);
    var e := new StringEncoder(order, size);
    e.Encode(v, depth);
    assert [] + Texts(Leaves(v)) == Texts(Leaves(v));
    if |e.offsets| != n * 8 { return None; }
    assert e.data[..] == e.data[..e.offset];
    raw := Some(e.offsets + e.data[..]);
  }

  method ValueOf(order: ByteOrder, t: Tensor) returns (v: Read<Value>)
    requires Lengths(t.shape) && Product(t.shape) >= 0
    requires t.kind.Numeric() || 8 * Product(t.shape) <= |t.raw|
    ensures t.kind.Numeric() ==> DecodesTo(Numbers(order, t.kind), t.raw, t.shape, v)
    ensures !t.kind.Numeric() ==>
              DecodesTo(Strings(order, t.raw[8 * Product(t.shape)..]), t.raw[..8 * Product(t.shape)], t.shape, v)
  {
    if t.kind.Numeric() {
      var r := new Reader(t.raw);
      var src := Numbers(order, t.kind);
      v := Decode(src.WordSize(), src.Element, r, t.shape);
    } else {
      var n := NumElements(t.shape);
      var r := new Reader(t.raw[..8 * n]);
      var src := Strings(order, t.raw[8 * n..]);
      v := Decode(src.WordSize(), src.Element, r, t.shape);
    }
  }

  /** The value holds the elements that the stream starts with, in the given shape. */
  ghost predicate DecodesTo(src: Source, stream: seq<Byte>, shape: seq<int>, v: Read<Value>) {
    && Product(shape) >= 0
    && var taken := Take(src.WordSize(), src.Element, Product(shape), stream);
       && (v.Failed? ==> taken == Failed(v.fault))
       && (v.Done? ==> taken.Done? && HasShape(v.value, shape) && taken.value.values == Leaves(v.value))
  }

  ghost predicate Rectangular(v: Value, depth: nat) {
    exists shape :: |shape| == depth && HasShape(v, shape)
  }

  lemma TableWord(order: ByteOrder, ss: seq<Str>, i: nat)
    requires i < |ss| && TensorSize(ss) < 0x8000_0000
    ensures Strings(order, Data(ss)).Element(OffsetTable(order, ss, |ss|)[8 * i..8 * (i + 1)]) == Done(Text(ss[i]))
  {
    TableEntry(order, ss, |ss|, i);
    EightBytes();
    OffsetFindsString([], ss, i);
    assert [] + Data(ss) == Data(ss);
    WordRoundTrip(order, Offset(ss, i), 8);
    ReadsString(Data(ss), Offset(ss, i), ss[i]);
  }

  /** In a tensor that fits, what can be decoded can be read. */
  lemma ReadsString(data: seq<Byte>, offset: nat, s: Str)
    requires offset < |data| < 0x8000_0000 && DecodeAt(data, offset) == Value(s)
    ensures ReadString(data, offset) == Done(s)
  {
  }

  /** Words that each yield their element yield all of them. */
  lemma {:induction false} TakeWords(element: seq<Byte> -> Read<Value>, table: seq<Byte>, ls: seq<Value>, i: nat)
    requires i <= |ls| && |table| == 8 * |ls|
    requires forall k :: 0 <= k < |ls| ==> element(table[8 * k..8 * (k + 1)]) == Done(ls[k])
    ensures Take(8, element, |ls| - i, table[8 * i..]) == Done(Taken(ls[i..], []))
    decreases |ls| - i
  {
    if i < |ls| {
      TakeWords(element, table, ls, i + 1);
      var s, word := table[8 * i..], table[8 * i..8 * (i + 1)];
      assert element(word) == Done(ls[i]);
      assert s[..8] == word && s[8..] == table[8 * (i + 1)..];
      assert [ls[i]] + ls[i + 1..] == ls[i..];
    } else {
      assert table[8 * i..] == [] && ls[i..] == [];
    }
  }

  /** The strings behind the offsets of a table are those that were encoded. */
  lemma TakeStrings(order: ByteOrder, ls: seq<Value>)
    requires TensorSize(Texts(ls)) < 0x8000_0000 && forall k :: 0 <= k < |ls| ==> ls[k].Text?
    ensures Take(8, Strings(order, Data(Texts(ls))).Element, |ls|, OffsetTable(order, Texts(ls), |ls|))
            == Done(Taken(ls, []))
  {
    var ss := Texts(ls);
    var table, src := OffsetTable(order, ss, |ss|), Strings(order, Data(ss));
    forall k | 0 <= k < |ls| ensures src.Element(table[8 * k..8 * (k + 1)]) == Done(ls[k]) {
      TableWord(order, ss, k);
    }
    TakeWords(src.Element, table, ls, 0);
    assert table[8 * 0..] == table && ls[0..] == ls;
  }

  /** Making a tensor and reading its value back never goes wrong, and returns the original exactly when it is
      rectangular. */
  method RoundTrip(order: ByteOrder, v: Value, kind: Kind, depth: nat) returns (u: Option<Read<Value>>)
    requires HasType(v, kind, depth) && (kind.Numeric() || kind.StringKind?)
    requires FitsSlice(kind, v, depth)
    ensures u == Some(Done(v)) <==> Rectangular(v, depth)
    ensures u.Some? ==> u.value.Done?
  {
    var t := NewTensor(order, v, kind, depth);
    if Rectangular(v, depth) { RectangularAccepted(v, kind, depth); }
    if t.None? { return None; }
    DerivedLengths(v, depth);
    var read := ValueOf(order, t.value);
    ReadsBack(order, v, kind, depth, read);
    if Rectangular(v, depth) { LeavesDetermine(read.value, v, t.value.shape); }
    u := Some(read);
  }

  /** What is read from the bytes of an accepted value has its elements, in the derived shape. */
  lemma ReadsBack(order: ByteOrder, v: Value, kind: Kind, depth: nat, u: Read<Value>)
    requires HasType(v, kind, depth) && (kind.Numeric() || kind.StringKind?)
    requires Accepted(v, kind, depth) && FitsSlice(kind, v, depth)
    requires
      var shape, raw := ShapeOf(v, depth).value, Raw(order, kind, v);
      if kind.Numeric() then DecodesTo(Numbers(order, kind), raw, shape, u)
      else 0 <= 8 * Product(shape) <= |raw|
           && DecodesTo(Strings(order, raw[8 * Product(shape)..]), raw[..8 * Product(shape)], shape, u)
    ensures u.Done? && Leaves(u.value) == Leaves(v) && HasShape(u.value, ShapeOf(v, depth).value)
  {
    RawDecodes(order, v, kind, depth);
  }

  lemma RectangularAccepted(v: Value, kind: Kind, depth: nat)
    requires Rectangular(v, depth) && !kind.UnsupportedKind?
    ensures Accepted(v, kind, depth) && HasShape(v, ShapeOf(v, depth).value)
  {
    var shape :| |shape| == depth && HasShape(v, shape);
    DerivedShapeFits(v, shape);
    RectangularSiblingsAgree(v, shape);
    LeafCount(v, ShapeOf(v, depth).value);
  }

  lemma SplitRaw(table: seq<Byte>, data: seq<Byte>, n: nat)
    requires |table| == n
    ensures (table + data)[..n] == table && (table + data)[n..] == data
  {
  }

  lemma StringRawDecodes(order: ByteOrder, ls: seq<Value>)
    requires TensorSize(Texts(ls)) < 0x8000_0000 && forall k :: 0 <= k < |ls| ==> ls[k].Text?
    ensures
      var raw := EncodeTensor(order, Texts(ls));
      && 8 * |ls| <= |raw|
      && Take(8, Strings(order, raw[8 * |ls|..]).Element, |ls|, raw[..8 * |ls|]) == Done(Taken(ls, []))
  {
    SplitRaw(OffsetTable(order, Texts(ls), |ls|), Data(Texts(ls)), 8 * |ls|);
    TakeStrings(order, ls);
  }

  /** The raw bytes of an accepted value yield its elements. */
  lemma RawDecodes(order: ByteOrder, v: Value, kind: Kind, depth: nat)
    requires HasType(v, kind, depth) && (kind.Numeric() || kind.StringKind?)
    requires Accepted(v, kind, depth) && FitsSlice(kind, v, depth)
    ensures
      var n, raw := |Leaves(v)|, Raw(order, kind, v);
      if kind.Numeric() then Take(kind.Width(), Numbers(order, kind).Element, n, raw) == Done(Taken(Leaves(v), []))
      else
        && 8 * n <= |raw|
        && Take(8, Strings(order, raw[8 * n..]).Element, n, raw[..8 * n]) == Done(Taken(Leaves(v), []))
  {
    LeavesTyped(v, kind, depth);
    if kind.Numeric() {
      TakeNumbers(order, kind, Leaves(v));
    } else {
      StringRawDecodes(order, Leaves(v));
    }
  }

  // ---------------------------------------------------------------------------------------
  // Ragged values
  // ---------------------------------------------------------------------------------------

  /** A value that NewTensor accepts although it is not rectangular. */
  ghost predicate RaggedAccepted(v: Value, kind: Kind, depth: nat) {
    HasType(v, kind, depth) && Accepted(v, kind, depth) && !Rectangular(v, depth)
  }

  /** Up to two levels, the lengths that are compared are all there are. */
  lemma ShallowIsRectangular(v: Value, kind: Kind, depth: nat)
    requires HasType(v, kind, depth) && ShapeOf(v, depth).Some? && depth <= 2
    ensures Rectangular(v, depth)
  {
    if depth == 0 {
      assert HasShape(v, []);
    } else if depth == 1 {
      RowIsRectangular(v, kind);
      assert HasShape(v, [|v.elems|]);
    } else {
      var width := if v.elems == [] then 0 else |v.elems[0].elems|;
      forall i | 0 <= i < |v.elems| ensures HasShape(v.elems[i], [width]) {
        RowIsRectangular(v.elems[i], kind);
      }
      assert [|v.elems|, width][1..] == [width];
      assert HasShape(v, [|v.elems|, width]);
    }
  }

  lemma RowIsRectangular(v: Value, kind: Kind)
    requires HasType(v, kind, 1)
    ensures HasShape(v, [|v.elems|])
  {
    assert [|v.elems|][1..] == [];
    forall i | 0 <= i < |v.elems| ensures HasShape(v.elems[i], []) {
      assert HasType(v.elems[i], kind, 0);
    }
  }

  function Row(leaf: Value, n: nat): Value { Slice(seq(n, _ => leaf)) }

  function Block(leaf: Value, n: nat): Value { Slice([Row(leaf, n), Row(leaf, n)]) }

  lemma {:induction false} RowLeaves(leaf: Value, n: nat)
    requires !leaf.Slice?
    ensures |Leaves(Row(leaf, n))| == n
  {
    var es := Row(leaf, n).elems;
    if n > 0 {
      RowLeaves(leaf, n - 1);
      assert es[..n - 1] == Row(leaf, n - 1).elems && Leaves(es[n - 1]) == [leaf];
      assert AllLeaves(es) == AllLeaves(es[..n - 1]) + Leaves(es[n - 1]);
    }
  }

  lemma BlockLeaves(leaf: Value, n: nat)
    requires !leaf.Slice?
    ensures |Leaves(Block(leaf, n))| == 2 * n
  {
    RowLeaves(leaf, n);
    var es := [Row(leaf, n), Row(leaf, n)];
    assert es[..0] == [] && es[..2] == es;
    AllLeavesStep(es, 0);
    AllLeavesStep(es, 1);
  }

  /** The rows of the three blocks have lengths 2, 1 and 3, which no check compares, and their sum is what
      the shape 3 x 2 x 2 calls for. */
  function Blocks(leaf: Value): Value { Slice([Block(leaf, 2), Block(leaf, 1), Block(leaf, 3)]) }

  lemma BlocksLeaves(leaf: Value)
    requires !leaf.Slice?
    ensures |Leaves(Blocks(leaf))| == 12
  {
    var es := Blocks(leaf).elems;
    BlockLeaves(leaf, 1);
    BlockLeaves(leaf, 2);
    BlockLeaves(leaf, 3);
    assert es[..0] == [] && es[..3] == es;
    AllLeavesStep(es, 0);
    AllLeavesStep(es, 1);
    AllLeavesStep(es, 2);
  }

  lemma BlocksShape(leaf: Value)
    requires !leaf.Slice?
    ensures ShapeOf(Blocks(leaf), 3) == Some([3, 2, 2]) && Product([3, 2, 2]) == 12
  {
    assert Row(leaf, 2).elems[0] == leaf && ShapeOf(leaf, 0) == Some([]);
    assert [2] + [] == [2] && ShapeOf(Row(leaf, 2), 1) == Some([2]);
    assert [2] + [2] == [2, 2] && ShapeOf(Block(leaf, 2), 2) == Some([2, 2]);
    assert [3] + [2, 2] == [3, 2, 2] && ShapeOf(Blocks(leaf), 3) == Some([3, 2, 2]);
    assert [3, 2, 2][1..] == [2, 2] && [2, 2][1..] == [2] && [2][1..] == [];
    assert Product([2]) == 2 * Product([]) && Product([2, 2]) == 2 * Product([2]);
  }

  lemma FirstRowLength(leaf: Value, s: seq<int>, i: nat)
    requires |s| == 3 && HasShape(Blocks(leaf), s) && i < 3
    ensures |Blocks(leaf).elems[i].elems[0].elems| == s[2]
  {
    var block := Blocks(leaf).elems[i];
    assert HasShape(block, s[1..]);
    assert HasShape(block.elems[0], s[1..][1..]);
  }

  lemma BlocksRagged(leaf: Value)
    ensures !Rectangular(Blocks(leaf), 3)
  {
    if s :| |s| == 3 && HasShape(Blocks(leaf), s) {
      FirstRowLength(leaf, s, 0);
      FirstRowLength(leaf, s, 1);
    }
  }

  lemma BlocksAccepted(leaf: Value, kind: Kind)
    requires HasType(leaf, kind, 0) && !kind.UnsupportedKind?
    ensures RaggedAccepted(Blocks(leaf), kind, 3)
  {
    assert forall n: nat, i :: 0 <= i < n ==> Row(leaf, n).elems[i] == leaf;
    assert forall n :: HasType(Row(leaf, n), kind, 1) && SiblingsAgree(Row(leaf, n), 1);
    assert forall n :: HasType(Block(leaf, n), kind, 2) && SiblingsAgree(Block(leaf, n), 2);
    BlocksLeaves(leaf);
    BlocksShape(leaf);
    BlocksRagged(leaf);
  }

  /** One more level around an accepted ragged value makes another one. */
  lemma WrappedAccepted(v: Value, kind: Kind, depth: nat)
    requires RaggedAccepted(v, kind, depth)
    ensures RaggedAccepted(Slice([v]), kind, depth + 1)
  {
    var w := Slice([v]);
    var shape := ShapeOf(v, depth).value;
    assert w.elems[..0] == [] && w.elems[..1] == w.elems;
    AllLeavesStep(w.elems, 0);
    assert Leaves(w) == Leaves(v);
    assert ShapeOf(w, depth + 1) == Some([1] + shape);
    assert ([1] + shape)[1..] == shape && Product([1] + shape) == 1 * Product(shape);
    if Rectangular(w, depth + 1) { WrappedRectangular(v, depth); }
  }

  lemma WrappedRectangular(v: Value, depth: nat)
    requires Rectangular(Slice([v]), depth + 1)
    ensures Rectangular(v, depth)
  {
    var w := Slice([v]);
    var s :| |s| == depth + 1 && HasShape(w, s);
    assert HasShape(w.elems[0], s[1..]);
  }

  lemma {:induction false} DeepRagged(leaf: Value, kind: Kind, depth: nat) returns (v: Value)
    requires HasType(leaf, kind, 0) && !kind.UnsupportedKind? && depth >= 3
    ensures RaggedAccepted(v, kind, depth)
  {
    if depth == 3 {
      BlocksAccepted(leaf, kind);
      v := Blocks(leaf);
    } else {
      var u := DeepRagged(leaf, kind, depth - 1);
      WrappedAccepted(u, kind, depth - 1);
      v := Slice([u]);
    }
  }

  lemma SomeLeaf(kind: Kind) returns (leaf: Value)
    requires kind.Numeric() || kind.StringKind?
    ensures HasType(leaf, kind, 0)
  {
    leaf := if kind.StringKind? then Text([]) else Number(0);
  }

  /** Which types NewTensor takes at their word: with up to two levels, whatever it accepts is rectangular;
      with three levels or more, whatever the element type, some ragged value is accepted. */
  lemma RaggedAcceptedExactly(kind: Kind, depth: nat)
    requires kind.Numeric() || kind.StringKind?
    ensures (exists v :: RaggedAccepted(v, kind, depth)) <==> depth >= 3
  {
    if depth >= 3 {
      var leaf := SomeLeaf(kind);
      var v := DeepRagged(leaf, kind, depth);
    } else {
      forall v | HasType(v, kind, depth) && Accepted(v, kind, depth) ensures Rectangular(v, depth) {
        ShallowIsRectangular(v, kind, depth);
      }
    }
  }
}
