/** The TF_STRING wire format of tensorflow/c/c_api.cc: a table of 64-bit offsets, then every string
    as its length (a varint) followed by its bytes. */
module StringTensor {
  import opened Bytes
  import opened Common

  type Str = seq<Byte>

  // ---------------------------------------------------------------------------------------
  // The format
  // ---------------------------------------------------------------------------------------

  function EncodeString(s: Str): (r: seq<Byte>)
    ensures |r| == VarintLength(|s|) + |s|
  {
    EncodeVarint(|s|) + s
  }

  /** The encoded strings, one after the other. */
  function Data(ss: seq<Str>): seq<Byte> {
    if ss == [] then [] else Data(ss[..|ss| - 1]) + EncodeString(ss[|ss| - 1])
  }

  /** Where string i starts inside the data. */
  function Offset(ss: seq<Str>, i: nat): nat
    requires i <= |ss|
  {
    |Data(ss[..i])|
  }

  function OffsetTable(order: ByteOrder, ss: seq<Str>, n: nat): (r: seq<Byte>)
    requires n <= |ss|
    ensures |r| == 8 * n
  {
    if n == 0 then [] else OffsetTable(order, ss, n - 1) + EncodeWord(order, Offset(ss, n - 1), 8)
  }

  function EncodeTensor(order: ByteOrder, ss: seq<Str>): seq<Byte> {
    OffsetTable(order, ss, |ss|) + Data(ss)
  }

  /** The bytes that the tensor needs. */
  function TensorSize(ss: seq<Str>): nat {
    8 * |ss| + |Data(ss)|
  }

  // ---------------------------------------------------------------------------------------
  // Encoding
  // ---------------------------------------------------------------------------------------

  datatype Result<T> = Ok(value: T) | InvalidArgument

  /** The sum wraps around like size_t. */
  function StringEncodedSize(len: nat): nat {
    (VarintLength(len) + len) % TWO_64
  }

  lemma EncodedSizeExact(len: nat)
    requires len < TWO_64
    ensures StringEncodedSize(len) >= len <==> VarintLength(len) + len < TWO_64
    ensures VarintLength(len) + len < TWO_64 ==> StringEncodedSize(len) == VarintLength(len) + len
  {
    VarintAtMostTen(len);
  }

  /** memcpy */
  method CopyInto(buf: array<Byte>, at: nat, bytes: seq<Byte>)
    requires at + |bytes| <= buf.Length
    modifies buf
    ensures buf[..] == old(buf[..at]) + bytes + old(buf[at + |bytes|..])
  {
    for i := 0 to |bytes|
      invariant buf[..at] == old(buf[..at]) && buf[at + |bytes|..] == old(buf[at + |bytes|..])
      invariant buf[at..at + i] == bytes[..i]
    {
      buf[at + i] := bytes[i];
    }
    assert buf[..] == buf[..at] + buf[at..at + |bytes|] + buf[at + |bytes|..];
  }

  method StringEncode(src: Str, buf: array<Byte>, dst: nat, dstLen: nat) returns (r: Result<nat>)
    requires |src| < TWO_64 && dst + dstLen <= buf.Length
    modifies buf
    ensures r.Ok? <==> VarintLength(|src|) + |src| < TWO_64 && VarintLength(|src|) + |src| <= dstLen
    ensures r.Ok? ==> r.value == |EncodeString(src)|
                      && buf[..] == old(buf[..dst]) + EncodeString(src) + old(buf[dst + |EncodeString(src)|..])
    ensures r.InvalidArgument? ==> buf[..] == old(buf[..])
  {
    EncodedSizeExact(|src|);
    var sz := StringEncodedSize(|src|);
    if sz < |src| { return InvalidArgument; }
    if dstLen < sz { return InvalidArgument; }
    var head := EncodeVarint(|src|);
    CopyInto(buf, dst, head);
    assert buf[..dst + |head|] == old(buf[..dst]) + head;
    assert buf[dst + sz..] == old(buf[dst + sz..]);
    CopyInto(buf, dst + |head|, src);
    assert old(buf[..dst]) + head + src == old(buf[..dst]) + EncodeString(src);
    r := Ok(sz);
  }

  lemma DataStep(ss: seq<Str>, i: nat)
    requires i < |ss|
    ensures Data(ss[..i + 1]) == Data(ss[..i]) + EncodeString(ss[i])
  {
    assert ss[..i + 1][..i] == ss[..i];
  }

  lemma {:induction false} OffsetsGrow(ss: seq<Str>, i: nat, j: nat)
    requires i <= j <= |ss|
    ensures Offset(ss, i) <= Offset(ss, j)
    ensures Data(ss[..i]) <= Data(ss[..j])
  {
    if i < j {
      OffsetsGrow(ss, i, j - 1);
      DataStep(ss, j - 1);
    }
  }

  /** String i takes the bytes between its offset and the next one, all inside the data. */
  lemma OffsetStep(ss: seq<Str>, i: nat)
    requires i < |ss|
    ensures Offset(ss, i + 1) == Offset(ss, i) + VarintLength(|ss[i]|) + |ss[i]| <= |Data(ss)|
    ensures Offset(ss, |ss|) == |Data(ss)|
  {
    DataStep(ss, i);
    OffsetsGrow(ss, i + 1, |ss|);
    assert ss[..|ss|] == ss;
  }

  /** The first loop: sizes are added up with the wrap-around of size_t. */
  method TensorBytes(ss: seq<Str>) returns (size: nat)
    requires TensorSize(ss) < TWO_64
    ensures size == TensorSize(ss)
  {
    size := 0;
    for i := 0 to |ss|
      invariant size == 8 * i + Offset(ss, i)
    {
      OffsetStep(ss, i);
      EncodedSizeExact(|ss[i]|);
      var next := 8 + StringEncodedSize(|ss[i]|);
      assert size + next == 8 * (i + 1) + Offset(ss, i + 1) < TWO_64;
      size := (size + next % TWO_64) % TWO_64;
    }
    assert ss[..|ss|] == ss;
  }

  /** What the buffer holds after i strings, whatever lies between the table and the data so far. */
  ghost predicate Written(order: ByteOrder, ss: seq<Str>, base: seq<Byte>, i: nat)
    requires i <= |ss|
  {
    && |base| == TensorSize(ss) && Offset(ss, i) <= |Data(ss)|
    && base[..8 * i] == OffsetTable(order, ss, i)
    && base[8 * |ss|..8 * |ss| + Offset(ss, i)] == Data(ss[..i])
  }

  lemma Slices<T>(a: seq<T>, b: seq<T>, c: seq<T>, lo: nat, hi: nat)
    requires lo <= hi
    ensures hi <= |a| ==> (a + b + c)[lo..hi] == a[lo..hi]
    ensures |a| + |b| <= lo && hi <= |a + b + c| ==>
              (a + b + c)[lo..hi] == c[lo - |a| - |b|..hi - |a| - |b|]
    ensures lo <= |a| ==> (a + b + c)[lo..|a| + |b|] == a[lo..] + b
  {
  }

  /** Writing an offset into the table keeps the strings written so far. */
  method WriteOffset(order: ByteOrder, ss: seq<Str>, base: array<Byte>, i: nat)
    requires i < |ss| && Written(order, ss, base[..], i)
    modifies base
    ensures base.Length == TensorSize(ss) && Offset(ss, i) <= |Data(ss)|
    ensures base[..8 * (i + 1)] == OffsetTable(order, ss, i + 1)
    ensures base[8 * |ss|..8 * |ss| + Offset(ss, i)] == Data(ss[..i])
  {
    var word := EncodeWord(order, Offset(ss, i), 8);
    Put(base, 8 * i, word, OffsetTable(order, ss, i), 8 * |ss|, 8 * |ss| + Offset(ss, i));
  }

  /** Writes a word behind a table and leaves what follows later as it was. */
  method Put(base: array<Byte>, at: nat, word: seq<Byte>, ghost table: seq<Byte>, ghost lo: nat, ghost hi: nat)
    requires at + |word| <= lo <= hi <= base.Length && base[..at] == table
    modifies base
    ensures base[..at + |word|] == table + word && base[lo..hi] == old(base[lo..hi])
  {
    Overwritten(base[..], at, word, lo, hi);
    CopyInto(base, at, word);
    SliceOfArray(base, 0, at + |word|);
    SliceOfArray(base, lo, hi);
  }

  lemma SliceOfArray(a: array<Byte>, lo: nat, hi: nat)
    requires lo <= hi <= a.Length
    ensures a[lo..hi] == a[..][lo..hi]
    ensures lo == 0 ==> a[..hi] == a[..][..hi]
  {
  }

  lemma Overwritten<T>(before: seq<T>, at: nat, word: seq<T>, lo: nat, hi: nat)
    requires at + |word| <= lo <= hi <= |before|
    ensures
      var after := before[..at] + word + before[at + |word|..];
      after[..at + |word|] == before[..at] + word && after[lo..hi] == before[lo..hi]
  {
  }

  /** One round of the encoding loop. */
  method EncodeElement(order: ByteOrder, ss: seq<Str>, base: array<Byte>, i: nat, dst: nat, dstLen: nat)
      returns (r: Result<nat>)
    requires TensorSize(ss) < TWO_64 && i < |ss| && Written(order, ss, base[..], i)
    requires dst == 8 * |ss| + Offset(ss, i) && dst + dstLen == base.Length
    modifies base
    ensures r == Ok(|EncodeString(ss[i])|)
    ensures Written(order, ss, base[..], i + 1)
  {
    OffsetStep(ss, i);
    WriteOffset(order, ss, base, i);
    ghost var table := base[..];
    ghost var code := EncodeString(ss[i]);
    r := StringEncode(ss[i], base, dst, dstLen);
    Slices(table[..dst], code, table[dst + |code|..], 0, 8 * (i + 1));
    Slices(table[..dst], code, table[dst + |code|..], 8 * |ss|, 8 * |ss|);
    DataStep(ss, i);
  }

  /** Encoding never reaches an error branch, uses exactly the precomputed bytes and writes the format.
      An empty tensor has no bytes. */
  method TensorFromTensor(order: ByteOrder, ss: seq<Str>) returns (r: Result<seq<Byte>>)
    requires TensorSize(ss) < TWO_64
    ensures r == Ok(EncodeTensor(order, ss))
  {
    if |ss| == 0 {
      assert EncodeTensor(order, ss) == [];
      return Ok([]);
    }
    var size := TensorBytes(ss);
    var base := new Byte[size];
    var dataStart := 8 * |ss|;
    var dst, dstLen := dataStart, size - dataStart;
    for i := 0 to |ss|
      invariant Written(order, ss, base[..], i)
      invariant dst == dataStart + Offset(ss, i) && dst + dstLen == size
    {
      OffsetStep(ss, i);
      var consumed := EncodeElement(order, ss, base, i, dst, dstLen);
      if consumed.InvalidArgument? { return InvalidArgument; }
      dst := dst + consumed.value;
      dstLen := dstLen - consumed.value;
    }
    TensorWritten(order, ss, base[..]);
    if dst != size { return InvalidArgument; }
    r := Ok(base[..]);
  }

  lemma TensorWritten(order: ByteOrder, ss: seq<Str>, base: seq<Byte>)
    requires Written(order, ss, base, |ss|)
    ensures base == EncodeTensor(order, ss) && Offset(ss, |ss|) == |Data(ss)|
  {
    assert ss[..|ss|] == ss;
    assert base == base[..8 * |ss|] + base[8 * |ss|..];
    assert base[8 * |ss|..] == base[8 * |ss|..8 * |ss| + |Data(ss)|];
  }

  // ---------------------------------------------------------------------------------------
  // Decoding
  // ---------------------------------------------------------------------------------------

  /** Where a decoded string starts and how long it claims to be.  The source does not compare the
      claim with what is left of the buffer. */
  datatype Span = Span(start: nat, length: nat)

  function StringDecode(src: seq<Byte>): (r: Result<Span>)
    ensures r.Ok? ==> r.value.start <= |src|
  {
    match GetVarint64(src)
    case None => InvalidArgument
    case Some(v) => Ok(Span(v.length, v.value))
  }

  /** The outcome of decoding a tensor.  OutsideBuffer: the source would read bytes that are not part
      of the tensor. */
  datatype Decoded<T> = Value(value: T) | Malformed | OutsideBuffer

  /** The string that is encoded at a place of a buffer. */
  function DecodeAt(buf: seq<Byte>, at: nat): Decoded<Str>
    requires at <= |buf|
  {
    match StringDecode(buf[at..])
    case InvalidArgument => Malformed
    case Ok(span) =>
      var start := at + span.start;
      if start + span.length <= |buf| then Value(buf[start..start + span.length]) else OutsideBuffer
  }

  /** A 64-bit word as a signed number. */
  function Signed(word: nat): int { if word < TWO_63 then word else word - TWO_64 }

  /** Where element i of a tensor is looked for, counted from the start of the data. */
  function OffsetOf(order: ByteOrder, input: seq<Byte>, i: nat): int
    requires 8 * (i + 1) <= |input|
  {
    Signed(DecodeWord(order, input[8 * i..8 * (i + 1)]))
  }

  /** The range check of the source. */
  predicate OutOfRange(order: ByteOrder, input: seq<Byte>, total: nat, i: nat)
    requires i < total && 8 * total <= |input|
  {
    OffsetOf(order, input, i) >= |input| - 8 * total
  }

  /** Element i of a tensor with the given number of elements.  The range check is a comparison of signed
      numbers: a negative offset passes it and leads back into the table, or to bytes before it. */
  function DecodeEntry(order: ByteOrder, input: seq<Byte>, total: nat, i: nat): Decoded<Str>
    requires i < total && 8 * total <= |input|
  {
    var at := 8 * total + OffsetOf(order, input, i);
    if OutOfRange(order, input, total, i) then Malformed
    else if at < 0 then OutsideBuffer
    else DecodeAt(input, at)
  }

  /** All elements, unless one cannot be decoded: then the first such one decides. */
  function Collect(entries: seq<Decoded<Str>>): (r: Decoded<seq<Str>>)
    ensures r.Value? ==> |r.value| == |entries|
  {
    if entries == [] then Value([])
    else
      var n := |entries| - 1;
      match Collect(entries[..n])
      case Malformed => Malformed
      case OutsideBuffer => OutsideBuffer
      case Value(ss) =>
        match entries[n]
        case Malformed => Malformed
        case OutsideBuffer => OutsideBuffer
        case Value(s) => Value(ss + [s])
  }

  function Entries(order: ByteOrder, input: seq<Byte>, total: nat): seq<Decoded<Str>>
    requires 8 * total <= |input|
  {
    seq(total, i requires 0 <= i < total => DecodeEntry(order, input, total, i))
  }

  function DecodeTensor(order: ByteOrder, input: seq<Byte>, numElements: nat): Decoded<seq<Str>> {
    if |input| / 8 < numElements then Malformed else Collect(Entries(order, input, numElements))
  }

  lemma {:induction false} FailureSticks(entries: seq<Decoded<Str>>, n: nat)
    requires n <= |entries| && !Collect(entries[..n]).Value?
    ensures Collect(entries) == Collect(entries[..n])
    decreases |entries|
  {
    if n < |entries| {
      var shorter := entries[..|entries| - 1];
      assert shorter[..n] == entries[..n];
      FailureSticks(shorter, n);
    } else {
      assert entries[..n] == entries;
    }
  }

  lemma CollectStep(entries: seq<Decoded<Str>>, ss: seq<Str>, i: nat)
    requires i < |entries| && Collect(entries[..i]) == Value(ss)
    ensures entries[i].Value? ==> Collect(entries[..i + 1]) == Value(ss + [entries[i].value])
    ensures entries[i].Malformed? ==> Collect(entries) == Malformed
    ensures entries[i].OutsideBuffer? ==> Collect(entries) == OutsideBuffer
  {
    assert entries[..i + 1][..i] == entries[..i];
    if !entries[i].Value? { FailureSticks(entries, i + 1); }
  }

  method TensorToTensor(order: ByteOrder, input: seq<Byte>, numElements: nat) returns (r: Decoded<seq<Str>>)
    ensures r == DecodeTensor(order, input, numElements)
  {
    if |input| / 8 < numElements { return Malformed; }
    ghost var entries := Entries(order, input, numElements);
    var strings := [];
    for i := 0 to numElements
      invariant Collect(entries[..i]) == Value(strings)
    {
      CollectStep(entries, strings, i);
      var element := DecodeEntry(order, input, numElements, i);
      match element
      case Malformed => return Malformed;
      case OutsideBuffer => return OutsideBuffer;
      case Value(s) => strings := strings + [s];
    }
    assert entries[..numElements] == entries;
    r := Value(strings);
  }

  lemma {:induction false} CollectOutside(entries: seq<Decoded<Str>>)
    ensures Collect(entries).OutsideBuffer? <==>
            exists i :: 0 <= i < |entries| && entries[i].OutsideBuffer? && FoundBefore(entries, i)
    ensures Collect(entries).Value? <==> FoundBefore(entries, |entries|)
  {
    if entries != [] {
      var n := |entries| - 1;
      var front := entries[..n];
      CollectOutside(front);
      assert forall j :: 0 <= j < n ==> entries[j] == front[j];
      assert forall i :: 0 <= i <= n ==> (FoundBefore(entries, i) <==> FoundBefore(front, i));
      if i :| 0 <= i < |front| && front[i].OutsideBuffer? && FoundBefore(front, i) {
        assert entries[i].OutsideBuffer?;
      }
    }
  }

  /** All elements before the given one were decoded. */
  ghost predicate FoundBefore(entries: seq<Decoded<Str>>, i: nat) {
    forall j :: 0 <= j < i && j < |entries| ==> entries[j].Value?
  }

  /** An element leads out of the buffer: its offset goes back beyond the table, or the length found at its
      offset is more than what follows. */
  predicate LeadsOut(order: ByteOrder, input: seq<Byte>, total: nat, i: nat)
    requires i < total && 8 * total <= |input|
  {
    var at := 8 * total + OffsetOf(order, input, i);
    at < 0 || (at < |input| && GetVarint64(input[at..]).Some? &&
               var v := GetVarint64(input[at..]).value; at + v.length + v.value > |input|)
  }

  /** An element stays inside the buffer: its offset does, a length can be read there, and that much follows. */
  predicate StaysIn(order: ByteOrder, input: seq<Byte>, total: nat, i: nat)
    requires i < total && 8 * total <= |input|
  {
    var at := 8 * total + OffsetOf(order, input, i);
    0 <= at < |input| && GetVarint64(input[at..]).Some? &&
    var v := GetVarint64(input[at..]).value; at + v.length + v.value <= |input|
  }

  lemma EntryExactly(order: ByteOrder, input: seq<Byte>, total: nat, i: nat)
    requires i < total && 8 * total <= |input|
    ensures DecodeEntry(order, input, total, i).OutsideBuffer? <==> LeadsOut(order, input, total, i)
    ensures DecodeEntry(order, input, total, i).Value? <==> StaysIn(order, input, total, i)
    ensures StaysIn(order, input, total, i) ==>
              var at := 8 * total + OffsetOf(order, input, i);
              var v := GetVarint64(input[at..]).value;
              DecodeEntry(order, input, total, i) == Value(input[at + v.length..at + v.length + v.value])
  {
  }

  /** Decoding reads outside the tensor exactly if there is room for the table, some element leads out of the
      buffer, and all before it stay inside. */
  lemma LeavesBufferExactly(order: ByteOrder, input: seq<Byte>, numElements: nat)
    ensures DecodeTensor(order, input, numElements).OutsideBuffer? <==>
            && 8 * numElements <= |input|
            && exists i :: && 0 <= i < numElements && LeadsOut(order, input, numElements, i)
                           && forall j :: 0 <= j < i ==> StaysIn(order, input, numElements, j)
  {
    if 8 * numElements <= |input| {
      var entries := Entries(order, input, numElements);
      CollectOutside(entries);
      forall i | 0 <= i < numElements
        ensures entries[i].OutsideBuffer? <==> LeadsOut(order, input, numElements, i)
        ensures entries[i].Value? <==> StaysIn(order, input, numElements, i)
      {
        EntryExactly(order, input, numElements, i);
      }
      assert forall i :: 0 <= i < numElements ==>
               (FoundBefore(entries, i) <==> forall j :: 0 <= j < i ==> StaysIn(order, input, numElements, j));
    }
  }

  /** What the range check refuses: the words that are out of range, except those of 2^63 and more. */
  lemma RangeCheckExactly(order: ByteOrder, input: seq<Byte>, total: nat, i: nat)
    requires i < total && 8 * total <= |input| < TWO_63
    ensures
      var word := DecodeWord(order, input[8 * i..8 * (i + 1)]);
      OutOfRange(order, input, total, i) <==> |input| - 8 * total <= word < TWO_63
  {
    EightBytes();
    WordBound(order, input[8 * i..8 * (i + 1)]);
  }

  /** An input that is read beyond its end: one string that claims a byte more than there is. */
  lemma StrayRead()
    ensures DecodeTensor(LittleEndian, EncodeWord(LittleEndian, 0, 8) + [1], 1) == OutsideBuffer
  {
    var word := EncodeWord(LittleEndian, 0, 8);
    var input := word + [1];
    EightBytes();
    WordRoundTrip(LittleEndian, 0, 8);
    assert input[8 * 0..8 * (0 + 1)] == word;
    assert input[8..] == [1] && GetVarint64([1]) == Some(Varint(1, 1));
    assert LeadsOut(LittleEndian, input, 1, 0);
    LeavesBufferExactly(LittleEndian, input, 1);
  }

  /** A tensor with an offset far out of range that decodes nevertheless: the first of two offsets leads back
      to the second one, whose bytes are read as a string. */
  lemma NegativeOffsetDecodes()
    ensures
      var input := EncodeWord(LittleEndian, TWO_64 - 8, 8) + (EncodeWord(LittleEndian, 0, 8) + [0]);
      DecodeTensor(LittleEndian, input, 2) == Value([[], []])
  {
    var first, second := EncodeWord(LittleEndian, TWO_64 - 8, 8), EncodeWord(LittleEndian, 0, 8);
    var input := first + (second + [0]);
    EightBytes();
    WordRoundTrip(LittleEndian, TWO_64 - 8, 8);
    WordRoundTrip(LittleEndian, 0, 8);
    assert input[8 * 0..8 * (0 + 1)] == first && input[8 * 1..8 * (1 + 1)] == second;
    assert input[8..][0] == second[0] == 0 && input[16..][0] == 0;
    EmptyStringAt(input, 8);
    EmptyStringAt(input, 16);
    var entries := Entries(LittleEndian, input, 2);
    assert entries[0] == entries[1] == Value([]);
    CollectValues(entries, [[], []]);
  }

  lemma EmptyStringAt(buf: seq<Byte>, at: nat)
    requires at < |buf| && buf[at] == 0
    ensures DecodeAt(buf, at) == Value([])
  {
    assert buf[at..][0] == 0;
    assert GetVarint64(buf[at..]) == Some(Varint(0, 1));
    assert buf[at + 1..at + 1] == [];
  }

  // ---------------------------------------------------------------------------------------
  // The round trip
  // ---------------------------------------------------------------------------------------

  lemma StringRoundTrip(s: Str, rest: seq<Byte>)
    requires |s| < TWO_64
    ensures StringDecode(EncodeString(s) + rest) == Ok(Span(VarintLength(|s|), |s|))
  {
    VarintRoundTrip(|s|, s + rest);
    Associates(EncodeVarint(|s|), s, rest);
  }

  lemma Associates<T>(a: seq<T>, b: seq<T>, c: seq<T>)
    ensures (a + b) + c == a + (b + c)
  {
  }

  lemma DecodeAtCode(data: seq<Byte>, at: nat, s: Str, rest: seq<Byte>)
    requires at <= |data| < TWO_64 && data[at..] == EncodeString(s) + rest
    ensures DecodeAt(data, at) == Value(s)
  {
    StringRoundTrip(s, rest);
    var start := at + VarintLength(|s|);
    assert |data[at..]| == VarintLength(|s|) + |s| + |rest|;
    assert data[start..start + |s|] == data[at..][VarintLength(|s|)..VarintLength(|s|) + |s|] == s;
  }

  lemma {:induction false} DataFrom(ss: seq<Str>, i: nat, n: nat)
    requires i < n <= |ss|
    ensures Offset(ss, i) + |EncodeString(ss[i])| <= Offset(ss, n)
    ensures EncodeString(ss[i]) <= Data(ss[..n])[Offset(ss, i)..]
  {
    DataStep(ss, n - 1);
    if i < n - 1 {
      DataFrom(ss, i, n - 1);
      var shorter, at := Data(ss[..n - 1]), Offset(ss, i);
      assert (shorter + EncodeString(ss[n - 1]))[at..] == shorter[at..] + EncodeString(ss[n - 1]);
    }
  }

  /** Every offset of the table points at the encoding of its string, inside the data, whatever stands in
      front of the data. */
  lemma OffsetFindsString(front: seq<Byte>, ss: seq<Str>, i: nat)
    requires i < |ss| && |front + Data(ss)| < TWO_64
    ensures Offset(ss, i) < |Data(ss)|
    ensures DecodeAt(front + Data(ss), |front| + Offset(ss, i)) == Value(ss[i])
  {
    DataFrom(ss, i, |ss|);
    assert ss[..|ss|] == ss;
    var code, tail := EncodeString(ss[i]), Data(ss)[Offset(ss, i)..];
    Behind(front, Data(ss), Offset(ss, i));
    PrefixAndRest(code, tail);
    DecodeAtCode(front + Data(ss), |front| + Offset(ss, i), ss[i], tail[|code|..]);
  }

  lemma Behind<T>(front: seq<T>, s: seq<T>, k: nat)
    requires k <= |s|
    ensures (front + s)[|front| + k..] == s[k..]
  {
  }

  lemma PrefixAndRest<T>(p: seq<T>, s: seq<T>)
    requires p <= s
    ensures s == p + s[|p|..]
  {
  }

  lemma {:induction false} TableEntry(order: ByteOrder, ss: seq<Str>, n: nat, i: nat)
    requires i < n <= |ss|
    ensures OffsetTable(order, ss, n)[8 * i..8 * (i + 1)] == EncodeWord(order, Offset(ss, i), 8)
  {
    var front, word := OffsetTable(order, ss, n - 1), EncodeWord(order, Offset(ss, n - 1), 8);
    if i < n - 1 {
      TableEntry(order, ss, n - 1, i);
      SliceOfFront(front, word, 8 * i, 8 * (i + 1));
    } else {
      SliceOfBack(front, word, 8 * i, 8 * (i + 1));
    }
  }

  lemma SliceOfFront<T>(a: seq<T>, b: seq<T>, lo: nat, hi: nat)
    requires lo <= hi <= |a|
    ensures (a + b)[lo..hi] == a[lo..hi]
  {
  }

  lemma SliceOfBack<T>(a: seq<T>, b: seq<T>, lo: nat, hi: nat)
    requires lo == |a| && hi == |a| + |b|
    ensures (a + b)[lo..hi] == b
  {
  }

  /** Reading entry i of an encoded tensor finds string i. */
  lemma EntryDecodes(order: ByteOrder, ss: seq<Str>, i: nat)
    requires i < |ss| && TensorSize(ss) < TWO_63
    ensures DecodeEntry(order, EncodeTensor(order, ss), |ss|, i) == Value(ss[i])
  {
    EntryOffset(order, ss, i);
    OffsetFindsString(OffsetTable(order, ss, |ss|), ss, i);
    EntryAt(order, EncodeTensor(order, ss), |ss|, i, Offset(ss, i), ss[i]);
  }

  lemma EntryAt(order: ByteOrder, input: seq<Byte>, total: nat, i: nat, offset: nat, s: Str)
    requires i < total && 8 * total + offset < |input|
    requires OffsetOf(order, input, i) == offset && DecodeAt(input, 8 * total + offset) == Value(s)
    ensures DecodeEntry(order, input, total, i) == Value(s)
  {
  }

  /** The offset that is read for element i is the one of string i. */
  lemma EntryOffset(order: ByteOrder, ss: seq<Str>, i: nat)
    requires i < |ss| && TensorSize(ss) < TWO_63
    ensures OffsetOf(order, EncodeTensor(order, ss), i) == Offset(ss, i)
  {
    var input, table := EncodeTensor(order, ss), OffsetTable(order, ss, |ss|);
    TableEntry(order, ss, |ss|, i);
    assert input[8 * i..8 * (i + 1)] == table[8 * i..8 * (i + 1)];
    OffsetStep(ss, i);
    WordBack(order, Offset(ss, i));
  }

  lemma WordBack(order: ByteOrder, v: nat)
    requires v < TWO_63
    ensures Signed(DecodeWord(order, EncodeWord(order, v, 8))) == v
  {
    EightBytes();
    WordRoundTrip(order, v, 8);
  }

  /** The number of bytes that the strings before i take. */
  function BytesBefore(ss: seq<Str>, i: nat): nat
    requires i <= |ss|
  {
    if i == 0 then 0 else BytesBefore(ss, i - 1) + VarintLength(|ss[i - 1]|) + |ss[i - 1]|
  }

  lemma {:induction false} OffsetIsBytesBefore(ss: seq<Str>, i: nat)
    requires i <= |ss|
    ensures Offset(ss, i) == BytesBefore(ss, i)
  {
    if i > 0 {
      OffsetIsBytesBefore(ss, i - 1);
      DataStep(ss, i - 1);
    }
  }

  /** The documented format, byte by byte: word i of the table is the number of bytes that the strings before i
      take, and so far behind the table stand the length of string i, as a varint, and its bytes. */
  lemma FormatAsDocumented(order: ByteOrder, ss: seq<Str>, i: nat)
    requires i < |ss|
    ensures
      var input, offset, at := EncodeTensor(order, ss), BytesBefore(ss, i), 8 * |ss| + BytesBefore(ss, i);
      && 8 * (i + 1) <= |input| && input[8 * i..8 * (i + 1)] == EncodeWord(order, offset, 8)
      && at <= |input| && EncodeVarint(|ss[i]|) + ss[i] <= input[at..]
  {
    OffsetIsBytesBefore(ss, i);
    TableEntry(order, ss, |ss|, i);
    SliceOfFront(OffsetTable(order, ss, |ss|), Data(ss), 8 * i, 8 * (i + 1));
    StringBehindTable(OffsetTable(order, ss, |ss|), ss, i);
  }

  lemma StringBehindTable(table: seq<Byte>, ss: seq<Str>, i: nat)
    requires i < |ss|
    ensures Offset(ss, i) <= |Data(ss)| && EncodeString(ss[i]) <= (table + Data(ss))[|table| + Offset(ss, i)..]
  {
    DataFrom(ss, i, |ss|);
    assert ss[..|ss|] == ss;
    Behind(table, Data(ss), Offset(ss, i));
  }

  lemma {:induction false} CollectValues(entries: seq<Decoded<Str>>, ss: seq<Str>)
    requires |entries| == |ss| && forall i :: 0 <= i < |ss| ==> entries[i] == Value(ss[i])
    ensures Collect(entries) == Value(ss)
  {
    if ss != [] {
      var n := |ss| - 1;
      CollectValues(entries[..n], ss[..n]);
      assert ss == ss[..n] + [ss[n]];
    }
  }

  /** Decoding what was encoded returns the same list of strings. */
  lemma TensorRoundTrip(order: ByteOrder, ss: seq<Str>)
    requires TensorSize(ss) < TWO_63
    ensures |EncodeTensor(order, ss)| == TensorSize(ss)
    ensures DecodeTensor(order, EncodeTensor(order, ss), |ss|) == Value(ss)
  {
    forall i | 0 <= i < |ss|
      ensures DecodeEntry(order, EncodeTensor(order, ss), |ss|, i) == Value(ss[i])
    {
      EntryDecodes(order, ss, i);
    }
    CollectValues(Entries(order, EncodeTensor(order, ss), |ss|), ss);
  }
}
