/** Bytes, machine words and Base 128 Varints ("Base 128 Varints" section of the Protocol Buffers
    Encoding specification). */
module Bytes {
  import opened Common

  type Byte = b: int | 0 <= b < 256

  const TWO_63: nat := 0x8000_0000_0000_0000
  const TWO_64: nat := 0x1_0000_0000_0000_0000

  /** Conversion to int, which keeps the low 32 bits. */
  function AsInt(x: nat): int {
    var low := x % 0x1_0000_0000;
    if low < 0x8000_0000 then low else low - 0x1_0000_0000
  }

  /** The conversion keeps the low 32 bits and gives a number in the range of int. */
  lemma IntBits(x: nat)
    ensures -0x8000_0000 <= AsInt(x) < 0x8000_0000 && (x - AsInt(x)) % 0x1_0000_0000 == 0
  {
  }

  // ---------------------------------------------------------------------------------------
  // Machine words in either byte order
  // ---------------------------------------------------------------------------------------

  datatype ByteOrder = LittleEndian | BigEndian

  function Power256(n: nat): (r: nat)
    ensures r > 0
  {
    if n == 0 then 1 else 256 * Power256(n - 1)
  }

  function LowFirst(v: nat, n: nat): (s: seq<Byte>)
    ensures |s| == n
  {
    if n == 0 then [] else [v % 256] + LowFirst(v / 256, n - 1)
  }

  function LowFirstValue(s: seq<Byte>): nat {
    if s == [] then 0 else s[0] + 256 * LowFirstValue(s[1..])
  }

  function Reverse(s: seq<Byte>): (r: seq<Byte>)
    ensures |r| == |s|
    ensures forall i :: 0 <= i < |s| ==> r[i] == s[|s| - 1 - i]
  {
    if s == [] then [] else Reverse(s[1..]) + [s[0]]
  }

  function EncodeWord(order: ByteOrder, v: nat, n: nat): (s: seq<Byte>)
    ensures |s| == n
  {
    if order == LittleEndian then LowFirst(v, n) else Reverse(LowFirst(v, n))
  }

  function DecodeWord(order: ByteOrder, s: seq<Byte>): nat {
    LowFirstValue(if order == LittleEndian then s else Reverse(s))
  }

  lemma {:induction false} LowFirstRoundTrip(v: nat, n: nat)
    requires v < Power256(n)
    ensures LowFirstValue(LowFirst(v, n)) == v
  {
    if n > 0 {
      LowFirstRoundTrip(v / 256, n - 1);
      assert LowFirst(v, n)[1..] == LowFirst(v / 256, n - 1);
    }
  }

  lemma WordRoundTrip(order: ByteOrder, v: nat, n: nat)
    requires v < Power256(n)
    ensures DecodeWord(order, EncodeWord(order, v, n)) == v
  {
    LowFirstRoundTrip(v, n);
    assert Reverse(Reverse(LowFirst(v, n))) == LowFirst(v, n);
  }

  lemma DivideTwice(v: nat, a: nat, b: nat)
    requires a > 0 && b > 0
    ensures a * b > 0 && v / a / b == v / (a * b)
  {
    var q, p := v / a, v / a / b;
    DivMod(v, a);
    DivMod(q, b);
    TwoDigits(v, a, b, p, q % b, v % a);
    QuotientIs(v, a * b, p, q % b * a + v % a);
  }

  lemma DivMod(v: nat, n: nat)
    requires n > 0
    ensures v == v / n * n + v % n && v % n < n
  {
  }

  lemma TwoDigits(v: nat, a: nat, b: nat, p: nat, t: nat, r: nat)
    requires v == (p * b + t) * a + r && r < a && t < b
    ensures v == p * (a * b) + (t * a + r) && t * a + r < a * b
  {
    Distribute(p, b, t, a);
    MulMonotone(t + 1, b, a);
    OneMore(t, a);
  }

  lemma Distribute(p: nat, b: nat, t: nat, a: nat)
    ensures (p * b + t) * a == p * (a * b) + t * a
  {
    assert (p * b + t) * a == p * b * a + t * a;
    assert p * b * a == p * (b * a);
  }

  lemma QuotientIs(v: nat, n: nat, q: nat, r: nat)
    requires v == q * n + r && r < n
    ensures v / n == q
  {
    var p, t := v / n, v % n;
    assert v == p * n + t;
    OneMore(q, n);
    OneMore(p, n);
    if p < q { MulMonotone(p + 1, q, n); }
    if q < p { MulMonotone(q + 1, p, n); }
  }

  /** Byte k of a word, counted from the low end, holds its digit k in base 256; a little-endian word starts with
      the low end and a big-endian one ends with it. */
  lemma {:induction false} WordByte(v: nat, n: nat, k: nat)
    requires k < n
    ensures EncodeWord(LittleEndian, v, n)[k] == v / Power256(k) % 256
    ensures EncodeWord(BigEndian, v, n)[n - 1 - k] == v / Power256(k) % 256
    decreases k
  {
    if k > 0 {
      WordByte(v / 256, n - 1, k - 1);
      DivideTwice(v, 256, Power256(k - 1));
    } else {
      assert v / 1 == v;
    }
  }

  lemma {:induction false} LowFirstBound(s: seq<Byte>)
    ensures LowFirstValue(s) < Power256(|s|)
  {
    if s != [] { LowFirstBound(s[1..]); }
  }

  lemma WordBound(order: ByteOrder, s: seq<Byte>)
    ensures DecodeWord(order, s) < Power256(|s|)
  {
    LowFirstBound(if order == LittleEndian then s else Reverse(s));
  }

  lemma EightBytes()
    ensures Power256(8) == TWO_64
  {
    assert Power256(4) == 0x1_0000_0000;
  }

  // ---------------------------------------------------------------------------------------
  // Varints
  // ---------------------------------------------------------------------------------------

  function VarintLength(v: nat): nat {
    if v < 128 then 1 else 1 + VarintLength(v / 128)
  }

  function EncodeVarint(v: nat): (s: seq<Byte>)
    ensures |s| == VarintLength(v) >= 1
  {
    if v < 128 then [v] else [128 + v % 128] + EncodeVarint(v / 128)
  }

  /** A decoded varint and the number of bytes it took. */
  datatype Varint = Varint(value: nat, length: nat)

  /** At most `budget` bytes; the last one has its top bit clear. */
  function ReadVarint(s: seq<Byte>, budget: nat): (r: Option<Varint>)
    ensures r.Some? ==> 1 <= r.value.length <= |s|
  {
    if budget == 0 || s == [] then None
    else if s[0] < 128 then Some(Varint(s[0], 1))
    else
      match ReadVarint(s[1..], budget - 1)
      case None => None
      case Some(v) => Some(Varint(s[0] - 128 + 128 * v.value, v.length + 1))
  }

  /** A 64-bit varint takes at most ten bytes; bits that do not fit into 64 are shifted out. */
  function GetVarint64(s: seq<Byte>): (r: Option<Varint>)
    ensures r.Some? ==> 1 <= r.value.length <= |s| && r.value.value < TWO_64
  {
    match ReadVarint(s, 10)
    case None => None
    case Some(v) => Some(Varint(v.value % TWO_64, v.length))
  }

  function Power128(n: nat): (r: nat)
    ensures r > 0
  {
    if n == 0 then 1 else 128 * Power128(n - 1)
  }

  lemma {:induction false} VarintLengthBound(v: nat, n: nat)
    requires n > 0 && v < Power128(n)
    ensures VarintLength(v) <= n
  {
    if v >= 128 { VarintLengthBound(v / 128, n - 1); }
  }

  lemma VarintAtMostTen(v: nat)
    requires v < TWO_64
    ensures VarintLength(v) <= 10
  {
    assert Power128(5) == 0x8_0000_0000;
    VarintLengthBound(v, 10);
  }

  /** A varint can be read exactly if one of the first ten bytes has its top bit clear; the first such byte is the
      last one of the varint. */
  lemma VarintEnds(s: seq<Byte>)
    ensures GetVarint64(s).Some? <==> exists k :: 0 <= k < |s| && k < 10 && s[k] < 128
    ensures GetVarint64(s).Some? ==> EndsAt(s, GetVarint64(s).value.length - 1)
  {
    ReadVarintEnds(s, 10);
  }

  ghost predicate EndsAt(s: seq<Byte>, k: int) {
    0 <= k < |s| && s[k] < 128 && forall i :: 0 <= i < k ==> s[i] >= 128
  }

  lemma {:induction false} ReadVarintEnds(s: seq<Byte>, budget: nat)
    ensures ReadVarint(s, budget).Some? <==> exists k :: 0 <= k < |s| && k < budget && s[k] < 128
    ensures ReadVarint(s, budget).Some? ==> EndsAt(s, ReadVarint(s, budget).value.length - 1)
    decreases budget
  {
    if budget > 0 && s != [] && s[0] >= 128 {
      ReadVarintEnds(s[1..], budget - 1);
      assert forall i :: 0 < i < |s| ==> s[i] == s[1..][i - 1];
      if k :| 0 <= k < |s| && k < budget && s[k] < 128 { assert s[1..][k - 1] < 128; }
      if k :| 0 <= k < |s| - 1 && k < budget - 1 && s[1..][k] < 128 { assert s[k + 1] < 128; }
    }
  }

  /** Byte k of a varint holds digit k of the value in base 128; the top bit is set on all bytes but the last. */
  lemma {:induction false} VarintByte(v: nat, k: nat)
    requires k < VarintLength(v)
    ensures EncodeVarint(v)[k] == v / Power128(k) % 128 + (if k + 1 < VarintLength(v) then 128 else 0)
    decreases k
  {
    if k > 0 {
      VarintByte(v / 128, k - 1);
      DivideTwice(v, 128, Power128(k - 1));
    } else {
      assert v / 1 == v;
    }
  }

  /** A varint is as short as possible. */
  lemma {:induction false} VarintIsShortest(v: nat)
    ensures v < Power128(VarintLength(v)) && (VarintLength(v) > 1 ==> Power128(VarintLength(v) - 1) <= v)
  {
    if v >= 128 { VarintIsShortest(v / 128); }
  }

  lemma {:induction false} ReadVarintInverts(v: nat, rest: seq<Byte>, budget: nat)
    requires VarintLength(v) <= budget
    ensures ReadVarint(EncodeVarint(v) + rest, budget) == Some(Varint(v, VarintLength(v)))
  {
    var s := EncodeVarint(v) + rest;
    if v >= 128 {
      ReadVarintInverts(v / 128, rest, budget - 1);
      assert s[1..] == EncodeVarint(v / 128) + rest;
    }
  }

  /** Reading what was written gives the value back and stops right after it. */
  lemma VarintRoundTrip(v: nat, rest: seq<Byte>)
    requires v < TWO_64
    ensures GetVarint64(EncodeVarint(v) + rest) == Some(Varint(v, VarintLength(v)))
  {
    VarintAtMostTen(v);
    ReadVarintInverts(v, rest, 10);
  }
}
