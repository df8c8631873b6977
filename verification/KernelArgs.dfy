/** Kernel arguments of tensorflow/stream_executor/kernel.h: ordinary and device-memory arguments go to
    one list, shared-memory arguments to another together with the place where each belongs, and an
    iterator merges the two lists again. */
module KernelArgs {
  import opened Bytes

  /** An argument as the caller adds it. */
  datatype Arg = Ordinary(address: int, size: nat) | DeviceMemory(pointer: int) | Shared(bytes: nat)

  /** What an address points at: memory of the caller, or a copy of an opaque pointer kept here. */
  datatype Address = Null | Caller(address: int) | Slot(index: nat)

  /** An argument as the iterator yields it. */
  datatype KernelArg = KernelArg(isShared: bool, address: Address, size: nat)

  const POINTER_SIZE: nat := 8

  // ---------------------------------------------------------------------------------------
  // The split of an argument list into two
  // ---------------------------------------------------------------------------------------

  /** An entry of the list of other arguments; a device-memory one also fills its slot. */
  datatype Plain = Plain(address: Address, size: nat, slot: seq<int>)

  /** An entry of the list of shared-memory arguments. */
  datatype SharedEntry = SharedEntry(bytes: nat, index: nat)

  datatype Lists = Lists(plain: seq<Plain>, shared: seq<SharedEntry>)

  /** What one more argument adds to the lists. */
  function Add(lists: Lists, a: Arg): Lists {
    var n := |lists.plain|;
    match a
    case Ordinary(address, size) => lists.(plain := lists.plain + [Plain(Caller(address), size, [])])
    case DeviceMemory(pointer) => lists.(plain := lists.plain + [Plain(Slot(n), POINTER_SIZE, [pointer])])
    case Shared(bytes) => lists.(shared := lists.shared + [SharedEntry(bytes, n + |lists.shared|)])
  }

  function Split(args: seq<Arg>): (r: Lists)
    ensures |r.plain| + |r.shared| == |args|
  {
    if args == [] then Lists([], []) else Add(Split(args[..|args| - 1]), args[|args| - 1])
  }

  function TotalShared(args: seq<Arg>): nat {
    if args == [] then 0
    else
      var last := args[|args| - 1];
      TotalShared(args[..|args| - 1]) + (if last.Shared? then last.bytes else 0)
  }

  /** Addition of size_t. */
  function AddSizes(a: nat, b: nat): nat { (a + b) % TWO_64 }

  /** The same sum with the wrap-around of size_t. */
  function WrappedShared(args: seq<Arg>): nat {
    if args == [] then 0
    else
      var last := args[|args| - 1];
      var before := WrappedShared(args[..|args| - 1]);
      if last.Shared? then AddSizes(before, last.bytes) else before
  }

  lemma {:induction false} SharedSumWraps(args: seq<Arg>)
    ensures WrappedShared(args) == TotalShared(args) % TWO_64
  {
    if args != [] {
      var n := |args| - 1;
      SharedSumWraps(args[..n]);
      if args[n].Shared? { WrappedSum(TotalShared(args[..n]), args[n].bytes); }
    }
  }

  lemma WrappedSum(total: nat, bytes: nat)
    ensures (total % TWO_64 + bytes) % TWO_64 == (total + bytes) % TWO_64
  {
    var q, r := total / TWO_64, total % TWO_64;
    assert total == q * TWO_64 + r;
    Multiples(r + bytes, q);
  }

  lemma {:induction false} Multiples(n: nat, q: nat)
    ensures (n + q * TWO_64) % TWO_64 == n % TWO_64
  {
    if q > 0 {
      Multiples(n, q - 1);
      var m := n + (q - 1) * TWO_64;
      assert (m + TWO_64) % TWO_64 == m % TWO_64;
    }
  }

  lemma AddedShared(args: seq<Arg>, bytes: nat)
    ensures WrappedShared(args + [Shared(bytes)]) == AddSizes(WrappedShared(args), bytes)
    ensures Split(args + [Shared(bytes)]) == Add(Split(args), Shared(bytes))
  {
    var more := args + [Shared(bytes)];
    assert more[..|more| - 1] == args;
  }

  lemma AddedPlain(args: seq<Arg>, a: Arg)
    requires !a.Shared?
    ensures WrappedShared(args + [a]) == WrappedShared(args)
    ensures Split(args + [a]) == Add(Split(args), a)
  {
    assert (args + [a])[..|args|] == args;
  }

  /** What the iterator must yield for an argument; a device-memory argument is found through the slot
      with its place among the arguments that are not shared. */
  function Yield(args: seq<Arg>, k: nat): KernelArg
    requires k < |args|
  {
    match args[k]
    case Ordinary(address, size) => KernelArg(false, Caller(address), size)
    case DeviceMemory(_) => KernelArg(false, Slot(|Split(args[..k]).plain|), POINTER_SIZE)
    case Shared(bytes) => KernelArg(true, Null, bytes)
  }

  lemma SplitStep(args: seq<Arg>, k: nat)
    requires k < |args|
    ensures Split(args[..k + 1]) == Add(Split(args[..k]), args[k])
  {
    assert args[..k + 1][..k] == args[..k];
  }

  /** The lists of a prefix are prefixes of the lists, and shared entries of later arguments name later
      places. */
  lemma {:induction false} SplitGrows(args: seq<Arg>, j: nat, k: nat)
    requires j <= k <= |args|
    ensures Split(args[..j]).plain <= Split(args[..k]).plain
    ensures Split(args[..j]).shared <= Split(args[..k]).shared
    ensures forall i :: |Split(args[..j]).shared| <= i < |Split(args[..k]).shared| ==>
              Split(args[..k]).shared[i].index >= j
  {
    if j < k {
      SplitGrows(args, j, k - 1);
      SplitStep(args, k - 1);
    }
  }

  /** One step of the merge: with the cursors at the ends of the lists of the first k arguments, the next
      shared entry names place k exactly when argument k is shared, and the entry at the cursor is the
      one to yield. */
  lemma MergeStep(args: seq<Arg>, k: nat)
    requires k < |args|
    ensures
      var now, next, all := Split(args[..k]), Split(args[..k + 1]), Split(args);
      var p, s := |now.plain|, |now.shared|;
      && p + s == k && s <= |all.shared|
      && (args[k].Shared? <==> s < |all.shared| && all.shared[s].index == k)
      && (if args[k].Shared? then
            Yield(args, k) == KernelArg(true, Null, all.shared[s].bytes) && |next.shared| == s + 1 && |next.plain| == p
          else
            p < |all.plain| && Yield(args, k) == KernelArg(false, all.plain[p].address, all.plain[p].size)
            && |next.plain| == p + 1 && |next.shared| == s)
      && (args[k].DeviceMemory? ==> all.plain[p] == Plain(Slot(p), POINTER_SIZE, [args[k].pointer]))
  {
    SplitStep(args, k);
    SplitGrows(args, k + 1, |args|);
    assert args[..|args|] == args;
  }

  /** The same with an array that holds further arguments: its lists begin with those of the first ones. */
  lemma MergeStepIn(args: seq<Arg>, all: seq<Arg>, k: nat)
    requires k < |args| && args <= all
    ensures
      var now, next, lists := Split(args[..k]), Split(args[..k + 1]), Split(all);
      var p, s, end := |now.plain|, |now.shared|, |Split(args).shared|;
      && s <= end <= |lists.shared|
      && (args[k].Shared? <==> s < end && lists.shared[s].index == k)
      && (if args[k].Shared? then
            Yield(args, k) == KernelArg(true, Null, lists.shared[s].bytes)
            && |next.shared| == s + 1 && |next.plain| == p
          else
            p < |lists.plain| && Yield(args, k) == KernelArg(false, lists.plain[p].address, lists.plain[p].size)
            && |next.plain| == p + 1 && |next.shared| == s)
  {
    MergeStep(args, k);
    SplitGrows(all, |args|, |all|);
    assert all[..|args|] == args && all[..|all|] == all;
  }

  // ---------------------------------------------------------------------------------------
  // The array and its iterator
  // ---------------------------------------------------------------------------------------

  class KernelArgsArray {
    const opaquePointers: array<int>
    const addresses: array<Address>
    const sizes: array<nat>
    const sharedBytes: array<nat>
    const sharedIndices: array<nat>
    var totalSharedBytes: nat
    var addressCount: nat
    var sharedCount: nat

    /** The arguments added so far, in order; Valid() ties them to the fields above. */
    ghost var args: seq<Arg>

    ghost predicate Valid()
      reads this, opaquePointers, addresses, sizes, sharedBytes, sharedIndices
    {
      && opaquePointers.Length == addresses.Length == sizes.Length == sharedBytes.Length == sharedIndices.Length
      && sizes != sharedBytes && sizes != sharedIndices && sharedBytes != sharedIndices
      && totalSharedBytes == WrappedShared(args)
      && HoldsPlain(Split(args).plain) && HoldsShared(Split(args).shared)
    }

    ghost predicate HoldsPlain(plain: seq<Plain>)
      reads this, opaquePointers, addresses, sizes
    {
      && |plain| == addressCount <= addresses.Length == sizes.Length == opaquePointers.Length
      && forall i :: 0 <= i < addressCount ==>
           && addresses[i] == plain[i].address && sizes[i] == plain[i].size
           && (plain[i].slot != [] ==> opaquePointers[i] == plain[i].slot[0])
    }

    ghost predicate HoldsShared(shared: seq<SharedEntry>)
      reads this, sharedBytes, sharedIndices
    {
      && |shared| == sharedCount <= sharedBytes.Length == sharedIndices.Length
      && forall i :: 0 <= i < sharedCount ==>
           sharedBytes[i] == shared[i].bytes && sharedIndices[i] == shared[i].index
    }

    /** A device-memory argument leads to the slot that keeps its pointer. */
    lemma SlotHoldsPointer(k: nat)
      requires Valid() && k < |args| && args[k].DeviceMemory?
      ensures
        var slot := |Split(args[..k]).plain|;
        slot < opaquePointers.Length && opaquePointers[slot] == args[k].pointer
    {
      MergeStep(args, k);
    }

    constructor (capacity: nat)
      ensures Valid() && addresses.Length == capacity && args == []
      ensures fresh(opaquePointers) && fresh(addresses) && fresh(sizes) && fresh(sharedBytes) && fresh(sharedIndices)
    {
      opaquePointers := new int[capacity];
      addresses := new Address[capacity];
      sizes := new nat[capacity];
      sharedBytes := new nat[capacity];
      sharedIndices := new nat[capacity];
      totalSharedBytes, addressCount, sharedCount := 0, 0, 0;
      args := [];
    }

    method AddArgument(address: int, size: nat)
      requires Valid() && addressCount < addresses.Length
      modifies this, addresses, sizes
      ensures Valid() && args == old(args) + [Ordinary(address, size)]
    {
      addresses[addressCount] := Caller(address);
      sizes[addressCount] := size;
      addressCount := addressCount + 1;
      AddedPlain(args, Ordinary(address, size));
      args := args + [Ordinary(address, size)];
    }

    method AddDeviceMemoryArgument(pointer: int)
      requires Valid() && addressCount < addresses.Length
      modifies this, opaquePointers, addresses, sizes
      ensures Valid() && args == old(args) + [DeviceMemory(pointer)]
    {
      opaquePointers[addressCount] := pointer;
      addresses[addressCount] := Slot(addressCount);
      sizes[addressCount] := POINTER_SIZE;
      addressCount := addressCount + 1;
      AddedPlain(args, DeviceMemory(pointer));
      args := args + [DeviceMemory(pointer)];
    }

    method AddSharedBytes(bytes: nat)
      requires Valid() && sharedCount < sharedIndices.Length
      modifies this, sharedBytes, sharedIndices
      ensures Valid() && args == old(args) + [Shared(bytes)]
    {
      RecordShared(bytes, Split(args));
      totalSharedBytes := AddSizes(totalSharedBytes, bytes);
      AddedShared(args, bytes);
      args := args + [Shared(bytes)];
    }

    /** Puts an entry at the end of the list of shared-memory arguments. */
    method RecordShared(bytes: nat, ghost lists: Lists)
      requires sizes != sharedBytes && sizes != sharedIndices && sharedBytes != sharedIndices
      requires HoldsPlain(lists.plain) && HoldsShared(lists.shared) && sharedCount < sharedIndices.Length
      modifies this`sharedCount, sharedBytes, sharedIndices
      ensures HoldsPlain(lists.plain)
      ensures HoldsShared(lists.shared + [SharedEntry(bytes, |lists.plain| + |lists.shared|)])
    {
      sharedIndices[sharedCount] := addressCount + sharedCount;
      sharedBytes[sharedCount] := bytes;
      sharedCount := sharedCount + 1;
    }

    /** The number of arguments added so far, including shared memory arguments. */
    method NumberOfArguments() returns (n: nat)
      requires Valid()
      ensures n == |args|
    {
      n := addressCount + sharedCount;
    }

    /** The sum wraps around like size_t: it is exact as long as it is below 2^64. */
    method NumberOfSharedBytes() returns (n: nat)
      requires Valid()
      ensures n == TotalShared(args) % TWO_64
      ensures n == TotalShared(args) <==> TotalShared(args) < TWO_64
    {
      SharedSumWraps(args);
      n := totalSharedBytes;
    }
  }

  /** The iterator: a cursor into each of the four arrays, and the index of the next argument.  How many
      arguments there are is fixed when the iterator is made. */
  class KernelArgIterator {
    const source: KernelArgsArray
    const numberOfArguments: nat
    const indicesEnd: nat
    var argIndex: nat
    var addressIter: nat
    var sizeIter: nat
    var bytesIter: nat
    var indicesIter: nat

    /** The arguments that were there when the iterator was made. */
    ghost const args: seq<Arg>

    /** The cursors stand at the ends of the lists of the arguments yielded so far.  The array may have grown
        since the iterator was made. */
    ghost predicate Valid()
      reads this, source, source.opaquePointers, source.addresses, source.sizes
      reads source.sharedBytes, source.sharedIndices
    {
      source.Valid() && args <= source.args && Cursors()
    }

    ghost predicate Cursors()
      reads this
    {
      && numberOfArguments == |args| && indicesEnd == |Split(args).shared|
      && argIndex <= |args|
      && addressIter == sizeIter == |Split(args[..argIndex]).plain|
      && bytesIter == indicesIter == |Split(args[..argIndex]).shared|
    }

    constructor (a: KernelArgsArray)
      requires a.Valid()
      ensures Valid() && source == a && args == a.args && argIndex == 0
    {
      source := a;
      numberOfArguments, indicesEnd := a.addressCount + a.sharedCount, a.sharedCount;
      argIndex, addressIter, sizeIter, bytesIter, indicesIter := 0, 0, 0, 0, 0;
      args := a.args;
    }

    method HasNext() returns (r: bool)
      requires Valid()
      ensures r <==> argIndex < |args|
    {
      r := argIndex < numberOfArguments;
    }

    /** Yields the next argument; after the last one, a default argument, again and again.  Arguments that
        were added to the array after the iterator was made are not yielded. */
    method Next() returns (r: KernelArg)
      requires Valid()
      modifies this
      ensures Valid()
      ensures old(argIndex) < |args| ==> r == Yield(args, old(argIndex)) && argIndex == old(argIndex) + 1
      ensures old(argIndex) == |args| ==> r == KernelArg(false, Null, 0) && argIndex == old(argIndex)
    {
      var more := HasNext();
      if !more { return KernelArg(false, Null, 0); }
      var shared := NextIsShared();
      if shared { r := TakeShared(); } else { r := TakePlain(); }
    }

    method NextIsShared() returns (shared: bool)
      requires Valid() && argIndex < |args|
      ensures shared <==> args[argIndex].Shared?
    {
      MergeStepIn(args, source.args, argIndex);
      shared := indicesIter != indicesEnd && argIndex == source.sharedIndices[indicesIter];
    }

    method TakeShared() returns (r: KernelArg)
      requires Valid() && argIndex < |args| && args[argIndex].Shared?
      modifies this
      ensures Valid() && r == Yield(args, old(argIndex)) && argIndex == old(argIndex) + 1
    {
      MergeStepIn(args, source.args, argIndex);
      r := KernelArg(true, Null, source.sharedBytes[bytesIter]);
      indicesIter := indicesIter + 1;
      bytesIter := bytesIter + 1;
      argIndex := argIndex + 1;
    }

    method TakePlain() returns (r: KernelArg)
      requires Valid() && argIndex < |args| && !args[argIndex].Shared?
      modifies this
      ensures Valid() && r == Yield(args, old(argIndex)) && argIndex == old(argIndex) + 1
    {
      MergeStepIn(args, source.args, argIndex);
      r := KernelArg(false, source.addresses[addressIter], source.sizes[sizeIter]);
      addressIter := addressIter + 1;
      sizeIter := sizeIter + 1;
      argIndex := argIndex + 1;
    }
  }

  /** Walking the iterator to its end yields every argument once, in the order of the additions, and a
      device-memory argument points at the slot that holds its opaque pointer. */
  method Walk(a: KernelArgsArray) returns (walked: seq<KernelArg>)
    requires a.Valid()
    ensures |walked| == |a.args|
    ensures forall k :: 0 <= k < |walked| ==> walked[k] == Yield(a.args, k)
    ensures forall k :: 0 <= k < |walked| && a.args[k].DeviceMemory? ==>
              walked[k].address.Slot? && walked[k].address.index < a.opaquePointers.Length
              && a.opaquePointers[walked[k].address.index] == a.args[k].pointer
  {
    var it := new KernelArgIterator(a);
    walked := [];
    var more := it.HasNext();
    while more
      invariant it.Valid() && it.args == a.args && it.argIndex == |walked|
      invariant more <==> it.argIndex < |a.args|
      invariant forall k :: 0 <= k < |walked| ==> walked[k] == Yield(a.args, k)
      decreases |a.args| - |walked|
    {
      var arg := it.Next();
      walked := walked + [arg];
      more := it.HasNext();
    }
    forall k | 0 <= k < |walked| && a.args[k].DeviceMemory?
      ensures walked[k].address.Slot? && walked[k].address.index < a.opaquePointers.Length
              && a.opaquePointers[walked[k].address.index] == a.args[k].pointer
    {
      a.SlotHoldsPointer(k);
    }
  }
}
