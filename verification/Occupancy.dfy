/** GPU occupancy arithmetic of tensorflow/stream_executor/device_description.cc. */
module Occupancy {
  import opened Common
  import opened Bytes

  const UNINITIALIZED: nat := TWO_64 - 1

  /** The device limits that occupancy depends on; all are 64-bit unsigned in the source. */
  datatype Device = Device(
    registersPerThreadLimit: nat,
    threadsPerWarp: nat,
    warpAllocGranularity: nat,
    registerAllocGranularity: nat,
    registersPerBlockLimit: nat,
    sharedMemoryPerCore: nat,
    blocksPerCoreLimit: nat,
    sharedMemoryAllocGranularity: nat,
    threadsPerCoreLimit: nat)
  {
    predicate Initialized() {
      UNINITIALIZED !in [registersPerThreadLimit, threadsPerWarp, warpAllocGranularity, registerAllocGranularity,
                         registersPerBlockLimit, sharedMemoryPerCore, blocksPerCoreLimit]
    }

    predicate PositiveUnits() {
      threadsPerWarp > 0 && warpAllocGranularity > 0 && registerAllocGranularity > 0 && sharedMemoryAllocGranularity > 0
    }
  }

  datatype ThreadDim = ThreadDim(x: nat, y: nat, z: nat)
  {
    function Count(): nat { x * y * z }
  }

  // ---------------------------------------------------------------------------------------
  // Rounding
  // ---------------------------------------------------------------------------------------

  function CeilOfRatio(x: nat, n: nat): nat
    requires n > 0
  {
    x / n + (if x % n == 0 then 0 else 1)
  }

  function RoundUp(x: nat, n: nat): nat
    requires n > 0
  {
    CeilOfRatio(x, n) * n
  }

  function RoundDown(x: nat, n: nat): nat
    requires n > 0
  {
    x / n * n
  }

  lemma MulStep(a: nat, b: nat, n: nat)
    requires a < b
    ensures a * n + n <= b * n
  {
    MulMonotone(a + 1, b, n);
    assert (a + 1) * n == a * n + n;
  }

  /** The ceiling is the least number of units that covers the value. */
  lemma CeilCovers(x: nat, n: nat, k: nat)
    requires n > 0
    ensures CeilOfRatio(x, n) <= k <==> x <= k * n
  {
    var q, r := x / n, x % n;
    assert x == q * n + r;
    if x <= k * n {
      if k < q { MulStep(k, q, n); }
    } else {
      if q < k { MulStep(q, k, n); }
    }
  }

  /** The quotient is the greatest number of units that fits into the value. */
  lemma QuotientFits(x: nat, n: nat, k: nat)
    requires n > 0
    ensures k <= x / n <==> k * n <= x
  {
    var q, r := x / n, x % n;
    assert x == q * n + r;
    if k <= q {
      MulMonotone(k, q, n);
    } else {
      MulStep(q, k, n);
    }
  }

  lemma RoundUpMonotone(x: nat, y: nat, n: nat)
    requires n > 0 && x <= y
    ensures CeilOfRatio(x, n) <= CeilOfRatio(y, n)
    ensures RoundUp(x, n) <= RoundUp(y, n)
  {
    CeilCovers(y, n, CeilOfRatio(y, n));
    CeilCovers(x, n, CeilOfRatio(y, n));
    MulMonotone(CeilOfRatio(x, n), CeilOfRatio(y, n), n);
  }

  lemma RoundUpFits(x: nat, n: nat, k: nat)
    requires n > 0
    ensures RoundUp(x, n) <= k * n <==> x <= k * n
    ensures x <= RoundUp(x, n)
  {
    CeilCovers(x, n, k);
    CeilCovers(x, n, CeilOfRatio(x, n));
    var c := CeilOfRatio(x, n);
    if c <= k { MulMonotone(c, k, n); } else { MulStep(k, c, n); }
  }

  // ---------------------------------------------------------------------------------------
  // What a block of threads takes from a core
  // ---------------------------------------------------------------------------------------

  function WarpsPerBlock(d: Device, t: ThreadDim): nat
    requires d.PositiveUnits()
  {
    CeilOfRatio(t.Count(), d.threadsPerWarp)
  }

  function ThreadsTaken(d: Device, t: ThreadDim): nat
    requires d.PositiveUnits()
  {
    WarpsPerBlock(d, t) * d.threadsPerWarp
  }

  function RegistersPerWarp(d: Device, r: nat): nat
    requires d.PositiveUnits()
  {
    RoundUp(d.threadsPerWarp * r, d.registerAllocGranularity)
  }

  function RegistersTaken(d: Device, r: nat, t: ThreadDim): nat
    requires d.PositiveUnits()
  {
    RoundUp(WarpsPerBlock(d, t), d.warpAllocGranularity) * RegistersPerWarp(d, r)
  }

  function SharedMemoryTaken(d: Device, smem: nat): nat
    requires d.PositiveUnits()
  {
    RoundUp(smem, d.sharedMemoryAllocGranularity)
  }

  /** A block can be given so many groups of warps, and so many units of registers for every warp in them. */
  predicate Suffices(d: Device, r: nat, t: ThreadDim, groups: nat, units: nat) {
    && t.Count() <= groups * d.warpAllocGranularity * d.threadsPerWarp
    && d.threadsPerWarp * r <= units * d.registerAllocGranularity
  }

  /** The registers of a block are the least that suffice when warps are given out in whole groups and registers
      in whole units. */
  lemma RegistersTakenIsLeast(d: Device, r: nat, t: ThreadDim, groups: nat, units: nat)
    requires d.PositiveUnits() && Suffices(d, r, t, groups, units)
    ensures RegistersTaken(d, r, t) <= groups * d.warpAllocGranularity * (units * d.registerAllocGranularity)
  {
    var warps := WarpsPerBlock(d, t);
    CeilCovers(t.Count(), d.threadsPerWarp, groups * d.warpAllocGranularity);
    RoundUpFits(warps, d.warpAllocGranularity, groups);
    RoundUpFits(d.threadsPerWarp * r, d.registerAllocGranularity, units);
    var a, a' := RoundUp(warps, d.warpAllocGranularity), groups * d.warpAllocGranularity;
    MulMonotone(a, a', RegistersPerWarp(d, r));
    MulMonotone(RegistersPerWarp(d, r), units * d.registerAllocGranularity, a');
  }

  lemma RegistersTakenSuffice(d: Device, r: nat, t: ThreadDim) returns (groups: nat, units: nat)
    requires d.PositiveUnits()
    ensures Suffices(d, r, t, groups, units)
    ensures RegistersTaken(d, r, t) == groups * d.warpAllocGranularity * (units * d.registerAllocGranularity)
  {
    var warps := WarpsPerBlock(d, t);
    groups := CeilOfRatio(warps, d.warpAllocGranularity);
    units := CeilOfRatio(d.threadsPerWarp * r, d.registerAllocGranularity);
    CeilCovers(t.Count(), d.threadsPerWarp, warps);
    RoundUpFits(warps, d.warpAllocGranularity, groups);
    MulMonotone(warps, groups * d.warpAllocGranularity, d.threadsPerWarp);
    RoundUpFits(d.threadsPerWarp * r, d.registerAllocGranularity, units);
  }

  /** The threads of a block are the least number in whole warps, its shared memory the least in whole units. */
  lemma ThreadsAndMemoryAreLeast(d: Device, smem: nat, t: ThreadDim, warps: nat, units: nat)
    requires d.PositiveUnits()
    ensures ThreadsTaken(d, t) <= warps * d.threadsPerWarp <==> t.Count() <= warps * d.threadsPerWarp
    ensures t.Count() <= ThreadsTaken(d, t)
    ensures SharedMemoryTaken(d, smem) <= units * d.sharedMemoryAllocGranularity
            <==> smem <= units * d.sharedMemoryAllocGranularity
    ensures smem <= SharedMemoryTaken(d, smem)
  {
    RoundUpFits(t.Count(), d.threadsPerWarp, warps);
    RoundUpFits(smem, d.sharedMemoryAllocGranularity, units);
  }

  /** So many blocks fit on a core together. */
  predicate BlocksFit(d: Device, r: nat, smem: nat, t: ThreadDim, blocks: nat)
    requires d.PositiveUnits()
  {
    && blocks <= d.blocksPerCoreLimit
    && blocks * RegistersTaken(d, r, t) <= d.registersPerBlockLimit
    && blocks * SharedMemoryTaken(d, smem) <= d.sharedMemoryPerCore
    && blocks * ThreadsTaken(d, t) <= d.threadsPerCoreLimit
  }

  // ---------------------------------------------------------------------------------------
  // CalculateOccupancy, with the wrap-around of 64-bit products
  // ---------------------------------------------------------------------------------------

  function Wrap(x: nat): nat { x % TWO_64 }

  function Min(a: nat, b: nat): nat { if a <= b then a else b }

  /** No product that CalculateOccupancy forms needs more than 64 bits. */
  predicate NoOverflow(d: Device, r: nat, smem: nat, t: ThreadDim)
    requires d.PositiveUnits()
  {
    && t.x * t.y < TWO_64 && t.Count() < TWO_64 && d.threadsPerWarp * r < TWO_64
    && RoundUp(WarpsPerBlock(d, t), d.warpAllocGranularity) < TWO_64
    && RegistersPerWarp(d, r) < TWO_64 && RegistersTaken(d, r, t) < TWO_64
    && SharedMemoryTaken(d, smem) < TWO_64 && ThreadsTaken(d, t) < TWO_64
  }

  /** The two divisors of the source that could be zero. */
  function RegistersPerBlock64(d: Device, r: nat, t: ThreadDim): nat
    requires d.PositiveUnits()
  {
    var warps := CeilOfRatio(Wrap(Wrap(t.x * t.y) * t.z), d.threadsPerWarp);
    Wrap(Wrap(RoundUp(warps, d.warpAllocGranularity))
         * Wrap(RoundUp(Wrap(d.threadsPerWarp * r), d.registerAllocGranularity)))
  }

  function ThreadsPerBlock64(d: Device, t: ThreadDim): nat
    requires d.PositiveUnits()
  {
    Wrap(CeilOfRatio(Wrap(Wrap(t.x * t.y) * t.z), d.threadsPerWarp) * d.threadsPerWarp)
  }

  /** The smallest of the four limits on the number of blocks. */
  function TightestLimit(d: Device, regsPerBlock: nat, smemPerBlock: nat, threadsPerBlock: nat): nat
    requires regsPerBlock > 0 && threadsPerBlock > 0
  {
    var regLimit := d.registersPerBlockLimit / regsPerBlock;
    var smemLimit := if smemPerBlock > 0 then d.sharedMemoryPerCore / smemPerBlock else d.blocksPerCoreLimit;
    var threadLimit := d.threadsPerCoreLimit / threadsPerBlock;
    Min(Min(d.blocksPerCoreLimit, regLimit), Min(smemLimit, threadLimit))
  }

  function CalculateOccupancy(d: Device, r: nat, smem: nat, t: ThreadDim): nat
    requires d.PositiveUnits() && RegistersPerBlock64(d, r, t) > 0 && ThreadsPerBlock64(d, t) > 0
  {
    if !d.Initialized() then 0
    else if r > d.registersPerThreadLimit then 0
    else
      TightestLimit(d, RegistersPerBlock64(d, r, t), Wrap(RoundUp(smem, d.sharedMemoryAllocGranularity)),
                    ThreadsPerBlock64(d, t))
  }

  /** Which values must be set: without any one of these seven there is no occupancy. */
  lemma UnsetMeansNone(d: Device, r: nat, smem: nat, t: ThreadDim)
    requires d.PositiveUnits() && RegistersPerBlock64(d, r, t) > 0 && ThreadsPerBlock64(d, t) > 0
    requires || d.registersPerThreadLimit == UNINITIALIZED || d.threadsPerWarp == UNINITIALIZED
             || d.warpAllocGranularity == UNINITIALIZED || d.registerAllocGranularity == UNINITIALIZED
             || d.registersPerBlockLimit == UNINITIALIZED || d.sharedMemoryPerCore == UNINITIALIZED
             || d.blocksPerCoreLimit == UNINITIALIZED
    ensures CalculateOccupancy(d, r, smem, t) == 0
  {
    var fields := [d.registersPerThreadLimit, d.threadsPerWarp, d.warpAllocGranularity, d.registerAllocGranularity,
                   d.registersPerBlockLimit, d.sharedMemoryPerCore, d.blocksPerCoreLimit];
    assert fields[0] in fields && fields[1] in fields && fields[2] in fields && fields[3] in fields;
    assert fields[4] in fields && fields[5] in fields && fields[6] in fields;
  }

  /** A launch that the source can compute: nothing overflows and no divisor is zero. */
  predicate Computable(d: Device, r: nat, smem: nat, t: ThreadDim) {
    d.PositiveUnits() && r > 0 && t.Count() > 0 && NoOverflow(d, r, smem, t)
  }

  lemma MulPositive(a: nat, b: nat)
    requires a > 0 && b > 0
    ensures a * b > 0
  {
  }

  lemma CeilPositive(x: nat, n: nat)
    requires n > 0 && x > 0
    ensures CeilOfRatio(x, n) > 0
  {
    CeilCovers(x, n, 0);
  }

  lemma PositiveTaken(d: Device, r: nat, t: ThreadDim)
    requires d.PositiveUnits() && r > 0 && t.Count() > 0
    ensures RegistersTaken(d, r, t) > 0 && ThreadsTaken(d, t) > 0
  {
    var w := WarpsPerBlock(d, t);
    CeilPositive(t.Count(), d.threadsPerWarp);
    MulPositive(w, d.threadsPerWarp);
    RoundUpFits(w, d.warpAllocGranularity, 0);
    MulPositive(d.threadsPerWarp, r);
    RoundUpFits(d.threadsPerWarp * r, d.registerAllocGranularity, 0);
    MulPositive(RoundUp(w, d.warpAllocGranularity), RegistersPerWarp(d, r));
  }

  lemma DivisorsExact(d: Device, r: nat, smem: nat, t: ThreadDim)
    requires Computable(d, r, smem, t)
    ensures RegistersPerBlock64(d, r, t) == RegistersTaken(d, r, t) > 0
    ensures ThreadsPerBlock64(d, t) == ThreadsTaken(d, t) > 0
    ensures Wrap(SharedMemoryTaken(d, smem)) == SharedMemoryTaken(d, smem)
  {
    PositiveTaken(d, r, t);
    WrapExact(t.x * t.y);
    WrapExact(t.Count());
    WrapExact(RoundUp(WarpsPerBlock(d, t), d.warpAllocGranularity));
    WrapExact(d.threadsPerWarp * r);
    WrapExact(RegistersPerWarp(d, r));
    WrapExact(RegistersTaken(d, r, t));
    WrapExact(SharedMemoryTaken(d, smem));
    WrapExact(ThreadsTaken(d, t));
  }

  lemma WrapExact(x: nat)
    requires x < TWO_64
    ensures Wrap(x) == x
  {
  }

  lemma TightestLimitFits(d: Device, regs: nat, smem: nat, threads: nat, blocks: nat)
    requires regs > 0 && threads > 0
    ensures blocks <= TightestLimit(d, regs, smem, threads) <==>
            && blocks <= d.blocksPerCoreLimit
            && blocks * regs <= d.registersPerBlockLimit
            && blocks * smem <= d.sharedMemoryPerCore
            && blocks * threads <= d.threadsPerCoreLimit
  {
    QuotientFits(d.registersPerBlockLimit, regs, blocks);
    QuotientFits(d.threadsPerCoreLimit, threads, blocks);
    if smem > 0 { QuotientFits(d.sharedMemoryPerCore, smem, blocks); } else { assert blocks * smem == 0; }
  }

  /** Occupancy is the largest number of blocks that fits: exactly the numbers up to it fit.  A device with
      missing values, or a thread with more registers than allowed, leaves room for no block. */
  lemma OccupancyIsLargest(d: Device, r: nat, smem: nat, t: ThreadDim, blocks: nat)
    requires Computable(d, r, smem, t)
    ensures RegistersPerBlock64(d, r, t) > 0 && ThreadsPerBlock64(d, t) > 0
    ensures blocks <= CalculateOccupancy(d, r, smem, t) <==>
            blocks == 0 || (d.Initialized() && r <= d.registersPerThreadLimit && BlocksFit(d, r, smem, t, blocks))
  {
    DivisorsExact(d, r, smem, t);
    TightestLimitFits(d, RegistersTaken(d, r, t), SharedMemoryTaken(d, smem), ThreadsTaken(d, t), blocks);
  }

  /** A bigger launch takes at least as much of everything. */
  lemma TakesMore(d: Device, r: nat, r': nat, smem: nat, smem': nat, t: ThreadDim, t': ThreadDim)
    requires d.PositiveUnits() && r <= r' && smem <= smem' && t.Count() <= t'.Count()
    ensures RegistersTaken(d, r, t) <= RegistersTaken(d, r', t')
    ensures SharedMemoryTaken(d, smem) <= SharedMemoryTaken(d, smem')
    ensures ThreadsTaken(d, t) <= ThreadsTaken(d, t')
  {
    RoundUpMonotone(t.Count(), t'.Count(), d.threadsPerWarp);
    RoundUpMonotone(smem, smem', d.sharedMemoryAllocGranularity);
    var w, w' := WarpsPerBlock(d, t), WarpsPerBlock(d, t');
    RoundUpMonotone(w, w', d.warpAllocGranularity);
    MulMonotone(r, r', d.threadsPerWarp);
    RoundUpMonotone(d.threadsPerWarp * r, d.threadsPerWarp * r', d.registerAllocGranularity);
    var a, a' := RoundUp(w, d.warpAllocGranularity), RoundUp(w', d.warpAllocGranularity);
    MulMonotone(a, a', RegistersPerWarp(d, r'));
    MulMonotone(RegistersPerWarp(d, r), RegistersPerWarp(d, r'), a);
  }

  /** Occupancy never grows with the registers, the shared memory or the number of threads. */
  lemma OccupancyMonotone(d: Device, r: nat, r': nat, smem: nat, smem': nat, t: ThreadDim, t': ThreadDim)
    requires Computable(d, r, smem, t) && Computable(d, r', smem', t')
    requires r <= r' && smem <= smem' && t.Count() <= t'.Count()
    ensures RegistersPerBlock64(d, r, t) > 0 && ThreadsPerBlock64(d, t) > 0
    ensures RegistersPerBlock64(d, r', t') > 0 && ThreadsPerBlock64(d, t') > 0
    ensures CalculateOccupancy(d, r', smem', t') <= CalculateOccupancy(d, r, smem, t)
  {
    DivisorsExact(d, r, smem, t);
    DivisorsExact(d, r', smem', t');
    if d.Initialized() && r' <= d.registersPerThreadLimit {
      var blocks := CalculateOccupancy(d, r', smem', t');
      OccupancyIsLargest(d, r', smem', t', blocks);
      TakesMore(d, r, r', smem, smem', t, t');
      MulMonotone(RegistersTaken(d, r, t), RegistersTaken(d, r', t'), blocks);
      MulMonotone(SharedMemoryTaken(d, smem), SharedMemoryTaken(d, smem'), blocks);
      MulMonotone(ThreadsTaken(d, t), ThreadsTaken(d, t'), blocks);
      OccupancyIsLargest(d, r, smem, t, blocks);
    }
  }

  // ---------------------------------------------------------------------------------------
  // The register search
  // ---------------------------------------------------------------------------------------

  /** A device and a launch for which the search computes without overflow at its first candidate,
      and therefore at every later one. */
  predicate Searchable(d: Device, smem: nat, t: ThreadDim) {
    && Computable(d, d.registersPerThreadLimit, smem, t) && d.Initialized()
    && d.registersPerThreadLimit < 0x8000_0000
    && 0 < d.registerAllocGranularity / d.threadsPerWarp < 0x8000_0000
  }

  lemma SmallerComputable(d: Device, smem: nat, t: ThreadDim, r: nat)
    requires Searchable(d, smem, t) && 0 < r <= d.registersPerThreadLimit
    ensures Computable(d, r, smem, t)
    ensures RegistersPerBlock64(d, r, t) == RegistersTaken(d, r, t) > 0
    ensures ThreadsPerBlock64(d, t) == ThreadsTaken(d, t) > 0
  {
    var limit := d.registersPerThreadLimit;
    TakesMore(d, r, limit, smem, smem, t, t);
    MulMonotone(r, limit, d.threadsPerWarp);
    RoundUpMonotone(d.threadsPerWarp * r, d.threadsPerWarp * limit, d.registerAllocGranularity);
    DivisorsExact(d, r, smem, t);
  }

  /** The occupancy with r registers per thread. */
  function OccupancyAt(d: Device, smem: nat, t: ThreadDim, r: nat): nat
    requires Searchable(d, smem, t) && 0 < r <= d.registersPerThreadLimit
  {
    SmallerComputable(d, smem, t, r);
    CalculateOccupancy(d, r, smem, t)
  }

  function RegisterStep(d: Device): nat
    requires d.threadsPerWarp > 0
  {
    d.registerAllocGranularity / d.threadsPerWarp
  }

  lemma RoundDownBelow(x: nat, n: nat)
    requires n > 0
    ensures RoundDown(x, n) <= x
  {
    QuotientFits(x, n, x / n);
  }

  /** The candidates from r downwards, up to the first that reaches the target. */
  function Search(d: Device, smem: nat, t: ThreadDim, target: nat, r: nat): (result: nat)
    requires Searchable(d, smem, t) && r <= d.registersPerThreadLimit
    ensures result <= r
  {
    if r == 0 then 0
    else if OccupancyAt(d, smem, t, r) >= target then r
    else
      RoundDownBelow(r - 1, RegisterStep(d));
      Search(d, smem, t, target, RoundDown(r - 1, RegisterStep(d)))
  }

  lemma SearchStep(d: Device, smem: nat, t: ThreadDim, target: nat, r: nat)
    requires Searchable(d, smem, t) && 0 < r <= d.registersPerThreadLimit
    requires OccupancyAt(d, smem, t, r) < target
    ensures RoundDown(r - 1, RegisterStep(d)) < r
    ensures Search(d, smem, t, target, r) == Search(d, smem, t, target, RoundDown(r - 1, RegisterStep(d)))
  {
    RoundDownBelow(r - 1, RegisterStep(d));
  }

  /** Conversion of an int to a 64-bit unsigned number. */
  function AsUnsigned(x: int): int { if x >= 0 then x else x + TWO_64 }

  /** What the search can do with a device that lacks a value: its occupancy is 0 for every count.  The only
      thing that could go wrong is a step of zero, once a step is taken. */
  predicate UnsetSearchable(d: Device, target: nat) {
    && !d.Initialized() && d.threadsPerWarp > 0
    && (target > 0 && AsInt(d.registersPerThreadLimit) > 0 ==> AsInt(RegisterStep(d)) != 0)
  }

  lemma FitsInt(x: nat)
    requires x < 0x8000_0000
    ensures AsInt(x) == x == AsUnsigned(AsInt(x))
  {
  }

  lemma UnsignedStep(d: Device)
    requires d.threadsPerWarp > 0 && AsInt(RegisterStep(d)) != 0
    ensures AsUnsigned(AsInt(RegisterStep(d))) > 0
  {
  }

  /** The search of the source.  On a device with all values it returns the first candidate that reaches the
      target; on a device that lacks one it returns 0, or the limit if nothing is asked for. */
  method CalculateRegisterLimitForTargetOccupancy(d: Device, smem: nat, t: ThreadDim, target: nat)
      returns (result: nat)
    requires Searchable(d, smem, t) || UnsetSearchable(d, target)
    ensures d.Initialized() ==> result == Search(d, smem, t, target, d.registersPerThreadLimit)
    ensures !d.Initialized() ==>
              var limit := AsInt(d.registersPerThreadLimit);
              result == if target == 0 && limit > 0 then limit else 0
  {
    if d.Initialized() {
      FitsInt(RegisterStep(d));
      FitsInt(d.registersPerThreadLimit);
    }
    var step := AsUnsigned(AsInt(RegisterStep(d)));
    var limit := AsInt(d.registersPerThreadLimit);
    var r := limit;
    while r > 0
      invariant r <= limit && (d.Initialized() ==> 0 <= r <= d.registersPerThreadLimit)
      invariant d.Initialized() ==>
                  Search(d, smem, t, target, r) == Search(d, smem, t, target, d.registersPerThreadLimit)
      invariant !d.Initialized() ==> target > 0 || r == limit
    {
      var occupancy := if d.Initialized() then OccupancyAt(d, smem, t, r) else 0;
      if occupancy >= target { return r; }
      if d.Initialized() { SearchStep(d, smem, t, target, r); } else { UnsignedStep(d); }
      RoundDownBelow(r - 1, step);
      r := RoundDown(r - 1, step);
    }
    return 0;
  }

  /** No register count in 1..limit above the result reaches the target. */
  ghost predicate IsMaximum(d: Device, smem: nat, t: ThreadDim, target: nat, result: nat)
    requires Searchable(d, smem, t)
  {
    && result <= d.registersPerThreadLimit
    && (result > 0 ==> OccupancyAt(d, smem, t, result) >= target)
    && forall q :: result < q <= d.registersPerThreadLimit ==> OccupancyAt(d, smem, t, q) < target
  }

  /** When the steps of the search line up with the granularity: threads-per-warp divides it, or the
      step is one register, or the limit is too low for the two to drift apart. */
  predicate StepsAligned(threadsPerWarp: nat, granularity: nat, limit: nat)
    requires threadsPerWarp > 0
  {
    var step, rem := granularity / threadsPerWarp, granularity % threadsPerWarp;
    rem == 0 || step == 1 || limit <= CeilOfRatio(threadsPerWarp, rem) * step + 1
  }

  /** Occupancy depends on the registers per thread only through what a warp is given. */
  lemma SameWarpCost(d: Device, smem: nat, t: ThreadDim, q: nat, r: nat)
    requires Searchable(d, smem, t) && 0 < q <= d.registersPerThreadLimit && 0 < r <= d.registersPerThreadLimit
    requires RegistersPerWarp(d, q) == RegistersPerWarp(d, r)
    ensures OccupancyAt(d, smem, t, q) == OccupancyAt(d, smem, t, r)
  {
    SmallerComputable(d, smem, t, q);
    SmallerComputable(d, smem, t, r);
  }

  lemma CeilIs(x: nat, n: nat, k: nat)
    requires n > 0 && k * n < x <= (k + 1) * n
    ensures CeilOfRatio(x, n) == k + 1
  {
    CeilCovers(x, n, k);
    CeilCovers(x, n, k + 1);
  }

  /** As long as the accumulated remainder stays below a warp, all register counts of one step cost
      the same. */
  lemma OneStepOneCost(w: nat, g: nat, k: nat, q: nat)
    requires w > 0 && g / w > 0 && k * (g % w) < w
    requires k * (g / w) < q <= (k + 1) * (g / w)
    ensures g > 0 && CeilOfRatio(w * q, g) == k + 1
  {
    var s, rem := g / w, g % w;
    assert g == s * w + rem;
    assert g > 0 by { MulStep(0, s, w); }
    assert k * g == k * s * w + k * rem by { assert k * (s * w + rem) == k * s * w + k * rem; }
    assert (k + 1) * g == (k + 1) * s * w + (k + 1) * rem by {
      assert (k + 1) * (s * w + rem) == (k + 1) * s * w + (k + 1) * rem;
    }
    MulStep(k * s, q, w);
    MulMonotone(q, (k + 1) * s, w);
    CeilIs(w * q, g, k);
  }

  /** A value that the search skips costs as much as the candidate it was skipped from. */
  lemma SkippedCostsTheSame(d: Device, smem: nat, t: ThreadDim, q: nat, r: nat)
    requires Searchable(d, smem, t) && 0 < r <= d.registersPerThreadLimit
    requires StepsAligned(d.threadsPerWarp, d.registerAllocGranularity, d.registersPerThreadLimit)
    requires RoundDown(r - 1, RegisterStep(d)) < q <= r
    ensures OccupancyAt(d, smem, t, q) == OccupancyAt(d, smem, t, r)
  {
    var w, g := d.threadsPerWarp, d.registerAllocGranularity;
    var s, rem := g / w, g % w;
    var k := (r - 1) / s;
    QuotientFits(r - 1, s, k);
    QuotientFits(r - 1, s, k + 1);
    assert k * s < q <= r <= (k + 1) * s;
    if s == 1 {
    } else if rem == 0 || k < CeilOfRatio(w, rem) {
      if rem > 0 { CeilCovers(w, rem, k); }
      OneStepOneCost(w, g, k, q);
      OneStepOneCost(w, g, k, r);
      SameWarpCost(d, smem, t, q, r);
    } else {
      MulMonotone(CeilOfRatio(w, rem), k, s);
      assert q == r;
    }
  }

  lemma {:induction false} SearchFrom(d: Device, smem: nat, t: ThreadDim, target: nat, r: nat)
    requires Searchable(d, smem, t) && r <= d.registersPerThreadLimit
    requires StepsAligned(d.threadsPerWarp, d.registerAllocGranularity, d.registersPerThreadLimit)
    ensures forall q :: Search(d, smem, t, target, r) < q <= r ==> OccupancyAt(d, smem, t, q) < target
  {
    if r > 0 && OccupancyAt(d, smem, t, r) < target {
      var next := RoundDown(r - 1, RegisterStep(d));
      RoundDownBelow(r - 1, RegisterStep(d));
      SearchFrom(d, smem, t, target, next);
      forall q | next < q <= r ensures OccupancyAt(d, smem, t, q) < target {
        SkippedCostsTheSame(d, smem, t, q, r);
      }
    }
  }

  lemma {:induction false} SearchReachesTarget(d: Device, smem: nat, t: ThreadDim, target: nat, r: nat)
    requires Searchable(d, smem, t) && r <= d.registersPerThreadLimit
    ensures var result := Search(d, smem, t, target, r);
            result > 0 ==> OccupancyAt(d, smem, t, result) >= target
  {
    if r > 0 && OccupancyAt(d, smem, t, r) < target {
      RoundDownBelow(r - 1, RegisterStep(d));
      SearchReachesTarget(d, smem, t, target, RoundDown(r - 1, RegisterStep(d)));
    }
  }

  /** With aligned steps the search returns the true maximum, or 0 if no count reaches the target. */
  lemma SearchFindsMaximum(d: Device, smem: nat, t: ThreadDim, target: nat)
    requires Searchable(d, smem, t)
    requires StepsAligned(d.threadsPerWarp, d.registerAllocGranularity, d.registersPerThreadLimit)
    ensures IsMaximum(d, smem, t, target, Search(d, smem, t, target, d.registersPerThreadLimit))
  {
    SearchFrom(d, smem, t, target, d.registersPerThreadLimit);
    SearchReachesTarget(d, smem, t, target, d.registersPerThreadLimit);
  }

  /** A device with the given warp size, granularity and limit that has room for one block whose warp
      takes at most `units` granules of registers. */
  function TightDevice(w: nat, g: nat, limit: nat, units: nat): Device {
    Device(limit, w, 1, g, units * g, 0, 1, 1, w)
  }

  const ONE_THREAD := ThreadDim(1, 1, 1)

  lemma OneWarp(d: Device, r: nat)
    requires d.PositiveUnits() && d.warpAllocGranularity == 1 && d.sharedMemoryAllocGranularity == 1
    ensures WarpsPerBlock(d, ONE_THREAD) == 1 && ThreadsTaken(d, ONE_THREAD) == d.threadsPerWarp
    ensures RegistersTaken(d, r, ONE_THREAD) == RegistersPerWarp(d, r) && SharedMemoryTaken(d, 0) == 0
  {
    CeilIs(1, d.threadsPerWarp, 0);
    CeilIs(1, 1, 0);
  }

  /** On such a device a block fits exactly when the registers of its warp need few enough granules. */
  lemma TightOccupancy(w: nat, g: nat, limit: nat, units: nat, r: nat)
    requires var d := TightDevice(w, g, limit, units);
             Searchable(d, 0, ONE_THREAD) && 0 < r <= limit
    ensures OccupancyAt(TightDevice(w, g, limit, units), 0, ONE_THREAD, r) >= 1 <==> w * r <= units * g
  {
    var d := TightDevice(w, g, limit, units);
    SmallerComputable(d, 0, ONE_THREAD, r);
    OneWarp(d, r);
    OccupancyIsLargest(d, r, 0, ONE_THREAD, 1);
    RoundUpFits(w * r, g, units);
  }

  /** Where the steps first drift apart: after `units` granules the remainders add up to a warp, so the
      count m * step + 1 still fits into m granules while m * step + 2 does not. */
  lemma DriftPoint(w: nat, g: nat) returns (m: nat)
    requires w > 0 && g / w >= 2 && g % w > 0
    ensures m == CeilOfRatio(w, g % w) > 0
    ensures forall r: nat :: w * r <= m * g <==> r <= m * (g / w) + 1
  {
    var s, rem := g / w, g % w;
    m := CeilOfRatio(w, rem);
    CeilPositive(w, rem);
    CeilCovers(w, rem, m);
    CeilCovers(w, rem, m - 1);
    assert w <= m * rem < w + rem < 2 * w by { assert (m - 1) * rem == m * rem - rem; }
    assert m * g == m * s * w + m * rem by {
      assert g == s * w + rem;
      assert m * (s * w + rem) == m * s * w + m * rem;
    }
    forall r: nat ensures w * r <= m * g <==> r <= m * s + 1 {
      if r <= m * s + 1 {
        MulMonotone(r, m * s + 1, w);
      } else {
        MulMonotone(m * s + 2, r, w);
      }
      assert (m * s + 1) * w == m * s * w + w && (m * s + 2) * w == m * s * w + 2 * w;
    }
  }

  /** From above the drift point, the search steps over m * step + 1 and stops at m * step. */
  lemma {:induction false} SearchSkips(w: nat, g: nat, limit: nat, m: nat, r: nat)
    requires w > 0 && g / w >= 2 && m > 0
    requires Searchable(TightDevice(w, g, limit, m), 0, ONE_THREAD)
    requires forall x: nat :: w * x <= m * g <==> x <= m * (g / w) + 1
    requires m * (g / w) <= r <= limit && r != m * (g / w) + 1
    ensures Search(TightDevice(w, g, limit, m), 0, ONE_THREAD, 1, r) == m * (g / w)
    decreases r
  {
    var d, s := TightDevice(w, g, limit, m), g / w;
    MulPositive(m, s);
    TightOccupancy(w, g, limit, m, r);
    if r > m * s {
      var k := (r - 1) / s;
      QuotientFits(r - 1, s, m);
      RoundDownBelow(r - 1, s);
      if k > m { MulStep(m, k, s); }
      MulMonotone(m, k, s);
      SearchSkips(w, g, limit, m, k * s);
    }
  }

  /** Without alignment the search can miss the maximum: for every such warp size, granularity and
      limit there is a device and a launch on which a larger register count reaches the target. */
  lemma SearchMissesMaximum(w: nat, g: nat, limit: nat) returns (d: Device)
    requires w > 0 && g / w > 0 && !StepsAligned(w, g, limit)
    requires limit < 0x8000_0000 && g < 0x8000_0000
    ensures d.threadsPerWarp == w && d.registerAllocGranularity == g && d.registersPerThreadLimit == limit
    ensures Searchable(d, 0, ONE_THREAD)
    ensures !IsMaximum(d, 0, ONE_THREAD, 1, Search(d, 0, ONE_THREAD, 1, limit))
  {
    var m := DriftPoint(w, g);
    var s := g / w;
    d := TightDevice(w, g, limit, m);
    TightDeviceSearchable(w, g, limit, m);
    assert (m * s + 1) <= limit;
    SearchSkips(w, g, limit, m, limit);
    TightOccupancy(w, g, limit, m, m * s + 1);
  }

  lemma TightDeviceSearchable(w: nat, g: nat, limit: nat, m: nat)
    requires w > 0 && g / w > 0 && 0 < limit < 0x8000_0000 && g < 0x8000_0000
    requires m * (g / w) <= limit
    ensures Searchable(TightDevice(w, g, limit, m), 0, ONE_THREAD)
  {
    var d := TightDevice(w, g, limit, m);
    var s := g / w;
    assert w <= s * w <= g by { MulMonotone(1, s, w); QuotientFits(g, w, s); }
    OneWarp(d, limit);
    assert w * limit < 0x8000_0000 * 0x8000_0000 by {
      MulMonotone(w, 0x8000_0000, limit);
      MulStep(limit, 0x8000_0000, 0x8000_0000);
    }
    RegistersBelow(d, limit);
    assert s <= g by { MulMonotone(1, w, s); }
    assert d.registersPerBlockLimit != UNINITIALIZED by { UnitsBelow(m, s, g, w, limit); }
  }

  lemma RegistersBelow(d: Device, limit: nat)
    requires d.PositiveUnits() && d.threadsPerWarp * limit < 0x8000_0000 * 0x8000_0000
    requires d.registerAllocGranularity < 0x8000_0000
    ensures RegistersPerWarp(d, limit) < 0x8000_0000 * 0x8000_0000 + 0x8000_0000
  {
    var x, n := d.threadsPerWarp * limit, d.registerAllocGranularity;
    assert x == x / n * n + x % n;
    assert (x / n + 1) * n == x / n * n + n;
  }

  lemma UnitsBelow(m: nat, s: nat, g: nat, w: nat, limit: nat)
    requires w > 0 && s == g / w && s > 0 && m * s <= limit < 0x8000_0000 && g < 0x8000_0000
    ensures m * g < 0x8000_0000 * 0x8000_0000
  {
    MulMonotone(1, s, m);
    assert m <= limit;
    MulMonotone(m, 0x8000_0000 - 1, g);
    MulStep(g, 0x8000_0000, 0x8000_0000 - 1);
  }
}
