/** The chooser of local work sizes for a one-, two- or three-dimensional range. */
module WorkGroupSize {
  import opened Arithmetic
  import opened FactorSearch
  import opened PowerOfTwoSizes
  import PrimeFactors

  /** The range a launch covers: every count is a non-zero size_t, unused dimensions count 1. */
  predicate ValidRange(workItems: seq<nat>, workDim: nat) {
    |workItems| == 3 && 1 <= workDim <= 3 &&
    (forall i :: 0 <= i < 3 ==> 1 <= workItems[i] < TWO_64) &&
    (forall i :: workDim <= i < 3 ==> workItems[i] == 1)
  }

  function Total(workItems: seq<nat>): nat
    requires |workItems| == 3
  {
    workItems[0] * workItems[1] * workItems[2]
  }

  /** The 64-bit product of the three counts. */
  function TotalWrapped(workItems: seq<nat>): nat
    requires |workItems| == 3
  {
    Wrap64(Wrap64(workItems[0] * workItems[1]) * workItems[2])
  }

  /** What a local size must satisfy: it divides the range in each dimension and fits the device. */
  predicate Sound(s: Vec3, workItems: seq<nat>, max: nat)
    requires |workItems| == 3
  {
    s.x >= 1 && s.y >= 1 && s.z >= 1 && s.Volume() <= max &&
    Divides(s.x, workItems[0]) && Divides(s.y, workItems[1]) && Divides(s.z, workItems[2])
  }

  // ----- the branches ---------------------------------------------------------------------

  /** The squared sizing is used for flat ranges of kernels without images, shared memory or barriers. */
  predicate UsesSquared(wsInfo: WorkSizeInfo, workDim: nat, squaredEnabled: bool) {
    wsInfo.slmTotalSize == 0 && !wsInfo.hasBarriers && squaredEnabled && workDim == 2 && !wsInfo.imgUsed
  }

  function RangeDivisors(workItems: seq<nat>, wsInfo: WorkSizeInfo): (d: seq<nat>)
    requires |workItems| == 3
    ensures |d| == 3
  {
    Pow2Divisors(workItems, wsInfo.simdSize * 32)
  }

  predicate CanUseNx4(d: seq<nat>, wsInfo: WorkSizeInfo)
    requires |d| == 3
  {
    wsInfo.imgUsed && (d[0] >= 4 || (d[0] >= 2 && wsInfo.simdSize == 8)) && d[1] >= 4
  }

  /** The power-of-two divisors of the range fill at least one SIMD group. */
  predicate UsesPow2Divisors(workItems: seq<nat>, wsInfo: WorkSizeInfo)
    requires |workItems| == 3
  {
    var d := RangeDivisors(workItems, wsInfo);
    wsInfo.slmTotalSize == 0 && !wsInfo.hasBarriers && d[0] * d[1] * d[2] >= wsInfo.simdSize
  }

  function Pow2DivisorSize(workItems: seq<nat>, wsInfo: WorkSizeInfo, workDim: nat): Vec3
    requires |workItems| == 3 && wsInfo.simdSize > 0
  {
    var d := RangeDivisors(workItems, wsInfo);
    var canUseNx4 := CanUseNx4(d, wsInfo);
    if Oversized(d, wsInfo) then PowerOfTwoLWS(d, wsInfo, workDim, canUseNx4)
    else Vec3(d[0], if canUseNx4 then 4 else d[1], d[2])
  }

  /** The powers of two dividing a flat range cannot fill a whole group. */
  predicate SquaredTakesSearchOrRange(workItems: seq<nat>, max: nat)
    requires |workItems| == 3
  {
    var d := Pow2Divisors(workItems, max);
    d[0] * d[1] < max
  }

  function CheckRatio(wsInfo: WorkSizeInfo, workItems: seq<nat>, log: nat -> real): WorkSizeInfo
    requires |workItems| == 3
  {
    if wsInfo.slmTotalSize > 0 then
      wsInfo.(useRatio := true, targetRatio := log(workItems[0]) - log(workItems[1]), useStrictRatio := false)
    else if wsInfo.yTiledSurfaces then
      wsInfo.(useRatio := true, targetRatio := Y_TILING_RATIO_VALUE, useStrictRatio := true)
    else wsInfo
  }

  const Y_TILING_RATIO_VALUE: real := 1.3862943611198906188344642429164

  /** The outcome of the search over all divisor lists, with or without an aspect ratio. */
  ghost predicate SearchOutcome(s: Vec3, xs: seq<nat>, ys: seq<nat>, zs: seq<nat>, workItems: seq<nat>,
      wsInfo: WorkSizeInfo, log: nat -> real)
    requires |workItems| == 3 && wsInfo.simdSize > 0
  {
    var lo, hi := wsInfo.minWorkGroupSize, wsInfo.maxWorkGroupSize;
    if wsInfo.useRatio then
      exists first: Vec3 ::
        && first.z == 1 && s.z == 1
        && Choice(first, Vec3(1, 1, 1), RatioLimit(wsInfo.useStrictRatio),
                  RatioCostOf(workItems, log, wsInfo.targetRatio, wsInfo.useStrictRatio), Candidates(xs, ys, [1], lo, hi))
        && if wsInfo.useStrictRatio && first.x * first.y * 2 <= wsInfo.simdSize
           then Choice(s, first, RatioLimit(false), RatioCostOf(workItems, log, wsInfo.targetRatio, false),
                       Candidates(xs, ys, [1], lo, hi))
           else s == first
    else
      Choice(s, Vec3(1, 1, 1), Cost(NO_COST, 0.0), ThreadsOf(workItems, wsInfo.simdSize), Candidates(xs, ys, zs, lo, hi))
  }

  ghost predicate FactorLists(xs: seq<nat>, ys: seq<nat>, zs: seq<nat>, workItems: seq<nat>, max: nat)
    requires |workItems| == 3
  {
    DivisorList(xs, workItems[0], 1, max) && DivisorList(ys, workItems[1], 1, max)
        && DivisorList(zs, workItems[2], 1, max)
  }

  /** What the chooser stores, branch by branch. */
  ghost predicate Outcome(s: Vec3, workItems: seq<nat>, wsInfo: WorkSizeInfo, workDim: nat, squaredEnabled: bool,
      log: nat -> real)
    requires ValidRange(workItems, workDim) && DeviceLimits(wsInfo)
  {
    if UsesSquared(wsInfo, workDim, squaredEnabled) then
      SquaredOutcome(s, workItems, wsInfo.maxWorkGroupSize, wsInfo.simdSize)
    else if UsesPow2Divisors(workItems, wsInfo) then
      s == Pow2DivisorSize(workItems, wsInfo, workDim)
    else if TotalWrapped(workItems) <= wsInfo.maxWorkGroupSize then
      s == Vec3(workItems[0], workItems[1], workItems[2])
    else if workDim == 1 then
      s == Vec3(PrimeFactors.OneDimSize(workItems[0], wsInfo.maxWorkGroupSize), 1, 1)
    else
      exists xs, ys, zs ::
        && FactorLists(xs, ys, zs, workItems, wsInfo.maxWorkGroupSize)
        && SearchOutcome(s, xs, ys, zs, workItems, CheckRatio(wsInfo, workItems, log), log)
  }

  // ----- the divisors of a range ----------------------------------------------------------

  /** The divisors are powers of two dividing the range; an unused dimension contributes 1. */
  lemma RangeDivisorsFit(workItems: seq<nat>, wsInfo: WorkSizeInfo)
    requires |workItems| == 3 && wsInfo.simdSize in {8, 16, 32}
    ensures var d := RangeDivisors(workItems, wsInfo);
      && PowersOfTwo(d)
      && (forall i :: 0 <= i < 3 ==> Divides(d[i], workItems[i]))
      && (forall i :: 0 <= i < 3 && workItems[i] == 1 ==> d[i] == 1)
  {
    var start := wsInfo.simdSize * 32;
    assert IsPow2(256) && IsPow2(512) && IsPow2(1024);
    forall i | 0 <= i < 3
      ensures var r := Pow2Divisor(workItems[i], start);
              IsPow2(r) && Divides(r, workItems[i]) && (workItems[i] == 1 ==> r == 1)
    {
      Pow2DivisorIsLargest(workItems[i], start, 1);
      if workItems[i] == 1 { Pow2DivisorOfOne(start); }
    }
  }

  // ----- the chooser ----------------------------------------------------------------------

  /** Store one size per used dimension; the others keep the 1 they were given at the start. */
  method StoreDimensions(workGroupSize: array<nat>, sizes: seq<nat>, workDim: nat)
    requires workGroupSize.Length == 3 && |sizes| == 3 && workDim <= 3
    requires forall k :: workDim <= k < 3 ==> workGroupSize[k] == sizes[k]
    modifies workGroupSize
    ensures SizeIn(workGroupSize) == Vec3(sizes[0], sizes[1], sizes[2])
  {
    for i := 0 to workDim
      invariant forall k :: 0 <= k < i || workDim <= k < 3 ==> workGroupSize[k] == sizes[k]
    {
      workGroupSize[i] := sizes[i];
    }
  }

  /** The divisors of a count below max, with 1 first. */
  method CollectFactors(factors: array<nat>, items: nat, max: nat) returns (len: nat)
    requires factors.Length == 1024 && 2 <= max <= 1024
    modifies factors
    ensures len <= 1024 && DivisorList(factors[..len], items, 1, max)
  {
    factors[0] := 1;
    len := 1;
    assert factors[..len] == [1] && items % 1 == 0;
    for j := 2 to max
      invariant 1 <= len <= j - 1 && DivisorList(factors[..len], items, 1, j)
    {
      DivisorListGrows(factors[..len], items, 1, j);
      ghost var found := factors[..len];
      if items % j == 0 {
        factors[len] := j;
        len := len + 1;
        assert factors[..len] == found + [j];
      }
    }
  }

  method SearchFactors(workGroupSize: array<nat>, workItems: seq<nat>, wsInfo: WorkSizeInfo, log: nat -> real)
    requires workGroupSize.Length == 3 && |workItems| == 3 && DeviceLimits(wsInfo)
    requires SizeIn(workGroupSize) == Vec3(1, 1, 1)
    modifies workGroupSize
    ensures exists xs, ys, zs ::
      && FactorLists(xs, ys, zs, workItems, wsInfo.maxWorkGroupSize)
      && SearchOutcome(SizeIn(workGroupSize), xs, ys, zs, workItems, CheckRatio(wsInfo, workItems, log), log)
  {
    var max := wsInfo.maxWorkGroupSize;
    var info := CheckRatio(wsInfo, workItems, log);
    var x, y, z := new nat[1024], new nat[1024], new nat[1024];
    var xLen := CollectFactors(x, workItems[0], max);
    var yLen := CollectFactors(y, workItems[1], max);
    var zLen := CollectFactors(z, workItems[2], max);
    var xs, ys, zs := x[..xLen], y[..yLen], z[..zLen];
    DivisorListFits(xs, workItems[0], 1, max);
    DivisorListFits(ys, workItems[1], 1, max);
    DivisorListFits(zs, workItems[2], 1, max);
    if info.useRatio {
      ChoosePreferredWorkGroupSizeWithRatio(xs, ys, workGroupSize, workItems, info, log);
      ghost var first := SizeIn(workGroupSize);
      if info.useStrictRatio && workGroupSize[0] * workGroupSize[1] * 2 <= info.simdSize {
        ChoosePreferredWorkGroupSizeWithRatio(xs, ys, workGroupSize, workItems, info.(useStrictRatio := false), log);
      }
    } else {
      ChoosePreferredWorkGroupSizeWithOutRatio(xs, ys, zs, workGroupSize, workItems, info);
    }
    assert FactorLists(xs, ys, zs, workItems, max);
    assert SearchOutcome(SizeIn(workGroupSize), xs, ys, zs, workItems, info, log);
  }

  /** The power-of-two attempt for kernels without shared memory and barriers; done tells if it applied. */
  method SizeByPow2Divisors(wsInfo: WorkSizeInfo, workGroupSize: array<nat>, workItems: seq<nat>, workDim: nat)
    returns (done: bool)
    requires workGroupSize.Length == 3 && ValidRange(workItems, workDim) && DeviceLimits(wsInfo)
    requires SizeIn(workGroupSize) == Vec3(1, 1, 1)
    requires wsInfo.slmTotalSize == 0 && !wsInfo.hasBarriers
    modifies workGroupSize
    ensures done == UsesPow2Divisors(workItems, wsInfo)
    ensures !done ==> SizeIn(workGroupSize) == Vec3(1, 1, 1)
    ensures done ==> SizeIn(workGroupSize) == Pow2DivisorSize(workItems, wsInfo, workDim)
  {
    var simd := wsInfo.simdSize;
    var d := FindPow2Divisors(workItems, workDim, simd * 32);
    assert PowersOfTwo(d) && forall k :: workDim <= k < 3 ==> d[k] == 1 by { RangeDivisorsFit(workItems, wsInfo); }
    var canUseNx4 := CanUseNx4(d, wsInfo);
    var allItems := DivisorItems(d);
    if Oversized(d, wsInfo) {
      ComputePowerOfTwoLWS(d, wsInfo, workGroupSize, workDim, canUseNx4);
      done := true;
    } else if allItems >= simd {
      d := d[1 := if canUseNx4 then 4 else d[1]];
      StoreDimensions(workGroupSize, d, workDim);
      done := true;
    } else {
      done := false;
    }
  }

  method ComputeWorkgroupSizeND(wsInfo: WorkSizeInfo, workGroupSize: array<nat>, workItems: seq<nat>, workDim: nat,
      squaredEnabled: bool, log: nat -> real)
    requires workGroupSize.Length == 3 && ValidRange(workItems, workDim) && DeviceLimits(wsInfo)
    modifies workGroupSize
    ensures Outcome(SizeIn(workGroupSize), workItems, wsInfo, workDim, squaredEnabled, log)
  {
    var max := wsInfo.maxWorkGroupSize;
    workGroupSize[0], workGroupSize[1], workGroupSize[2] := 1, 1, 1;
    var totalNumberOfItems := Wrap64(Wrap64(workItems[0] * workItems[1]) * workItems[2]);
    if wsInfo.slmTotalSize == 0 && !wsInfo.hasBarriers {
      if squaredEnabled && workDim == 2 && !wsInfo.imgUsed {
        ComputeWorkgroupSizeSquared(max, workGroupSize, workItems, wsInfo.simdSize);
        return;
      }
      var done := SizeByPow2Divisors(wsInfo, workGroupSize, workItems, workDim);
      if done {
        return;
      }
    }
    if totalNumberOfItems <= max {
      StoreDimensions(workGroupSize, workItems, workDim);
    } else if workDim == 1 {
      PrimeFactors.ComputeWorkgroupSize1D(max, workGroupSize, workItems);
    } else {
      SearchFactors(workGroupSize, workItems, wsInfo, log);
    }
  }

  // ----- soundness of every branch --------------------------------------------------------

  /** A size is sound if it divides a sound list of divisors of the range and fits the device. */
  lemma DivisorsSound(s: Vec3, d: seq<nat>, workItems: seq<nat>, max: nat)
    requires |d| == 3 && |workItems| == 3 && s.Volume() <= max
    requires Divides(s.x, d[0]) && Divides(s.y, d[1]) && Divides(s.z, d[2])
    requires Divides(d[0], workItems[0]) && Divides(d[1], workItems[1]) && Divides(d[2], workItems[2])
    ensures Sound(s, workItems, max)
  {
    DividesTrans(s.x, d[0], workItems[0]);
    DividesTrans(s.y, d[1], workItems[1]);
    DividesTrans(s.z, d[2], workItems[2]);
  }

  lemma SmallerVolume(a: nat, b: nat, c: nat, bound: nat)
    requires b <= bound
    ensures a * b * c <= a * bound * c
  {
    MulMono(b, bound, a);
    MulMono(a * b, a * bound, c);
  }

  lemma Pow2DivisorSizeSound(workItems: seq<nat>, wsInfo: WorkSizeInfo, workDim: nat)
    requires ValidRange(workItems, workDim) && DeviceLimits(wsInfo) && UsesPow2Divisors(workItems, wsInfo)
    ensures Sound(Pow2DivisorSize(workItems, wsInfo, workDim), workItems, wsInfo.maxWorkGroupSize)
  {
    var d := RangeDivisors(workItems, wsInfo);
    var s := Pow2DivisorSize(workItems, wsInfo, workDim);
    RangeDivisorsFit(workItems, wsInfo);
    if Oversized(d, wsInfo) {
      PowerOfTwoLWSFits(d, wsInfo, workDim, CanUseNx4(d, wsInfo));
    } else {
      assert IsPow2(4);
      Pow2Divides(s.x, d[0]);
      Pow2Divides(s.y, d[1]);
      Pow2Divides(s.z, d[2]);
      SmallerVolume(d[0], s.y, d[2], d[1]);
    }
    DivisorsSound(s, d, workItems, wsInfo.maxWorkGroupSize);
  }

  lemma ShrinkSound(workItems: seq<nat>, max: nat)
    requires ValidRange(workItems, 2) && IsPow2(max) && max <= 1024 && !SquaredTakesSearchOrRange(workItems, max)
    ensures var d := Pow2Divisors(workItems, max); Sound(Shrink(d[0], d[1], max), workItems, max)
  {
    var d := Pow2Divisors(workItems, max);
    var s := Shrink(d[0], d[1], max);
    Pow2DivisorIsLargest(workItems[0], max, 1);
    Pow2DivisorIsLargest(workItems[1], max, 1);
    Pow2DivisorIsLargest(workItems[2], max, 1);
    ShrinkFits(d[0], d[1], max);
    Pow2Divides(s.x, d[0]);
    Pow2Divides(s.y, d[1]);
    Pow2Divides(1, d[2]);
    assert s.x * s.y * s.z == s.x * s.y;
    DivisorsSound(s, d, workItems, max);
  }

  lemma PairSound(s: Vec3, workItems: seq<nat>, max: nat)
    requires |workItems| == 3 && max >= 1 && (s == Vec3(1, 1, 1) || s in DivisorPairs(workItems, max))
    ensures Sound(s, workItems, max)
  {
    assert workItems[0] % 1 == 0 && workItems[1] % 1 == 0 && workItems[2] % 1 == 0;
    assert s.x * s.y * 1 == s.x * s.y;
  }

  lemma SquaredSound(s: Vec3, workItems: seq<nat>, max: nat, simd: nat)
    requires ValidRange(workItems, 2) && IsPow2(max) && max <= 1024 && simd > 0
    requires SquaredOutcome(s, workItems, max, simd)
    ensures Sound(s, workItems, max) <==>
            !(SquaredTakesSearchOrRange(workItems, max) && TotalWrapped(workItems) <= max < Total(workItems))
  {
    FlatTotal(workItems);
    if !SquaredTakesSearchOrRange(workItems, max) {
      ShrinkSound(workItems, max);
    } else if TotalWrapped(workItems) > max {
      PairChoiceSound(s, Cost(NO_COST, NO_COST as real), PackingOf(workItems, simd), workItems, max);
    } else {
      RangeSound(workItems, max);
    }
  }

  lemma PairChoiceSound(s: Vec3, limit: Cost, cost: Vec3 -> Cost, workItems: seq<nat>, max: nat)
    requires |workItems| == 3 && max >= 1
    requires Choice(s, Vec3(1, 1, 1), limit, cost, DivisorPairs(workItems, max))
    ensures Sound(s, workItems, max)
  {
    PairSound(s, workItems, max);
  }

  lemma FlatTotal(workItems: seq<nat>)
    requires |workItems| == 3 && workItems[2] == 1
    ensures Total(workItems) == workItems[0] * workItems[1]
    ensures TotalWrapped(workItems) == Wrap64(workItems[0] * workItems[1])
  {
  }

  /** The range itself is a sound size exactly when the device can hold it. */
  lemma RangeSound(workItems: seq<nat>, max: nat)
    requires ValidRange(workItems, 3)
    ensures Sound(Vec3(workItems[0], workItems[1], workItems[2]), workItems, max) <==> Total(workItems) <= max
  {
    forall i | 0 <= i < 3 ensures Divides(workItems[i], workItems[i]) {
      DividesIntro(workItems[i], workItems[i], 1);
    }
  }

  lemma ChoiceSound(s: Vec3, init: Vec3, limit: Cost, cost: Vec3 -> Cost, xs: seq<nat>, ys: seq<nat>, zs: seq<nat>,
      lo: nat, workItems: seq<nat>, max: nat)
    requires |workItems| == 3 && Sound(init, workItems, max)
    requires forall x :: x in xs ==> Divides(x, workItems[0])
    requires forall y :: y in ys ==> Divides(y, workItems[1])
    requires forall z :: z in zs ==> Divides(z, workItems[2])
    requires Choice(s, init, limit, cost, Candidates(xs, ys, zs, lo, max))
    ensures Sound(s, workItems, max)
  {
  }

  lemma SearchSound(s: Vec3, xs: seq<nat>, ys: seq<nat>, zs: seq<nat>, workItems: seq<nat>, wsInfo: WorkSizeInfo,
      log: nat -> real)
    requires |workItems| == 3 && wsInfo.simdSize > 0 && wsInfo.maxWorkGroupSize >= 1
    requires FactorLists(xs, ys, zs, workItems, wsInfo.maxWorkGroupSize)
    requires SearchOutcome(s, xs, ys, zs, workItems, wsInfo, log)
    ensures Sound(s, workItems, wsInfo.maxWorkGroupSize)
  {
    var lo, hi := wsInfo.minWorkGroupSize, wsInfo.maxWorkGroupSize;
    PairSound(Vec3(1, 1, 1), workItems, hi);
    if wsInfo.useRatio {
      var first: Vec3 :| first.z == 1
        && Choice(first, Vec3(1, 1, 1), RatioLimit(wsInfo.useStrictRatio),
                  RatioCostOf(workItems, log, wsInfo.targetRatio, wsInfo.useStrictRatio), Candidates(xs, ys, [1], lo, hi))
        && if wsInfo.useStrictRatio && first.x * first.y * 2 <= wsInfo.simdSize
           then Choice(s, first, RatioLimit(false), RatioCostOf(workItems, log, wsInfo.targetRatio, false),
                       Candidates(xs, ys, [1], lo, hi))
           else s == first;
      ChoiceSound(first, Vec3(1, 1, 1), RatioLimit(wsInfo.useStrictRatio),
                  RatioCostOf(workItems, log, wsInfo.targetRatio, wsInfo.useStrictRatio), xs, ys, [1], lo, workItems, hi);
      if s != first {
        ChoiceSound(s, first, RatioLimit(false), RatioCostOf(workItems, log, wsInfo.targetRatio, false),
                    xs, ys, [1], lo, workItems, hi);
      }
    } else {
      ChoiceSound(s, Vec3(1, 1, 1), Cost(NO_COST, 0.0), ThreadsOf(workItems, wsInfo.simdSize), xs, ys, zs, lo,
          workItems, hi);
    }
  }

  // ----- the main result ------------------------------------------------------------------

  /** The chooser reaches its test whether the whole range is small enough for one group. */
  predicate ReachesRangeTest(workItems: seq<nat>, wsInfo: WorkSizeInfo, workDim: nat, squaredEnabled: bool)
    requires |workItems| == 3
  {
    if UsesSquared(wsInfo, workDim, squaredEnabled) then SquaredTakesSearchOrRange(workItems, wsInfo.maxWorkGroupSize)
    else !UsesPow2Divisors(workItems, wsInfo)
  }

  /**
   * Whichever branch it takes, the chooser returns a size that divides the range in each dimension
   * and fits the device, except exactly when it tests the whole range and the 64-bit product of the
   * counts wraps around to a value that passes the test.
   */
  lemma LocalSizeSoundIff(s: Vec3, workItems: seq<nat>, wsInfo: WorkSizeInfo, workDim: nat, squaredEnabled: bool,
      log: nat -> real)
    requires ValidRange(workItems, workDim) && DeviceLimits(wsInfo)
    requires Outcome(s, workItems, wsInfo, workDim, squaredEnabled, log)
    ensures Sound(s, workItems, wsInfo.maxWorkGroupSize) <==>
            !(ReachesRangeTest(workItems, wsInfo, workDim, squaredEnabled)
              && TotalWrapped(workItems) <= wsInfo.maxWorkGroupSize < Total(workItems))
  {
    var max := wsInfo.maxWorkGroupSize;
    if UsesSquared(wsInfo, workDim, squaredEnabled) {
      SquaredSound(s, workItems, max, wsInfo.simdSize);
    } else if UsesPow2Divisors(workItems, wsInfo) {
      Pow2DivisorSizeSound(workItems, wsInfo, workDim);
    } else if TotalWrapped(workItems) <= max {
      RangeSound(workItems, max);
    } else if workDim == 1 {
      PrimeFactors.OneDimSound(workItems[0], max);
      assert workItems[1] % 1 == 0 && workItems[2] % 1 == 0;
    } else {
      var xs, ys, zs :| FactorLists(xs, ys, zs, workItems, max) &&
                        SearchOutcome(s, xs, ys, zs, workItems, CheckRatio(wsInfo, workItems, log), log);
      SearchSound(s, xs, ys, zs, workItems, CheckRatio(wsInfo, workItems, log), log);
    }
  }

  /** In particular every range of fewer than 2^64 items gets a sound size. */
  lemma LocalSizeSound(s: Vec3, workItems: seq<nat>, wsInfo: WorkSizeInfo, workDim: nat, squaredEnabled: bool,
      log: nat -> real)
    requires ValidRange(workItems, workDim) && DeviceLimits(wsInfo)
    requires Outcome(s, workItems, wsInfo, workDim, squaredEnabled, log)
    requires Total(workItems) < TWO_64
    ensures Sound(s, workItems, wsInfo.maxWorkGroupSize)
  {
    TotalFits64(workItems[0], workItems[1], workItems[2]);
    LocalSizeSoundIff(s, workItems, wsInfo, workDim, squaredEnabled, log);
  }

  lemma TotalFits64(a: nat, b: nat, c: nat)
    requires c > 0 && a * b * c < TWO_64
    ensures Wrap64(Wrap64(a * b) * c) == a * b * c
  {
    var plane := a * b;
    MulMono(1, c, plane);
    WrapSmall(plane);
    WrapSmall(plane * c);
  }

  const HUGE_RANGE: seq<nat> := [0x8000_0000, 0x8000_0000, 4]

  lemma HugeRangeWraps()
    ensures Total(HUGE_RANGE) == TWO_64 && TotalWrapped(HUGE_RANGE) == 0
  {
  }

  /** A kernel with barriers over 2^31 x 2^31 x 4 items is given the whole range as one group. */
  lemma WrappedRangeIsUnsound(s: Vec3, wsInfo: WorkSizeInfo, squaredEnabled: bool, log: nat -> real)
    requires DeviceLimits(wsInfo) && wsInfo.hasBarriers
    requires Outcome(s, HUGE_RANGE, wsInfo, 3, squaredEnabled, log)
    ensures s == Vec3(HUGE_RANGE[0], HUGE_RANGE[1], HUGE_RANGE[2]) && !Sound(s, HUGE_RANGE, wsInfo.maxWorkGroupSize)
  {
    HugeRangeWraps();
    RangeSound(HUGE_RANGE, wsInfo.maxWorkGroupSize);
  }

  // ----- the branches, from the range and the kernel ---------------------------------------

  /** A kernel without shared memory and barriers that is not sized by squares. */
  predicate SizedByPow2(wsInfo: WorkSizeInfo, workDim: nat, squaredEnabled: bool) {
    wsInfo.slmTotalSize == 0 && !wsInfo.hasBarriers && (wsInfo.imgUsed || !squaredEnabled || workDim != 2)
  }

  /** The largest powers of two that divide the counts, up to 32 SIMD groups. */
  ghost predicate Pow2Parts(workItems: seq<nat>, simd: nat, x: nat, y: nat, z: nat)
    requires |workItems| == 3
  {
    LargestPow2(x, workItems[0], 32 * simd) && LargestPow2(y, workItems[1], 32 * simd) && LargestPow2(z, workItems[2], 32 * simd)
  }

  /** An image is used, and the powers of two leave room for rows of four. */
  predicate RowsOfFour(wsInfo: WorkSizeInfo, x: nat, y: nat) {
    wsInfo.imgUsed && (x >= 4 || (x >= 2 && wsInfo.simdSize == 8)) && y >= 4
  }

  lemma PartsAre(workItems: seq<nat>, wsInfo: WorkSizeInfo, x: nat, y: nat, z: nat)
    requires |workItems| == 3 && wsInfo.simdSize in {8, 16, 32} && Pow2Parts(workItems, wsInfo.simdSize, x, y, z)
    ensures RangeDivisors(workItems, wsInfo) == [x, y, z]
  {
    var start := wsInfo.simdSize * 32;
    assert IsPow2(256) && IsPow2(512) && IsPow2(1024);
    Pow2DivisorIs(x, workItems[0], start);
    Pow2DivisorIs(y, workItems[1], start);
    Pow2DivisorIs(z, workItems[2], start);
  }

  /**
   * Where the powers of two make up at least one SIMD group and no more than the device and 32 of
   * them can hold, they are the size. With images the rows of a size that can have four of them are four.
   */
  lemma Pow2BranchIs(s: Vec3, workItems: seq<nat>, wsInfo: WorkSizeInfo, workDim: nat, squaredEnabled: bool,
      log: nat -> real, x: nat, y: nat, z: nat)
    requires ValidRange(workItems, workDim) && DeviceLimits(wsInfo) && SizedByPow2(wsInfo, workDim, squaredEnabled)
    requires Outcome(s, workItems, wsInfo, workDim, squaredEnabled, log)
    requires Pow2Parts(workItems, wsInfo.simdSize, x, y, z)
    requires wsInfo.simdSize <= x * y * z <= wsInfo.maxWorkGroupSize && x * y * z <= 32 * wsInfo.simdSize
    ensures s == Vec3(x, if RowsOfFour(wsInfo, x, y) then 4 else y, z)
    ensures s.x * s.y * s.z < wsInfo.simdSize <==> RowsOfFour(wsInfo, x, y) && wsInfo.simdSize == 32 && x == 4 && z == 1
  {
    PartsAre(workItems, wsInfo, x, y, z);
    if RowsOfFour(wsInfo, x, y) { RowsFill(x, z, wsInfo.simdSize); }
  }

  /** Four rows fall short of a SIMD group in one case only. */
  lemma RowsFill(x: nat, z: nat, simd: nat)
    requires IsPow2(x) && IsPow2(z) && simd in {8, 16, 32} && (x >= 4 || (x >= 2 && simd == 8))
    ensures x * 4 * z < simd <==> simd == 32 && x == 4 && z == 1
  {
    if x == 4 {
      assert x * 4 * z == 16 * z;
    } else if x > 4 {
      Pow2Gap(x, 4);
      MulMono(32, x * 4, z);
    } else {
      MulMono(8, x * 4, z);
    }
  }

  /** Otherwise the size is made of as many threads as the device runs, x filled first, then y, then z. */
  lemma Pow2GroupIs(s: Vec3, workItems: seq<nat>, wsInfo: WorkSizeInfo, workDim: nat, squaredEnabled: bool,
      log: nat -> real, x: nat, y: nat, z: nat, t: nat)
    requires ValidRange(workItems, workDim) && DeviceLimits(wsInfo) && SizedByPow2(wsInfo, workDim, squaredEnabled)
    requires Outcome(s, workItems, wsInfo, workDim, squaredEnabled, log)
    requires Pow2Parts(workItems, wsInfo.simdSize, x, y, z) && wsInfo.simdSize < x * y * z
    requires x * y * z > wsInfo.maxWorkGroupSize || x * y * z > 32 * wsInfo.simdSize
    requires MostThreads(t, if RowsOfFour(wsInfo, x, y) || wsInfo.numThreadsPerSubSlice < 56 then 8 else 32,
      wsInfo.maxWorkGroupSize, wsInfo.simdSize)
    ensures RowsOfFour(wsInfo, x, y) && workDim == 2 ==>
      s == Vec3(if t * wsInfo.simdSize / 4 < x then t * wsInfo.simdSize / 4 else x, 4, 1)
    ensures !(RowsOfFour(wsInfo, x, y) && workDim == 2) ==>
      s.x * s.y * s.z == t * wsInfo.simdSize && s.x <= x && s.y <= y && s.z <= z
      && (s.x == x || (s.y == 1 && s.z == 1)) && (s.y == y || s.z == 1)
  {
    PartsAre(workItems, wsInfo, x, y, z);
    TargetIsMost(wsInfo, RowsOfFour(wsInfo, x, y), t);
    TotalFits([x, y, z], wsInfo, RowsOfFour(wsInfo, x, y));
    SpreadFits(t * wsInfo.simdSize, x, y, z);
    SpreadFillsFirst(t * wsInfo.simdSize, x, y, z);
  }

  const IMAGE_RANGE: seq<nat> := [4, 8, 1]

  /** A SIMD32 kernel with an image over 4 x 8 items gets 4 x 4, half of what one thread runs. */
  lemma RowsOfFourUnderfill(s: Vec3, wsInfo: WorkSizeInfo, squaredEnabled: bool, log: nat -> real)
    requires DeviceLimits(wsInfo) && wsInfo.simdSize == 32 && wsInfo.imgUsed && wsInfo.slmTotalSize == 0 && !wsInfo.hasBarriers
    requires Outcome(s, IMAGE_RANGE, wsInfo, 2, squaredEnabled, log)
    ensures s == Vec3(4, 4, 1) && s.x * s.y * s.z < wsInfo.simdSize
  {
    SmallParts();
    Pow2BranchIs(s, IMAGE_RANGE, wsInfo, 2, squaredEnabled, log, 4, 8, 1);
  }

  lemma SmallParts()
    ensures Pow2Parts(IMAGE_RANGE, 32, 4, 8, 1)
  {
    forall p: nat, n: nat | n > 0 && Divides(p, n) ensures p <= n { DividesLe(p, n); }
    assert IsPow2(8) && IsPow2(4);
  }

  /** The range is not sized by squares, and its powers of two, if they are tried, do not fill a SIMD group. */
  ghost predicate PastPow2(workItems: seq<nat>, wsInfo: WorkSizeInfo, workDim: nat, squaredEnabled: bool)
    requires |workItems| == 3
  {
    wsInfo.slmTotalSize > 0 || wsInfo.hasBarriers || (SizedByPow2(wsInfo, workDim, squaredEnabled)
      && exists p: Vec3 :: Pow2Parts(workItems, wsInfo.simdSize, p.x, p.y, p.z) && p.Volume() < wsInfo.simdSize)
  }

  lemma PastPow2Is(workItems: seq<nat>, wsInfo: WorkSizeInfo, workDim: nat, squaredEnabled: bool)
    requires |workItems| == 3 && wsInfo.simdSize in {8, 16, 32} && PastPow2(workItems, wsInfo, workDim, squaredEnabled)
    ensures !UsesSquared(wsInfo, workDim, squaredEnabled) && !UsesPow2Divisors(workItems, wsInfo)
  {
    if wsInfo.slmTotalSize == 0 && !wsInfo.hasBarriers {
      var p: Vec3 :| Pow2Parts(workItems, wsInfo.simdSize, p.x, p.y, p.z) && p.Volume() < wsInfo.simdSize;
      PartsAre(workItems, wsInfo, p.x, p.y, p.z);
    }
  }

  /** Such a range that fits the device is one group. */
  lemma RangeBranchIs(s: Vec3, workItems: seq<nat>, wsInfo: WorkSizeInfo, workDim: nat, squaredEnabled: bool, log: nat -> real)
    requires ValidRange(workItems, workDim) && DeviceLimits(wsInfo) && PastPow2(workItems, wsInfo, workDim, squaredEnabled)
    requires Outcome(s, workItems, wsInfo, workDim, squaredEnabled, log)
    requires workItems[0] * workItems[1] * workItems[2] <= wsInfo.maxWorkGroupSize
    ensures s == Vec3(workItems[0], workItems[1], workItems[2])
  {
    PastPow2Is(workItems, wsInfo, workDim, squaredEnabled);
    TotalFits64(workItems[0], workItems[1], workItems[2]);
  }

  /** A one-dimensional range too large for the device is cut into groups that no factor k > 1 enlarges to a group of m. */
  lemma OneDimBranchIs(s: Vec3, workItems: seq<nat>, wsInfo: WorkSizeInfo, squaredEnabled: bool, log: nat -> real,
      k: nat, m: nat)
    requires ValidRange(workItems, 1) && DeviceLimits(wsInfo) && PastPow2(workItems, wsInfo, 1, squaredEnabled)
    requires Outcome(s, workItems, wsInfo, 1, squaredEnabled, log)
    requires workItems[0] > wsInfo.maxWorkGroupSize && wsInfo.maxWorkGroupSize <= 256
    ensures s.y == 1 && s.z == 1 && 1 <= s.x <= wsInfo.maxWorkGroupSize && Divides(s.x, workItems[0])
    ensures k > 1 && m == s.x * k <= wsInfo.maxWorkGroupSize ==> !Divides(m, workItems[0])
  {
    PastPow2Is(workItems, wsInfo, 1, squaredEnabled);
    LineTotal(workItems);
    OneDimOutcome(s, workItems, wsInfo, squaredEnabled, log);
    CutIsMost(s.x, workItems[0], wsInfo.maxWorkGroupSize, k, m);
  }

  lemma CutIsMost(size: nat, items: nat, max: nat, k: nat, m: nat)
    requires IsPow2(max) && 1 <= max < items && max <= 256 && size == PrimeFactors.OneDimSize(items, max)
    ensures 1 <= size <= max && Divides(size, items)
    ensures k > 1 && m == size * k <= max ==> !Divides(m, items)
  {
    PrimeFactors.OneDimSound(items, max);
    PrimeFactors.MaximalIff(max);
    assert PrimeFactors.Maximal(size, items, max);
    assert !PrimeFactors.Extends(k, size, items, max);
  }

  lemma OneDimOutcome(s: Vec3, workItems: seq<nat>, wsInfo: WorkSizeInfo, squaredEnabled: bool, log: nat -> real)
    requires ValidRange(workItems, 1) && DeviceLimits(wsInfo)
    requires !UsesSquared(wsInfo, 1, squaredEnabled) && !UsesPow2Divisors(workItems, wsInfo)
    requires TotalWrapped(workItems) > wsInfo.maxWorkGroupSize && Outcome(s, workItems, wsInfo, 1, squaredEnabled, log)
    ensures s == Vec3(PrimeFactors.OneDimSize(workItems[0], wsInfo.maxWorkGroupSize), 1, 1)
  {
  }

  lemma LineTotal(workItems: seq<nat>)
    requires ValidRange(workItems, 1)
    ensures TotalWrapped(workItems) == workItems[0]
  {
  }

  /** A flat range sized by squares, whose powers of two up to the device limit fill it: the limit is met exactly. */
  lemma SquaredBranchIs(s: Vec3, workItems: seq<nat>, wsInfo: WorkSizeInfo, log: nat -> real, x: nat, y: nat)
    requires ValidRange(workItems, 2) && DeviceLimits(wsInfo)
    requires wsInfo.slmTotalSize == 0 && !wsInfo.hasBarriers && !wsInfo.imgUsed
    requires Outcome(s, workItems, wsInfo, 2, true, log)
    requires LargestPow2(x, workItems[0], wsInfo.maxWorkGroupSize) && LargestPow2(y, workItems[1], wsInfo.maxWorkGroupSize)
    requires x * y >= wsInfo.maxWorkGroupSize
    ensures s.x * s.y == wsInfo.maxWorkGroupSize && s.z == 1 && IsPow2(s.x) && IsPow2(s.y) && s.x <= x && s.y <= y
    ensures (s.x < x ==> s.x >= s.y) && (s.y < y ==> 2 * s.y >= s.x)
  {
    Pow2DivisorIs(x, workItems[0], wsInfo.maxWorkGroupSize);
    Pow2DivisorIs(y, workItems[1], wsInfo.maxWorkGroupSize);
    ShrinkFits(x, y, wsInfo.maxWorkGroupSize);
  }

  /** A flat range sized by squares, whose powers of two, p.x and p.y, do not fill the device limit. */
  ghost predicate SquaresFallShort(workItems: seq<nat>, wsInfo: WorkSizeInfo, p: Vec3) {
    ValidRange(workItems, 2) && DeviceLimits(wsInfo) && wsInfo.slmTotalSize == 0 && !wsInfo.hasBarriers && !wsInfo.imgUsed
      && LargestPow2(p.x, workItems[0], wsInfo.maxWorkGroupSize) && LargestPow2(p.y, workItems[1], wsInfo.maxWorkGroupSize)
      && p.x * p.y < wsInfo.maxWorkGroupSize
  }

  lemma SquaredReached(s: Vec3, workItems: seq<nat>, wsInfo: WorkSizeInfo, log: nat -> real)
    requires ValidRange(workItems, 2) && DeviceLimits(wsInfo)
    requires wsInfo.slmTotalSize == 0 && !wsInfo.hasBarriers && !wsInfo.imgUsed && Outcome(s, workItems, wsInfo, 2, true, log)
    ensures SquaredOutcome(s, workItems, wsInfo.maxWorkGroupSize, wsInfo.simdSize)
  {
  }

  /** The powers of two, in plain terms, and the range they fall short of. */
  ghost predicate FallShort(workItems: seq<nat>, max: nat, simd: nat, p: Vec3) {
    && |workItems| == 3 && 0 < workItems[0] && 0 < workItems[1] && IsPow2(max) && max <= 1024 && simd in {8, 16, 32}
    && LargestPow2(p.x, workItems[0], max) && LargestPow2(p.y, workItems[1], max) && p.x * p.y < max
  }

  lemma FallShortOutcome(s: Vec3, workItems: seq<nat>, max: nat, simd: nat, p: Vec3, items: nat)
    requires FallShort(workItems, max, simd, p) && SquaredOutcome(s, workItems, max, simd)
    requires items == workItems[0] * workItems[1] < NO_COST
    ensures items <= max ==> s == Vec3(workItems[0], workItems[1], 1)
    ensures items > max ==> Choice(s, Vec3(1, 1, 1), Cost(NO_COST, NO_COST as real), PackingOf(workItems, simd),
        DivisorPairs(workItems, max))
  {
    Pow2DivisorIs(p.x, workItems[0], max);
    Pow2DivisorIs(p.y, workItems[1], max);
    WrapSmall(items);
  }

  /** Two divisors from 2 up whose group fits the device. */
  predicate IsPair(t: Vec3, workItems: seq<nat>, max: nat)
    requires |workItems| == 3
  {
    Divides(t.x, workItems[0]) && Divides(t.y, workItems[1]) && t.x >= 2 && t.y >= 2 && t.z == 1 && t.x * t.y <= max
  }

  lemma PairIff(workItems: seq<nat>, max: nat, t: Vec3)
    requires |workItems| == 3
    ensures t in DivisorPairs(workItems, max) <==> IsPair(t, workItems, max)
  {
    if t.x >= 2 && t.y >= 2 && t.x * t.y <= max {
      MulMono(1, t.y, t.x);
      MulMono(1, t.x, t.y);
    }
  }

  /** What squared sizing makes of such a range. */
  ghost predicate SquaredResult(s: Vec3, workItems: seq<nat>, wsInfo: WorkSizeInfo, log: nat -> real, p: Vec3) {
    SquaresFallShort(workItems, wsInfo, p) && Outcome(s, workItems, wsInfo, 2, true, log)
  }

  lemma SquaredFacts(s: Vec3, workItems: seq<nat>, wsInfo: WorkSizeInfo, log: nat -> real, p: Vec3)
    requires SquaredResult(s, workItems, wsInfo, log, p)
    ensures FallShort(workItems, wsInfo.maxWorkGroupSize, wsInfo.simdSize, p)
    ensures SquaredOutcome(s, workItems, wsInfo.maxWorkGroupSize, wsInfo.simdSize)
  {
    SquaredReached(s, workItems, wsInfo, log);
  }

  /** A range that fits the device is one group. */
  lemma SquaredRangeIs(s: Vec3, workItems: seq<nat>, wsInfo: WorkSizeInfo, log: nat -> real, p: Vec3)
    requires |workItems| == 3 && workItems[0] * workItems[1] <= wsInfo.maxWorkGroupSize
    requires SquaredResult(s, workItems, wsInfo, log, p)
    ensures s == Vec3(workItems[0], workItems[1], 1)
  {
    SquaredFacts(s, workItems, wsInfo, log, p);
    FallShortOutcome(s, workItems, wsInfo.maxWorkGroupSize, wsInfo.simdSize, p, workItems[0] * workItems[1]);
  }

  /** A larger one is cut into the pair that takes the fewest threads and then the fewest groups. */
  lemma SquaredSearchIs(s: Vec3, workItems: seq<nat>, wsInfo: WorkSizeInfo, log: nat -> real, p: Vec3, t: Vec3)
    requires |workItems| == 3 && wsInfo.simdSize > 0 && IsPair(t, workItems, wsInfo.maxWorkGroupSize)
    requires wsInfo.maxWorkGroupSize < workItems[0] * workItems[1] < 0xffff_ffff
    requires SquaredResult(s, workItems, wsInfo, log, p)
    ensures IsPair(s, workItems, wsInfo.maxWorkGroupSize)
    ensures PlaneThreads(workItems, wsInfo.simdSize, s) <= PlaneThreads(workItems, wsInfo.simdSize, t)
    ensures PlaneThreads(workItems, wsInfo.simdSize, s) == PlaneThreads(workItems, wsInfo.simdSize, t) ==>
      PlaneGroups(workItems, s) <= PlaneGroups(workItems, t)
  {
    SquaredFacts(s, workItems, wsInfo, log, p);
    FallShortOutcome(s, workItems, wsInfo.maxWorkGroupSize, wsInfo.simdSize, p, workItems[0] * workItems[1]);
    PairChoiceIs(s, workItems, wsInfo.maxWorkGroupSize, wsInfo.simdSize, t);
  }

  lemma PairChoiceIs(s: Vec3, workItems: seq<nat>, max: nat, simd: nat, t: Vec3)
    requires |workItems| == 3 && 0 < workItems[0] && 0 < workItems[1] && max <= 1024 && simd in {8, 16, 32}
    requires workItems[0] * workItems[1] < NO_COST && IsPair(t, workItems, max)
    requires Choice(s, Vec3(1, 1, 1), Cost(NO_COST, NO_COST as real), PackingOf(workItems, simd), DivisorPairs(workItems, max))
    ensures IsPair(s, workItems, max) && PlaneThreads(workItems, simd, s) <= PlaneThreads(workItems, simd, t)
    ensures PlaneThreads(workItems, simd, s) == PlaneThreads(workItems, simd, t) ==>
      PlaneGroups(workItems, s) <= PlaneGroups(workItems, t)
  {
    TwoDimByItems(s, workItems, max, simd);
    PairIff(workItems, max, t);
    PairIff(workItems, max, s);
  }

  // ----- what the start value and the counters of the search hide -----------------------------

  /** Settings under which a space is searched by threads alone: no shared memory, no ratio. */
  predicate SearchedByThreads(wsInfo: WorkSizeInfo) {
    wsInfo.slmTotalSize == 0 && !wsInfo.useRatio && !wsInfo.yTiledSurfaces
  }

  /** The chooser comes to the search, and there to the divisors of the range. */
  lemma SearchReached(s: Vec3, workItems: seq<nat>, wsInfo: WorkSizeInfo, workDim: nat, squaredEnabled: bool,
      log: nat -> real) returns (xs: seq<nat>, ys: seq<nat>, zs: seq<nat>)
    requires ValidRange(workItems, workDim) && workDim >= 2 && DeviceLimits(wsInfo)
    requires !UsesSquared(wsInfo, workDim, squaredEnabled) && !UsesPow2Divisors(workItems, wsInfo)
    requires TotalWrapped(workItems) > wsInfo.maxWorkGroupSize
    requires Outcome(s, workItems, wsInfo, workDim, squaredEnabled, log)
    ensures FactorLists(xs, ys, zs, workItems, wsInfo.maxWorkGroupSize)
    ensures DivisorsOf(xs, workItems[0]) && DivisorsOf(ys, workItems[1]) && DivisorsOf(zs, workItems[2])
    ensures SearchOutcome(s, xs, ys, zs, workItems, CheckRatio(wsInfo, workItems, log), log)
  {
    xs, ys, zs :| FactorLists(xs, ys, zs, workItems, wsInfo.maxWorkGroupSize)
      && SearchOutcome(s, xs, ys, zs, workItems, CheckRatio(wsInfo, workItems, log), log);
  }

  /** A size the search may choose: proper divisors below the device limit, and a volume within the window. */
  predicate InWindow(t: Vec3, workItems: seq<nat>, wsInfo: WorkSizeInfo)
    requires |workItems| == 3
  {
    && Divides(t.x, workItems[0]) && Divides(t.y, workItems[1]) && Divides(t.z, workItems[2])
    && t.x < wsInfo.maxWorkGroupSize && t.y < wsInfo.maxWorkGroupSize && t.z < wsInfo.maxWorkGroupSize
    && wsInfo.minWorkGroupSize <= t.x * t.y * t.z <= wsInfo.maxWorkGroupSize
  }

  /** Ranges of which the chooser makes a search: too large for the device, below 2^32 - 1 items. */
  ghost predicate Searched(workItems: seq<nat>, wsInfo: WorkSizeInfo, workDim: nat, squaredEnabled: bool) {
    ValidRange(workItems, workDim) && workDim >= 2 && DeviceLimits(wsInfo) && PastPow2(workItems, wsInfo, workDim, squaredEnabled)
      && wsInfo.maxWorkGroupSize < workItems[0] * workItems[1] * workItems[2] < 0xffff_ffff
  }

  lemma SearchedReaches(s: Vec3, workItems: seq<nat>, wsInfo: WorkSizeInfo, workDim: nat, squaredEnabled: bool,
      log: nat -> real) returns (xs: seq<nat>, ys: seq<nat>, zs: seq<nat>)
    requires Searched(workItems, wsInfo, workDim, squaredEnabled)
    requires Outcome(s, workItems, wsInfo, workDim, squaredEnabled, log)
    ensures FactorLists(xs, ys, zs, workItems, wsInfo.maxWorkGroupSize)
    ensures DivisorsOf(xs, workItems[0]) && DivisorsOf(ys, workItems[1]) && DivisorsOf(zs, workItems[2])
    ensures SearchOutcome(s, xs, ys, zs, workItems, CheckRatio(wsInfo, workItems, log), log)
    ensures Countable(workItems) && Items(workItems) < NO_COST && workItems[0] * workItems[1] < NO_COST
  {
    PastPow2Is(workItems, wsInfo, workDim, squaredEnabled);
    SmallCounts(workItems);
    xs, ys, zs := SearchReached(s, workItems, wsInfo, workDim, squaredEnabled, log);
  }

  lemma SmallCounts(workItems: seq<nat>)
    requires |workItems| == 3 && 0 < workItems[0] && 0 < workItems[1] && 0 < workItems[2]
    requires workItems[0] * workItems[1] * workItems[2] < NO_COST
    ensures Countable(workItems) && Items(workItems) == workItems[0] * workItems[1] * workItems[2] == TotalWrapped(workItems)
    ensures workItems[0] * workItems[1] < NO_COST
  {
    var a, b, c := workItems[0], workItems[1], workItems[2];
    TotalFits64(a, b, c);
    EachBelowProduct(a, b, c);
    MulMono(1, c, a * b);
  }

  /** Without a ratio the size in the window that takes the fewest threads is chosen. */
  lemma SearchBranchIsLeast(s: Vec3, workItems: seq<nat>, wsInfo: WorkSizeInfo, workDim: nat, squaredEnabled: bool,
      log: nat -> real, t: Vec3)
    requires Searched(workItems, wsInfo, workDim, squaredEnabled) && SearchedByThreads(wsInfo)
    requires Outcome(s, workItems, wsInfo, workDim, squaredEnabled, log) && InWindow(t, workItems, wsInfo)
    ensures InWindow(s, workItems, wsInfo)
    ensures SpaceThreads(workItems, wsInfo.simdSize, s) <= SpaceThreads(workItems, wsInfo.simdSize, t)
  {
    var lo, max := wsInfo.minWorkGroupSize, wsInfo.maxWorkGroupSize;
    var xs, ys, zs := SearchedReaches(s, workItems, wsInfo, workDim, squaredEnabled, log);
    ListedCandidate(xs, ys, zs, workItems, lo, max, t);
    ThreeDimByItems(s, xs, ys, zs, lo, max, workItems, wsInfo.simdSize);
    CandidateIff(xs, ys, zs, lo, max, s);
  }

  /** With shared memory: fewest groups first, then the aspect closest to that of the range. */
  lemma SharedMemoryIsLeast(s: Vec3, workItems: seq<nat>, wsInfo: WorkSizeInfo, workDim: nat, squaredEnabled: bool,
      log: nat -> real, t: Vec3)
    requires Searched(workItems, wsInfo, workDim, squaredEnabled) && wsInfo.slmTotalSize > 0
    requires Outcome(s, workItems, wsInfo, workDim, squaredEnabled, log) && InWindow(t, workItems, wsInfo) && t.z == 1
    ensures InWindow(s, workItems, wsInfo) && s.z == 1
    ensures PlaneGroups(workItems, s) <= PlaneGroups(workItems, t)
    ensures var target := log(workItems[0]) - log(workItems[1]);
      PlaneGroups(workItems, s) == PlaneGroups(workItems, t) ==>
        Distance(target, log(s.x) - log(s.y)) <= Distance(target, log(t.x) - log(t.y))
  {
    var lo, max := wsInfo.minWorkGroupSize, wsInfo.maxWorkGroupSize;
    var xs, ys, zs := SearchedReaches(s, workItems, wsInfo, workDim, squaredEnabled, log);
    FlatCandidateIs(xs, ys, zs, workItems, wsInfo, t);
    FlatCandidateIs(xs, ys, zs, workItems, wsInfo, s);
    LooseRatioIsLeast(s, Vec3(1, 1, 1), workItems, log, log(workItems[0]) - log(workItems[1]),
                      Candidates(xs, ys, [1], lo, max), t);
  }

  /**
   * With tiled images and no shared memory: the aspect closest to 4 : 1, unless that makes a group of
   * half a SIMD width or less; then fewest groups first and the aspect on a tie.
   */
  lemma TiledImageIsLeast(s: Vec3, workItems: seq<nat>, wsInfo: WorkSizeInfo, workDim: nat, squaredEnabled: bool,
      log: nat -> real, t: Vec3) returns (first: Vec3)
    requires Searched(workItems, wsInfo, workDim, squaredEnabled) && wsInfo.slmTotalSize == 0 && wsInfo.yTiledSurfaces
    requires Outcome(s, workItems, wsInfo, workDim, squaredEnabled, log) && InWindow(t, workItems, wsInfo) && t.z == 1
    requires Distance(Y_TILING_RATIO_VALUE, log(t.x) - log(t.y)) < 4294967296.0
    ensures InWindow(first, workItems, wsInfo) && first.z == 1
    ensures Distance(Y_TILING_RATIO_VALUE, log(first.x) - log(first.y)) <= Distance(Y_TILING_RATIO_VALUE, log(t.x) - log(t.y))
    ensures 1.3862 < Y_TILING_RATIO_VALUE < 1.3863  // the logarithm of 4
    ensures first.x * first.y * 2 > wsInfo.simdSize ==> s == first
    ensures first.x * first.y * 2 <= wsInfo.simdSize ==> InWindow(s, workItems, wsInfo) && FewerOrCloser(s, t, workItems, log)
  {
    var lo, max := wsInfo.minWorkGroupSize, wsInfo.maxWorkGroupSize;
    var xs, ys, zs := SearchedReaches(s, workItems, wsInfo, workDim, squaredEnabled, log);
    var info := CheckRatio(wsInfo, workItems, log);
    first :| first.z == 1
      && Choice(first, Vec3(1, 1, 1), RatioLimit(true), RatioCostOf(workItems, log, info.targetRatio, true), Candidates(xs, ys, [1], lo, max))
      && if first.x * first.y * 2 <= wsInfo.simdSize
         then Choice(s, first, RatioLimit(false), RatioCostOf(workItems, log, info.targetRatio, false), Candidates(xs, ys, [1], lo, max))
         else s == first;
    FlatCandidateIs(xs, ys, zs, workItems, wsInfo, t);
    TwoStepChoice(s, first, workItems, log, Candidates(xs, ys, [1], lo, max), wsInfo.simdSize, t);
    FlatCandidateIs(xs, ys, zs, workItems, wsInfo, first);
    FlatCandidateIs(xs, ys, zs, workItems, wsInfo, s);
  }

  lemma TwoStepChoice(s: Vec3, first: Vec3, workItems: seq<nat>, log: nat -> real, all: set<Vec3>, simd: nat, t: Vec3)
    requires |workItems| == 3 && ValidCounts(workItems) && workItems[0] * workItems[1] < NO_COST && t in all
    requires forall c :: c in all ==> c.x <= 1024 && c.y <= 1024 && Divides(c.x, workItems[0]) && Divides(c.y, workItems[1])
    requires Distance(Y_TILING_RATIO_VALUE, log(t.x) - log(t.y)) < 4294967296.0
    requires Choice(first, Vec3(1, 1, 1), RatioLimit(true), RatioCostOf(workItems, log, Y_TILING_RATIO_VALUE, true), all)
    requires if first.x * first.y * 2 <= simd
      then Choice(s, first, RatioLimit(false), RatioCostOf(workItems, log, Y_TILING_RATIO_VALUE, false), all) else s == first
    ensures first in all && s in all
    ensures Distance(Y_TILING_RATIO_VALUE, log(first.x) - log(first.y)) <= Distance(Y_TILING_RATIO_VALUE, log(t.x) - log(t.y))
    ensures first.x * first.y * 2 <= simd ==> FewerOrCloser(s, t, workItems, log)
  {
    StrictRatioIsLeast(first, Vec3(1, 1, 1), workItems, log, Y_TILING_RATIO_VALUE, all, t);
    if first.x * first.y * 2 <= simd {
      LooseRatioIsLeast(s, first, workItems, log, Y_TILING_RATIO_VALUE, all, t);
    }
  }

  predicate FewerOrCloser(s: Vec3, t: Vec3, workItems: seq<nat>, log: nat -> real)
    requires |workItems| == 3
  {
    PlaneGroups(workItems, s) < PlaneGroups(workItems, t) || (PlaneGroups(workItems, s) == PlaneGroups(workItems, t)
      && Distance(Y_TILING_RATIO_VALUE, log(s.x) - log(s.y)) <= Distance(Y_TILING_RATIO_VALUE, log(t.x) - log(t.y)))
  }

  /** The flat sizes in the window are the candidates of the ratio search. */
  lemma FlatCandidateIs(xs: seq<nat>, ys: seq<nat>, zs: seq<nat>, workItems: seq<nat>, wsInfo: WorkSizeInfo, t: Vec3)
    requires |workItems| == 3 && FactorLists(xs, ys, zs, workItems, wsInfo.maxWorkGroupSize) && wsInfo.maxWorkGroupSize >= 2
    ensures t in Candidates(xs, ys, [1], wsInfo.minWorkGroupSize, wsInfo.maxWorkGroupSize)
      <==> InWindow(t, workItems, wsInfo) && t.z == 1
  {
    CandidateIff(xs, ys, [1], wsInfo.minWorkGroupSize, wsInfo.maxWorkGroupSize, t);
    assert 1 in [1] && workItems[2] % 1 == 0;
  }

  const LARGE_SPACE: seq<nat> := [0x1000, 0x1000, 0x1_0000]

  /**
   * A kernel with barriers over 4096 x 4096 x 65536 items is left at 1 x 1 x 1, although 16 x 8 x 1
   * is in its size window and takes an eighth of the threads.
   */
  lemma LargeSpaceUntiled(s: Vec3, wsInfo: WorkSizeInfo, squaredEnabled: bool, log: nat -> real)
    requires DeviceLimits(wsInfo) && SearchedByThreads(wsInfo) && wsInfo.hasBarriers
    requires wsInfo.simdSize == 8 && wsInfo.minWorkGroupSize <= 128 && wsInfo.maxWorkGroupSize == 256
    requires Outcome(s, LARGE_SPACE, wsInfo, 3, squaredEnabled, log)
    ensures s == Vec3(1, 1, 1) && 8 * SpaceThreads(LARGE_SPACE, 8, Vec3(16, 8, 1)) == SpaceThreads(LARGE_SPACE, 8, s)
    ensures exists xs, ys, zs ::
      FactorLists(xs, ys, zs, LARGE_SPACE, 256) && Vec3(16, 8, 1) in Candidates(xs, ys, zs, wsInfo.minWorkGroupSize, 256)
  {
    LargeSpaceItems();
    var xs, ys, zs := SearchReached(s, LARGE_SPACE, wsInfo, 3, squaredEnabled, log);
    ThreeDimByItems(s, xs, ys, zs, wsInfo.minWorkGroupSize, 256, LARGE_SPACE, 8);
    assert Divides(16, LARGE_SPACE[0]) && Divides(8, LARGE_SPACE[1]) && Divides(1, LARGE_SPACE[2]);
    ListedCandidate(xs, ys, zs, LARGE_SPACE, wsInfo.minWorkGroupSize, 256, Vec3(16, 8, 1));
  }

  lemma LargeSpaceItems()
    ensures Items(LARGE_SPACE) == Total(LARGE_SPACE) == TotalWrapped(LARGE_SPACE) == 0x100_0000_0000
    ensures SpaceThreads(LARGE_SPACE, 8, Vec3(1, 1, 1)) == 0x100_0000_0000
    ensures SpaceThreads(LARGE_SPACE, 8, Vec3(16, 8, 1)) == 0x20_0000_0000
  {
  }

  lemma ListedCandidate(xs: seq<nat>, ys: seq<nat>, zs: seq<nat>, workItems: seq<nat>, lo: nat, max: nat, s: Vec3)
    requires |workItems| == 3 && FactorLists(xs, ys, zs, workItems, max)
    requires Divides(s.x, workItems[0]) && Divides(s.y, workItems[1]) && Divides(s.z, workItems[2])
    requires s.x < max && s.y < max && s.z < max && lo <= s.Volume() <= max
    ensures s in Candidates(xs, ys, zs, lo, max)
  {
    assert s.x in xs && s.y in ys && s.z in zs;
  }

  const WRAPPED_SPACE: seq<nat> := [0x8000_0f9d, 0x6666_59e9, 15]

  /**
   * A wrapped counter misleads the search: on this range of three odd counts 1 x 1 x 3 takes 2^64
   * threads and a few, of which the counter keeps the few. The size chosen takes 2^64 threads or
   * more, although 1 x 1 x 15 takes less than half of that.
   */
  lemma WrappedCounterMisleads(s: Vec3, wsInfo: WorkSizeInfo, squaredEnabled: bool, log: nat -> real)
    requires DeviceLimits(wsInfo) && SearchedByThreads(wsInfo) && !wsInfo.hasBarriers
    requires wsInfo.simdSize == 8 && wsInfo.minWorkGroupSize == 0 && wsInfo.maxWorkGroupSize == 256
    requires Outcome(s, WRAPPED_SPACE, wsInfo, 3, squaredEnabled, log)
    ensures s != Vec3(1, 1, 1)
    ensures 2 * SpaceThreads(WRAPPED_SPACE, 8, Vec3(1, 1, 15)) < TWO_64 <= SpaceThreads(WRAPPED_SPACE, 8, s)
  {
    WrappedSpaceItems();
    OddRange(WRAPPED_SPACE, wsInfo);
    var xs, ys, zs := SearchReached(s, WRAPPED_SPACE, wsInfo, 3, squaredEnabled, log);
    MisleadingChoice(s, xs, ys, zs);
  }

  lemma MisleadingChoice(s: Vec3, xs: seq<nat>, ys: seq<nat>, zs: seq<nat>)
    requires FactorLists(xs, ys, zs, WRAPPED_SPACE, 256)
    requires DivisorsOf(xs, WRAPPED_SPACE[0]) && DivisorsOf(ys, WRAPPED_SPACE[1]) && DivisorsOf(zs, WRAPPED_SPACE[2])
    requires Choice(s, Vec3(1, 1, 1), Cost(NO_COST, 0.0), ThreadsOf(WRAPPED_SPACE, 8), Candidates(xs, ys, zs, 0, 256))
    ensures s != Vec3(1, 1, 1) && TWO_64 <= SpaceThreads(WRAPPED_SPACE, 8, s)
  {
    var third, best := Vec3(1, 1, 3), Vec3(1, 1, 15);
    WrappedSpaceItems();
    TrivialDivides(WRAPPED_SPACE);
    ListedCandidate(xs, ys, zs, WRAPPED_SPACE, 0, 256, third);
    ListedCandidate(xs, ys, zs, WRAPPED_SPACE, 0, 256, best);
    assert Wrap64(SpaceThreads(WRAPPED_SPACE, 8, third)) < NO_COST;
    ChoiceOnCounters(s, xs, ys, zs, 0, 256, WRAPPED_SPACE, 8);
    BeyondCounters(s, xs, ys, zs, 0, 256, WRAPPED_SPACE, 8, best);
  }

  lemma WrappedSpaceItems()
    ensures Items(WRAPPED_SPACE) == Total(WRAPPED_SPACE) == 3 * TWO_64 + 6250750827
    ensures TotalWrapped(WRAPPED_SPACE) == 6250750827
    ensures SpaceThreads(WRAPPED_SPACE, 8, Vec3(1, 1, 1)) == Items(WRAPPED_SPACE)
    ensures SpaceThreads(WRAPPED_SPACE, 8, Vec3(1, 1, 3)) == TWO_64 + 2083583609
    ensures 2 * SpaceThreads(WRAPPED_SPACE, 8, Vec3(1, 1, 15)) < TWO_64
  {
  }

  /** Odd counts have no powers of two to offer. */
  lemma OddRange(workItems: seq<nat>, wsInfo: WorkSizeInfo)
    requires |workItems| == 3 && wsInfo.simdSize in {8, 16, 32}
    requires forall i :: 0 <= i < 3 ==> workItems[i] % 2 == 1
    ensures !UsesPow2Divisors(workItems, wsInfo)
  {
    var d := RangeDivisors(workItems, wsInfo);
    RangeDivisorsFit(workItems, wsInfo);
    forall i | 0 <= i < 3 ensures d[i] == 1 {
      if d[i] > 1 {
        DividesTrans(2, d[i], workItems[i]);
      }
    }
  }

  // ----- the number of groups -------------------------------------------------------------

  function GroupCount(gws: nat, lws: nat): nat
    requires lws > 0
  {
    gws / lws + (if gws % lws != 0 then 1 else 0)
  }

  function ComputeWorkgroupsNumber(gws: Vec3, lws: Vec3): Vec3
    requires lws.x > 0 && lws.y > 0 && lws.z > 0
  {
    Vec3(GroupCount(gws.x, lws.x), GroupCount(gws.y, lws.y), GroupCount(gws.z, lws.z))
  }

  /** The group count is the least number of groups that cover the range. */
  lemma GroupCountIsLeast(gws: nat, lws: nat, n: nat)
    requires lws > 0
    ensures n * lws >= gws <==> n >= GroupCount(gws, lws)
  {
    var q := gws / lws;
    assert gws == lws * q + gws % lws;
    if n >= GroupCount(gws, lws) {
      MulMono(GroupCount(gws, lws), n, lws);
      assert (q + 1) * lws == lws * q + lws;
    } else {
      MulMono(n + 1, GroupCount(gws, lws), lws);
      assert (n + 1) * lws == n * lws + lws;
      assert (q + 1) * lws == lws * q + lws;
    }
  }

  /** With a sound size the groups tile the range exactly: no partial group in any dimension. */
  lemma GroupsTileRange(s: Vec3, workItems: seq<nat>, max: nat)
    requires |workItems| == 3 && Sound(s, workItems, max)
    ensures var n := ComputeWorkgroupsNumber(Vec3(workItems[0], workItems[1], workItems[2]), s);
      n.x * s.x == workItems[0] && n.y * s.y == workItems[1] && n.z * s.z == workItems[2]
  {
    var i := DividesElim(s.x, workItems[0]);
    var j := DividesElim(s.y, workItems[1]);
    var k := DividesElim(s.z, workItems[2]);
  }
}
