/** Work-group sizes made of powers of two that divide the global range. */
module PowerOfTwoSizes {
  import opened Arithmetic
  import PrimeFactors
  import opened FactorSearch

  // ----- the largest power-of-two divisor -------------------------------------------------

  /** The test the driver applies: no bit of the low 32-bit word below the divisor is set. */
  predicate IsDivisableByPowerOfTwoDivisor(items: nat, divisor: nat)
    requires divisor > 0
  {
    Wrap32(items) % divisor == 0
  }

  /** Only the low word is tested, yet the test decides divisibility of the whole count. */
  lemma LowWordDecides(items: nat, d: nat)
    requires IsPow2(d) && d <= TWO_32
    ensures IsDivisableByPowerOfTwoDivisor(items, d) <==> Divides(d, items)
  {
    PrimeFactors.IsPow2Of2To32();
    Pow2Divides(d, TWO_32);
    var high := TWO_32 * (items / TWO_32);
    DividesMultiple(d, TWO_32, items / TWO_32);
    if Divides(d, Wrap32(items)) {
      DividesSum(d, high, Wrap32(items));
    }
    if Divides(d, items) {
      DividesDifference(d, items, high);
    }
  }

  lemma DividesDifference(d: nat, a: nat, b: nat)
    requires Divides(d, a) && Divides(d, b) && b <= a
    ensures Divides(d, a - b)
  {
    var i := DividesElim(d, a);
    var j := DividesElim(d, b);
    var k := i - j;
    assert d * k == d * i - d * j;
    DivModUnique(a - b, d, k, 0);
  }

  /** Halve from start until the divisor test passes. */
  function Pow2Divisor(items: nat, start: nat): (r: nat)
    ensures start >= 1 ==> r >= 1
  {
    if start > 1 && !IsDivisableByPowerOfTwoDivisor(items, start) then Pow2Divisor(items, start / 2) else start
  }

  /** The halving ends at the largest power of two up to start that divides the items. */
  lemma {:induction false} Pow2DivisorIsLargest(items: nat, start: nat, d: nat)
    requires IsPow2(start) && start <= TWO_32
    ensures var r := Pow2Divisor(items, start);
            && IsPow2(r) && r <= start && Divides(r, items)
            && (IsPow2(d) && d <= start && Divides(d, items) ==> d <= r)
  {
    LowWordDecides(items, start);
    if start > 1 && !IsDivisableByPowerOfTwoDivisor(items, start) {
      Pow2DivisorIsLargest(items, start / 2, d);
      if IsPow2(d) && d < start { Pow2Gap(start, d); }
    }
  }

  method FindPow2Divisors(workItems: seq<nat>, workDim: nat, start: nat) returns (divisors: seq<nat>)
    requires |workItems| == 3 && 1 <= workDim <= 3 && start >= 1
    requires forall i :: workDim <= i < 3 ==> workItems[i] == 1
    ensures divisors == Pow2Divisors(workItems, start)
  {
    divisors := [1, 1, 1];
    for i := 0 to workDim
      invariant |divisors| == 3
      invariant forall k :: 0 <= k < i ==> divisors[k] == Pow2Divisor(workItems[k], start)
      invariant forall k :: i <= k < 3 ==> divisors[k] == 1
    {
      var required := start;
      while required > 1 && !IsDivisableByPowerOfTwoDivisor(workItems[i], required)
        invariant required >= 1 && Pow2Divisor(workItems[i], required) == Pow2Divisor(workItems[i], start)
      {
        required := required / 2;
      }
      divisors := divisors[i := required];
    }
    forall k | workDim <= k < 3 ensures Pow2Divisor(workItems[k], start) == 1 {
      Pow2DivisorOfOne(start);
    }
  }

  lemma {:induction false} Pow2DivisorOfOne(start: nat)
    requires start >= 1
    ensures Pow2Divisor(1, start) == 1
  {
    if start > 1 { Pow2DivisorOfOne(start / 2); }
  }

  function Pow2Divisors(workItems: seq<nat>, start: nat): (d: seq<nat>)
    requires |workItems| == 3
    ensures |d| == 3
  {
    [Pow2Divisor(workItems[0], start), Pow2Divisor(workItems[1], start), Pow2Divisor(workItems[2], start)]
  }

  // ----- the target thread count ----------------------------------------------------------

  const HIGH_THREAD_COUNT_THRESHOLD: nat := 56

  /** optimalHardwareThreadCountGeneric: 32, 16, 8, 4, 2, 1. */
  function OptimalHardwareThreadCount(i: nat): (t: nat)
    requires i < 6
    ensures 1 <= t <= 32 && IsPow2(t)
  {
    match i case 0 => 32 case 1 => 16 case 2 => 8 case 3 => 4 case 4 => 2 case 5 => 1
  }

  /** The first table entry from i on whose group fits the device limit, or the last entry. */
  function ThreadsFrom(i: nat, max: nat, simd: nat): (t: nat)
    requires i < 6
    ensures 1 <= t <= 32 && IsPow2(t)
    decreases 6 - i
  {
    var t := OptimalHardwareThreadCount(i);
    if i < 5 && max < t * simd then ThreadsFrom(i + 1, max, simd) else t
  }

  function TargetThreads(wsInfo: WorkSizeInfo, canUseNx4: bool): (t: nat)
    ensures 1 <= t <= 32 && IsPow2(t)
  {
    ThreadsFrom(if canUseNx4 || wsInfo.numThreadsPerSubSlice < HIGH_THREAD_COUNT_THRESHOLD then 2 else 0,
                wsInfo.maxWorkGroupSize, wsInfo.simdSize)
  }

  lemma {:induction false} ThreadsFit(i: nat, max: nat, simd: nat)
    requires i < 6 && simd <= max
    ensures ThreadsFrom(i, max, simd) * simd <= max
    decreases 6 - i
  {
    if i < 5 && max < OptimalHardwareThreadCount(i) * simd { ThreadsFit(i + 1, max, simd); }
  }

  /** The thread counts the hardware runs best, up to a cap. */
  predicate ThreadCount(t: nat, cap: nat) { t in {1, 2, 4, 8, 16, 32} && t <= cap }

  /** The largest thread count within the cap whose group fits the device, or a single thread. */
  ghost predicate MostThreads(t: nat, cap: nat, max: nat, simd: nat) {
    && ThreadCount(t, cap) && (t == 1 || t * simd <= max)
    && forall u: nat :: ThreadCount(u, cap) && u * simd <= max ==> u <= t
  }

  lemma {:induction false} ThreadsFromMost(i: nat, max: nat, simd: nat)
    requires i < 6
    ensures MostThreads(ThreadsFrom(i, max, simd), OptimalHardwareThreadCount(i), max, simd)
    decreases 6 - i
  {
    if i < 5 && max < OptimalHardwareThreadCount(i) * simd { ThreadsFromMost(i + 1, max, simd); }
  }

  /** The target is the largest count up to 32, or up to 8 with images and on devices of fewer than 56 threads. */
  lemma TargetIsMost(wsInfo: WorkSizeInfo, canUseNx4: bool, t: nat)
    requires MostThreads(t, if canUseNx4 || wsInfo.numThreadsPerSubSlice < 56 then 8 else 32,
      wsInfo.maxWorkGroupSize, wsInfo.simdSize)
    ensures TargetThreads(wsInfo, canUseNx4) == t
  {
    ThreadsFromMost(if canUseNx4 || wsInfo.numThreadsPerSubSlice < 56 then 2 else 0, wsInfo.maxWorkGroupSize, wsInfo.simdSize);
  }

  // ----- splitting a power-of-two group over the dimensions -------------------------------

  /** Halving a power of two until it is at most another one yields the smaller of the two. */
  method HalveDownTo(start: nat, bound: nat) returns (r: nat)
    requires IsPow2(start) && IsPow2(bound)
    ensures r == Min(start, bound)
  {
    r := start;
    while r > bound
      invariant IsPow2(r) && r <= start && r >= Min(start, bound)
    {
      Pow2Gap(r, bound);
      r := r / 2;
    }
  }

  ghost predicate PowersOfTwo(d: seq<nat>) {
    |d| == 3 && IsPow2(d[0]) && IsPow2(d[1]) && IsPow2(d[2])
  }

  /** Taking the smaller of a total and a bound leaves a power of two, which is 1 if the total fits. */
  lemma SplitOff(total: nat, bound: nat) returns (part: nat, rest: nat)
    requires IsPow2(total) && IsPow2(bound)
    ensures part == Min(total, bound) && rest == total / part
    ensures IsPow2(part) && IsPow2(rest) && total == part * rest
    ensures total <= bound ==> rest == 1
  {
    part := Min(total, bound);
    Pow2Divides(part, total);
    rest := total / part;
    if total <= bound { DivModUnique(total, total, 1, 0); }
  }

  /** Divide a total power of two over three bounds, as much as possible to the first ones. */
  function Spread(total: nat, a: nat, b: nat): Vec3
    requires a > 0 && b > 0 && total > 0
  {
    var x := Min(total, a);
    var y := Min(total / x, b);
    Vec3(x, y, if y == 0 then 0 else total / (x * y))
  }

  lemma NestedQuotient(total: nat, x: nat, rest: nat, y: nat, last: nat)
    requires x > 0 && y > 0 && total == x * rest && rest == y * last
    ensures x * y > 0 && (x * y) * last == total && total / (x * y) == last
  {
    assert total == (x * y) * last;
    DivModUnique(total, x * y, last, 0);
  }

  lemma SpreadParts(total: nat, a: nat, b: nat) returns (rest: nat, last: nat)
    requires IsPow2(total) && IsPow2(a) && IsPow2(b)
    ensures var x, y := Min(total, a), Min(rest, b);
      && Spread(total, a, b) == Vec3(x, y, last)
      && IsPow2(x) && IsPow2(y) && IsPow2(last) && x * y * last == total && rest == total / x
      && (total <= a ==> rest == 1) && (rest <= b ==> last == 1)
  {
    var x, y;
    x, rest := SplitOff(total, a);
    y, last := SplitOff(rest, b);
    NestedQuotient(total, x, rest, y, last);
  }

  /** The parts multiply to the total, and the last one fits the third bound if the bounds suffice. */
  lemma SpreadFits(total: nat, a: nat, b: nat, c: nat)
    requires IsPow2(total) && IsPow2(a) && IsPow2(b) && IsPow2(c) && total <= a * b * c
    ensures var s := Spread(total, a, b);
      && IsPow2(s.x) && IsPow2(s.y) && IsPow2(s.z)
      && s.x <= a && s.y <= b && s.z <= c && s.x * s.y * s.z == total
  {
    var rest, last := SpreadParts(total, a, b);
    LastFits(total, a, b, c, Min(total, a), rest, Min(rest, b), last);
  }

  lemma LastFits(total: nat, a: nat, b: nat, c: nat, x: nat, rest: nat, y: nat, last: nat)
    requires 0 < a && 0 < b && 0 < c && x * y * last == total <= a * b * c
    requires x == Min(total, a) && y == Min(rest, b)
    requires (total <= a ==> rest == 1) && (rest <= b ==> last == 1)
    ensures last <= c
  {
    if b < rest {
      var ab := a * b;
      assert ab * last <= ab * c;
      Positive(a, b);
      CancelLe(ab, last, c);
    }
  }

  /** The first bounds are filled first: a later size is 1 unless the ones before it are at their bounds. */
  lemma SpreadFillsFirst(total: nat, a: nat, b: nat, c: nat)
    requires IsPow2(total) && IsPow2(a) && IsPow2(b) && IsPow2(c) && total <= a * b * c
    ensures var s := Spread(total, a, b);
      && (s.x == a || (s.x == total && s.y == 1 && s.z == 1)) && (s.y == b || s.z == 1)
  {
    var rest, last := SpreadParts(total, a, b);
  }

  lemma CancelLe(a: nat, b: nat, c: nat)
    requires a > 0 && a * b <= a * c
    ensures b <= c
  {
    if c < b { MulMono(c + 1, b, a); }
  }

  /** The two-dimensional shape four rows high used with images. */
  function Nx4(total: nat, a: nat): Vec3 {
    Vec3(Min(total / 4, a), 4, 1)
  }

  function PowerOfTwoLWS(d: seq<nat>, wsInfo: WorkSizeInfo, workDim: nat, canUseNx4: bool): Vec3
    requires |d| == 3 && d[0] > 0 && d[1] > 0 && wsInfo.simdSize > 0
  {
    var total := TargetThreads(wsInfo, canUseNx4) * wsInfo.simdSize;
    if workDim == 2 && canUseNx4 then Nx4(total, d[0]) else Spread(total, d[0], d[1])
  }

  function DivisorItems(d: seq<nat>): nat
    requires |d| == 3
  {
    var flat: nat, depth: nat := d[0] * d[1], d[2];
    flat * depth
  }

  /** A range for which power-of-two sizing is entered: its divisors make more than one full group. */
  predicate Oversized(d: seq<nat>, wsInfo: WorkSizeInfo)
    requires |d| == 3
  {
    var all := DivisorItems(d);
    all > wsInfo.simdSize && (all > wsInfo.maxWorkGroupSize || all > wsInfo.simdSize * 32)
  }

  /** What the size chooser promises about the device limits it passes on. */
  predicate DeviceLimits(wsInfo: WorkSizeInfo) {
    wsInfo.simdSize in {8, 16, 32} && IsPow2(wsInfo.maxWorkGroupSize) &&
    wsInfo.simdSize <= wsInfo.maxWorkGroupSize <= 1024
  }

  lemma TotalFits(d: seq<nat>, wsInfo: WorkSizeInfo, canUseNx4: bool)
    requires DeviceLimits(wsInfo) && PowersOfTwo(d) && Oversized(d, wsInfo)
    ensures var total := TargetThreads(wsInfo, canUseNx4) * wsInfo.simdSize;
            IsPow2(total) && 8 <= total <= wsInfo.maxWorkGroupSize && total <= d[0] * d[1] * d[2]
  {
    var t, simd := TargetThreads(wsInfo, canUseNx4), wsInfo.simdSize;
    assert IsPow2(simd) by { assert IsPow2(8) && IsPow2(16) && IsPow2(32); }
    Pow2Product(t, simd);
    MulMono(t, 32, simd);
    MulMono(1, t, simd);
    ThreadsFit(if canUseNx4 || wsInfo.numThreadsPerSubSlice < HIGH_THREAD_COUNT_THRESHOLD then 2 else 0,
               wsInfo.maxWorkGroupSize, simd);
  }

  /** The table walk at the start of the power-of-two sizing. */
  method FindTargetThreads(wsInfo: WorkSizeInfo, canUseNx4: bool) returns (t: nat)
    ensures t == TargetThreads(wsInfo, canUseNx4)
  {
    var targetIndex := if canUseNx4 || wsInfo.numThreadsPerSubSlice < HIGH_THREAD_COUNT_THRESHOLD then 2 else 0;
    while targetIndex < 6 && OptimalHardwareThreadCount(targetIndex) > 1 &&
          wsInfo.maxWorkGroupSize < OptimalHardwareThreadCount(targetIndex) * wsInfo.simdSize
      invariant targetIndex < 6
      invariant ThreadsFrom(targetIndex, wsInfo.maxWorkGroupSize, wsInfo.simdSize) == TargetThreads(wsInfo, canUseNx4)
    {
      targetIndex := targetIndex + 1;
    }
    t := OptimalHardwareThreadCount(targetIndex);
  }

  method ComputePowerOfTwoLWS(d: seq<nat>, wsInfo: WorkSizeInfo, workGroupSize: array<nat>, workDim: nat, canUseNx4: bool)
    requires workGroupSize.Length == 3 && DeviceLimits(wsInfo) && PowersOfTwo(d) && Oversized(d, wsInfo)
    requires 1 <= workDim <= 3 && (workDim == 2 ==> d[2] == 1 && workGroupSize[2] == 1)
    modifies workGroupSize
    ensures SizeIn(workGroupSize) == PowerOfTwoLWS(d, wsInfo, workDim, canUseNx4)
  {
    var optimalLocalThreads := FindTargetThreads(wsInfo, canUseNx4);
    var total := optimalLocalThreads * wsInfo.simdSize;
    TotalFits(d, wsInfo, canUseNx4);
    if workDim == 2 {
      assert d[0] * d[1] * d[2] == d[0] * d[1];
      var xDim, yDim := SplitPlane(total, d[0], d[1], canUseNx4);
      workGroupSize[0], workGroupSize[1] := xDim, yDim;
    } else {
      var xDim, yDim, zDim := SplitSpace(total, d[0], d[1]);
      workGroupSize[0], workGroupSize[1], workGroupSize[2] := xDim, yDim, zDim;
    }
  }

  /** With no third dimension, all that x leaves over fits into y. */
  lemma PlaneSpread(total: nat, a: nat, b: nat)
    requires IsPow2(total) && IsPow2(a) && IsPow2(b) && total <= a * b
    ensures Spread(total, a, b) == Vec3(Min(total, a), total / Min(total, a), 1)
  {
    var x, rest := SplitOff(total, a);
    if a < total { CancelLe(a, rest, b); }
    NestedQuotient(total, x, rest, rest, 1);
  }

  lemma QuarterIsPow2(total: nat)
    requires IsPow2(total) && total >= 4
    ensures IsPow2(total / 4)
  {
    assert total / 2 / 2 == total / 4;
  }

  method SplitPlane(total: nat, a: nat, b: nat, canUseNx4: bool) returns (xDim: nat, yDim: nat)
    requires IsPow2(total) && IsPow2(a) && IsPow2(b) && 8 <= total <= a * b
    ensures Vec3(xDim, yDim, 1) == if canUseNx4 then Nx4(total, a) else Spread(total, a, b)
  {
    QuarterIsPow2(total);
    PlaneSpread(total, a, b);
    xDim := total / (if canUseNx4 then 4 else 1);
    xDim := HalveDownTo(xDim, a);
    yDim := if canUseNx4 then 4 else total / xDim;
  }

  method SplitSpace(total: nat, a: nat, b: nat) returns (xDim: nat, yDim: nat, zDim: nat)
    requires IsPow2(total) && IsPow2(a) && IsPow2(b)
    ensures Vec3(xDim, yDim, zDim) == Spread(total, a, b)
  {
    xDim := HalveDownTo(total, a);
    ghost var x, rest := SplitOff(total, a);
    ghost var y, last := SplitOff(rest, b);
    NestedQuotient(total, x, rest, y, last);
    yDim := HalveDownTo(total / xDim, b);
    assert xDim * yDim != 0;  // the abort on a zero product is never reached
    zDim := total / (xDim * yDim);
  }

  /**
   * The power-of-two sizing meets its purpose: sizes that divide the divisors of the range, and a
   * group of exactly the targeted threads, which fits the device (the Nx4 plane may be smaller).
   */
  lemma PowerOfTwoLWSFits(d: seq<nat>, wsInfo: WorkSizeInfo, workDim: nat, canUseNx4: bool)
    requires DeviceLimits(wsInfo) && PowersOfTwo(d) && Oversized(d, wsInfo)
    requires canUseNx4 ==> d[1] >= 4
    requires 1 <= workDim <= 3
    ensures var s := PowerOfTwoLWS(d, wsInfo, workDim, canUseNx4);
            var total := TargetThreads(wsInfo, canUseNx4) * wsInfo.simdSize;
      && Divides(s.x, d[0]) && Divides(s.y, d[1]) && Divides(s.z, d[2])
      && s.Volume() <= total <= wsInfo.maxWorkGroupSize
      && (workDim != 2 || !canUseNx4 ==> s.Volume() == total)
  {
    var s := PowerOfTwoLWS(d, wsInfo, workDim, canUseNx4);
    var total := TargetThreads(wsInfo, canUseNx4) * wsInfo.simdSize;
    TotalFits(d, wsInfo, canUseNx4);
    if workDim == 2 && canUseNx4 {
      QuarterIsPow2(total);
      assert IsPow2(4);
      MulMono(s.x, total / 4, 4);
      assert d[2] % 1 == 0;
    } else {
      SpreadFits(total, d[0], d[1], d[2]);
      Pow2Divides(s.z, d[2]);
    }
    Pow2Divides(s.x, d[0]);
    Pow2Divides(s.y, d[1]);
  }

  /** A power of two within the bound that divides the items. */
  predicate Pow2Part(p: nat, items: nat, bound: nat) { IsPow2(p) && p <= bound && Divides(p, items) }

  /** The largest of them. */
  ghost predicate LargestPow2(d: nat, items: nat, bound: nat) {
    Pow2Part(d, items, bound) && forall p: nat :: Pow2Part(p, items, bound) ==> p <= d
  }

  lemma Pow2DivisorIs(d: nat, items: nat, start: nat)
    requires IsPow2(start) && start <= TWO_32 && LargestPow2(d, items, start)
    ensures Pow2Divisor(items, start) == d
  {
    Pow2DivisorIsLargest(items, start, d);
    assert Pow2Part(Pow2Divisor(items, start), items, start);
  }

  // ----- squared sizes --------------------------------------------------------------------

  /** Halve the larger of two sizes (the second on a tie) until their product is at most max. */
  function Shrink(a: nat, b: nat, max: nat): Vec3
    requires max >= 1
    decreases a + b
  {
    if a * b <= max then Vec3(a, b, 1) else if a > b then Shrink(a / 2, b, max) else Shrink(a, b / 2, max)
  }

  /** The product ends at exactly max, and a size was only cut while it was the larger one. */
  lemma {:induction false} ShrinkFits(a: nat, b: nat, max: nat)
    requires IsPow2(a) && IsPow2(b) && IsPow2(max) && a * b >= max
    ensures var s := Shrink(a, b, max);
      && IsPow2(s.x) && IsPow2(s.y) && s.x <= a && s.y <= b && s.x * s.y == max && s.z == 1
      && (s.x < a ==> s.y <= s.x) && (s.y < b ==> s.x <= 2 * s.y)
    decreases a + b
  {
    if a * b > max {
      Pow2Product(a, b);
      Pow2Gap(a * b, max);
      if a > b {
        HalfProduct(a, b);
        Pow2Gap(a, b);
        ShrinkFits(a / 2, b, max);
      } else {
        assert b != 1;
        HalfProduct(b, a);
        ShrinkFits(a, b / 2, max);
      }
    }
  }

  lemma HalfProduct(a: nat, b: nat)
    requires a % 2 == 0
    ensures 2 * ((a / 2) * b) == a * b && 2 * (b * (a / 2)) == b * a
  {
  }

  /** What the squared sizing of a two-dimensional range stores, branch by branch. */
  ghost predicate SquaredOutcome(s: Vec3, workItems: seq<nat>, max: nat, simd: nat)
    requires |workItems| == 3 && max >= 1 && simd > 0
  {
    var d := Pow2Divisors(workItems, max);
    if d[0] * d[1] >= max then s == Shrink(d[0], d[1], max)
    else if Wrap64(workItems[0] * workItems[1]) > max then
      s.z == 1 && Choice(s, Vec3(1, 1, 1), Cost(NO_COST, NO_COST as real), PackingOf(workItems, simd),
          DivisorPairs(workItems, max))
    else s == Vec3(workItems[0], workItems[1], 1)
  }

  method ComputeWorkgroupSizeSquared(max: nat, workGroupSize: array<nat>, workItems: seq<nat>, simd: nat)
    requires workGroupSize.Length == 3 && |workItems| == 3 && workItems[2] == 1
    requires 1 <= max <= 1024 && simd in {8, 16, 32}
    modifies workGroupSize
    ensures SquaredOutcome(SizeIn(workGroupSize), workItems, max, simd)
  {
    workGroupSize[0], workGroupSize[1], workGroupSize[2] := 1, 1, 1;
    var d := FindPow2Divisors(workItems, 2, max);
    Pow2DivisorOfOne(max);
    if d[0] * d[1] >= max {
      var x, y := ShrinkToLimit(d[0], d[1], max);
      workGroupSize[0], workGroupSize[1], workGroupSize[2] := x, y, d[2];
    } else if Wrap64(workItems[0] * workItems[1]) > max {
      ComputeWorkgroupSize2D(max, workGroupSize, workItems, simd);
    } else {
      workGroupSize[0], workGroupSize[1] := workItems[0], workItems[1];
    }
  }

  method ShrinkToLimit(a: nat, b: nat, max: nat) returns (x: nat, y: nat)
    requires max >= 1
    ensures Vec3(x, y, 1) == Shrink(a, b, max)
  {
    x, y := a, b;
    while x * y > max
      invariant Shrink(x, y, max) == Shrink(a, b, max)
      decreases x + y
    {
      if x > y {
        x := x / 2;
      } else {
        y := y / 2;
      }
    }
  }
}
