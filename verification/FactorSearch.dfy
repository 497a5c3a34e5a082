/** The exhaustive searches over lists of divisors that pick a two- or three-dimensional size. */
module FactorSearch {
  import opened Arithmetic

  datatype Vec3 = Vec3(x: nat, y: nat, z: nat) {
    function Volume(): nat { x * y * z }
  }

  // ----- lists of divisors ----------------------------------------------------------------

  predicate Ascending(s: seq<nat>) {
    forall i, j :: 0 <= i < j < |s| ==> s[i] < s[j]
  }

  /** What a search expects of a list of divisors: ascending values that fit the factor buffers. */
  predicate FactorList(s: seq<nat>) {
    Ascending(s) && forall i :: 0 <= i < |s| ==> 1 <= s[i] <= 1024
  }

  // ----- comparing candidates -------------------------------------------------------------

  /** A cost is compared by its integer part first and by its real part on a tie. */
  datatype Cost = Cost(major: nat, minor: real)

  predicate Less(a: Cost, b: Cost) {
    a.major < b.major || (a.major == b.major && a.minor < b.minor)
  }

  /** The scan visits z upwards, for each z the x values downwards, for each x the y values upwards. */
  predicate Earlier(a: Vec3, b: Vec3) {
    a.z < b.z || (a.z == b.z && (a.x > b.x || (a.x == b.x && a.y < b.y)))
  }

  /** All sizes made of listed factors whose volume lies within [lo, hi]. */
  ghost function Candidates(xs: seq<nat>, ys: seq<nat>, zs: seq<nat>, lo: nat, hi: nat): set<Vec3> {
    set x, y, z | x in xs && y in ys && z in zs && lo <= x * y * z <= hi :: Vec3(x, y, z)
  }

  /**
   * r is the first candidate in scan order of least cost, and best is its cost; when no
   * candidate costs less than the limit, r is still the initial size.
   */
  ghost predicate FirstLeast(r: Vec3, best: Cost, init: Vec3, limit: Cost, cost: Vec3 -> Cost, candidates: set<Vec3>) {
    && (forall s :: s in candidates ==> !Less(cost(s), best))
    && ((r == init && best == limit) || (r in candidates && best == cost(r) && Less(best, limit)
        && forall s :: s in candidates && cost(s) == best && s != r ==> Earlier(r, s)))
  }

  ghost predicate Choice(r: Vec3, init: Vec3, limit: Cost, cost: Vec3 -> Cost, candidates: set<Vec3>) {
    exists best :: FirstLeast(r, best, init, limit, cost, candidates)
  }

  lemma FirstLeastStep(r: Vec3, best: Cost, init: Vec3, limit: Cost, cost: Vec3 -> Cost, seen: set<Vec3>, s: Vec3)
    requires FirstLeast(r, best, init, limit, cost, seen)
    requires forall t :: t in seen ==> Earlier(t, s)
    ensures Less(cost(s), best) ==> FirstLeast(s, cost(s), init, limit, cost, seen + {s})
    ensures !Less(cost(s), best) ==> FirstLeast(r, best, init, limit, cost, seen + {s})
  {
  }

  // ----- the scan -------------------------------------------------------------------------

  /** The candidates visited before position (zi, xi, yi) of the scan. */
  ghost function Seen(all: set<Vec3>, xs: seq<nat>, ys: seq<nat>, zs: seq<nat>, zi: nat, xi: nat, yi: nat): set<Vec3>
    requires zi <= |zs| && xi <= |xs| && yi <= |ys|
  {
    set s | s in all && (s.z in zs[..zi] || (zi < |zs| && s.z == zs[zi] &&
      (s.x in xs[|xs| - xi..] || (xi < |xs| && s.x == xs[|xs| - 1 - xi] && s.y in ys[..yi]))))
  }

  lemma SeenStart(all: set<Vec3>, xs: seq<nat>, ys: seq<nat>, zs: seq<nat>)
    ensures Seen(all, xs, ys, zs, 0, 0, 0) == {}
  {
  }

  lemma SeenNextZ(all: set<Vec3>, xs: seq<nat>, ys: seq<nat>, zs: seq<nat>, zi: nat)
    requires zi < |zs| && forall s :: s in all ==> s.x in xs
    ensures Seen(all, xs, ys, zs, zi, |xs|, 0) == Seen(all, xs, ys, zs, zi + 1, 0, 0)
  {
    assert zs[..zi + 1] == zs[..zi] + [zs[zi]];
  }

  lemma SeenNextX(all: set<Vec3>, xs: seq<nat>, ys: seq<nat>, zs: seq<nat>, zi: nat, xi: nat, yi: nat)
    requires zi < |zs| && xi < |xs| && yi <= |ys|
    requires forall s :: s in all && s.z == zs[zi] && s.x == xs[|xs| - 1 - xi] ==> s.y in ys[..yi]
    ensures Seen(all, xs, ys, zs, zi, xi, yi) == Seen(all, xs, ys, zs, zi, xi + 1, 0)
  {
    assert xs[|xs| - (xi + 1)..] == [xs[|xs| - 1 - xi]] + xs[|xs| - xi..];
  }

  lemma SeenNextY(all: set<Vec3>, xs: seq<nat>, ys: seq<nat>, zs: seq<nat>, zi: nat, xi: nat, yi: nat)
    requires zi < |zs| && xi < |xs| && yi < |ys|
    requires FactorList(xs) && FactorList(ys) && FactorList(zs)
    ensures var s := Vec3(xs[|xs| - 1 - xi], ys[yi], zs[zi]);
      && (forall t :: t in Seen(all, xs, ys, zs, zi, xi, yi) ==> Earlier(t, s))
      && Seen(all, xs, ys, zs, zi, xi, yi + 1) ==
         if s in all then Seen(all, xs, ys, zs, zi, xi, yi) + {s} else Seen(all, xs, ys, zs, zi, xi, yi)
  {
    assert ys[..yi + 1] == ys[..yi] + [ys[yi]];
  }

  /** A row may be cut at the first product above hi: the y values only grow from there. */
  lemma RowCut(xs: seq<nat>, ys: seq<nat>, zs: seq<nat>, lo: nat, hi: nat, x: nat, z: nat, yi: nat)
    requires FactorList(ys) && yi < |ys| && x * ys[yi] * z > hi
    ensures forall s :: s in Candidates(xs, ys, zs, lo, hi) && s.z == z && s.x == x ==> s.y in ys[..yi]
  {
    forall s | s in Candidates(xs, ys, zs, lo, hi) && s.z == z && s.x == x ensures s.y in ys[..yi] {
      if s.y >= ys[yi] {
        MulMono(ys[yi], s.y, x);
        MulMono(x * ys[yi], x * s.y, z);
      }
    }
  }

  /** State of a scan: the best of the candidates before position (zi, xi, yi) has been found. */
  ghost predicate Scanned(r: Vec3, best: Cost, init: Vec3, limit: Cost, cost: Vec3 -> Cost, all: set<Vec3>,
      xs: seq<nat>, ys: seq<nat>, zs: seq<nat>, zi: nat, xi: nat, yi: nat)
  {
    && zi <= |zs| && xi <= |xs| && yi <= |ys|
    && FirstLeast(r, best, init, limit, cost, Seen(all, xs, ys, zs, zi, xi, yi))
  }

  /** One visit: r' and best' are the best candidate and cost with the next position included. */
  lemma Visit(r: Vec3, best: Cost, init: Vec3, limit: Cost, cost: Vec3 -> Cost, all: set<Vec3>,
      xs: seq<nat>, ys: seq<nat>, zs: seq<nat>, zi: nat, xi: nat, yi: nat) returns (r': Vec3, best': Cost)
    requires FactorList(xs) && FactorList(ys) && FactorList(zs) && zi < |zs| && xi < |xs| && yi < |ys|
    requires Scanned(r, best, init, limit, cost, all, xs, ys, zs, zi, xi, yi)
    ensures var s := Vec3(xs[|xs| - 1 - xi], ys[yi], zs[zi]);
      if s in all && Less(cost(s), best) then r' == s && best' == cost(s) else r' == r && best' == best
    ensures Scanned(r', best', init, limit, cost, all, xs, ys, zs, zi, xi, yi + 1)
  {
    var s := Vec3(xs[|xs| - 1 - xi], ys[yi], zs[zi]);
    SeenNextY(all, xs, ys, zs, zi, xi, yi);
    FirstLeastStep(r, best, init, limit, cost, Seen(all, xs, ys, zs, zi, xi, yi), s);
    r', best' := r, best;
    if s in all && Less(cost(s), best) {
      r', best' := s, cost(s);
    }
  }

  /** The same in a flat scan, which has the z value 1 only. */
  lemma VisitFlat(r: Vec3, best: Cost, init: Vec3, limit: Cost, cost: Vec3 -> Cost,
      xs: seq<nat>, ys: seq<nat>, zs: seq<nat>, lo: nat, hi: nat, xi: nat, yi: nat, s: Vec3)
    returns (r': Vec3, best': Cost)
    requires FactorList(xs) && FactorList(ys) && zs == [1] && xi < |xs| && yi < |ys|
    requires s == Vec3(xs[|xs| - 1 - xi], ys[yi], 1)
    requires Scanned(r, best, init, limit, cost, Candidates(xs, ys, zs, lo, hi), xs, ys, zs, 0, xi, yi)
    ensures if lo <= s.x * s.y <= hi && Less(cost(s), best) then r' == s && best' == cost(s) else r' == r && best' == best
    ensures Scanned(r', best', init, limit, cost, Candidates(xs, ys, zs, lo, hi), xs, ys, zs, 0, xi, yi + 1)
  {
    assert s.x * s.y * 1 == s.x * s.y && 1 in zs;
    r', best' := Visit(r, best, init, limit, cost, Candidates(xs, ys, zs, lo, hi), xs, ys, zs, 0, xi, yi);
  }

  /** A row ends after its last y, or as soon as a product exceeds hi. */
  lemma EndRow(r: Vec3, best: Cost, init: Vec3, limit: Cost, cost: Vec3 -> Cost,
      xs: seq<nat>, ys: seq<nat>, zs: seq<nat>, lo: nat, hi: nat, zi: nat, xi: nat, yi: nat)
    requires FactorList(ys) && zi < |zs| && xi < |xs| && yi <= |ys|
    requires yi < |ys| ==> xs[|xs| - 1 - xi] * ys[yi] * zs[zi] > hi
    requires Scanned(r, best, init, limit, cost, Candidates(xs, ys, zs, lo, hi), xs, ys, zs, zi, xi, yi)
    ensures Scanned(r, best, init, limit, cost, Candidates(xs, ys, zs, lo, hi), xs, ys, zs, zi, xi + 1, 0)
  {
    if yi < |ys| {
      RowCut(xs, ys, zs, lo, hi, xs[|xs| - 1 - xi], zs[zi], yi);
    }
    SeenNextX(Candidates(xs, ys, zs, lo, hi), xs, ys, zs, zi, xi, yi);
  }

  lemma EndRowFlat(r: Vec3, best: Cost, init: Vec3, limit: Cost, cost: Vec3 -> Cost,
      xs: seq<nat>, ys: seq<nat>, zs: seq<nat>, lo: nat, hi: nat, xi: nat, yi: nat)
    requires FactorList(ys) && zs == [1] && xi < |xs| && yi <= |ys|
    requires yi < |ys| ==> xs[|xs| - 1 - xi] * ys[yi] > hi
    requires Scanned(r, best, init, limit, cost, Candidates(xs, ys, zs, lo, hi), xs, ys, zs, 0, xi, yi)
    ensures Scanned(r, best, init, limit, cost, Candidates(xs, ys, zs, lo, hi), xs, ys, zs, 0, xi + 1, 0)
  {
    EndRow(r, best, init, limit, cost, xs, ys, zs, lo, hi, 0, xi, yi);
  }

  lemma EndPlane(r: Vec3, best: Cost, init: Vec3, limit: Cost, cost: Vec3 -> Cost,
      xs: seq<nat>, ys: seq<nat>, zs: seq<nat>, lo: nat, hi: nat, zi: nat)
    requires zi < |zs|
    requires Scanned(r, best, init, limit, cost, Candidates(xs, ys, zs, lo, hi), xs, ys, zs, zi, |xs|, 0)
    ensures Scanned(r, best, init, limit, cost, Candidates(xs, ys, zs, lo, hi), xs, ys, zs, zi + 1, 0, 0)
  {
    SeenNextZ(Candidates(xs, ys, zs, lo, hi), xs, ys, zs, zi);
  }

  lemma StartScan(init: Vec3, limit: Cost, cost: Vec3 -> Cost, all: set<Vec3>,
      xs: seq<nat>, ys: seq<nat>, zs: seq<nat>)
    ensures Scanned(init, limit, init, limit, cost, all, xs, ys, zs, 0, 0, 0)
  {
    SeenStart(all, xs, ys, zs);
  }

  lemma EndScan(r: Vec3, best: Cost, init: Vec3, limit: Cost, cost: Vec3 -> Cost,
      xs: seq<nat>, ys: seq<nat>, zs: seq<nat>, lo: nat, hi: nat)
    requires Scanned(r, best, init, limit, cost, Candidates(xs, ys, zs, lo, hi), xs, ys, zs, |zs|, 0, 0)
    ensures Choice(r, init, limit, cost, Candidates(xs, ys, zs, lo, hi))
  {
    var all := Candidates(xs, ys, zs, lo, hi);
    assert Seen(all, xs, ys, zs, |zs|, 0, 0) == all;
  }

  // ----- the cost of a size ---------------------------------------------------------------

  const NO_COST: nat := 0xffff_ffff

  /** Groups along one axis: the 64-bit sum items + d - 1, divided by d. */
  function GroupsAlong(items: nat, d: nat): nat
    requires d > 0
  {
    Wrap64(items + d - 1) / d
  }

  function Groups2(workItems: seq<nat>, s: Vec3): nat
    requires |workItems| == 3 && s.x > 0 && s.y > 0
  {
    Wrap64(GroupsAlong(workItems[0], s.x) * GroupsAlong(workItems[1], s.y))
  }

  function Groups3(workItems: seq<nat>, s: Vec3): nat
    requires |workItems| == 3 && s.x > 0 && s.y > 0 && s.z > 0
  {
    Wrap64(Groups2(workItems, s) * GroupsAlong(workItems[2], s.z))
  }

  /** EU threads dispatched for the whole range, as the 64-bit counter holds it. */
  function ThreadCost(workItems: seq<nat>, simd: nat, s: Vec3): nat
    requires |workItems| == 3 && simd > 0
  {
    if s.x == 0 || s.y == 0 || s.z == 0 then 0
    else Wrap64(CeilDiv(s.Volume(), simd) * Groups3(workItems, s))
  }

  ghost function ThreadsOf(workItems: seq<nat>, simd: nat): Vec3 -> Cost
    requires |workItems| == 3 && simd > 0
  {
    s => Cost(ThreadCost(workItems, simd, s), 0.0)
  }

  datatype WorkSizeInfo = WorkSizeInfo(
    maxWorkGroupSize: nat, minWorkGroupSize: nat, hasBarriers: bool, simdSize: nat, slmTotalSize: nat,
    numThreadsPerSubSlice: nat, imgUsed: bool, yTiledSurfaces: bool,
    useRatio: bool, useStrictRatio: bool, targetRatio: real)

  /** The size held in the first three cells of an array. */
  ghost function SizeIn(a: array<nat>): Vec3
    requires a.Length == 3
    reads a
  {
    Vec3(a[0], a[1], a[2])
  }

  method ChoosePreferredWorkGroupSizeWithOutRatio(xs: seq<nat>, ys: seq<nat>, zs: seq<nat>,
      workGroupSize: array<nat>, workItems: seq<nat>, wsInfo: WorkSizeInfo)
    requires FactorList(xs) && FactorList(ys) && FactorList(zs)
    requires workGroupSize.Length == 3 && |workItems| == 3 && wsInfo.simdSize > 0
    modifies workGroupSize
    ensures Choice(SizeIn(workGroupSize), old(SizeIn(workGroupSize)), Cost(NO_COST, 0.0),
                   ThreadsOf(workItems, wsInfo.simdSize),
                   Candidates(xs, ys, zs, wsInfo.minWorkGroupSize, wsInfo.maxWorkGroupSize))
  {
    var lo, hi := wsInfo.minWorkGroupSize, wsInfo.maxWorkGroupSize;
    ghost var init := SizeIn(workGroupSize);
    ghost var limit := Cost(NO_COST, 0.0);
    ghost var cost := ThreadsOf(workItems, wsInfo.simdSize);
    ghost var all := Candidates(xs, ys, zs, lo, hi);
    ghost var r, best := init, limit;
    var localEuThrdsDispatched: nat := NO_COST;
    StartScan(init, limit, cost, all, xs, ys, zs);
    for zi := 0 to |zs|
      invariant r == SizeIn(workGroupSize) && best == Cost(localEuThrdsDispatched, 0.0)
      invariant Scanned(r, best, init, limit, cost, all, xs, ys, zs, zi, 0, 0)
    {
      for xi := 0 to |xs|
        invariant r == SizeIn(workGroupSize) && best == Cost(localEuThrdsDispatched, 0.0)
        invariant Scanned(r, best, init, limit, cost, all, xs, ys, zs, zi, xi, 0)
      {
        var yi := 0;
        while yi < |ys|
          invariant yi <= |ys| && r == SizeIn(workGroupSize) && best == Cost(localEuThrdsDispatched, 0.0)
          invariant Scanned(r, best, init, limit, cost, all, xs, ys, zs, zi, xi, yi)
        {
          var x, y, z := xs[|xs| - 1 - xi], ys[yi], zs[zi];
          if x * y * z > hi {
            break;
          }
          r, best := Visit(r, best, init, limit, cost, all, xs, ys, zs, zi, xi, yi);
          if x * y * z >= lo {
            assert Vec3(x, y, z) in all;
            var euThrdsDispatched := ThreadCost(workItems, wsInfo.simdSize, Vec3(x, y, z));
            if euThrdsDispatched < localEuThrdsDispatched {
              localEuThrdsDispatched := euThrdsDispatched;
              workGroupSize[0], workGroupSize[1], workGroupSize[2] := x, y, z;
            }
          }
          yi := yi + 1;
        }
        EndRow(r, best, init, limit, cost, xs, ys, zs, lo, hi, zi, xi, yi);
      }
      EndPlane(r, best, init, limit, cost, xs, ys, zs, lo, hi, zi);
    }
    EndScan(r, best, init, limit, cost, xs, ys, zs, lo, hi);
  }

  // ----- the ratio search -----------------------------------------------------------------

  /** How far the aspect x : y of a size is from the target, on the logarithm scale given by log. */
  function RatioDiff(log: nat -> real, target: real, s: Vec3): real {
    var d := target - (log(s.x) - log(s.y));
    if d < 0.0 then -d else d
  }

  /** Strict: the aspect alone counts; otherwise the number of groups first, the aspect on a tie. */
  ghost function RatioCostOf(workItems: seq<nat>, log: nat -> real, target: real, strict: bool): Vec3 -> Cost
    requires |workItems| == 3
  {
    (s: Vec3) => Cost(if strict || s.x == 0 || s.y == 0 then 0 else Groups2(workItems, s), RatioDiff(log, target, s))
  }

  lemma RatioLess(strict: bool, groups: nat, ratio: real, bestGroups: nat, bestRatio: real)
    ensures Less(Cost(if strict then 0 else groups, ratio), Cost(if strict then 0 else bestGroups, bestRatio))
      <==> if strict then ratio < bestRatio
           else groups < bestGroups || (groups == bestGroups && ratio < bestRatio)
  {
  }

  ghost function RatioLimit(strict: bool): Cost {
    Cost(if strict then 0 else NO_COST, NO_RATIO)
  }

  /** The largest 32-bit value, rounded to single precision. */
  const NO_RATIO: real := 4294967296.0

  method ChoosePreferredWorkGroupSizeWithRatio(xs: seq<nat>, ys: seq<nat>, workGroupSize: array<nat>,
      workItems: seq<nat>, wsInfo: WorkSizeInfo, log: nat -> real)
    requires FactorList(xs) && FactorList(ys)
    requires workGroupSize.Length == 3 && |workItems| == 3
    modifies workGroupSize
    ensures workGroupSize[2] == old(workGroupSize[2])
    ensures Choice(Vec3(workGroupSize[0], workGroupSize[1], 1), old(Vec3(workGroupSize[0], workGroupSize[1], 1)),
                   RatioLimit(wsInfo.useStrictRatio),
                   RatioCostOf(workItems, log, wsInfo.targetRatio, wsInfo.useStrictRatio),
                   Candidates(xs, ys, [1], wsInfo.minWorkGroupSize, wsInfo.maxWorkGroupSize))
  {
    var strict, lo, hi := wsInfo.useStrictRatio, wsInfo.minWorkGroupSize, wsInfo.maxWorkGroupSize;
    ghost var zs := [1];
    ghost var init := Vec3(workGroupSize[0], workGroupSize[1], 1);
    ghost var limit := RatioLimit(strict);
    ghost var cost := RatioCostOf(workItems, log, wsInfo.targetRatio, strict);
    ghost var all := Candidates(xs, ys, zs, lo, hi);
    ghost var r, best := init, limit;
    var localRatio, localWkgs: nat := NO_RATIO, NO_COST;
    StartScan(init, limit, cost, all, xs, ys, zs);
    for xi := 0 to |xs|
      invariant workGroupSize[2] == old(workGroupSize[2]) && r == Vec3(workGroupSize[0], workGroupSize[1], 1)
      invariant best == Cost(if strict then 0 else localWkgs, localRatio)
      invariant Scanned(r, best, init, limit, cost, all, xs, ys, zs, 0, xi, 0)
    {
      var yi := 0;
      while yi < |ys|
        invariant yi <= |ys| && workGroupSize[2] == old(workGroupSize[2])
        invariant r == Vec3(workGroupSize[0], workGroupSize[1], 1)
        invariant best == Cost(if strict then 0 else localWkgs, localRatio)
        invariant Scanned(r, best, init, limit, cost, all, xs, ys, zs, 0, xi, yi)
      {
        var x, y := xs[|xs| - 1 - xi], ys[yi];
        if x * y > hi {
          break;
        }
        r, best := VisitFlat(r, best, init, limit, cost, xs, ys, zs, lo, hi, xi, yi, Vec3(x, y, 1));
        if x * y >= lo {
          var workGroups := Groups2(workItems, Vec3(x, y, 1));
          var ratioDiff := RatioDiff(log, wsInfo.targetRatio, Vec3(x, y, 1));
          RatioLess(strict, workGroups, ratioDiff, localWkgs, localRatio);
          if if strict then ratioDiff < localRatio
             else workGroups < localWkgs || (workGroups == localWkgs && ratioDiff < localRatio)
          {
            workGroupSize[0], workGroupSize[1] := x, y;
            localRatio, localWkgs := ratioDiff, workGroups;
          }
        }
        yi := yi + 1;
      }
      EndRowFlat(r, best, init, limit, cost, xs, ys, zs, lo, hi, xi, yi);
    }
    EndPlane(r, best, init, limit, cost, xs, ys, zs, lo, hi, 0);
    EndScan(r, best, init, limit, cost, xs, ys, zs, lo, hi);
  }

  // ----- the two-dimensional search -------------------------------------------------------

  /** The divisors of items in [lo, hi), in ascending order. */
  ghost predicate DivisorList(s: seq<nat>, items: nat, lo: nat, hi: nat) {
    && Ascending(s) && |s| <= Max(0, hi - lo)
    && (forall d :: d in s <==> lo <= d < hi && Divides(d, items))
  }

  lemma DivisorListFits(s: seq<nat>, items: nat, lo: nat, hi: nat)
    requires DivisorList(s, items, lo, hi) && 0 < lo && hi <= 1025
    ensures FactorList(s)
  {
    assert forall i :: 0 <= i < |s| ==> s[i] in s;
  }

  lemma DivisorListGrows(s: seq<nat>, items: nat, lo: nat, hi: nat)
    requires DivisorList(s, items, lo, hi) && 0 < lo <= hi
    ensures DivisorList(if items % hi == 0 then s + [hi] else s, items, lo, hi + 1)
  {
    forall i, j | 0 <= i < j < |s + [hi]| ensures (s + [hi])[i] < (s + [hi])[j] {
      assert s[i] in s;
    }
  }

  /**
   * Waste: for each group one more than the idle SIMD channels of its last EU thread. The width
   * simd is a power of two, so the source's mask of the low bits is the remainder here.
   */
  function WasteCost(workItems: seq<nat>, simd: nat, s: Vec3): nat
    requires |workItems| == 3 && simd > 0
  {
    if s.x == 0 || s.y == 0 then 0
    else Wrap64((simd - (s.x * s.y - 1) % simd) * Groups2(workItems, s))
  }

  function PlaneThreadCost(workItems: seq<nat>, simd: nat, s: Vec3): nat
    requires |workItems| == 3 && simd > 0
  {
    if s.x == 0 || s.y == 0 then 0
    else Wrap64(CeilDiv(s.x * s.y, simd) * Groups2(workItems, s))
  }

  ghost function PackingOf(workItems: seq<nat>, simd: nat): Vec3 -> Cost
    requires |workItems| == 3 && simd > 0
  {
    s => Cost(PlaneThreadCost(workItems, simd, s), WasteCost(workItems, simd, s) as real)
  }

  /** All pairs of divisors of the two item counts, each at least 2, whose product is at most max. */
  ghost function DivisorPairs(workItems: seq<nat>, max: nat): set<Vec3>
    requires |workItems| == 3
  {
    set x, y | 2 <= x <= max && 2 <= y <= max && Divides(x, workItems[0]) && Divides(y, workItems[1])
      && x * y <= max :: Vec3(x, y, 1)
  }

  lemma DivisorPairsAreCandidates(xs: seq<nat>, ys: seq<nat>, workItems: seq<nat>, max: nat)
    requires |workItems| == 3
    requires DivisorList(xs, workItems[0], 2, max + 1) && DivisorList(ys, workItems[1], 2, max + 1)
    ensures Candidates(xs, ys, [1], 0, max) == DivisorPairs(workItems, max)
  {
    var a, b := Candidates(xs, ys, [1], 0, max), DivisorPairs(workItems, max);
    forall s | s in a ensures s in b { assert s.x * s.y * 1 == s.x * s.y; }
    forall s | s in b ensures s in a { assert s.x * s.y * 1 == s.x * s.y; }
  }

  lemma PairLess(threads: nat, waste: nat, bestThreads: nat, bestWaste: nat)
    ensures Less(Cost(threads, waste as real), Cost(bestThreads, bestWaste as real))
      <==> threads < bestThreads || (threads == bestThreads && waste < bestWaste)
  {
  }

  /** The second loop nest of the two-dimensional search; the first one collects the divisors. */
  method SearchPairs(xs: seq<nat>, ys: seq<nat>, max: nat, workGroupSize: array<nat>, workItems: seq<nat>, simd: nat)
    requires workGroupSize.Length == 3 && |workItems| == 3
    requires FactorList(xs) && FactorList(ys)
    requires simd in {8, 16, 32}
    modifies workGroupSize
    ensures workGroupSize[2] == old(workGroupSize[2])
    ensures Choice(Vec3(workGroupSize[0], workGroupSize[1], 1), old(Vec3(workGroupSize[0], workGroupSize[1], 1)),
                   Cost(NO_COST, NO_COST as real), PackingOf(workItems, simd), Candidates(xs, ys, [1], 0, max))
  {
    ghost var zs := [1];
    ghost var init := Vec3(workGroupSize[0], workGroupSize[1], 1);
    ghost var limit := Cost(NO_COST, NO_COST as real);
    ghost var cost := PackingOf(workItems, simd);
    ghost var all := Candidates(xs, ys, zs, 0, max);
    ghost var r, best := init, limit;
    var localWSWaste: nat, localEuThrdsDispatched: nat := NO_COST, NO_COST;
    StartScan(init, limit, cost, all, xs, ys, zs);
    for xi := 0 to |xs|
      invariant workGroupSize[2] == old(workGroupSize[2]) && r == Vec3(workGroupSize[0], workGroupSize[1], 1)
      invariant best == Cost(localEuThrdsDispatched, localWSWaste as real)
      invariant Scanned(r, best, init, limit, cost, all, xs, ys, zs, 0, xi, 0)
    {
      var yi := 0;
      while yi < |ys|
        invariant yi <= |ys| && workGroupSize[2] == old(workGroupSize[2])
        invariant r == Vec3(workGroupSize[0], workGroupSize[1], 1)
        invariant best == Cost(localEuThrdsDispatched, localWSWaste as real)
        invariant Scanned(r, best, init, limit, cost, all, xs, ys, zs, 0, xi, yi)
      {
        var x, y := xs[|xs| - 1 - xi], ys[yi];
        if x * y > max {
          break;
        }
        r, best := VisitFlat(r, best, init, limit, cost, xs, ys, zs, 0, max, xi, yi, Vec3(x, y, 1));
        var euThrdsDispatched := PlaneThreadCost(workItems, simd, Vec3(x, y, 1));
        var waste := WasteCost(workItems, simd, Vec3(x, y, 1));
        PairLess(euThrdsDispatched, waste, localEuThrdsDispatched, localWSWaste);
        if euThrdsDispatched < localEuThrdsDispatched ||
           (euThrdsDispatched == localEuThrdsDispatched && waste < localWSWaste)
        {
          localWSWaste := waste;
          localEuThrdsDispatched := euThrdsDispatched;
          workGroupSize[0], workGroupSize[1] := x, y;
        }
        yi := yi + 1;
      }
      EndRowFlat(r, best, init, limit, cost, xs, ys, zs, 0, max, xi, yi);
    }
    EndPlane(r, best, init, limit, cost, xs, ys, zs, 0, max, 0);
    EndScan(r, best, init, limit, cost, xs, ys, zs, 0, max);
  }

  /** The first loop of the two-dimensional search: the divisors of both counts from 2 up. */
  method CollectFactors(max: nat, workItems: seq<nat>, xFactors: array<nat>, yFactors: array<nat>)
    returns (xFactorsLen: nat, yFactorsLen: nat)
    requires 1 <= max <= 1024 && |workItems| == 3
    requires xFactors.Length == yFactors.Length == 1024 && xFactors != yFactors
    modifies xFactors, yFactors
    ensures xFactorsLen <= 1024 && DivisorList(xFactors[..xFactorsLen], workItems[0], 2, max + 1)
    ensures yFactorsLen <= 1024 && DivisorList(yFactors[..yFactorsLen], workItems[1], 2, max + 1)
  {
    xFactorsLen, yFactorsLen := 0, 0;
    for i := 2 to max + 1
      invariant xFactorsLen <= i - 2 && yFactorsLen <= i - 2
      invariant DivisorList(xFactors[..xFactorsLen], workItems[0], 2, i)
      invariant DivisorList(yFactors[..yFactorsLen], workItems[1], 2, i)
    {
      DivisorListGrows(xFactors[..xFactorsLen], workItems[0], 2, i);
      DivisorListGrows(yFactors[..yFactorsLen], workItems[1], 2, i);
      ghost var xs, ys := xFactors[..xFactorsLen], yFactors[..yFactorsLen];
      if workItems[0] % i == 0 {
        xFactors[xFactorsLen] := i;
        xFactorsLen := xFactorsLen + 1;
        assert xFactors[..xFactorsLen] == xs + [i];
      }
      if workItems[1] % i == 0 {
        yFactors[yFactorsLen] := i;
        yFactorsLen := yFactorsLen + 1;
        assert yFactors[..yFactorsLen] == ys + [i];
      }
    }
  }

  method ComputeWorkgroupSize2D(max: nat, workGroupSize: array<nat>, workItems: seq<nat>, simd: nat)
    requires workGroupSize.Length == 3 && |workItems| == 3
    requires 1 <= max <= 1024  // two buffers of 1024 factors
    requires simd in {8, 16, 32}
    modifies workGroupSize
    ensures workGroupSize[2] == 1
    ensures Choice(SizeIn(workGroupSize), Vec3(1, 1, 1), Cost(NO_COST, NO_COST as real),
                   PackingOf(workItems, simd), DivisorPairs(workItems, max))
  {
    workGroupSize[0], workGroupSize[1], workGroupSize[2] := 1, 1, 1;
    var xFactors, yFactors := new nat[1024], new nat[1024];
    var xFactorsLen, yFactorsLen := CollectFactors(max, workItems, xFactors, yFactors);
    var xs, ys := xFactors[..xFactorsLen], yFactors[..yFactorsLen];
    DivisorListFits(xs, workItems[0], 2, max + 1);
    DivisorListFits(ys, workItems[1], 2, max + 1);
    DivisorPairsAreCandidates(xs, ys, workItems, max);
    SearchPairs(xs, ys, max, workGroupSize, workItems, simd);
  }

  // ----- what the costs mean --------------------------------------------------------------

  function Items(workItems: seq<nat>): nat
    requires |workItems| == 3
  {
    var flat: nat, depth: nat := workItems[0] * workItems[1], workItems[2];
    flat * depth
  }

  /** Counts that leave the 64-bit sums in the number of groups below their limit. */
  predicate ValidCounts(workItems: seq<nat>) {
    |workItems| == 3 && forall i :: 0 <= i < 3 ==> 0 < workItems[i] <= TWO_64 - 1024
  }

  /** Fewer than 2^64 items, so that no counter wraps. */
  predicate Countable(workItems: seq<nat>) {
    ValidCounts(workItems) && Items(workItems) < TWO_64
  }

  /** Work-groups a flat range is cut into. */
  function PlaneGroups(workItems: seq<nat>, s: Vec3): nat
    requires |workItems| == 3
  {
    if s.x == 0 || s.y == 0 then 0 else (workItems[0] / s.x) * (workItems[1] / s.y)
  }

  /** EU threads dispatched for a flat range: those of one group times the groups. */
  function PlaneThreads(workItems: seq<nat>, simd: nat, s: Vec3): nat
    requires |workItems| == 3 && simd > 0
  {
    CeilDiv(s.x * s.y, simd) * PlaneGroups(workItems, s)
  }

  /** Work-groups a range is cut into. */
  function SpaceGroups(workItems: seq<nat>, s: Vec3): nat
    requires |workItems| == 3
  {
    var flat: nat, layers: nat := PlaneGroups(workItems, s), if s.z == 0 then 0 else workItems[2] / s.z;
    flat * layers
  }

  /** EU threads dispatched for a range: those of one group times the groups. */
  function SpaceThreads(workItems: seq<nat>, simd: nat, s: Vec3): nat
    requires |workItems| == 3 && simd > 0
  {
    CeilDiv(s.Volume(), simd) * SpaceGroups(workItems, s)
  }

  lemma GroupsExact(items: nat, d: nat)
    requires Divides(d, items) && items + d <= TWO_64
    ensures GroupsAlong(items, d) == items / d && (items / d) * d == items
  {
    CeilDivExact(items, d);
  }

  lemma CeilDivLe(n: nat, d: nat)
    requires n > 0 && d > 0
    ensures CeilDiv(n, d) <= n
  {
    MulMono(1, n, d);
    assert n + d - 1 < d * (n + 1);
    DivLess(n + d - 1, d, n + 1);
  }

  lemma VolumeProduct(a: nat, b: nat, c: nat, x: nat, y: nat, z: nat)
    ensures ((x * y) * z) * ((a * b) * c) == ((a * x) * (b * y)) * (c * z)
  {
    var ab, xy := a * b, x * y;
    assert (xy * z) * (ab * c) == (xy * ab) * (c * z) by { FourFactors(xy, z, ab, c); }
    assert xy * ab == (a * x) * (b * y) by { FourFactors(x, y, a, b); }
  }

  lemma FourFactors(p: nat, q: nat, r: nat, s: nat)
    ensures (p * q) * (r * s) == (p * r) * (s * q)
    ensures (p * q) * (r * s) == (r * p) * (s * q)
  {
  }

  /**
   * On a range of fewer than 2^64 items the 64-bit counters hold the true number of EU threads:
   * threads per group times groups. It never exceeds the number of items.
   */
  lemma ThreadCostExact(workItems: seq<nat>, simd: nat, s: Vec3)
    requires Countable(workItems) && simd > 0
    requires Divides(s.x, workItems[0]) && Divides(s.y, workItems[1]) && Divides(s.z, workItems[2])
    requires s.x <= 1024 && s.y <= 1024 && s.z <= 1024
    ensures ThreadCost(workItems, simd, s) == SpaceThreads(workItems, simd, s)
    ensures ThreadCost(workItems, simd, s) <= Items(workItems)
  {
    var a, b, c := workItems[0] / s.x, workItems[1] / s.y, workItems[2] / s.z;
    GroupsExact(workItems[0], s.x);
    GroupsExact(workItems[1], s.y);
    GroupsExact(workItems[2], s.z);
    VolumeProduct(a, b, c, s.x, s.y, s.z);
    Positive(s.x, s.y);
    Positive(s.x * s.y, s.z);
    CeilDivLe(s.Volume(), simd);
    CountersFit(a, b, c, CeilDiv(s.Volume(), simd), s.Volume());
  }

  lemma CountersFit(a: nat, b: nat, c: nat, t: nat, v: nat)
    requires 0 < a && 0 < b && 0 < c && t <= v && 0 < v && v * ((a * b) * c) < TWO_64
    ensures Wrap64(Wrap64(a * b) * c) == a * b * c
    ensures Wrap64(t * Wrap64(Wrap64(a * b) * c)) == t * (a * b * c) <= v * (a * b * c)
  {
    Positive(a, b);
    GroupCounters(a * b, c, (a * b) * c, t, v);
  }

  lemma WrapSmall(n: nat)
    requires n < TWO_64
    ensures Wrap64(n) == n
  {
  }

  lemma GroupCounters(p: nat, c: nat, q: nat, t: nat, v: nat)
    requires 0 < p && 0 < c && q == p * c && t <= v && 0 < v && v * q < TWO_64
    ensures Wrap64(Wrap64(p) * c) == q
    ensures Wrap64(t * Wrap64(Wrap64(p) * c)) == t * q <= v * q
  {
    MulMono(1, c, p);
    MulMono(1, v, q);
    MulMono(t, v, q);
    WrapSmall(p);
    WrapSmall(q);
    WrapSmall(t * q);
  }

  lemma Positive(a: nat, b: nat)
    requires a > 0 && b > 0
    ensures a * b > 0
  {
  }

  // ----- the flat search, exactly ---------------------------------------------------------

  lemma PlaneCostExact(workItems: seq<nat>, simd: nat, s: Vec3)
    requires |workItems| == 3 && simd > 0 && s.x <= 1024 && s.y <= 1024
    requires Divides(s.x, workItems[0]) && Divides(s.y, workItems[1])
    requires 0 < workItems[0] <= TWO_64 - 1024 && 0 < workItems[1] <= TWO_64 - 1024
    requires workItems[0] * workItems[1] < TWO_64
    ensures PlaneThreadCost(workItems, simd, s) == PlaneThreads(workItems, simd, s) <= workItems[0] * workItems[1]
    ensures Groups2(workItems, s) == PlaneGroups(workItems, s) > 0
    ensures (s.x * s.y) * PlaneGroups(workItems, s) == workItems[0] * workItems[1]
  {
    var a, b := workItems[0] / s.x, workItems[1] / s.y;
    GroupsExact(workItems[0], s.x);
    GroupsExact(workItems[1], s.y);
    FourFactors(s.x, s.y, a, b);
    Positive(s.x, s.y);
    Positive(a, b);
    CeilDivLe(s.x * s.y, simd);
    CountersFit(a, b, 1, CeilDiv(s.x * s.y, simd), s.x * s.y);
    PlaneGroupsFit(a, b, s.x * s.y);
  }

  lemma PlaneGroupsFit(a: nat, b: nat, v: nat)
    requires v > 0 && v * (a * b) < TWO_64
    ensures Wrap64(a * b) == a * b
  {
    MulMono(1, v, a * b);
  }

  /** One group's idle channels and one more, from its threads. */
  lemma IdleChannels(v: nat, simd: nat)
    requires v > 0 && simd > 0
    ensures simd - (v - 1) % simd == simd * CeilDiv(v, simd) - v + 1 > 0
  {
    var q, r := (v - 1) / simd, (v - 1) % simd;
    assert v + simd - 1 == simd * (q + 1) + r;
    DivModUnique(v + simd - 1, simd, q + 1, r);
  }

  lemma WasteOfGroups(simd: nat, c: nat, v: nat, g: nat)
    requires 0 < simd <= 32 && 0 < v <= simd * c && c * g <= NO_COST
    ensures Wrap64((simd * c - v + 1) * g) == simd * (c * g) - v * g + g
  {
    var t, all := c * g, simd * c;
    assert all * g == simd * t;
    assert (all - v + 1) * g == all * g - v * g + g;
    MulMono(1, v, g);
    MulMono(v, all, g);
    MulMono(simd, 32, t);
    WrapSmall(simd * t - v * g + g);
  }

  /** As long as its threads fit 32 bits, the waste of a pair is what they leave idle, plus its groups. */
  lemma WasteExact(workItems: seq<nat>, simd: nat, s: Vec3, items: nat)
    requires |workItems| == 3 && 0 < simd <= 32 && s.x > 0 && s.y > 0
    requires Groups2(workItems, s) == PlaneGroups(workItems, s) > 0
    requires (s.x * s.y) * PlaneGroups(workItems, s) == items && PlaneThreads(workItems, simd, s) <= NO_COST
    ensures WasteCost(workItems, simd, s) == simd * PlaneThreads(workItems, simd, s) - items + PlaneGroups(workItems, s)
  {
    var v, c, g := s.x * s.y, CeilDiv(s.x * s.y, simd), PlaneGroups(workItems, s);
    Positive(s.x, s.y);
    IdleChannels(v, simd);
    WasteOfGroups(simd, c, v, g);
  }

  /** The pair dispatches the fewest EU threads and, among those that do, the fewest work-groups; no pair, no tiling. */
  ghost predicate FewestPlaneThreads(r: Vec3, workItems: seq<nat>, max: nat, simd: nat)
    requires |workItems| == 3 && simd > 0
  {
    var pairs := DivisorPairs(workItems, max);
    if pairs == {} then r == Vec3(1, 1, 1)
    else r in pairs && forall s :: s in pairs ==>
      PlaneThreads(workItems, simd, r) < PlaneThreads(workItems, simd, s)
      || (PlaneThreads(workItems, simd, r) == PlaneThreads(workItems, simd, s)
        && PlaneGroups(workItems, r) <= PlaneGroups(workItems, s))
  }

  /** A pair costs less than the start values: its threads do, or they are equal and its waste is less. */
  predicate BelowStart(workItems: seq<nat>, simd: nat, s: Vec3)
    requires |workItems| == 3 && simd > 0
  {
    var threads := PlaneThreads(workItems, simd, s);
    threads < 0xffff_ffff || (threads == 0xffff_ffff
      && simd * threads - workItems[0] * workItems[1] + PlaneGroups(workItems, s) < 0xffff_ffff)
  }

  /** The cost of a pair is its exact threads and, as far as a choice can depend on it, its exact waste. */
  lemma PairCost(workItems: seq<nat>, max: nat, simd: nat, s: Vec3)
    requires |workItems| == 3 && max <= 1024 && simd in {8, 16, 32} && 0 < workItems[0] && 0 < workItems[1]
    requires workItems[0] * workItems[1] < TWO_64 && s in DivisorPairs(workItems, max)
    ensures var cost, threads := PackingOf(workItems, simd)(s), PlaneThreads(workItems, simd, s);
      && cost.major == threads <= workItems[0] * workItems[1] <= simd * threads
      && (threads <= NO_COST ==>
            cost.minor == (simd * threads - workItems[0] * workItems[1] + PlaneGroups(workItems, s)) as real)
      && (BelowStart(workItems, simd, s) <==> Less(cost, Cost(NO_COST, NO_COST as real)))
  {
    DividesLe(s.x, workItems[0]);
    DividesLe(s.y, workItems[1]);
    HalfEach(workItems[0], workItems[1]);
    PlaneCostExact(workItems, simd, s);
    ThreadsCover(s.x * s.y, simd, PlaneGroups(workItems, s));
    if PlaneThreads(workItems, simd, s) <= NO_COST {
      WasteExact(workItems, simd, s, workItems[0] * workItems[1]);
    }
  }

  lemma HalfEach(a: nat, b: nat)
    requires 2 <= a && 2 <= b && a * b < TWO_64
    ensures a <= TWO_64 - 1024 && b <= TWO_64 - 1024
  {
    MulMono(2, b, a);
    MulMono(2, a, b);
  }

  lemma ThreadsCover(v: nat, simd: nat, g: nat)
    requires simd > 0
    ensures v * g <= simd * (CeilDiv(v, simd) * g)
  {
    var c := CeilDiv(v, simd);
    MulMono(v, simd * c, g);
    assert simd * c * g == simd * (c * g);
  }

  /**
   * The two-dimensional search finds the fewest EU threads, and the fewest work-groups with them,
   * exactly if there is no pair of divisors at all or one that costs less than the start values.
   */
  lemma TwoDimIsLeastIff(r: Vec3, workItems: seq<nat>, max: nat, simd: nat)
    requires |workItems| == 3 && max <= 1024 && simd in {8, 16, 32} && 0 < workItems[0] && 0 < workItems[1]
    requires workItems[0] * workItems[1] < TWO_64
    requires Choice(r, Vec3(1, 1, 1), Cost(NO_COST, NO_COST as real), PackingOf(workItems, simd),
      DivisorPairs(workItems, max))
    ensures FewestPlaneThreads(r, workItems, max, simd) <==>
      DivisorPairs(workItems, max) == {}
      || exists s :: s in DivisorPairs(workItems, max) && BelowStart(workItems, simd, s)
  {
    var pairs, limit := DivisorPairs(workItems, max), Cost(NO_COST, NO_COST as real);
    forall s | s in pairs ensures BelowStart(workItems, simd, s) <==> Less(PackingOf(workItems, simd)(s), limit) {
      PairCost(workItems, max, simd, s);
    }
    ChoiceIsLeast(r, Vec3(1, 1, 1), limit, PackingOf(workItems, simd), pairs);
    if r in pairs {
      PairCost(workItems, max, simd, r);
      forall s | s in pairs ensures PlaneThreads(workItems, simd, r) < PlaneThreads(workItems, simd, s)
        || (PlaneThreads(workItems, simd, r) == PlaneThreads(workItems, simd, s)
          && PlaneGroups(workItems, r) <= PlaneGroups(workItems, s))
      {
        PairCost(workItems, max, simd, s);
      }
    }
  }

  /** In items: below 2^32 - 1 of them the search succeeds, and from 2^32 full EU threads on it leaves 1 x 1. */
  lemma TwoDimByItems(r: Vec3, workItems: seq<nat>, max: nat, simd: nat)
    requires |workItems| == 3 && max <= 1024 && simd in {8, 16, 32} && 0 < workItems[0] && 0 < workItems[1]
    requires workItems[0] * workItems[1] < TWO_64
    requires Choice(r, Vec3(1, 1, 1), Cost(NO_COST, NO_COST as real), PackingOf(workItems, simd),
      DivisorPairs(workItems, max))
    ensures workItems[0] * workItems[1] < 0xffff_ffff ==> FewestPlaneThreads(r, workItems, max, simd)
    ensures workItems[0] * workItems[1] >= simd * TWO_32 ==> r == Vec3(1, 1, 1)
  {
    var pairs, limit := DivisorPairs(workItems, max), Cost(NO_COST, NO_COST as real);
    forall s | s in pairs ensures PairByItems(workItems, simd, s, workItems[0] * workItems[1]) {
      PairCost(workItems, max, simd, s);
    }
    TwoDimIsLeastIff(r, workItems, max, simd);
    ChoiceIsLeast(r, Vec3(1, 1, 1), limit, PackingOf(workItems, simd), pairs);
  }

  ghost predicate PairByItems(workItems: seq<nat>, simd: nat, s: Vec3, items: nat)
    requires |workItems| == 3 && simd > 0
  {
    (items < NO_COST ==> BelowStart(workItems, simd, s)) &&
    (items >= simd * TWO_32 ==> !Less(PackingOf(workItems, simd)(s), Cost(NO_COST, NO_COST as real)))
  }

  const LARGE_PLANE: seq<nat> := [0x10_0000, 0x10_0000, 1]

  /** On 2^20 x 2^20 items the search leaves 1 x 1, although 2 x 2 is a pair and takes fewer threads. */
  lemma LargePlaneUntiled(r: Vec3)
    requires Choice(r, Vec3(1, 1, 1), Cost(NO_COST, NO_COST as real), PackingOf(LARGE_PLANE, 8), DivisorPairs(LARGE_PLANE, 256))
    ensures r == Vec3(1, 1, 1) && !FewestPlaneThreads(r, LARGE_PLANE, 256, 8)
    ensures Vec3(2, 2, 1) in DivisorPairs(LARGE_PLANE, 256)
    ensures PlaneThreads(LARGE_PLANE, 8, Vec3(2, 2, 1)) < PlaneThreads(LARGE_PLANE, 8, r)
  {
    TwoDimByItems(r, LARGE_PLANE, 256, 8);
    assert Vec3(2, 2, 1) in DivisorPairs(LARGE_PLANE, 256);
  }

  // ----- the search over three lists, exactly ---------------------------------------------

  /** The size dispatches the fewest EU threads of all candidates; no candidate, no tiling. */
  ghost predicate FewestThreads(r: Vec3, workItems: seq<nat>, simd: nat, candidates: set<Vec3>)
    requires |workItems| == 3 && simd > 0
  {
    if candidates == {} then r == Vec3(1, 1, 1)
    else
      r in candidates && forall s :: s in candidates ==>
        SpaceThreads(workItems, simd, r) <= SpaceThreads(workItems, simd, s)
  }

  ghost predicate DivisorsOf(s: seq<nat>, items: nat) {
    forall d :: d in s ==> Divides(d, items) && d <= 1024
  }

  /** The size divides the range and is made of factors that fit the buffers. */
  predicate DividesRange(s: Vec3, workItems: seq<nat>)
    requires |workItems| == 3
  {
    Divides(s.x, workItems[0]) && Divides(s.y, workItems[1]) && Divides(s.z, workItems[2])
      && s.x <= 1024 && s.y <= 1024 && s.z <= 1024
  }

  /** Only the trivial size needs a thread for each item; every other one needs fewer. */
  lemma SpaceBounds(workItems: seq<nat>, simd: nat, s: Vec3)
    requires ValidCounts(workItems) && simd in {8, 16, 32} && DividesRange(s, workItems)
    ensures SpaceThreads(workItems, simd, s) <= Items(workItems) <= simd * SpaceThreads(workItems, simd, s)
    ensures SpaceThreads(workItems, simd, s) == Items(workItems) <==> s == Vec3(1, 1, 1)
  {
    GroupsCover(workItems, s);
    VolumeOne(s);
    CeilDivLe(s.Volume(), simd);
    MulMono(CeilDiv(s.Volume(), simd), s.Volume(), SpaceGroups(workItems, s));
    ThreadsCover(s.Volume(), simd, SpaceGroups(workItems, s));
    FewerThreads(s.Volume(), simd, SpaceGroups(workItems, s));
  }

  lemma SpaceCost(workItems: seq<nat>, simd: nat, s: Vec3)
    requires Countable(workItems) && simd in {8, 16, 32} && DividesRange(s, workItems)
    ensures ThreadCost(workItems, simd, s) == SpaceThreads(workItems, simd, s)
  {
    ThreadCostExact(workItems, simd, s);
  }

  lemma GroupsCover(workItems: seq<nat>, s: Vec3)
    requires ValidCounts(workItems)
    requires Divides(s.x, workItems[0]) && Divides(s.y, workItems[1]) && Divides(s.z, workItems[2])
    ensures s.Volume() * SpaceGroups(workItems, s) == Items(workItems)
    ensures SpaceGroups(workItems, s) > 0
  {
    var a, b, c := workItems[0] / s.x, workItems[1] / s.y, workItems[2] / s.z;
    assert workItems[0] == a * s.x && workItems[1] == b * s.y && workItems[2] == c * s.z;
    VolumeProduct(a, b, c, s.x, s.y, s.z);
    Positive(a, b);
    Positive(a * b, c);
  }

  lemma VolumeOne(s: Vec3)
    requires s.x > 0 && s.y > 0 && s.z > 0
    ensures s.Volume() > 0 && (s.Volume() == 1 <==> s == Vec3(1, 1, 1))
  {
    EachBelowProduct(s.x, s.y, s.z);
  }

  lemma FewerThreads(v: nat, simd: nat, g: nat)
    requires v > 0 && simd >= 8 && g > 0
    ensures CeilDiv(v, simd) * g == v * g <==> v == 1
  {
    if v == 1 {
      DivModUnique(simd, simd, 1, 0);
    } else {
      CeilDivLess(v, simd);
      MulMono(CeilDiv(v, simd) + 1, v, g);
    }
  }

  lemma CeilDivLess(v: nat, simd: nat)
    requires v >= 2 && simd >= 8
    ensures CeilDiv(v, simd) < v
  {
    MulMono(2, v, simd - 1);
    assert simd * v == (simd - 1) * v + v;
    DivLess(v + simd - 1, simd, v);
  }

  /**
   * The search over three lists of divisors finds the fewest EU threads exactly if there is nothing
   * but the trivial size to choose from, or a size that takes fewer than 2^32 - 1 threads.
   */
  lemma ThreeDimIsLeastIff(r: Vec3, xs: seq<nat>, ys: seq<nat>, zs: seq<nat>, lo: nat, hi: nat, workItems: seq<nat>,
      simd: nat)
    requires Countable(workItems) && simd in {8, 16, 32}
    requires DivisorsOf(xs, workItems[0]) && DivisorsOf(ys, workItems[1]) && DivisorsOf(zs, workItems[2])
    requires Choice(r, Vec3(1, 1, 1), Cost(NO_COST, 0.0), ThreadsOf(workItems, simd), Candidates(xs, ys, zs, lo, hi))
    ensures FewestThreads(r, workItems, simd, Candidates(xs, ys, zs, lo, hi)) <==>
      Candidates(xs, ys, zs, lo, hi) <= {Vec3(1, 1, 1)}
      || exists s :: s in Candidates(xs, ys, zs, lo, hi) && SpaceThreads(workItems, simd, s) < 0xffff_ffff
  {
    var all := Candidates(xs, ys, zs, lo, hi);
    forall s | s in all
      ensures ThreadCost(workItems, simd, s) == SpaceThreads(workItems, simd, s)
      ensures s == Vec3(1, 1, 1) || (Vec3(1, 1, 1) in all ==>
        SpaceThreads(workItems, simd, s) < SpaceThreads(workItems, simd, Vec3(1, 1, 1)))
    {
      SpaceCost(workItems, simd, s);
      SpaceBounds(workItems, simd, s);
      if Vec3(1, 1, 1) in all { SpaceBounds(workItems, simd, Vec3(1, 1, 1)); }
    }
    ChoiceIsLeast(r, Vec3(1, 1, 1), Cost(NO_COST, 0.0), ThreadsOf(workItems, simd), all);
  }

  /** In items: below 2^32 - 1 of them the search succeeds, and from 2^32 full EU threads on it changes nothing. */
  lemma ThreeDimByItems(r: Vec3, xs: seq<nat>, ys: seq<nat>, zs: seq<nat>, lo: nat, hi: nat, workItems: seq<nat>,
      simd: nat)
    requires Countable(workItems) && simd in {8, 16, 32}
    requires DivisorsOf(xs, workItems[0]) && DivisorsOf(ys, workItems[1]) && DivisorsOf(zs, workItems[2])
    requires Choice(r, Vec3(1, 1, 1), Cost(NO_COST, 0.0), ThreadsOf(workItems, simd), Candidates(xs, ys, zs, lo, hi))
    ensures Items(workItems) < 0xffff_ffff ==>
      FewestThreads(r, workItems, simd, Candidates(xs, ys, zs, lo, hi))
    ensures Items(workItems) >= simd * TWO_32 ==> r == Vec3(1, 1, 1)
  {
    var all, items := Candidates(xs, ys, zs, lo, hi), Items(workItems);
    forall s | s in all
      ensures ThreadCost(workItems, simd, s) == SpaceThreads(workItems, simd, s) <= items
      ensures items >= simd * TWO_32 ==> SpaceThreads(workItems, simd, s) >= TWO_32
    {
      SpaceCost(workItems, simd, s);
      SpaceBounds(workItems, simd, s);
    }
    ThreeDimIsLeastIff(r, xs, ys, zs, lo, hi, workItems, simd);
    ChoiceIsLeast(r, Vec3(1, 1, 1), Cost(NO_COST, 0.0), ThreadsOf(workItems, simd), all);
  }

  // ----- ranges of 2^64 items and more ----------------------------------------------------

  lemma WrapTimes(x: nat, y: nat)
    ensures Wrap64(x * Wrap64(y)) == Wrap64(x * y)
  {
    var q, r := y / TWO_64, y % TWO_64;
    var p, u := x * r / TWO_64, x * r % TWO_64;
    assert x * y == TWO_64 * (x * q) + x * r;
    assert x * y == TWO_64 * (x * q + p) + u;
    DivModUnique(x * y, TWO_64, x * q + p, u);
  }

  /** For any range the counter holds the number of EU threads modulo 2^64. */
  lemma ThreadCostWraps(workItems: seq<nat>, simd: nat, s: Vec3)
    requires ValidCounts(workItems) && simd > 0 && DividesRange(s, workItems)
    ensures ThreadCost(workItems, simd, s) == Wrap64(SpaceThreads(workItems, simd, s))
  {
    var a, b, c := workItems[0] / s.x, workItems[1] / s.y, workItems[2] / s.z;
    GroupsExact(workItems[0], s.x);
    GroupsExact(workItems[1], s.y);
    GroupsExact(workItems[2], s.z);
    CountersWrap(a, b, c, CeilDiv(s.Volume(), simd));
  }

  lemma CountersWrap(a: nat, b: nat, c: nat, t: nat)
    ensures Wrap64(t * Wrap64(Wrap64(a * b) * c)) == Wrap64(t * ((a * b) * c))
  {
    var ab := a * b;
    WrapTimes(c, ab);
    assert Wrap64(ab) * c == c * Wrap64(ab) && ab * c == c * ab;
    WrapTimes(t, ab * c);
  }

  /** The candidate the counters make look best: the first in scan order of least remainder, if that is below the start. */
  ghost predicate BestOnCounters(s: Vec3, workItems: seq<nat>, simd: nat, candidates: set<Vec3>)
    requires |workItems| == 3 && simd > 0
  {
    s in candidates && SpaceThreads(workItems, simd, s) % 0x1_0000_0000_0000_0000 < 0xffff_ffff &&
    forall t :: t in candidates && t != s ==>
      Wrap64(SpaceThreads(workItems, simd, s)) < Wrap64(SpaceThreads(workItems, simd, t))
      || (Wrap64(SpaceThreads(workItems, simd, s)) == Wrap64(SpaceThreads(workItems, simd, t)) && Earlier(s, t))
  }

  lemma ChoiceOnCounters(r: Vec3, xs: seq<nat>, ys: seq<nat>, zs: seq<nat>, lo: nat, hi: nat, workItems: seq<nat>,
      simd: nat)
    requires ValidCounts(workItems) && simd in {8, 16, 32}
    requires DivisorsOf(xs, workItems[0]) && DivisorsOf(ys, workItems[1]) && DivisorsOf(zs, workItems[2])
    requires Choice(r, Vec3(1, 1, 1), Cost(NO_COST, 0.0), ThreadsOf(workItems, simd), Candidates(xs, ys, zs, lo, hi))
    ensures var all := Candidates(xs, ys, zs, lo, hi);
      if exists s :: s in all && Wrap64(SpaceThreads(workItems, simd, s)) < NO_COST
      then BestOnCounters(r, workItems, simd, all) else r == Vec3(1, 1, 1)
  {
    var all, cost := Candidates(xs, ys, zs, lo, hi), ThreadsOf(workItems, simd);
    forall s | s in all ensures cost(s) == Cost(Wrap64(SpaceThreads(workItems, simd, s)), 0.0) {
      ThreadCostWraps(workItems, simd, s);
    }
    var best :| FirstLeast(r, best, Vec3(1, 1, 1), Cost(NO_COST, 0.0), cost, all);
    if s :| s in all && Wrap64(SpaceThreads(workItems, simd, s)) < NO_COST {
      assert !Less(cost(s), best);
      assert r in all && best == cost(r);
      forall t | t in all && t != r
        ensures Wrap64(SpaceThreads(workItems, simd, r)) < Wrap64(SpaceThreads(workItems, simd, t))
          || (Wrap64(SpaceThreads(workItems, simd, r)) == Wrap64(SpaceThreads(workItems, simd, t)) && Earlier(r, t))
      {
        assert !Less(cost(t), best);
      }
    }
  }

  /**
   * Whatever the number of items, the search finds the fewest EU threads exactly if there is nothing
   * but the trivial size to choose from, or what looks best on the counters does take the fewest.
   */
  lemma ThreeDimOnCountersIff(r: Vec3, xs: seq<nat>, ys: seq<nat>, zs: seq<nat>, lo: nat, hi: nat, workItems: seq<nat>,
      simd: nat)
    requires ValidCounts(workItems) && simd in {8, 16, 32}
    requires DivisorsOf(xs, workItems[0]) && DivisorsOf(ys, workItems[1]) && DivisorsOf(zs, workItems[2])
    requires Choice(r, Vec3(1, 1, 1), Cost(NO_COST, 0.0), ThreadsOf(workItems, simd), Candidates(xs, ys, zs, lo, hi))
    ensures var all := Candidates(xs, ys, zs, lo, hi);
      FewestThreads(r, workItems, simd, all) <==>
        (all <= {Vec3(1, 1, 1)} || exists s :: BestOnCounters(s, workItems, simd, all) && FewestThreads(s, workItems, simd, all))
  {
    var all, init := Candidates(xs, ys, zs, lo, hi), Vec3(1, 1, 1);
    ChoiceOnCounters(r, xs, ys, zs, lo, hi, workItems, simd);
    forall s | s in all ensures DividesRange(s, workItems) {}
    TrivialIsFewestIff(workItems, simd, all);
    if r != init || BestOnCounters(r, workItems, simd, all) {
      forall s | BestOnCounters(s, workItems, simd, all) ensures s == r {
        BestIsOne(r, s, workItems, simd, all);
      }
    }
  }

  lemma BestIsOne(r: Vec3, s: Vec3, workItems: seq<nat>, simd: nat, all: set<Vec3>)
    requires |workItems| == 3 && simd > 0
    requires BestOnCounters(r, workItems, simd, all) && BestOnCounters(s, workItems, simd, all)
    ensures r == s
  {
  }

  lemma TrivialIsFewestIff(workItems: seq<nat>, simd: nat, all: set<Vec3>)
    requires ValidCounts(workItems) && simd in {8, 16, 32} && forall s :: s in all ==> DividesRange(s, workItems)
    ensures FewestThreads(Vec3(1, 1, 1), workItems, simd, all) <==> all <= {Vec3(1, 1, 1)}
  {
    TrivialDivides(workItems);
    SpaceBounds(workItems, simd, Vec3(1, 1, 1));
    forall s | s in all && s != Vec3(1, 1, 1)
      ensures SpaceThreads(workItems, simd, s) < SpaceThreads(workItems, simd, Vec3(1, 1, 1))
    {
      SpaceBounds(workItems, simd, s);
    }
  }

  /** From 2^64 items on the search never finds the fewest threads if some candidate takes fewer than 2^64. */
  lemma BeyondCounters(r: Vec3, xs: seq<nat>, ys: seq<nat>, zs: seq<nat>, lo: nat, hi: nat, workItems: seq<nat>,
      simd: nat, t: Vec3)
    requires ValidCounts(workItems) && simd in {8, 16, 32} && Items(workItems) >= TWO_64
    requires DivisorsOf(xs, workItems[0]) && DivisorsOf(ys, workItems[1]) && DivisorsOf(zs, workItems[2])
    requires Choice(r, Vec3(1, 1, 1), Cost(NO_COST, 0.0), ThreadsOf(workItems, simd), Candidates(xs, ys, zs, lo, hi))
    requires t in Candidates(xs, ys, zs, lo, hi) && SpaceThreads(workItems, simd, t) < TWO_64
    ensures SpaceThreads(workItems, simd, t) < TWO_64 <= SpaceThreads(workItems, simd, r)
    ensures !FewestThreads(r, workItems, simd, Candidates(xs, ys, zs, lo, hi))
  {
    ChoiceOnCounters(r, xs, ys, zs, lo, hi, workItems, simd);
    TrivialDivides(workItems);
    SpaceBounds(workItems, simd, r);
    LowCounterWrapped(SpaceThreads(workItems, simd, r), Items(workItems), simd);
  }

  lemma LowCounterWrapped(threads: nat, items: nat, simd: nat)
    requires items <= simd * threads && simd <= 32 && items >= TWO_64
    ensures threads < TWO_64 ==> Wrap64(threads) > NO_COST
  {
    MulMono(simd, 32, threads);
  }

  lemma TrivialDivides(workItems: seq<nat>)
    requires |workItems| == 3
    ensures DividesRange(Vec3(1, 1, 1), workItems)
  {
    assert workItems[0] % 1 == 0 && workItems[1] % 1 == 0 && workItems[2] % 1 == 0;
  }

  lemma EachBelowProduct(a: nat, b: nat, c: nat)
    requires 0 < a && 0 < b && 0 < c
    ensures a <= a * b * c && b <= a * b * c && c <= a * b * c
  {
    MulMono(1, b, a);
    MulMono(1, a, b);
    Positive(a, b);
    MulMono(1, c, a * b);
    MulMono(1, a * b, c);
  }

  /**
   * A search picks a least candidate if any costs less than the limit, and otherwise leaves the
   * initial size.
   */
  lemma ChoiceIsLeast(r: Vec3, init: Vec3, limit: Cost, cost: Vec3 -> Cost, candidates: set<Vec3>)
    requires Choice(r, init, limit, cost, candidates)
    ensures if exists s :: s in candidates && Less(cost(s), limit)
      then r in candidates && Less(cost(r), limit) && forall s :: s in candidates ==> !Less(cost(s), cost(r))
      else r == init
  {
  }

  // ----- the ratio search -----------------------------------------------------------------

  function Distance(a: real, b: real): real { if a < b then b - a else a - b }

  lemma CandidateIff(xs: seq<nat>, ys: seq<nat>, zs: seq<nat>, lo: nat, hi: nat, s: Vec3)
    ensures s in Candidates(xs, ys, zs, lo, hi) <==> s.x in xs && s.y in ys && s.z in zs && lo <= s.x * s.y * s.z <= hi
  {
  }

  /** With a strict ratio the search stores a candidate whose aspect is closest to the target. */
  lemma StrictRatioIsLeast(r: Vec3, init: Vec3, workItems: seq<nat>, log: nat -> real, target: real, candidates: set<Vec3>, s: Vec3)
    requires |workItems| == 3 && s in candidates && Distance(target, log(s.x) - log(s.y)) < 4294967296.0
    requires Choice(r, init, RatioLimit(true), RatioCostOf(workItems, log, target, true), candidates)
    ensures r in candidates && Distance(target, log(r.x) - log(r.y)) <= Distance(target, log(s.x) - log(s.y))
  {
    var cost := RatioCostOf(workItems, log, target, true);
    assert Less(cost(s), RatioLimit(true));
    ChoiceIsLeast(r, init, RatioLimit(true), cost, candidates);
  }

  /** Without, one of fewest groups and, among those, of closest aspect. */
  lemma LooseRatioIsLeast(r: Vec3, init: Vec3, workItems: seq<nat>, log: nat -> real, target: real, candidates: set<Vec3>, s: Vec3)
    requires |workItems| == 3 && s in candidates && ValidCounts(workItems) && workItems[0] * workItems[1] < NO_COST
    requires forall c :: c in candidates ==> c.x <= 1024 && c.y <= 1024 && Divides(c.x, workItems[0]) && Divides(c.y, workItems[1])
    requires Choice(r, init, RatioLimit(false), RatioCostOf(workItems, log, target, false), candidates)
    ensures r in candidates && PlaneGroups(workItems, r) <= PlaneGroups(workItems, s)
    ensures PlaneGroups(workItems, r) == PlaneGroups(workItems, s) ==>
      Distance(target, log(r.x) - log(r.y)) <= Distance(target, log(s.x) - log(s.y))
  {
    var cost := RatioCostOf(workItems, log, target, false);
    forall c | c in candidates
      ensures Groups2(workItems, c) == PlaneGroups(workItems, c) <= workItems[0] * workItems[1]
    {
      PlaneCostExact(workItems, 8, c);
      Positive(c.x, c.y);
      MulMono(1, c.x * c.y, PlaneGroups(workItems, c));
    }
    assert Less(cost(s), RatioLimit(false));
    ChoiceIsLeast(r, init, RatioLimit(false), cost, candidates);
  }
}
