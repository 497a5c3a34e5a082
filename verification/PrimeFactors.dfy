/** The one-dimensional work-group size: greedy growth of a divisor along a table of primes. */
module PrimeFactors {
  import opened Arithmetic

  const MAX_PRIMES: nat := 54

  /** The table of primes, largest first; the growth starts at its end. */
  function PrimeNumber(i: nat): (p: nat)
    requires i < MAX_PRIMES
    ensures 2 <= p <= 251
  {
    match i
    case 0 => 251 case 1 => 241 case 2 => 239 case 3 => 233 case 4 => 229 case 5 => 227 case 6 => 223 case 7 => 211
    case 8 => 199 case 9 => 197 case 10 => 193 case 11 => 191 case 12 => 181 case 13 => 179 case 14 => 173 case 15 => 167
    case 16 => 163 case 17 => 157 case 18 => 151 case 19 => 149 case 20 => 139 case 21 => 137 case 22 => 131 case 23 => 127
    case 24 => 113 case 25 => 109 case 26 => 107 case 27 => 103 case 28 => 101 case 29 => 97 case 30 => 89 case 31 => 83
    case 32 => 79 case 33 => 73 case 34 => 71 case 35 => 67 case 36 => 61 case 37 => 59 case 38 => 53 case 39 => 47
    case 40 => 43 case 41 => 41 case 42 => 37 case 43 => 31 case 44 => 29 case 45 => 23 case 46 => 19 case 47 => 17
    case 48 => 13 case 49 => 11 case 50 => 7 case 51 => 5 case 52 => 3 case 53 => 2
  }

  lemma TableDescends(i: nat)
    requires 0 < i < MAX_PRIMES
    ensures PrimeNumber(i) < PrimeNumber(i - 1)
  {
  }

  /** No table entry up to 13 divides k. */
  predicate Sieved(k: nat) {
    k % 2 != 0 && k % 3 != 0 && k % 5 != 0 && k % 7 != 0 && k % 11 != 0 && k % 13 != 0
  }

  lemma SievedTo47(k: nat)
    requires 2 <= k < 48 && Sieved(k)
    ensures k in {17, 19, 23, 29, 31, 37, 41, 43, 47}
  {
  }

  lemma SievedTo67(k: nat)
    requires 48 <= k < 69 && Sieved(k)
    ensures k in {53, 59, 61, 67}
  {
  }

  lemma SievedTo89(k: nat)
    requires 69 <= k < 90 && Sieved(k)
    ensures k in {71, 73, 79, 83, 89}
  {
  }

  lemma SievedTo109(k: nat)
    requires 90 <= k < 111 && Sieved(k)
    ensures k in {97, 101, 103, 107, 109}
  {
  }

  lemma SievedTo131(k: nat)
    requires 111 <= k < 132 && Sieved(k)
    ensures k in {113, 127, 131}
  {
  }

  lemma SievedTo149(k: nat)
    requires 132 <= k < 151 && Sieved(k)
    ensures k in {137, 139, 149}
  {
  }

  lemma SievedTo167(k: nat)
    requires 151 <= k < 170 && Sieved(k)
    ensures k in {151, 157, 163, 167}
  {
  }

  lemma SievedTo191(k: nat)
    requires 170 <= k < 192 && Sieved(k)
    ensures k in {173, 179, 181, 191}
  {
  }

  lemma SievedTo211(k: nat)
    requires 192 <= k < 212 && Sieved(k)
    ensures k in {193, 197, 199, 211}
  {
  }

  lemma SievedTo233(k: nat)
    requires 212 <= k < 234 && Sieved(k)
    ensures k in {223, 227, 229, 233}
  {
  }

  lemma SievedTo251(k: nat)
    requires 234 <= k < 257 && Sieved(k)
    ensures k in {239, 241, 251}
  {
  }

  function IndexOf(k: nat): (i: nat)
    ensures i < MAX_PRIMES ==> PrimeNumber(i) == k
  {
    match k
    case 251 => 0 case 241 => 1 case 239 => 2 case 233 => 3 case 229 => 4 case 227 => 5 case 223 => 6
    case 211 => 7 case 199 => 8 case 197 => 9 case 193 => 10 case 191 => 11 case 181 => 12 case 179 => 13
    case 173 => 14 case 167 => 15 case 163 => 16 case 157 => 17 case 151 => 18 case 149 => 19 case 139 => 20
    case 137 => 21 case 131 => 22 case 127 => 23 case 113 => 24 case 109 => 25 case 107 => 26 case 103 => 27
    case 101 => 28 case 97 => 29 case 89 => 30 case 83 => 31 case 79 => 32 case 73 => 33 case 71 => 34
    case 67 => 35 case 61 => 36 case 59 => 37 case 53 => 38 case 47 => 39 case 43 => 40 case 41 => 41
    case 37 => 42 case 31 => 43 case 29 => 44 case 23 => 45 case 19 => 46 case 17 => 47
    case _ => MAX_PRIMES
  }

  /** The table is complete below 257: every such number has a table entry among its divisors. */
  lemma TableCovers(k: nat) returns (i: nat)
    requires 2 <= k <= 256
    ensures i < MAX_PRIMES && Divides(PrimeNumber(i), k)
  {
    if Sieved(k) {
      if k < 48 { SievedTo47(k); } else if k < 69 { SievedTo67(k); } else if k < 90 { SievedTo89(k); } else
      if k < 111 { SievedTo109(k); } else if k < 132 { SievedTo131(k); } else
      if k < 151 { SievedTo149(k); } else if k < 170 { SievedTo167(k); } else
      if k < 192 { SievedTo191(k); } else if k < 212 { SievedTo211(k); } else
      if k < 234 { SievedTo233(k); } else { SievedTo251(k); }
      i := IndexOf(k);
      assert k % k == 0;
    } else {
      i := if k % 2 == 0 then 53 else if k % 3 == 0 then 52 else if k % 5 == 0 then 51
           else if k % 7 == 0 then 50 else if k % 11 == 0 then 49 else 48;
    }
  }

  // ----- the greedy growth ----------------------------------------------------------------

  /** Multiply workSize by p as long as the product stays within max and divides the items. */
  function Saturate(p: nat, workSize: nat, items: nat, max: nat): (r: nat)
    requires p >= 2 && workSize >= 1
    ensures r >= workSize
    decreases max - workSize
  {
    MulMono(2, p, workSize);
    if workSize * p <= max && items % (workSize * p) == 0 then Saturate(p, workSize * p, items, max)
    else workSize
  }

  /** The growth over table entries i, i-1, ..., 0, ended early by an entry too large for the items. */
  function FactorFrom(i: nat, workSize: nat, items: nat, max: nat): nat
    requires i < MAX_PRIMES && workSize >= 1
  {
    if workSize * PrimeNumber(i) > items then workSize
    else
      var grown := Saturate(PrimeNumber(i), workSize, items, max);
      if i == 0 then grown else FactorFrom(i - 1, grown, items, max)
  }

  /** The recursion over the table; the inner loop tries one prime as often as it fits. */
  method Factor(i: nat, items: nat, workSize: nat, max: nat) returns (r: nat)
    requires i < MAX_PRIMES && 1 <= workSize <= max
    requires max * 251 < TWO_32  // the candidate size is a 32-bit product
    ensures r == FactorFrom(i, workSize, items, max)
  {
    var p := PrimeNumber(i);
    r := workSize;
    var newWorkSize := r * p;
    if newWorkSize <= items {
      MulMono(1, r, p);
      while newWorkSize <= max && items % newWorkSize == 0
        invariant 1 <= r <= max && newWorkSize == r * p && newWorkSize > 0
        invariant Saturate(p, r, items, max) == Saturate(p, workSize, items, max)
        decreases max - r
      {
        MulMono(2, p, r);
        r := newWorkSize;
        newWorkSize := r * p;
        MulMono(1, r, p);
      }
      MulMono(r, max, p);
      MulMono(p, 251, max);
      assert newWorkSize < TWO_32;
      if i > 0 {
        r := Factor(i - 1, items, r, max);
      }
    }
  }

  /** The prime p cannot extend r any further. */
  predicate Full(p: nat, r: nat, items: nat, max: nat) {
    r * p > max || !Divides(r * p, items)
  }

  lemma {:induction false} SaturateFills(p: nat, workSize: nat, items: nat, max: nat)
    requires p >= 2 && workSize <= max && Divides(workSize, items)
    ensures var r := Saturate(p, workSize, items, max);
            Divides(workSize, r) && Divides(r, items) && r <= max && Full(p, r, items, max)
    decreases max - workSize
  {
    if workSize * p <= max && items % (workSize * p) == 0 {
      MulMono(2, p, workSize);
      SaturateFills(p, workSize * p, items, max);
      DividesIntro(workSize, workSize * p, p);
      DividesTrans(workSize, workSize * p, Saturate(p, workSize, items, max));
    } else {
      DividesIntro(workSize, workSize, 1);
    }
  }

  lemma FullStays(p: nat, r: nat, s: nat, items: nat, max: nat)
    requires Full(p, r, items, max) && Divides(r, s) && s > 0 && p > 0
    ensures Full(p, s, items, max)
  {
    var k := DividesElim(r, s);
    MulMono(1, k, r * p);
    assert s * p == (r * p) * k;
    if Divides(s * p, items) {
      FactorDivides(r * p, k, items);
    }
  }

  ghost predicate FullTo(i: nat, r: nat, items: nat, max: nat)
    requires i < MAX_PRIMES
  {
    forall j :: 0 <= j <= i ==> Full(PrimeNumber(j), r, items, max)
  }

  lemma FullToStep(i: nat, r: nat, items: nat, max: nat)
    requires 0 < i < MAX_PRIMES && Full(PrimeNumber(i), r, items, max) && FullTo(i - 1, r, items, max)
    ensures FullTo(i, r, items, max)
  {
    forall j | 0 <= j <= i ensures Full(PrimeNumber(j), r, items, max) {
      if j < i { assert Full(PrimeNumber(j), r, items, max); }
    }
  }

  lemma {:induction false} TooLargeForItems(i: nat, r: nat, items: nat, max: nat)
    requires i < MAX_PRIMES && r * PrimeNumber(i) > items > 0
    ensures FullTo(i, r, items, max)
  {
    var p := PrimeNumber(i);
    if Divides(r * p, items) { DividesLe(r * p, items); }
    if i > 0 {
      TableDescends(i);
      MulMono(p, PrimeNumber(i - 1), r);
      TooLargeForItems(i - 1, r, items, max);
      FullToStep(i, r, items, max);
    }
  }

  /** Growing a size by one saturated step and then by s leaves the step's prime exhausted. */
  lemma GrowthChains(p: nat, workSize: nat, s: nat, items: nat, max: nat)
    requires p >= 2 && workSize <= max && Divides(workSize, items) && items > 0
    requires Divides(Saturate(p, workSize, items, max), s) && Divides(s, items)
    ensures Divides(workSize, s) && Full(p, s, items, max)
  {
    var grown := Saturate(p, workSize, items, max);
    SaturateFills(p, workSize, items, max);
    DividesTrans(workSize, grown, s);
    DividesLe(s, items);
    FullStays(p, grown, s, items, max);
  }

  /** Greedy invariant: the result is a divisor within max that no entry up to i can extend. */
  lemma {:induction false} FactorFromFills(i: nat, workSize: nat, items: nat, max: nat)
    requires i < MAX_PRIMES && workSize <= max && Divides(workSize, items) && items > 0
    ensures var r := FactorFrom(i, workSize, items, max);
            Divides(workSize, r) && Divides(r, items) && r <= max && FullTo(i, r, items, max)
  {
    var p := PrimeNumber(i);
    if workSize * p > items {
      DividesIntro(workSize, workSize, 1);
      TooLargeForItems(i, workSize, items, max);
    } else {
      SaturateFills(p, workSize, items, max);
      if i > 0 {
        var grown := Saturate(p, workSize, items, max);
        FactorFromFills(i - 1, grown, items, max);
        var r := FactorFrom(i - 1, grown, items, max);
        GrowthChains(p, workSize, r, items, max);
        FullToStep(i, r, items, max);
      }
    }
  }

  // ----- the power-of-two start -----------------------------------------------------------

  /** Two to the index of the lowest set bit; the bit search answers index 0 for the value 0. */
  function LowestSetBit(n: nat): (b: nat)
    ensures b >= 1
  {
    if n == 0 || n % 2 == 1 then 1 else 2 * LowestSetBit(n / 2)
  }

  lemma {:induction false} LowestSetBitDivides(n: nat)
    ensures IsPow2(LowestSetBit(n)) && Divides(LowestSetBit(n), n)
  {
    if n == 0 || n % 2 == 1 {
      assert n % 1 == 0;
    } else {
      LowestSetBitDivides(n / 2);
      var b := LowestSetBit(n / 2);
      var k := DividesElim(b, n / 2);
      TwiceProduct(b, k);
      Pow2Double(b);
      DividesIntro(2 * b, n, k);
    }
  }

  lemma TwiceProduct(b: nat, k: nat)
    ensures 2 * (b * k) == (2 * b) * k
  {
  }

  lemma Pow2Double(b: nat)
    requires IsPow2(b)
    ensures IsPow2(2 * b)
  {
    assert 2 * b / 2 == b;
  }

  lemma IsPow2Of2To32()
    ensures IsPow2(TWO_32)
  {
    assert IsPow2(256);
    Pow2Product(256, 256);
    Pow2Product(65536, 65536);
  }

  /** The bit search sees only the low 32 bits of the item count; its answer still divides all of it. */
  lemma LowWordBitDivides(items: nat)
    ensures IsPow2(LowestSetBit(Wrap32(items))) && Divides(LowestSetBit(Wrap32(items)), items)
  {
    var w := Wrap32(items);
    var b := LowestSetBit(w);
    LowestSetBitDivides(w);
    IsPow2Of2To32();
    if w == 0 {
      assert items % 1 == 0;
    } else {
      DividesLe(b, w);
      Pow2Divides(b, TWO_32);
      DividesMultiple(b, TWO_32, items / TWO_32);
      DividesSum(b, TWO_32 * (items / TWO_32), w);
    }
  }

  /** The work-group size chosen for a one-dimensional range. */
  function OneDimSize(items: nat, max: nat): nat
    requires max >= 1
  {
    FactorFrom(MAX_PRIMES - 1, Min(LowestSetBit(Wrap32(items)), max), items, max)
  }

  lemma StartDivides(items: nat, max: nat)
    requires IsPow2(max)
    ensures Divides(Min(LowestSetBit(Wrap32(items)), max), items)
  {
    var b := LowestSetBit(Wrap32(items));
    LowWordBitDivides(items);
    if max < b {
      Pow2Divides(max, b);
      DividesTrans(max, b, items);
    }
  }

  method ComputeWorkgroupSize1D(max: nat, workGroupSize: array<nat>, workItems: seq<nat>)
    requires workGroupSize.Length == 3 && |workItems| == 3
    requires 1 <= max && max * 251 < TWO_32
    modifies workGroupSize
    ensures workGroupSize[..] == [OneDimSize(workItems[0], max), 1, 1]
  {
    var items := workItems[0];
    var workSize := LowestSetBit(Wrap32(items));
    workSize := Min(workSize, max);
    workSize := Factor(MAX_PRIMES - 1, items, workSize, max);
    workGroupSize[0] := workSize;
    workGroupSize[1] := 1;
    workGroupSize[2] := 1;
  }

  // ----- maximality -----------------------------------------------------------------------

  lemma OneDimSound(items: nat, max: nat)
    requires IsPow2(max) && items > 0
    ensures Divides(OneDimSize(items, max), items) && 1 <= OneDimSize(items, max) <= max
  {
    StartDivides(items, max);
    FactorFromFills(MAX_PRIMES - 1, Min(LowestSetBit(Wrap32(items)), max), items, max);
  }

  /** k > 1 would enlarge r to another divisor of the items within max. */
  predicate Extends(k: nat, r: nat, items: nat, max: nat) {
    k > 1 && r * k <= max && Divides(r * k, items)
  }

  ghost predicate Maximal(r: nat, items: nat, max: nat) {
    forall k :: !Extends(k, r, items, max)
  }

  /** A multiplier with a divisor p that r is full of cannot enlarge r. */
  lemma ThreeFactors(r: nat, p: nat, m: nat)
    ensures r * (p * m) == (r * p) * m && (r * p) * m == m * (r * p)
  {
  }

  lemma FullBlocks(k: nat, p: nat, r: nat, items: nat, max: nat)
    requires Full(p, r, items, max) && Divides(p, k) && items > 0
    ensures !Extends(k, r, items, max)
  {
    if Extends(k, r, items, max) {
      var m := DividesElim(p, k);
      ThreeFactors(r, p, m);
      MulMono(1, m, r * p);
      FactorDivides(r * p, m, items);
    }
  }

  /** Whatever max is, no k with a divisor f in 2..256 enlarges the result. */
  lemma NoSmallExtension(k: nat, f: nat, items: nat, max: nat)
    requires IsPow2(max) && items > 0 && 2 <= f <= 256 && Divides(f, k)
    ensures !Extends(k, OneDimSize(items, max), items, max)
  {
    StartDivides(items, max);
    FactorFromFills(MAX_PRIMES - 1, Min(LowestSetBit(Wrap32(items)), max), items, max);
    var i := TableCovers(f);
    DividesTrans(PrimeNumber(i), f, k);
    FullBlocks(k, PrimeNumber(i), OneDimSize(items, max), items, max);
  }

  lemma {:induction false} TableMisses257(i: nat)
    requires i < MAX_PRIMES
    ensures 257 % PrimeNumber(i) != 0
  {
  }

  lemma {:induction false} StuckAt257(i: nat, max: nat)
    requires i < MAX_PRIMES
    ensures FactorFrom(i, 1, 257, max) == 1
  {
    TableMisses257(i);
    if i > 0 { StuckAt257(i - 1, max); }
  }

  /** The choice is maximal for every item count exactly when the device limit is at most 256. */
  lemma MaximalIff(max: nat)
    requires IsPow2(max)
    ensures (forall items: nat | items > 0 :: Maximal(OneDimSize(items, max), items, max)) <==> max <= 256
  {
    if max <= 256 {
      forall items: nat, k: nat | items > 0 ensures !Extends(k, OneDimSize(items, max), items, max) {
        if Extends(k, OneDimSize(items, max), items, max) {
          OneDimSound(items, max);
          MulMono(1, OneDimSize(items, max), k);
          assert k % k == 0;
          NoSmallExtension(k, k, items, max);
        }
      }
    } else {
      Pow2Gap(max, 256);
      StuckAt257(MAX_PRIMES - 1, max);
      assert OneDimSize(257, max) == 1;
      assert 257 % 257 == 0;
      assert Extends(257, OneDimSize(257, max), 257, max);
      assert !Maximal(OneDimSize(257, max), 257, max);
    }
  }
}
