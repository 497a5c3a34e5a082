/**
 * Buffer copies and fills, split into left, middle and right dispatches. The dispatches are those the
 * built-in operations set up; the bytes a work item touches are those of the built-in kernels.
 */
module CopySplit {
  import opened Arithmetic

  const CACHE_LINE_SIZE: nat := 64
  const COPY_ITEM: nat := 16
  const FILL_ITEM: nat := 4

  /** Bytes left of the first cache line boundary, of whole items in the middle, and right of them. */
  datatype Parts = Parts(left: nat, middle: nat, right: nat)

  /** A copy request: pointers and offsets as they are passed to the built-in operation. */
  datatype Copy = Copy(dstPtr: nat, dstOffset: nat, srcPtr: nat, srcOffset: nat, size: nat)

  // ----- the split ------------------------------------------------------------------------

  function AlignedParts(start: nat, size: nat): (p: Parts)
    ensures p.left + p.middle + p.right == size
  {
    var over := start % CACHE_LINE_SIZE;
    var left := Min(if over > 0 then CACHE_LINE_SIZE - over else 0, size);
    var right := Min((start + size) % CACHE_LINE_SIZE, size - left);
    Parts(left, size - left - right, right)
  }

  /** If the source is not aligned to four bytes where the middle starts, the left part takes the middle over. */
  function CopyParts(c: Copy): (p: Parts)
    ensures p.left + p.middle + p.right == c.size
  {
    var p := AlignedParts(c.dstPtr + c.dstOffset, c.size);
    if (c.srcPtr + c.srcOffset + p.left) % 4 != 0 then Parts(p.left + p.middle, 0, p.right) else p
  }

  lemma AlignedPartsAre(start: nat, size: nat)
    ensures var p := AlignedParts(start, size);
      && p.left < CACHE_LINE_SIZE && p.right < CACHE_LINE_SIZE && p.middle % CACHE_LINE_SIZE == 0
      && (p.middle > 0 || p.right > 0 ==> (start + p.left) % CACHE_LINE_SIZE == 0)
  {
  }

  /** A middle is whole items, cache-line aligned in the destination and dword aligned in the source. */
  lemma CopyMiddleAligned(c: Copy)
    ensures var p := CopyParts(c);
      && p.middle % COPY_ITEM == 0
      && (p.middle > 0 ==> (c.dstPtr + c.dstOffset + p.left) % CACHE_LINE_SIZE == 0 && (c.srcPtr + c.srcOffset + p.left) % 4 == 0)
  {
    var p := AlignedParts(c.dstPtr + c.dstOffset, c.size);
    AlignedPartsAre(c.dstPtr + c.dstOffset, c.size);
    WholeItems(p.middle);
  }

  /**
   * The parts in terms of the range alone: the bytes up to the next cache line, all whole cache lines
   * behind them, and the rest; everything is left if no line starts within the range.
   */
  lemma AlignedPartsIs(start: nat, size: nat)
    ensures var lead := (64 - start % 64) % 64;
      AlignedParts(start, size) == if lead > size then Parts(size, 0, 0)
        else Parts(lead, (size - lead) / 64 * 64, (size - lead) % 64)
  {
    var lead := (64 - start % 64) % 64;
    if lead <= size {
      SameRemainder(start, lead, size);
    }
  }

  lemma SameRemainder(start: nat, lead: nat, size: nat)
    requires (start + lead) % 64 == 0 && lead <= size
    ensures (start + size) % 64 == (size - lead) % 64
  {
    var q, n := (start + lead) / 64, size - lead;
    assert start + size == 64 * q + n;
    DivModUnique(start + size, 64, q + n / 64, n % 64);
  }

  /** A copy keeps its middle exactly if the source is dword aligned where it starts; else it becomes part of the left. */
  lemma CopyPartsIs(c: Copy)
    ensures var lead := (64 - (c.dstPtr + c.dstOffset) % 64) % 64;
      CopyParts(c) == if lead > c.size then Parts(c.size, 0, 0)
        else if (c.srcPtr + c.srcOffset + lead) % 4 == 0 then Parts(lead, (c.size - lead) / 64 * 64, (c.size - lead) % 64)
        else Parts(lead + (c.size - lead) / 64 * 64, 0, (c.size - lead) % 64)
  {
    AlignedPartsIs(c.dstPtr + c.dstOffset, c.size);
  }

  lemma WholeItems(n: nat)
    requires n % CACHE_LINE_SIZE == 0
    ensures n % COPY_ITEM == 0 && n % FILL_ITEM == 0
    ensures n / COPY_ITEM * COPY_ITEM == n && n / FILL_ITEM * FILL_ITEM == n
  {
    var q := n / CACHE_LINE_SIZE;
    assert n == 64 * q;
    DivModUnique(n, COPY_ITEM, 4 * q, 0);
    DivModUnique(n, FILL_ITEM, 16 * q, 0);
  }

  // ----- what the work items touch --------------------------------------------------------

  /**
   * One buffer of a split: its offset, the parts, where the middle kernel's pointer starts, and the
   * bytes of a middle item. The middle is launched with middle / item items.
   */
  datatype View = View(offset: nat, parts: Parts, start: nat, item: nat) {
    function Middle(): nat { offset + parts.left }
    function Right(): nat { offset + parts.left + parts.middle }
    predicate Valid() { item in {FILL_ITEM, COPY_ITEM} && parts.middle % item == 0 && start < TWO_32 && start <= Middle() }
    function Launched(): nat
      requires item > 0
    {
      parts.left + parts.middle / item * item + parts.right
    }
  }

  /** A byte item: 32-bit index arithmetic on an offset cut down to 32 bits. */
  function ByteAt(offset: nat, gid: nat): nat { Wrap32(Wrap32(gid) + Wrap32(offset)) }

  /** Byte k of the middle: its items are counted in 32 bits from where the pointer starts. */
  function MiddleAt(start: nat, item: nat, k: nat): nat
    requires item > 0
  {
    start + item * Wrap32(k / item) + k % item
  }

  /** The place that is touched for byte i of the range: left, middle and right dispatch in turn. */
  function PlaceAt(v: View, i: nat): nat
    requires v.item > 0
  {
    var left, middle := v.parts.left, v.parts.middle / v.item * v.item;
    if i < left then ByteAt(v.offset, i)
    else if i < left + middle then MiddleAt(v.start, v.item, i - left)
    else ByteAt(v.Right(), i - left - middle)
  }

  function Places(v: View): (r: seq<nat>)
    requires v.item > 0
    ensures |r| == v.Launched()
  {
    seq(v.Launched(), (i: nat) => PlaceAt(v, i))
  }

  function Range(offset: nat, n: nat): (r: seq<nat>)
    ensures |r| == n
  {
    seq(n, (i: nat) => offset + i)
  }

  // ----- which splits reach all of their range --------------------------------------------

  /** The 32-bit arithmetic reaches the end of every part, and the middle starts where it should. */
  predicate Reaches(v: View) {
    && (v.parts.left > 0 ==> v.Middle() <= TWO_32)
    && (v.parts.middle > 0 && v.item > 0 ==> v.start == v.Middle() && v.parts.middle / v.item <= TWO_32)
    && (v.parts.right > 0 ==> v.Right() + v.parts.right <= TWO_32)
  }

  lemma ByteInRange(offset: nat, gid: nat)
    requires offset + gid < TWO_32
    ensures ByteAt(offset, gid) == offset + gid
  {
  }

  lemma MiddleInRange(start: nat, item: nat, n: nat, k: nat)
    requires item in {FILL_ITEM, COPY_ITEM} && n % item == 0 && n / item <= TWO_32 && k < n
    ensures MiddleAt(start, item, k) == start + k
  {
  }

  lemma ReachesAll(v: View)
    requires v.Valid() && Reaches(v)
    ensures v.Launched() == v.parts.left + v.parts.middle + v.parts.right
    ensures Places(v) == Range(v.offset, v.Launched())
  {
    var left, middle := v.parts.left, v.parts.middle;
    assert middle / v.item * v.item == middle;
    forall i | 0 <= i < v.Launched() ensures Places(v)[i] == v.offset + i {
      if i < left {
        ByteInRange(v.offset, i);
      } else if i < left + middle {
        MiddleInRange(v.start, v.item, middle, i - left);
      } else {
        ByteInRange(v.Right(), i - left - middle);
      }
    }
  }

  /** A middle that starts too low or has too many items ends below its last byte. */
  lemma MiddleFallsShort(start: nat, place: nat, item: nat, n: nat, k: nat)
    requires item in {FILL_ITEM, COPY_ITEM} && n % item == 0 && k < n && start <= place
    requires start < place || n / item > TWO_32
    ensures MiddleAt(start, item, k) < place + n - 1
  {
    if item == FILL_ITEM {
      assert 4 * Wrap32(k / 4) + k % 4 <= k;
    } else {
      assert 16 * Wrap32(k / 16) + k % 16 <= k;
    }
  }

  /** No byte item just before or just behind a middle touches the last byte of the middle. */
  lemma BytesPassBy(offset: nat, gid: nat, last: nat)
    requires gid < CACHE_LINE_SIZE && (offset + gid < last || offset == last + 1)
    ensures ByteAt(offset, gid) != last
  {
  }

  /** A split that does not reach all of its range misses some byte of it altogether. */
  lemma MissesSome(v: View) returns (q: nat)
    requires v.Valid() && !Reaches(v)
    requires v.parts.middle > 0 ==> v.parts.left < CACHE_LINE_SIZE && v.parts.right < CACHE_LINE_SIZE
    ensures v.offset <= q < v.Right() + v.parts.right && q !in Places(v)
  {
    var left, middle := v.parts.left, v.parts.middle;
    assert middle / v.item * v.item == middle;
    if middle > 0 && (v.start < v.Middle() || middle / v.item > TWO_32) {
      q := v.Right() - 1;
      forall i | 0 <= i < v.Launched() ensures Places(v)[i] != q {
        if i < left {
          BytesPassBy(v.offset, i, q);
        } else if i < left + middle {
          MiddleFallsShort(v.start, v.Middle(), v.item, middle, i - left);
        } else {
          BytesPassBy(v.Right(), i - left - middle, q);
        }
      }
    } else {
      q := v.Right() + v.parts.right - 1;
      forall i | 0 <= i < v.Launched() ensures Places(v)[i] != q {
        if left <= i < left + middle {
          MiddleInRange(v.start, v.item, middle, i - left);
        }
      }
    }
  }

  /** Each byte of the range is touched. */
  ghost predicate Covers(v: View)
    requires v.item > 0
  {
    forall q :: v.offset <= q < v.Right() + v.parts.right ==> q in Places(v)
  }

  /** The dispatches touch every byte of their range, and then each once and in order, exactly if they reach it. */
  lemma CoversIff(v: View)
    requires v.Valid()
    requires v.parts.middle > 0 ==> v.parts.left < CACHE_LINE_SIZE && v.parts.right < CACHE_LINE_SIZE
    ensures Covers(v) <==> Reaches(v)
    ensures Covers(v) ==> Places(v) == Range(v.offset, v.parts.left + v.parts.middle + v.parts.right)
  {
    if Reaches(v) {
      ReachesAll(v);
      forall q | v.offset <= q < v.Right() + v.parts.right ensures q in Places(v) {
        assert Places(v)[q - v.offset] == q;
      }
    } else {
      var q := MissesSome(v);
    }
  }

  // ----- copies ---------------------------------------------------------------------------

  /** One byte copied: its place in the destination buffer and that of its source. */
  datatype Store = Store(to: nat, from: nat)

  /** The middle copy kernel moves a pointer to dwords by a quarter of the offset. */
  function CopyView(offset: nat, p: Parts): View { View(offset, p, Wrap32(offset + p.left) / 4 * 4, COPY_ITEM) }

  function Target(c: Copy): View { CopyView(c.dstOffset, CopyParts(c)) }

  function Source(c: Copy): View { CopyView(c.srcOffset, CopyParts(c)) }

  function Stores(c: Copy): (r: seq<Store>)
    ensures |r| == Target(c).Launched() == Source(c).Launched()
  {
    seq(Target(c).Launched(), (i: nat) => Store(PlaceAt(Target(c), i), PlaceAt(Source(c), i)))
  }

  /** Every byte of the range from its matching source byte. */
  function Straight(dst: nat, src: nat, n: nat): (r: seq<Store>)
    ensures |r| == n
  {
    seq(n, (i: nat) => Store(dst + i, src + i))
  }

  predicate ByteFits(offset: nat, n: nat) { n > 0 ==> offset + n <= TWO_32 }

  predicate VectorFits(ptr: nat, offset: nat, n: nat) {
    n > 0 ==> ptr % 4 == 0 && offset < TWO_32 && n / 16 <= TWO_32
  }

  predicate BufferFits(ptr: nat, offset: nat, p: Parts) {
    ByteFits(offset, p.left) && VectorFits(ptr, offset + p.left, p.middle) && ByteFits(offset + p.left + p.middle, p.right)
  }

  /** The 32-bit offsets reach all of the copy, and buffers with a middle are dword aligned. */
  predicate Fits(c: Copy) {
    BufferFits(c.dstPtr, c.dstOffset, CopyParts(c)) && BufferFits(c.srcPtr, c.srcOffset, CopyParts(c))
  }

  /** Where a middle starts at a dword address, it starts right if its buffer is dword aligned and its offset fits. */
  lemma StartsRight(ptr: nat, offset: nat)
    requires (ptr + offset) % 4 == 0
    ensures Wrap32(offset) / 4 * 4 == offset <==> ptr % 4 == 0 && offset < TWO_32
  {
  }

  lemma CopyPartsSmall(c: Copy)
    ensures var p := CopyParts(c);
      && p.middle % COPY_ITEM == 0 && (p.middle > 0 ==> p.left < CACHE_LINE_SIZE && p.right < CACHE_LINE_SIZE)
      && (p.middle > 0 ==> (c.dstPtr + c.dstOffset + p.left) % 4 == 0 && (c.srcPtr + c.srcOffset + p.left) % 4 == 0)
  {
    CopyMiddleAligned(c);
    AlignedPartsAre(c.dstPtr + c.dstOffset, c.size);
    if CopyParts(c).middle > 0 { DwordOfLine(c.dstPtr + c.dstOffset + CopyParts(c).left); }
  }

  lemma DwordOfLine(n: nat)
    requires n % CACHE_LINE_SIZE == 0
    ensures n % 4 == 0
  {
    assert n == 4 * (16 * (n / CACHE_LINE_SIZE));
  }

  lemma BufferFitsIff(ptr: nat, offset: nat, p: Parts)
    requires p.middle % COPY_ITEM == 0
    requires p.middle > 0 ==> p.left < CACHE_LINE_SIZE && p.right < CACHE_LINE_SIZE && (ptr + (offset + p.left)) % 4 == 0
    ensures CopyView(offset, p).Valid()
    ensures Reaches(CopyView(offset, p)) <==> BufferFits(ptr, offset, p)
    ensures Covers(CopyView(offset, p)) <==> BufferFits(ptr, offset, p)
  {
    if p.middle > 0 { StartsRight(ptr, offset + p.left); }
    CoversIff(CopyView(offset, p));
  }

  lemma FitsIff(c: Copy)
    ensures Target(c).Valid() && Source(c).Valid()
    ensures Reaches(Target(c)) && Reaches(Source(c)) <==> Fits(c)
    ensures Covers(Target(c)) && Covers(Source(c)) <==> Fits(c)
  {
    CopyPartsSmall(c);
    BufferFitsIff(c.dstPtr, c.dstOffset, CopyParts(c));
    BufferFitsIff(c.srcPtr, c.srcOffset, CopyParts(c));
  }

  /** The three dispatches store each byte of the range once, from its source byte, exactly if the copy fits. */
  lemma StoresStraightIff(c: Copy)
    ensures |Stores(c)| == c.size
    ensures Stores(c) == Straight(c.dstOffset, c.srcOffset, c.size) <==> Fits(c)
  {
    FitsIff(c);
    StoresInParallel(c);
    CopyPartsSmall(c);
    StraightCovers(Target(c), c.size);
    StraightCovers(Source(c), c.size);
  }

  lemma StoresInParallel(c: Copy)
    ensures |Stores(c)| == c.size == |Places(Target(c))| == |Places(Source(c))|
    ensures Stores(c) == Straight(c.dstOffset, c.srcOffset, c.size) <==>
      Places(Target(c)) == Range(c.dstOffset, c.size) && Places(Source(c)) == Range(c.srcOffset, c.size)
  {
    CopyPartsSmall(c);
    assert CopyParts(c).middle / COPY_ITEM * COPY_ITEM == CopyParts(c).middle;
    SamePlaces(Stores(c), Places(Target(c)), Places(Source(c)), c.dstOffset, c.srcOffset, c.size);
  }

  lemma SamePlaces(stores: seq<Store>, to: seq<nat>, from: seq<nat>, dst: nat, src: nat, n: nat)
    requires |stores| == |to| == |from| == n
    requires forall i :: 0 <= i < n ==> stores[i] == Store(to[i], from[i])
    ensures stores == Straight(dst, src, n) <==> to == Range(dst, n) && from == Range(src, n)
  {
    if stores == Straight(dst, src, n) {
      forall i | 0 <= i < n ensures to[i] == dst + i && from[i] == src + i {
        assert stores[i] == Straight(dst, src, n)[i];
      }
    }
  }

  lemma StraightCovers(v: View, n: nat)
    requires v.Valid() && n == v.parts.left + v.parts.middle + v.parts.right == |Places(v)|
    requires v.parts.middle > 0 ==> v.parts.left < CACHE_LINE_SIZE && v.parts.right < CACHE_LINE_SIZE
    ensures Places(v) == Range(v.offset, n) <==> Covers(v)
  {
    CoversIff(v);
    if Places(v) == Range(v.offset, n) {
      forall q | v.offset <= q < v.Right() + v.parts.right ensures q in Places(v) {
        assert Range(v.offset, n)[q - v.offset] == q;
      }
    }
  }

  // ----- running the work items -----------------------------------------------------------

  type Memory = nat -> int

  /** The value at place p after the stores, in the order they happen to run. */
  function Run(dst: Memory, src: Memory, order: seq<Store>, p: nat): int {
    if order == [] then dst(p)
    else
      var last := order[|order| - 1];
      if last.to == p then src(last.from) else Run(dst, src, order[..|order| - 1], p)
  }

  lemma {:induction false} RunReads(dst: Memory, src: Memory, order: seq<Store>, p: nat)
    ensures (forall s :: s in order ==> s.to != p) ==> Run(dst, src, order, p) == dst(p)
    ensures (exists s :: s in order && s.to == p) ==> exists s :: s in order && s.to == p && Run(dst, src, order, p) == src(s.from)
  {
    if order != [] {
      var n := |order| - 1;
      assert order == order[..n] + [order[n]];
      assert order[n] in order;
      RunReads(dst, src, order[..n], p);
    }
  }

  lemma StraightStore(dst: nat, src: nat, n: nat, s: Store)
    ensures s in Straight(dst, src, n) <==> dst <= s.to < dst + n && s.from == src + (s.to - dst)
  {
    if dst <= s.to < dst + n && s.from == src + (s.to - dst) {
      assert Straight(dst, src, n)[s.to - dst] == s;
    }
  }

  lemma RunStraight(dst: Memory, src: Memory, order: seq<Store>, d: nat, s: nat, n: nat, p: nat)
    requires forall x :: x in order <==> x in Straight(d, s, n)
    ensures Run(dst, src, order, p) == if d <= p < d + n then src(s + (p - d)) else dst(p)
  {
    forall x | x in order ensures d <= x.to < d + n && x.from == s + (x.to - d) {
      StraightStore(d, s, n, x);
    }
    RunReads(dst, src, order, p);
    if d <= p < d + n {
      var x := Store(p, s + (p - d));
      StraightStore(d, s, n, x);
      assert x in order && x.to == p;
    }
  }

  /** The stores of all work items, in any order, each at least once. */
  predicate Schedule(c: Copy, order: seq<Store>) {
    (forall s :: s in order ==> s in Stores(c)) && (forall s :: s in Stores(c) ==> s in order)
  }

  /** What memcpy leaves at place p. */
  function Memcpy(c: Copy, dst: Memory, src: Memory, p: nat): int {
    if c.dstOffset <= p < c.dstOffset + c.size then src(c.srcOffset + (p - c.dstOffset)) else dst(p)
  }

  /** Whatever the memories hold and in whatever order the work items run, the result is that of one memcpy. */
  ghost predicate IsMemcpy(c: Copy) {
    forall dst: Memory, src: Memory, order: seq<Store>, p: nat ::
      Schedule(c, order) ==> Run(dst, src, order, p) == Memcpy(c, dst, src, p)
  }

  lemma FittingSplit(c: Copy, dst: Memory, src: Memory, order: seq<Store>, p: nat)
    requires Fits(c) && Schedule(c, order)
    ensures Run(dst, src, order, p) == Memcpy(c, dst, src, p)
  {
    StoresStraightIff(c);
    RunStraight(dst, src, order, c.dstOffset, c.srcOffset, c.size, p);
  }

  lemma StorePlaces(c: Copy)
    ensures forall s :: s in Stores(c) ==> s.to in Places(Target(c)) && s.from in Places(Source(c))
  {
    forall s | s in Stores(c) ensures s.to in Places(Target(c)) && s.from in Places(Source(c)) {
      var i :| 0 <= i < |Stores(c)| && Stores(c)[i] == s;
      assert Places(Target(c))[i] == s.to && Places(Source(c))[i] == s.from;
    }
  }

  lemma UnfitView(c: Copy) returns (target: bool)
    requires !Fits(c)
    ensures var v := if target then Target(c) else Source(c);
      && v.Valid() && !Reaches(v) && v.Right() + v.parts.right == v.offset + c.size
      && (v.parts.middle > 0 ==> v.parts.left < CACHE_LINE_SIZE && v.parts.right < CACHE_LINE_SIZE)
  {
    FitsIff(c);
    CopyPartsSmall(c);
    target := !Reaches(Target(c));
  }

  /** Where a copy does not fit, a byte of the range is not stored, or a byte of the source is not read. */
  lemma UnfitSplit(c: Copy) returns (p: nat)
    requires !Fits(c)
    ensures c.dstOffset <= p < c.dstOffset + c.size
    ensures Run(_ => -1, (q: nat) => q, Stores(c), p) != c.srcOffset + (p - c.dstOffset)
  {
    var q;
    var target := UnfitView(c);
    if target {
      p := MissesSome(Target(c));
      q := c.srcOffset + (p - c.dstOffset);
    } else {
      q := MissesSome(Source(c));
      p := c.dstOffset + (q - c.srcOffset);
    }
    StorePlaces(c);
    MissedRun(Stores(c), p, q);
  }

  /** Nothing is stored to p, or nothing from q: then p does not end with the value of q. */
  lemma MissedRun(order: seq<Store>, p: nat, q: nat)
    requires (forall s :: s in order ==> s.to != p) || (forall s :: s in order ==> s.from != q)
    ensures Run(_ => -1, (q: nat) => q, order, p) != q
  {
    RunReads(_ => -1, (q: nat) => q, order, p);
  }

  /** The split means one memcpy, exactly if the copy fits. */
  lemma SplitIsMemcpyIff(c: Copy)
    ensures IsMemcpy(c) <==> Fits(c)
  {
    if Fits(c) {
      forall dst: Memory, src: Memory, order: seq<Store>, p: nat | Schedule(c, order)
        ensures Run(dst, src, order, p) == Memcpy(c, dst, src, p)
      {
        FittingSplit(c, dst, src, order, p);
      }
    } else {
      var p := UnfitSplit(c);
      assert Schedule(c, Stores(c));
      var dst: Memory, src: Memory := _ => -1, (q: nat) => q;
      assert Run(dst, src, Stores(c), p) != Memcpy(c, dst, src, p);
    }
  }

  const FAR_COPY: Copy := Copy(1, TWO_32, 1, 0, 1)

  lemma FarCopyParts()
    ensures CopyParts(FAR_COPY) == Parts(1, 0, 0)
  {
  }

  /** An offset past 32 bits is cut: this copy of one byte stores to byte 0 instead of byte 2^32. */
  lemma CutOffset()
    ensures Stores(FAR_COPY) == [Store(0, 0)] && !IsMemcpy(FAR_COPY)
  {
    FarCopyParts();
    assert PlaceAt(CopyView(TWO_32, Parts(1, 0, 0)), 0) == PlaceAt(CopyView(0, Parts(1, 0, 0)), 0) == 0;
    SplitIsMemcpyIff(FAR_COPY);
  }

  const ODD_BUFFERS: Copy := Copy(1, 63, 1, 63, 64)

  lemma OddBufferParts()
    ensures CopyParts(ODD_BUFFERS) == Parts(0, 64, 0)
  {
    OneLine();
  }

  lemma OneLine()
    ensures AlignedParts(64, 64) == Parts(0, 64, 0)
  {
    assert Min(0, 64) == 0;
  }

  /** Between buffers off a dword boundary the middle starts too low: this copy stores to byte 60 instead of byte 63. */
  lemma RoundedOffset()
    ensures |Stores(ODD_BUFFERS)| > 0 && Stores(ODD_BUFFERS)[0] == Store(60, 60) && !IsMemcpy(ODD_BUFFERS)
  {
    OddBufferParts();
    OddStart();
    SplitIsMemcpyIff(ODD_BUFFERS);
  }

  lemma OddStart()
    ensures CopyView(63, Parts(0, 64, 0)).start == 60
    ensures PlaceAt(CopyView(63, Parts(0, 64, 0)), 0) == 60
  {
    assert 63 / 4 * 4 == 60;
    assert MiddleAt(60, 16, 0) == 60;
  }

  // ----- fills ----------------------------------------------------------------------------

  /** The middle fill kernel moves a byte pointer by the offset and stores dwords behind it. */
  function FillView(dstPtr: nat, dstOffset: nat, size: nat): View {
    var p := AlignedParts(dstPtr + dstOffset, size);
    View(dstOffset, p, Wrap32(dstOffset + p.left), FILL_ITEM)
  }

  /** The bytes the three dispatches of a fill write. */
  function FillTargets(dstPtr: nat, dstOffset: nat, size: nat): seq<nat> { Places(FillView(dstPtr, dstOffset, size)) }

  predicate DwordFits(offset: nat, n: nat) {
    n > 0 ==> offset < TWO_32 && n / 4 <= TWO_32
  }

  predicate FillFits(dstPtr: nat, dstOffset: nat, size: nat) {
    var p := AlignedParts(dstPtr + dstOffset, size);
    ByteFits(dstOffset, p.left) && DwordFits(dstOffset + p.left, p.middle)
        && ByteFits(dstOffset + p.left + p.middle, p.right)
  }

  lemma FillReachesIff(dstPtr: nat, dstOffset: nat, size: nat)
    ensures var v := FillView(dstPtr, dstOffset, size);
      && v.Valid() && v.Launched() == size && (Reaches(v) <==> FillFits(dstPtr, dstOffset, size))
      && (v.parts.middle > 0 ==> v.parts.left < CACHE_LINE_SIZE && v.parts.right < CACHE_LINE_SIZE)
  {
    AlignedPartsAre(dstPtr + dstOffset, size);
    WholeItems(FillView(dstPtr, dstOffset, size).parts.middle);
  }

  /** A fill writes all bytes of its range, and then each once and no other, exactly if its offsets fit 32 bits. */
  lemma FillTilesIff(dstPtr: nat, dstOffset: nat, size: nat)
    ensures |FillTargets(dstPtr, dstOffset, size)| == size
    ensures (forall q :: dstOffset <= q < dstOffset + size ==> q in FillTargets(dstPtr, dstOffset, size))
      <==> FillFits(dstPtr, dstOffset, size)
    ensures FillFits(dstPtr, dstOffset, size) ==> FillTargets(dstPtr, dstOffset, size) == Range(dstOffset, size)
  {
    var v := FillView(dstPtr, dstOffset, size);
    FillReachesIff(dstPtr, dstOffset, size);
    CoversIff(v);
    assert Covers(v) <==> forall q :: dstOffset <= q < dstOffset + size ==> q in Places(v);
  }

  /** A fill of one byte at offset 2^32 writes byte 0. */
  lemma CutFill()
    ensures FillTargets(1, TWO_32, 1) == [0] && !FillFits(1, TWO_32, 1)
  {
  }
}
