/** Local ids in the tiled order used for image kernels: which work-item each SIMD lane runs. */
module LocalIds {
  import opened Arithmetic

  datatype Cell = Cell(x: nat, y: nat)

  /** One lane of one thread of the work group; a thread fills its own block of registers. */
  datatype Lane = Lane(grf: nat, index: nat)

  // ----- layout constants -----------------------------------------------------------------

  predicate ValidSimd(simd: nat) { simd == 8 || simd == 16 || simd == 32 }

  function RowWidth(simd: nat): nat { if simd == 32 then 32 else 16 }

  function XDelta(simd: nat): nat { if simd == 8 then 2 else 4 }

  function YDelta(simd: nat, height: nat): nat {
    if simd == 8 || height == 4 then 4 else RowWidth(simd) / XDelta(simd)
  }

  /** Rows one thread covers while a full band of tiles is left. */
  function BandHeight(simd: nat): nat { if simd == 32 then 8 else 4 }

  function GrfOffset(simd: nat, grf: nat): nat { if simd == 32 then 96 * grf else 48 * grf }

  function GetGRFsPerThread(simd: nat): nat { if simd == 32 then 2 else 1 }

  /** The driver's shift by the exponent of the SIMD width. */
  function GetThreadsPerWG(simd: nat, lws: nat): nat
    requires ValidSimd(simd)
  {
    (lws + simd - 1) / (if simd == 32 then 32 else if simd == 16 then 16 else 8)
  }

  /** Bytes of the local ids of one thread: per channel one or two registers of 32 bytes. */
  function GetPerThreadSizeLocalIDs(simd: nat, numChannels: nat): nat {
    Max(numChannels * GetGRFsPerThread(simd) * 32, 32)
  }

  predicate IsCompatibleWithLayoutForImages(width: nat, height: nat, depth: nat, order: seq<nat>, simd: nat)
    requires |order| == 3
  {
    order[0] == 0 && order[1] == 1 && width % XDelta(simd) == 0 && height % 4 == 0 && depth == 1
  }

  /** A flat non-empty group the tiled layout accepts, with 16-bit sizes. */
  predicate Tileable(width: nat, height: nat, simd: nat) {
    ValidSimd(simd) && 0 < width < TWO_16 && 0 < height < TWO_16 && width % XDelta(simd) == 0 && height % 4 == 0
  }

  // ----- the closed form ------------------------------------------------------------------

  function TilesPerBand(width: nat, simd: nat): nat { width / XDelta(simd) }

  function FullBands(height: nat, simd: nat): nat { height / BandHeight(simd) }

  /** Threads that run in full bands; only SIMD32 on a height of 4 modulo 8 needs more of them. */
  function BandGrfs(width: nat, height: nat, simd: nat): nat {
    TilesPerBand(width, simd) * FullBands(height, simd)
  }

  function NumGrfs(width: nat, height: nat, simd: nat): nat
    requires ValidSimd(simd)
  {
    CeilDiv(width * height, simd)
  }

  /** The tile column of a lane beyond the full bands: there a thread covers two 4 x 4 tiles. */
  function TailTile(width: nat, height: nat, simd: nat, lane: Lane): int {
    2 * (lane.grf - BandGrfs(width, height, simd)) + lane.index / 16
  }

  /** The corner of the tile a lane works in; lanes past the last tile start over at the origin. */
  function TileOf(width: nat, height: nat, simd: nat, lane: Lane): Cell
    requires ValidSimd(simd) && width >= XDelta(simd)
  {
    var m, k := TilesPerBand(width, simd), FullBands(height, simd);
    if lane.grf < BandGrfs(width, height, simd) then
      Cell(XDelta(simd) * (lane.grf % m), BandHeight(simd) * (lane.grf / m))
    else
      var t := TailTile(width, height, simd, lane);
      if t < m then Cell(4 * t, 8 * k) else Cell(0, 0)
  }

  function RowInTile(width: nat, height: nat, simd: nat, lane: Lane): nat {
    if lane.grf < BandGrfs(width, height, simd) then lane.index / XDelta(simd) else lane.index % 16 / 4
  }

  function CellOf(width: nat, height: nat, simd: nat, lane: Lane): Cell
    requires ValidSimd(simd) && width >= XDelta(simd)
  {
    var tile := TileOf(width, height, simd, lane);
    Cell(tile.x + lane.index % XDelta(simd), tile.y + RowInTile(width, height, simd, lane))
  }

  /** The lane that runs a work-item: the inverse the bijection is proved with. */
  function LaneOf(width: nat, height: nat, simd: nat, c: Cell): Lane
    requires ValidSimd(simd)
  {
    var m, k, bh, xd := TilesPerBand(width, simd), FullBands(height, simd), BandHeight(simd), XDelta(simd);
    if c.y < bh * k then Lane((c.y / bh) * m + c.x / xd, (c.y % bh) * xd + c.x % xd)
    else Lane(m * k + c.x / 4 / 2, 16 * (c.x / 4 % 2) + (c.y - bh * k) * 4 + c.x % 4)
  }

  predicate InGroup(width: nat, height: nat, c: Cell) { c.x < width && c.y < height }

  /** Lanes are numbered thread by thread; the first width * height of them carry work-items. */
  predicate Active(width: nat, height: nat, simd: nat, lane: Lane) {
    lane.index < simd && simd * lane.grf + lane.index < width * height
  }

  // ----- the geometry ---------------------------------------------------------------------

  /** The group consists of m * k full tiles and, at 4 rows over, of m more 4 x 4 tiles. */
  lemma Geometry(width: nat, height: nat, simd: nat)
    requires Tileable(width, height, simd)
    ensures var m, k, over := TilesPerBand(width, simd), FullBands(height, simd), height % BandHeight(simd);
      && width == XDelta(simd) * m && height == BandHeight(simd) * k + over && m > 0
      && (over == 0 || (over == 4 && simd == 32))
      && width * height == simd * (m * k) + XDelta(simd) * over * m
      && NumGrfs(width, height, simd) == m * k + (if over == 0 then 0 else (m + 1) / 2)
  {
    var m, k, over := TilesPerBand(width, simd), FullBands(height, simd), height % BandHeight(simd);
    Sides(width, height, simd);
    Area(XDelta(simd), BandHeight(simd), m, k, over);
    assert XDelta(simd) * BandHeight(simd) == simd;
    ThreadCount(simd, m, m * k, over);
  }

  lemma Sides(width: nat, height: nat, simd: nat)
    requires Tileable(width, height, simd)
    ensures var m, k, over := TilesPerBand(width, simd), FullBands(height, simd), height % BandHeight(simd);
      && width == XDelta(simd) * m && height == BandHeight(simd) * k + over && m > 0
      && (over == 0 || (over == 4 && simd == 32))
  {
  }

  lemma Area(xd: nat, bh: nat, m: nat, k: nat, over: nat)
    ensures (xd * m) * (bh * k + over) == (xd * bh) * (m * k) + xd * over * m
  {
    assert (xd * m) * (bh * k) == (xd * bh) * (m * k);
  }

  lemma ThreadCount(simd: nat, m: nat, tiles: nat, over: nat)
    requires ValidSimd(simd) && (over == 0 || (over == 4 && simd == 32))
    ensures CeilDiv(simd * tiles + XDelta(simd) * over * m, simd) == tiles + (if over == 0 then 0 else (m + 1) / 2)
  {
    if over == 0 {
      DivModUnique(simd * tiles + simd - 1, simd, tiles, simd - 1);
    } else {
      DivModUnique(32 * tiles + 16 * m + 31, 32, tiles + (m + 1) / 2, if m % 2 == 0 then 31 else 15);
    }
  }

  /** A band tile lies at a column below m and in a band below k. */
  lemma BandTile(grf: nat, m: nat, k: nat)
    requires grf < m * k
    ensures m > 0 && grf % m < m && grf / m < k && grf == m * (grf / m) + grf % m
  {
    DivLess(grf, m, k);
  }

  // ----- the bijection --------------------------------------------------------------------

  lemma BandLane(width: nat, height: nat, simd: nat, lane: Lane)
    requires Tileable(width, height, simd) && lane.index < simd && lane.grf < BandGrfs(width, height, simd)
    ensures var c := CellOf(width, height, simd, lane);
            InGroup(width, height, c) && LaneOf(width, height, simd, c) == lane
  {
    var m, k := TilesPerBand(width, simd), FullBands(height, simd);
    Geometry(width, height, simd);
    BandTile(lane.grf, m, k);
    var col, band := lane.grf % m, lane.grf / m;
    var c := CellOf(width, height, simd, lane);
    if simd == 8 {
      assert c == Cell(2 * col + lane.index % 2, 4 * band + lane.index / 2);
    } else if simd == 16 {
      assert c == Cell(4 * col + lane.index % 4, 4 * band + lane.index / 4);
    } else {
      assert c == Cell(4 * col + lane.index % 4, 8 * band + lane.index / 4);
    }
    assert c.x / XDelta(simd) == col && c.y / BandHeight(simd) == band && c.y < BandHeight(simd) * k;
  }

  lemma TailDigits(r: nat, i: nat, m: nat)
    requires i < 32
    ensures var t, x, y := 2 * r + i / 16, 4 * (2 * r + i / 16) + i % 4, i % 16 / 4;
      && x / 4 == t && x / 4 / 2 == r && 16 * (x / 4 % 2) + y * 4 + x % 4 == i && y < 4
      && (32 * r + i < 16 * m <==> t < m) && (t < m ==> x < 4 * m)
  {
  }

  lemma TailLane(width: nat, height: nat, simd: nat, lane: Lane)
    requires Tileable(width, height, simd) && lane.index < simd
    requires BandGrfs(width, height, simd) <= lane.grf < NumGrfs(width, height, simd)
    ensures var c := CellOf(width, height, simd, lane);
      && simd == 32 && height % 8 == 4
      && InGroup(width, height, c)
      && (Active(width, height, simd, lane) <==> TailTile(width, height, simd, lane) < TilesPerBand(width, simd))
      && (Active(width, height, simd, lane) ==> LaneOf(width, height, simd, c) == lane)
  {
    var tiles, m := TailGeometry(width, height, simd, lane.grf);
    TailDigits(lane.grf - tiles, lane.index, m);
    TailPlace(width, height, lane);
    if TailTile(width, height, simd, lane) < m {
      TailLaneOf(width, height, CellOf(width, height, simd, lane));
    }
  }

  /** What is left behind the full bands: half a band of SIMD32. */
  lemma TailGeometry(width: nat, height: nat, simd: nat, grf: nat) returns (tiles: nat, m: nat)
    requires Tileable(width, height, simd) && BandGrfs(width, height, simd) <= grf < NumGrfs(width, height, simd)
    ensures simd == 32 && tiles == BandGrfs(width, height, simd) && m == TilesPerBand(width, simd) > 0
    ensures width == 4 * m && height == 8 * FullBands(height, simd) + 4 && height % 8 == 4
    ensures width * height == 32 * tiles + 16 * m && grf - tiles < (m + 1) / 2
  {
    Geometry(width, height, simd);
    tiles, m := BandGrfs(width, height, simd), TilesPerBand(width, simd);
  }

  lemma TailLaneOf(width: nat, height: nat, c: Cell)
    requires c.y >= 8 * FullBands(height, 32)
    ensures var y := c.y - 8 * FullBands(height, 32);
      LaneOf(width, height, 32, c) == Lane(BandGrfs(width, height, 32) + c.x / 4 / 2, 16 * (c.x / 4 % 2) + y * 4 + c.x % 4)
  {
  }

  /** The cell of a lane beyond the full bands. */
  lemma TailPlace(width: nat, height: nat, lane: Lane)
    requires width >= 4 && lane.grf >= BandGrfs(width, height, 32) && lane.index < 32
    ensures var t, x, y := TailTile(width, height, 32, lane), lane.index % 4, lane.index % 16 / 4;
      CellOf(width, height, 32, lane)
        == if t < TilesPerBand(width, 32) then Cell(4 * t + x, 8 * FullBands(height, 32) + y) else Cell(x, y)
  {
  }

  /** Every lane of every thread holds an id within the group, padding lanes included. */
  lemma LaneInGroup(width: nat, height: nat, simd: nat, lane: Lane)
    requires Tileable(width, height, simd) && lane.index < simd && lane.grf < NumGrfs(width, height, simd)
    ensures InGroup(width, height, CellOf(width, height, simd, lane))
  {
    if lane.grf < BandGrfs(width, height, simd) {
      BandLane(width, height, simd, lane);
    } else {
      TailLane(width, height, simd, lane);
    }
  }

  lemma ActiveGrf(width: nat, height: nat, simd: nat, lane: Lane)
    requires Tileable(width, height, simd) && Active(width, height, simd, lane)
    ensures lane.grf < NumGrfs(width, height, simd)
  {
    Geometry(width, height, simd);
  }

  /** No two active lanes run the same work-item: the lane can be recovered from its id. */
  lemma LanesAreDistinct(width: nat, height: nat, simd: nat, lane: Lane)
    requires Tileable(width, height, simd) && Active(width, height, simd, lane)
    ensures InGroup(width, height, CellOf(width, height, simd, lane))
    ensures LaneOf(width, height, simd, CellOf(width, height, simd, lane)) == lane
  {
    ActiveGrf(width, height, simd, lane);
    if lane.grf < BandGrfs(width, height, simd) {
      BandLane(width, height, simd, lane);
    } else {
      TailLane(width, height, simd, lane);
    }
  }

  lemma BandCell(width: nat, height: nat, simd: nat, c: Cell)
    requires Tileable(width, height, simd) && InGroup(width, height, c)
    requires c.y < BandHeight(simd) * FullBands(height, simd)
    ensures Active(width, height, simd, LaneOf(width, height, simd, c))
    ensures CellOf(width, height, simd, LaneOf(width, height, simd, c)) == c
  {
    var m, k, xd, bh := TilesPerBand(width, simd), FullBands(height, simd), XDelta(simd), BandHeight(simd);
    BandArea(width, height, simd);
    BandDigits(simd, c.x, c.y, m, k);
    GridIndex(c.y / bh, c.x / xd, m, k);
    var grf, index := (c.y / bh) * m + c.x / xd, (c.y % bh) * xd + c.x % xd;
    assert LaneOf(width, height, simd, c) == Lane(grf, index);
    WithinBands(grf, index, m * k, simd, width * height);
    BandLaneCell(width, height, simd, Lane(grf, index), c.y / bh, c.x / xd, c.y % bh, c.x % xd);
  }

  /** The cell of a lane in a full band, from the place of its tile and the place in the tile. */
  lemma BandLaneCell(width: nat, height: nat, simd: nat, lane: Lane, band: nat, col: nat, dy: nat, dx: nat)
    requires ValidSimd(simd) && width >= XDelta(simd) && lane.grf < BandGrfs(width, height, simd)
    requires lane.grf % TilesPerBand(width, simd) == col && lane.grf / TilesPerBand(width, simd) == band
    requires lane.index % XDelta(simd) == dx && lane.index / XDelta(simd) == dy
    ensures CellOf(width, height, simd, lane) == Cell(XDelta(simd) * col + dx, BandHeight(simd) * band + dy)
  {
  }

  lemma BandArea(width: nat, height: nat, simd: nat)
    requires Tileable(width, height, simd)
    ensures width == XDelta(simd) * TilesPerBand(width, simd) && TilesPerBand(width, simd) > 0
    ensures simd * (TilesPerBand(width, simd) * FullBands(height, simd)) <= width * height
  {
    Geometry(width, height, simd);
  }

  lemma WithinBands(grf: nat, index: nat, tiles: nat, simd: nat, area: nat)
    requires grf < tiles && index < simd && simd * tiles <= area
    ensures simd * grf + index < area
  {
    MulMono(grf + 1, tiles, simd);
  }

  lemma BandDigits(simd: nat, x: nat, y: nat, m: nat, k: nat)
    requires ValidSimd(simd) && x < XDelta(simd) * m && y < BandHeight(simd) * k
    ensures var xd, bh := XDelta(simd), BandHeight(simd);
            var index := (y % bh) * xd + x % xd;
      && x / xd < m && y / bh < k && index < simd && index % xd == x % xd && index / xd == y % bh
  {
  }

  lemma GridIndex(row: nat, col: nat, m: nat, k: nat)
    requires row < k && col < m
    ensures var g := row * m + col; g < m * k && g / m == row && g % m == col
  {
    MulMono(row + 1, k, m);
    assert (row + 1) * m == row * m + m;
    DivModUnique(row * m + col, m, row, col);
  }

  lemma TailCellDigits(x: nat, y: nat, m: nat)
    requires x < 4 * m && y < 4
    ensures var r, i := x / 4 / 2, 16 * (x / 4 % 2) + y * 4 + x % 4;
      && i < 32 && 2 * r + i / 16 == x / 4 && i % 4 == x % 4 && i % 16 / 4 == y && 32 * r + i < 16 * m
  {
    var q, e := x / 4, x % 4;
    assert x == 4 * q + e && q == 2 * (q / 2) + q % 2;
    assert q < m && 32 * (q / 2) + 16 * (q % 2) == 16 * q;
    TailDigit(q % 2, y, e);
  }

  lemma TailDigit(h: nat, y: nat, e: nat)
    requires h < 2 && y < 4 && e < 4
    ensures var i := 16 * h + y * 4 + e; i < 32 && i / 16 == h && i % 16 == y * 4 + e && i % 4 == e && i % 16 / 4 == y
  {
    DivModUnique(16 * h + y * 4 + e, 16, h, y * 4 + e);
    DivModUnique(16 * h + y * 4 + e, 4, 4 * h + y, e);
    DivModUnique(y * 4 + e, 4, y, e);
  }

  lemma TailCell(width: nat, height: nat, simd: nat, c: Cell)
    requires Tileable(width, height, simd) && InGroup(width, height, c)
    requires c.y >= BandHeight(simd) * FullBands(height, simd)
    ensures Active(width, height, simd, LaneOf(width, height, simd, c))
    ensures CellOf(width, height, simd, LaneOf(width, height, simd, c)) == c
  {
    var tiles, m := TailBelow(width, height, simd, c.y);
    TailCellDigits(c.x, c.y - 8 * FullBands(height, 32), m);
    TailLaneOf(width, height, c);
    TailPlace(width, height, LaneOf(width, height, simd, c));
  }

  lemma TailBelow(width: nat, height: nat, simd: nat, y: nat) returns (tiles: nat, m: nat)
    requires Tileable(width, height, simd) && BandHeight(simd) * FullBands(height, simd) <= y < height
    ensures simd == 32 && tiles == BandGrfs(width, height, simd) && m == TilesPerBand(width, simd) > 0
    ensures width == 4 * m && y - 8 * FullBands(height, simd) < 4 && width * height == 32 * tiles + 16 * m
  {
    Geometry(width, height, simd);
    tiles, m := BandGrfs(width, height, simd), TilesPerBand(width, simd);
  }

  /** Every work-item of the group is run by an active lane. */
  lemma LanesCoverGroup(width: nat, height: nat, simd: nat, c: Cell)
    requires Tileable(width, height, simd) && InGroup(width, height, c)
    ensures Active(width, height, simd, LaneOf(width, height, simd, c))
    ensures CellOf(width, height, simd, LaneOf(width, height, simd, c)) == c
  {
    if c.y < BandHeight(simd) * FullBands(height, simd) {
      BandCell(width, height, simd, c);
    } else {
      TailCell(width, height, simd, c);
    }
  }

  // ----- the traversal --------------------------------------------------------------------

  /** The carried variables of the traversal: the tile corner and the position within the tile. */
  datatype Walk = Walk(x: nat, y: nat, extraX: nat, extraY: nat)

  /** One pass of the inner loop body up to the stores, for lane i of a thread. */
  function LaneStep(width: nat, height: nat, simd: nat, i: nat, w: Walk): Walk {
    var xd := XDelta(simd);
    var extraX := if i == 0 then w.extraX else if w.extraX + 1 == xd then 0 else w.extraX + 1;
    var rowEnds := i > 0 && i % xd == 0;
    var leaves := rowEnds && w.y + w.extraY + 1 == height;
    var extraY := if leaves then 0 else if rowEnds then w.extraY + 1 else w.extraY;
    var x := if leaves then w.x + xd else w.x;
    if x == width then
      Walk(0, if w.y + YDelta(simd, height) >= height then 0 else w.y + YDelta(simd, height), extraX, extraY)
    else Walk(x, w.y, extraX, extraY)
  }

  predicate At(width: nat, height: nat, simd: nat, w: Walk, lane: Lane)
    requires ValidSimd(simd) && width >= XDelta(simd)
  {
    TileOf(width, height, simd, lane) == Cell(w.x, w.y) &&
    w.extraX == lane.index % XDelta(simd) && w.extraY == RowInTile(width, height, simd, lane)
  }

  /** Before its first lane, a thread may still have to wrap around the end of a band. */
  predicate Entering(width: nat, height: nat, simd: nat, x: nat, y: nat, grf: nat)
    requires ValidSimd(simd) && width >= XDelta(simd)
  {
    var w := LaneStep(width, height, simd, 0, Walk(x, y, 0, 0));
    TileOf(width, height, simd, Lane(grf, 0)) == Cell(w.x, w.y)
  }

  lemma BandStep(width: nat, height: nat, simd: nat, w: Walk, grf: nat, i: nat)
    requires Tileable(width, height, simd) && grf < BandGrfs(width, height, simd) && 0 < i < simd
    requires At(width, height, simd, w, Lane(grf, i - 1))
    ensures At(width, height, simd, LaneStep(width, height, simd, i, w), Lane(grf, i))
  {
    var m, k := TilesPerBand(width, simd), FullBands(height, simd);
    Geometry(width, height, simd);
    BandTile(grf, m, k);
    assert w.x < width && w.y + BandHeight(simd) <= height;
    if simd == 8 { assert i / 2 == (i - 1) / 2 + (if i % 2 == 0 then 1 else 0); }
    else { assert i / 4 == (i - 1) / 4 + (if i % 4 == 0 then 1 else 0); }
  }

  lemma TailStepDigits(i: nat)
    requires 0 < i < 32
    ensures i != 16 ==> i / 16 == (i - 1) / 16
    ensures i % 4 != 0 ==> i % 16 / 4 == (i - 1) % 16 / 4 && i % 4 == (i - 1) % 4 + 1
    ensures i % 4 == 0 ==> (i - 1) % 4 == 3
    ensures i % 4 == 0 && i != 16 ==> i % 16 / 4 == (i - 1) % 16 / 4 + 1
    ensures i % 16 / 4 <= 3
  {
  }

  lemma TailStep(width: nat, height: nat, simd: nat, w: Walk, grf: nat, i: nat)
    requires Tileable(width, height, simd) && 0 < i < simd
    requires BandGrfs(width, height, simd) <= grf < NumGrfs(width, height, simd)
    requires At(width, height, simd, w, Lane(grf, i - 1))
    ensures At(width, height, simd, LaneStep(width, height, simd, i, w), Lane(grf, i))
  {
    var tiles, m := TailGeometry(width, height, simd, grf);
    var k, r := FullBands(height, simd), grf - tiles;
    var t := 2 * r + (i - 1) / 16;
    TailStepDigits(i);
    assert 2 * r < m;
    assert Cell(w.x, w.y) == if t < m then Cell(4 * t, 8 * k) else Cell(0, 0);
    assert w.extraX == (i - 1) % 4 && w.extraY == (i - 1) % 16 / 4;
    var s, u := LaneStep(width, height, simd, i, w), 2 * r + i / 16;
    if i == 16 {
      assert t == 2 * r && u == 2 * r + 1;
      assert Cell(s.x, s.y) == if u < m then Cell(4 * u, 8 * k) else Cell(0, 0);
    } else {
      assert Cell(s.x, s.y) == Cell(w.x, w.y);
    }
  }

  lemma NextTailThread(width: nat, height: nat, simd: nat, w: Walk, grf: nat)
    requires Tileable(width, height, simd) && BandGrfs(width, height, simd) <= grf
      && grf + 1 < NumGrfs(width, height, simd)
    requires At(width, height, simd, w, Lane(grf, simd - 1))
    ensures Entering(width, height, simd, w.x + XDelta(simd), w.y, grf + 1)
  {
    Geometry(width, height, simd);
    var m, k, r := TilesPerBand(width, simd), FullBands(height, simd), grf - BandGrfs(width, height, simd);
    assert simd == 32 && width == 4 * m && 2 * (r + 1) < m;
    assert TailTile(width, height, simd, Lane(grf, 31)) == 2 * r + 1;
    assert Cell(w.x, w.y) == Cell(4 * (2 * r + 1), 8 * k);
    assert TailTile(width, height, simd, Lane(grf + 1, 0)) == 2 * (r + 1);
  }

  lemma NextBandThread(width: nat, height: nat, simd: nat, w: Walk, grf: nat)
    requires Tileable(width, height, simd) && grf < BandGrfs(width, height, simd)
      && grf + 1 < NumGrfs(width, height, simd)
    requires At(width, height, simd, w, Lane(grf, simd - 1))
    ensures Entering(width, height, simd, w.x + XDelta(simd), w.y, grf + 1)
  {
    Geometry(width, height, simd);
    var m, k, bh, xd := TilesPerBand(width, simd), FullBands(height, simd), BandHeight(simd), XDelta(simd);
    BandTile(grf, m, k);
    NextTile(grf, m);
    assert Cell(w.x, w.y) == Cell(xd * (grf % m), bh * (grf / m));
    var s := LaneStep(width, height, simd, 0, Walk(w.x + xd, w.y, 0, 0));
    if grf + 1 < m * k {
      BandTile(grf + 1, m, k);
      assert Cell(s.x, s.y) == Cell(xd * ((grf + 1) % m), bh * ((grf + 1) / m));
    } else {
      LastTile(grf, m, k);
      assert Cell(s.x, s.y) == Cell(0, 8 * k);
      assert TailTile(width, height, simd, Lane(grf + 1, 0)) == 0;
    }
  }

  /** The tile corner a thread starts at after its predecessor's last lane. */
  lemma NextThread(width: nat, height: nat, simd: nat, w: Walk, grf: nat)
    requires Tileable(width, height, simd) && grf + 1 < NumGrfs(width, height, simd)
    requires At(width, height, simd, w, Lane(grf, simd - 1))
    ensures Entering(width, height, simd, w.x + XDelta(simd), w.y, grf + 1)
  {
    if grf < BandGrfs(width, height, simd) {
      NextBandThread(width, height, simd, w, grf);
    } else {
      NextTailThread(width, height, simd, w, grf);
    }
  }

  /** The tile after tile g of a band grid: the next column, or the first one of the next band. */
  lemma NextTile(g: nat, m: nat)
    requires m > 0
    ensures g % m + 1 < m ==> (g + 1) % m == g % m + 1 && (g + 1) / m == g / m
    ensures g % m + 1 == m ==> (g + 1) % m == 0 && (g + 1) / m == g / m + 1
  {
    if g % m + 1 < m {
      DivModUnique(g + 1, m, g / m, g % m + 1);
    } else {
      DivModUnique(g + 1, m, g / m + 1, 0);
    }
  }

  lemma LastTile(g: nat, m: nat, k: nat)
    requires m > 0 && g + 1 == m * k
    ensures g / m + 1 == k && g % m + 1 == m
  {
    DivModUnique(g, m, k - 1, m - 1);
  }

  lemma FirstThread(width: nat, height: nat, simd: nat)
    requires Tileable(width, height, simd)
    ensures Entering(width, height, simd, 0, 0, 0) && NumGrfs(width, height, simd) > 0
  {
    var m, k := TilesPerBand(width, simd), FullBands(height, simd);
    Geometry(width, height, simd);
    NoBands(m, k);
    if m * k > 0 {
      DivModUnique(0, m, 0, 0);
    }
  }

  lemma NoBands(m: nat, k: nat)
    requires m > 0
    ensures m * k == 0 <==> k == 0
  {
  }

  lemma TileFits(width: nat, height: nat, simd: nat, lane: Lane)
    requires Tileable(width, height, simd) && lane.index < simd && lane.grf < NumGrfs(width, height, simd)
    ensures TileOf(width, height, simd, lane).x + XDelta(simd) <= width
  {
    Geometry(width, height, simd);
    if lane.grf < BandGrfs(width, height, simd) {
      BandTile(lane.grf, TilesPerBand(width, simd), FullBands(height, simd));
    }
  }

  /** At a lane's position the walk holds its work-item, inside the group. */
  lemma Stays(width: nat, height: nat, simd: nat, w: Walk, lane: Lane)
    requires Tileable(width, height, simd) && lane.index < simd && lane.grf < NumGrfs(width, height, simd)
    requires At(width, height, simd, w, lane)
    ensures w.x + XDelta(simd) <= width && w.x + w.extraX < width && w.y + w.extraY < height
    ensures CellOf(width, height, simd, lane) == Cell(w.x + w.extraX, w.y + w.extraY)
  {
    TileFits(width, height, simd, lane);
    LaneInGroup(width, height, simd, lane);
  }

  // ----- the generator --------------------------------------------------------------------

  /** The stored ids of one lane: its x, y and z words in the three rows of its thread. */
  predicate Holds(words: seq<nat>, width: nat, height: nat, simd: nat, lane: Lane)
    requires ValidSimd(simd) && width >= XDelta(simd)
  {
    var at, row, c := GrfOffset(simd, lane.grf) + lane.index, RowWidth(simd), CellOf(width, height, simd, lane);
    at + 2 * row < |words| && words[at] == c.x && words[at + row] == c.y && words[at + 2 * row] == 0
  }

  ghost predicate HoldsAll(words: seq<nat>, width: nat, height: nat, simd: nat, grfs: nat)
    requires ValidSimd(simd) && width >= XDelta(simd)
  {
    forall g, i :: 0 <= g < grfs && 0 <= i < simd ==> Holds(words, width, height, simd, Lane(g, i))
  }

  ghost predicate HoldsLanes(words: seq<nat>, width: nat, height: nat, simd: nat, grf: nat, lanes: nat)
    requires ValidSimd(simd) && width >= XDelta(simd)
  {
    forall i :: 0 <= i < lanes ==> Holds(words, width, height, simd, Lane(grf, i))
  }

  method GenerateLocalIDsWithLayoutForImages(buffer: array<nat>, width: nat, height: nat, simd: nat)
    requires Tileable(width, height, simd)
    requires GrfOffset(simd, NumGrfs(width, height, simd)) <= buffer.Length
    requires GrfOffset(simd, NumGrfs(width, height, simd)) <= TWO_16  // the offset is a 16-bit variable
    modifies buffer
    ensures HoldsAll(buffer[..], width, height, simd, NumGrfs(width, height, simd))
    ensures forall p :: GrfOffset(simd, NumGrfs(width, height, simd)) <= p < buffer.Length ==> buffer[p] == old(buffer[p])
  {
    var offset: nat := 0;
    var numGrfs := NumGrfs(width, height, simd);
    var x: nat, y: nat := 0, 0;
    FirstThread(width, height, simd);
    for grf := 0 to numGrfs
      invariant offset == GrfOffset(simd, grf)
      invariant grf < numGrfs ==> Entering(width, height, simd, x, y, grf)
      invariant x <= width && y < height
      invariant HoldsAll(buffer[..], width, height, simd, grf)
      invariant forall p :: offset <= p < buffer.Length ==> buffer[p] == old(buffer[p])
    {
      ghost var before := buffer[..];
      ghost var last;
      x, y, last := FillThread(buffer, width, height, simd, grf, offset, x, y);
      AfterThread(before, buffer[..], width, height, simd, grf, last);
      x := x + XDelta(simd);
      offset := offset + 3 * RowWidth(simd);
    }
  }

  lemma AfterThread(before: seq<nat>, after: seq<nat>, width: nat, height: nat, simd: nat, grf: nat, last: Walk)
    requires Tileable(width, height, simd) && |before| == |after| && grf < NumGrfs(width, height, simd)
    requires HoldsAll(before, width, height, simd, grf) && HoldsLanes(after, width, height, simd, grf, simd)
    requires forall p :: 0 <= p < GrfOffset(simd, grf) && p < |after| ==> after[p] == before[p]
    requires At(width, height, simd, last, Lane(grf, simd - 1))
    ensures HoldsAll(after, width, height, simd, grf + 1)
    ensures last.x + XDelta(simd) <= width && last.y < height
    ensures grf + 1 < NumGrfs(width, height, simd)
      ==> Entering(width, height, simd, last.x + XDelta(simd), last.y, grf + 1)
  {
    ThreadDone(before, after, width, height, simd, grf);
    Stays(width, height, simd, last, Lane(grf, simd - 1));
    if grf + 1 < NumGrfs(width, height, simd) { NextThread(width, height, simd, last, grf); }
  }

  /** One pass of the inner loop body up to the stores. */
  method Advance(width: nat, height: nat, simd: nat, i: nat, x0: nat, y0: nat, extraX0: nat, extraY0: nat)
    returns (x: nat, y: nat, extraX: nat, extraY: nat)
    requires ValidSimd(simd)
    ensures Walk(x, y, extraX, extraY) == LaneStep(width, height, simd, i, Walk(x0, y0, extraX0, extraY0))
  {
    x, y, extraX, extraY := x0, y0, extraX0, extraY0;
    if i > 0 {
      extraX := extraX + 1;
      if extraX == XDelta(simd) {
        extraX := 0;
      }
      if i % XDelta(simd) == 0 {
        extraY := extraY + 1;
        if y + extraY == height {
          extraY := 0;
          x := x + XDelta(simd);
        }
      }
    }
    if x == width {
      x := 0;
      y := y + YDelta(simd, height);
      if y >= height {
        y := 0;
      }
    }
  }

  /** The inner loop: store the ids of one thread's lanes; x and y are the tile of its last lane. */
  method FillThread(buffer: array<nat>, width: nat, height: nat, simd: nat, grf: nat, offset: nat, x0: nat, y0: nat)
    returns (x: nat, y: nat, ghost last: Walk)
    requires Tileable(width, height, simd) && grf < NumGrfs(width, height, simd) && offset == GrfOffset(simd, grf)
    requires offset + 3 * RowWidth(simd) <= buffer.Length
    requires x0 <= width && y0 < height && Entering(width, height, simd, x0, y0, grf)
    modifies buffer
    ensures last.x == x && last.y == y && At(width, height, simd, last, Lane(grf, simd - 1))
    ensures HoldsLanes(buffer[..], width, height, simd, grf, simd)
    ensures forall p :: 0 <= p < offset || offset + 3 * RowWidth(simd) <= p < buffer.Length ==> buffer[p] == old(buffer[p])
  {
    var rowWidth := RowWidth(simd);
    var extraX: nat, extraY: nat := 0, 0;
    x, y := x0, y0;
    for i := 0 to simd
      invariant i == 0 ==> extraX == 0 && extraY == 0 && x == x0 && y == y0
      invariant i > 0 ==> At(width, height, simd, Walk(x, y, extraX, extraY), Lane(grf, i - 1))
      invariant HoldsLanes(buffer[..], width, height, simd, grf, i)
      invariant forall p :: 0 <= p < offset || offset + 3 * rowWidth <= p < buffer.Length ==> buffer[p] == old(buffer[p])
    {
      ghost var w := Walk(x, y, extraX, extraY);
      x, y, extraX, extraY := Advance(width, height, simd, i, x, y, extraX, extraY);
      EnterLane(width, height, simd, w, grf, i);
      Stays(width, height, simd, Walk(x, y, extraX, extraY), Lane(grf, i));
      StoreLane(buffer, width, height, simd, grf, i, offset, x + extraX, y + extraY);
    }
    last := Walk(x, y, extraX, extraY);
  }

  /** The three stores of one lane. */
  method StoreLane(buffer: array<nat>, width: nat, height: nat, simd: nat, grf: nat, i: nat, offset: nat, idX: nat,
      idY: nat)
    requires Tileable(width, height, simd) && i < simd && offset == GrfOffset(simd, grf)
    requires offset + 3 * RowWidth(simd) <= buffer.Length
    requires CellOf(width, height, simd, Lane(grf, i)) == Cell(idX, idY)
    requires HoldsLanes(buffer[..], width, height, simd, grf, i)
    modifies buffer
    ensures HoldsLanes(buffer[..], width, height, simd, grf, i + 1)
    ensures forall p :: 0 <= p < offset || offset + 3 * RowWidth(simd) <= p < buffer.Length ==> buffer[p] == old(buffer[p])
  {
    buffer[offset + i] := idX;
    buffer[offset + RowWidth(simd) + i] := idY;
    buffer[offset + 2 * RowWidth(simd) + i] := 0;
    LaneDone(old(buffer[..]), buffer[..], width, height, simd, grf, i);
  }

  lemma LaneDone(before: seq<nat>, after: seq<nat>, width: nat, height: nat, simd: nat, grf: nat, i: nat)
    requires Tileable(width, height, simd) && |before| == |after| && i < simd
    requires GrfOffset(simd, grf) + 3 * RowWidth(simd) <= |after|
    requires HoldsLanes(before, width, height, simd, grf, i) && Holds(after, width, height, simd, Lane(grf, i))
    requires var at, row := GrfOffset(simd, grf) + i, RowWidth(simd);
             forall p :: 0 <= p < |after| && p != at && p != at + row && p != at + 2 * row ==> after[p] == before[p]
    ensures HoldsLanes(after, width, height, simd, grf, i + 1)
  {
    forall j | 0 <= j <= i ensures Holds(after, width, height, simd, Lane(grf, j)) {
      if j < i { assert Holds(before, width, height, simd, Lane(grf, j)); }
    }
  }

  lemma EnterLane(width: nat, height: nat, simd: nat, w: Walk, grf: nat, i: nat)
    requires Tileable(width, height, simd) && grf < NumGrfs(width, height, simd) && i < simd
    requires i == 0 ==> w.extraX == 0 && w.extraY == 0 && Entering(width, height, simd, w.x, w.y, grf)
    requires i > 0 ==> At(width, height, simd, w, Lane(grf, i - 1))
    ensures At(width, height, simd, LaneStep(width, height, simd, i, w), Lane(grf, i))
  {
    if i > 0 {
      if grf < BandGrfs(width, height, simd) {
        BandStep(width, height, simd, w, grf, i);
      } else {
        TailStep(width, height, simd, w, grf, i);
      }
    }
  }

  lemma ThreadDone(before: seq<nat>, after: seq<nat>, width: nat, height: nat, simd: nat, grf: nat)
    requires Tileable(width, height, simd) && |before| == |after|
    requires HoldsAll(before, width, height, simd, grf)
    requires HoldsLanes(after, width, height, simd, grf, simd)
    requires forall p :: 0 <= p < GrfOffset(simd, grf) && p < |after| ==> after[p] == before[p]
    ensures HoldsAll(after, width, height, simd, grf + 1)
  {
    forall g, i | 0 <= g <= grf && 0 <= i < simd ensures Holds(after, width, height, simd, Lane(g, i)) {
      if g < grf {
        assert Holds(before, width, height, simd, Lane(g, i));
      }
    }
  }

  // ----- what the words say ---------------------------------------------------------------

  /**
   * The words of one lane, padding lanes included: x in the first row of its thread, y in the second,
   * 0 in the third. Tiles are as wide as four lanes, or two for SIMD8, and run along the rows of the
   * group; with SIMD32 a last half band holds two 4 x 4 tiles a thread.
   */
  lemma LaneWords(words: seq<nat>, width: nat, height: nat, simd: nat, g: nat, i: nat)
    requires Tileable(width, height, simd) && HoldsAll(words, width, height, simd, NumGrfs(width, height, simd))
    requires g < (width * height + simd - 1) / simd && i < simd
    ensures var r, xd, bh := if simd == 32 then 32 else 16, if simd == 8 then 2 else 4, if simd == 32 then 8 else 4;
      var m, n := width / xd, width / xd * (height / bh);
      var at, t := 3 * r * g + i, 2 * (g - n) + i / 16;
      && at + 2 * r < |words| && m > 0
      && words[at] < width && words[at + r] < height && words[at + 2 * r] == 0
      && words[at] == (if g < n then xd * (g % m) + i % xd else if t < m then 4 * t + i % 4 else i % 4)
      && words[at + r] == (if g < n then bh * (g / m) + i / xd else if t < m then 8 * (height / 8) + i % 16 / 4 else i % 16 / 4)
  {
    var lane := Lane(g, i);
    assert Holds(words, width, height, simd, lane);
    LaneInGroup(width, height, simd, lane);
    if g >= BandGrfs(width, height, simd) {
      var tiles, m := TailGeometry(width, height, simd, g);
      TailPlace(width, height, lane);
    }
  }

  /** Every work-item of the group is stored for one of the first width * height lanes. */
  lemma ItemIsStored(words: seq<nat>, width: nat, height: nat, simd: nat, x: nat, y: nat) returns (g: nat, i: nat)
    requires Tileable(width, height, simd) && HoldsAll(words, width, height, simd, NumGrfs(width, height, simd))
    requires x < width && y < height
    ensures var r := if simd == 32 then 32 else 16;
      && i < simd && simd * g + i < width * height && 3 * r * g + 2 * r + i < |words|
      && words[3 * r * g + i] == x && words[3 * r * g + r + i] == y && words[3 * r * g + 2 * r + i] == 0
  {
    LanesCoverGroup(width, height, simd, Cell(x, y));
    var lane := LaneOf(width, height, simd, Cell(x, y));
    g, i := lane.grf, lane.index;
    ActiveGrf(width, height, simd, lane);
    assert Holds(words, width, height, simd, lane);
  }

  /** And for no second one. */
  lemma ItemIsStoredOnce(words: seq<nat>, width: nat, height: nat, simd: nat, g: nat, i: nat, h: nat, j: nat)
    requires Tileable(width, height, simd) && HoldsAll(words, width, height, simd, NumGrfs(width, height, simd))
    requires i < simd && simd * g + i < width * height && j < simd && simd * h + j < width * height
    requires var r := if simd == 32 then 32 else 16;
      && 3 * r * g + r + i < |words| && 3 * r * h + r + j < |words|
      && words[3 * r * g + i] == words[3 * r * h + j] && words[3 * r * g + r + i] == words[3 * r * h + r + j]
    ensures g == h && i == j
  {
    ActiveGrf(width, height, simd, Lane(g, i));
    ActiveGrf(width, height, simd, Lane(h, j));
    assert Holds(words, width, height, simd, Lane(g, i)) && Holds(words, width, height, simd, Lane(h, j));
    LanesAreDistinct(width, height, simd, Lane(g, i));
    LanesAreDistinct(width, height, simd, Lane(h, j));
  }

  // ----- the caller's buffer --------------------------------------------------------------

  /** The layout test accepts the flat groups of the x-y order that the traversal can tile. */
  lemma CompatibleIff(width: nat, height: nat, depth: nat, order: seq<nat>, simd: nat)
    requires ValidSimd(simd) && |order| == 3 && 0 < width < TWO_16 && 0 < height < TWO_16
    ensures IsCompatibleWithLayoutForImages(width, height, depth, order, simd)
      <==> order[0] == 0 && order[1] == 1 && depth == 1 && Tileable(width, height, simd)
    ensures Tileable(width, height, simd) <==> width % (if simd == 8 then 2 else 4) == 0 && height % 4 == 0
  {
  }

  /** A group the layout test accepts, of at most 1024 items, fits the buffer the driver sets aside. */
  lemma LayoutFitsBuffer(width: nat, height: nat, depth: nat, order: seq<nat>, simd: nat)
    requires ValidSimd(simd) && |order| == 3 && IsCompatibleWithLayoutForImages(width, height, depth, order, simd)
    requires 0 < width && 0 < height && width * height * depth <= 1024
    ensures Tileable(width, height, simd)
    ensures GetThreadsPerWG(simd, width * height * depth) == NumGrfs(width, height, simd)
    ensures GetThreadsPerWG(simd, width * height * depth) * GetPerThreadSizeLocalIDs(simd, 3) ==
            2 * GrfOffset(simd, NumGrfs(width, height, simd))
    ensures GrfOffset(simd, NumGrfs(width, height, simd)) <= TWO_16
  {
    MulMono(1, width, height);
    MulMono(1, height, width);
    assert width * height * depth == width * height;
    var n := NumGrfs(width, height, simd);
    assert n <= 129;
    assert GetPerThreadSizeLocalIDs(simd, 3) == if simd == 32 then 192 else 96;
  }
}
