/** Food placement (MoveToEmptySpace): from a grid-aligned start, step one
    cell to the right at a time, wrapping to the start of the next row at the
    right border and back to the top-left cell at the bottom border, until the
    cell is free of the snake.

    After at most one row the scan runs on the region of cells with x in
    [10, 770] and y in [10, 530]; it never enters column 780 or row 540 again.
    On that region the scan is a cycle through all 77 * 53 cells in reading
    order, which is what makes it terminate whenever one of them is free. */
module Food {
  import opened Geometry
  import opened SnakeBody

  /** Cells per row and rows of the region the scan cycles through. */
  const ScanColumns: int := 77
  const ScanRows: int := 53
  const ScanCells: int := ScanColumns * ScanRows

  /** The cells the scan visits over and over. */
  predicate InScanRegion(p: Pos)
  {
    Aligned(p) && BlockSize <= p.x < BorderWidth && BlockSize <= p.y < BorderHeight
  }

  /** One step of the scan, as the loop body of MoveToEmptySpace does it. */
  function NextScanCell(p: Pos): Pos
  {
    if p.x + BlockSize >= BorderWidth then
      if p.y + BlockSize >= BorderHeight then Pos(BlockSize, BlockSize)
      else Pos(BlockSize, p.y + BlockSize)
    else Pos(p.x + BlockSize, p.y)
  }

  /** The cell the scan reaches after `k` steps from `start`. */
  function ScanPath(start: Pos, k: nat): Pos
  {
    if k == 0 then start else NextScanCell(ScanPath(start, k - 1))
  }

  /** `q` is the first cell on the scan from `start` that the body leaves
      free: the cell MoveToEmptySpace settles on. */
  ghost predicate FirstFreeOnPath(body: Body, start: Pos, q: Pos)
  {
    exists k: nat :: ScanPath(start, k) == q && !Occupies(body, q) &&
      forall j :: 0 <= j < k ==> Occupies(body, ScanPath(start, j))
  }

  /** The scan from `start` meets a cell the body leaves free: exactly the
      condition under which the loop of MoveToEmptySpace ends. */
  ghost predicate ScanMeetsFreeCell(body: Body, start: Pos)
  {
    exists k: nat :: !Occupies(body, ScanPath(start, k))
  }

  /** Reading-order index of a region cell. */
  function Rank(p: Pos): int
  {
    ((p.y - BlockSize) / BlockSize) * ScanColumns + (p.x - BlockSize) / BlockSize
  }

  /** The region cell with reading-order index `r`. */
  function Unrank(r: int): Pos
  {
    Pos(BlockSize + BlockSize * (r % ScanColumns), BlockSize + BlockSize * (r / ScanColumns))
  }

  lemma UnrankRank(r: int)
    requires 0 <= r < ScanCells
    ensures InScanRegion(Unrank(r)) && Rank(Unrank(r)) == r
  {
    var col, row := r % ScanColumns, r / ScanColumns;
    assert 0 <= col < ScanColumns && 0 <= row < ScanRows;
    assert (BlockSize * col) / BlockSize == col;
    assert (BlockSize * row) / BlockSize == row;
  }

  lemma RankUnrank(p: Pos)
    requires InScanRegion(p)
    ensures 0 <= Rank(p) < ScanCells && Unrank(Rank(p)) == p
  {
    var col, row := (p.x - BlockSize) / BlockSize, (p.y - BlockSize) / BlockSize;
    assert p.x == BlockSize + BlockSize * col;
    assert p.y == BlockSize + BlockSize * row;
    assert 0 <= col < ScanColumns && 0 <= row < ScanRows;
    var r := row * ScanColumns + col;
    assert r % ScanColumns == col && r / ScanColumns == row;
  }

  /** A scan step on the region moves to the next index, wrapping from the
      last cell back to the first. */
  lemma NextScanCellRank(p: Pos)
    requires InScanRegion(p)
    ensures InScanRegion(NextScanCell(p))
    ensures Rank(NextScanCell(p)) == if Rank(p) == ScanCells - 1 then 0 else Rank(p) + 1
  {
    var col, row := (p.x - BlockSize) / BlockSize, (p.y - BlockSize) / BlockSize;
    assert p.x == BlockSize + BlockSize * col;
    assert p.y == BlockSize + BlockSize * row;
  }

  /** A scan step from any aligned cell of the field stays aligned and inside
      the field. */
  lemma NextScanCellInField(p: Pos)
    requires InField(p) && Aligned(p)
    ensures InField(NextScanCell(p)) && Aligned(NextScanCell(p))
  {
  }

  /** However far it goes, the scan from an aligned cell of the field stays
      aligned and inside the field. */
  lemma {:induction false} ScanPathInField(start: Pos, k: nat)
    requires InField(start) && Aligned(start)
    ensures InField(ScanPath(start, k)) && Aligned(ScanPath(start, k))
  {
    if k > 0 {
      ScanPathInField(start, k - 1);
      NextScanCellInField(ScanPath(start, k - 1));
    }
  }

  /** Steps left before the scan from `p` reaches the free region cell `f`,
      with any cell outside the region counted as farther than all of them. */
  function ScanDistance(p: Pos, f: Pos): int
  {
    if InScanRegion(p) then
      if Rank(p) <= Rank(f) then Rank(f) - Rank(p) else Rank(f) - Rank(p) + ScanCells
    else ScanCells + BorderWidth + BlockSize - p.x
  }

  /** Every scan step that has not yet met `f` brings it closer. */
  lemma ScanProgress(p: Pos, f: Pos)
    requires InField(p) && Aligned(p) && InScanRegion(f) && p != f
    ensures 0 <= ScanDistance(NextScanCell(p), f) < ScanDistance(p, f)
  {
    if InScanRegion(p) {
      ScanProgressInRegion(p, f);
    } else {
      ScanProgressOutside(p, f);
    }
  }

  /** On the region a step moves one index closer, cyclically. */
  lemma ScanProgressInRegion(p: Pos, f: Pos)
    requires InScanRegion(p) && InScanRegion(f) && p != f
    ensures 0 <= ScanDistance(NextScanCell(p), f) < ScanDistance(p, f)
  {
    RankUnrank(f);
    RankUnrank(p);
    NextScanCellRank(p);
    assert Rank(p) != Rank(f);
  }

  /** From column 780 or row 540 a step moves 10 pixels to the right or
      enters the region. */
  lemma ScanProgressOutside(p: Pos, f: Pos)
    requires InField(p) && Aligned(p) && !InScanRegion(p) && InScanRegion(f)
    ensures 0 <= ScanDistance(NextScanCell(p), f) < ScanDistance(p, f)
  {
    RankUnrank(f);
    var q := NextScanCell(p);
    if InScanRegion(q) {
      RankUnrank(q);
    } else {
      assert q.x == p.x + BlockSize;
    }
  }

  /** MoveToEmptySpace: the first free cell on the scan from `start`. The
      source loops for ever when the scan never meets a free cell, so that
      is what it needs of its callers. */
  method MoveToEmptySpace(body: Body, start: Pos) returns (p: Pos)
    requires InField(start) && Aligned(start)
    requires ScanMeetsFreeCell(body, start)
    ensures InField(p) && Aligned(p)
    ensures !Occupies(body, p)
    ensures !Occupies(body, start) ==> p == start
    ensures FirstFreeOnPath(body, start, p)
  {
    ghost var goal: nat :| !Occupies(body, ScanPath(start, goal));
    ghost var k: nat := 0;
    p := start;
    var here := IsSnakeHere(body, p);
    while here == 1
      invariant InField(p) && Aligned(p)
      invariant k <= goal
      invariant p == ScanPath(start, k)
      invariant forall j :: 0 <= j < k ==> Occupies(body, ScanPath(start, j))
      invariant here == 1 <==> Occupies(body, p)
      decreases goal - k
    {
      NextScanCellInField(p);
      ghost var previous := p;
      var x, y := p.x + BlockSize, p.y;
      if x >= BorderWidth {
        y := y + BlockSize;
        x := BlockSize;
        if y >= BorderHeight {
          y := BlockSize;
          x := BlockSize;
        }
      }
      p := Pos(x, y);
      assert p == NextScanCell(previous);
      assert ScanPath(start, k + 1) == p;
      k := k + 1;
      here := IsSnakeHere(body, p);
    }
    assert ScanPath(start, k) == p && !Occupies(body, p);
  }

  /** Starting one step later shifts the scan by one step. */
  lemma {:induction false} ScanPathShift(start: Pos, k: nat)
    ensures ScanPath(NextScanCell(start), k) == ScanPath(start, k + 1)
  {
    if k > 0 {
      ScanPathShift(start, k - 1);
    }
  }

  /** From any aligned cell of the field the scan reaches every cell of the
      region. */
  lemma {:induction false} ScanReaches(start: Pos, f: Pos)
    requires InField(start) && Aligned(start) && InScanRegion(f)
    ensures exists k: nat :: ScanPath(start, k) == f
    decreases ScanDistance(start, f)
  {
    if start == f {
      assert ScanPath(start, 0) == f;
    } else {
      ScanProgress(start, f);
      NextScanCellInField(start);
      ScanReaches(NextScanCell(start), f);
      var k: nat :| ScanPath(NextScanCell(start), k) == f;
      ScanPathShift(start, k);
      assert ScanPath(start, k + 1) == f;
    }
  }

  /** A free cell anywhere in the region makes the scan end. */
  lemma FreeRegionCellEndsScan(body: Body, start: Pos, f: Pos)
    requires InField(start) && Aligned(start)
    requires InScanRegion(f) && !Occupies(body, f)
    ensures ScanMeetsFreeCell(body, start)
  {
    ScanReaches(start, f);
    var k: nat :| ScanPath(start, k) == f;
    assert !Occupies(body, ScanPath(start, k));
  }

  /** The cell the scan settles on is unique. */
  lemma FirstFreeUnique(body: Body, start: Pos, q1: Pos, q2: Pos)
    requires FirstFreeOnPath(body, start, q1) && FirstFreeOnPath(body, start, q2)
    ensures q1 == q2
  {
    var k1: nat :| ScanPath(start, k1) == q1 && !Occupies(body, q1) &&
      forall j :: 0 <= j < k1 ==> Occupies(body, ScanPath(start, j));
    var k2: nat :| ScanPath(start, k2) == q2 && !Occupies(body, q2) &&
      forall j :: 0 <= j < k2 ==> Occupies(body, ScanPath(start, j));
  }

  /** The settled cell is never one the snake is on, and lies in the field. */
  lemma FirstFreeIsFree(body: Body, start: Pos, q: Pos)
    requires InField(start) && Aligned(start)
    requires FirstFreeOnPath(body, start, q)
    ensures !Occupies(body, q) && InField(q) && Aligned(q)
  {
    var k: nat :| ScanPath(start, k) == q && !Occupies(body, q) &&
      forall j :: 0 <= j < k ==> Occupies(body, ScanPath(start, j));
    ScanPathInField(start, k);
  }

  // ---- Counting argument: a snake shorter than the region leaves a free cell.

  /** The indices 0 .. n - 1. */
  function Range(n: nat): set<int>
  {
    if n == 0 then {} else Range(n - 1) + {n - 1}
  }

  lemma {:induction false} RangeMembers(n: nat)
    ensures forall r :: r in Range(n) <==> 0 <= r < n
  {
    if n > 0 {
      RangeMembers(n - 1);
    }
  }

  /** Indices of the region cells that some segment covers. */
  function Covered(body: Body): set<int>
  {
    set r | 0 <= r < ScanCells && Occupies(body, Unrank(r))
  }

  lemma {:induction false} RangeSize(n: nat)
    ensures |Range(n)| == n
  {
    if n > 0 {
      RangeSize(n - 1);
      RangeMembers(n - 1);
      assert n - 1 !in Range(n - 1);
    }
  }

  lemma SubsetSize<T>(a: set<T>, b: set<T>)
    requires a <= b
    ensures |a| <= |b|
  {
    assert b == a + (b - a);
  }

  /** A body covers at most one region index per segment. */
  lemma {:induction false} CoveredSize(body: Body)
    ensures |Covered(body)| <= |body|
  {
    if |body| == 0 {
      assert Covered(body) == {};
    } else {
      var init := body[..|body| - 1];
      var q := Last(body);
      CoveredSize(init);
      forall r | r in Covered(body)
        ensures r in Covered(init) + {Rank(q)}
      {
        var i :| 0 <= i < |body| && body[i] == Unrank(r);
        if i < |body| - 1 {
          assert init[i] == Unrank(r);
        } else {
          UnrankRank(r);
        }
      }
      SubsetSize(Covered(body), Covered(init) + {Rank(q)});
    }
  }

  /** A snake with fewer segments than the region has cells leaves a region
      cell free. */
  lemma ShortSnakeLeavesFreeCell(body: Body)
    requires |body| < ScanCells
    ensures exists c :: InScanRegion(c) && !Occupies(body, c)
  {
    CoveredSize(body);
    RangeSize(ScanCells);
    RangeMembers(ScanCells);
    assert Covered(body) <= Range(ScanCells);
    assert Covered(body) != Range(ScanCells);
    var r :| r in Range(ScanCells) && r !in Covered(body);
    UnrankRank(r);
    assert InScanRegion(Unrank(r)) && !Occupies(body, Unrank(r));
  }

  /** So on a snake with fewer segments than the region has cells, the scan
      from any aligned cell of the field ends. */
  lemma ShortSnakeScanEnds(body: Body, start: Pos)
    requires |body| < ScanCells
    requires InField(start) && Aligned(start)
    ensures ScanMeetsFreeCell(body, start)
  {
    ShortSnakeLeavesFreeCell(body);
    var f :| InScanRegion(f) && !Occupies(body, f);
    FreeRegionCellEndsScan(body, start, f);
  }
}
