/** Grid capacity and cell enumeration: how many windows of a given size fit
    in a region (`calculate_window_capacity`), which cells the grid offers,
    which of them are still free, and the cells synthesised past the grid
    when the limit is bypassed. */
module Grid {
  import opened Types
  import opened Seqs
  import opened Screens

  /** Columns and rows of whole cells that fit in a region. The original uses
      Python's floor division; for a positive divisor Dafny's `/` agrees. */
  function Capacity(region: Region, size: CellSize): (r: (int, int))
    ensures r.0 * size.width <= region.width < (r.0 + 1) * size.width
    ensures r.1 * size.height <= region.height < (r.1 + 1) * size.height
  {
    (region.width / size.width, region.height / size.height)
  }

  /** The top-left corner of the cell in column `col` and row `row` of a region. */
  function CellAt(region: Region, size: CellSize, col: int, row: int): Cell {
    Cell(region.left + col * size.width, region.top + row * size.height)
  }

  /** Row-major order: an earlier row first, then further left in the same row. */
  predicate RowMajor(a: Cell, b: Cell) {
    a.y < b.y || (a.y == b.y && a.x < b.x)
  }

  /** The whole `size` cell whose corner is `c` lies inside `region`. */
  predicate Inside(c: Cell, size: CellSize, region: Region) {
    && region.left <= c.x && c.x + size.width <= region.left + region.width
    && region.top <= c.y && c.y + size.height <= region.top + region.height
  }

  lemma MulStrict(a: int, b: int, w: int)
    requires a < b && w > 0
    ensures a * w < b * w
  {
    assert b * w == a * w + (b - a) * w;
  }

  lemma MulMono(a: int, b: int, w: int)
    requires a <= b && w > 0
    ensures a * w <= b * w
  {
    if a < b {
      MulStrict(a, b, w);
    }
  }

  /** Cells `col .. cols-1` of one row, left to right. */
  function RowCells(region: Region, size: CellSize, row: int, col: int, cols: int): seq<Cell>
    decreases cols - col
  {
    if col >= cols then []
    else [CellAt(region, size, col, row)] + RowCells(region, size, row, col + 1, cols)
  }

  lemma {:induction false} RowCellsSpec(region: Region, size: CellSize, row: int, col: int, cols: int)
    ensures var r := RowCells(region, size, row, col, cols);
      && (forall c :: c in r <==> exists k :: col <= k < cols && c == CellAt(region, size, k, row))
      && Ordered(r, RowMajor)
    decreases cols - col
  {
    if col < cols {
      RowCellsSpec(region, size, row, col + 1, cols);
      var head := CellAt(region, size, col, row);
      var rest := RowCells(region, size, row, col + 1, cols);
      forall c | c in rest
        ensures RowMajor(head, c)
      {
        var k :| col + 1 <= k < cols && c == CellAt(region, size, k, row);
        MulStrict(col, k, size.width);
      }
      OrderedCons(head, rest, RowMajor);
    }
  }

  /** Rows `row .. rows-1` of a region, each row left to right. */
  function GridRows(region: Region, size: CellSize, row: int, rows: int, cols: int): seq<Cell>
    decreases rows - row
  {
    if row >= rows then []
    else RowCells(region, size, row, 0, cols) + GridRows(region, size, row + 1, rows, cols)
  }

  lemma {:induction false} GridRowsSpec(region: Region, size: CellSize, row: int, rows: int, cols: int)
    ensures var r := GridRows(region, size, row, rows, cols);
      && (forall c :: c in r <==>
            exists k, l :: 0 <= k < cols && row <= l < rows && c == CellAt(region, size, k, l))
      && Ordered(r, RowMajor)
    decreases rows - row
  {
    if row < rows {
      GridRowsSpec(region, size, row + 1, rows, cols);
      RowCellsSpec(region, size, row, 0, cols);
      var first := RowCells(region, size, row, 0, cols);
      var rest := GridRows(region, size, row + 1, rows, cols);
      forall a, b | a in first && b in rest
        ensures RowMajor(a, b)
      {
        var k :| 0 <= k < cols && a == CellAt(region, size, k, row);
        var k', l :| 0 <= k' < cols && row + 1 <= l < rows && b == CellAt(region, size, k', l);
        MulStrict(row, l, size.height);
      }
      OrderedConcat(first, rest, RowMajor);
      forall c | exists k, l :: 0 <= k < cols && row <= l < rows && c == CellAt(region, size, k, l)
        ensures c in first + rest
      {
        var k, l :| 0 <= k < cols && row <= l < rows && c == CellAt(region, size, k, l);
        if l == row {
          assert c in first;
        } else {
          assert c in rest;
        }
      }
    }
  }

  /** A grid cell of a region lies wholly inside it. */
  lemma CellAtInside(region: Region, size: CellSize, col: int, row: int)
    requires 0 <= col < Capacity(region, size).0
    requires 0 <= row < Capacity(region, size).1
    ensures Inside(CellAt(region, size, col, row), size, region)
  {
    var cap := Capacity(region, size);
    MulMono(0, col, size.width);
    MulMono(col + 1, cap.0, size.width);
    MulMono(0, row, size.height);
    MulMono(row + 1, cap.1, size.height);
  }

  /** The cells of one region, row-major (`range(v_count)` outside, `range(h_count)` inside). */
  function RegionCells(region: Region, size: CellSize): (r: seq<Cell>)
    ensures forall c :: c in r <==>
      exists col, row :: 0 <= col < Capacity(region, size).0 && 0 <= row < Capacity(region, size).1
        && c == CellAt(region, size, col, row)
    ensures Ordered(r, RowMajor)
    ensures forall c :: c in r ==> Inside(c, size, region)
  {
    var cap := Capacity(region, size);
    GridRowsSpec(region, size, 0, cap.1, cap.0);
    var r := GridRows(region, size, 0, cap.1, cap.0);
    assert forall c :: c in r ==> Inside(c, size, region) by {
      forall c | c in r
        ensures Inside(c, size, region)
      {
        var k, l :| 0 <= k < cap.0 && 0 <= l < cap.1 && c == CellAt(region, size, k, l);
        CellAtInside(region, size, k, l);
      }
    }
    r
  }

  /** The cells of all regions, region by region. */
  function AllCells(screens: seq<Region>, size: CellSize): (r: seq<Cell>)
    ensures forall c :: c in r <==> exists i :: 0 <= i < |screens| && c in RegionCells(screens[i], size)
  {
    if screens == [] then []
    else
      var rest := AllCells(screens[1..], size);
      assert forall c :: c in rest <==> exists i :: 1 <= i < |screens| && c in RegionCells(screens[i], size) by {
        forall c | c in rest
          ensures exists i :: 1 <= i < |screens| && c in RegionCells(screens[i], size)
        {
          var i :| 0 <= i < |screens[1..]| && c in RegionCells(screens[1..][i], size);
          assert screens[1..][i] == screens[i + 1];
        }
        forall c, i | 1 <= i < |screens| && c in RegionCells(screens[i], size)
          ensures c in rest
        {
          assert screens[1..][i - 1] == screens[i];
        }
      }
      RegionCells(screens[0], size) + rest
  }

  /** The cell corners held by tracked windows (`used_positions`). */
  function UsedCells(m: Tracked): (r: set<Cell>)
    ensures forall h :: h in m ==> CellOf(m[h]) in r
    ensures forall c :: c in r ==> exists h :: h in m && CellOf(m[h]) == c
  {
    set h | h in m :: CellOf(m[h])
  }

  /** The grid cells not held by any tracked window, in enumeration order. */
  function Available(screens: seq<Region>, size: CellSize, used: set<Cell>): (r: seq<Cell>)
    ensures forall c :: c in r <==> c in AllCells(screens, size) && c !in used
  {
    Filter(AllCells(screens, size), c => c !in used)
  }

  /** With no cell in use every grid cell is offered, in enumeration order. */
  lemma AvailableAllFree(screens: seq<Region>, size: CellSize, used: set<Cell>)
    requires forall c :: c in used ==> c !in AllCells(screens, size)
    ensures Available(screens, size, used) == AllCells(screens, size)
  {
    var all := AllCells(screens, size);
    forall i | 0 <= i < |all|
      ensures all[i] !in used
    {
      assert all[i] in all;
    }
    FilterAll(all, c => c !in used);
  }

  /** The enumeration order of cells over the topology of `ScreenInfo`: the
      primary display (x left of `split`) before the secondary one, and
      row-major within each. */
  predicate ScreenOrder(split: int, a: Cell, b: Cell) {
    (a.x < split && split <= b.x) || ((a.x < split <==> b.x < split) && RowMajor(a, b))
  }

  /** The cells of the detected topology come primary display first, then the
      secondary one, each row-major; in particular no cell appears twice. */
  lemma ScreenCellsOrdered(m: Metrics, size: CellSize)
    ensures Ordered(AllCells(ScreenInfo(Some(m)), size), (a, b) => ScreenOrder(m.screenWidth, a, b))
    ensures Distinct(AllCells(ScreenInfo(Some(m)), size))
  {
    var screens := ScreenInfo(Some(m));
    var split := m.screenWidth;
    var before := (a, b) => ScreenOrder(split, a, b);
    var first := RegionCells(screens[0], size);
    var all := AllCells(screens, size);
    forall i, j | 0 <= i < j < |first|
      ensures before(first[i], first[j])
    {
      assert first[i] in first && first[j] in first;
    }
    if |screens| == 1 {
      assert AllCells(screens[1..], size) == [];
      assert all == first;
    } else {
      var second := RegionCells(screens[1], size);
      assert AllCells(screens[2..], size) == [];
      assert all == first + second;
      forall i, j | 0 <= i < j < |second|
        ensures before(second[i], second[j])
      {
        assert second[i] in second && second[j] in second;
      }
      forall a, b | a in first && b in second
        ensures before(a, b)
      {
      }
      OrderedConcat(first, second, before);
    }
    OrderedDistinct(all, before);
  }

  /** The free cells of the detected topology keep the enumeration order and
      are pairwise distinct. */
  lemma AvailableOrdered(m: Metrics, size: CellSize, used: set<Cell>)
    ensures Ordered(Available(ScreenInfo(Some(m)), size, used), (a, b) => ScreenOrder(m.screenWidth, a, b))
    ensures Distinct(Available(ScreenInfo(Some(m)), size, used))
  {
    var before := (a, b) => ScreenOrder(m.screenWidth, a, b);
    ScreenCellsOrdered(m, size);
    FilterOrdered(AllCells(ScreenInfo(Some(m)), size), c => c !in used, before);
    OrderedDistinct(Available(ScreenInfo(Some(m)), size, used), before);
  }

  /** `free` extended by `extra` synthesised cells: each one is the last cell
      of the list so far moved right by `width`, starting at (0, 0) when the
      list is empty. */
  function Overflow(free: seq<Cell>, extra: nat, width: int): (r: seq<Cell>)
    decreases extra
    ensures |r| == |free| + extra
    ensures r[..|free|] == free
    ensures forall j :: |free| <= j < |r| ==>
      r[j] == (if free == [] then Cell(j * width, 0)
               else Cell(free[|free| - 1].x + (j - |free| + 1) * width, free[|free| - 1].y))
  {
    if extra == 0 then free
    else
      var next := if free == [] then Cell(0, 0) else Cell(free[|free| - 1].x + width, free[|free| - 1].y);
      var r := Overflow(free + [next], extra - 1, width);
      assert r[|free|] == next by {
        assert r[..|free| + 1] == free + [next];
      }
      forall j | |free| < j < |r|
        ensures r[j] == (if free == [] then Cell(j * width, 0)
                         else Cell(free[|free| - 1].x + (j - |free| + 1) * width, free[|free| - 1].y))
      {
        assert j - |free + [next]| + 1 == j - |free|;
        assert (j - |free| + 1) * width == (j - |free|) * width + width;
      }
      r
  }

  /** Synthesised cells march strictly to the right along one row. */
  lemma OverflowMarchesRight(free: seq<Cell>, extra: nat, width: int)
    requires width > 0
    ensures var r := Overflow(free, extra, width);
      forall i, j :: |free| <= i < j < |r| ==> r[i].x < r[j].x && r[i].y == r[j].y
  {
    var r := Overflow(free, extra, width);
    forall i, j | |free| <= i < j < |r|
      ensures r[i].x < r[j].x && r[i].y == r[j].y
    {
      if free == [] {
        MulStrict(i, j, width);
      } else {
        MulStrict(i - |free| + 1, j - |free| + 1, width);
      }
    }
  }
}
