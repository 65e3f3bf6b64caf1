/** Scenarios of the layout engine on a single 960×688 display with
    480×344 cells: a 2×2 grid. The display, the cell size and the windows
    are parameters fixed by preconditions, field by field. */
module Scenarios {
  import opened Types
  import opened Seqs
  import opened Screens
  import opened Grid
  import opened Tracking
  import opened Manage

  /** One display of 960×688. */
  predicate OneDisplay(m: Metrics) {
    m.screenWidth == 960 && m.screenHeight == 688 && m.monitors == 1
  }

  /** Cells of 480×344. */
  predicate HalfCells(size: CellSize) {
    size.width == 480 && size.height == 344
  }

  /** The windows 1, 2, ..., n in this enumeration order. */
  predicate Numbered(hs: seq<Handle>, n: nat) {
    |hs| == n && forall i :: 0 <= i < n ==> hs[i] == i + 1
  }

  /** The four cells of the 2×2 grid, in enumeration order. */
  const Quad: seq<Cell> := [Cell(0, 0), Cell(480, 0), Cell(0, 344), Cell(480, 344)]

  /** The windows `hs`, all valid, visible and titled "T", window h
      standing at (10h, 20h). */
  function Titled(hs: seq<Handle>): Desktop {
    Desktop(hs, _ => true, _ => true, _ => "T", h => Rect(10 * h, 20 * h, 10 * h + 100, 20 * h + 100), _ => Styles.Caption)
  }

  const Tile: Flags := Flags(false, false, false, false)
  const Bypass: Flags := Flags(false, false, false, true)

  lemma MatchingAll(hs: seq<Handle>)
    ensures MatchingWindows(Titled(hs), "T") == hs
  {
    FilterAll(hs, h => Matches(Titled(hs), "T", h));
  }

  /** A region two cells wide and two cells high, enumerated row-major. */
  lemma TwoByTwo(region: Region, size: CellSize)
    ensures GridRows(region, size, 0, 2, 2) ==
      [CellAt(region, size, 0, 0), CellAt(region, size, 1, 0), CellAt(region, size, 0, 1), CellAt(region, size, 1, 1)]
  {
    assert RowCells(region, size, 0, 2, 2) == [];
    assert RowCells(region, size, 1, 2, 2) == [];
    assert GridRows(region, size, 2, 2, 2) == [];
    assert GridRows(region, size, 1, 2, 2) == [CellAt(region, size, 0, 1), CellAt(region, size, 1, 1)];
  }

  lemma ScreenCells(screen: Region, size: CellSize)
    requires screen == Region(0, 0, 960, 688) && HalfCells(size)
    ensures RegionCells(screen, size) == Quad
  {
    assert Capacity(screen, size) == (2, 2);
    TwoByTwo(screen, size);
  }

  /** The grid of the display is the four cells, row-major. */
  lemma FourCells(m: Metrics, size: CellSize)
    requires OneDisplay(m) && HalfCells(size)
    ensures ScreenInfo(Some(m)) == [Region(0, 0, 960, 688)]
    ensures AllCells(ScreenInfo(Some(m)), size) == Quad
    ensures Available(ScreenInfo(Some(m)), size, {}) == Quad
  {
    var screens := ScreenInfo(Some(m));
    assert |screens| == 1;
    ScreenCells(screens[0], size);
    assert AllCells(screens, size) == Quad + AllCells(screens[1..], size);
    assert AllCells(screens[1..], size) == [];
    AvailableAllFree(screens, size, {});
  }

  /** Five fresh windows starting from nothing tracked are all new. */
  lemma FreshStart(tracked: Tracked, hs: seq<Handle>)
    requires tracked == map[] && Numbered(hs, 5)
    ensures MatchingWindows(Titled(hs), "T") == hs
    ensures Incoming(tracked, hs) == hs
  {
    MatchingAll(hs);
    NewHandlesAllNew(hs, tracked.Keys);
  }

  /** Starting from nothing tracked, the whole grid is free. */
  lemma FreshFree(tracked: Tracked, hs: seq<Handle>, m: Metrics, size: CellSize)
    requires tracked == map[] && OneDisplay(m) && HalfCells(size)
    ensures Kept(tracked, hs) == map[]
    ensures Free(tracked, hs, ScreenInfo(Some(m)), size) == Quad
  {
    assert Kept(tracked, hs) == map[];
    assert UsedCells(Kept(tracked, hs)) == {};
    FourCells(m, size);
  }

  /** Five windows appear at once on the 2×2 grid without the limit
      bypassed: the pass is refused and nothing is tracked or moved. */
  lemma FifthWindowRefused(tracked: Tracked, hs: seq<Handle>, m: Metrics, size: CellSize)
    requires tracked == map[] && Numbered(hs, 5) && OneDisplay(m) && HalfCells(size)
    ensures ManageWindows(tracked, Titled(hs), Some(m), "T", size, Tile) == Outcome(Failed(InsufficientSpace), map[], [])
  {
    FreshStart(tracked, hs);
    FreshFree(tracked, hs, m, size);
  }

  /** One cell past the four of the grid, on the row of the last one. */
  lemma OverflowSlots(free: seq<Cell>, size: CellSize)
    requires free == Quad && HalfCells(size)
    ensures var slots := Slots(free, 5, size.width, true);
      |slots| == 5 && slots[0] == Cell(0, 0) && slots[3] == Cell(480, 344) && slots[4] == Cell(960, 344)
  {
  }

  /** With windows to manage and displays to place them on, the pass is
      the reconciliation of the tracked set with the matching windows. */
  lemma PassReconciles(tracked: Tracked, hs: seq<Handle>, m: Metrics, size: CellSize, flags: Flags)
    requires hs != []
    ensures ManageWindows(tracked, Titled(hs), Some(m), "T", size, flags) ==
      Reconcile(tracked, hs, ScreenInfo(Some(m)), Titled(hs), size, flags)
  {
    MatchingAll(hs);
    ManageReconciles(tracked, Titled(hs), m, "T", size, flags);
  }

  /** With the limit bypassed the five fresh windows are all placed. */
  lemma BypassStatus(tracked: Tracked, hs: seq<Handle>, m: Metrics, size: CellSize)
    requires tracked == map[] && Numbered(hs, 5) && OneDisplay(m) && HalfCells(size)
    ensures var r := Reconcile(tracked, hs, ScreenInfo(Some(m)), Titled(hs), size, Bypass);
      r.status == Arranged(5) && forall h :: h in r.windows <==> h in hs
  {
    FreshStart(tracked, hs);
    FreshFree(tracked, hs, m, size);
  }

  /** With the limit bypassed the j-th of the five fresh windows takes the
      j-th slot with order j + 1. */
  lemma BypassSlots(tracked: Tracked, hs: seq<Handle>, m: Metrics, size: CellSize)
    requires tracked == map[] && Numbered(hs, 5) && OneDisplay(m) && HalfCells(size)
    ensures var r := Reconcile(tracked, hs, ScreenInfo(Some(m)), Titled(hs), size, Bypass);
      var slots := Slots(Quad, 5, size.width, true);
      forall j :: 0 <= j < 5 ==> hs[j] in r.windows && r.windows[hs[j]] == Record(slots[j].x, slots[j].y, j + 1)
  {
    FreshStart(tracked, hs);
    FreshFree(tracked, hs, m, size);
  }

  lemma ReadFive(w: Tracked, hs: seq<Handle>, slots: seq<Cell>)
    requires Numbered(hs, 5)
    requires |slots| == 5 && slots[0] == Cell(0, 0) && slots[3] == Cell(480, 344) && slots[4] == Cell(960, 344)
    requires forall h :: h in w <==> h in hs
    requires forall j :: 0 <= j < 5 ==> hs[j] in w && w[hs[j]] == Record(slots[j].x, slots[j].y, j + 1)
    ensures w.Keys == {1, 2, 3, 4, 5}
    ensures w[1] == Record(0, 0, 1) && w[4] == Record(480, 344, 4) && w[5] == Record(960, 344, 5)
  {
    assert hs[0] == 1 && hs[3] == 4 && hs[4] == 5;
    assert w[hs[0]] == Record(0, 0, 1);
    assert w[hs[3]] == Record(480, 344, 4);
    assert w[hs[4]] == Record(960, 344, 5);
    forall h
      ensures h in w.Keys <==> h in {1, 2, 3, 4, 5}
    {
      if h in hs {
        var i :| 0 <= i < 5 && hs[i] == h;
      }
      if h in {1, 2, 3, 4, 5} {
        assert hs[h - 1] == h;
      }
    }
  }

  /** The same five windows with the limit bypassed: the first four take the
      grid in order, the fifth a synthesised cell one width right of the last. */
  lemma FifthWindowOverflows(tracked: Tracked, hs: seq<Handle>, m: Metrics, size: CellSize)
    requires tracked == map[] && Numbered(hs, 5) && OneDisplay(m) && HalfCells(size)
    ensures var r := ManageWindows(tracked, Titled(hs), Some(m), "T", size, Bypass);
      && r.status == Arranged(5)
      && r.windows.Keys == {1, 2, 3, 4, 5}
      && r.windows[1] == Record(0, 0, 1)
      && r.windows[4] == Record(480, 344, 4)
      && r.windows[5] == Record(960, 344, 5)
  {
    PassReconciles(tracked, hs, m, size, Bypass);
    BypassStatus(tracked, hs, m, size);
    BypassSlots(tracked, hs, m, size);
    OverflowSlots(Quad, size);
    var r := Reconcile(tracked, hs, ScreenInfo(Some(m)), Titled(hs), size, Bypass);
    ReadFive(r.windows, hs, Slots(Quad, 5, size.width, true));
  }

  /** Windows 1 and 2 hold the top row; window 1 closes as window 3 opens.
      Window 3 takes the cell window 1 left, and its order, one more than the
      one window kept, is the order window 2 already has: orders repeat. */
  lemma OrderRepeats(tracked: Tracked, hs: seq<Handle>, m: Metrics, size: CellSize)
    requires tracked.Keys == {1, 2} && tracked[1] == Record(0, 0, 1) && tracked[2] == Record(480, 0, 2)
    requires |hs| == 2 && hs[0] == 2 && hs[1] == 3 && OneDisplay(m) && HalfCells(size)
    ensures var r := ManageWindows(tracked, Titled(hs), Some(m), "T", size, Tile);
      && r.status == Arranged(2)
      && 2 in r.windows && r.windows[2] == Record(480, 0, 2)
      && 3 in r.windows && r.windows[3] == Record(0, 0, 2)
  {
    var screens := ScreenInfo(Some(m));
    PassReconciles(tracked, hs, m, size, Tile);
    SwapIncoming(tracked, hs);
    SwapKept(tracked, hs);
    SwapFree(tracked, hs, m, size);
    var free := Free(tracked, hs, screens, size);
    assert Slots(free, 1, size.width, false) == free;
    var r := Reconcile(tracked, hs, screens, Titled(hs), size, Tile);
    assert !r.status.Failed?;
    assert r.windows[Incoming(tracked, hs)[0]] == Record(free[0].x, free[0].y, 2);
  }

  lemma SwapIncoming(tracked: Tracked, hs: seq<Handle>)
    requires tracked.Keys == {1, 2}
    requires |hs| == 2 && hs[0] == 2 && hs[1] == 3
    ensures Incoming(tracked, hs) == [3]
  {
    assert NewHandles(hs[1..], tracked.Keys) == [3] + NewHandles([], tracked.Keys + {3});
  }

  lemma SwapKept(tracked: Tracked, hs: seq<Handle>)
    requires tracked.Keys == {1, 2} && tracked[2] == Record(480, 0, 2)
    requires |hs| == 2 && hs[0] == 2 && hs[1] == 3
    ensures Kept(tracked, hs).Keys == {2} && |Kept(tracked, hs)| == 1
    ensures UsedCells(Kept(tracked, hs)) == {Cell(480, 0)}
  {
    var kept := Kept(tracked, hs);
    assert 2 in Elems(hs) && 1 !in Elems(hs);
    assert kept.Keys == {2};
  }

  lemma SwapFree(tracked: Tracked, hs: seq<Handle>, m: Metrics, size: CellSize)
    requires tracked.Keys == {1, 2} && tracked[1] == Record(0, 0, 1) && tracked[2] == Record(480, 0, 2)
    requires |hs| == 2 && hs[0] == 2 && hs[1] == 3 && OneDisplay(m) && HalfCells(size)
    ensures var free := Free(tracked, hs, ScreenInfo(Some(m)), size);
      |free| >= 1 && free[0] == Cell(0, 0)
  {
    var screens := ScreenInfo(Some(m));
    var used := UsedCells(Kept(tracked, hs));
    SwapKept(tracked, hs);
    FourCells(m, size);
    FirstFree(screens, size, used);
    assert Free(tracked, hs, screens, size) == Available(screens, size, used);
  }

  lemma FirstFree(screens: seq<Region>, size: CellSize, used: set<Cell>)
    requires AllCells(screens, size) == Quad && used == {Cell(480, 0)}
    ensures var free := Available(screens, size, used);
      |free| >= 1 && free[0] == Cell(0, 0)
  {
  }

  /** Overflow can land on a held cell while a free cell remains. With
      windows 1, 2 and 3 holding (0, 0), (480, 0) and (480, 344), windows 4
      and 5 arrive with the limit bypassed: the one free cell is (0, 344),
      and the synthesised second slot one cell to its right is the cell
      window 3 holds. */
  lemma OverflowOntoHeld(tracked: Tracked, hs: seq<Handle>, m: Metrics, size: CellSize)
    requires tracked.Keys == {1, 2, 3}
    requires tracked[1] == Record(0, 0, 1) && tracked[2] == Record(480, 0, 2) && tracked[3] == Record(480, 344, 3)
    requires Numbered(hs, 5) && OneDisplay(m) && HalfCells(size)
    ensures Incoming(tracked, hs) == [4, 5]
    ensures var free := Free(tracked, hs, ScreenInfo(Some(m)), size);
      && free == [Cell(0, 344)]
      && Slots(free, 2, size.width, true) == [Cell(0, 344), Cell(480, 344)]
    ensures Cell(480, 344) in UsedCells(Kept(tracked, hs))
  {
    ThreeHeld(tracked, hs);
    FourCells(m, size);
    var screens := ScreenInfo(Some(m));
    LastFree(screens, size, UsedCells(tracked));
    assert Free(tracked, hs, screens, size) == [Cell(0, 344)];
  }

  /** Windows 1, 2 and 3 stay tracked, and 4 and 5 are the new ones. */
  lemma ThreeHeld(tracked: Tracked, hs: seq<Handle>)
    requires tracked.Keys == {1, 2, 3}
    requires tracked[1] == Record(0, 0, 1) && tracked[2] == Record(480, 0, 2) && tracked[3] == Record(480, 344, 3)
    requires Numbered(hs, 5)
    ensures Kept(tracked, hs) == tracked
    ensures UsedCells(tracked) == {Cell(0, 0), Cell(480, 0), Cell(480, 344)}
    ensures Incoming(tracked, hs) == [4, 5]
  {
    assert hs[0] == 1 && hs[1] == 2 && hs[2] == 3;
    assert 1 in Elems(hs) && 2 in Elems(hs) && 3 in Elems(hs);
    assert Kept(tracked, hs) == tracked;
    TwoNew(tracked.Keys, hs);
  }

  lemma TwoNew(known: set<Handle>, hs: seq<Handle>)
    requires known == {1, 2, 3} && Numbered(hs, 5)
    ensures NewHandles(hs, known) == [4, 5]
  {
    var tail := hs[3..];
    assert tail == [4, 5];
    assert NewHandles(hs, known) == NewHandles(hs[1..], known);
    assert NewHandles(hs[1..], known) == NewHandles(hs[2..], known);
    assert NewHandles(hs[2..], known) == NewHandles(tail, known);
    assert NewHandles(tail, known) == [4] + NewHandles([5], known + {4});
    assert NewHandles([5], known + {4}) == [5] + NewHandles([], known + {4, 5});
  }

  lemma LastFree(screens: seq<Region>, size: CellSize, used: set<Cell>)
    requires AllCells(screens, size) == Quad && used == {Cell(0, 0), Cell(480, 0), Cell(480, 344)}
    ensures Available(screens, size, used) == [Cell(0, 344)]
  {
  }
}
