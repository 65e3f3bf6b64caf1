/** `manage_windows` as a state transition: from the tracked-window set, a
    snapshot of the desktop, the display metrics and the flags, to a status,
    the new tracked-window set and the style/position commands issued to the
    windows. */
module Manage {
  import opened Types
  import opened Seqs
  import opened Screens
  import opened Grid
  import opened Styles
  import opened Tracking

  /** One SetWindowLong + SetWindowPos pair: the window is given `style` and
      moved to (x, y) with the cell size. */
  datatype Move = Move(handle: Handle, x: int, y: int, width: int, height: int, style: Style)

  /** `Arranged(n)` and `KeptInPlace` are the two success messages of the
      original, the first reporting the number of matching windows. */
  datatype Status = Arranged(count: nat) | KeptInPlace | Failed(error: Error)

  datatype Outcome = Outcome(status: Status, windows: Tracked, moves: seq<Move>)

  /** The command for window `h` placed with its top-left corner at `c`. */
  function MoveTo(h: Handle, c: Cell, d: Desktop, size: CellSize, flags: Flags): Move {
    Move(h, c.x, c.y, size.width, size.height, ClearStyle(d.style(h), flags.removeTitle, flags.removeBorder))
  }

  /** The live windows not tracked yet. */
  function Incoming(tracked: Tracked, live: seq<Handle>): seq<Handle> {
    NewHandles(live, tracked.Keys)
  }

  /** The tracked set after the windows that disappeared are evicted. */
  function Kept(tracked: Tracked, live: seq<Handle>): Tracked {
    Evict(tracked, Elems(live))
  }

  /** The grid cells not held by a window that is still tracked after eviction. */
  function Free(tracked: Tracked, live: seq<Handle>, screens: seq<Region>, size: CellSize): seq<Cell> {
    Available(screens, size, UsedCells(Kept(tracked, live)))
  }

  /** The cells handed to new windows: the free ones, extended past the grid
      when the limit is bypassed and they do not suffice. */
  function Slots(free: seq<Cell>, need: nat, width: int, bypass: bool): (r: seq<Cell>)
    ensures |r| >= |free|
    ensures bypass ==> |r| >= need
    ensures r[..|free|] == free
    // without bypass, or with enough free cells, the slots are the free cells
    ensures !(bypass && need > |free|) ==> r == free
    // otherwise exactly `need` slots, the missing ones synthesised past the last free cell
    ensures bypass && need > |free| ==>
      && |r| == need
      && forall j :: |free| <= j < need ==>
        r[j] == (if free == [] then Cell(j * width, 0)
                 else Cell(free[|free| - 1].x + (j - |free| + 1) * width, free[|free| - 1].y))
  {
    if bypass && need > |free| then Overflow(free, need - |free|, width) else free
  }

  /** Don't-move mode: every live window, in enumeration order, is recorded
      at the corner of its current rectangle and restyled in place. */
  function KeepInPlace(kept: Tracked, live: seq<Handle>, d: Desktop, size: CellSize, flags: Flags): (r: Outcome)
    ensures r.status == KeptInPlace
    ensures forall h :: h in r.windows <==> h in kept || h in live
    ensures forall h :: h in live ==> h in r.windows && r.windows[h].x == d.rect(h).left && r.windows[h].y == d.rect(h).top
    ensures forall i :: 0 <= i < |live| && live[i] !in live[i + 1..] ==>
      live[i] in r.windows && r.windows[live[i]].order == |kept.Keys + Elems(live[..i])| + 1
    ensures |r.moves| == |live|
    ensures forall i :: 0 <= i < |live| ==> r.moves[i] == MoveTo(live[i], CellOf(r.windows[live[i]]), d, size, flags)
  {
    var m := Freeze(kept, live, d.rect);
    FreezeOrders(kept, live, d.rect);
    Outcome(KeptInPlace, m,
      seq(|live|, i requires 0 <= i < |live| => MoveTo(live[i], Cell(d.rect(live[i]).left, d.rect(live[i]).top), d, size, flags)))
  }

  /** Grid mode after the space check: the j-th new window gets the j-th slot
      and order |kept| + j + 1, and every live window is moved to its cell. */
  function PlaceNew(kept: Tracked, incoming: seq<Handle>, slots: seq<Cell>, live: seq<Handle>, d: Desktop, size: CellSize, flags: Flags): (r: Outcome)
    requires Distinct(incoming)
    requires forall h :: h in incoming ==> h !in kept
    requires |incoming| <= |slots|
    requires forall h :: h in live ==> h in kept || h in incoming
    ensures r.status == Arranged(|live|)
    ensures forall h :: h in r.windows <==> h in kept || h in incoming
    ensures forall h :: h in kept ==> r.windows[h] == kept[h]
    ensures forall j :: 0 <= j < |incoming| ==>
      incoming[j] in r.windows && r.windows[incoming[j]] == Record(slots[j].x, slots[j].y, |kept| + j + 1)
    ensures |r.moves| == |live|
    ensures forall i :: 0 <= i < |live| ==> live[i] in r.windows && r.moves[i] == MoveTo(live[i], CellOf(r.windows[live[i]]), d, size, flags)
  {
    var m := Assign(kept, incoming, slots);
    Outcome(Arranged(|live|), m,
      seq(|live|, i requires 0 <= i < |live| => MoveTo(live[i], CellOf(m[live[i]]), d, size, flags)))
  }

  /** The part of `manage_windows` after the screens and the matching windows
      are known: evict, then either record every window where it stands
      (don't-move mode) or check the space, extend the free cells if allowed,
      place the new windows and move every live window to its cell. */
  function Reconcile(tracked: Tracked, live: seq<Handle>, screens: seq<Region>, d: Desktop, size: CellSize, flags: Flags): (r: Outcome)
    // eviction: only live windows remain tracked
    ensures forall h :: h in r.windows ==> h in live
    // the only failure: not enough free cells, limit not bypassed, grid mode
    ensures r.status.Failed? <==>
      !flags.dontMove && !flags.bypassLimit && |Incoming(tracked, live)| > |Free(tracked, live, screens, size)|
    ensures r.status.Failed? ==>
      && r.status.error == InsufficientSpace
      && r.moves == []
      && r.windows == Kept(tracked, live)
    ensures !r.status.Failed? ==>
      && r.status == (if flags.dontMove then KeptInPlace else Arranged(|live|))
      && (forall h :: h in r.windows <==> h in live)
      && |r.moves| == |live|
      && forall i :: 0 <= i < |live| ==> live[i] in r.windows && r.moves[i] == MoveTo(live[i], CellOf(r.windows[live[i]]), d, size, flags)
    // grid mode: a window tracked before keeps its record, the j-th new
    // window gets the j-th slot and order |kept| + j + 1
    ensures !flags.dontMove ==>
      forall h :: h in tracked && h in live ==> h in r.windows && r.windows[h] == tracked[h]
    ensures !flags.dontMove && !r.status.Failed? ==>
      var incoming := Incoming(tracked, live);
      var slots := Slots(Free(tracked, live, screens, size), |incoming|, size.width, flags.bypassLimit);
      forall j :: 0 <= j < |incoming| ==>
        incoming[j] in r.windows && r.windows[incoming[j]] == Record(slots[j].x, slots[j].y, |Kept(tracked, live)| + j + 1)
    // don't-move mode: every window is recorded where it currently is
    ensures flags.dontMove ==>
      && (forall h :: h in live ==> h in r.windows && r.windows[h].x == d.rect(h).left && r.windows[h].y == d.rect(h).top)
      && forall i :: 0 <= i < |live| && live[i] !in live[i + 1..] ==>
        live[i] in r.windows && r.windows[live[i]].order == |(tracked.Keys * Elems(live)) + Elems(live[..i])| + 1
  {
    var incoming := Incoming(tracked, live);
    var kept := Kept(tracked, live);
    var free := Free(tracked, live, screens, size);
    if flags.dontMove then
      KeepInPlace(kept, live, d, size, flags)
    else if !flags.bypassLimit && |incoming| > |free| then
      Outcome(Failed(InsufficientSpace), kept, [])
    else
      PlaceNew(kept, incoming, Slots(free, |incoming|, size.width, flags.bypassLimit), live, d, size, flags)
  }

  /** `manage_windows(title, window_width, window_height, remove_title,
      dont_movewindow, remove_border, bypass_limit)`. Without display
      information, or without a single matching window, it fails before
      touching the tracked set and moves nothing. */
  function ManageWindows(tracked: Tracked, d: Desktop, metrics: Option<Metrics>, title: string, size: CellSize, flags: Flags): (r: Outcome)
    ensures r.status == Failed(NoScreenInfo) <==> metrics.None?
    ensures r.status == Failed(NoMatchingWindow) <==> metrics.Some? && MatchingWindows(d, title) == []
    ensures r.status == Failed(NoScreenInfo) || r.status == Failed(NoMatchingWindow) ==>
      r.windows == tracked && r.moves == []
    ensures metrics.Some? && MatchingWindows(d, title) != [] ==>
      forall h :: h in r.windows ==> h in MatchingWindows(d, title)
    ensures r.status.Failed? ==> r.moves == []
    ensures !r.status.Failed? ==> forall h :: h in r.windows <==> h in MatchingWindows(d, title)
    // the space check: refused exactly when grid mode without bypass finds
    // more new windows than free cells; the evictions are kept
    ensures metrics.Some? && MatchingWindows(d, title) != [] ==>
      var live := MatchingWindows(d, title);
      (r.status == Failed(InsufficientSpace) <==>
        !flags.dontMove && !flags.bypassLimit && |Incoming(tracked, live)| > |Free(tracked, live, ScreenInfo(metrics), size)|)
    ensures r.status == Failed(InsufficientSpace) ==> r.windows == Kept(tracked, MatchingWindows(d, title))
  {
    var screens := ScreenInfo(metrics);
    if screens == [] then Outcome(Failed(NoScreenInfo), tracked, [])
    else
      var live := MatchingWindows(d, title);
      if live == [] then Outcome(Failed(NoMatchingWindow), tracked, [])
      else Reconcile(tracked, live, screens, d, size, flags)
  }

  /** With display information and at least one matching window, a pass is
      the reconciliation of the tracked set with the matching windows, so
      every rule stated for `Reconcile` holds of it. */
  lemma ManageReconciles(tracked: Tracked, d: Desktop, m: Metrics, title: string, size: CellSize, flags: Flags)
    ensures MatchingWindows(d, title) != [] ==>
      ManageWindows(tracked, d, Some(m), title, size, flags) ==
        Reconcile(tracked, MatchingWindows(d, title), ScreenInfo(Some(m)), d, size, flags)
  {
  }

  /** A tracked set whose every window is live loses nothing to eviction. */
  lemma KeptAllLive(m: Tracked, live: seq<Handle>)
    requires forall h :: h in m ==> h in live
    ensures Kept(m, live) == m
  {
    forall h | h in m
      ensures h in Elems(live)
    {
    }
    assert Kept(m, live).Keys == m.Keys;
  }

  /** When every live window is tracked there is nothing new. */
  lemma NoneIncoming(m: Tracked, live: seq<Handle>)
    requires forall h :: h in live ==> h in m
    ensures Incoming(m, live) == []
  {
    forall i | 0 <= i < |live|
      ensures live[i] in m.Keys
    {
      var h := live[i];
      assert h in live;
      assert h in m;
    }
    NewHandlesNone(live, m.Keys);
  }

  /** In grid mode a second pass over the same desktop, once the first one
      succeeded, reports the same status, keeps every record and issues the
      same commands: the arrangement is a fixed point. */
  lemma {:induction false} ManageIdempotent(tracked: Tracked, d: Desktop, metrics: Option<Metrics>, title: string, size: CellSize, flags: Flags)
    requires !flags.dontMove
    ensures var once := ManageWindows(tracked, d, metrics, title, size, flags);
      !once.status.Failed? ==> ManageWindows(once.windows, d, metrics, title, size, flags) == once
  {
    var once := ManageWindows(tracked, d, metrics, title, size, flags);
    if !once.status.Failed? {
      var screens := ScreenInfo(metrics);
      var live := MatchingWindows(d, title);
      var m := once.windows;
      assert once == Reconcile(tracked, live, screens, d, size, flags);
      KeptAllLive(m, live);
      NoneIncoming(m, live);
      var free := Free(m, live, screens, size);
      var twice := PlaceNew(m, [], Slots(free, 0, size.width, flags.bypassLimit), live, d, size, flags);
      assert Reconcile(m, live, screens, d, size, flags) == twice;
      assert twice.windows == m;
      assert twice.moves == once.moves;
    }
  }

  /** The desktop as a grid pass leaves it: every matching window's style
      word has been through the arranging pass's clearing step, and the
      windows stand wherever the moves put them, given as `rect`. */
  function Restyled(d: Desktop, title: string, flags: Flags, rect: Handle -> Rect): (d': Desktop)
    ensures d'.windows == d.windows && d'.isWindow == d.isWindow && d'.isVisible == d.isVisible && d'.text == d.text
    ensures d'.rect == rect
    ensures forall h :: d'.style(h) == if h in MatchingWindows(d, title) then ClearStyle(d.style(h), flags.removeTitle, flags.removeBorder) else d.style(h)
  {
    var live := MatchingWindows(d, title);
    d.(style := h => if h in live then ClearStyle(d.style(h), flags.removeTitle, flags.removeBorder) else d.style(h), rect := rect)
  }

  /** In grid mode a second pass over the desktop the first one left behind
      (style words already cleared, windows moved anywhere) reports the same
      status, keeps every record and issues the same commands. */
  lemma {:induction false} ManageSettles(tracked: Tracked, d: Desktop, m: Metrics, title: string, size: CellSize, flags: Flags, rect: Handle -> Rect)
    requires !flags.dontMove
    ensures var once := ManageWindows(tracked, d, Some(m), title, size, flags);
      !once.status.Failed? ==>
        ManageWindows(once.windows, Restyled(d, title, flags, rect), Some(m), title, size, flags) == once
  {
    var once := ManageWindows(tracked, d, Some(m), title, size, flags);
    if !once.status.Failed? {
      var d' := Restyled(d, title, flags, rect);
      var live := MatchingWindows(d, title);
      MatchingIgnoresLayout(d, title, d'.style, rect);
      assert d' == d.(style := d'.style, rect := rect);
      ManageIdempotent(tracked, d, Some(m), title, size, flags);
      ManageReconciles(once.windows, d, m, title, size, flags);
      ManageReconciles(once.windows, d', m, title, size, flags);
      forall i | 0 <= i < |live|
        ensures ClearStyle(d'.style(live[i]), flags.removeTitle, flags.removeBorder) == ClearStyle(d.style(live[i]), flags.removeTitle, flags.removeBorder)
      {
        var h := live[i];
        assert h in live;
        ClearIdempotent(d.style(h), flags.removeTitle, flags.removeBorder);
      }
      ReconcileSeesClearedStyle(once.windows, live, ScreenInfo(Some(m)), d, d', size, flags);
      assert MatchingWindows(d', title) == live;
      assert ManageWindows(once.windows, d', Some(m), title, size, flags)
        == ManageWindows(once.windows, d, Some(m), title, size, flags);
    }
  }

  /** A grid pass reads a window's style only through the clearing step, so
      two desktops whose live windows clear to the same words give the same
      outcome. */
  lemma ReconcileSeesClearedStyle(tracked: Tracked, live: seq<Handle>, screens: seq<Region>, d: Desktop, d': Desktop, size: CellSize, flags: Flags)
    requires !flags.dontMove
    requires forall i :: 0 <= i < |live| ==>
      ClearStyle(d'.style(live[i]), flags.removeTitle, flags.removeBorder) == ClearStyle(d.style(live[i]), flags.removeTitle, flags.removeBorder)
    ensures Reconcile(tracked, live, screens, d', size, flags) == Reconcile(tracked, live, screens, d, size, flags)
  {
    var r := Reconcile(tracked, live, screens, d, size, flags);
    var r' := Reconcile(tracked, live, screens, d', size, flags);
    if !r.status.Failed? {
      assert r'.windows == r.windows;
      forall i | 0 <= i < |live|
        ensures r'.moves[i] == r.moves[i]
      {
      }
      assert r'.moves == r.moves;
    }
  }

  /** Pairing new windows with distinct cells that no kept window holds puts
      every new window on a cell of its own. */
  lemma AssignedCellsApart(kept: Tracked, incoming: seq<Handle>, free: seq<Cell>)
    requires Distinct(incoming) && Distinct(free)
    requires forall h :: h in incoming ==> h !in kept
    requires |incoming| <= |free|
    requires forall c :: c in free ==> c !in UsedCells(kept)
    ensures var r := Assign(kept, incoming, free);
      forall h :: h in r && h !in kept ==>
        && CellOf(r[h]) in free
        && forall h' :: h' in r && h' != h ==> CellOf(r[h']) != CellOf(r[h])
  {
    var r := Assign(kept, incoming, free);
    forall h | h in r && h !in kept
      ensures CellOf(r[h]) in free
      ensures forall h' :: h' in r && h' != h ==> CellOf(r[h']) != CellOf(r[h])
    {
      var j :| 0 <= j < |incoming| && incoming[j] == h;
      assert CellOf(r[h]) == free[j];
      forall h' | h' in r && h' != h
        ensures CellOf(r[h']) != free[j]
      {
        if h' in kept {
          assert CellOf(kept[h']) in UsedCells(kept);
        } else {
          var k :| 0 <= k < |incoming| && incoming[k] == h';
          assert CellOf(r[h']) == free[k];
        }
      }
    }
  }

  /** Without overflow, a window placed by a grid pass lands on a cell of the
      detected topology that no other tracked window occupies. */
  lemma {:induction false} PlacedOnFreeCell(tracked: Tracked, d: Desktop, m: Metrics, title: string, size: CellSize, flags: Flags)
    requires !flags.dontMove
    ensures var r := ManageWindows(tracked, d, Some(m), title, size, flags);
      var live := MatchingWindows(d, title);
      var screens := ScreenInfo(Some(m));
      r.status.Arranged? && |Incoming(tracked, live)| <= |Free(tracked, live, screens, size)| ==>
        forall h :: h in r.windows && h !in tracked ==>
          && CellOf(r.windows[h]) in AllCells(screens, size)
          && forall h' :: h' in r.windows && h' != h ==> CellOf(r.windows[h']) != CellOf(r.windows[h])
  {
    var r := ManageWindows(tracked, d, Some(m), title, size, flags);
    var live := MatchingWindows(d, title);
    var screens := ScreenInfo(Some(m));
    var incoming := Incoming(tracked, live);
    var kept := Kept(tracked, live);
    var free := Free(tracked, live, screens, size);
    if r.status.Arranged? && |incoming| <= |free| {
      assert r == Reconcile(tracked, live, screens, d, size, flags);
      assert Slots(free, |incoming|, size.width, flags.bypassLimit) == free;
      assert r.windows == Assign(kept, incoming, free);
      AvailableOrdered(m, size, UsedCells(kept));
      AssignedCellsApart(kept, incoming, free);
      forall h | h in r.windows && h !in tracked
        ensures h !in kept
      {
      }
    }
  }

  /** A window that disappeared gives its cell back: once no surviving
      window holds that corner, it is offered to new windows again. */
  lemma EvictionFreesCell(tracked: Tracked, live: seq<Handle>, screens: seq<Region>, size: CellSize, h: Handle)
    requires h in tracked && h !in live
    requires CellOf(tracked[h]) in AllCells(screens, size)
    requires forall h' :: h' in tracked && h' in live ==> CellOf(tracked[h']) != CellOf(tracked[h])
    ensures CellOf(tracked[h]) in Free(tracked, live, screens, size)
  {
    var kept := Kept(tracked, live);
    forall c | c in UsedCells(kept)
      ensures c != CellOf(tracked[h])
    {
      var h' :| h' in kept && CellOf(kept[h']) == c;
    }
  }

  /** Don't-move mode over windows that are all tracked already, as on every
      pass after the first: each window is renumbered, and all of them get
      the same order, one more than the number of distinct live windows. */
  lemma {:induction false} FreezeRepeatEqualOrders(tracked: Tracked, d: Desktop, m: Metrics, title: string, size: CellSize, flags: Flags)
    requires flags.dontMove
    requires forall h :: h in MatchingWindows(d, title) ==> h in tracked
    ensures var r := ManageWindows(tracked, d, Some(m), title, size, flags);
      MatchingWindows(d, title) != [] ==>
        && r.status == KeptInPlace
        && forall h :: h in r.windows ==> r.windows[h].order == |Elems(MatchingWindows(d, title))| + 1
  {
    var live := MatchingWindows(d, title);
    if live != [] {
      var screens := ScreenInfo(Some(m));
      var r := Reconcile(tracked, live, screens, d, size, flags);
      LiveOrdersEqual(tracked, live, r.windows);
      assert ManageWindows(tracked, d, Some(m), title, size, flags) == r;
    }
  }

  /** The order rule of don't-move mode, read for a set that already tracks
      every live window. */
  lemma LiveOrdersEqual(tracked: Tracked, live: seq<Handle>, w: Tracked)
    requires forall h :: h in live ==> h in tracked
    requires forall h :: h in w ==> h in live
    requires forall i :: 0 <= i < |live| && live[i] !in live[i + 1..] ==>
      live[i] in w && w[live[i]].order == |(tracked.Keys * Elems(live)) + Elems(live[..i])| + 1
    ensures forall h :: h in w ==> w[h].order == |Elems(live)| + 1
  {
    var all := Elems(live);
    assert tracked.Keys * all == all by {
      forall h | h in all
        ensures h in tracked
      {
        assert h in live;
      }
    }
    forall h | h in w
      ensures w[h].order == |all| + 1
    {
      assert h in live;
      var i := LastOccurrence(live, h);
      PrefixElems(live, i);
    }
  }

  lemma PrefixElems<T>(s: seq<T>, i: nat)
    requires i <= |s|
    ensures Elems(s) + Elems(s[..i]) == Elems(s)
  {
    forall x | x in Elems(s[..i])
      ensures x in Elems(s)
    {
      assert x in s[..i];
    }
  }
}
