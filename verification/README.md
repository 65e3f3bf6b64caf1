# Window layout engine — a Dafny model

This project models the window layout engine of a desktop utility. The utility launches copies of a program and tiles their windows into a grid of equal cells across one or two displays. The engine lives in `functions/MainTab_functions.py`, class `MainTabFunctions`. It keeps `window_positions`, a map from window handle to a placement record `{x, y, order}`, and offers these operations:

- `get_screen_info`: the display regions, derived from system metrics.
- `calculate_window_capacity`: how many whole cells fit in a region.
- `manage_windows`: one layout pass. It finds the visible windows with a given title, evicts the records of windows that disappeared, and then does one of two things:
  - don't-move mode: record every window where it stands;
  - grid mode: give each new window a free cell, or a synthesised cell past the grid when the limit is bypassed.

  Finally it restyles and moves every window.
- `update_window_style`: sets or clears the caption and the sizing border of one window.
- `get_window_list`: the tracked windows that still exist, sorted by order.

Every call into the operating system becomes an input of the model:

- System metrics are `Option<Metrics>`. `None` is the failed query, which the original catches and turns into an empty list.
- The window system is a `Desktop` value with these fields:
  - `windows`: the enumeration order;
  - `isWindow`, `isVisible`: validity and visibility;
  - `text`: the title;
  - `rect`: the current rectangle;
  - `style`: the style word.
- The effects of `SetWindowLong` and `SetWindowPos` are returned as a list of `Move` commands, one per live window in enumeration order.
- The tracked map is threaded through explicitly: a pass takes the old map and returns the new one inside an `Outcome`.

Modules, one per file:

- `Types`: shared datatypes.
- `Seqs`: sequence helpers.
- `Screens`: display topology.
- `Grid`: capacity, cell enumeration, free cells and overflow.
- `Styles`: style words.
- `Tracking`: matching, new and evicted windows, and how records are written.
- `Manage`: the pass itself.
- `WindowList`: the sorted list.
- `Scenarios`: scenarios on one 960×688 display with 480×344 cells, each stated and proved as a lemma.

How the code behaves at its edges, as the model states it:

- **Orders can repeat.** The code writes `len(window_positions) + 1` after eviction. A new window can therefore get the order of a window that is still tracked (`Scenarios.OrderRepeats`).
- **Don't-move mode renumbers every live window.** The code overwrites the record of every live window, order included (`Tracking.FreezeOrder`, `Manage.FreezeRepeatEqualOrders`). A second don't-move pass is therefore not a fixed point, while a second grid pass is (`Manage.ManageIdempotent`).
- **Overflow offsets from the last appended cell.** Each synthesised cell is offset from `available_positions[-1]`, which is the cell appended just before it. Synthesised cells therefore march right along one row (`Grid.Overflow`, `Grid.OverflowMarchesRight`).
- **Overflow can land on an occupied cell.** Synthesised cells are placed by offset, not checked against the tracked records. When no cell is free, overflow starts at (0, 0), which a tracked window may hold. While free cells remain, a cell to the right of the last free one can be held too (`Scenarios.OverflowOntoHeld`).
- **New windows are paired in first-appearance order.** The original pairs new windows with cells in the iteration order of a Python set. The model uses the order in which windows first appear in the enumeration (`Tracking.NewHandles`).

## Model

| member | source | states |
|---|---|---|
| Screens.ScreenInfo | functions/MainTab_functions.py:38-75 | A failed metrics query gives no regions. Otherwise the primary display at (0, 0) comes first and at most two regions result. The second exists iff more than one monitor is attached and the virtual desktop is wider than the primary. It then starts at the primary's right edge, reaches the virtual desktop's right edge and spans its full height. |
| Screens.VirtualOriginIgnored | functions/MainTab_functions.py:54-66 | The regions do not depend on the origin of the virtual desktop, which is read but never used. |
| Grid.Capacity | functions/MainTab_functions.py:77-81 | Columns and rows are the floor quotients: the largest counts of whole cells that fit, so one more cell would not fit. |
| Grid.RegionCells | functions/MainTab_functions.py:112-117 | The cells of a region are exactly the corners `(left + col·w, top + row·h)` within the capacity. They come in row-major order and each cell lies wholly inside the region. |
| Grid.AllCells | functions/MainTab_functions.py:112-117 | A cell is offered iff it is a cell of one of the regions. |
| Grid.UsedCells | functions/MainTab_functions.py:109 | The used corners are exactly the corners of tracked records. |
| Grid.Available | functions/MainTab_functions.py:109-119 | A cell is available iff it is a grid cell no tracked record holds. |
| Grid.AvailableAllFree | functions/MainTab_functions.py:109-119 | With no grid cell in use, the available list is the whole enumeration, in order. |
| Grid.ScreenCellsOrdered | functions/MainTab_functions.py:112-119 | The cells of the detected topology come primary display first, then the secondary one, each row-major, and no cell repeats. |
| Grid.AvailableOrdered | functions/MainTab_functions.py:109-119 | The free cells keep that order and are pairwise distinct. |
| Grid.Overflow | functions/MainTab_functions.py:155-161 | Extending by k cells keeps the free cells as a prefix and adds exactly k. The j-th added cell is the last free cell moved right by (j+1)·width on the same row, or (j·width, 0) when nothing was free. |
| Grid.OverflowMarchesRight | functions/MainTab_functions.py:155-161 | Synthesised cells lie on one row with strictly increasing x, so they never coincide with each other. |
| Tracking.MatchingWindows | functions/MainTab_functions.py:90-96 | A handle is matching iff it is enumerated, valid, visible and titled exactly `title`. Each matching handle occurs exactly as often as the enumeration reports it, and every other handle not at all. |
| Tracking.MatchingAppend | functions/MainTab_functions.py:91-96 | The callback step: enumerating one more window appends it to the matching list exactly when it passes the test, so the list keeps enumeration order. |
| Tracking.MatchingIgnoresLayout | functions/MainTab_functions.py:91-96 | The matching list depends neither on style words nor on rectangles. The restyling and moving done by a pass therefore do not change which windows the next pass sees. |
| Tracking.NewHandles | functions/MainTab_functions.py:101-103 | The new windows are exactly the live windows not yet tracked, each listed once. |
| Tracking.NewHandlesOrder | functions/MainTab_functions.py:101-103 | The new windows are listed in the order of their first appearance in the enumeration. This order decides which new window is paired with which slot. |
| Tracking.NewHandlesOnlyLiveMatter | functions/MainTab_functions.py:101-103 | Which windows are new depends only on which live windows are tracked. |
| Tracking.NewHandlesAllNew | functions/MainTab_functions.py:101-103 | Distinct live windows, none of them tracked, are all new, in enumeration order. |
| Tracking.NewHandlesNone | functions/MainTab_functions.py:101-103 | When every live window is tracked, nothing is new. |
| Tracking.Evict | functions/MainTab_functions.py:104-107 | After eviction exactly the tracked live windows remain, with their records unchanged. |
| Tracking.Assign | functions/MainTab_functions.py:163-168 | The j-th new window gets the j-th slot with order \|map\| + j + 1. Older records are untouched and no other key appears. |
| Tracking.Freeze | functions/MainTab_functions.py:122-131 | Every live window gets a record at its rectangle's top-left corner. Tracked windows that are not live keep theirs, and no other key appears. |
| Tracking.FreezeOrder | functions/MainTab_functions.py:122-131 | A window's final order is one more than the number of windows tracked before the loop together with those enumerated before its last occurrence. |
| Tracking.FreezeOrders | functions/MainTab_functions.py:122-131 | `FreezeOrder` holds for every live window at once. |
| Styles.ClearStyleSpec | functions/MainTab_functions.py:133-138 | The arranging pass zeroes the caption bits iff title removal is asked for, and the thick-frame bit iff border removal is asked for. Every other bit is kept. |
| Styles.ClearNeverAdds | functions/MainTab_functions.py:174-179 | The arranging pass only clears bits. Afterwards a caption or border is present iff it was present before and its removal was not asked for. |
| Styles.ClearIdempotent | functions/MainTab_functions.py:174-179 | Clearing twice with the same flags gives the same word as clearing once. |
| Styles.SetStyleSpec | functions/MainTab_functions.py:218-228 | Restyling puts the caption and frame in an absolute state: all caption bits set unless removal is asked for, zero otherwise, and likewise for the frame. Every other bit is kept. |
| Styles.UpdateWindowStyle | functions/MainTab_functions.py:212-237 | An invalid handle is refused with `InvalidHandle`. For a valid one, the caption bits are all set unless title removal is asked for and zero otherwise, and likewise the thick-frame bit. Every other bit of the window's current word is kept. |
| Styles.RestyleReadBack | functions/MainTab_functions.py:218-230 | Read back the way the window list reads it, a restyled window has a caption iff title removal was not asked for, and a border iff border removal was not asked for. |
| Styles.RestyleIdempotent | functions/MainTab_functions.py:218-230 | Restyling the restyled window again with the same request yields the same word. |
| Styles.RestyleRestoresCaption | functions/MainTab_functions.py:220-223 | Restyling restores a missing caption when removal is not asked for. The arranging pass never does. |
| Manage.Slots | functions/MainTab_functions.py:155-161 | Without bypass, or when enough cells are free, the slots are exactly the free cells. With bypass and too few free cells there are exactly as many slots as new windows: the free cells, followed by cells synthesised one width right of the last free cell along its row, or from (0, 0) when nothing is free. |
| Manage.KeepInPlace | functions/MainTab_functions.py:121-149 | In don't-move mode every live window is recorded at its current corner, with the order `FreezeOrder` describes. Kept windows stay tracked, and one command per live window restyles it in place. |
| Manage.PlaceNew | functions/MainTab_functions.py:163-191 | In grid mode, kept records are unchanged. The j-th new window gets the j-th slot and order \|kept\| + j + 1. Each live window receives one command moving it to its record's cell. |
| Manage.Reconcile | functions/MainTab_functions.py:101-191 | The pass fails iff grid mode is on, the limit is not bypassed and there are more new windows than free cells. It then reports `InsufficientSpace`, moves nothing and keeps the evictions. On success exactly the live windows are tracked, with one command per live window. The grid-mode and don't-move-mode record rules hold. |
| Manage.ManageWindows | functions/MainTab_functions.py:83-99 | Missing display information gives `NoScreenInfo`, and no matching window gives `NoMatchingWindow`. Both leave the map untouched and move nothing. Otherwise the pass fails with `InsufficientSpace` iff grid mode is on, the limit is not bypassed and there are more new matching windows than free cells; that failure keeps the evictions. Any failure moves nothing, and on success exactly the matching windows are tracked. |
| Manage.ManageReconciles | functions/MainTab_functions.py:86-191 | With display information and a matching window, the pass is the reconciliation of the tracked set with the matching windows, so every rule of `Manage.Reconcile` holds for the top-level operation. |
| Manage.KeptAllLive | functions/MainTab_functions.py:104-107 | When every tracked window is live, eviction removes nothing. |
| Manage.NoneIncoming | functions/MainTab_functions.py:101-103 | When every live window is tracked, no window is new. |
| Manage.ManageIdempotent | functions/MainTab_functions.py:101-191 | In grid mode, a successful pass followed by a second pass over the same desktop gives the same status, records and commands. |
| Manage.Restyled | functions/MainTab_functions.py:170-189 | The desktop a grid pass leaves behind has the same windows, validity, visibility and titles, and its rectangles are the given ones, wherever `SetWindowPos` put the windows. Each matching window's style word has been cleared as the flags ask, and every other word is unchanged. |
| Manage.ManageSettles | functions/MainTab_functions.py:101-191 | In grid mode, a second pass over the desktop as the first pass left it gives the same status, records and commands. That desktop has its style words already cleared and its windows at any rectangles whatever. |
| Manage.ReconcileSeesClearedStyle | functions/MainTab_functions.py:170-189 | A grid pass reads style words only through the clearing step. Two desktops whose live windows clear to the same words give the same outcome. |
| Manage.AssignedCellsApart | functions/MainTab_functions.py:163-168 | Pairing new windows with distinct free cells puts each new window on a free cell that no other tracked window holds. |
| Manage.PlacedOnFreeCell | functions/MainTab_functions.py:109-168 | Without overflow, each window a grid pass places lands on a grid cell that no other tracked window holds. |
| Manage.EvictionFreesCell | functions/MainTab_functions.py:104-119 | The cell of an evicted window is offered again unless a surviving window holds the same corner. |
| Manage.FreezeRepeatEqualOrders | functions/MainTab_functions.py:122-131 | In don't-move mode over windows that are all tracked already, every record gets the same order: the number of distinct live windows plus one. |
| Manage.LiveOrdersEqual | functions/MainTab_functions.py:122-131 | Under the don't-move order rule, a map tracking every live window already gives every window the same order. |
| WindowList.Position | functions/MainTab_functions.py:285 | The insertion point of a row in a sorted list: every row before it has an order no larger, every row after it a larger one. |
| WindowList.Insert | functions/MainTab_functions.py:285 | One step of a stable insertion sort. The result stays sorted and, as a multiset, is the old rows plus the new row. |
| WindowList.InsertKeeps | functions/MainTab_functions.py:285 | Inserting a row that comes later in iteration order keeps handles distinct and keeps ties in iteration order, as Python's stable `sorted` does. |
| WindowList.VisitKeeps | functions/MainTab_functions.py:269-283 | Visiting the next tracked window keeps the list sorted, stable, free of duplicates and exactly the valid windows seen so far. |
| WindowList.GetWindowList | functions/MainTab_functions.py:266-285 | The list holds one row per tracked window that is still a valid window, and nothing else. Each row carries the record, the current title and the caption and border read from the current style. Rows are sorted by order, and equal orders follow iteration order. |
| Scenarios.FourCells | functions/MainTab_functions.py:109-119 | One 960×688 display with 480×344 cells offers exactly the cells (0,0), (480,0), (0,344), (480,344), in that order. |
| Scenarios.FreshStart | functions/MainTab_functions.py:90-103 | Five fresh windows titled alike all match and are all new. |
| Scenarios.FreshFree | functions/MainTab_functions.py:104-119 | With nothing tracked, the whole 2×2 grid is free. |
| Scenarios.FifthWindowRefused | functions/MainTab_functions.py:151-153 | Five fresh windows on the 2×2 grid without bypass give `InsufficientSpace`, an empty map and no commands. |
| Scenarios.OverflowSlots | functions/MainTab_functions.py:155-161 | The fifth slot synthesised after the 2×2 grid is (960, 344). |
| Scenarios.BypassStatus | functions/MainTab_functions.py:155-191 | With bypass, all five fresh windows are arranged and tracked. |
| Scenarios.BypassSlots | functions/MainTab_functions.py:155-168 | With bypass, the j-th fresh window takes the j-th slot with order j + 1. |
| Scenarios.FifthWindowOverflows | functions/MainTab_functions.py:155-191 | With bypass, windows 1-4 fill the grid row-major and window 5 lands at (960, 344) with order 5. |
| Scenarios.OrderRepeats | functions/MainTab_functions.py:163-168 | Window 1 closes as window 3 opens. Window 3 takes the vacated cell (0, 0) with order 2, which window 2 already holds. |
| Scenarios.SwapKept | functions/MainTab_functions.py:104-109 | After window 1 closes only window 2 remains tracked, holding (480, 0). |
| Scenarios.SwapFree | functions/MainTab_functions.py:104-119 | The first free cell after window 1 closes is (0, 0). |
| Scenarios.SwapIncoming | functions/MainTab_functions.py:101-103 | Window 3 is the only new window. |
| Scenarios.OverflowOntoHeld | functions/MainTab_functions.py:152-161 | Windows 1–3 hold (0, 0), (480, 0) and (480, 344), and windows 4 and 5 arrive with the limit bypassed. The only free cell is (0, 344), and the synthesised second slot is (480, 344), a cell window 3 still holds. |

## Left out

- `execute_program` is left out. It only launches processes with a delay between launches and holds no layout logic.
- `update_window_title` and `update_window_position` are left out. Each is a validity check followed by a single OS call.
- Logging and the `try`/`except` wrappers are left out. The model keeps only one exception path: a failed metrics query, which yields no regions.
- A failing `GetWindowRect`, `GetWindowLong` or `SetWindowPos` is not modelled. The `Desktop` functions are total, and commands are returned rather than executed.
- The interface, the settings store and the shuffling of flags between the interface and `manage_windows` are outside the engine. `tab_ui.py` is not part of this model.
- Non-positive cell sizes are excluded by the `CellSize` type. The original would raise on division by zero or enumerate nothing.
- WindowList.GetWindowList: takes the iteration order of the tracked map as a parameter. Python dict insertion order is not modelled, so ties are stated relative to that parameter.
- Tracking.NewHandles: fixes first-appearance order in the enumeration where the original iterates a set in an unspecified order. Which new window gets which slot is therefore that of one admissible set order.
- Manage.Reconcile: issues one command per enumerated window, in enumeration order. The original's `SetWindowLong`/`SetWindowPos` side effects and their frame-change flags are not modelled beyond the style word and the target rectangle.
