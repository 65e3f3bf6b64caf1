/** Entities of the window layout engine: handles, display regions, grid
    cells, placement records and the snapshot of the operating system that
    the engine reads. Every OS query of the original becomes a field of
    `Desktop` or `Metrics`, so all operations are pure functions. */
module Types {

  /** An opaque top-level window handle (an HWND). */
  type Handle = int

  /** A window style word as returned by GetWindowLong(GWL_STYLE). */
  type Style = bv32

  datatype Option<T> = None | Some(value: T)

  /** The top-left corner of a grid cell, in screen pixels. */
  datatype Cell = Cell(x: int, y: int)

  /** A rectangular tiling surface: one display, or the inferred secondary one. */
  datatype Region = Region(left: int, top: int, width: int, height: int)

  /** A window rectangle as GetWindowRect reports it. */
  datatype Rect = Rect(left: int, top: int, right: int, bottom: int)

  /** What the engine remembers about one tracked window. */
  datatype Record = Record(x: int, y: int, order: int)

  /** The tracked-window set, `window_positions` in the original. */
  type Tracked = map<Handle, Record>

  function CellOf(r: Record): Cell {
    Cell(r.x, r.y)
  }

  datatype Size = Size(width: int, height: int)

  /** The size every managed window is given; both sides are positive. */
  type CellSize = s: Size | s.width > 0 && s.height > 0 witness Size(1, 1)

  /** The four flags of `manage_windows`, in the order it declares them. */
  datatype Flags = Flags(removeTitle: bool, dontMove: bool, removeBorder: bool, bypassLimit: bool)

  datatype Error = NoScreenInfo | NoMatchingWindow | InsufficientSpace | InvalidHandle

  datatype Result<T> = Ok(value: T) | Err(error: Error)

  /** The raw values GetSystemMetrics reports for the displays. */
  datatype Metrics = Metrics(
    screenWidth: int,     // SM_CXSCREEN
    screenHeight: int,    // SM_CYSCREEN
    monitors: int,        // SM_CMONITORS
    virtualWidth: int,    // SM_CXVIRTUALSCREEN
    virtualHeight: int,   // SM_CYVIRTUALSCREEN
    virtualLeft: int,     // SM_XVIRTUALSCREEN
    virtualTop: int)      // SM_YVIRTUALSCREEN

  /** A snapshot of the window system at the moment of a call. */
  datatype Desktop = Desktop(
    windows: seq<Handle>,          // EnumWindows, in enumeration order
    isWindow: Handle -> bool,      // IsWindow
    isVisible: Handle -> bool,     // IsWindowVisible
    text: Handle -> string,        // GetWindowText
    rect: Handle -> Rect,          // GetWindowRect
    style: Handle -> Style)        // GetWindowLong(GWL_STYLE)
}
