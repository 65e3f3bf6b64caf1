/** Display topology: the regions windows may be placed in, derived from the
    system metrics (`get_screen_info`). */
module Screens {
  import opened Types

  /** The primary display always; plus the part of the virtual desktop to the
      right of it when more than one monitor is attached and the virtual
      desktop is wider than the primary display. A failed metrics query
      (`None`) yields no regions at all. */
  function ScreenInfo(metrics: Option<Metrics>): (r: seq<Region>)
    ensures metrics.None? <==> r == []
    ensures metrics.Some? ==>
      var m := metrics.value;
      && 1 <= |r| <= 2
      && r[0] == Region(0, 0, m.screenWidth, m.screenHeight)
      && (|r| == 2 <==> m.monitors > 1 && m.virtualWidth > m.screenWidth)
    ensures |r| == 2 ==>
      var m := metrics.value;
      // the second region starts where the primary one ends, reaches the
      // right edge of the virtual desktop and spans its full height
      && r[1].left == r[0].left + r[0].width
      && r[1].left + r[1].width == m.virtualWidth
      && r[1].top == 0 && r[1].width > 0
      && r[1].height == m.virtualHeight
  {
    match metrics
    case None => []
    case Some(m) =>
      var primary := Region(0, 0, m.screenWidth, m.screenHeight);
      if m.monitors > 1 && m.virtualWidth > primary.width then
        [primary, Region(primary.width, 0, m.virtualWidth - primary.width, m.virtualHeight)]
      else
        [primary]
  }

  /** The origin of the virtual desktop is read but never used. */
  lemma VirtualOriginIgnored(m: Metrics, left: int, top: int)
    ensures ScreenInfo(Some(m)) == ScreenInfo(Some(m.(virtualLeft := left, virtualTop := top)))
  {
  }
}
