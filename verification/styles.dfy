/** Window style words: the caption and thick-frame bits that the engine
    clears while arranging windows, sets or clears on request
    (`update_window_style`), and reads back for the tracked-window list. */
module Styles {
  import opened Types

  /** WS_CAPTION: the title bar, WS_BORDER | WS_DLGFRAME. */
  const Caption: Style := 0x00C0_0000
  /** WS_THICKFRAME: the sizing border. */
  const ThickFrame: Style := 0x0004_0000

  /** Every bit outside the caption and thick-frame masks. */
  const Others: Style := !(Caption | ThickFrame)

  /** `has_caption` of the tracked-window list: some caption bit is set. */
  predicate HasCaption(s: Style) {
    s & Caption != 0
  }

  /** `has_border` of the tracked-window list: the thick-frame bit is set. */
  predicate HasBorder(s: Style) {
    s & ThickFrame != 0
  }

  /** The style step of the arranging pass: `style &= ~mask` for each part
      whose removal was requested. */
  function ClearStyle(s: Style, removeTitle: bool, removeBorder: bool): Style {
    var t := if removeTitle then s & !Caption else s;
    if removeBorder then t & !ThickFrame else t
  }

  /** The style step of `update_window_style`: each part is cleared when its
      removal is requested and set otherwise. */
  function SetStyle(s: Style, removeTitle: bool, removeBorder: bool): Style {
    var t := if removeTitle then s & !Caption else s | Caption;
    if removeBorder then t & !ThickFrame else t | ThickFrame
  }

  /** Two style words agreeing on the caption, the frame and all other bits are equal. */
  lemma SameParts(a: Style, b: Style)
    requires a & Caption == b & Caption
    requires a & ThickFrame == b & ThickFrame
    requires a & Others == b & Others
    ensures a == b
  {
  }

  /** The arranging pass removes what was asked for and keeps every other bit. */
  lemma ClearStyleSpec(s: Style, removeTitle: bool, removeBorder: bool)
    ensures var r := ClearStyle(s, removeTitle, removeBorder);
      && r & Caption == (if removeTitle then 0 else s & Caption)
      && r & ThickFrame == (if removeBorder then 0 else s & ThickFrame)
      && r & Others == s & Others
  {
  }

  /** `update_window_style` puts the caption and the frame in an absolute
      state, present unless removal was requested, and keeps every other bit. */
  lemma SetStyleSpec(s: Style, removeTitle: bool, removeBorder: bool)
    ensures var r := SetStyle(s, removeTitle, removeBorder);
      && r & Caption == (if removeTitle then 0 else Caption)
      && r & ThickFrame == (if removeBorder then 0 else ThickFrame)
      && r & Others == s & Others
  {
  }

  /** The arranging pass only ever clears bits: a caption or border is
      present afterwards exactly when it was present before and not removed,
      and asking for nothing leaves the word as it was. */
  lemma ClearNeverAdds(s: Style, removeTitle: bool, removeBorder: bool)
    ensures ClearStyle(s, removeTitle, removeBorder) & s == ClearStyle(s, removeTitle, removeBorder)
    ensures HasCaption(ClearStyle(s, removeTitle, removeBorder)) <==> HasCaption(s) && !removeTitle
    ensures HasBorder(ClearStyle(s, removeTitle, removeBorder)) <==> HasBorder(s) && !removeBorder
    ensures ClearStyle(s, false, false) == s
  {
    ClearStyleSpec(s, removeTitle, removeBorder);
  }

  /** Arranging the same window twice with the same flags clears nothing more. */
  lemma ClearIdempotent(s: Style, removeTitle: bool, removeBorder: bool)
    ensures var once := ClearStyle(s, removeTitle, removeBorder);
      ClearStyle(once, removeTitle, removeBorder) == once
  {
    var once := ClearStyle(s, removeTitle, removeBorder);
    ClearStyleSpec(s, removeTitle, removeBorder);
    ClearStyleSpec(once, removeTitle, removeBorder);
    SameParts(ClearStyle(once, removeTitle, removeBorder), once);
  }

  /** `update_window_style`: an invalid handle is refused; a valid one gets
      its caption and frame in the requested state, every other bit kept. */
  function UpdateWindowStyle(d: Desktop, hwnd: Handle, removeTitle: bool, removeBorder: bool): (r: Result<Style>)
    ensures r.Err? <==> !d.isWindow(hwnd)
    ensures r.Err? ==> r.error == InvalidHandle
    ensures r.Ok? ==>
      && r.value & Caption == (if removeTitle then 0 else Caption)
      && r.value & ThickFrame == (if removeBorder then 0 else ThickFrame)
      && r.value & Others == d.style(hwnd) & Others
  {
    if !d.isWindow(hwnd) then Err(InvalidHandle)
    else
      var w := d.style(hwnd);
      SetStyleSpec(w, removeTitle, removeBorder);
      Ok(SetStyle(w, removeTitle, removeBorder))
  }

  /** Reading a restyled window back, as the tracked-window list does, shows
      exactly the requested caption and border, whatever the window had before. */
  lemma RestyleReadBack(d: Desktop, hwnd: Handle, removeTitle: bool, removeBorder: bool)
    requires d.isWindow(hwnd)
    ensures var r := UpdateWindowStyle(d, hwnd, removeTitle, removeBorder);
      && r.Ok?
      && (HasCaption(r.value) <==> !removeTitle)
      && (HasBorder(r.value) <==> !removeBorder)
  {
    SetStyleSpec(d.style(hwnd), removeTitle, removeBorder);
  }

  /** Restyling a window a second time with the same request changes nothing. */
  lemma RestyleIdempotent(d: Desktop, hwnd: Handle, removeTitle: bool, removeBorder: bool)
    requires d.isWindow(hwnd)
    ensures var once := UpdateWindowStyle(d, hwnd, removeTitle, removeBorder).value;
      UpdateWindowStyle(d.(style := _ => once), hwnd, removeTitle, removeBorder) == Ok(once)
  {
    var once := SetStyle(d.style(hwnd), removeTitle, removeBorder);
    SetStyleSpec(d.style(hwnd), removeTitle, removeBorder);
    SetStyleSpec(once, removeTitle, removeBorder);
    SameParts(SetStyle(once, removeTitle, removeBorder), once);
  }

  /** Unlike the arranging pass, `update_window_style` restores a missing
      caption when its removal is not requested. */
  lemma RestyleRestoresCaption(d: Desktop, hwnd: Handle)
    requires d.isWindow(hwnd) && !HasCaption(d.style(hwnd))
    ensures HasCaption(UpdateWindowStyle(d, hwnd, false, false).value)
    ensures !HasCaption(ClearStyle(d.style(hwnd), false, false))
  {
    SetStyleSpec(d.style(hwnd), false, false);
  }
}
