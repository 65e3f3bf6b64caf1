/** Bookkeeping of the tracked-window set during one `manage_windows` pass:
    which windows match, which are new, which are evicted, and how records
    are written for new windows (grid mode) or for every live window
    (don't-move mode). */
module Tracking {
  import opened Types
  import opened Seqs

  /** The window passes the enumeration callback's test. */
  predicate Matches(d: Desktop, title: string, h: Handle) {
    d.isWindow(h) && d.isVisible(h) && d.text(h) == title
  }

  /** `current_windows`: the enumerated windows that are valid, visible and
      titled exactly `title`, in enumeration order (`MatchingAppend`), each
      as often as the enumeration reports it. */
  function MatchingWindows(d: Desktop, title: string): (r: seq<Handle>)
    ensures forall h :: h in r <==> h in d.windows && Matches(d, title, h)
    ensures forall h :: multiset(r)[h] == if Matches(d, title, h) then multiset(d.windows)[h] else 0
  {
    var r := Filter(d.windows, h => Matches(d, title, h));
    forall h
      ensures multiset(r)[h] == if Matches(d, title, h) then multiset(d.windows)[h] else 0
    {
      FilterCount(d.windows, h => Matches(d, title, h), h);
    }
    r
  }

  /** The enumeration callback: one more enumerated window is appended to
      the matching list exactly when it passes the test. */
  lemma MatchingAppend(d: Desktop, title: string, w: Handle)
    ensures MatchingWindows(d.(windows := d.windows + [w]), title) ==
      MatchingWindows(d, title) + (if Matches(d, title, w) then [w] else [])
  {
    var keep := h => Matches(d, title, h);
    var d' := d.(windows := d.windows + [w]);
    FilterSame(d'.windows, h => Matches(d', title, h), keep);
    FilterConcat(d.windows, [w], keep);
    assert [w][1..] == [];
  }

  /** The matching list depends neither on the style words nor on the
      rectangles, which are what a pass changes. */
  lemma MatchingIgnoresLayout(d: Desktop, title: string, style: Handle -> Style, rect: Handle -> Rect)
    ensures MatchingWindows(d.(style := style, rect := rect), title) == MatchingWindows(d, title)
  {
    var d' := d.(style := style, rect := rect);
    FilterSame(d.windows, h => Matches(d', title, h), h => Matches(d, title, h));
  }

  /** `new_hwnds`: the live windows not yet tracked. The original takes them
      from a set; the model fixes the order of first appearance in the
      enumeration. */
  function NewHandles(live: seq<Handle>, known: set<Handle>): (r: seq<Handle>)
    ensures Distinct(r)
    ensures forall h :: h in r <==> h in live && h !in known
  {
    if live == [] then []
    else if live[0] in known then NewHandles(live[1..], known)
    else [live[0]] + NewHandles(live[1..], known + {live[0]})
  }

  /** The new windows are listed in the order in which they first appear in
      the enumeration. */
  lemma {:induction false} NewHandlesOrder(live: seq<Handle>, known: set<Handle>)
    ensures FirstAppearanceOrder(NewHandles(live, known), live)
  {
    if live != [] {
      var known' := if live[0] in known then known else known + {live[0]};
      NewHandlesOrder(live[1..], known');
      var rest := NewHandles(live[1..], known');
      assert forall i :: 0 <= i < |rest| ==> rest[i] in rest;
      FirstAppearanceCons(live, rest);
    }
  }

  /** Which windows are new depends only on which live windows are known. */
  lemma {:induction false} NewHandlesOnlyLiveMatter(live: seq<Handle>, known: set<Handle>, known': set<Handle>)
    requires forall h :: h in live ==> (h in known <==> h in known')
    ensures NewHandles(live, known) == NewHandles(live, known')
  {
    if live != [] {
      var h := live[0];
      var rest := live[1..];
      assert forall x :: x in rest ==> x in live;
      if h in known {
        NewHandlesOnlyLiveMatter(rest, known, known');
      } else {
        NewHandlesOnlyLiveMatter(rest, known + {h}, known' + {h});
      }
    }
  }

  /** Distinct live windows none of which is known are all new, in order. */
  lemma {:induction false} NewHandlesAllNew(live: seq<Handle>, known: set<Handle>)
    requires Distinct(live)
    requires forall i :: 0 <= i < |live| ==> live[i] !in known
    ensures NewHandles(live, known) == live
  {
    if live != [] {
      var rest := live[1..];
      assert forall i :: 0 <= i < |rest| ==> rest[i] == live[i + 1];
      assert forall i :: 0 <= i < |rest| ==> rest[i] !in known + {live[0]};
      NewHandlesAllNew(rest, known + {live[0]});
      assert live == [live[0]] + rest;
    }
  }

  /** Nothing is new when every live window is known. */
  lemma {:induction false} NewHandlesNone(live: seq<Handle>, known: set<Handle>)
    requires forall i :: 0 <= i < |live| ==> live[i] in known
    ensures NewHandles(live, known) == []
  {
    if live != [] {
      assert forall i :: 0 <= i < |live[1..]| ==> live[1..][i] == live[i + 1];
      NewHandlesNone(live[1..], known);
    }
  }

  /** The tracked set with every window that is no longer live removed
      (`removed_hwnds`); the survivors keep their records. */
  function Evict(m: Tracked, live: set<Handle>): (r: Tracked)
    ensures r.Keys == m.Keys * live
    ensures forall h :: h in r ==> r[h] == m[h]
  {
    map h | h in m && h in live :: m[h]
  }

  /** The pairing `zip(new_hwnds, available_positions)`: the j-th new window
      gets the j-th slot and order `|m| + j + 1`, the size of the set just
      before it was written plus one. */
  function Assign(m: Tracked, incoming: seq<Handle>, slots: seq<Cell>): (r: Tracked)
    requires Distinct(incoming)
    requires forall h :: h in incoming ==> h !in m
    requires |incoming| <= |slots|
    decreases |incoming|
    ensures forall h :: h in r <==> h in m || h in incoming
    ensures forall h :: h in m ==> r[h] == m[h]
    ensures forall j :: 0 <= j < |incoming| ==> incoming[j] in r && r[incoming[j]] == Record(slots[j].x, slots[j].y, |m| + j + 1)
  {
    if incoming == [] then m
    else
      var h := incoming[0];
      var m' := m[h := Record(slots[0].x, slots[0].y, |m| + 1)];
      assert |m'| == |m| + 1;
      assert Distinct(incoming[1..]);
      var r := Assign(m', incoming[1..], slots[1..]);
      assert forall j :: 1 <= j < |incoming| ==> incoming[j] == incoming[1..][j - 1] && slots[j] == slots[1..][j - 1];
      r
  }

  /** The don't-move loop: every live window, in enumeration order, gets a
      record at the top-left corner of its current rectangle, with order
      `|m| + 1` for the set as it stands when the record is written. */
  function Freeze(m: Tracked, live: seq<Handle>, rect: Handle -> Rect): (r: Tracked)
    decreases |live|
    ensures forall h :: h in r <==> h in m || h in live
    ensures forall h :: h in m && h !in live ==> r[h] == m[h]
    ensures forall h :: h in live ==> r[h].x == rect(h).left && r[h].y == rect(h).top
  {
    if live == [] then m
    else
      var h := live[0];
      Freeze(m[h := Record(rect(h).left, rect(h).top, |m| + 1)], live[1..], rect)
  }

  /** The order a window ends up with in the don't-move loop is one more than
      the size of the set when its last record was written: the windows
      tracked before the loop together with those enumerated before it. */
  lemma {:induction false} FreezeOrder(m: Tracked, live: seq<Handle>, rect: Handle -> Rect, i: int)
    requires 0 <= i < |live| && live[i] !in live[i + 1..]
    ensures live[i] in Freeze(m, live, rect)
    ensures Freeze(m, live, rect)[live[i]].order == |m.Keys + Elems(live[..i])| + 1
    decreases |live|
  {
    var h := live[0];
    var m' := m[h := Record(rect(h).left, rect(h).top, |m| + 1)];
    var rest := live[1..];
    assert Freeze(m, live, rect) == Freeze(m', rest, rect);
    if i == 0 {
      FreezeOrderBase(m, live, rect);
    } else {
      assert rest[i - 1] == live[i] && rest[i..] == live[i + 1..];
      FreezeOrder(m', rest, rect, i - 1);
      var r := Freeze(m', rest, rect);
      var before := m'.Keys + Elems(rest[..i - 1]);
      var after := m.Keys + Elems(live[..i]);
      assert r[live[i]].order == |before| + 1;
      UpdateKeys(m, h, m'[h]);
      KeysAfterFirst(m, live, i, m'.Keys);
      assert before == after;
      assert r[live[i]].order == |after| + 1;
    }
  }

  /** `FreezeOrder` for every window whose last occurrence it is. */
  lemma FreezeOrders(m: Tracked, live: seq<Handle>, rect: Handle -> Rect)
    ensures forall i :: 0 <= i < |live| && live[i] !in live[i + 1..] ==>
      live[i] in Freeze(m, live, rect) && Freeze(m, live, rect)[live[i]].order == |m.Keys + Elems(live[..i])| + 1
  {
    forall i | 0 <= i < |live| && live[i] !in live[i + 1..]
      ensures live[i] in Freeze(m, live, rect) && Freeze(m, live, rect)[live[i]].order == |m.Keys + Elems(live[..i])| + 1
    {
      FreezeOrder(m, live, rect, i);
    }
  }

  lemma FreezeOrderBase(m: Tracked, live: seq<Handle>, rect: Handle -> Rect)
    requires 0 < |live| && live[0] !in live[1..]
    ensures live[0] in Freeze(m, live, rect)
    ensures Freeze(m, live, rect)[live[0]].order == |m.Keys + Elems(live[..0])| + 1
  {
    var h := live[0];
    var m' := m[h := Record(rect(h).left, rect(h).top, |m| + 1)];
    assert Freeze(m, live, rect) == Freeze(m', live[1..], rect);
    assert m.Keys + Elems(live[..0]) == m.Keys by {
      assert live[..0] == [];
    }
  }

  lemma UpdateKeys(m: Tracked, h: Handle, v: Record)
    ensures m[h := v].Keys == m.Keys + {h}
  {
  }

  lemma KeysAfterFirst(m: Tracked, live: seq<Handle>, i: int, keys: set<Handle>)
    requires 0 < i <= |live|
    requires keys == m.Keys + {live[0]}
    ensures keys + Elems(live[1..][..i - 1]) == m.Keys + Elems(live[..i])
  {
    assert live[..i] == [live[0]] + live[1..][..i - 1];
    forall x
      ensures x in live[..i] <==> x == live[0] || x in live[1..][..i - 1]
    {
    }
  }
}
