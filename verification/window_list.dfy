/** `get_window_list`: the tracked windows that still exist, with their
    records and their current title and style, sorted by placement order. */
module WindowList {
  import opened Types
  import opened Seqs
  import opened Styles

  /** One row of the list the interface shows. */
  datatype Entry = Entry(order: int, title: string, handle: Handle, x: int, y: int, hasCaption: bool, hasBorder: bool)

  /** The row for tracked window `h`: its record, its current text and what
      its current style word says about the caption and the border. */
  function EntryOf(tracked: Tracked, d: Desktop, h: Handle): Entry
    requires h in tracked
  {
    var rec := tracked[h];
    Entry(rec.order, d.text(h), h, rec.x, rec.y, HasCaption(d.style(h)), HasBorder(d.style(h)))
  }

  /** Non-decreasing in `order`. */
  predicate Sorted(s: seq<Entry>) {
    forall i, j :: 0 <= i < j < |s| ==> s[i].order <= s[j].order
  }

  /** No window is listed twice. */
  predicate DistinctHandles(s: seq<Entry>) {
    forall i, j :: 0 <= i < j < |s| ==> s[i].handle != s[j].handle
  }

  /** The position of `h` in the iteration order `keys`. */
  function IndexOf(keys: seq<Handle>, h: Handle): (k: nat)
    requires h in keys
    ensures k < |keys| && keys[k] == h
  {
    if keys[0] == h then 0 else 1 + IndexOf(keys[1..], h)
  }

  lemma IndexOfDistinct(keys: seq<Handle>, i: int)
    requires Distinct(keys) && 0 <= i < |keys|
    ensures IndexOf(keys, keys[i]) == i
  {
  }

  /** Rows with equal orders come in the iteration order `keys`, as Python's
      stable `sorted` leaves them. */
  predicate Stable(s: seq<Entry>, keys: seq<Handle>) {
    forall i, j :: 0 <= i < j < |s| && s[i].order == s[j].order ==>
      s[i].handle in keys && s[j].handle in keys && IndexOf(keys, s[i].handle) < IndexOf(keys, s[j].handle)
  }

  /** Where `e` goes in a sorted list: after every row whose order is not
      larger than its own. */
  function Position(s: seq<Entry>, e: Entry): (k: nat)
    requires Sorted(s)
    ensures k <= |s|
    ensures forall i :: 0 <= i < k ==> s[i].order <= e.order
    ensures forall i :: k <= i < |s| ==> e.order < s[i].order
  {
    if s == [] || e.order < s[0].order then 0 else 1 + Position(s[1..], e)
  }

  /** `e` spliced into `s` at `k`: every old row survives, nothing else is added. */
  lemma SpliceMembers(s: seq<Entry>, k: int, e: Entry)
    requires 0 <= k <= |s|
    ensures forall x :: x in s[..k] + [e] + s[k..] <==> x in s || x == e
  {
    assert s == s[..k] + s[k..];
  }

  /** One step of a stable insertion sort. */
  function Insert(s: seq<Entry>, e: Entry): (r: seq<Entry>)
    requires Sorted(s)
    ensures Sorted(r)
    ensures |r| == |s| + 1
    ensures forall x :: x in r <==> x in s || x == e
    ensures multiset(r) == multiset(s) + multiset{e}
  {
    var k := Position(s, e);
    SpliceMembers(s, k, e);
    var r := s[..k] + [e] + s[k..];
    assert s == s[..k] + s[k..];
    assert forall i :: 0 <= i < |r| ==> r[i] == if i < k then s[i] else if i == k then e else s[i - 1];
    r
  }

  /** Where each row of `Insert(s, e)` comes from: the rows of `s` before
      the insertion point, then `e`, then the rest of `s`. */
  lemma InsertShape(s: seq<Entry>, e: Entry)
    requires Sorted(s)
    ensures |Insert(s, e)| == |s| + 1
    ensures forall i {:trigger Insert(s, e)[i]} :: 0 <= i < |s| + 1 ==>
      Insert(s, e)[i] == if i < Position(s, e) then s[i] else if i == Position(s, e) then e else s[i - 1]
  {
  }

  /** Inserting a window not listed yet, that comes after every listed one in
      the iteration order, keeps the handles distinct and the ties stable. */
  lemma InsertKeeps(s: seq<Entry>, e: Entry, keys: seq<Handle>)
    requires Sorted(s) && DistinctHandles(s) && Stable(s, keys)
    requires e.handle in keys
    requires forall i :: 0 <= i < |s| ==> s[i].handle in keys && IndexOf(keys, s[i].handle) < IndexOf(keys, e.handle)
    ensures DistinctHandles(Insert(s, e))
    ensures Stable(Insert(s, e), keys)
  {
    var r := Insert(s, e);
    forall i, j | 0 <= i < j < |r|
      ensures r[i].handle != r[j].handle
    {
      InsertPair(s, e, keys, i, j);
    }
    forall i, j | 0 <= i < j < |r| && r[i].order == r[j].order
      ensures r[i].handle in keys && r[j].handle in keys && IndexOf(keys, r[i].handle) < IndexOf(keys, r[j].handle)
    {
      InsertPair(s, e, keys, i, j);
    }
  }

  /** `InsertKeeps` for one pair of rows. */
  lemma InsertPair(s: seq<Entry>, e: Entry, keys: seq<Handle>, i: int, j: int)
    requires Sorted(s) && DistinctHandles(s) && Stable(s, keys)
    requires e.handle in keys
    requires forall i :: 0 <= i < |s| ==> s[i].handle in keys && IndexOf(keys, s[i].handle) < IndexOf(keys, e.handle)
    requires 0 <= i < j < |Insert(s, e)|
    ensures var r := Insert(s, e);
      && r[i].handle != r[j].handle
      && (r[i].order == r[j].order ==>
        r[i].handle in keys && r[j].handle in keys && IndexOf(keys, r[i].handle) < IndexOf(keys, r[j].handle))
  {
    InsertShape(s, e);
    SplicedPair(s, e, keys, Position(s, e), Insert(s, e), i, j);
  }

  /** The pair argument for any splice of `e` into `s` at a point after
      which every row has a larger order. */
  lemma SplicedPair(s: seq<Entry>, e: Entry, keys: seq<Handle>, k: nat, r: seq<Entry>, i: int, j: int)
    requires DistinctHandles(s) && Stable(s, keys)
    requires e.handle in keys
    requires forall i :: 0 <= i < |s| ==> s[i].handle in keys && IndexOf(keys, s[i].handle) < IndexOf(keys, e.handle)
    requires k <= |s| && |r| == |s| + 1
    requires forall i :: k <= i < |s| ==> e.order < s[i].order
    requires forall i {:trigger r[i]} :: 0 <= i < |r| ==> r[i] == if i < k then s[i] else if i == k then e else s[i - 1]
    requires 0 <= i < j < |r|
    ensures r[i].handle != r[j].handle
    ensures r[i].order == r[j].order ==>
      r[i].handle in keys && r[j].handle in keys && IndexOf(keys, r[i].handle) < IndexOf(keys, r[j].handle)
  {
    var i' := if i < k then i else i - 1;
    var j' := if j <= k then j else j - 1;
    if i == k {
      assert r[i] == e && r[j] == s[j'] && k <= j';
      assert e.order < s[j'].order;
      assert IndexOf(keys, s[j'].handle) < IndexOf(keys, e.handle);
    } else if j == k {
      assert r[i] == s[i'] && r[j] == e;
      assert IndexOf(keys, s[i'].handle) < IndexOf(keys, e.handle);
    } else {
      assert r[i] == s[i'] && r[j] == s[j'] && i' < j';
    }
  }

  /** `r` lists exactly the valid windows among the first `n` keys. */
  ghost predicate Listed(tracked: Tracked, keys: seq<Handle>, d: Desktop, r: seq<Entry>, n: int)
    requires 0 <= n <= |keys|
  {
    forall e :: e in r <==> e.handle in keys[..n] && e.handle in tracked && d.isWindow(e.handle) && e == EntryOf(tracked, d, e.handle)
  }

  /** The list after visiting key `n`. */
  function Visit(tracked: Tracked, keys: seq<Handle>, d: Desktop, r: seq<Entry>, n: int): seq<Entry>
    requires 0 <= n < |keys| && keys[n] in tracked && Sorted(r)
  {
    if d.isWindow(keys[n]) then Insert(r, EntryOf(tracked, d, keys[n])) else r
  }

  /** Visiting the next key keeps the list sorted, stable, free of
      duplicates and exactly the valid windows seen so far. */
  lemma VisitKeeps(tracked: Tracked, keys: seq<Handle>, d: Desktop, r: seq<Entry>, n: int)
    requires Distinct(keys) && 0 <= n < |keys| && keys[n] in tracked
    requires Sorted(r) && DistinctHandles(r) && Stable(r, keys) && Listed(tracked, keys, d, r, n)
    ensures var r' := Visit(tracked, keys, d, r, n);
      Sorted(r') && DistinctHandles(r') && Stable(r', keys) && Listed(tracked, keys, d, r', n + 1)
  {
    var h := keys[n];
    assert h in keys;
    assert keys[..n + 1] == keys[..n] + [h];
    assert forall e :: e in r ==> e.handle in keys[..n];
    if d.isWindow(h) {
      ListedEarlier(keys, r, n);
      InsertKeeps(r, EntryOf(tracked, d, h), keys);
    }
  }

  /** The list of the tracked windows that are still valid windows, sorted by
      order. `keys` is the iteration order of the tracked set: every tracked
      window once. Rows with equal orders keep that order. */
  method GetWindowList(tracked: Tracked, keys: seq<Handle>, d: Desktop) returns (r: seq<Entry>)
    requires Distinct(keys)
    requires forall h :: h in tracked <==> h in keys
    ensures Sorted(r)
    ensures DistinctHandles(r)
    ensures Stable(r, keys)
    ensures forall e :: e in r <==> e.handle in tracked && d.isWindow(e.handle) && e == EntryOf(tracked, d, e.handle)
  {
    r := [];
    var n := 0;
    while n < |keys|
      invariant n <= |keys|
      invariant Sorted(r) && DistinctHandles(r) && Stable(r, keys) && Listed(tracked, keys, d, r, n)
    {
      var h := keys[n];
      assert h in keys;
      VisitKeeps(tracked, keys, d, r, n);
      if d.isWindow(h) {
        r := Insert(r, EntryOf(tracked, d, h));
      }
      n := n + 1;
    }
    assert keys[..n] == keys;
  }

  /** Every row listed after visiting `keys[..n]` is for a window visited
      before `keys[n]`. */
  lemma ListedEarlier(keys: seq<Handle>, r: seq<Entry>, n: int)
    requires Distinct(keys) && 0 <= n < |keys|
    requires forall e :: e in r ==> e.handle in keys[..n]
    ensures forall i :: 0 <= i < |r| ==> r[i].handle in keys && IndexOf(keys, r[i].handle) < IndexOf(keys, keys[n])
  {
    forall i | 0 <= i < |r|
      ensures r[i].handle in keys && IndexOf(keys, r[i].handle) < IndexOf(keys, keys[n])
    {
      assert r[i] in r;
      var p :| 0 <= p < n && keys[p] == r[i].handle;
      IndexOfDistinct(keys, p);
      IndexOfDistinct(keys, n);
    }
  }
}
