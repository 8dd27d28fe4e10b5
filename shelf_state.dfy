/** The shelf's state as a value: its children, the drag view, and the pinned-app list last saved
    to the shared apps model. The child-list primitives (ViewGroup.addView / removeViewAt) keep
    the drag-view reference pointing at the same view while the other children shift. */
module ShelfState {
  import opened AppsTypes

  datatype Shelf = Shelf(slots: seq<Slot>, drag: Drag, savedApps: seq<AppInfo>)

  /** An attached drag view is one of the children. */
  predicate DragValid(st: Shelf) {
    st.drag.Attached? ==> st.drag.index < |st.slots|
  }

  /** The only placeholder that can be on the shelf is the drag view itself. */
  ghost predicate PlaceholderOnlyAtDrag(st: Shelf) {
    forall i :: 0 <= i < |st.slots| && st.slots[i].Placeholder? ==> st.drag == Attached(i)
  }

  /** No placeholder among the children with index in [lo, hi). */
  ghost predicate NoPlaceholderIn(s: seq<Slot>, lo: int, hi: int) {
    forall j :: lo <= j < hi && 0 <= j < |s| ==> s[j].Icon?
  }

  ghost predicate NoPlaceholder(s: seq<Slot>) {
    NoPlaceholderIn(s, 0, |s|)
  }

  /** Every child ordered as pinned comes before every child ordered as unpinned. */
  ghost predicate Partitioned(s: seq<Slot>) {
    forall i, j :: 0 <= i < j < |s| && OrdersAsPinned(s[j]) ==> OrdersAsPinned(s[i])
  }

  /** Where the drag view is after the child at index i is removed. */
  function DragAfterRemove(d: Drag, i: nat, removed: Slot): Drag {
    match d
    case Attached(k) => if k == i then Lifted(removed) else if k > i then Attached(k - 1) else d
    case _ => d
  }

  /** Where the drag view is after a child is inserted at index i. */
  function DragAfterInsert(d: Drag, i: nat): Drag {
    match d
    case Attached(k) => if k >= i then Attached(k + 1) else d
    case _ => d
  }

  /** ViewGroup.removeViewAt(i). */
  function ChildRemoved(st: Shelf, i: nat): (r: Shelf)
    requires i < |st.slots|
    ensures |r.slots| == |st.slots| - 1 && r.savedApps == st.savedApps
    ensures forall j :: 0 <= j < i ==> r.slots[j] == st.slots[j]
    ensures forall j :: i <= j < |r.slots| ==> r.slots[j] == st.slots[j + 1]
    ensures DragValid(st) ==> DragValid(r)
    ensures st.drag == Attached(i) ==> r.drag == Lifted(st.slots[i])
  {
    Shelf(st.slots[..i] + st.slots[i + 1..], DragAfterRemove(st.drag, i, st.slots[i]), st.savedApps)
  }

  /** ViewGroup.addView(v, i). */
  function ChildAdded(st: Shelf, v: Slot, i: nat): (r: Shelf)
    requires i <= |st.slots|
    ensures |r.slots| == |st.slots| + 1 && r.slots[i] == v && r.savedApps == st.savedApps
    ensures forall j :: 0 <= j < i ==> r.slots[j] == st.slots[j]
    ensures forall j :: i < j < |r.slots| ==> r.slots[j] == st.slots[j - 1]
    ensures DragValid(st) ==> DragValid(r)
  {
    Shelf(st.slots[..i] + [v] + st.slots[i..], DragAfterInsert(st.drag, i), st.savedApps)
  }

  /** removeView(mDragView): takes the drag view off the shelf if it is a child; otherwise there
      is nothing to remove. */
  function DragViewRemoved(st: Shelf): (r: Shelf)
    requires DragValid(st)
    ensures DragValid(r) && !r.drag.Attached?
    ensures st.drag.Attached? ==> r == ChildRemoved(st, st.drag.index)
    ensures !st.drag.Attached? ==> r == st
  {
    if st.drag.Attached? then ChildRemoved(st, st.drag.index) else st
  }

  /** The children getNewAppIndex reads before it stops are icons: its loop dereferences each
      child's tag, which is null for the placeholder. */
  ghost predicate ScanSafe(s: seq<Slot>, hint: nat, pinned: bool)
    decreases if pinned then hint else |s| - hint
  {
    if pinned then
      hint <= |s| &&
      (hint == 0 || (s[hint - 1].Icon? && (s[hint - 1].data.pinned || ScanSafe(s, hint - 1, true))))
    else
      hint >= |s| || (s[hint].Icon? && (!s[hint].data.pinned || ScanSafe(s, hint + 1, false)))
  }

  /** With no placeholder where the scan can go, the scan is safe. */
  lemma {:induction false} ScanSafeWithoutPlaceholder(s: seq<Slot>, hint: nat, pinned: bool)
    requires pinned ==> hint <= |s| && NoPlaceholderIn(s, 0, hint)
    requires !pinned ==> NoPlaceholderIn(s, hint, |s|)
    ensures ScanSafe(s, hint, pinned)
    decreases if pinned then hint else |s| - hint
  {
    if pinned && hint > 0 {
      ScanSafeWithoutPlaceholder(s, hint - 1, true);
    } else if !pinned && hint < |s| {
      ScanSafeWithoutPlaceholder(s, hint + 1, false);
    }
  }

  /** The insertion index for an app that is not on the shelf (getNewAppIndex). A pinned app goes
      just right of the last pinned child left of the hint; an unpinned app goes at the first
      unpinned child at or right of the hint (or at the end). */
  function NewAppIndex(s: seq<Slot>, hint: nat, pinned: bool): (i: nat)
    requires ScanSafe(s, hint, pinned)
    ensures pinned ==> i <= hint && (i == 0 || (s[i - 1].Icon? && s[i - 1].data.pinned)) &&
                       forall j :: i <= j < hint ==> s[j].Icon? && !s[j].data.pinned
    ensures !pinned && hint >= |s| ==> i == hint
    ensures !pinned && hint < |s| ==>
      hint <= i <= |s| && (i == |s| || (s[i].Icon? && !s[i].data.pinned)) &&
      forall j :: hint <= j < i ==> s[j].Icon? && s[j].data.pinned
    decreases if pinned then hint else |s| - hint
  {
    if pinned then
      if hint == 0 || s[hint - 1].data.pinned then hint else NewAppIndex(s, hint - 1, true)
    else
      if hint >= |s| || !s[hint].data.pinned then hint else NewAppIndex(s, hint + 1, false)
  }

  /** The pinned apps in shelf order, skipping the placeholder (getPinnedApps). */
  function PinnedApps(s: seq<Slot>): (r: seq<AppInfo>)
    ensures |r| <= |s|
  {
    if s == [] then []
    else
      var last := s[|s| - 1];
      PinnedApps(s[..|s| - 1]) + if last.Icon? && last.data.pinned then [last.data.appInfo] else []
  }

  /** The pinned list names exactly the apps of the pinned icons. */
  lemma {:induction false} PinnedAppsMembers(s: seq<Slot>)
    ensures forall a :: a in PinnedApps(s) <==>
      exists i :: 0 <= i < |s| && s[i].Icon? && s[i].data.pinned && s[i].data.appInfo == a
  {
    if s != [] {
      var n := |s| - 1;
      PinnedAppsMembers(s[..n]);
      assert forall i :: 0 <= i < n ==> s[..n][i] == s[i];
    }
  }

  /** The children recreatePinnedAppButtons builds: one pinned icon with no tasks per app. */
  function PinnedIcons(apps: seq<AppInfo>): (s: seq<Slot>)
    ensures |s| == |apps| && NoPlaceholder(s)
    ensures forall i :: 0 <= i < |s| ==> s[i] == Icon(AppButtonData(apps[i], true, []))
  {
    seq(|apps|, i requires 0 <= i < |apps| => Icon(AppButtonData(apps[i], true, [])))
  }

  /** Rebuilding the icons from a saved list and reading the pinned list back gives that list. */
  lemma {:induction false} PinnedAppsOfPinnedIcons(apps: seq<AppInfo>)
    ensures PinnedApps(PinnedIcons(apps)) == apps
  {
    if apps != [] {
      var n := |apps| - 1;
      assert PinnedIcons(apps)[..n] == PinnedIcons(apps[..n]);
      PinnedAppsOfPinnedIcons(apps[..n]);
      assert apps == apps[..n] + [apps[n]];
    }
  }

  /** The pinned list of two runs of children is the pinned list of each, in order. */
  lemma {:induction false} PinnedAppsConcat(x: seq<Slot>, y: seq<Slot>)
    ensures PinnedApps(x + y) == PinnedApps(x) + PinnedApps(y)
    decreases |y|
  {
    if y == [] {
      assert x + y == x;
    } else {
      var n := |y| - 1;
      assert (x + y)[..|x + y| - 1] == x + y[..n];
      assert (x + y)[|x + y| - 1] == y[n];
      PinnedAppsConcat(x, y[..n]);
    }
  }

  /** The pinned list of the children split at i. */
  lemma PinnedAppsSplit(s: seq<Slot>, i: nat)
    requires i <= |s|
    ensures PinnedApps(s) == PinnedApps(s[..i]) + PinnedApps(s[i..])
  {
    PinnedAppsConcat(s[..i], s[i..]);
    assert s[..i] + s[i..] == s;
  }

  /** Children none of which is a pinned icon have no pinned apps. */
  lemma {:induction false} NoPinnedApps(x: seq<Slot>)
    requires forall i :: 0 <= i < |x| ==> !(x[i].Icon? && x[i].data.pinned)
    ensures PinnedApps(x) == []
  {
    if x != [] {
      NoPinnedApps(x[..|x| - 1]);
    }
  }

  /** The children without the one at index i. */
  function Without(s: seq<Slot>, i: nat): (r: seq<Slot>)
    requires i < |s|
    ensures |r| == |s| - 1
    ensures forall j :: 0 <= j < |r| ==> r[j] == if j < i then s[j] else s[j + 1]
  {
    s[..i] + s[i + 1..]
  }

  /** Adding a child and taking it out again gives the children back. */
  lemma WithoutAdded(st: Shelf, v: Slot, i: nat)
    requires i <= |st.slots|
    ensures Without(ChildAdded(st, v, i).slots, i) == st.slots
  {
    var r := ChildAdded(st, v, i).slots;
    assert forall j :: 0 <= j < |st.slots| ==> Without(r, i)[j] == st.slots[j];
  }

  /** Taking a child out of partitioned children leaves them partitioned. */
  lemma PartitionedWithout(s: seq<Slot>, d: nat)
    requires d < |s| && Partitioned(s)
    ensures Partitioned(Without(s, d))
  {
    var w := Without(s, d);
    forall i, j | 0 <= i < j < |w| && OrdersAsPinned(w[j]) ensures OrdersAsPinned(w[i]) {
      var i' := if i < d then i else i + 1;
      var j' := if j < d then j else j + 1;
      assert w[i] == s[i'] && w[j] == s[j'];
    }
  }

  /** Inserting x at i into partitioned children keeps them partitioned when everything left of
      i orders as pinned if x does, and everything from i on orders as unpinned if x does. */
  lemma PartitionedInsert(w: seq<Slot>, x: Slot, i: nat)
    requires i <= |w| && Partitioned(w)
    requires OrdersAsPinned(x) ==> forall j :: 0 <= j < i ==> OrdersAsPinned(w[j])
    requires !OrdersAsPinned(x) ==> forall j :: i <= j < |w| ==> !OrdersAsPinned(w[j])
    ensures Partitioned(w[..i] + [x] + w[i..])
  {
    var r := w[..i] + [x] + w[i..];
    assert forall j :: 0 <= j < |r| ==> r[j] == if j < i then w[j] else if j == i then x else w[j - 1];
  }

  /** Taking the drag view out leaves no placeholder when it was the only one there could be. */
  lemma NoPlaceholderWithoutDragView(st: Shelf)
    requires DragValid(st) && PlaceholderOnlyAtDrag(st) && st.drag.Attached?
    ensures NoPlaceholder(Without(st.slots, st.drag.index))
  {
    var d := st.drag.index;
    var w := Without(st.slots, d);
    forall j | 0 <= j < |w| ensures w[j].Icon? {
      var k := if j < d then j else j + 1;
      assert w[j] == st.slots[k] && k != d;
    }
  }

  /** A drag view at index i whose removal leaves no placeholder is the only placeholder. */
  lemma PlaceholderOnlyAtIndex(st: Shelf, i: nat)
    requires i < |st.slots| && st.drag == Attached(i) && NoPlaceholder(Without(st.slots, i))
    ensures PlaceholderOnlyAtDrag(st)
  {
    var w := Without(st.slots, i);
    forall j | 0 <= j < |st.slots| && j != i ensures st.slots[j].Icon? {
      var k := if j < i then j else j - 1;
      assert w[k] == st.slots[j];
    }
  }

  /** Children that agree, index by index, on which are pinned icons of which app have the same
      pinned list. */
  lemma {:induction false} SamePinnedApps(x: seq<Slot>, y: seq<Slot>)
    requires |x| == |y|
    requires forall j :: 0 <= j < |x| ==> (x[j].Icon? && x[j].data.pinned) == (y[j].Icon? && y[j].data.pinned)
    requires forall j :: 0 <= j < |x| && x[j].Icon? && x[j].data.pinned ==> x[j].data.appInfo == y[j].data.appInfo
    ensures PinnedApps(x) == PinnedApps(y)
  {
    if x != [] {
      var n := |x| - 1;
      SamePinnedApps(x[..n], y[..n]);
    }
  }
}
