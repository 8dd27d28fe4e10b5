/** The drag-and-drop state machine of the shelf: a drag starts, enters icons (inserting a
    placeholder or moving the dragged icon), leaves the shelf, and ends with or without a drop.
    Each handler is a function from the shelf before the event to the shelf after it. */
module DragSession {
  import opened AppsTypes
  import opened ShelfState
  import opened AppResolution
  import opened Reconcile

  /** onDragStarted: a drag without an intent is refused; on an empty shelf a placeholder is
      added at index 0 and becomes the drag view, so there is somewhere to drop. */
  function DragStarted(st: Shelf, e: DragEvent): (Shelf, bool)
    requires DragValid(st)
  {
    if !CanAcceptDrag(e) then (st, false)
    else if |st.slots| == 0 then (ChildAdded(st, Placeholder, 0).(drag := Attached(0)), true)
    else (st, true)
  }

  /** The view the drag carries: the child the drag view is, or the view taken off the shelf. */
  function DraggedView(st: Shelf): Slot
    requires DragValid(st) && !st.drag.NoDrag?
  {
    if st.drag.Attached? then st.slots[st.drag.index] else st.drag.view
  }

  /** What onDragEnteredIcon reads is there: the target is a child, and the tags it reads (the
      target's, and those getNewAppIndex scans) are not the placeholder's null tag. */
  ghost predicate DragEnterDefined(st: Shelf, t: nat) {
    DragValid(st) && t < |st.slots| &&
    match st.drag
    case NoDrag => ScanSafe(st.slots, t, true)
    case Attached(d) => d == t || st.slots[t].Icon?
    case Lifted(v) => ScanSafe(st.slots, t, OrdersAsPinned(v))
  }

  /** A shelf whose only placeholder is the drag view can take a drag entering any icon. */
  lemma DragEnterDefinedOnShelf(st: Shelf, t: nat)
    requires DragValid(st) && PlaceholderOnlyAtDrag(st) && t < |st.slots|
    ensures DragEnterDefined(st, t)
  {
    match st.drag
    case NoDrag =>
      ScanSafeWithoutPlaceholder(st.slots, t, true);
    case Attached(d) =>
    case Lifted(v) =>
      ScanSafeWithoutPlaceholder(st.slots, t, OrdersAsPinned(v));
  }

  /** Whether a drag over the icon at t is refused because it would put a pinned app right of
      an unpinned one or an unpinned app left of a pinned one. */
  predicate MoveRefused(st: Shelf, t: nat)
    requires DragValid(st) && st.drag.Attached? && t < |st.slots| && st.slots[t].Icon?
  {
    var d := st.drag.index;
    var dragPinned := OrdersAsPinned(st.slots[d]);
    (d < t && !st.slots[t].data.pinned && dragPinned) ||
    (d > t && st.slots[t].data.pinned && !dragPinned)
  }

  /** onDragEnteredIcon for the icon at index t. */
  function DragEnter(st: Shelf, t: nat): (r: Shelf)
    requires DragEnterDefined(st, t)
    ensures DragValid(r) && r.savedApps == st.savedApps && r.drag.Attached?
  {
    match st.drag
    case NoDrag =>
      var i := NewAppIndex(st.slots, t, true);
      ChildAdded(st, Placeholder, i).(drag := Attached(i))
    case Attached(d) =>
      if d == t || MoveRefused(st, t) then st
      else
        var v := st.slots[d];
        ChildAdded(DragViewRemoved(st), v, t).(drag := Attached(t))
    case Lifted(v) =>
      var i := NewAppIndex(st.slots, t, OrdersAsPinned(v));
      ChildAdded(st, v, i).(drag := Attached(i))
  }

  /** removePlaceholderDragViewIfNeeded: takes the drag view off the shelf, whatever it is. */
  function PlaceholderRemoved(st: Shelf): (r: Shelf)
    requires DragValid(st)
    ensures DragValid(r) && !r.drag.Attached?
  {
    if st.drag.NoDrag? then st else DragViewRemoved(st)
  }

  /** endDrag: the drag view is forgotten, the pinned apps are saved and the recent tasks are
      merged in again. */
  function EndDrag(st: Shelf, env: Env, recent: seq<Task>): (r: Shelf)
    requires DragValid(st)
    ensures DragValid(r)
    ensures st.drag.NoDrag? ==> r == st
    ensures !st.drag.NoDrag? ==> r.drag.NoDrag? && r.savedApps == PinnedApps(st.slots)
  {
    if st.drag.NoDrag? then st
    else UpdateTasksSpec(st.(drag := NoDrag, savedApps := PinnedApps(st.slots)), recent, env)
  }

  /** The drag view with the dropped app in place of the placeholder (updateApp). */
  function Converted(st: Shelf, app: AppInfo): (r: Shelf)
    requires DragValid(st)
    ensures DragValid(r)
  {
    var icon := Icon(AppButtonData(app, true, []));
    match st.drag
    case Attached(d) => if st.slots[d].Placeholder? then st.(slots := st.slots[d := icon]) else st
    case Lifted(v) => if v.Placeholder? then st.(drag := Lifted(icon)) else st
    case NoDrag => st
  }

  /** onDrop: an invalid payload takes the drag view off the shelf and the drop fails; a valid
      one turns a placeholder drag view into a pinned icon of the dropped app. */
  function Drop(st: Shelf, e: DragEvent, env: Env, recent: seq<Task>): (Shelf, bool)
    requires DragValid(st)
  {
    if st.drag.NoDrag? then (st, true)
    else
      match AppFromDragEvent(e, env)
      case None => (EndDrag(PlaceholderRemoved(st), env, recent), false)
      case Some(app) => (EndDrag(Converted(st, app), env, recent), true)
  }

  /** onDragEnded. */
  function DragEnded(st: Shelf, env: Env, recent: seq<Task>): (Shelf, bool)
    requires DragValid(st)
  {
    (EndDrag(PlaceholderRemoved(st), env, recent), true)
  }

  /** onDragExited. */
  function DragExited(st: Shelf): (Shelf, bool)
    requires DragValid(st)
  {
    (PlaceholderRemoved(st), true)
  }

  // ---------------------------------------------------------------------------------------
  // Starting a drag

  /** A drag without an intent is refused and nothing changes; one with an intent is accepted,
      and only an empty shelf changes: it gets a single placeholder that is the drag view. */
  lemma DragStartedOutcome(st: Shelf, e: DragEvent)
    requires DragValid(st)
    ensures DragStarted(st, e).1 <==> CanAcceptDrag(e)
    ensures !CanAcceptDrag(e) || |st.slots| > 0 ==> DragStarted(st, e).0 == st
    ensures CanAcceptDrag(e) && |st.slots| == 0 ==>
      DragStarted(st, e).0 == Shelf([Placeholder], Attached(0), st.savedApps)
  {
    if CanAcceptDrag(e) && |st.slots| == 0 {
      assert ChildAdded(st, Placeholder, 0).slots == [Placeholder];
    }
  }

  // ---------------------------------------------------------------------------------------
  // Entering an icon

  /** With no drag view, entering an icon inserts exactly one placeholder, right of the last
      pinned icon left of the target, and makes it the drag view. */
  lemma DragEnterInsertsPlaceholder(st: Shelf, t: nat)
    requires DragEnterDefined(st, t) && st.drag.NoDrag?
    ensures var r := DragEnter(st, t); var i := r.drag.index;
      i == NewAppIndex(st.slots, t, true) && i <= t &&
      r.slots[i] == Placeholder && Without(r.slots, i) == st.slots
  {
    var i := NewAppIndex(st.slots, t, true);
    WithoutAdded(st, Placeholder, i);
  }

  /** Entering the drag view itself changes nothing. */
  lemma DragEnterSelf(st: Shelf, t: nat)
    requires DragEnterDefined(st, t) && st.drag == Attached(t)
    ensures DragEnter(st, t) == st
  {
  }

  /** A pinned (or placeholder) drag view left of an unpinned target stays, and so does an
      unpinned drag view right of a pinned target. */
  lemma DragEnterRefused(st: Shelf, t: nat)
    requires DragEnterDefined(st, t) && st.drag.Attached? && st.drag.index != t
    requires var d := st.drag.index;
      (d < t && !st.slots[t].data.pinned && OrdersAsPinned(st.slots[d])) ||
      (d > t && st.slots[t].data.pinned && !OrdersAsPinned(st.slots[d]))
    ensures DragEnter(st, t) == st
  {
  }

  /** Otherwise the dragged view moves to the target index and the other children keep their
      order. */
  lemma DragEnterMoves(st: Shelf, t: nat)
    requires DragEnterDefined(st, t) && st.drag.Attached? && st.drag.index != t
    requires !MoveRefused(st, t)
    ensures var r := DragEnter(st, t);
      |r.slots| == |st.slots| && r.drag == Attached(t) && r.slots[t] == st.slots[st.drag.index] &&
      Without(r.slots, t) == Without(st.slots, st.drag.index)
  {
    var removed := DragViewRemoved(st);
    WithoutAdded(removed, st.slots[st.drag.index], t);
  }

  /** A drag that left the shelf and comes back is put back where getNewAppIndex says, as the
      view it was. */
  lemma DragEnterReenters(st: Shelf, t: nat)
    requires DragEnterDefined(st, t) && st.drag.Lifted?
    ensures var r := DragEnter(st, t); var i := r.drag.index;
      i == NewAppIndex(st.slots, t, OrdersAsPinned(st.drag.view)) &&
      r.slots[i] == st.drag.view && Without(r.slots, i) == st.slots
  {
    WithoutAdded(st, st.drag.view, NewAppIndex(st.slots, t, OrdersAsPinned(st.drag.view)));
  }

  /** Entering an icon keeps pinned-ordered children left of unpinned ones. */
  lemma DragEnterKeepsPartition(st: Shelf, t: nat)
    requires DragEnterDefined(st, t) && Partitioned(st.slots)
    ensures Partitioned(DragEnter(st, t).slots)
  {
    var s := st.slots;
    match st.drag
    case NoDrag =>
      var i := NewAppIndex(s, t, true);
      assert forall j :: 0 <= j < i ==> OrdersAsPinned(s[j]);
      PartitionedInsert(s, Placeholder, i);
    case Lifted(v) =>
      var i := NewAppIndex(s, t, OrdersAsPinned(v));
      if OrdersAsPinned(v) {
        assert forall j :: 0 <= j < i ==> OrdersAsPinned(s[j]);
      } else {
        assert forall j :: i <= j < |s| ==> !OrdersAsPinned(s[j]);
      }
      PartitionedInsert(s, v, i);
    case Attached(d) =>
      if d != t && !MoveRefused(st, t) {
        var x := s[d];
        var w := Without(s, d);
        PartitionedWithout(s, d);
        assert OrdersAsPinned(s[t]) == s[t].data.pinned;
        if OrdersAsPinned(x) {
          assert forall j :: 0 <= j < t ==> OrdersAsPinned(w[j]);
        } else {
          assert forall j :: t <= j < |w| ==> !OrdersAsPinned(w[j]);
        }
        PartitionedInsert(w, x, t);
        assert DragEnter(st, t).slots == w[..t] + [x] + w[t..];
      }
  }

  /** Entering an icon keeps the drag view the only possible placeholder. */
  lemma DragEnterKeepsPlaceholderAtDrag(st: Shelf, t: nat)
    requires DragEnterDefined(st, t) && PlaceholderOnlyAtDrag(st)
    ensures PlaceholderOnlyAtDrag(DragEnter(st, t))
  {
    var r := DragEnter(st, t);
    match st.drag
    case NoDrag =>
      DragEnterInsertsPlaceholder(st, t);
      PlaceholderOnlyAtIndex(r, r.drag.index);
    case Lifted(v) =>
      DragEnterReenters(st, t);
      PlaceholderOnlyAtIndex(r, r.drag.index);
    case Attached(d) =>
      if d != t && !MoveRefused(st, t) {
        DragEnterMoves(st, t);
        NoPlaceholderWithoutDragView(st);
        PlaceholderOnlyAtIndex(r, t);
      }
  }

  // ---------------------------------------------------------------------------------------
  // Leaving the shelf and ending the drag

  /** Leaving the shelf takes the drag view off it, whatever view it is. */
  lemma DragExitedLifts(st: Shelf)
    requires DragValid(st) && st.drag.Attached?
    ensures var r := DragExited(st).0;
      r.drag == Lifted(st.slots[st.drag.index]) && r.slots == Without(st.slots, st.drag.index) &&
      r.savedApps == st.savedApps
  {
  }

  /** endDrag always leaves no drag view behind, and saves the pinned apps it found. */
  lemma EndDragClears(st: Shelf, env: Env, recent: seq<Task>)
    requires DragValid(st)
    ensures EndDrag(st, env, recent).drag.NoDrag?
    ensures !st.drag.NoDrag? && NoPlaceholder(st.slots) ==>
      EndDrag(st, env, recent).slots == Reconciled(st.slots, recent, env) &&
      EndDrag(st, env, recent).savedApps == PinnedApps(EndDrag(st, env, recent).slots)
  {
    if !st.drag.NoDrag? && NoPlaceholder(st.slots) {
      var saved := st.(drag := NoDrag, savedApps := PinnedApps(st.slots));
      UpdateTasksReconciles(saved, recent, env);
      ReconciledKeepsPinned(st.slots, recent, env);
    }
  }

  /** A drop with no drag view left succeeds and changes nothing. */
  lemma DropWithoutDrag(st: Shelf, e: DragEvent, env: Env, recent: seq<Task>)
    requires DragValid(st) && st.drag.NoDrag?
    ensures Drop(st, e, env, recent) == (st, true)
  {
  }

  /** A drop fails exactly when the payload names no launchable app; a failed drop takes the
      drag view off the shelf before the drag ends. */
  lemma DropOutcome(st: Shelf, e: DragEvent, env: Env, recent: seq<Task>)
    requires DragValid(st) && !st.drag.NoDrag?
    ensures !Drop(st, e, env, recent).1 <==> forall app :: PayloadNames(e, env, app) ==> !env.launchable(app)
    ensures !Drop(st, e, env, recent).1 ==>
      Drop(st, e, env, recent).0 == EndDrag(DragViewRemoved(st), env, recent)
  {
  }

  /** A valid drop on a placeholder turns it, in place, into a pinned icon of the dropped app. */
  lemma DropConvertsPlaceholder(st: Shelf, e: DragEvent, env: Env, app: AppInfo)
    requires DragValid(st) && st.drag.Attached? && st.slots[st.drag.index].Placeholder?
    requires AppFromDragEvent(e, env) == Some(app)
    ensures var c := Converted(st, app);
      c.slots == st.slots[st.drag.index := Icon(AppButtonData(app, true, []))] &&
      PinnedApps(c.slots) == PinnedApps(st.slots[..st.drag.index]) + [app] +
                              PinnedApps(st.slots[st.drag.index + 1..])
  {
    var s := st.slots;
    var d := st.drag.index;
    var c := Converted(st, app).slots;
    assert c == s[..d] + [c[d]] + s[d + 1..];
    assert s == s[..d] + [s[d]] + s[d + 1..];
    PinnedAppsConcat(s[..d] + [c[d]], s[d + 1..]);
    PinnedAppsConcat(s[..d], [c[d]]);
  }

  /** After a drop or the end of a drag, a shelf whose only placeholder was the drag view holds
      no placeholder, has no drag view, and has saved exactly its pinned apps. */
  lemma DropLeavesCleanShelf(st: Shelf, e: DragEvent, env: Env, recent: seq<Task>)
    requires DragValid(st) && PlaceholderOnlyAtDrag(st) && !st.drag.NoDrag?
    ensures var r := Drop(st, e, env, recent).0;
      r.drag.NoDrag? && NoPlaceholder(r.slots) && r.savedApps == PinnedApps(r.slots)
  {
    var m := match AppFromDragEvent(e, env)
      case None => PlaceholderRemoved(st)
      case Some(app) => Converted(st, app);
    assert NoPlaceholder(m.slots) by {
      forall j | 0 <= j < |m.slots| ensures m.slots[j].Icon? {
        if AppFromDragEvent(e, env).None? && st.drag.Attached? {
          var d := st.drag.index;
          assert m.slots[j] == if j < d then st.slots[j] else st.slots[j + 1];
        }
      }
    }
    EndDragClears(m, env, recent);
    ReconciledNoPlaceholder(m.slots, recent, env);
  }

  lemma DragEndedLeavesCleanShelf(st: Shelf, env: Env, recent: seq<Task>)
    requires DragValid(st) && PlaceholderOnlyAtDrag(st) && !st.drag.NoDrag?
    ensures var r := DragEnded(st, env, recent).0;
      r.drag.NoDrag? && NoPlaceholder(r.slots) && r.savedApps == PinnedApps(r.slots)
  {
    var m := PlaceholderRemoved(st);
    assert NoPlaceholder(m.slots) by {
      forall j | 0 <= j < |m.slots| ensures m.slots[j].Icon? {
        if st.drag.Attached? {
          var d := st.drag.index;
          assert m.slots[j] == if j < d then st.slots[j] else st.slots[j + 1];
        }
      }
    }
    EndDragClears(m, env, recent);
    ReconciledNoPlaceholder(m.slots, recent, env);
  }

  /** Dragging the only icon of a pinned app off the shelf and ending the drag there unpins the
      app: it is no longer in the saved list. */
  lemma DragOffShelfUnpins(st: Shelf, env: Env, recent: seq<Task>, a: AppInfo)
    requires DragValid(st) && NoPlaceholder(st.slots) && st.drag.Attached?
    requires HasApp(st.slots[st.drag.index], a)
    requires forall j :: 0 <= j < |st.slots| && j != st.drag.index ==> !HasApp(st.slots[j], a)
    ensures a !in DragEnded(DragExited(st).0, env, recent).0.savedApps
  {
    var x := DragExited(st).0;
    DragExitedLifts(st);
    PinnedAppsMembers(x.slots);
    assert a !in PinnedApps(x.slots);
  }

  /** Taking the drag view off the shelf keeps pinned-ordered children left of unpinned ones. */
  lemma PlaceholderRemovedKeepsPartition(st: Shelf)
    requires DragValid(st) && Partitioned(st.slots)
    ensures Partitioned(PlaceholderRemoved(st).slots)
  {
    if st.drag.Attached? {
      PartitionedWithout(st.slots, st.drag.index);
      assert PlaceholderRemoved(st).slots == Without(st.slots, st.drag.index);
    }
  }

  /** A drop, successful or not, keeps pinned-ordered children left of unpinned ones. */
  lemma DropKeepsPartition(st: Shelf, e: DragEvent, env: Env, recent: seq<Task>)
    requires DragValid(st) && Partitioned(st.slots)
    ensures Partitioned(Drop(st, e, env, recent).0.slots)
  {
    if !st.drag.NoDrag? {
      match AppFromDragEvent(e, env)
      case None =>
        PlaceholderRemovedKeepsPartition(st);
        UpdateTasksPartitioned(PlaceholderRemoved(st).(drag := NoDrag, savedApps := PinnedApps(PlaceholderRemoved(st).slots)), recent, env);
      case Some(app) =>
        var c := Converted(st, app);
        assert forall j :: 0 <= j < |c.slots| ==> OrdersAsPinned(c.slots[j]) == OrdersAsPinned(st.slots[j]);
        UpdateTasksPartitioned(c.(drag := NoDrag, savedApps := PinnedApps(c.slots)), recent, env);
    }
  }

  /** So does the end of a drag that was not dropped. */
  lemma DragEndedKeepsPartition(st: Shelf, env: Env, recent: seq<Task>)
    requires DragValid(st) && Partitioned(st.slots)
    ensures Partitioned(DragEnded(st, env, recent).0.slots)
  {
    var m := PlaceholderRemoved(st);
    PlaceholderRemovedKeepsPartition(st);
    if !m.drag.NoDrag? {
      UpdateTasksPartitioned(m.(drag := NoDrag, savedApps := PinnedApps(m.slots)), recent, env);
    }
  }
}
