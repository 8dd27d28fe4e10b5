/** The shelf view itself: its children, the drag view and the shared pinned-app list as fields
    that its handlers update in place, each handler proved to end in the state the functional
    model of the other modules describes. */
module NavigationBar {
  import opened AppsTypes
  import opened ShelfState
  import opened AppResolution
  import opened Reconcile
  import opened DragSession
  import opened Pinning

  class NavigationBarApps {
    /** The child views, left to right; the tag of each is its slot. */
    var slots: seq<Slot>
    /** mDragView. */
    var drag: Drag
    /** The pinned-app list of the shared apps model (sAppsModel.getApps / setApps). */
    var savedApps: seq<AppInfo>

    function State(): Shelf
      reads this
    {
      Shelf(slots, drag, savedApps)
    }

    // -------------------------------------------------------------------------------------
    // ViewGroup primitives

    /** removeViewAt(i). */
    method RemoveViewAt(i: nat)
      requires DragValid(State()) && i < |slots|
      modifies this
      ensures State() == ChildRemoved(old(State()), i)
    {
      slots, drag := slots[..i] + slots[i + 1..], DragAfterRemove(drag, i, slots[i]);
    }

    /** addView(v, i) for a new view v. */
    method AddView(v: Slot, i: nat)
      requires DragValid(State()) && i <= |slots|
      modifies this
      ensures State() == ChildAdded(old(State()), v, i)
    {
      slots, drag := slots[..i] + [v] + slots[i..], DragAfterInsert(drag, i);
    }

    /** removeView(mDragView): nothing happens when the drag view is not a child. */
    method RemoveDragView()
      requires DragValid(State())
      modifies this
      ensures State() == DragViewRemoved(old(State()))
    {
      if drag.Attached? {
        RemoveViewAt(drag.index);
      }
    }

    /** addView(mDragView, i) for a drag view that is not a child. */
    method AddDragView(i: nat)
      requires DragValid(State()) && drag.Lifted? && i <= |slots|
      modifies this
      ensures State() == ChildAdded(old(State()), old(drag.view), i).(drag := Attached(i))
    {
      var v := drag.view;
      AddView(v, i);
      drag := Attached(i);
    }

    /** Changing the fields of the tag of the icon at i (pinned, clearTasks, addTask). */
    method SetTag(i: nat, d: AppButtonData)
      requires i < |slots|
      modifies this
      ensures State() == old(State()).(slots := old(slots)[i := Icon(d)])
    {
      slots := slots[i := Icon(d)];
    }

    // -------------------------------------------------------------------------------------
    // Scans that change nothing

    /** getNewAppIndex. */
    method GetNewAppIndex(indexHint: nat, isAppPinned: bool) returns (i: nat)
      requires ScanSafe(slots, indexHint, isAppPinned)
      ensures i == NewAppIndex(slots, indexHint, isAppPinned)
    {
      i := indexHint;
      if isAppPinned {
        while i > 0
          invariant ScanSafe(slots, i, true)
          invariant NewAppIndex(slots, i, true) == NewAppIndex(slots, indexHint, true)
          decreases i
        {
          if slots[i - 1].data.pinned {
            break;
          }
          i := i - 1;
        }
      } else {
        var childCount := |slots|;
        while i < childCount
          invariant ScanSafe(slots, i, false)
          invariant NewAppIndex(slots, i, false) == NewAppIndex(slots, indexHint, false)
          decreases childCount - i
        {
          if !slots[i].data.pinned {
            break;
          }
          i := i + 1;
        }
      }
    }

    /** findAppButtonData, answering with the index of the icon rather than its tag. */
    method FindAppButtonData(appInfo: AppInfo) returns (k: Option<nat>)
      ensures k == FindApp(slots, appInfo)
    {
      var size := |slots|;
      var i := 0;
      while i < size
        invariant i <= size
        invariant forall j :: 0 <= j < i ==> !HasApp(slots[j], appInfo)
      {
        if slots[i].Icon? && slots[i].data.appInfo == appInfo {
          return Some(i);
        }
        i := i + 1;
      }
      return None;
    }

    /** getPinnedApps. */
    method GetPinnedApps() returns (apps: seq<AppInfo>)
      ensures apps == PinnedApps(slots)
    {
      apps := [];
      var childCount := |slots|;
      var i := 0;
      while i != childCount
        invariant i <= childCount
        invariant apps == PinnedApps(slots[..i])
      {
        assert slots[..i + 1][..i] == slots[..i];
        if slots[i].Icon? && slots[i].data.pinned {
          apps := apps + [slots[i].data.appInfo];
        }
        i := i + 1;
      }
      assert slots[..i] == slots;
    }

    /** savePinnedApps. */
    method SavePinnedApps()
      modifies this
      ensures State() == old(State()).(savedApps := PinnedApps(old(slots)))
    {
      savedApps := GetPinnedApps();
    }

    // -------------------------------------------------------------------------------------
    // Recent tasks

    /** updateTasks(tasks): its three passes, the first of which ends the method when it reaches
        the placeholder. */
    method UpdateTasks(tasks: seq<Task>, env: Env)
      requires DragValid(State())
      modifies this
      ensures State() == UpdateTasksSpec(old(State()), tasks, env)
    {
      ghost var s0 := State();
      ghost var p := LastPlaceholder(s0.slots);
      var reachedPlaceholder := ClearTasks();
      if reachedPlaceholder {
        assert p >= 0 && State() == s0.(slots := ClearedAbove(s0.slots, p));
        return;
      }
      assert p == -1 && State() == s0.(slots := ClearedAbove(s0.slots, -1));
      AttachTasks(tasks, env);
      ghost var attached := State();
      assert attached == s0.(slots := Attach(ClearedAbove(s0.slots, -1), tasks, env));
      RemoveEmptyApps();
      assert State() == SweepDown(attached, |attached.slots|);
    }

    /** The first pass of updateTasks: right to left, every icon loses its tasks, until the
        placeholder is reached. */
    method ClearTasks() returns (reachedPlaceholder: bool)
      modifies this
      ensures var p := LastPlaceholder(old(slots));
        State() == old(State()).(slots := ClearedAbove(old(slots), p)) && reachedPlaceholder == (p >= 0)
    {
      ghost var s0 := State();
      var i: int := |slots| - 1;
      assert slots == ClearedAbove(s0.slots, i);
      while i >= 0
        invariant -1 <= i < |slots| && |slots| == |s0.slots|
        invariant State() == s0.(slots := ClearedAbove(s0.slots, i))
        invariant forall j :: i < j < |s0.slots| ==> s0.slots[j].Icon?
      {
        if slots[i].Placeholder? {
          assert LastPlaceholder(s0.slots) == i;
          return true;
        }
        SetTag(i, slots[i].data.(tasks := []));
        assert slots == ClearedAbove(s0.slots, i - 1);
        i := i - 1;
      }
      assert LastPlaceholder(s0.slots) == -1;
      return false;
    }

    /** The second pass of updateTasks: each task that resolves to an app is added to the first
        icon of that app, or to a new unpinned icon at the end. */
    method AttachTasks(tasks: seq<Task>, env: Env)
      requires DragValid(State())
      modifies this
      ensures State() == old(State()).(slots := Attach(old(slots), tasks, env))
    {
      ghost var s0 := State();
      var size := |tasks|;
      var k := 0;
      while k != size
        invariant k <= size
        invariant State() == s0.(slots := Attach(s0.slots, tasks[..k], env)) && DragValid(State())
      {
        var task := tasks[k];
        assert tasks[..k + 1][..k] == tasks[..k];
        assert Attach(s0.slots, tasks[..k + 1], env) == AttachTask(slots, task, env);
        AddTask(task, env);
        k := k + 1;
      }
      assert tasks[..size] == tasks;
    }

    /** One step of the second pass: the task joins the first icon of its app, or a new
        unpinned icon at the end; a task that resolves to no app is ignored. */
    method AddTask(task: Task, env: Env)
      requires DragValid(State())
      modifies this
      ensures State() == old(State()).(slots := AttachTask(old(slots), task, env)) && DragValid(State())
    {
      ghost var prev := slots;
      var taskAppInfo := TaskToAppInfo(task, env);
      if taskAppInfo.Some? {
        var found := FindAppButtonData(taskAppInfo.value);
        if found.None? {
          var appButtonData := AppButtonData(taskAppInfo.value, false, []);
          AddView(Icon(appButtonData), |slots|);
          assert slots == prev + [Icon(appButtonData)];
          SetTag(|slots| - 1, appButtonData.(tasks := [task]));
          assert slots == prev + [Icon(appButtonData.(tasks := [task]))];
        } else {
          var d := slots[found.value].data;
          SetTag(found.value, d.(tasks := d.tasks + [task]));
        }
      }
    }

    /** The third pass of updateTasks: right to left, unpinned icons left without tasks are
        removed, until the placeholder is reached. */
    method RemoveEmptyApps()
      requires DragValid(State())
      modifies this
      ensures State() == SweepDown(old(State()), |old(slots)|)
    {
      ghost var s0 := State();
      var i: int := |slots| - 1;
      while i >= 0
        invariant -1 <= i < |slots| && DragValid(State())
        invariant SweepDown(State(), i + 1) == SweepDown(s0, |s0.slots|)
      {
        if slots[i].Placeholder? {
          return;
        }
        if slots[i].data.IsEmpty() {
          RemoveViewAt(i);
        }
        i := i - 1;
      }
    }

    // -------------------------------------------------------------------------------------
    // Drag and drop

    /** AppLongClickListener.onLongClick on the icon at k: it becomes the drag view, and the drag
        carries the payload startAppDrag builds for its app. */
    method OnLongClick(k: nat, env: Env) returns (payload: DragEvent, handled: bool)
      requires k < |slots| && slots[k].Icon?
      modifies this
      ensures State() == old(State()).(drag := Attached(k))
      ensures payload == DragPayload(old(slots[k]).data.appInfo, env) && handled
    {
      drag := Attached(k);
      payload := DragPayload(slots[k].data.appInfo, env);
      handled := true;
    }

    /** onDragStarted. */
    method OnDragStarted(event: DragEvent) returns (accepted: bool)
      requires DragValid(State())
      modifies this
      ensures (State(), accepted) == DragStarted(old(State()), event)
    {
      if !CanAcceptDrag(event) {
        return false;
      }
      if |slots| == 0 {
        CreatePlaceholderDragView(0);
      }
      return true;
    }

    /** createPlaceholderDragView(index): a placeholder added at index becomes the drag view. */
    method CreatePlaceholderDragView(index: nat)
      requires DragValid(State()) && index <= |slots|
      modifies this
      ensures State() == ChildAdded(old(State()), Placeholder, index).(drag := Attached(index))
    {
      AddView(Placeholder, index);
      drag := Attached(index);
    }

    /** onDragEnteredIcon for the icon at targetIndex. */
    method OnDragEnteredIcon(targetIndex: nat)
      requires DragEnterDefined(State(), targetIndex)
      modifies this
      ensures State() == DragEnter(old(State()), targetIndex)
    {
      if drag.NoDrag? {
        var i := GetNewAppIndex(targetIndex, true);
        CreatePlaceholderDragView(i);
        return;
      }
      if drag == Attached(targetIndex) {
        return;
      }
      var dragged := if drag.Attached? then slots[drag.index] else drag.view;
      var isAppPinned := dragged.Placeholder? || dragged.data.pinned;
      var index := targetIndex;
      if drag.Lifted? {
        index := GetNewAppIndex(targetIndex, isAppPinned);
      } else if drag.index < targetIndex {
        if !slots[targetIndex].data.pinned && isAppPinned {
          return;
        }
      } else {
        if slots[targetIndex].data.pinned && !isAppPinned {
          return;
        }
      }
      RemoveDragView();
      AddDragView(index);
    }

    /** removePlaceholderDragViewIfNeeded. */
    method RemovePlaceholderDragViewIfNeeded()
      requires DragValid(State())
      modifies this
      ensures State() == PlaceholderRemoved(old(State()))
    {
      if drag.NoDrag? {
        return;
      }
      RemoveDragView();
    }

    /** endDrag; `recent` is what the activity manager reports as the recent tasks. */
    method EndDrag(env: Env, recent: seq<Task>)
      requires DragValid(State())
      modifies this
      ensures State() == DragSession.EndDrag(old(State()), env, recent)
    {
      if drag.NoDrag? {
        return;
      }
      drag := NoDrag;
      SavePinnedApps();
      UpdateTasks(recent, env);
    }

    /** onDrop. */
    method OnDrop(event: DragEvent, env: Env, recent: seq<Task>) returns (dragResult: bool)
      requires DragValid(State())
      modifies this
      ensures (State(), dragResult) == Drop(old(State()), event, env, recent)
    {
      if drag.NoDrag? {
        return true;
      }
      dragResult := true;
      var appInfo := AppFromDragEvent(event, env);
      if appInfo.None? {
        RemovePlaceholderDragViewIfNeeded();
        dragResult := false;
      } else {
        var icon := Icon(AppButtonData(appInfo.value, true, []));
        if drag.Attached? && slots[drag.index].Placeholder? {
          SetTag(drag.index, icon.data);
        } else if drag.Lifted? && drag.view.Placeholder? {
          drag := Lifted(icon);
        }
      }
      EndDrag(env, recent);
    }

    /** onDragEnded. */
    method OnDragEnded(env: Env, recent: seq<Task>) returns (handled: bool)
      requires DragValid(State())
      modifies this
      ensures (State(), handled) == DragEnded(old(State()), env, recent)
    {
      RemovePlaceholderDragViewIfNeeded();
      EndDrag(env, recent);
      return true;
    }

    /** onDragExited. */
    method OnDragExited() returns (handled: bool)
      requires DragValid(State())
      modifies this
      ensures (State(), handled) == DragExited(old(State()))
    {
      RemovePlaceholderDragViewIfNeeded();
      return true;
    }

    // -------------------------------------------------------------------------------------
    // Pinning and unpinning

    /** unpinIfUnlauncheable(packageName, user). */
    method UnpinIfUnlauncheable(packageName: string, user: UserId, env: Env)
      requires DragValid(State())
      modifies this
      ensures State() == UnpinIfUnlauncheableSpec(old(State()), packageName, user, env)
    {
      ghost var s0 := State();
      ghost var sel := (a: AppInfo) => a.user == user && a.component.packageName == packageName && !env.launchable(a);
      ghost var goal := UnpinDown(s0, |s0.slots|, sel, false);
      var appsWereUnpinned := false;
      var i: int := |slots| - 1;
      while i >= 0
        invariant -1 <= i < |slots| && DragValid(State()) && savedApps == s0.savedApps
        invariant UnpinDown(State(), i + 1, sel, false).shelf == goal.shelf
        invariant (appsWereUnpinned || UnpinDown(State(), i + 1, sel, false).unpinned) == goal.unpinned
      {
        if slots[i].Placeholder? {
          i := i - 1;
          continue;
        }
        var appButtonData := slots[i].data;
        if !appButtonData.pinned || appButtonData.appInfo.user != user ||
           appButtonData.appInfo.component.packageName != packageName || env.launchable(appButtonData.appInfo) {
          i := i - 1;
          continue;
        }
        ghost var before := State();
        SetTag(i, appButtonData.(pinned := false));
        appsWereUnpinned := true;
        if slots[i].data.IsEmpty() {
          RemoveViewAt(i);
        }
        assert State() == UnpinAt(before, i);
        i := i - 1;
      }
      if appsWereUnpinned {
        SavePinnedApps();
      }
    }

    /** onManagedProfileRemoved(removedProfile). */
    method OnManagedProfileRemoved(removedProfile: UserId)
      requires DragValid(State())
      modifies this
      ensures State() == OnManagedProfileRemovedSpec(old(State()), removedProfile)
    {
      ghost var s0 := State();
      ghost var sel := (a: AppInfo) => a.user == removedProfile;
      ghost var goal := UnpinDown(s0, |s0.slots|, sel, true);
      var itemsWereUnpinned := false;
      var i: int := |slots| - 1;
      while i >= 0
        invariant -1 <= i < |slots| && DragValid(State()) && savedApps == s0.savedApps
        invariant UnpinDown(State(), i + 1, sel, true).shelf == goal.shelf
        invariant UnpinDown(State(), i + 1, sel, true).finished == goal.finished
        invariant (itemsWereUnpinned || UnpinDown(State(), i + 1, sel, true).unpinned) == goal.unpinned
      {
        if slots[i].Placeholder? {
          return;
        }
        var appButtonData := slots[i].data;
        if !appButtonData.pinned || appButtonData.appInfo.user != removedProfile {
          i := i - 1;
          continue;
        }
        ghost var before := State();
        SetTag(i, appButtonData.(pinned := false));
        itemsWereUnpinned := true;
        if slots[i].data.IsEmpty() {
          RemoveViewAt(i);
        }
        assert State() == UnpinAt(before, i);
        i := i - 1;
      }
      if itemsWereUnpinned {
        SavePinnedApps();
      }
    }

    /** The "Pin" menu action on the icon m, a child or a view the shelf has taken off. */
    method PinFromMenu(m: MenuView)
      requires DragValid(State()) && MenuViewValid(State(), m)
      requires ScanSafe(MenuRest(State(), m), |MenuRest(State(), m)|, true)
      modifies this
      ensures State() == MenuPin(old(State()), m)
    {
      var isDragView := m.Child? && drag == Attached(m.index);
      var appButtonData := (if m.Child? then slots[m.index].data else m.data).(pinned := true);
      if m.Child? {
        SetTag(m.index, appButtonData);
        RemoveViewAt(m.index);
      }
      var index := GetNewAppIndex(|slots|, true);
      AddView(Icon(appButtonData), index);
      if isDragView {
        drag := Attached(index);
      }
      SavePinnedApps();
    }

    /** The "Unpin" menu action on the icon m, a child or a view the shelf has taken off. */
    method UnpinFromMenu(m: MenuView)
      requires DragValid(State()) && MenuViewValid(State(), m)
      modifies this
      ensures State() == MenuUnpin(old(State()), m)
    {
      var isDragView := m.Child? && drag == Attached(m.index);
      var appButtonData := (if m.Child? then slots[m.index].data else m.data).(pinned := false);
      if m.Child? {
        SetTag(m.index, appButtonData);
        RemoveViewAt(m.index);
      }
      if !appButtonData.IsEmpty() {
        AddView(Icon(appButtonData), |slots|);
        if isDragView {
          drag := Attached(|slots| - 1);
        }
      }
      SavePinnedApps();
    }

    /** recreatePinnedAppButtons. */
    method RecreatePinnedAppButtons()
      requires DragValid(State())
      modifies this
      ensures State() == Recreated(old(State()))
    {
      // removeAllViews: a drag view that was a child is now off the shelf.
      if drag.Attached? {
        drag := Lifted(slots[drag.index]);
      }
      slots := [];
      ghost var lifted := drag;
      var apps := savedApps;
      var appCount := |apps|;
      var i := 0;
      while i < appCount
        invariant i <= appCount && savedApps == apps && drag == lifted
        invariant slots == PinnedIcons(apps[..i])
      {
        AddView(Icon(AppButtonData(apps[i], true, [])), |slots|);
        assert slots == PinnedIcons(apps[..i + 1]);
        i := i + 1;
      }
      assert apps[..i] == apps;
    }

    /** onPinnedAppsChanged, after another shelf has saved `apps` to the shared model. */
    method OnPinnedAppsChanged(apps: seq<AppInfo>, env: Env, recent: seq<Task>)
      requires DragValid(State())
      modifies this
      ensures State() == OnPinnedAppsChangedSpec(old(State()), apps, env, recent)
    {
      savedApps := apps;
      var current := GetPinnedApps();
      if current == savedApps {
        return;
      }
      RecreatePinnedAppButtons();
      UpdateTasks(recent, env);
    }
  }
}
