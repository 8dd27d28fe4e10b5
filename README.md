# Navigation-bar app shelf

A Dafny model of the app shelf of the Android SystemUI navigation bar (`NavigationBarApps`).
The shelf is a row of app icons. Pinned apps come first; apps that are only running follow.
The model covers:

- where a new icon goes (`getNewAppIndex`);
- the drag-and-drop state machine (start, enter an icon, drop, exit, end);
- merging the recent-task list into the icons (`updateTasks`);
- pinning and unpinning: the context-menu actions, unpinning apps that can no longer be
  launched or whose profile was removed, and rebuilding the shelf from the saved pinned list;
- resolving a task to an app, and reading an app out of a drag payload.

The shelf's state is its child views, the drag view (`mDragView`) and the pinned-app list of the
shared apps model. Each child is a `Slot`: the drag placeholder (a view with a null tag) or an
icon whose tag is an `AppButtonData` (app, pinned flag, task list). The drag view is one of:

- `NoDrag` (null);
- `Attached(i)`, a child at index i, which follows its view as other children are added or
  removed;
- `Lifted(v)`, a view that is not a child.

Removing the attached drag view lifts it. That is how a drag that leaves the shelf and comes back
is represented.

Modules:

- `AppsTypes` (types.dfy): apps, tasks, slots, the drag view, and `Env`, the operating system's
  answers as function fields.
- `AppResolution` (drag_payload.dfy): `getActivityForTask`, `taskToAppInfo`, `canAcceptDrag`,
  `getAppFromDragEvent`, and the payload a long press builds.
- `ShelfState` (shelf_state.dfy): the shelf as a value, the child-list primitives,
  `getNewAppIndex`, `getPinnedApps` and the partition invariant.
- `Reconcile` (reconcile.dfy): `updateTasks` as its three passes (`UpdateTasksSpec`), and an
  independent description of its result (`Reconciled`) proved equal to it.
- `DragSession` (drag_session.dfy): each drag handler as a function of the shelf.
- `Pinning` (pinning.dfy): the unpinning loops (`UnpinDown`) with a reference definition
  (`UnpinAll`), the menu actions, `recreatePinnedAppButtons` and `onPinnedAppsChanged`.
- `NavigationBar` (navigation_bar_apps.dfy): the class `NavigationBarApps`. Its fields are the
  children, the drag view and the saved list. Each handler's loops update them in place, and each
  is proved to end in the state the functional modules describe.

The model follows the code as written, including where it does not keep what its own comments
say or where its behaviour is easy to miss:

- The class comment (`NavigationBarApps.java:69-70`) says the bar holds the pinned apps in its
  left part and the unpinned apps in its right part. The backward unpinning loops
  (`unpinIfUnlauncheable`, `onManagedProfileRemoved`) unpin an icon that still has tasks in
  place, which can leave it left of a pinned icon.
  `Pinning.UnpinInPlaceBreaksPartition` shows a two-icon shelf where this happens. The menu's
  Unpin action moves the icon to the end instead, and does keep the order.
- The loops of `updateTasks` and `onManagedProfileRemoved` are commented "skip the drag
  placeholder" but `return` when they reach it. With a placeholder on the shelf, `updateTasks`
  only empties the task lists right of it (`Reconcile.UpdateTasksDuringDrag`).
  `onManagedProfileRemoved` stops there without saving what it has already unpinned right of
  the placeholder (`Pinning.ManagedProfileRemovedStopsAtPlaceholder`).
- The context menu's item is chosen when the menu opens, but the menu stays open while the shelf
  changes. A click then acts on the icon's view even when the shelf has taken it off or
  changed its pinned flag, and `addView` puts that view back. After `recreatePinnedAppButtons`,
  Pin therefore adds a second icon for an app that is already pinned, and saves the app twice
  (`Pinning.MenuPinAfterRecreateDuplicates`).

The code never reorders the unpinned icons: the surviving icons keep their order, and new apps
follow in the order of their first task (`Reconcile.ReconciledKeepsOrder`).

## Model

| member | source | states |
|---|---|---|
| AppResolution.ActivityForTask | packages/SystemUI/src/com/android/systemui/statusbar/phone/NavigationBarApps.java:1029-1045 | the activity is the first present one of origActivity, baseActivity, realActivity and the base intent's component |
| AppResolution.TaskToAppInfo | packages/SystemUI/src/com/android/systemui/statusbar/phone/NavigationBarApps.java:1076-1095 | a resolved app has the task's user; a launchable task activity is used as is; no app exactly when neither that activity is launchable nor the package has a launch component; otherwise the fallback is the package's launch component under the task's user |
| AppResolution.CanAcceptDrag | packages/SystemUI/src/com/android/systemui/statusbar/phone/NavigationBarApps.java:446-453 | a drag is accepted exactly when it has a clip description listing the intent MIME type |
| AppResolution.AppFromDragEvent | packages/SystemUI/src/com/android/systemui/statusbar/phone/NavigationBarApps.java:611-644 | a delivered app is named by a one-item clip whose intent has a known user serial and the app's component, and is launchable; no app means every app the payload names is not launchable |
| AppResolution.PayloadRoundTrip | packages/SystemUI/src/com/android/systemui/statusbar/phone/NavigationBarApps.java:404-416 | the payload a long press builds is accepted, and dropping it delivers the same app exactly when the app is launchable |
| ShelfState.ChildRemoved | packages/SystemUI/src/com/android/systemui/statusbar/phone/NavigationBarApps.java:258 | removeViewAt shifts the later children left, keeps the earlier ones, and lifts the drag view if it was the removed child |
| ShelfState.ChildAdded | packages/SystemUI/src/com/android/systemui/statusbar/phone/NavigationBarApps.java:488 | addView puts the view at i and shifts the later children right |
| ShelfState.DragViewRemoved | packages/SystemUI/src/com/android/systemui/statusbar/phone/NavigationBarApps.java:572 | removeView(mDragView) removes the drag view if it is a child and changes nothing otherwise |
| ShelfState.NewAppIndex | packages/SystemUI/src/com/android/systemui/statusbar/phone/NavigationBarApps.java:499-520 | pinned: i <= hint, i == 0 or child i-1 is pinned, and every child in [i, hint) is unpinned; unpinned: hint <= i <= count, i == count or child i is unpinned, and every child in [hint, i) is pinned |
| ShelfState.ScanSafeWithoutPlaceholder | packages/SystemUI/src/com/android/systemui/statusbar/phone/NavigationBarApps.java:504-517 | the scan reads no placeholder tag when none lies in the range it can reach |
| ShelfState.PinnedAppsMembers | packages/SystemUI/src/com/android/systemui/statusbar/phone/NavigationBarApps.java:323-334 | the pinned list names exactly the apps of pinned icons |
| ShelfState.PinnedAppsConcat | packages/SystemUI/src/com/android/systemui/statusbar/phone/NavigationBarApps.java:323-334 | the pinned list is read in child order: that of two runs of children is the two lists joined |
| ShelfState.PinnedIcons | packages/SystemUI/src/com/android/systemui/statusbar/phone/NavigationBarApps.java:344-349 | one pinned icon without tasks per saved app, in order, and no placeholder |
| ShelfState.PinnedAppsOfPinnedIcons | packages/SystemUI/src/com/android/systemui/statusbar/phone/NavigationBarApps.java:323-350 | rebuilding icons from a saved list and reading the pinned list back gives that list |
| ShelfState.WithoutAdded | packages/SystemUI/src/com/android/systemui/statusbar/phone/NavigationBarApps.java:488 | adding a child and taking it out gives the children back |
| ShelfState.PartitionedWithout | packages/SystemUI/src/com/android/systemui/statusbar/phone/NavigationBarApps.java:572 | removing a child keeps pinned-ordered children left of unpinned ones |
| ShelfState.PartitionedInsert | packages/SystemUI/src/com/android/systemui/statusbar/phone/NavigationBarApps.java:573 | inserting where the neighbours allow keeps pinned-ordered children left of unpinned ones |
| ShelfState.SamePinnedApps | packages/SystemUI/src/com/android/systemui/statusbar/phone/NavigationBarApps.java:323-334 | children that agree index by index on pinned icons and their apps have the same pinned list |
| Reconcile.LastPlaceholder | packages/SystemUI/src/com/android/systemui/statusbar/phone/NavigationBarApps.java:973-978 | the index where the first pass returns: the last placeholder, or -1 when every child is an icon |
| Reconcile.ClearedAbove | packages/SystemUI/src/com/android/systemui/statusbar/phone/NavigationBarApps.java:973-978 | the children right of lo lose their tasks, the rest are unchanged |
| Reconcile.FindApp | packages/SystemUI/src/com/android/systemui/statusbar/phone/NavigationBarApps.java:958-969 | the index of the first icon of the app, skipping the placeholder, or none when the app has no icon |
| Reconcile.NewAppsSpec | packages/SystemUI/src/com/android/systemui/statusbar/phone/NavigationBarApps.java:981-992 | the new apps are exactly the apps with an incoming task and no icon, each listed once |
| Reconcile.NewAppsInOrder | packages/SystemUI/src/com/android/systemui/statusbar/phone/NavigationBarApps.java:981-992 | new apps are listed in order of their first task: those of a prefix of the tasks come first |
| Reconcile.Fresh | packages/SystemUI/src/com/android/systemui/statusbar/phone/NavigationBarApps.java:987-991 | one unpinned icon per new app, holding the app's incoming tasks |
| Reconcile.SweepMembers | packages/SystemUI/src/com/android/systemui/statusbar/phone/NavigationBarApps.java:995-1002 | the sweep keeps exactly the children that are not empty icons |
| Reconcile.SweepDownClosedForm | packages/SystemUI/src/com/android/systemui/statusbar/phone/NavigationBarApps.java:995-1002 | the third pass over children without placeholder removes exactly the empty icons, in order |
| Reconcile.AttachOnCleared | packages/SystemUI/src/com/android/systemui/statusbar/phone/NavigationBarApps.java:971-993 | the first two passes refill the existing icons and append the new apps |
| Reconcile.UpdateTasksReconciles | packages/SystemUI/src/com/android/systemui/statusbar/phone/NavigationBarApps.java:971-1002 | without a placeholder, updateTasks gives the refilled, swept icons followed by the new apps |
| Reconcile.ReconciledNoEmpty | packages/SystemUI/src/com/android/systemui/statusbar/phone/NavigationBarApps.java:995-1002 | afterwards every icon is pinned or has a task |
| Reconcile.ReconciledNoPlaceholder | packages/SystemUI/src/com/android/systemui/statusbar/phone/NavigationBarApps.java:971-1002 | no placeholder appears |
| Reconcile.ReconciledApps | packages/SystemUI/src/com/android/systemui/statusbar/phone/NavigationBarApps.java:971-1002 | an app has an icon afterwards exactly when it was pinned or has an incoming task |
| Reconcile.ReconciledKeepsPinned | packages/SystemUI/src/com/android/systemui/statusbar/phone/NavigationBarApps.java:971-1002 | the pinned apps and their order are unchanged |
| Reconcile.ReconciledTasks | packages/SystemUI/src/com/android/systemui/statusbar/phone/NavigationBarApps.java:981-992 | the first icon of each app holds exactly its resolvable incoming tasks in incoming order; a later icon of the same app holds none |
| Reconcile.ReconciledKeepsOrder | packages/SystemUI/src/com/android/systemui/statusbar/phone/NavigationBarApps.java:971-1002 | the surviving entries keep their relative order and the new icons follow them |
| Reconcile.ReconcileIdempotent | packages/SystemUI/src/com/android/systemui/statusbar/phone/NavigationBarApps.java:971-1002 | reconciling twice with the same tasks gives the same children as once |
| Reconcile.UpdateTasksIdempotent | packages/SystemUI/src/com/android/systemui/statusbar/phone/NavigationBarApps.java:971-1002 | without a placeholder, a second updateTasks with the same tasks leaves the whole state unchanged |
| Reconcile.ReconciledPartitioned | packages/SystemUI/src/com/android/systemui/statusbar/phone/NavigationBarApps.java:971-1002 | updateTasks keeps pinned icons left of unpinned ones |
| Reconcile.UpdateTasksPartitioned | packages/SystemUI/src/com/android/systemui/statusbar/phone/NavigationBarApps.java:971-1002 | with or without a placeholder, updateTasks keeps pinned-ordered children left of unpinned ones |
| Reconcile.UpdateTasksDuringDrag | packages/SystemUI/src/com/android/systemui/statusbar/phone/NavigationBarApps.java:973-978 | with the drag placeholder on the shelf, updateTasks keeps every child, the drag view and the pinned apps, and only empties task lists right of the placeholder |
| Reconcile.SweepSubsequence | packages/SystemUI/src/com/android/systemui/statusbar/phone/NavigationBarApps.java:995-1002 | the sweep only deletes children |
| DragSession.DragEnterDefinedOnShelf | packages/SystemUI/src/com/android/systemui/statusbar/phone/NavigationBarApps.java:526-574 | when the drag view is the only possible placeholder, entering any icon reads no placeholder tag |
| DragSession.DragEnter | packages/SystemUI/src/com/android/systemui/statusbar/phone/NavigationBarApps.java:526-574 | after entering an icon there is an attached drag view, and the saved list is untouched |
| DragSession.PlaceholderRemoved | packages/SystemUI/src/com/android/systemui/statusbar/phone/NavigationBarApps.java:653-659 | afterwards the drag view is not a child |
| DragSession.EndDrag | packages/SystemUI/src/com/android/systemui/statusbar/phone/NavigationBarApps.java:599-608 | without a drag view nothing changes; otherwise the drag view is cleared and the pinned apps of the shelf are saved |
| DragSession.DragStartedOutcome | packages/SystemUI/src/com/android/systemui/statusbar/phone/NavigationBarApps.java:459-490 | the drag is accepted exactly when it carries an intent; only an accepted drag over an empty shelf changes it, to a single placeholder that is the drag view |
| DragSession.DragEnterInsertsPlaceholder | packages/SystemUI/src/com/android/systemui/statusbar/phone/NavigationBarApps.java:532-536 | with no drag view, exactly one placeholder is inserted at getNewAppIndex(target, pinned) and becomes the drag view |
| DragSession.DragEnterSelf | packages/SystemUI/src/com/android/systemui/statusbar/phone/NavigationBarApps.java:538-541 | entering the drag view itself changes nothing |
| DragSession.DragEnterRefused | packages/SystemUI/src/com/android/systemui/statusbar/phone/NavigationBarApps.java:553-564 | a pinned drag left of an unpinned target, or an unpinned drag right of a pinned target, changes nothing |
| DragSession.DragEnterMoves | packages/SystemUI/src/com/android/systemui/statusbar/phone/NavigationBarApps.java:553-573 | otherwise the drag view moves to the target index and the other children keep their order |
| DragSession.DragEnterReenters | packages/SystemUI/src/com/android/systemui/statusbar/phone/NavigationBarApps.java:549-552 | a drag view that left the shelf comes back at getNewAppIndex for its pinned state, the other children unchanged |
| DragSession.DragEnterKeepsPartition | packages/SystemUI/src/com/android/systemui/statusbar/phone/NavigationBarApps.java:526-574 | entering an icon keeps pinned-ordered children left of unpinned ones |
| DragSession.DragEnterKeepsPlaceholderAtDrag | packages/SystemUI/src/com/android/systemui/statusbar/phone/NavigationBarApps.java:526-574 | entering an icon keeps the drag view the only possible placeholder |
| DragSession.DragExitedLifts | packages/SystemUI/src/com/android/systemui/statusbar/phone/NavigationBarApps.java:671-677 | leaving the shelf takes the drag view off it, whatever view it is |
| DragSession.EndDragClears | packages/SystemUI/src/com/android/systemui/statusbar/phone/NavigationBarApps.java:599-608 | endDrag always leaves no drag view; on a shelf without placeholder the children are reconciled and the saved list is their pinned list |
| DragSession.DropWithoutDrag | packages/SystemUI/src/com/android/systemui/statusbar/phone/NavigationBarApps.java:579-582 | a drop with no drag view succeeds and changes nothing |
| DragSession.DropOutcome | packages/SystemUI/src/com/android/systemui/statusbar/phone/NavigationBarApps.java:584-595 | a drop fails exactly when the payload names no launchable app, and a failed drop removes the drag view before ending the drag |
| DragSession.DropConvertsPlaceholder | packages/SystemUI/src/com/android/systemui/statusbar/phone/NavigationBarApps.java:590-593 | a valid drop on the placeholder turns it in place into a pinned icon of the dropped app, which joins the pinned list at that position |
| DragSession.DropLeavesCleanShelf | packages/SystemUI/src/com/android/systemui/statusbar/phone/NavigationBarApps.java:576-608 | after a drop the shelf has no placeholder and no drag view, and has saved exactly its pinned apps |
| DragSession.DragEndedLeavesCleanShelf | packages/SystemUI/src/com/android/systemui/statusbar/phone/NavigationBarApps.java:662-668 | after the end of a drag the shelf has no placeholder and no drag view, and has saved exactly its pinned apps |
| DragSession.DragOffShelfUnpins | packages/SystemUI/src/com/android/systemui/statusbar/phone/NavigationBarApps.java:653-677 | dragging the only icon of an app off the shelf and ending the drag removes the app from the saved list |
| DragSession.PlaceholderRemovedKeepsPartition | packages/SystemUI/src/com/android/systemui/statusbar/phone/NavigationBarApps.java:653-659 | removing the drag view keeps pinned-ordered children left of unpinned ones |
| DragSession.DropKeepsPartition | packages/SystemUI/src/com/android/systemui/statusbar/phone/NavigationBarApps.java:576-608 | a drop, valid or not, keeps pinned-ordered children left of unpinned ones |
| DragSession.DragEndedKeepsPartition | packages/SystemUI/src/com/android/systemui/statusbar/phone/NavigationBarApps.java:662-668 | the end of a drag keeps pinned-ordered children left of unpinned ones |
| Pinning.UnpinAtSlots | packages/SystemUI/src/com/android/systemui/statusbar/phone/NavigationBarApps.java:254-258 | unpinning one icon replaces it by what the reference definition says and leaves the children left of it alone |
| Pinning.UnpinDownClosedForm | packages/SystemUI/src/com/android/systemui/statusbar/phone/NavigationBarApps.java:236-259 | without a placeholder, the backward loop unpins every selected pinned icon, removing those without tasks, and leaves the rest |
| Pinning.UnpinDownReports | packages/SystemUI/src/com/android/systemui/statusbar/phone/NavigationBarApps.java:236-259 | the loop reports an unpinning exactly when there was a selected pinned icon |
| Pinning.Spared | packages/SystemUI/src/com/android/systemui/statusbar/phone/NavigationBarApps.java:236-259 | the apps kept are those of the list the selector spares |
| Pinning.UnpinAllPinned | packages/SystemUI/src/com/android/systemui/statusbar/phone/NavigationBarApps.java:236-259 | the pinned list after unpinning is the old one without the selected apps, in order |
| Pinning.UnpinAllApps | packages/SystemUI/src/com/android/systemui/statusbar/phone/NavigationBarApps.java:254-258 | an app keeps an icon exactly when one of its icons is not a selected pinned icon without tasks |
| Pinning.UnpinIfUnlauncheableEffect | packages/SystemUI/src/com/android/systemui/statusbar/phone/NavigationBarApps.java:234-264 | with or without a placeholder (which the loop skips), the children become UnpinAll of them: only pinned icons of that package and user that cannot be launched are unpinned, removed when they have no tasks; they leave the pinned list, and the list is saved exactly when one was found |
| Pinning.ManagedProfileRemovedEffect | packages/SystemUI/src/com/android/systemui/statusbar/phone/NavigationBarApps.java:933-952 | every pinned icon of the removed user is unpinned, no pinned app of that user is left, and the list is saved exactly when one was |
| Pinning.ManagedProfileRemovedStopsAtPlaceholder | packages/SystemUI/src/com/android/systemui/statusbar/phone/NavigationBarApps.java:933-952 | with a placeholder on the shelf, the children right of the last placeholder become UnpinAll of them (the profile's pinned icons unpinned, the empty ones removed), the placeholder and everything left of it are unchanged, and nothing is saved |
| Pinning.UnpinInPlaceBreaksPartition | packages/SystemUI/src/com/android/systemui/statusbar/phone/NavigationBarApps.java:933-952 | a partitioned shelf whose first, running app belongs to the removed profile is no longer partitioned afterwards |
| Pinning.PinnedAppsWithoutUnpinned | packages/SystemUI/src/com/android/systemui/statusbar/phone/NavigationBarApps.java:323-334 | removing an icon that is not pinned leaves the pinned list as it was |
| Pinning.PinnedAppsInsertLast | packages/SystemUI/src/com/android/systemui/statusbar/phone/NavigationBarApps.java:907-910 | a pinned icon inserted right of every pinned icon goes last in the pinned list |
| Pinning.MenuPinEffect | packages/SystemUI/src/com/android/systemui/statusbar/phone/NavigationBarApps.java:904-914 | Pin, on an icon that is still a child or one the shelf has taken off meanwhile, puts the icon at getNewAppIndex(count, pinned), just right of the last pinned child, keeps the others in order, and saves the shelf's pinned list, which is the other children's with the app appended (the old pinned list plus the app unless the icon was already a pinned child) |
| Pinning.MenuPinAfterRecreateDuplicates | packages/SystemUI/src/com/android/systemui/statusbar/phone/NavigationBarApps.java:340-350 | a Pin click on an icon that recreatePinnedAppButtons has replaced re-adds the old view, so the app is saved twice |
| Pinning.MenuPinKeepsPartition | packages/SystemUI/src/com/android/systemui/statusbar/phone/NavigationBarApps.java:904-914 | Pin keeps pinned-ordered children left of unpinned ones, whether the icon is a child or not |
| Pinning.MenuUnpinEffect | packages/SystemUI/src/com/android/systemui/statusbar/phone/NavigationBarApps.java:887-902 | Unpin, on an icon that is still a child (pinned or no longer pinned) or one the shelf has taken off meanwhile, takes it off, puts it back at the end exactly when it has tasks, and saves the other children's pinned list |
| Pinning.MenuUnpinRemovesApp | packages/SystemUI/src/com/android/systemui/statusbar/phone/NavigationBarApps.java:887-902 | unpinning the only pinned icon of an app takes the app out of the saved list |
| Pinning.MenuUnpinKeepsPartition | packages/SystemUI/src/com/android/systemui/statusbar/phone/NavigationBarApps.java:887-902 | Unpin keeps pinned-ordered children left of unpinned ones, whether the icon is a child or not |
| Pinning.Recreated | packages/SystemUI/src/com/android/systemui/statusbar/phone/NavigationBarApps.java:340-350 | the children are one pinned icon per saved app, and the drag view is no longer a child |
| Pinning.RecreatedPinned | packages/SystemUI/src/com/android/systemui/statusbar/phone/NavigationBarApps.java:340-350 | rebuilding gives back exactly the saved list as the pinned apps |
| Pinning.PinnedAppsChangedSyncs | packages/SystemUI/src/com/android/systemui/statusbar/phone/NavigationBarApps.java:1116-1120 | afterwards the shelf's pinned apps are the model's list, and the shelf is left alone when they already were |
| NavigationBar.NavigationBarApps.RemoveViewAt | packages/SystemUI/src/com/android/systemui/statusbar/phone/NavigationBarApps.java:258 | the new state is the functional removal |
| NavigationBar.NavigationBarApps.GetNewAppIndex | packages/SystemUI/src/com/android/systemui/statusbar/phone/NavigationBarApps.java:499-520 | the scanning loops return NewAppIndex and change nothing |
| NavigationBar.NavigationBarApps.FindAppButtonData | packages/SystemUI/src/com/android/systemui/statusbar/phone/NavigationBarApps.java:958-969 | the loop returns the first icon of the app, or none |
| NavigationBar.NavigationBarApps.GetPinnedApps | packages/SystemUI/src/com/android/systemui/statusbar/phone/NavigationBarApps.java:323-334 | the loop returns the pinned list, in child order |
| NavigationBar.NavigationBarApps.SavePinnedApps | packages/SystemUI/src/com/android/systemui/statusbar/phone/NavigationBarApps.java:355-357 | the saved list becomes the pinned list; nothing else changes |
| NavigationBar.NavigationBarApps.UpdateTasks | packages/SystemUI/src/com/android/systemui/statusbar/phone/NavigationBarApps.java:971-1013 | the three passes end in UpdateTasksSpec of the old state |
| NavigationBar.NavigationBarApps.ClearTasks | packages/SystemUI/src/com/android/systemui/statusbar/phone/NavigationBarApps.java:973-978 | the first pass clears the tasks right of the last placeholder and reports whether it met one |
| NavigationBar.NavigationBarApps.AttachTasks | packages/SystemUI/src/com/android/systemui/statusbar/phone/NavigationBarApps.java:981-992 | the second pass ends in Attach of the old children |
| NavigationBar.NavigationBarApps.AddTask | packages/SystemUI/src/com/android/systemui/statusbar/phone/NavigationBarApps.java:983-991 | one task joins the first icon of its app or a new unpinned icon at the end, as AttachTask says |
| NavigationBar.NavigationBarApps.RemoveEmptyApps | packages/SystemUI/src/com/android/systemui/statusbar/phone/NavigationBarApps.java:995-1002 | the third pass ends in SweepDown of the old state |
| NavigationBar.NavigationBarApps.OnLongClick | packages/SystemUI/src/com/android/systemui/statusbar/phone/NavigationBarApps.java:375-383 | the icon becomes the drag view and the drag carries the payload for its app |
| NavigationBar.NavigationBarApps.OnDragStarted | packages/SystemUI/src/com/android/systemui/statusbar/phone/NavigationBarApps.java:459-481 | the new state and answer are DragStarted's |
| NavigationBar.NavigationBarApps.CreatePlaceholderDragView | packages/SystemUI/src/com/android/systemui/statusbar/phone/NavigationBarApps.java:486-490 | a placeholder is added at the index and becomes the drag view |
| NavigationBar.NavigationBarApps.OnDragEnteredIcon | packages/SystemUI/src/com/android/systemui/statusbar/phone/NavigationBarApps.java:526-574 | the new state is DragEnter's |
| NavigationBar.NavigationBarApps.RemovePlaceholderDragViewIfNeeded | packages/SystemUI/src/com/android/systemui/statusbar/phone/NavigationBarApps.java:653-659 | the new state is PlaceholderRemoved's |
| NavigationBar.NavigationBarApps.EndDrag | packages/SystemUI/src/com/android/systemui/statusbar/phone/NavigationBarApps.java:599-608 | the new state is EndDrag's |
| NavigationBar.NavigationBarApps.OnDrop | packages/SystemUI/src/com/android/systemui/statusbar/phone/NavigationBarApps.java:576-596 | the new state and answer are Drop's |
| NavigationBar.NavigationBarApps.OnDragEnded | packages/SystemUI/src/com/android/systemui/statusbar/phone/NavigationBarApps.java:662-668 | the new state and answer are DragEnded's |
| NavigationBar.NavigationBarApps.OnDragExited | packages/SystemUI/src/com/android/systemui/statusbar/phone/NavigationBarApps.java:671-677 | the new state and answer are DragExited's |
| NavigationBar.NavigationBarApps.UnpinIfUnlauncheable | packages/SystemUI/src/com/android/systemui/statusbar/phone/NavigationBarApps.java:234-264 | the backward loop ends in UnpinIfUnlauncheableSpec of the old state |
| NavigationBar.NavigationBarApps.OnManagedProfileRemoved | packages/SystemUI/src/com/android/systemui/statusbar/phone/NavigationBarApps.java:933-952 | the backward loop ends in OnManagedProfileRemovedSpec of the old state |
| NavigationBar.NavigationBarApps.PinFromMenu | packages/SystemUI/src/com/android/systemui/statusbar/phone/NavigationBarApps.java:904-914 | on a child icon or a detached one, the new state is MenuPin's |
| NavigationBar.NavigationBarApps.UnpinFromMenu | packages/SystemUI/src/com/android/systemui/statusbar/phone/NavigationBarApps.java:887-902 | on a child icon, pinned or not, or a detached one, the new state is MenuUnpin's |
| NavigationBar.NavigationBarApps.RecreatePinnedAppButtons | packages/SystemUI/src/com/android/systemui/statusbar/phone/NavigationBarApps.java:340-350 | the loop ends in Recreated of the old state |
| NavigationBar.NavigationBarApps.OnPinnedAppsChanged | packages/SystemUI/src/com/android/systemui/statusbar/phone/NavigationBarApps.java:1116-1120 | the new state is OnPinnedAppsChangedSpec's |

## Left out

- Drawing and the popup menu: `showPopupMenu`, `shutdownPopupMenu`, `populateLaunchMenu`, `maybeShowLaunchMenu`, the hover listener and its timer. They only present the state.
- Icon loading, labels and content descriptions: `GetActivityIconTask`, `getAppLabel`, the inflation in `createAppButton`. They render and do not change the shelf.
- Layout transitions, visibility changes of the drag view, and the constructor's and `onAttachedToWindow`'s set-up. They are animation and view configuration.
- Launching: the click listener, `activateTask`, and the shadow and `startDrag` call of `startAppDrag`. These are calls into the operating system. The payload `startAppDrag` builds is modelled by `DragPayload`.
- Listener registration, the broadcast receiver, the package monitor, the task-stack listener and `post(...)`. Only the synchronous bodies these eventually run are modelled, on the one UI thread.
- `onUserSwitched`: it sets the model's current user, which lives in the apps model (not part of this model), then calls `recreatePinnedAppButtons`, which is modelled.
- `sAppsModel.buildAppLaunchIntent`, `getLaunchComponentForPackage`, `UserManager.getUserForSerialNumber` and `getSerialNumberForUser` are answers of the operating system. They are the function fields of `Env`.
- `getRecentTasksForUser` (inside `updateRecentApps`) is the parameter `recent` of the handlers that end with `updateRecentApps`.
- The apps model's stored list is the `savedApps` field. Its persistence and its notification of other shelves are not modelled. `OnPinnedAppsChanged` receives the list another shelf saved.
- The `DEBUG` blocks only log or reload icons.
- `AppButtonData` is not part of this model: `isEmpty` is read as "not pinned and no tasks", `addTask` as appending, `clearTasks` as emptying.
- AppResolution.ActivityForTask: a null component in the base intent is not modelled, because the source would then fail in `taskToAppInfo`.
- AppResolution.CanAcceptDrag: `hasMimeType` is modelled as an exact match, without MIME wildcards.
- ShelfState.NewAppIndex: requires that the scan reads no placeholder, because the source would dereference its null tag.
- DragSession.DragEnter: requires the same of the tags `onDragEnteredIcon` reads (`DragEnterDefined`), for the same reason.
- Pinning.MenuPin: requires the same of the scan `getNewAppIndex(getChildCount(), true)` makes.
- Pinning.MenuPin / Pinning.MenuUnpin: a menu icon that is off the shelf is put back as an ordinary child. If that view were at the same time the detached drag view, the model would not make it the drag view again, because it does not track the identity of views off the shelf.
- The view identity of the drag view is modelled as its index while it is a child, and as the view value while it is not. Two views with equal tags are indistinguishable once lifted.
