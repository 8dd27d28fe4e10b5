/** The values the navigation-bar app shelf works with: application identities, recent tasks,
    the per-icon button data, the shelf's slots and the drag-view reference. */
module AppsTypes {

  datatype Option<+T> = None | Some(value: T)

  /** A user or managed profile, identified by its user id (UserHandle compares by id). */
  type UserId = int

  datatype ComponentName = ComponentName(packageName: string, className: string)

  /** Identity of an application on the shelf: its activity component and the user it runs as. */
  datatype AppInfo = AppInfo(component: ComponentName, user: UserId)

  /** A recent task as reported by the activity manager. The activities are optional; the base
      intent's component is taken to be present. */
  datatype Task = Task(
    persistentId: int,
    userId: UserId,
    origActivity: Option<ComponentName>,
    baseActivity: Option<ComponentName>,
    realActivity: Option<ComponentName>,
    baseIntentComponent: ComponentName)

  /** The tag of an app icon: which app, whether the user pinned it, and its tasks (most recent
      first). */
  datatype AppButtonData = AppButtonData(appInfo: AppInfo, pinned: bool, tasks: seq<Task>)
  {
    /** An entry that is neither pinned nor running anything has no reason to stay on the shelf. */
    predicate IsEmpty() {
      !pinned && |tasks| == 0
    }
  }

  /** One child of the shelf: the drag placeholder (a view with a null tag) or an app icon. */
  datatype Slot = Placeholder | Icon(data: AppButtonData)

  /** Whether a slot orders as a pinned app. A placeholder only ever stands for an app dragged in
      from outside, which will be pinned on drop. */
  predicate OrdersAsPinned(v: Slot) {
    v.Placeholder? || v.data.pinned
  }

  /** The view being dragged (mDragView): none, a child at some index, or a view that has been
      taken off the shelf while the drag goes on. */
  datatype Drag = NoDrag | Attached(index: nat) | Lifted(view: Slot)

  /** The collaborators the shelf asks but whose code is not part of this model. */
  datatype Env = Env(
    // sAppsModel.buildAppLaunchIntent(app) != null
    launchable: AppInfo -> bool,
    // getLaunchComponentForPackage(packageName, userId)
    launchComponentForPackage: (string, UserId) -> Option<ComponentName>,
    // UserManager.getUserForSerialNumber(serial), None for null
    userForSerial: int -> Option<UserId>,
    // UserManager.getSerialNumberForUser(user)
    serialForUser: UserId -> int)
}
