/** Resolving a recent task to the app it belongs to, and reading an app out of a drag-and-drop
    payload. */
module AppResolution {
  import opened AppsTypes

  /** The activities a task names, most authoritative first: the alias target it was started
      from, its first activity, the activity that started it, and its base intent's component. */
  function TaskActivities(t: Task): seq<Option<ComponentName>> {
    [t.origActivity, t.baseActivity, t.realActivity, Some(t.baseIntentComponent)]
  }

  /** The activity a task stands for: the first of its named activities that is present. */
  function ActivityForTask(t: Task): (c: ComponentName)
    ensures exists i :: (0 <= i < |TaskActivities(t)| && TaskActivities(t)[i] == Some(c) &&
                         forall j :: 0 <= j < i ==> TaskActivities(t)[j].None?)
  {
    var cs := TaskActivities(t);
    if t.origActivity.Some? then
      assert cs[0] == t.origActivity;
      t.origActivity.value
    else if t.baseActivity.Some? then
      assert cs[1] == t.baseActivity;
      t.baseActivity.value
    else if t.realActivity.Some? then
      assert cs[2] == t.realActivity;
      t.realActivity.value
    else
      assert cs[3] == Some(t.baseIntentComponent);
      t.baseIntentComponent
  }

  /** The app a task is shown under: the task's own activity when it can be launched, otherwise
      the launch component of its package, otherwise none (the task is ignored). */
  function TaskToAppInfo(t: Task, env: Env): (r: Option<AppInfo>)
    ensures r.Some? ==> r.value.user == t.userId
    ensures env.launchable(AppInfo(ActivityForTask(t), t.userId)) ==>
      r == Some(AppInfo(ActivityForTask(t), t.userId))
    ensures r.None? <==>
      !env.launchable(AppInfo(ActivityForTask(t), t.userId)) &&
      env.launchComponentForPackage(ActivityForTask(t).packageName, t.userId).None?
    ensures var fallback := env.launchComponentForPackage(ActivityForTask(t).packageName, t.userId);
      !env.launchable(AppInfo(ActivityForTask(t), t.userId)) && fallback.Some? ==>
        r == Some(AppInfo(fallback.value, t.userId))
  {
    var c := ActivityForTask(t);
    var app := AppInfo(c, t.userId);
    if env.launchable(app) then Some(app)
    else
      match env.launchComponentForPackage(c.packageName, t.userId)
      case None => None
      case Some(fallback) => Some(AppInfo(fallback, t.userId))
  }

  /** ClipDescription.MIMETYPE_TEXT_INTENT */
  const MimeTypeTextIntent: string := "text/vnd.android.intent"

  /** The intent extra that carries the user's serial number. */
  const ExtraProfile: string := "profile"

  /** The parts of an Intent the shelf reads: its component and its long-valued extras. */
  datatype Intent = Intent(component: Option<ComponentName>, longExtras: map<string, int>)

  /** Intent.getLongExtra: the extra's value, or the default when it is absent. */
  function LongExtra(intent: Intent, name: string, default: int): int {
    if name in intent.longExtras then intent.longExtras[name] else default
  }

  datatype ClipItem = ClipItem(intent: Option<Intent>)
  datatype ClipData = ClipData(items: seq<Option<ClipItem>>)
  datatype ClipDescription = ClipDescription(mimeTypes: seq<string>)

  /** A drag event as the shelf sees it; either part may be missing. */
  datatype DragEvent = DragEvent(description: Option<ClipDescription>, clip: Option<ClipData>)

  /** Whether a drag carries an intent and so may be an app shortcut. */
  function CanAcceptDrag(e: DragEvent): (ok: bool)
    ensures ok <==> (e.description.Some? &&
                     exists i :: 0 <= i < |e.description.value.mimeTypes| &&
                                 e.description.value.mimeTypes[i] == MimeTypeTextIntent)
  {
    e.description.Some? && MimeTypeTextIntent in e.description.value.mimeTypes
  }

  /** The payload names `app`: one clip item holding an intent for app's component whose profile
      extra is a serial number (not -1) that the user manager maps to app's user. */
  ghost predicate PayloadNames(e: DragEvent, env: Env, app: AppInfo) {
    e.clip.Some? && |e.clip.value.items| == 1 &&
    e.clip.value.items[0].Some? && e.clip.value.items[0].value.intent.Some? &&
    var intent := e.clip.value.items[0].value.intent.value;
    var serial := LongExtra(intent, ExtraProfile, -1);
    serial != -1 && env.userForSerial(serial) == Some(app.user) &&
    intent.component == Some(app.component)
  }

  /** The app a drop delivers, or none when the payload is malformed, names an unknown user, or
      names an app that cannot be launched. */
  function AppFromDragEvent(e: DragEvent, env: Env): (r: Option<AppInfo>)
    ensures r.Some? ==> PayloadNames(e, env, r.value) && env.launchable(r.value)
    ensures r.None? ==> forall app :: PayloadNames(e, env, app) ==> !env.launchable(app)
  {
    if e.clip.None? then None
    else if |e.clip.value.items| != 1 then None
    else if e.clip.value.items[0].None? then None
    else if e.clip.value.items[0].value.intent.None? then None
    else
      var intent := e.clip.value.items[0].value.intent.value;
      var serial := LongExtra(intent, ExtraProfile, -1);
      if serial == -1 then None
      else if env.userForSerial(serial).None? then None
      else if intent.component.None? then None
      else
        var app := AppInfo(intent.component.value, env.userForSerial(serial).value);
        if !env.launchable(app) then None else Some(app)
  }

  /** The drag payload built for an app icon when it is long-pressed: a clip with one intent for
      the app's component carrying its user's serial number, described as an intent. */
  function DragPayload(app: AppInfo, env: Env): DragEvent {
    var intent := Intent(Some(app.component), map[ExtraProfile := env.serialForUser(app.user)]);
    DragEvent(Some(ClipDescription([MimeTypeTextIntent])),
              Some(ClipData([Some(ClipItem(Some(intent)))])))
  }

  /** Dragging an icon and dropping it back delivers the same app, provided the user manager
      round-trips the user's serial number and the app is still launchable. */
  lemma PayloadRoundTrip(app: AppInfo, env: Env)
    requires env.serialForUser(app.user) != -1
    requires env.userForSerial(env.serialForUser(app.user)) == Some(app.user)
    ensures CanAcceptDrag(DragPayload(app, env))
    ensures AppFromDragEvent(DragPayload(app, env), env) ==
      if env.launchable(app) then Some(app) else None
  {
    assert DragPayload(app, env).description.value.mimeTypes[0] == MimeTypeTextIntent;
  }
}
