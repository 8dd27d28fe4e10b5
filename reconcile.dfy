/** Merging the recent-task list into the shelf (updateTasks). The three passes are modelled as
    the source runs them (clear every task list from the right, attach each incoming task to the
    first icon of its app or append a new unpinned icon, drop empty icons from the right), and a
    closed form says what they compute when no placeholder is on the shelf. */
module Reconcile {
  import opened AppsTypes
  import opened ShelfState
  import opened AppResolution

  predicate HasApp(v: Slot, a: AppInfo) {
    v.Icon? && v.data.appInfo == a
  }

  predicate IsEmptyIcon(v: Slot) {
    v.Icon? && v.data.IsEmpty()
  }

  // ---------------------------------------------------------------------------------------
  // The passes as the source runs them

  /** Index of the right-most placeholder, or -1 when there is none. */
  function LastPlaceholder(s: seq<Slot>): (p: int)
    ensures -1 <= p < |s|
    ensures p >= 0 ==> s[p].Placeholder?
    ensures forall j :: p < j < |s| ==> s[j].Icon?
  {
    if s == [] then -1
    else if s[|s| - 1].Placeholder? then |s| - 1
    else LastPlaceholder(s[..|s| - 1])
  }

  function WithoutTasks(v: Slot): Slot {
    if v.Icon? then Icon(v.data.(tasks := [])) else v
  }

  /** The children after the first pass has cleared the task list of every icon right of lo. */
  function ClearedAbove(s: seq<Slot>, lo: int): (r: seq<Slot>)
    ensures |r| == |s|
    ensures forall j :: 0 <= j < |s| ==> r[j] == if j > lo then WithoutTasks(s[j]) else s[j]
  {
    seq(|s|, j requires 0 <= j < |s| => if j > lo then WithoutTasks(s[j]) else s[j])
  }

  /** The index of the first icon of app a, skipping the placeholder (findAppButtonData). */
  function FindApp(s: seq<Slot>, a: AppInfo): (k: Option<nat>)
    ensures k.Some? ==> k.value < |s| && HasApp(s[k.value], a)
    ensures k.Some? ==> forall j :: 0 <= j < k.value ==> !HasApp(s[j], a)
    ensures k.None? ==> forall j :: 0 <= j < |s| ==> !HasApp(s[j], a)
  {
    if s == [] then None
    else if HasApp(s[0], a) then Some(0)
    else
      match FindApp(s[1..], a)
      case None => None
      case Some(k) => Some(k + 1)
  }

  /** The second pass for one task: add it to the first icon of its app, or append a new
      unpinned icon for the app; a task that resolves to no app is skipped. */
  function AttachTask(s: seq<Slot>, t: Task, env: Env): (r: seq<Slot>)
    ensures |s| <= |r| <= |s| + 1
    ensures NoPlaceholder(s) ==> NoPlaceholder(r)
  {
    match TaskToAppInfo(t, env)
    case None => s
    case Some(a) =>
      match FindApp(s, a)
      case Some(k) => s[k := Icon(s[k].data.(tasks := s[k].data.tasks + [t]))]
      case None => s + [Icon(AppButtonData(a, false, [t]))]
  }

  /** The second pass over the first n tasks. */
  function Attach(s: seq<Slot>, ts: seq<Task>, env: Env): (r: seq<Slot>)
    ensures |s| <= |r|
    ensures NoPlaceholder(s) ==> NoPlaceholder(r)
    decreases |ts|
  {
    if ts == [] then s else AttachTask(Attach(s, ts[..|ts| - 1], env), ts[|ts| - 1], env)
  }

  /** The third pass over the children with index below n, right to left: an empty icon is
      removed; reaching the placeholder ends updateTasks. */
  function SweepDown(st: Shelf, n: nat): (r: Shelf)
    requires n <= |st.slots| && DragValid(st)
    ensures DragValid(r) && r.savedApps == st.savedApps
    ensures !st.drag.Attached? ==> r.drag == st.drag
    decreases n
  {
    if n == 0 then st
    else if st.slots[n - 1].Placeholder? then st
    else if st.slots[n - 1].data.IsEmpty() then SweepDown(ChildRemoved(st, n - 1), n - 1)
    else SweepDown(st, n - 1)
  }

  /** updateTasks as written. With a placeholder on the shelf the first pass ends the method at
      the placeholder, so only the icons right of it lose their tasks and nothing else happens. */
  function UpdateTasksSpec(st: Shelf, ts: seq<Task>, env: Env): (r: Shelf)
    requires DragValid(st)
    ensures DragValid(r) && r.savedApps == st.savedApps
    ensures !st.drag.Attached? ==> r.drag == st.drag
  {
    var p := LastPlaceholder(st.slots);
    if p >= 0 then st.(slots := ClearedAbove(st.slots, p))
    else
      var attached := st.(slots := Attach(ClearedAbove(st.slots, -1), ts, env));
      SweepDown(attached, |attached.slots|)
  }

  // ---------------------------------------------------------------------------------------
  // What the passes compute

  /** The incoming tasks that resolve to app a, in incoming order. */
  function TasksFor(ts: seq<Task>, a: AppInfo, env: Env): seq<Task>
    decreases |ts|
  {
    if ts == [] then []
    else TasksFor(ts[..|ts| - 1], a, env) +
         if TaskToAppInfo(ts[|ts| - 1], env) == Some(a) then [ts[|ts| - 1]] else []
  }

  function SlotApps(v: Slot): set<AppInfo> {
    if v.Icon? then {v.data.appInfo} else {}
  }

  /** The apps that have an icon. */
  function AppsOf(s: seq<Slot>): (r: set<AppInfo>)
    ensures forall a :: a in r <==> exists j :: 0 <= j < |s| && HasApp(s[j], a)
  {
    if s == [] then {}
    else
      assert forall j :: 1 <= j < |s| ==> s[1..][j - 1] == s[j];
      SlotApps(s[0]) + AppsOf(s[1..])
  }

  /** The apps the incoming tasks resolve to that have no icon yet, in order of first occurrence. */
  function NewApps(known: set<AppInfo>, ts: seq<Task>, env: Env): seq<AppInfo>
    decreases |ts|
  {
    if ts == [] then []
    else
      var front := NewApps(known, ts[..|ts| - 1], env);
      match TaskToAppInfo(ts[|ts| - 1], env)
      case Some(a) => if a !in known && a !in front then front + [a] else front
      case None => front
  }

  /** The new apps are exactly the apps with incoming tasks that have no icon, each listed once. */
  lemma {:induction false} NewAppsSpec(known: set<AppInfo>, ts: seq<Task>, env: Env)
    ensures forall x :: x in NewApps(known, ts, env) ==> x !in known && TasksFor(ts, x, env) != []
    ensures forall b :: TasksFor(ts, b, env) != [] && b !in known ==> b in NewApps(known, ts, env)
    ensures forall i, j :: 0 <= i < j < |NewApps(known, ts, env)| ==>
                           NewApps(known, ts, env)[i] != NewApps(known, ts, env)[j]
    decreases |ts|
  {
    if ts != [] {
      var n := |ts| - 1;
      NewAppsSpec(known, ts[..n], env);
      forall b ensures TasksFor(ts, b, env) ==
          TasksFor(ts[..n], b, env) + (if TaskToAppInfo(ts[n], env) == Some(b) then [ts[n]] else []) {
      }
    }
  }

  /** An icon after the first two passes: its tasks are the incoming tasks of its app when it is
      the first icon of that app (none of the apps in `seen` is), and none otherwise. */
  function Refilled(v: Slot, ts: seq<Task>, env: Env, seen: set<AppInfo>): Slot {
    if v.Placeholder? then v
    else Icon(v.data.(tasks := if v.data.appInfo in seen then [] else TasksFor(ts, v.data.appInfo, env)))
  }

  /** The existing children after the first two passes, left to right. */
  function Annotate(s: seq<Slot>, ts: seq<Task>, env: Env, seen: set<AppInfo>): seq<Slot> {
    if s == [] then []
    else [Refilled(s[0], ts, env, seen)] + Annotate(s[1..], ts, env, seen + SlotApps(s[0]))
  }

  /** The icons the second pass appends, one unpinned icon per new app. */
  function Fresh(n: seq<AppInfo>, ts: seq<Task>, env: Env): (r: seq<Slot>)
    ensures |r| == |n|
    ensures forall i :: 0 <= i < |n| ==> r[i] == Icon(AppButtonData(n[i], false, TasksFor(ts, n[i], env)))
  {
    seq(|n|, i requires 0 <= i < |n| => Icon(AppButtonData(n[i], false, TasksFor(ts, n[i], env))))
  }

  /** The children without their empty icons, in order. */
  function Sweep(s: seq<Slot>): (r: seq<Slot>)
    ensures |r| <= |s|
  {
    if s == [] then []
    else (if IsEmptyIcon(s[0]) then [] else [s[0]]) + Sweep(s[1..])
  }

  /** The sweep keeps exactly the children that are not empty icons. */
  lemma {:induction false} SweepMembers(s: seq<Slot>)
    ensures forall v :: v in Sweep(s) <==> v in s && !IsEmptyIcon(v)
  {
    if s != [] {
      SweepMembers(s[1..]);
      assert s == [s[0]] + s[1..];
    }
  }

  /** What updateTasks makes of a shelf without placeholder: the existing icons refilled and
      swept, followed by one unpinned icon per new app. */
  function Reconciled(s: seq<Slot>, ts: seq<Task>, env: Env): seq<Slot> {
    Sweep(Annotate(s, ts, env, {})) + Fresh(NewApps(AppsOf(s), ts, env), ts, env)
  }

  // ---------------------------------------------------------------------------------------
  // Lemmas about the pieces

  lemma {:induction false} AnnotateAt(s: seq<Slot>, ts: seq<Task>, env: Env, seen: set<AppInfo>)
    ensures |Annotate(s, ts, env, seen)| == |s|
    ensures forall i :: 0 <= i < |s| ==>
      Annotate(s, ts, env, seen)[i] == Refilled(s[i], ts, env, seen + AppsOf(s[..i]))
  {
    if s != [] {
      AnnotateAt(s[1..], ts, env, seen + SlotApps(s[0]));
      forall i | 1 <= i < |s|
        ensures Annotate(s, ts, env, seen)[i] == Refilled(s[i], ts, env, seen + AppsOf(s[..i]))
      {
        assert s[..i][1..] == s[1..][..i - 1];
        assert AppsOf(s[..i]) == SlotApps(s[0]) + AppsOf(s[1..][..i - 1]);
      }
    }
  }

  lemma {:induction false} AppsOfConcat(x: seq<Slot>, y: seq<Slot>)
    ensures AppsOf(x + y) == AppsOf(x) + AppsOf(y)
  {
    if x != [] {
      assert (x + y)[0] == x[0] && (x + y)[1..] == x[1..] + y;
      AppsOfConcat(x[1..], y);
    } else {
      assert x + y == y;
    }
  }

  lemma {:induction false} SweepConcat(x: seq<Slot>, y: seq<Slot>)
    ensures Sweep(x + y) == Sweep(x) + Sweep(y)
  {
    if x != [] {
      assert (x + y)[0] == x[0] && (x + y)[1..] == x[1..] + y;
      SweepConcat(x[1..], y);
    } else {
      assert x + y == y;
    }
  }

  lemma {:induction false} SweepKeepsNonEmpty(x: seq<Slot>)
    requires forall j :: 0 <= j < |x| ==> !IsEmptyIcon(x[j])
    ensures Sweep(x) == x
  {
    if x != [] {
      SweepKeepsNonEmpty(x[1..]);
    }
  }

  lemma {:induction false} AnnotateConcat(x: seq<Slot>, y: seq<Slot>, ts: seq<Task>, env: Env, seen: set<AppInfo>)
    ensures Annotate(x + y, ts, env, seen) ==
            Annotate(x, ts, env, seen) + Annotate(y, ts, env, seen + AppsOf(x))
  {
    if x != [] {
      assert (x + y)[0] == x[0] && (x + y)[1..] == x[1..] + y;
      AnnotateConcat(x[1..], y, ts, env, seen + SlotApps(x[0]));
      assert seen + SlotApps(x[0]) + AppsOf(x[1..]) == seen + AppsOf(x);
    } else {
      assert x + y == y && seen + AppsOf(x) == seen;
    }
  }

  /** The first icon of an app that has one. */
  lemma FirstIcon(s: seq<Slot>, a: AppInfo) returns (k: nat)
    requires a in AppsOf(s)
    ensures k < |s| && HasApp(s[k], a) && forall j :: 0 <= j < k ==> !HasApp(s[j], a)
  {
    k := FindApp(s, a).value;
  }

  lemma FindAppFirst(s: seq<Slot>, a: AppInfo, k: nat)
    requires k < |s| && HasApp(s[k], a)
    requires forall j :: 0 <= j < k ==> !HasApp(s[j], a)
    ensures FindApp(s, a) == Some(k)
  {
  }

  /** A first pass over a shelf without placeholder clears every task list. */
  lemma ClearedAboveNoPlaceholder(s: seq<Slot>)
    requires NoPlaceholder(s)
    ensures LastPlaceholder(s) == -1
    ensures NoPlaceholder(ClearedAbove(s, -1))
    ensures forall j :: 0 <= j < |s| ==> ClearedAbove(s, -1)[j].data.tasks == []
    ensures AppsOf(ClearedAbove(s, -1)) == AppsOf(s)
  {
    var c := ClearedAbove(s, -1);
    forall a ensures a in AppsOf(c) <==> a in AppsOf(s) {
      if a in AppsOf(s) {
        var j :| 0 <= j < |s| && HasApp(s[j], a);
        assert HasApp(c[j], a);
      }
    }
  }

  lemma {:induction false} AnnotateIgnoresTasks(s: seq<Slot>, ts: seq<Task>, env: Env, seen: set<AppInfo>)
    ensures Annotate(ClearedAbove(s, -1), ts, env, seen) == Annotate(s, ts, env, seen)
  {
    if s != [] {
      assert ClearedAbove(s, -1)[1..] == ClearedAbove(s[1..], -1);
      AnnotateIgnoresTasks(s[1..], ts, env, seen + SlotApps(s[0]));
    }
  }

  /** Every child is an icon with an empty task list, as after the first pass. */
  ghost predicate Bare(c: seq<Slot>) {
    forall j :: 0 <= j < |c| ==> c[j].Icon? && c[j].data.tasks == []
  }

  /** The closed form of the first two passes. */
  function Closed(c: seq<Slot>, ts: seq<Task>, env: Env): seq<Slot> {
    Annotate(c, ts, env, {}) + Fresh(NewApps(AppsOf(c), ts, env), ts, env)
  }

  lemma ClosedLength(c: seq<Slot>, ts: seq<Task>, env: Env)
    ensures |Closed(c, ts, env)| == |c| + |NewApps(AppsOf(c), ts, env)|
  {
    AnnotateAt(c, ts, env, {});
  }

  /** An existing icon after the first two passes. */
  lemma ClosedOld(c: seq<Slot>, ts: seq<Task>, env: Env, i: nat)
    requires i < |c|
    ensures i < |Closed(c, ts, env)|
    ensures Closed(c, ts, env)[i] == Refilled(c[i], ts, env, AppsOf(c[..i]))
  {
    AnnotateAt(c, ts, env, {});
    assert {} + AppsOf(c[..i]) == AppsOf(c[..i]);
  }

  /** An icon the second pass appended. */
  lemma ClosedNew(c: seq<Slot>, ts: seq<Task>, env: Env, k: nat)
    requires k < |NewApps(AppsOf(c), ts, env)|
    ensures |c| + k < |Closed(c, ts, env)|
    ensures Closed(c, ts, env)[|c| + k] ==
      Icon(AppButtonData(NewApps(AppsOf(c), ts, env)[k], false, TasksFor(ts, NewApps(AppsOf(c), ts, env)[k], env)))
  {
    AnnotateAt(c, ts, env, {});
  }

  /** One more task joins the tasks of the app it resolves to. */
  lemma TasksForSnoc(ts: seq<Task>, t: Task, env: Env, b: AppInfo)
    ensures TasksFor(ts + [t], b, env) ==
            TasksFor(ts, b, env) + (if TaskToAppInfo(t, env) == Some(b) then [t] else [])
  {
    assert (ts + [t])[..|ts|] == ts;
  }

  lemma NewAppsSnoc(known: set<AppInfo>, ts: seq<Task>, t: Task, env: Env)
    ensures TaskToAppInfo(t, env).None? ==> NewApps(known, ts + [t], env) == NewApps(known, ts, env)
    ensures TaskToAppInfo(t, env).Some? ==>
      var a := TaskToAppInfo(t, env).value;
      NewApps(known, ts + [t], env) ==
        if a !in known && a !in NewApps(known, ts, env) then NewApps(known, ts, env) + [a]
        else NewApps(known, ts, env)
  {
    assert (ts + [t])[..|ts|] == ts;
  }

  /** A task that resolves to no app changes nothing. */
  lemma ClosedUnresolvedAt(c: seq<Slot>, ts: seq<Task>, t: Task, env: Env, i: nat)
    requires TaskToAppInfo(t, env).None? && i < |Closed(c, ts, env)|
    ensures |Closed(c, ts, env)| == |Closed(c, ts + [t], env)|
    ensures Closed(c, ts, env)[i] == Closed(c, ts + [t], env)[i]
  {
    var N := NewApps(AppsOf(c), ts, env);
    NewAppsSnoc(AppsOf(c), ts, t, env);
    assert NewApps(AppsOf(c), ts + [t], env) == N;
    ClosedLength(c, ts, env);
    ClosedLength(c, ts + [t], env);
    if i < |c| {
      ClosedOld(c, ts, env, i);
      ClosedOld(c, ts + [t], env, i);
      if c[i].Icon? {
        TasksForSnoc(ts, t, env, c[i].data.appInfo);
      }
    } else {
      var k := i - |c|;
      ClosedNew(c, ts, env, k);
      ClosedNew(c, ts + [t], env, k);
      TasksForSnoc(ts, t, env, N[k]);
    }
  }

  lemma AttachStepUnresolved(c: seq<Slot>, ts: seq<Task>, t: Task, env: Env)
    requires TaskToAppInfo(t, env).None?
    ensures AttachTask(Closed(c, ts, env), t, env) == Closed(c, ts + [t], env)
  {
    var X := Closed(c, ts, env);
    var E := Closed(c, ts + [t], env);
    ClosedLength(c, ts, env);
    ClosedLength(c, ts + [t], env);
    NewAppsSnoc(AppsOf(c), ts, t, env);
    forall i | 0 <= i < |X| ensures X[i] == E[i] {
      ClosedUnresolvedAt(c, ts, t, env, i);
    }
    assert X == E;
  }

  /** An existing icon that is not the first icon of the task's app is left alone by the task. */
  lemma ClosedOldOther(c: seq<Slot>, ts: seq<Task>, t: Task, env: Env, i: nat)
    requires i < |c|
    requires !(c[i].Icon? && TaskToAppInfo(t, env) == Some(c[i].data.appInfo) && c[i].data.appInfo !in AppsOf(c[..i]))
    ensures i < |Closed(c, ts, env)| && i < |Closed(c, ts + [t], env)|
    ensures Closed(c, ts + [t], env)[i] == Closed(c, ts, env)[i]
  {
    assert Closed(c, ts, env)[i] == Refilled(c[i], ts, env, AppsOf(c[..i])) by { ClosedOld(c, ts, env, i); }
    assert Closed(c, ts + [t], env)[i] == Refilled(c[i], ts + [t], env, AppsOf(c[..i])) by {
      ClosedOld(c, ts + [t], env, i);
    }
    if c[i].Icon? {
      TasksForSnoc(ts, t, env, c[i].data.appInfo);
    }
  }

  /** An appended icon of another app than the task's is left alone by the task. */
  lemma ClosedNewOther(c: seq<Slot>, ts: seq<Task>, t: Task, env: Env, i: nat)
    requires |c| <= i < |c| + |NewApps(AppsOf(c), ts, env)|
    requires TaskToAppInfo(t, env) != Some(NewApps(AppsOf(c), ts, env)[i - |c|])
    ensures i < |Closed(c, ts, env)| && i < |Closed(c, ts + [t], env)|
    ensures Closed(c, ts + [t], env)[i] == Closed(c, ts, env)[i]
  {
    var N := NewApps(AppsOf(c), ts, env);
    var k := i - |c|;
    NewAppsSnoc(AppsOf(c), ts, t, env);
    var N' := NewApps(AppsOf(c), ts + [t], env);
    assert k < |N'| && N'[k] == N[k];
    ClosedNew(c, ts, env, k);
    ClosedNew(c, ts + [t], env, k);
    TasksForSnoc(ts, t, env, N[k]);
  }

  /** A task of an app that has an icon joins the first icon of that app. */
  lemma ClosedKnownAt(c: seq<Slot>, ts: seq<Task>, t: Task, env: Env, a: AppInfo, k0: nat, i: nat)
    requires Bare(c) && TaskToAppInfo(t, env) == Some(a) && a in AppsOf(c)
    requires k0 < |c| && HasApp(c[k0], a) && forall j :: 0 <= j < k0 ==> !HasApp(c[j], a)
    requires i < |Closed(c, ts, env)|
    ensures |Closed(c, ts, env)| == |Closed(c, ts + [t], env)|
    ensures i != k0 ==> Closed(c, ts + [t], env)[i] == Closed(c, ts, env)[i]
    ensures i == k0 ==> Closed(c, ts, env)[i] == Icon(c[k0].data.(tasks := TasksFor(ts, a, env)))
    ensures i == k0 ==> Closed(c, ts + [t], env)[i] == Icon(c[k0].data.(tasks := TasksFor(ts, a, env) + [t]))
  {
    var N := NewApps(AppsOf(c), ts, env);
    assert NewApps(AppsOf(c), ts + [t], env) == N by { NewAppsSnoc(AppsOf(c), ts, t, env); }
    assert |Closed(c, ts, env)| == |c| + |N| by { ClosedLength(c, ts, env); }
    assert |Closed(c, ts + [t], env)| == |c| + |N| by { ClosedLength(c, ts + [t], env); }
    if i < |c| {
      ClosedKnownOldAt(c, ts, t, env, a, k0, i);
    } else {
      ClosedKnownNewAt(c, ts, t, env, a, i);
    }
  }

  /** The existing icons: only the first icon of the task's app changes. */
  lemma ClosedKnownOldAt(c: seq<Slot>, ts: seq<Task>, t: Task, env: Env, a: AppInfo, k0: nat, i: nat)
    requires Bare(c) && TaskToAppInfo(t, env) == Some(a)
    requires k0 < |c| && HasApp(c[k0], a) && forall j :: 0 <= j < k0 ==> !HasApp(c[j], a)
    requires i < |c|
    ensures i < |Closed(c, ts, env)| && i < |Closed(c, ts + [t], env)|
    ensures i != k0 ==> Closed(c, ts + [t], env)[i] == Closed(c, ts, env)[i]
    ensures i == k0 ==> Closed(c, ts, env)[i] == Icon(c[k0].data.(tasks := TasksFor(ts, a, env)))
    ensures i == k0 ==> Closed(c, ts + [t], env)[i] == Icon(c[k0].data.(tasks := TasksFor(ts, a, env) + [t]))
  {
    assert Closed(c, ts, env)[i] == Refilled(c[i], ts, env, AppsOf(c[..i])) by { ClosedOld(c, ts, env, i); }
    assert Closed(c, ts + [t], env)[i] == Refilled(c[i], ts + [t], env, AppsOf(c[..i])) by {
      ClosedOld(c, ts + [t], env, i);
    }
    TasksForSnoc(ts, t, env, c[i].data.appInfo);
    if i == k0 {
      assert a !in AppsOf(c[..k0]);
    } else if HasApp(c[i], a) {
      assert i > k0;
      assert c[..i][k0] == c[k0];
      assert a in AppsOf(c[..i]);
    }
  }

  /** The appended icons: none belongs to the task's app, which already had an icon. */
  lemma ClosedKnownNewAt(c: seq<Slot>, ts: seq<Task>, t: Task, env: Env, a: AppInfo, i: nat)
    requires TaskToAppInfo(t, env) == Some(a) && a in AppsOf(c)
    requires |c| <= i < |c| + |NewApps(AppsOf(c), ts, env)|
    ensures i < |Closed(c, ts, env)| && i < |Closed(c, ts + [t], env)|
    ensures Closed(c, ts + [t], env)[i] == Closed(c, ts, env)[i]
  {
    assert NewApps(AppsOf(c), ts, env)[i - |c|] != a by { NewAppsSpec(AppsOf(c), ts, env); }
    ClosedNewOther(c, ts, t, env, i);
  }

  lemma AttachStepKnown(c: seq<Slot>, ts: seq<Task>, t: Task, env: Env, a: AppInfo)
    requires Bare(c) && TaskToAppInfo(t, env) == Some(a) && a in AppsOf(c)
    ensures AttachTask(Closed(c, ts, env), t, env) == Closed(c, ts + [t], env)
  {
    var X := Closed(c, ts, env);
    var E := Closed(c, ts + [t], env);
    var k0 := FirstIcon(c, a);
    ClosedLength(c, ts, env);
    ClosedKnownAt(c, ts, t, env, a, k0, k0);
    var v := Icon(X[k0].data.(tasks := X[k0].data.tasks + [t]));
    assert AttachTask(X, t, env) == X[k0 := v] by {
      forall j | 0 <= j < k0 ensures !HasApp(X[j], a) {
        ClosedOld(c, ts, env, j);
      }
      FindAppFirst(X, a, k0);
    }
    forall i | 0 <= i < |X| ensures X[k0 := v][i] == E[i] {
      ClosedKnownAt(c, ts, t, env, a, k0, i);
    }
    assert X[k0 := v] == E;
  }

  lemma ClosedFreshAt(c: seq<Slot>, ts: seq<Task>, t: Task, env: Env, a: AppInfo, k0: nat, i: nat)
    requires TaskToAppInfo(t, env) == Some(a) && a !in AppsOf(c)
    requires k0 < |NewApps(AppsOf(c), ts, env)| && NewApps(AppsOf(c), ts, env)[k0] == a
    requires i < |Closed(c, ts, env)|
    ensures |Closed(c, ts, env)| == |Closed(c, ts + [t], env)|
    ensures i != |c| + k0 ==> Closed(c, ts + [t], env)[i] == Closed(c, ts, env)[i]
    ensures i == |c| + k0 ==> Closed(c, ts, env)[i] == Icon(AppButtonData(a, false, TasksFor(ts, a, env)))
    ensures i == |c| + k0 ==> Closed(c, ts + [t], env)[i] == Icon(AppButtonData(a, false, TasksFor(ts, a, env) + [t]))
  {
    var N := NewApps(AppsOf(c), ts, env);
    assert NewApps(AppsOf(c), ts + [t], env) == N by { NewAppsSnoc(AppsOf(c), ts, t, env); }
    assert |Closed(c, ts, env)| == |c| + |N| by { ClosedLength(c, ts, env); }
    assert |Closed(c, ts + [t], env)| == |c| + |N| by { ClosedLength(c, ts + [t], env); }
    if i < |c| {
      assert !(c[i].Icon? && c[i].data.appInfo == a);
      ClosedOldOther(c, ts, t, env, i);
    } else if i != |c| + k0 {
      assert N[i - |c|] != a by { NewAppsSpec(AppsOf(c), ts, env); }
      ClosedNewOther(c, ts, t, env, i);
    } else {
      assert Closed(c, ts, env)[i] == Icon(AppButtonData(a, false, TasksFor(ts, a, env))) by {
        ClosedNew(c, ts, env, k0);
      }
      assert TasksFor(ts + [t], a, env) == TasksFor(ts, a, env) + [t] by { TasksForSnoc(ts, t, env, a); }
      assert Closed(c, ts + [t], env)[i] == Icon(AppButtonData(a, false, TasksFor(ts + [t], a, env))) by {
        ClosedNew(c, ts + [t], env, k0);
      }
    }
  }

  /** The first icon of a new app is the one the second pass appended for it. */
  lemma FreshFound(c: seq<Slot>, ts: seq<Task>, env: Env, a: AppInfo, k0: nat)
    requires a !in AppsOf(c)
    requires k0 < |NewApps(AppsOf(c), ts, env)| && NewApps(AppsOf(c), ts, env)[k0] == a
    ensures FindApp(Closed(c, ts, env), a) == Some(|c| + k0)
  {
    var X := Closed(c, ts, env);
    var N := NewApps(AppsOf(c), ts, env);
    ClosedLength(c, ts, env);
    assert HasApp(X[|c| + k0], a) by { ClosedNew(c, ts, env, k0); }
    forall j | 0 <= j < |c| + k0 ensures !HasApp(X[j], a) {
      if j < |c| {
        ClosedOld(c, ts, env, j);
      } else {
        ClosedNew(c, ts, env, j - |c|);
        NewAppsSpec(AppsOf(c), ts, env);
      }
    }
    FindAppFirst(X, a, |c| + k0);
  }

  lemma AttachStepFresh(c: seq<Slot>, ts: seq<Task>, t: Task, env: Env, a: AppInfo)
    requires TaskToAppInfo(t, env) == Some(a) && a !in AppsOf(c)
    requires a in NewApps(AppsOf(c), ts, env)
    ensures AttachTask(Closed(c, ts, env), t, env) == Closed(c, ts + [t], env)
  {
    var X := Closed(c, ts, env);
    var E := Closed(c, ts + [t], env);
    var N := NewApps(AppsOf(c), ts, env);
    var k0 :| 0 <= k0 < |N| && N[k0] == a;
    ClosedLength(c, ts, env);
    ClosedFreshAt(c, ts, t, env, a, k0, |c| + k0);
    var v := Icon(X[|c| + k0].data.(tasks := X[|c| + k0].data.tasks + [t]));
    assert AttachTask(X, t, env) == X[|c| + k0 := v] by {
      FreshFound(c, ts, env, a, k0);
    }
    forall i | 0 <= i < |X| ensures X[|c| + k0 := v][i] == E[i] {
      ClosedFreshAt(c, ts, t, env, a, k0, i);
    }
    assert X[|c| + k0 := v] == E;
  }

  lemma ClosedNewAppAt(c: seq<Slot>, ts: seq<Task>, t: Task, env: Env, a: AppInfo, i: nat)
    requires TaskToAppInfo(t, env) == Some(a) && a !in AppsOf(c)
    requires a !in NewApps(AppsOf(c), ts, env)
    requires i < |Closed(c, ts + [t], env)|
    ensures |Closed(c, ts + [t], env)| == |Closed(c, ts, env)| + 1
    ensures Closed(c, ts + [t], env)[i] ==
      if i == |Closed(c, ts, env)| then Icon(AppButtonData(a, false, [t])) else Closed(c, ts, env)[i]
  {
    var N := NewApps(AppsOf(c), ts, env);
    assert NewApps(AppsOf(c), ts + [t], env) == N + [a] by {
      NewAppsSnoc(AppsOf(c), ts, t, env);
    }
    assert |Closed(c, ts, env)| == |c| + |N| by { ClosedLength(c, ts, env); }
    assert |Closed(c, ts + [t], env)| == |c| + |N| + 1 by { ClosedLength(c, ts + [t], env); }
    if i < |c| {
      assert !(c[i].Icon? && c[i].data.appInfo == a);
      ClosedOldOther(c, ts, t, env, i);
    } else if i < |c| + |N| {
      assert N[i - |c|] != a;
      ClosedNewOther(c, ts, t, env, i);
    } else {
      assert TasksFor(ts, a, env) == [] by { NewAppsSpec(AppsOf(c), ts, env); }
      assert Closed(c, ts + [t], env)[i] == Icon(AppButtonData(a, false, TasksFor(ts + [t], a, env))) by {
        ClosedNew(c, ts + [t], env, |N|);
      }
      TasksForSnoc(ts, t, env, a);
    }
  }

  lemma AttachStepNew(c: seq<Slot>, ts: seq<Task>, t: Task, env: Env, a: AppInfo)
    requires TaskToAppInfo(t, env) == Some(a) && a !in AppsOf(c)
    requires a !in NewApps(AppsOf(c), ts, env)
    ensures AttachTask(Closed(c, ts, env), t, env) == Closed(c, ts + [t], env)
  {
    var X := Closed(c, ts, env);
    var E := Closed(c, ts + [t], env);
    var N := NewApps(AppsOf(c), ts, env);
    ClosedLength(c, ts, env);
    forall j | 0 <= j < |X| ensures !HasApp(X[j], a) {
      if j < |c| {
        ClosedOld(c, ts, env, j);
      } else {
        ClosedNew(c, ts, env, j - |c|);
      }
    }
    assert FindApp(X, a) == None;
    var R := AttachTask(X, t, env);
    assert R == X + [Icon(AppButtonData(a, false, [t]))];
    ClosedNewAppAt(c, ts, t, env, a, 0);
    forall i | 0 <= i < |E| ensures R[i] == E[i] {
      ClosedNewAppAt(c, ts, t, env, a, i);
    }
    assert R == E;
  }

  /** What the second pass computes from bare icons: the existing icons refilled with the tasks
      of their app (the first icon of each app only), then one new unpinned icon per new app. */
  lemma {:induction false} AttachClosedForm(c: seq<Slot>, ts: seq<Task>, env: Env)
    requires Bare(c)
    ensures Attach(c, ts, env) == Closed(c, ts, env)
    decreases |ts|
  {
    if ts == [] {
      assert NewApps(AppsOf(c), ts, env) == [];
      ClosedLength(c, ts, env);
      forall i | 0 <= i < |c| ensures Closed(c, ts, env)[i] == c[i] {
        ClosedOld(c, ts, env, i);
      }
      assert Closed(c, ts, env) == c;
    } else {
      var n := |ts| - 1;
      var ts' := ts[..n];
      var t := ts[n];
      assert ts == ts' + [t];
      AttachClosedForm(c, ts', env);
      match TaskToAppInfo(t, env)
      case None => AttachStepUnresolved(c, ts', t, env);
      case Some(a) =>
        if a in AppsOf(c) {
          AttachStepKnown(c, ts', t, env, a);
        } else if a in NewApps(AppsOf(c), ts', env) {
          AttachStepFresh(c, ts', t, env, a);
        } else {
          AttachStepNew(c, ts', t, env, a);
        }
    }
  }

  /** The third pass over children without placeholder removes their empty icons. */
  lemma SweepDownStep(st: Shelf, n: nat)
    requires DragValid(st) && 0 < n <= |st.slots| && st.slots[n - 1].Icon?
    ensures SweepDown(st, n) ==
      if st.slots[n - 1].data.IsEmpty() then SweepDown(ChildRemoved(st, n - 1), n - 1)
      else SweepDown(st, n - 1)
  {
  }

  lemma {:induction false} SweepDownClosedForm(st: Shelf, n: nat)
    requires DragValid(st) && n <= |st.slots| && NoPlaceholderIn(st.slots, 0, n)
    ensures SweepDown(st, n).slots == Sweep(st.slots[..n]) + st.slots[n..]
    decreases n
  {
    var s := st.slots;
    if n == 0 {
      assert s[..0] == [] && s[0..] == s;
    } else {
      var v := s[n - 1];
      assert Sweep(s[..n]) == Sweep(s[..n - 1]) + if IsEmptyIcon(v) then [] else [v] by {
        assert s[..n] == s[..n - 1] + [v];
        SweepConcat(s[..n - 1], [v]);
      }
      SweepDownStep(st, n);
      if v.data.IsEmpty() {
        var st' := ChildRemoved(st, n - 1);
        assert st'.slots[..n - 1] == s[..n - 1] && st'.slots[n - 1..] == s[n..];
        SweepDownClosedForm(st', n - 1);
      } else {
        SweepDownClosedForm(st, n - 1);
        assert s[n - 1..] == [v] + s[n..];
      }
    }
  }

  /** The third pass over children that are all non-empty icons changes nothing. */
  lemma {:induction false} SweepDownKeeps(st: Shelf, n: nat)
    requires DragValid(st) && n <= |st.slots|
    requires forall j :: 0 <= j < n ==> st.slots[j].Icon? && !st.slots[j].data.IsEmpty()
    ensures SweepDown(st, n) == st
    decreases n
  {
    if n > 0 {
      SweepDownKeeps(st, n - 1);
    }
  }

  lemma AppsOfSweep(x: seq<Slot>)
    ensures AppsOf(Sweep(x)) <= AppsOf(x)
  {
    forall a | a in AppsOf(Sweep(x)) ensures a in AppsOf(x) {
      var j :| 0 <= j < |Sweep(x)| && HasApp(Sweep(x)[j], a);
      assert Sweep(x)[j] in x by { SweepMembers(x); }
    }
  }

  lemma AppsOfAnnotate(x: seq<Slot>, ts: seq<Task>, env: Env, seen: set<AppInfo>)
    ensures AppsOf(Annotate(x, ts, env, seen)) == AppsOf(x)
  {
    AnnotateAt(x, ts, env, seen);
    var A := Annotate(x, ts, env, seen);
    forall a ensures a in AppsOf(A) <==> a in AppsOf(x) {
      if a in AppsOf(x) {
        var j :| 0 <= j < |x| && HasApp(x[j], a);
        assert HasApp(A[j], a);
      }
      if a in AppsOf(A) {
        var j :| 0 <= j < |A| && HasApp(A[j], a);
        assert HasApp(x[j], a);
      }
    }
  }

  lemma AppsOfFresh(n: seq<AppInfo>, ts: seq<Task>, env: Env)
    ensures forall a :: a in AppsOf(Fresh(n, ts, env)) <==> a in n
  {
    var F := Fresh(n, ts, env);
    forall a ensures a in AppsOf(F) <==> a in n {
      if a in n {
        var i :| 0 <= i < |n| && n[i] == a;
        assert HasApp(F[i], a);
      }
    }
  }

  /** The first two passes over a shelf without placeholder. */
  lemma AttachOnCleared(s: seq<Slot>, ts: seq<Task>, env: Env)
    requires NoPlaceholder(s)
    ensures LastPlaceholder(s) == -1
    ensures Attach(ClearedAbove(s, -1), ts, env) ==
            Annotate(s, ts, env, {}) + Fresh(NewApps(AppsOf(s), ts, env), ts, env)
  {
    var c := ClearedAbove(s, -1);
    ClearedAboveNoPlaceholder(s);
    assert Bare(c);
    AttachClosedForm(c, ts, env);
    AnnotateIgnoresTasks(s, ts, env, {});
  }

  /** updateTasks on a shelf without placeholder: the existing icons are refilled with the
      incoming tasks and the empty ones removed, then the new apps are appended. */
  lemma UpdateTasksReconciles(st: Shelf, ts: seq<Task>, env: Env)
    requires DragValid(st) && NoPlaceholder(st.slots)
    ensures UpdateTasksSpec(st, ts, env).slots == Reconciled(st.slots, ts, env)
  {
    var s := st.slots;
    AttachOnCleared(s, ts, env);
    var A := Annotate(s, ts, env, {});
    var N := NewApps(AppsOf(s), ts, env);
    var F := Fresh(N, ts, env);
    var X := Attach(ClearedAbove(s, -1), ts, env);
    var attached := st.(slots := X);
    SweepDownClosedForm(attached, |X|);
    assert X[..|X|] == X && X[|X|..] == [];
    SweepConcat(A, F);
    NewAppsSpec(AppsOf(s), ts, env);
    SweepKeepsNonEmpty(F);
    assert Sweep(X) + [] == Sweep(A) + F;
  }

  /** After updateTasks no icon is empty: every icon left is pinned or has a task. */
  lemma ReconciledNoEmpty(s: seq<Slot>, ts: seq<Task>, env: Env)
    ensures forall i :: 0 <= i < |Reconciled(s, ts, env)| ==> !IsEmptyIcon(Reconciled(s, ts, env)[i])
  {
    var S := Sweep(Annotate(s, ts, env, {}));
    var N := NewApps(AppsOf(s), ts, env);
    NewAppsSpec(AppsOf(s), ts, env);
    var R := Reconciled(s, ts, env);
    forall i | 0 <= i < |R| ensures !IsEmptyIcon(R[i]) {
      if i < |S| {
        assert R[i] == S[i] && S[i] in S;
        SweepMembers(Annotate(s, ts, env, {}));
      } else {
        assert R[i] == Fresh(N, ts, env)[i - |S|];
        assert N[i - |S|] in N;
      }
    }
  }

  /** Without placeholder before, none after. */
  lemma ReconciledNoPlaceholder(s: seq<Slot>, ts: seq<Task>, env: Env)
    requires NoPlaceholder(s)
    ensures NoPlaceholder(Reconciled(s, ts, env))
  {
    var A := Annotate(s, ts, env, {});
    AnnotateAt(s, ts, env, {});
    var S := Sweep(A);
    var R := Reconciled(s, ts, env);
    forall i | 0 <= i < |R| ensures R[i].Icon? {
      if i < |S| {
        assert S[i] in A by { SweepMembers(A); }
      }
    }
  }

  /** The apps after updateTasks: those of the surviving icons and the new ones. */
  lemma ReconciledAppsSplit(s: seq<Slot>, ts: seq<Task>, env: Env)
    ensures forall a :: a in AppsOf(Reconciled(s, ts, env)) <==>
      a in AppsOf(Sweep(Annotate(s, ts, env, {}))) || a in NewApps(AppsOf(s), ts, env)
  {
    var N := NewApps(AppsOf(s), ts, env);
    AppsOfConcat(Sweep(Annotate(s, ts, env, {})), Fresh(N, ts, env));
    AppsOfFresh(N, ts, env);
  }

  /** An icon that is not empty after the first two passes survives the sweep. */
  lemma SurvivesSweep(s: seq<Slot>, ts: seq<Task>, env: Env, i: nat, a: AppInfo)
    requires i < |s| && HasApp(s[i], a)
    requires !IsEmptyIcon(Refilled(s[i], ts, env, AppsOf(s[..i])))
    ensures a in AppsOf(Sweep(Annotate(s, ts, env, {})))
  {
    var A := Annotate(s, ts, env, {});
    assert A[i] == Refilled(s[i], ts, env, AppsOf(s[..i])) by { AnnotateAt(s, ts, env, {}); }
    assert A[i] in Sweep(A) by { SweepMembers(A); }
  }

  /** An app that is pinned, or that has an incoming task, keeps or gets an icon. */
  lemma ReconciledShowsApp(s: seq<Slot>, ts: seq<Task>, env: Env, a: AppInfo)
    requires a in PinnedApps(s) || TasksFor(ts, a, env) != []
    ensures a in AppsOf(Reconciled(s, ts, env))
  {
    ReconciledAppsSplit(s, ts, env);
    if a in PinnedApps(s) {
      PinnedAppsMembers(s);
      var i :| 0 <= i < |s| && s[i].Icon? && s[i].data.pinned && s[i].data.appInfo == a;
      SurvivesSweep(s, ts, env, i, a);
    } else if a in AppsOf(s) {
      var k := FirstIcon(s, a);
      assert a !in AppsOf(s[..k]);
      SurvivesSweep(s, ts, env, k, a);
    } else {
      NewAppsSpec(AppsOf(s), ts, env);
    }
  }

  /** An icon that survives the sweep is pinned or holds the incoming tasks of its app. */
  lemma SweptIconKept(s: seq<Slot>, ts: seq<Task>, env: Env, a: AppInfo)
    requires a in AppsOf(Sweep(Annotate(s, ts, env, {})))
    ensures a in PinnedApps(s) || TasksFor(ts, a, env) != []
  {
    var A := Annotate(s, ts, env, {});
    var S := Sweep(A);
    var j :| 0 <= j < |S| && HasApp(S[j], a);
    assert S[j] in A && !IsEmptyIcon(S[j]) by { SweepMembers(A); }
    var i :| 0 <= i < |A| && A[i] == S[j];
    assert A[i] == Refilled(s[i], ts, env, AppsOf(s[..i])) by { AnnotateAt(s, ts, env, {}); }
    assert HasApp(s[i], a);
    if s[i].data.pinned {
      PinnedAppsMembers(s);
    }
  }

  /** An app that is neither pinned nor has an incoming task loses its icons. */
  lemma ReconciledDropsApp(s: seq<Slot>, ts: seq<Task>, env: Env, a: AppInfo)
    requires a in AppsOf(Reconciled(s, ts, env))
    ensures a in PinnedApps(s) || TasksFor(ts, a, env) != []
  {
    ReconciledAppsSplit(s, ts, env);
    if a in AppsOf(Sweep(Annotate(s, ts, env, {}))) {
      SweptIconKept(s, ts, env, a);
    } else {
      NewAppsSpec(AppsOf(s), ts, env);
    }
  }

  /** The apps on the shelf after updateTasks are exactly the pinned apps and the apps with an
      incoming task. */
  lemma ReconciledApps(s: seq<Slot>, ts: seq<Task>, env: Env, a: AppInfo)
    ensures a in AppsOf(Reconciled(s, ts, env)) <==> a in PinnedApps(s) || TasksFor(ts, a, env) != []
  {
    if a in AppsOf(Reconciled(s, ts, env)) {
      ReconciledDropsApp(s, ts, env, a);
    }
    if a in PinnedApps(s) || TasksFor(ts, a, env) != [] {
      ReconciledShowsApp(s, ts, env, a);
    }
  }

  lemma {:induction false} AnnotateKeepsPinned(x: seq<Slot>, ts: seq<Task>, env: Env, seen: set<AppInfo>)
    ensures PinnedApps(Annotate(x, ts, env, seen)) == PinnedApps(x)
  {
    if x != [] {
      AnnotateKeepsPinned(x[1..], ts, env, seen + SlotApps(x[0]));
      assert x == [x[0]] + x[1..];
      PinnedAppsConcat([x[0]], x[1..]);
      PinnedAppsConcat([Refilled(x[0], ts, env, seen)], Annotate(x[1..], ts, env, seen + SlotApps(x[0])));
    }
  }

  lemma {:induction false} SweepKeepsPinned(x: seq<Slot>)
    ensures PinnedApps(Sweep(x)) == PinnedApps(x)
  {
    if x != [] {
      SweepKeepsPinned(x[1..]);
      assert x == [x[0]] + x[1..];
      PinnedAppsConcat([x[0]], x[1..]);
      PinnedAppsConcat(if IsEmptyIcon(x[0]) then [] else [x[0]], Sweep(x[1..]));
    }
  }

  /** updateTasks leaves the pinned apps and their order as they were. */
  lemma ReconciledKeepsPinned(s: seq<Slot>, ts: seq<Task>, env: Env)
    ensures PinnedApps(Reconciled(s, ts, env)) == PinnedApps(s)
  {
    var A := Annotate(s, ts, env, {});
    var F := Fresh(NewApps(AppsOf(s), ts, env), ts, env);
    AnnotateKeepsPinned(s, ts, env, {});
    SweepKeepsPinned(A);
    PinnedAppsConcat(Sweep(A), F);
    NoPinnedApps(F);
  }

  lemma EmptyWithoutMembers(n: seq<AppInfo>)
    ensures (forall x :: x !in n) ==> n == []
  {
    if n != [] {
      assert n[0] in n;
    }
  }

  /** Annotating again with the same tasks changes nothing on icons that survived the sweep, as
      long as every app seen before but not now has no incoming task. */
  lemma {:induction false} RefillSwept(x: seq<Slot>, ts: seq<Task>, env: Env, seen1: set<AppInfo>, seen2: set<AppInfo>)
    requires seen2 <= seen1
    requires forall a :: a in seen1 && a !in seen2 ==> TasksFor(ts, a, env) == []
    ensures Annotate(Sweep(Annotate(x, ts, env, seen1)), ts, env, seen2) == Sweep(Annotate(x, ts, env, seen1))
  {
    if x != [] {
      var v := Refilled(x[0], ts, env, seen1);
      var s0 := SlotApps(x[0]);
      var rest := Annotate(x[1..], ts, env, seen1 + s0);
      var A := Annotate(x, ts, env, seen1);
      assert A == [v] + rest;
      assert A[0] == v && A[1..] == rest;
      if IsEmptyIcon(v) {
        assert Sweep(A) == Sweep(rest);
        RefillSwept(x[1..], ts, env, seen1 + s0, seen2);
      } else {
        assert Sweep(A) == [v] + Sweep(rest);
        RefillSwept(x[1..], ts, env, seen1 + s0, seen2 + s0);
        var B := [v] + Sweep(rest);
        assert B[0] == v && B[1..] == Sweep(rest);
        assert SlotApps(v) == s0;
        assert Refilled(v, ts, env, seen2) == v;
      }
    }
  }

  /** Annotating the appended icons changes nothing: each is the first icon of its app. */
  lemma {:induction false} AnnotateFresh(n: seq<AppInfo>, ts: seq<Task>, env: Env, seen: set<AppInfo>)
    requires forall i, j :: 0 <= i < j < |n| ==> n[i] != n[j]
    requires forall a :: a in n ==> a !in seen
    ensures Annotate(Fresh(n, ts, env), ts, env, seen) == Fresh(n, ts, env)
  {
    if n != [] {
      var F := Fresh(n, ts, env);
      assert F[1..] == Fresh(n[1..], ts, env);
      assert forall a :: a in n[1..] ==> a !in seen + {n[0]};
      AnnotateFresh(n[1..], ts, env, seen + {n[0]});
      assert SlotApps(F[0]) == {n[0]};
    }
  }

  /** The shelf after updateTasks is its own refill: every icon already holds exactly the tasks
      a second pass would give it. */
  lemma ReconciledSelfAnnotated(s: seq<Slot>, ts: seq<Task>, env: Env)
    ensures Annotate(Reconciled(s, ts, env), ts, env, {}) == Reconciled(s, ts, env)
  {
    var A := Annotate(s, ts, env, {});
    var S := Sweep(A);
    var N := NewApps(AppsOf(s), ts, env);
    AnnotateConcat(S, Fresh(N, ts, env), ts, env, {});
    RefillSwept(s, ts, env, {}, {});
    AppsOfSweep(A);
    AppsOfAnnotate(s, ts, env, {});
    NewAppsSpec(AppsOf(s), ts, env);
    AnnotateFresh(N, ts, env, {} + AppsOf(S));
  }

  lemma SelfAnnotatedAt(r: seq<Slot>, ts: seq<Task>, env: Env, i: nat)
    requires Annotate(r, ts, env, {}) == r && i < |r| && r[i].Icon?
    ensures r[i].data.tasks == if r[i].data.appInfo in AppsOf(r[..i]) then [] else TasksFor(ts, r[i].data.appInfo, env)
  {
    AnnotateAt(r, ts, env, {});
    assert {} + AppsOf(r[..i]) == AppsOf(r[..i]);
  }

  /** After updateTasks the first icon of each app holds all its incoming tasks, in order, and any
      later icon of the same app holds none. */
  lemma ReconciledTasks(s: seq<Slot>, ts: seq<Task>, env: Env)
    ensures forall i :: 0 <= i < |Reconciled(s, ts, env)| && Reconciled(s, ts, env)[i].Icon? ==>
      var d := Reconciled(s, ts, env)[i].data;
      d.tasks == if d.appInfo in AppsOf(Reconciled(s, ts, env)[..i]) then [] else TasksFor(ts, d.appInfo, env)
  {
    var R := Reconciled(s, ts, env);
    ReconciledSelfAnnotated(s, ts, env);
    forall i | 0 <= i < |R| && R[i].Icon?
      ensures R[i].data.tasks == if R[i].data.appInfo in AppsOf(R[..i]) then [] else TasksFor(ts, R[i].data.appInfo, env)
    {
      SelfAnnotatedAt(R, ts, env, i);
    }
  }

  /** Running updateTasks again with the same recent tasks changes nothing. */
  lemma ReconcileIdempotent(s: seq<Slot>, ts: seq<Task>, env: Env)
    ensures Reconciled(Reconciled(s, ts, env), ts, env) == Reconciled(s, ts, env)
  {
    var R := Reconciled(s, ts, env);
    ReconciledSelfAnnotated(s, ts, env);
    ReconciledNoEmpty(s, ts, env);
    SweepKeepsNonEmpty(R);
    var N := NewApps(AppsOf(R), ts, env);
    assert forall x :: x !in N by {
      NewAppsSpec(AppsOf(R), ts, env);
      forall x | x in N && TasksFor(ts, x, env) != [] ensures x in AppsOf(R) {
        ReconciledShowsApp(s, ts, env, x);
      }
    }
    EmptyWithoutMembers(N);
    assert R + [] == R;
  }

  /** The first two passes over a reconciled shelf give it back unchanged. */
  lemma AttachOnReconciled(s: seq<Slot>, ts: seq<Task>, env: Env)
    requires NoPlaceholder(s)
    ensures NoPlaceholder(Reconciled(s, ts, env)) && LastPlaceholder(Reconciled(s, ts, env)) == -1
    ensures Attach(ClearedAbove(Reconciled(s, ts, env), -1), ts, env) == Reconciled(s, ts, env)
  {
    var R := Reconciled(s, ts, env);
    ReconciledNoPlaceholder(s, ts, env);
    AttachOnCleared(R, ts, env);
    ReconcileIdempotent(s, ts, env);
    ReconciledSelfAnnotated(s, ts, env);
    var N := NewApps(AppsOf(R), ts, env);
    assert Sweep(R) + Fresh(N, ts, env) == R;
    assert |Fresh(N, ts, env)| == 0 by {
      ReconciledNoEmpty(s, ts, env);
      SweepKeepsNonEmpty(R);
    }
    assert Fresh(N, ts, env) == [];
    assert R + [] == R;
  }

  /** On a shelf without placeholder, a second updateTasks with the same recent tasks leaves the
      whole state, drag view included, as the first one left it. */
  lemma UpdateTasksIdempotent(st: Shelf, ts: seq<Task>, env: Env)
    requires DragValid(st) && NoPlaceholder(st.slots)
    ensures UpdateTasksSpec(UpdateTasksSpec(st, ts, env), ts, env) == UpdateTasksSpec(st, ts, env)
  {
    var u := UpdateTasksSpec(st, ts, env);
    var R := Reconciled(st.slots, ts, env);
    UpdateTasksReconciles(st, ts, env);
    AttachOnReconciled(st.slots, ts, env);
    assert u.(slots := Attach(ClearedAbove(R, -1), ts, env)) == u;
    assert forall j :: 0 <= j < |R| ==> R[j].Icon? && !R[j].data.IsEmpty() by {
      ReconciledNoEmpty(st.slots, ts, env);
    }
    SweepDownKeeps(u, |R|);
  }

  /** Refilling changes tasks only, so pinned-ordered children stay left of unpinned ones. */
  lemma AnnotatePartitioned(x: seq<Slot>, ts: seq<Task>, env: Env)
    requires Partitioned(x)
    ensures Partitioned(Annotate(x, ts, env, {}))
  {
    var A := Annotate(x, ts, env, {});
    AnnotateAt(x, ts, env, {});
    assert forall i :: 0 <= i < |x| ==> OrdersAsPinned(A[i]) == OrdersAsPinned(x[i]);
  }

  /** Dropping children keeps pinned-ordered children left of unpinned ones. */
  lemma {:induction false} SweepPartitioned(x: seq<Slot>)
    requires Partitioned(x)
    ensures Partitioned(Sweep(x))
  {
    if x != [] {
      var t := Sweep(x[1..]);
      assert Partitioned(x[1..]) by {
        assert forall i :: 0 <= i < |x| - 1 ==> x[1..][i] == x[i + 1];
      }
      SweepPartitioned(x[1..]);
      if !IsEmptyIcon(x[0]) {
        var r := [x[0]] + t;
        assert Sweep(x) == r;
        if !OrdersAsPinned(x[0]) {
          SweepMembers(x[1..]);
          forall j | 0 <= j < |t| ensures !OrdersAsPinned(t[j]) {
            assert t[j] in x[1..];
          }
        }
        assert forall j :: 1 <= j < |r| ==> r[j] == t[j - 1];
      }
    }
  }

  /** updateTasks keeps pinned-ordered children left of unpinned ones: the icons it appends are
      unpinned. */
  lemma ReconciledPartitioned(s: seq<Slot>, ts: seq<Task>, env: Env)
    requires Partitioned(s)
    ensures Partitioned(Reconciled(s, ts, env))
  {
    var S := Sweep(Annotate(s, ts, env, {}));
    var F := Fresh(NewApps(AppsOf(s), ts, env), ts, env);
    AnnotatePartitioned(s, ts, env);
    SweepPartitioned(Annotate(s, ts, env, {}));
    var R := S + F;
    assert forall j :: |S| <= j < |R| ==> R[j] == F[j - |S|] && !OrdersAsPinned(R[j]);
    assert forall j :: 0 <= j < |S| ==> R[j] == S[j];
  }

  /** updateTasks, with or without a placeholder on the shelf, keeps pinned-ordered children
      left of unpinned ones. */
  lemma UpdateTasksPartitioned(st: Shelf, ts: seq<Task>, env: Env)
    requires DragValid(st) && Partitioned(st.slots)
    ensures Partitioned(UpdateTasksSpec(st, ts, env).slots)
  {
    var p := LastPlaceholder(st.slots);
    if p >= 0 {
      var c := ClearedAbove(st.slots, p);
      assert forall j :: 0 <= j < |c| ==> OrdersAsPinned(c[j]) == OrdersAsPinned(st.slots[j]);
    } else {
      UpdateTasksReconciles(st, ts, env);
      ReconciledPartitioned(st.slots, ts, env);
    }
  }

  /** While a placeholder is on the shelf (a drag from outside is in progress), updateTasks
      attaches none of the incoming tasks: it only empties the task lists right of the
      placeholder, and keeps every child, the drag view and the pinned apps. */
  lemma UpdateTasksDuringDrag(st: Shelf, ts: seq<Task>, env: Env, p: nat)
    requires DragValid(st) && PlaceholderOnlyAtDrag(st) && st.drag == Attached(p)
    requires st.slots[p].Placeholder?
    ensures var r := UpdateTasksSpec(st, ts, env);
      |r.slots| == |st.slots| && r.drag == st.drag && PinnedApps(r.slots) == PinnedApps(st.slots) &&
      (forall j :: 0 <= j < |r.slots| && r.slots[j].Icon? ==>
         r.slots[j].data.appInfo == st.slots[j].data.appInfo &&
         r.slots[j].data.pinned == st.slots[j].data.pinned &&
         (j > p ==> r.slots[j].data.tasks == []) &&
         (r.slots[j].data.tasks == [] || r.slots[j].data.tasks == st.slots[j].data.tasks))
  {
    var q := LastPlaceholder(st.slots);
    assert q == p;
    var c := ClearedAbove(st.slots, q);
    assert forall j :: 0 <= j < |c| ==> (c[j].Icon? && c[j].data.pinned) == (st.slots[j].Icon? && st.slots[j].data.pinned);
    SamePinnedApps(st.slots, c);
  }

  /** The new apps found among the first k incoming tasks come first, in the same order: the
      new apps are listed in order of first occurrence. */
  lemma {:induction false} NewAppsInOrder(known: set<AppInfo>, ts: seq<Task>, env: Env, k: nat)
    requires k <= |ts|
    ensures NewApps(known, ts[..k], env) <= NewApps(known, ts, env)
    decreases |ts|
  {
    if k == |ts| {
      assert ts[..k] == ts;
    } else {
      var n := |ts| - 1;
      assert ts[..n][..k] == ts[..k];
      NewAppsInOrder(known, ts[..n], env, k);
    }
  }

  /** x is obtained from y by deleting entries. */
  ghost predicate Subsequence(x: seq<Slot>, y: seq<Slot>)
    decreases |y|
  {
    if x == [] then true
    else if y == [] then false
    else (x[0] == y[0] && Subsequence(x[1..], y[1..])) || Subsequence(x, y[1..])
  }

  /** The children as entries without their task lists: which app, and whether pinned. */
  function Entries(s: seq<Slot>): (r: seq<Slot>)
    ensures |r| == |s| && forall j :: 0 <= j < |s| ==> r[j] == WithoutTasks(s[j])
  {
    seq(|s|, j requires 0 <= j < |s| => WithoutTasks(s[j]))
  }

  lemma {:induction false} SweepSubsequence(x: seq<Slot>)
    ensures Subsequence(Entries(Sweep(x)), Entries(x))
  {
    if x != [] {
      SweepSubsequence(x[1..]);
      var t := Sweep(x[1..]);
      assert Entries(x)[1..] == Entries(x[1..]);
      if IsEmptyIcon(x[0]) {
        assert Sweep(x) == t;
        SubsequenceDropsHead(Entries(t), Entries(x));
      } else {
        assert Sweep(x) == [x[0]] + t;
        assert Entries([x[0]] + t)[1..] == Entries(t);
      }
    }
  }

  lemma SubsequenceDropsHead(x: seq<Slot>, y: seq<Slot>)
    requires y != [] && Subsequence(x, y[1..])
    ensures Subsequence(x, y)
  {
  }

  /** The entries that survive updateTasks keep their relative order, and the new icons follow
      them. */
  lemma ReconciledKeepsOrder(s: seq<Slot>, ts: seq<Task>, env: Env)
    ensures var R := Reconciled(s, ts, env); var S := Sweep(Annotate(s, ts, env, {}));
      R == S + Fresh(NewApps(AppsOf(s), ts, env), ts, env) && Subsequence(Entries(S), Entries(s))
  {
    var A := Annotate(s, ts, env, {});
    AnnotateAt(s, ts, env, {});
    assert Entries(A) == Entries(s) by {
      forall j | 0 <= j < |s| ensures Entries(A)[j] == Entries(s)[j] {
      }
    }
    SweepSubsequence(A);
  }
}
