/** Pinning and unpinning: the context-menu actions, the unpinning of apps that can no longer be
    launched or whose profile was removed, and rebuilding the shelf from the saved pinned list. */
module Pinning {
  import opened AppsTypes
  import opened ShelfState
  import opened Reconcile

  // ---------------------------------------------------------------------------------------
  // Unpinning by a selector, right to left (unpinIfUnlauncheable, onManagedProfileRemoved)

  /** The shelf after the backward unpinning loop, whether it unpinned anything, and whether it
      ran to the start of the shelf rather than returning at the placeholder. */
  datatype UnpinResult = UnpinResult(shelf: Shelf, unpinned: bool, finished: bool)

  /** The icon at index i with its pinned flag cleared, removed when that leaves it empty. */
  function UnpinAt(st: Shelf, i: nat): (r: Shelf)
    requires DragValid(st) && i < |st.slots| && st.slots[i].Icon?
    ensures DragValid(r) && r.savedApps == st.savedApps
  {
    var d := st.slots[i].data.(pinned := false);
    var tagged := st.(slots := st.slots[i := Icon(d)]);
    if d.IsEmpty() then ChildRemoved(tagged, i) else tagged
  }

  /** The backward loop over the children with index below n. Pinned icons whose app `sel`
      selects are unpinned; the placeholder is skipped, or ends the method when `stop` is set. */
  function UnpinDown(st: Shelf, n: nat, sel: AppInfo -> bool, stop: bool): (r: UnpinResult)
    requires n <= |st.slots| && DragValid(st)
    ensures DragValid(r.shelf) && r.shelf.savedApps == st.savedApps
    decreases n
  {
    if n == 0 then UnpinResult(st, false, true)
    else
      var v := st.slots[n - 1];
      if v.Placeholder? then
        if stop then UnpinResult(st, false, false) else UnpinDown(st, n - 1, sel, stop)
      else if !v.data.pinned || !sel(v.data.appInfo) then UnpinDown(st, n - 1, sel, stop)
      else UnpinDown(UnpinAt(st, n - 1), n - 1, sel, stop).(unpinned := true)
  }

  /** unpinIfUnlauncheable(packageName, user): unpins every pinned app of that package and user
      that can no longer be launched, and saves the pinned apps if it unpinned any. */
  function UnpinIfUnlauncheableSpec(st: Shelf, packageName: string, user: UserId, env: Env): (r: Shelf)
    requires DragValid(st)
    ensures DragValid(r)
  {
    var sel := (a: AppInfo) => a.user == user && a.component.packageName == packageName && !env.launchable(a);
    var u := UnpinDown(st, |st.slots|, sel, false);
    if u.unpinned then u.shelf.(savedApps := PinnedApps(u.shelf.slots)) else u.shelf
  }

  /** onManagedProfileRemoved(user): unpins every pinned app of the removed profile. A placeholder
      ends the method on the spot, without saving what it has unpinned so far. */
  function OnManagedProfileRemovedSpec(st: Shelf, user: UserId): (r: Shelf)
    requires DragValid(st)
    ensures DragValid(r)
  {
    var u := UnpinDown(st, |st.slots|, (a: AppInfo) => a.user == user, true);
    if u.unpinned && u.finished then u.shelf.(savedApps := PinnedApps(u.shelf.slots)) else u.shelf
  }

  /** Reference definition: what unpinning does to one child. */
  function UnpinOne(v: Slot, sel: AppInfo -> bool): seq<Slot> {
    if v.Icon? && v.data.pinned && sel(v.data.appInfo) then
      if v.data.tasks == [] then [] else [Icon(v.data.(pinned := false))]
    else [v]
  }

  /** Reference definition: every child unpinned as selected, in order. */
  function UnpinAll(s: seq<Slot>, sel: AppInfo -> bool): seq<Slot>
    decreases |s|
  {
    if s == [] then [] else UnpinAll(s[..|s| - 1], sel) + UnpinOne(s[|s| - 1], sel)
  }

  /** Some child below n is a pinned icon of a selected app. */
  ghost predicate SelectsPinned(s: seq<Slot>, n: int, sel: AppInfo -> bool) {
    exists i :: 0 <= i < n && i < |s| && s[i].Icon? && s[i].data.pinned && sel(s[i].data.appInfo)
  }

  /** Unpinning the selected pinned icon at i replaces it by what the reference definition says
      and leaves the children left of it alone. */
  lemma UnpinAtSlots(st: Shelf, i: nat, sel: AppInfo -> bool)
    requires DragValid(st) && i < |st.slots| && st.slots[i].Icon?
    requires st.slots[i].data.pinned && sel(st.slots[i].data.appInfo)
    ensures i <= |UnpinAt(st, i).slots|
    ensures UnpinAt(st, i).slots[..i] == st.slots[..i]
    ensures UnpinAt(st, i).slots[i..] == UnpinOne(st.slots[i], sel) + st.slots[i + 1..]
    ensures NoPlaceholderIn(st.slots, 0, i) ==> NoPlaceholderIn(UnpinAt(st, i).slots, 0, i)
  {
    var s := st.slots;
    var r := UnpinAt(st, i).slots;
    if s[i].data.tasks != [] {
      assert r == s[..i] + [Icon(s[i].data.(pinned := false))] + s[i + 1..];
    } else {
      assert r == s[..i] + s[i + 1..];
    }
  }

  lemma SelectsPinnedStep(s: seq<Slot>, n: nat, sel: AppInfo -> bool)
    requires 0 < n <= |s|
    ensures SelectsPinned(s, n, sel) <==>
      SelectsPinned(s, n - 1, sel) || (s[n - 1].Icon? && s[n - 1].data.pinned && sel(s[n - 1].data.appInfo))
  {
    if SelectsPinned(s, n, sel) && !SelectsPinned(s, n - 1, sel) {
      var i :| 0 <= i < n && i < |s| && s[i].Icon? && s[i].data.pinned && sel(s[i].data.appInfo);
      assert i == n - 1;
    }
  }

  /** The reference definition over the first n children, one child at a time. */
  lemma UnpinAllPrefix(s: seq<Slot>, n: nat, sel: AppInfo -> bool)
    requires 0 < n <= |s|
    ensures UnpinAll(s[..n], sel) == UnpinAll(s[..n - 1], sel) + UnpinOne(s[n - 1], sel)
  {
    assert s[..n][..n - 1] == s[..n - 1];
  }

  /** When the loop skips placeholders, or none is in the way, the backward loop unpins every
      selected pinned icon below n (removing the empty ones), leaves the rest, and runs to the
      start of the shelf. */
  lemma {:induction false} UnpinDownClosedForm(st: Shelf, n: nat, sel: AppInfo -> bool, stop: bool)
    requires n <= |st.slots| && DragValid(st) && (!stop || NoPlaceholderIn(st.slots, 0, n))
    ensures var r := UnpinDown(st, n, sel, stop);
      r.shelf.slots == UnpinAll(st.slots[..n], sel) + st.slots[n..] && r.finished
    decreases n
  {
    if n > 0 {
      var v := st.slots[n - 1];
      if v.Placeholder? || !v.data.pinned || !sel(v.data.appInfo) {
        UnpinDownClosedForm(st, n - 1, sel, stop);
        ClosedFormSkipStep(st, n, sel, stop);
      } else {
        UnpinAtSlots(st, n - 1, sel);
        UnpinDownClosedForm(UnpinAt(st, n - 1), n - 1, sel, stop);
        ClosedFormUnpinStep(st, n, sel, stop);
      }
    }
  }

  lemma ClosedFormSkipStep(st: Shelf, n: nat, sel: AppInfo -> bool, stop: bool)
    requires 0 < n <= |st.slots| && DragValid(st) && (st.slots[n - 1].Placeholder? ==> !stop)
    requires st.slots[n - 1].Icon? ==> !st.slots[n - 1].data.pinned || !sel(st.slots[n - 1].data.appInfo)
    requires var r := UnpinDown(st, n - 1, sel, stop);
      r.shelf.slots == UnpinAll(st.slots[..n - 1], sel) + st.slots[n - 1..] && r.finished
    ensures var r := UnpinDown(st, n, sel, stop);
      r.shelf.slots == UnpinAll(st.slots[..n], sel) + st.slots[n..] && r.finished
  {
    var s := st.slots;
    var before, one, after := UnpinAll(s[..n - 1], sel), UnpinOne(s[n - 1], sel), s[n..];
    assert one == [s[n - 1]];
    assert UnpinAll(s[..n], sel) == before + one by { UnpinAllPrefix(s, n, sel); }
    SliceAt(s, n - 1);
    ConcatAssoc(before, one, after);
  }

  lemma SliceAt(s: seq<Slot>, i: nat)
    requires i < |s|
    ensures s[i..] == [s[i]] + s[i + 1..]
  {
  }

  lemma ConcatAssoc(x: seq<Slot>, y: seq<Slot>, z: seq<Slot>)
    ensures x + (y + z) == (x + y) + z
  {
  }

  lemma ClosedFormUnpinStep(st: Shelf, n: nat, sel: AppInfo -> bool, stop: bool)
    requires 0 < n <= |st.slots| && DragValid(st) && st.slots[n - 1].Icon?
    requires st.slots[n - 1].data.pinned && sel(st.slots[n - 1].data.appInfo)
    requires var st1 := UnpinAt(st, n - 1);
      n - 1 <= |st1.slots| && st1.slots[..n - 1] == st.slots[..n - 1] &&
      st1.slots[n - 1..] == UnpinOne(st.slots[n - 1], sel) + st.slots[n..]
    requires var r := UnpinDown(UnpinAt(st, n - 1), n - 1, sel, stop);
      r.shelf.slots == UnpinAll(st.slots[..n - 1], sel) + UnpinOne(st.slots[n - 1], sel) + st.slots[n..] &&
      r.finished
    ensures var r := UnpinDown(st, n, sel, stop);
      r.shelf.slots == UnpinAll(st.slots[..n], sel) + st.slots[n..] && r.finished
  {
    UnpinAllPrefix(st.slots, n, sel);
  }

  /** When the loop skips placeholders, or none is in the way, it reports an unpinning exactly
      when there was a selected pinned icon. */
  lemma {:induction false} UnpinDownReports(st: Shelf, n: nat, sel: AppInfo -> bool, stop: bool)
    requires n <= |st.slots| && DragValid(st) && (!stop || NoPlaceholderIn(st.slots, 0, n))
    ensures UnpinDown(st, n, sel, stop).unpinned <==> SelectsPinned(st.slots, n, sel)
    decreases n
  {
    if n > 0 {
      var s := st.slots;
      var v := s[n - 1];
      SelectsPinnedStep(s, n, sel);
      if v.Placeholder? || !v.data.pinned || !sel(v.data.appInfo) {
        UnpinDownReports(st, n - 1, sel, stop);
      } else {
        UnpinAtSlots(st, n - 1, sel);
        assert SelectsPinned(s, n, sel);
      }
    }
  }

  /** The apps pinned after unpinning are the apps pinned before that the selector spares, in
      the same order. */
  function Spared(apps: seq<AppInfo>, sel: AppInfo -> bool): (r: seq<AppInfo>)
    ensures forall a :: a in r <==> a in apps && !sel(a)
    decreases |apps|
  {
    if apps == [] then []
    else
      var n := |apps| - 1;
      assert apps == apps[..n] + [apps[n]];
      Spared(apps[..n], sel) + if sel(apps[n]) then [] else [apps[n]]
  }

  lemma {:induction false} UnpinAllPinned(s: seq<Slot>, sel: AppInfo -> bool)
    ensures PinnedApps(UnpinAll(s, sel)) == Spared(PinnedApps(s), sel)
    decreases |s|
  {
    if s != [] {
      var n := |s| - 1;
      var init, last := s[..n], s[n];
      assert s == init + [last];
      UnpinAllPinned(init, sel);
      PinnedAppsConcat(UnpinAll(init, sel), UnpinOne(last, sel));
      PinnedAppsConcat(init, [last]);
      UnpinOnePinned(last, sel);
      SparedConcat(PinnedApps(init), PinnedApps([last]), sel);
    }
  }

  /** Unpinning one child takes its app out of the pinned list exactly when it is selected. */
  lemma UnpinOnePinned(v: Slot, sel: AppInfo -> bool)
    ensures PinnedApps(UnpinOne(v, sel)) == Spared(PinnedApps([v]), sel)
  {
    assert [v][..0] == [];
    var one := UnpinOne(v, sel);
    if one != [] && one != [v] {
      assert one[..0] == [];
    }
  }

  lemma {:induction false} SparedConcat(x: seq<AppInfo>, y: seq<AppInfo>, sel: AppInfo -> bool)
    ensures Spared(x + y, sel) == Spared(x, sel) + Spared(y, sel)
    decreases |y|
  {
    if y == [] {
      assert x + y == x;
    } else {
      var n := |y| - 1;
      assert (x + y)[..|x + y| - 1] == x + y[..n];
      assert (x + y)[|x + y| - 1] == y[n];
      SparedConcat(x, y[..n], sel);
    }
  }

  /** Some icon of app a is not dropped by unpinning. */
  ghost predicate KeepsIcon(s: seq<Slot>, a: AppInfo, sel: AppInfo -> bool) {
    exists i :: 0 <= i < |s| && HasApp(s[i], a) && UnpinOne(s[i], sel) != []
  }

  lemma KeepsIconStep(s: seq<Slot>, a: AppInfo, sel: AppInfo -> bool)
    requires s != []
    ensures KeepsIcon(s, a, sel) <==>
      KeepsIcon(s[..|s| - 1], a, sel) || (HasApp(s[|s| - 1], a) && UnpinOne(s[|s| - 1], sel) != [])
  {
    var n := |s| - 1;
    if KeepsIcon(s, a, sel) && !(HasApp(s[n], a) && UnpinOne(s[n], sel) != []) {
      var i :| 0 <= i < |s| && HasApp(s[i], a) && UnpinOne(s[i], sel) != [];
      assert s[..n][i] == s[i];
    }
    if KeepsIcon(s[..n], a, sel) {
      var i :| 0 <= i < n && HasApp(s[..n][i], a) && UnpinOne(s[..n][i], sel) != [];
      assert s[..n][i] == s[i];
    }
  }

  lemma AppsOfUnpinOne(v: Slot, sel: AppInfo -> bool)
    ensures AppsOf(UnpinOne(v, sel)) == if UnpinOne(v, sel) == [] then {} else SlotApps(v)
  {
    var one := UnpinOne(v, sel);
    if one != [] {
      assert one[1..] == [];
    }
  }

  /** An app keeps an icon exactly when one of its icons is not dropped: not every icon of it
      was a selected pinned icon without tasks. */
  lemma {:induction false} UnpinAllApps(s: seq<Slot>, sel: AppInfo -> bool, a: AppInfo)
    ensures a in AppsOf(UnpinAll(s, sel)) <==> KeepsIcon(s, a, sel)
    decreases |s|
  {
    if s != [] {
      var n := |s| - 1;
      UnpinAllApps(s[..n], sel, a);
      AppsOfConcat(UnpinAll(s[..n], sel), UnpinOne(s[n], sel));
      AppsOfUnpinOne(s[n], sel);
      KeepsIconStep(s, a, sel);
    }
  }

  /** unpinIfUnlauncheable, with or without a placeholder (which it skips): the selected pinned
      apps leave the pinned list, and the list is saved exactly when one was found. */
  lemma UnpinIfUnlauncheableEffect(st: Shelf, packageName: string, user: UserId, env: Env)
    requires DragValid(st)
    ensures var r := UnpinIfUnlauncheableSpec(st, packageName, user, env);
      var sel := (a: AppInfo) => a.user == user && a.component.packageName == packageName && !env.launchable(a);
      r.slots == UnpinAll(st.slots, sel) &&
      PinnedApps(r.slots) == Spared(PinnedApps(st.slots), sel) &&
      r.savedApps == (if SelectsPinned(st.slots, |st.slots|, sel) then PinnedApps(r.slots) else st.savedApps)
  {
    var sel := (a: AppInfo) => a.user == user && a.component.packageName == packageName && !env.launchable(a);
    UnpinDownClosedForm(st, |st.slots|, sel, false);
    UnpinDownReports(st, |st.slots|, sel, false);
    assert st.slots[..|st.slots|] == st.slots && st.slots[|st.slots|..] == [];
    assert UnpinAll(st.slots, sel) + [] == UnpinAll(st.slots, sel);
    UnpinAllPinned(st.slots, sel);
  }

  /** onManagedProfileRemoved on a shelf without placeholder: the removed profile's apps leave the
      pinned list, and the list is saved exactly when one was pinned. */
  lemma ManagedProfileRemovedEffect(st: Shelf, user: UserId)
    requires DragValid(st) && NoPlaceholder(st.slots)
    ensures var r := OnManagedProfileRemovedSpec(st, user);
      var sel := (a: AppInfo) => a.user == user;
      r.slots == UnpinAll(st.slots, sel) &&
      PinnedApps(r.slots) == Spared(PinnedApps(st.slots), sel) &&
      (forall a :: a in PinnedApps(r.slots) ==> a.user != user) &&
      r.savedApps == (if SelectsPinned(st.slots, |st.slots|, sel) then PinnedApps(r.slots) else st.savedApps)
  {
    var sel := (a: AppInfo) => a.user == user;
    UnpinDownClosedForm(st, |st.slots|, sel, true);
    UnpinDownReports(st, |st.slots|, sel, true);
    assert st.slots[..|st.slots|] == st.slots && st.slots[|st.slots|..] == [];
    assert UnpinAll(st.slots, sel) + [] == UnpinAll(st.slots, sel);
    UnpinAllPinned(st.slots, sel);
  }

  /** With a placeholder on the shelf, onManagedProfileRemoved unpins the removed profile's apps
      right of the last placeholder, leaves the placeholder and everything left of it alone, and
      saves nothing, even when it did unpin. */
  lemma ManagedProfileRemovedStopsAtPlaceholder(st: Shelf, user: UserId, p: nat)
    requires DragValid(st) && p < |st.slots| && st.slots[p].Placeholder?
    requires NoPlaceholderIn(st.slots, p + 1, |st.slots|)
    ensures var r := OnManagedProfileRemovedSpec(st, user);
      r.savedApps == st.savedApps && p < |r.slots| && r.slots[..p + 1] == st.slots[..p + 1] &&
      r.slots[p + 1..] == UnpinAll(st.slots[p + 1..], (a: AppInfo) => a.user == user)
  {
    var sel := (a: AppInfo) => a.user == user;
    StopsAtPlaceholder(st, |st.slots|, sel, p);
    StopsRightOfPlaceholder(st, |st.slots|, sel, p);
    assert st.slots[p + 1..|st.slots|] == st.slots[p + 1..];
    assert UnpinAll(st.slots[p + 1..], sel) + st.slots[|st.slots|..] == UnpinAll(st.slots[p + 1..], sel);
  }

  lemma {:induction false} StopsAtPlaceholder(st: Shelf, n: nat, sel: AppInfo -> bool, p: nat)
    requires DragValid(st) && p < n <= |st.slots| && st.slots[p].Placeholder?
    requires NoPlaceholderIn(st.slots, p + 1, n)
    ensures var r := UnpinDown(st, n, sel, true);
      !r.finished && p < |r.shelf.slots| && r.shelf.slots[..p + 1] == st.slots[..p + 1]
    decreases n
  {
    if n - 1 > p {
      var v := st.slots[n - 1];
      if v.data.pinned && sel(v.data.appInfo) {
        var st1 := UnpinAt(st, n - 1);
        assert st1.slots[..p + 1] == st.slots[..p + 1];
        StopsAtPlaceholder(st1, n - 1, sel, p);
      } else {
        StopsAtPlaceholder(st, n - 1, sel, p);
      }
    }
  }

  /** Right of the placeholder, the loop has done what the reference definition says. */
  lemma {:induction false} StopsRightOfPlaceholder(st: Shelf, n: nat, sel: AppInfo -> bool, p: nat)
    requires DragValid(st) && p < n <= |st.slots| && st.slots[p].Placeholder?
    requires NoPlaceholderIn(st.slots, p + 1, n)
    ensures var r := UnpinDown(st, n, sel, true);
      p < |r.shelf.slots| && r.shelf.slots[p + 1..] == UnpinAll(st.slots[p + 1..n], sel) + st.slots[n..]
    decreases n
  {
    if n - 1 == p {
      assert st.slots[p + 1..n] == [];
    } else if st.slots[n - 1].data.pinned && sel(st.slots[n - 1].data.appInfo) {
      UnpinAtSlots(st, n - 1, sel);
      KeepsPlaceholderLeft(st, n, sel, p);
      StopsRightOfPlaceholder(UnpinAt(st, n - 1), n - 1, sel, p);
      StopsUnpinCase(st, n, sel, p);
    } else {
      StopsRightOfPlaceholder(st, n - 1, sel, p);
      StopsSkipCase(st, n, sel, p);
    }
  }

  /** Unpinning the child at n - 1 keeps the placeholder at p and the icons between. */
  lemma KeepsPlaceholderLeft(st: Shelf, n: nat, sel: AppInfo -> bool, p: nat)
    requires DragValid(st) && p + 1 < n <= |st.slots| && st.slots[p].Placeholder?
    requires NoPlaceholderIn(st.slots, p + 1, n) && st.slots[n - 1].Icon?
    requires n - 1 <= |UnpinAt(st, n - 1).slots| && UnpinAt(st, n - 1).slots[..n - 1] == st.slots[..n - 1]
    ensures var s1 := UnpinAt(st, n - 1).slots;
      p < n - 1 <= |s1| && s1[p].Placeholder? && NoPlaceholderIn(s1, p + 1, n - 1)
  {
    var s1 := UnpinAt(st, n - 1).slots;
    forall j | 0 <= j < n - 1 ensures s1[j] == st.slots[j] {
      assert s1[..n - 1][j] == st.slots[..n - 1][j];
    }
  }

  lemma StopsUnpinCase(st: Shelf, n: nat, sel: AppInfo -> bool, p: nat)
    requires DragValid(st) && p + 1 < n <= |st.slots| && st.slots[n - 1].Icon?
    requires st.slots[n - 1].data.pinned && sel(st.slots[n - 1].data.appInfo)
    requires var st1 := UnpinAt(st, n - 1);
      n - 1 <= |st1.slots| && st1.slots[..n - 1] == st.slots[..n - 1] &&
      st1.slots[n - 1..] == UnpinOne(st.slots[n - 1], sel) + st.slots[n..]
    requires var r1 := UnpinDown(UnpinAt(st, n - 1), n - 1, sel, true);
      p < |r1.shelf.slots| &&
      r1.shelf.slots[p + 1..] == UnpinAll(UnpinAt(st, n - 1).slots[p + 1..n - 1], sel) + UnpinAt(st, n - 1).slots[n - 1..]
    ensures var r := UnpinDown(st, n, sel, true);
      p < |r.shelf.slots| && r.shelf.slots[p + 1..] == UnpinAll(st.slots[p + 1..n], sel) + st.slots[n..]
  {
    var st1 := UnpinAt(st, n - 1);
    var r1 := UnpinDown(st1, n - 1, sel, true);
    assert UnpinDown(st, n, sel, true).shelf == r1.shelf;
    StopsUnpinStep(st.slots, st1.slots, p, n, sel, r1.shelf.slots[p + 1..]);
  }

  lemma StopsSkipCase(st: Shelf, n: nat, sel: AppInfo -> bool, p: nat)
    requires DragValid(st) && p + 1 < n <= |st.slots| && st.slots[n - 1].Icon?
    requires !st.slots[n - 1].data.pinned || !sel(st.slots[n - 1].data.appInfo)
    requires var r1 := UnpinDown(st, n - 1, sel, true);
      p < |r1.shelf.slots| && r1.shelf.slots[p + 1..] == UnpinAll(st.slots[p + 1..n - 1], sel) + st.slots[n - 1..]
    ensures var r := UnpinDown(st, n, sel, true);
      p < |r.shelf.slots| && r.shelf.slots[p + 1..] == UnpinAll(st.slots[p + 1..n], sel) + st.slots[n..]
  {
    var r1 := UnpinDown(st, n - 1, sel, true);
    assert UnpinDown(st, n, sel, true) == r1;
    StopsSkipStep(st.slots, p, n, sel, r1.shelf.slots[p + 1..]);
  }

  lemma PrefixOfPrefix(x: seq<Slot>, y: seq<Slot>, i: nat, j: nat)
    requires i <= j <= |x| && j <= |y| && x[..j] == y[..j]
    ensures x[..i] == y[..i]
  {
    assert x[..i] == x[..j][..i] && y[..i] == y[..j][..i];
  }

  /** The reference definition over s[lo..n], one child at a time. */
  lemma UnpinAllRangeStep(s: seq<Slot>, lo: nat, n: nat, sel: AppInfo -> bool)
    requires lo < n <= |s|
    ensures UnpinAll(s[lo..n], sel) == UnpinAll(s[lo..n - 1], sel) + UnpinOne(s[n - 1], sel)
  {
    assert s[lo..n][..n - 1 - lo] == s[lo..n - 1];
  }

  lemma StopsSkipStep(s: seq<Slot>, p: nat, n: nat, sel: AppInfo -> bool, rs: seq<Slot>)
    requires p + 1 < n <= |s| && UnpinOne(s[n - 1], sel) == [s[n - 1]]
    requires rs == UnpinAll(s[p + 1..n - 1], sel) + s[n - 1..]
    ensures rs == UnpinAll(s[p + 1..n], sel) + s[n..]
  {
    UnpinAllRangeStep(s, p + 1, n, sel);
    SliceAt(s, n - 1);
    ConcatAssoc(UnpinAll(s[p + 1..n - 1], sel), [s[n - 1]], s[n..]);
  }

  lemma StopsUnpinStep(s: seq<Slot>, s1: seq<Slot>, p: nat, n: nat, sel: AppInfo -> bool, rs: seq<Slot>)
    requires p + 1 < n <= |s| && n - 1 <= |s1|
    requires s1[..n - 1] == s[..n - 1] && s1[n - 1..] == UnpinOne(s[n - 1], sel) + s[n..]
    requires rs == UnpinAll(s1[p + 1..n - 1], sel) + s1[n - 1..]
    ensures rs == UnpinAll(s[p + 1..n], sel) + s[n..]
  {
    assert s1[p + 1..n - 1] == s[p + 1..n - 1];
    UnpinAllRangeStep(s, p + 1, n, sel);
    ConcatAssoc(UnpinAll(s[p + 1..n - 1], sel), UnpinOne(s[n - 1], sel), s[n..]);
  }

  /** Unpinning in place does not keep the pinned icons left of the unpinned ones: an app that
      is unpinned but still running stays where it was, possibly left of a pinned icon. */
  lemma UnpinInPlaceBreaksPartition(c: ComponentName, user: UserId, t: Task)
    ensures var s := [Icon(AppButtonData(AppInfo(c, user), true, [t])),
                      Icon(AppButtonData(AppInfo(c, user + 1), true, []))];
      var r := OnManagedProfileRemovedSpec(Shelf(s, NoDrag, []), user);
      Partitioned(s) && !Partitioned(r.slots)
  {
    var x := Icon(AppButtonData(AppInfo(c, user), true, [t]));
    var y := Icon(AppButtonData(AppInfo(c, user + 1), true, []));
    var s := [x, y];
    var st := Shelf(s, NoDrag, []);
    var sel := (a: AppInfo) => a.user == user;
    UnpinDownClosedForm(st, 2, sel, true);
    assert s[..2] == s && s[2..] == [];
    assert s[..1] == [x] && [x][..0] == [];
    var x' := Icon(x.data.(pinned := false));
    assert UnpinAll(s, sel) == [x', y];
    var r := OnManagedProfileRemovedSpec(st, user);
    assert r.slots == [x', y];
    assert !OrdersAsPinned(r.slots[0]) && OrdersAsPinned(r.slots[1]);
  }

  // ---------------------------------------------------------------------------------------
  // The context-menu actions

  /** The icon a context menu was opened for, as the menu click finds it. The menu item is
      chosen when the menu opens, and while it is open the shelf may take the icon off
      (recreating the buttons, dropping an empty app) or change its pinned flag. So the icon is
      either still the child at `index`, or a view off the shelf with the tag it had then. */
  datatype MenuView = Child(index: nat) | Detached(data: AppButtonData)

  /** A child menu view is one of the icons. */
  predicate MenuViewValid(st: Shelf, m: MenuView) {
    m.Child? ==> m.index < |st.slots| && st.slots[m.index].Icon?
  }

  /** The tag of the menu's icon. */
  function MenuTag(st: Shelf, m: MenuView): AppButtonData
    requires MenuViewValid(st, m)
  {
    if m.Child? then st.slots[m.index].data else m.data
  }

  /** The children other than the menu's icon. */
  function MenuRest(st: Shelf, m: MenuView): seq<Slot>
    requires MenuViewValid(st, m)
  {
    if m.Child? then Without(st.slots, m.index) else st.slots
  }

  /** The tag set to d and removeView(appIcon): the icon comes off the shelf if it is a child,
      and nothing happens otherwise. */
  function MenuTaken(st: Shelf, m: MenuView, d: AppButtonData): (r: Shelf)
    requires DragValid(st) && MenuViewValid(st, m)
    ensures DragValid(r) && r.savedApps == st.savedApps && r.slots == MenuRest(st, m)
  {
    if m.Child? then ChildRemoved(st.(slots := st.slots[m.index := Icon(d)]), m.index) else st
  }

  /** addView(appIcon, i) after MenuTaken: the icon, with tag d, is the child at i; if it was the
      drag view, the drag view is again that child. */
  function MenuPutBack(st: Shelf, m: MenuView, d: AppButtonData, i: nat): (r: Shelf)
    requires DragValid(st) && MenuViewValid(st, m) && i <= |MenuRest(st, m)|
    ensures DragValid(r) && r.savedApps == st.savedApps
    ensures r.slots == MenuRest(st, m)[..i] + [Icon(d)] + MenuRest(st, m)[i..]
  {
    var added := ChildAdded(MenuTaken(st, m, d), Icon(d), i);
    if m.Child? && st.drag == Attached(m.index) then added.(drag := Attached(i)) else added
  }

  /** The "Pin" action: the icon's tag is pinned, the icon is taken off the shelf (if it is on
      it) and added just right of the last pinned child, and the pinned apps are saved. The
      scan for that index reads the tags right of the last pinned child, which must not be the
      placeholder's. */
  function MenuPin(st: Shelf, m: MenuView): (r: Shelf)
    requires DragValid(st) && MenuViewValid(st, m)
    requires ScanSafe(MenuRest(st, m), |MenuRest(st, m)|, true)
    ensures DragValid(r) && |r.slots| == |MenuRest(st, m)| + 1
  {
    var d := MenuTag(st, m).(pinned := true);
    var w := MenuRest(st, m);
    var moved := MenuPutBack(st, m, d, NewAppIndex(w, |w|, true));
    moved.(savedApps := PinnedApps(moved.slots))
  }

  /** The "Unpin" action: the icon's tag is unpinned, the icon is taken off the shelf (if it is
      on it) and added back at the end when it still has tasks, and the pinned apps are saved. */
  function MenuUnpin(st: Shelf, m: MenuView): (r: Shelf)
    requires DragValid(st) && MenuViewValid(st, m)
    ensures DragValid(r)
  {
    var d := MenuTag(st, m).(pinned := false);
    var back := if d.IsEmpty() then MenuTaken(st, m, d) else MenuPutBack(st, m, d, |MenuRest(st, m)|);
    back.(savedApps := PinnedApps(back.slots))
  }

  /** Taking out an icon that is not pinned leaves the pinned list as it was. */
  lemma PinnedAppsWithoutUnpinned(s: seq<Slot>, k: nat)
    requires k < |s| && !(s[k].Icon? && s[k].data.pinned)
    ensures PinnedApps(Without(s, k)) == PinnedApps(s)
  {
    var x, y := s[..k], s[k + 1..];
    var xv := x + [s[k]];
    assert s == xv + y;
    PinnedAppsConcat(xv, y);
    PinnedAppsConcat(x, [s[k]]);
    NoPinnedApps([s[k]]);
    assert PinnedApps(xv) == PinnedApps(x);
    PinnedAppsConcat(x, y);
  }

  /** Inserting a pinned icon where nothing right of it is pinned appends its app to the pinned
      list. */
  lemma PinnedAppsInsertLast(w: seq<Slot>, x: Slot, i: nat)
    requires i <= |w| && x.Icon? && x.data.pinned && PinnedApps(w[i..]) == []
    ensures PinnedApps(w[..i] + [x] + w[i..]) == PinnedApps(w) + [x.data.appInfo]
  {
    var left, right := w[..i], w[i..];
    PinnedAppsConcat(left + [x], right);
    PinnedAppsConcat(left, [x]);
    assert [x][..0] == [];
    PinnedAppsSplit(w, i);
  }

  /** The other children keep their pinned list unless the menu's icon was itself a pinned
      child. */
  lemma MenuRestPinned(st: Shelf, m: MenuView)
    requires MenuViewValid(st, m) && !(m.Child? && MenuTag(st, m).pinned)
    ensures PinnedApps(MenuRest(st, m)) == PinnedApps(st.slots)
  {
    if m.Child? {
      PinnedAppsWithoutUnpinned(st.slots, m.index);
    }
  }

  /** Pin puts the icon at the new-app index for a pinned app at the end of the shelf and the
      other children keep their order. The app joins the end of the saved pinned list, which
      lists the shelf's pinned apps; unless the icon was already a pinned child, that is the
      old pinned list plus the app. */
  lemma MenuPinEffect(st: Shelf, m: MenuView)
    requires DragValid(st) && MenuViewValid(st, m)
    requires ScanSafe(MenuRest(st, m), |MenuRest(st, m)|, true)
    ensures var r := MenuPin(st, m); var w := MenuRest(st, m); var i := NewAppIndex(w, |w|, true);
      var a := MenuTag(st, m).appInfo;
      r.slots[i] == Icon(MenuTag(st, m).(pinned := true)) && Without(r.slots, i) == w &&
      (forall j :: i <= j < |w| ==> !OrdersAsPinned(w[j])) &&
      r.savedApps == PinnedApps(w) + [a] && r.savedApps == PinnedApps(r.slots) &&
      (!(m.Child? && MenuTag(st, m).pinned) ==> r.savedApps == PinnedApps(st.slots) + [a])
  {
    var w := MenuRest(st, m);
    var i := NewAppIndex(w, |w|, true);
    var x := Icon(MenuTag(st, m).(pinned := true));
    var rs := MenuPin(st, m).slots;
    assert rs == w[..i] + [x] + w[i..];
    assert Without(rs, i) == w by {
      WithoutAdded(Shelf(w, NoDrag, []), x, i);
    }
    assert PinnedApps(rs) == PinnedApps(w) + [x.data.appInfo] by {
      NoPinnedApps(w[i..]);
      PinnedAppsInsertLast(w, x, i);
    }
    if !(m.Child? && MenuTag(st, m).pinned) {
      MenuRestPinned(st, m);
    }
  }

  /** Pin keeps pinned-ordered children left of unpinned ones. */
  lemma MenuPinKeepsPartition(st: Shelf, m: MenuView)
    requires DragValid(st) && MenuViewValid(st, m)
    requires ScanSafe(MenuRest(st, m), |MenuRest(st, m)|, true)
    requires Partitioned(st.slots)
    ensures Partitioned(MenuPin(st, m).slots)
  {
    var w := MenuRest(st, m);
    var i := NewAppIndex(w, |w|, true);
    if m.Child? {
      PartitionedWithout(st.slots, m.index);
    }
    PartitionedInsert(w, Icon(MenuTag(st, m).(pinned := true)), i);
  }

  /** A Pin click on an icon that recreatePinnedAppButtons has meanwhile replaced puts the old
      view back as a second pinned icon, so its app is saved twice. */
  lemma MenuPinAfterRecreateDuplicates(st: Shelf, d: AppButtonData)
    requires DragValid(st) && d.appInfo in st.savedApps
    ensures ScanSafe(Recreated(st).slots, |Recreated(st).slots|, true)
    ensures var r := MenuPin(Recreated(st), Detached(d));
      r.savedApps == st.savedApps + [d.appInfo] && d.appInfo in r.savedApps[..|r.savedApps| - 1]
  {
    var rc := Recreated(st);
    ScanSafeWithoutPlaceholder(rc.slots, |rc.slots|, true);
    MenuPinEffect(rc, Detached(d));
    RecreatedPinned(st);
    var r := MenuPin(rc, Detached(d));
    assert r.savedApps[..|r.savedApps| - 1] == st.savedApps;
  }

  /** Unpin takes the icon off the shelf, puts it back at the end exactly when it has tasks, and
      the saved pinned list is that of the other children, as the shelf now shows it. */
  lemma MenuUnpinEffect(st: Shelf, m: MenuView)
    requires DragValid(st) && MenuViewValid(st, m)
    ensures var r := MenuUnpin(st, m); var w := MenuRest(st, m);
      var x := Icon(MenuTag(st, m).(pinned := false));
      (if MenuTag(st, m).tasks == [] then r.slots == w else r.slots == w + [x]) &&
      r.savedApps == PinnedApps(w) && r.savedApps == PinnedApps(r.slots)
  {
    var w := MenuRest(st, m);
    var x := Icon(MenuTag(st, m).(pinned := false));
    if MenuTag(st, m).tasks != [] {
      assert w[..|w|] + [x] + w[|w|..] == w + [x];
      PinnedAppsConcat(w, [x]);
      assert PinnedApps([x]) == PinnedApps([]) + [];
    }
  }

  /** Unpin on a pinned child that is the only pinned icon of its app takes the app out of the
      saved list. */
  lemma MenuUnpinRemovesApp(st: Shelf, m: MenuView)
    requires DragValid(st) && MenuViewValid(st, m)
    requires m.Child? && MenuTag(st, m).pinned
    requires forall j :: 0 <= j < |st.slots| && j != m.index && st.slots[j].Icon? ==>
      st.slots[j].data.appInfo != MenuTag(st, m).appInfo || !st.slots[j].data.pinned
    ensures MenuTag(st, m).appInfo !in MenuUnpin(st, m).savedApps
  {
    var w := MenuRest(st, m);
    MenuUnpinEffect(st, m);
    PinnedAppsMembers(w);
    forall j | 0 <= j < |w| && w[j].Icon? && w[j].data.pinned
      ensures w[j].data.appInfo != MenuTag(st, m).appInfo
    {
      var j' := if j < m.index then j else j + 1;
      assert w[j] == st.slots[j'];
    }
  }

  /** Unpin keeps pinned-ordered children left of unpinned ones: the icon comes back last. */
  lemma MenuUnpinKeepsPartition(st: Shelf, m: MenuView)
    requires DragValid(st) && MenuViewValid(st, m)
    requires Partitioned(st.slots)
    ensures Partitioned(MenuUnpin(st, m).slots)
  {
    var w := MenuRest(st, m);
    if m.Child? {
      PartitionedWithout(st.slots, m.index);
    }
    MenuUnpinEffect(st, m);
    if MenuTag(st, m).tasks != [] {
      var x := Icon(MenuTag(st, m).(pinned := false));
      PartitionedInsert(w, x, |w|);
      assert w[..|w|] + [x] + w[|w|..] == w + [x];
    }
  }

  // ---------------------------------------------------------------------------------------
  // Rebuilding from the saved list

  /** recreatePinnedAppButtons: every child is removed (the drag view, if a child, comes off the
      shelf) and one pinned icon without tasks is added per saved app. */
  function Recreated(st: Shelf): (r: Shelf)
    requires DragValid(st)
    ensures DragValid(r) && !r.drag.Attached? && r.savedApps == st.savedApps
    ensures r.slots == PinnedIcons(st.savedApps)
  {
    var drag := if st.drag.Attached? then Lifted(st.slots[st.drag.index]) else st.drag;
    Shelf(PinnedIcons(st.savedApps), drag, st.savedApps)
  }

  /** onPinnedAppsChanged: the shared model now holds `apps`. If the shelf already shows them
      nothing happens; otherwise it is rebuilt from them and the recent tasks merged in again. */
  function OnPinnedAppsChangedSpec(st: Shelf, apps: seq<AppInfo>, env: Env, recent: seq<Task>): (r: Shelf)
    requires DragValid(st)
    ensures DragValid(r) && r.savedApps == apps
  {
    var changed := st.(savedApps := apps);
    if PinnedApps(st.slots) == apps then changed
    else UpdateTasksSpec(Recreated(changed), recent, env)
  }

  /** Rebuilding gives back exactly the saved list as the pinned apps. */
  lemma RecreatedPinned(st: Shelf)
    requires DragValid(st)
    ensures PinnedApps(Recreated(st).slots) == st.savedApps
  {
    PinnedAppsOfPinnedIcons(st.savedApps);
  }

  /** After onPinnedAppsChanged the shelf's pinned apps are the model's, in the model's order,
      and the shelf is left alone when they already were. */
  lemma PinnedAppsChangedSyncs(st: Shelf, apps: seq<AppInfo>, env: Env, recent: seq<Task>)
    requires DragValid(st)
    ensures PinnedApps(OnPinnedAppsChangedSpec(st, apps, env, recent).slots) == apps
    ensures PinnedApps(st.slots) == apps ==> OnPinnedAppsChangedSpec(st, apps, env, recent) == st.(savedApps := apps)
  {
    if PinnedApps(st.slots) != apps {
      var rc := Recreated(st.(savedApps := apps));
      RecreatedPinned(st.(savedApps := apps));
      UpdateTasksReconciles(rc, recent, env);
      ReconciledKeepsPinned(rc.slots, recent, env);
    }
  }
}
