/** extension.js: the switcher session (a modal grab, a cursor over the
    candidate list, one terminal action) and the manager that keeps a stack of
    windows ordered by most recent focus and starts sessions from it. */
module Extension {
  import opened Windows
  import opened ListOps
  import opened Scope
  import opened Cursor

  /** The key symbols the session reacts to by themselves. */
  datatype KeySymbol = Escape | LowerQ | UpperQ | OtherKey(code: int)

  /** What the shell's key-binding table makes of a key press. The two
      backward actions stand for the enumeration members the key-press
      handler compares against, spelled `..._BACKWORD` there; the model
      takes it that the shell defines them, so they can arrive. */
  datatype KeyBindingAction =
    | SwitchGroup
    | SwitchWindows
    | SwitchGroupBackward
    | SwitchWindowsBackward
    | OtherAction

  predicate IsRemoveKey(key: KeySymbol)
  {
    key == LowerQ || key == UpperQ
  }

  predicate IsForward(action: KeyBindingAction)
  {
    action == SwitchGroup || action == SwitchWindows
  }

  predicate IsBackward(action: KeyBindingAction)
  {
    action == SwitchGroupBackward || action == SwitchWindowsBackward
  }

  /** None of the watched modifier bits is held. */
  predicate Released(mods: bv32, mask: bv32)
  {
    mods & mask == 0
  }

  /** One alt-tab session. The shell-side effects are recorded rather than
      performed: the actions handed in by the manager become entries of
      `actions`, Main.popModal a counter, Mainloop.source_remove a list of the
      ids it was given. */
  class Switcher {
    var list: seq<Window>
    var currentIndex: int
    var haveModal: bool
    var modifierMask: bv32
    var initialDelayTimeoutId: nat
    /** this.actor has not been destroyed yet. */
    var actorAlive: bool

    var actions: seq<WindowAction>
    var popModalCalls: nat
    var removedSources: seq<nat>

    /** show() obtained the grab (and connected the key handlers). */
    ghost var modalAcquired: bool

    /** The session invariant: the grab is held only by a live session whose
        cursor is on a candidate; it is released at most once, and only if it
        was obtained; at most one terminal action fires, and only as the
        session ends; the delay timer is cancelled at most once. */
    ghost predicate Valid()
      reads this
    {
      GrabConsistent() && |actions| <= 1 && (actions != [] ==> !actorAlive)
    }

    /** The part of Valid() that also holds in the middle of a terminal
        transition, after its action is recorded and before teardown. */
    ghost predicate GrabConsistent()
      reads this
    {
      && (haveModal ==> actorAlive && modalAcquired && popModalCalls == 0 && 0 <= currentIndex < |list|)
      && (modalAcquired && !haveModal ==> popModalCalls == 1)
      && (!modalAcquired ==> !haveModal && popModalCalls == 0 && actions == [] && initialDelayTimeoutId == 0 && removedSources == [])
      && (!actorAlive ==> !haveModal && list == [] && initialDelayTimeoutId == 0)
      && |removedSources| <= 1
      && (initialDelayTimeoutId != 0 ==> haveModal && removedSources == [])
    }

    /** The session has ended: grab released (if it was ever held), actor
        gone, list dropped, no timer pending. */
    ghost predicate TornDown()
      reads this
    {
      !haveModal && !actorAlive && list == [] && initialDelayTimeoutId == 0 &&
      popModalCalls == (if modalAcquired then 1 else 0)
    }

    constructor (list: seq<Window>)
      ensures Valid()
      ensures this.list == list && currentIndex == 0 && modifierMask == 0
      ensures actorAlive && !haveModal && !modalAcquired && initialDelayTimeoutId == 0
      ensures actions == [] && popModalCalls == 0 && removedSources == []
    {
      this.list := list;
      currentIndex := 0;
      haveModal := false;
      modifierMask := 0;
      initialDelayTimeoutId := 0;
      actorAlive := true;
      actions := [];
      popModalCalls := 0;
      removedSources := [];
      modalAcquired := false;
    }

    /** show(): take the grab, move the cursor once, and close the race in
        which the modifier was released before the grab: then the selection is
        activated at once and false is returned. `grabGranted` is what
        Main.pushModal answers, `primaryModifier` the mask to watch, `mods`
        the modifier state global.get_pointer reports, `timeoutId` the id
        Mainloop.timeout_add hands back. */
    method Show(grabGranted: bool, primaryModifier: bv32, mods: bv32, timeoutId: nat) returns (shown: bool)
      requires Valid() && actorAlive && !modalAcquired
      requires |list| > 0 && -1 <= currentIndex < |list|
      requires timeoutId > 0
      modifies this
      ensures Valid()
      ensures !grabGranted ==> !shown && unchanged(this)
      ensures grabGranted ==> modalAcquired && modifierMask == primaryModifier
      ensures grabGranted && Released(mods, primaryModifier) ==>
        && !shown && TornDown() && popModalCalls == 1
        && actions == [Activate(old(list)[NextIndex(old(currentIndex), |old(list)|)])]
        && removedSources == []
      ensures grabGranted && !Released(mods, primaryModifier) ==>
        && shown && haveModal && actorAlive
        && list == old(list) && currentIndex == NextIndex(old(currentIndex), |list|)
        && initialDelayTimeoutId == timeoutId
        && actions == [] && popModalCalls == 0 && removedSources == []
    {
      if !grabGranted {
        return false;
      }
      TakeGrab(primaryModifier);
      if (mods & modifierMask) == 0 {
        ActivateSelected();
        assert Released(mods, primaryModifier);
        return false;
      }
      assert !Released(mods, primaryModifier);
      initialDelayTimeoutId := timeoutId;
      return true;
    }

    /** The part of show() after a granted grab and before the race check:
        the grab is held, the mask recorded, the cursor advanced once. */
    method TakeGrab(primaryModifier: bv32)
      requires Valid() && actorAlive && !modalAcquired
      requires |list| > 0 && -1 <= currentIndex < |list|
      modifies this
      ensures Valid() && haveModal && modalAcquired && modifierMask == primaryModifier
      ensures currentIndex == NextIndex(old(currentIndex), |list|)
      ensures list == old(list) && actorAlive && initialDelayTimeoutId == 0
      ensures actions == [] && popModalCalls == 0 && removedSources == []
    {
      haveModal := true;
      modalAcquired := true;
      modifierMask := primaryModifier;
      Next();
    }

    /** The delay timer fired: the popup becomes visible (not modelled) and the
        timer is no longer pending. */
    method InitialDelayElapsed()
      requires Valid() && initialDelayTimeoutId != 0
      modifies this`initialDelayTimeoutId
      ensures Valid() && initialDelayTimeoutId == 0
    {
      initialDelayTimeoutId := 0;
    }

    /** _next: the cursor steps forward, wrapping round. */
    method Next()
      requires |list| > 0
      modifies this`currentIndex
      ensures currentIndex == NextIndex(old(currentIndex), |list|)
    {
      currentIndex := TruncatedRem(currentIndex + 1, |list|);
    }

    /** _previous: the cursor steps back, wrapping round. */
    method Previous()
      requires |list| > 0
      modifies this`currentIndex
      ensures currentIndex == PreviousIndex(old(currentIndex), |list|)
    {
      currentIndex := TruncatedRem(currentIndex + |list| - 1, |list|);
    }

    /** _keyPressEvent. Escape ends the session; q or Q asks the selected
        window to close and ends the session; the forward and backward switch
        bindings move the cursor; anything else is ignored. The key symbol is
        looked at before the binding. The event is always consumed. */
    method KeyPress(key: KeySymbol, action: KeyBindingAction, now: int) returns (handled: bool)
      requires Valid() && haveModal
      modifies this
      ensures Valid() && handled
      ensures modalAcquired == old(modalAcquired) && modifierMask == old(modifierMask)
      ensures key == Escape ==>
        && TornDown() && popModalCalls == 1 && actions == old(actions)
        && removedSources == old(removedSources) + (if old(initialDelayTimeoutId) != 0 then [old(initialDelayTimeoutId)] else [])
      ensures IsRemoveKey(key) ==>
        && TornDown() && popModalCalls == 1 && actions == old(actions) + [Delete(old(list)[old(currentIndex)], now)]
        && removedSources == old(removedSources) + (if old(initialDelayTimeoutId) != 0 then [old(initialDelayTimeoutId)] else [])
      ensures key != Escape && !IsRemoveKey(key) && IsForward(action) ==>
        && currentIndex == NextIndex(old(currentIndex), |old(list)|)
        && list == old(list) && haveModal && actorAlive && actions == old(actions)
        && initialDelayTimeoutId == old(initialDelayTimeoutId) && popModalCalls == 0
        && removedSources == old(removedSources)
      ensures key != Escape && !IsRemoveKey(key) && IsBackward(action) ==>
        && currentIndex == PreviousIndex(old(currentIndex), |old(list)|)
        && list == old(list) && haveModal && actorAlive && actions == old(actions)
        && initialDelayTimeoutId == old(initialDelayTimeoutId) && popModalCalls == 0
        && removedSources == old(removedSources)
      ensures key != Escape && !IsRemoveKey(key) && !IsForward(action) && !IsBackward(action) ==>
        unchanged(this)
    {
      if key == Escape {
        Destroy();
      } else if key == LowerQ || key == UpperQ {
        actions := actions + [Delete(list[currentIndex], now)];
        Destroy();
      } else if action == SwitchGroup || action == SwitchWindows {
        Next();
      } else if action == SwitchGroupBackward || action == SwitchWindowsBackward {
        Previous();
      }
      return true;
    }

    /** _keyReleaseEvent: once none of the watched modifier bits is held, the
        selection is activated and the session ends. */
    method KeyRelease(mods: bv32) returns (handled: bool)
      requires Valid() && haveModal
      modifies this
      ensures Valid() && handled
      ensures Released(mods, old(modifierMask)) ==>
        && TornDown() && popModalCalls == 1 && actions == old(actions) + [Activate(old(list)[old(currentIndex)])]
        && removedSources == old(removedSources) + (if old(initialDelayTimeoutId) != 0 then [old(initialDelayTimeoutId)] else [])
      ensures !Released(mods, old(modifierMask)) ==> unchanged(this)
    {
      var state := mods & modifierMask;
      if state == 0 {
        ActivateSelected();
      }
      return true;
    }

    /** _activateSelected: activate the window under the cursor, then end. */
    method ActivateSelected()
      requires Valid() && haveModal
      modifies this
      ensures Valid() && TornDown() && popModalCalls == 1
      ensures actions == old(actions) + [Activate(old(list)[old(currentIndex)])]
      ensures modalAcquired == old(modalAcquired) && modifierMask == old(modifierMask)
      ensures removedSources == old(removedSources) + (if old(initialDelayTimeoutId) != 0 then [old(initialDelayTimeoutId)] else [])
    {
      actions := actions + [Activate(list[currentIndex])];
      Destroy();
    }

    /** _onDestroy: release the grab if it is held, drop the list, and cancel
        a pending delay timer. Unlike the source, the timer id is cleared after
        the cancellation (see OnDestroyAsWritten), so that a second run does
        not cancel it again. */
    method OnDestroy()
      modifies this
      ensures !haveModal && list == [] && initialDelayTimeoutId == 0
      ensures popModalCalls == old(popModalCalls) + (if old(haveModal) then 1 else 0)
      ensures removedSources == old(removedSources) + (if old(initialDelayTimeoutId) != 0 then [old(initialDelayTimeoutId)] else [])
      ensures actions == old(actions) && actorAlive == old(actorAlive) && currentIndex == old(currentIndex)
      ensures modalAcquired == old(modalAcquired) && modifierMask == old(modifierMask)
      ensures old(!haveModal && list == [] && initialDelayTimeoutId == 0) ==> unchanged(this)
    {
      if haveModal {
        popModalCalls := popModalCalls + 1;
        haveModal := false;
      }
      list := [];
      if initialDelayTimeoutId != 0 {
        removedSources := removedSources + [initialDelayTimeoutId];
        initialDelayTimeoutId := 0;
      }
    }

    /** destroy(): run _onDestroy, then destroy the actor, whose 'destroy'
        signal runs _onDestroy once more; an actor already destroyed emits no
        second signal. Tearing down an ended session changes nothing. */
    method Destroy()
      requires GrabConsistent() && |actions| <= 1
      modifies this
      ensures Valid() && TornDown()
      ensures modalAcquired == old(modalAcquired) && modifierMask == old(modifierMask)
      ensures popModalCalls == old(popModalCalls) + (if old(haveModal) then 1 else 0)
      ensures removedSources == old(removedSources) + (if old(initialDelayTimeoutId) != 0 then [old(initialDelayTimeoutId)] else [])
      ensures actions == old(actions)
      ensures old(!actorAlive) ==> unchanged(this)
    {
      OnDestroy();
      if actorAlive {
        actorAlive := false;
        OnDestroy();
      }
    }

    /** _onDestroy exactly as the source has it: the timer id is never reset. */
    method OnDestroyAsWritten()
      modifies this
      ensures !haveModal && list == [] && initialDelayTimeoutId == old(initialDelayTimeoutId)
      ensures popModalCalls == old(popModalCalls) + (if old(haveModal) then 1 else 0)
      ensures removedSources == old(removedSources) + (if old(initialDelayTimeoutId) != 0 then [old(initialDelayTimeoutId)] else [])
      ensures actions == old(actions) && actorAlive == old(actorAlive)
    {
      if haveModal {
        popModalCalls := popModalCalls + 1;
        haveModal := false;
      }
      list := [];
      if initialDelayTimeoutId != 0 {
        removedSources := removedSources + [initialDelayTimeoutId];
      }
    }

    /** destroy() over the source's _onDestroy: a pending timer's id is handed
        to Mainloop.source_remove twice. */
    method DestroyAsWritten()
      requires Valid()
      modifies this
      ensures !haveModal && !actorAlive && list == []
      ensures popModalCalls == old(popModalCalls) + (if old(haveModal) then 1 else 0)
      ensures old(actorAlive) && old(initialDelayTimeoutId) != 0 ==>
        removedSources == old(removedSources) + [old(initialDelayTimeoutId), old(initialDelayTimeoutId)]
    {
      OnDestroyAsWritten();
      if actorAlive {
        actorAlive := false;
        OnDestroyAsWritten();
      }
    }
  }

  /** A fast alt-tab with the source's teardown: the session is shown while
      the modifier is held, so the delay timer (id 1) is pending, and it ends
      before the timer fires. The timer's id is removed twice. */
  method PendingTimerRemovedTwiceAsWritten(w: Window) returns (removed: seq<nat>)
    ensures removed == [1, 1]
  {
    var s := new Switcher([w]);
    s.currentIndex := -1;
    var shown := s.Show(true, 8, 8, 1);
    s.DestroyAsWritten();
    removed := s.removedSources;
  }

  /** The same session with the corrected teardown removes the timer once,
      and a further destroy() removes nothing more. */
  method PendingTimerRemovedOnce(w: Window) returns (removed: seq<nat>)
    ensures removed == [1]
  {
    var s := new Switcher([w]);
    s.currentIndex := -1;
    var shown := s.Show(true, 8, 8, 1);
    s.Destroy();
    s.Destroy();
    removed := s.removedSources;
  }

  /** A session over [a, b, c] with nothing focused: show() selects a, three
      forward presses come back to a, releasing the modifier activates a, and
      the grab is released once. destroy() runs twice in all, once inside the
      release's activation and once after it, so _onDestroy runs three times. */
  method CycleThroughThree(a: Window, b: Window, c: Window) returns (activated: seq<WindowAction>, pops: nat)
    ensures activated == [Activate(a)] && pops == 1
  {
    var s := new Switcher([a, b, c]);
    s.currentIndex := -1;
    var shown := s.Show(true, 8, 8, 1);
    assert s.currentIndex == 0;
    var h := s.KeyPress(OtherKey(9), SwitchWindows, 0);
    h := s.KeyPress(OtherKey(9), SwitchWindows, 0);
    h := s.KeyPress(OtherKey(9), SwitchWindows, 0);
    assert s.currentIndex == 0;
    h := s.KeyRelease(0);
    s.Destroy();
    activated := s.actions;
    pops := s.popModalCalls;
  }

  /** The common path over [a, b] with nothing focused: show() selects a
      while the modifier is held, a forward press selects b, releasing the
      switch key with the modifier still held keeps the session, and
      releasing the modifier activates b and cancels the pending timer. */
  method TapWhileHeld(a: Window, b: Window) returns (aliveAfterTap: bool, activated: seq<WindowAction>, removed: seq<nat>)
    ensures aliveAfterTap && activated == [Activate(b)] && removed == [1]
  {
    var s := new Switcher([a, b]);
    s.currentIndex := -1;
    var shown := s.Show(true, 8, 8, 1);
    var h := s.KeyPress(OtherKey(9), SwitchWindows, 0);
    h := s.KeyRelease(8);
    aliveAfterTap := s.haveModal;
    h := s.KeyRelease(0);
    activated := s.actions;
    removed := s.removedSources;
  }

  // ---------------------------------------------------------------------
  // The most-recently-used stack

  /** _windowAdded: a new window goes in second place, behind the focused
      one; a window already on the stack stays where it is. */
  function Added(s: seq<Window>, w: Window): seq<Window>
  {
    if w in s then s else InsertAt(s, 1, w)
  }

  /** _focusChanged's update: the focused window moves (or is pushed) to the
      front. */
  function Raised(s: seq<Window>, w: Window): seq<Window>
  {
    [w] + RemoveFirst(s, w)
  }

  /** The stack _focusChanged starts from: a cold rebuild from every window,
      oldest first, when the stack is empty. */
  function FocusBase(s: seq<Window>, actors: seq<WindowActor>, host: Host): seq<Window>
  {
    if |s| == 0 then Sort(MetaWindows(actors), host, Ascending) else s
  }

  /** The list a session of the given binding is offered: the whole stack for
      switch_windows, otherwise the windows of the active workspace that are
      on the taskbar. */
  function SessionList(windows: seq<Window>, binding: string, activeWorkspace: int, host: Host): seq<Window>
  {
    if binding == "switch_windows" then windows else Filter(windows, host, SameWorkspace(activeWorkspace))
  }

  /** _windowAdded keeps every window already on the stack, in order, and the
      top of the stack; it adds w once, in second place, if it was missing; it
      never introduces a duplicate. */
  lemma AddedProperties(s: seq<Window>, w: Window)
    ensures w in Added(s, w)
    ensures multiset(Added(s, w)) == if w in s then multiset(s) else multiset(s) + multiset{w}
    ensures IsSubsequence(s, Added(s, w))
    ensures |s| > 0 ==> Added(s, w)[0] == s[0]
    ensures w !in s ==> Added(s, w)[if |s| == 0 then 0 else 1] == w
    ensures NoDuplicates(s) ==> NoDuplicates(Added(s, w))
  {
    if w in s {
      SubsequenceReflexive(s);
    } else {
      AddedFresh(s, w);
    }
  }

  lemma AddedFresh(s: seq<Window>, w: Window)
    requires w !in s
    ensures Added(s, w) == s[..if |s| == 0 then 0 else 1] + [w] + s[if |s| == 0 then 0 else 1..]
    ensures multiset(Added(s, w)) == multiset(s) + multiset{w}
    ensures IsSubsequence(s, Added(s, w))
    ensures NoDuplicates(s) ==> NoDuplicates(Added(s, w))
  {
    var k := if |s| == 0 then 0 else 1;
    InsertedMultiset(s, k, w);
    InsertedIsSuperSequence(s, k, w);
    if NoDuplicates(s) {
      InsertFreshKeepsDistinct(s, k, w);
    }
  }

  lemma InsertedMultiset<T>(s: seq<T>, k: nat, w: T)
    requires k <= |s|
    ensures multiset(s[..k] + [w] + s[k..]) == multiset(s) + multiset{w}
  {
    assert s == s[..k] + s[k..];
  }

  lemma InsertedIsSuperSequence(s: seq<Window>, k: nat, w: Window)
    requires k <= |s|
    ensures IsSubsequence(s, s[..k] + [w] + s[k..])
  {
    SkipOneIsSuperSequence(s[..k], s[k..], w);
    assert s[..k] + s[k..] == s;
  }

  lemma InsertFreshKeepsDistinct(s: seq<Window>, k: nat, w: Window)
    requires k <= |s| && w !in s && NoDuplicates(s)
    ensures NoDuplicates(s[..k] + [w] + s[k..])
  {
    var r := s[..k] + [w] + s[k..];
    forall i, j | 0 <= i < j < |r| ensures r[i] != r[j] {
      if i != k && j != k {
        var i', j' := if i < k then i else i - 1, if j < k then j else j - 1;
        assert r[i] == s[i'] && r[j] == s[j'];
      } else if i == k {
        assert r[j] == s[j - 1];
      } else {
        assert r[i] == s[i];
      }
    }
  }

  lemma {:induction false} SkipOneIsSuperSequence(a: seq<Window>, b: seq<Window>, w: Window)
    ensures IsSubsequence(a + b, a + [w] + b)
  {
    if a == [] {
      assert a + b == b && a + [w] + b == [w] + b;
      SubsequenceReflexive(b);
      if b != [] {
        assert ([w] + b)[1..] == b;
      }
    } else {
      SkipOneIsSuperSequence(a[1..], b, w);
      assert (a + b)[1..] == a[1..] + b;
      assert (a + [w] + b)[1..] == a[1..] + [w] + b;
    }
  }

  /** _windowRemoved takes out the first copy of w and nothing else, keeping
      the rest in order; on a stack without duplicates w is then gone. */
  lemma RemovedProperties(s: seq<Window>, w: Window)
    ensures multiset(RemoveFirst(s, w)) == multiset(s) - multiset{w}
    ensures IsSubsequence(RemoveFirst(s, w), s)
    ensures w !in s ==> RemoveFirst(s, w) == s
    ensures NoDuplicates(s) ==> NoDuplicates(RemoveFirst(s, w)) && w !in RemoveFirst(s, w)
  {
    RemoveFirstMultiset(s, w);
    RemoveFirstIsSubsequence(s, w);
    if NoDuplicates(s) {
      SubsequenceNoDuplicates(RemoveFirst(s, w), s);
      NoDuplicatesCount(s, w);
      assert w !in multiset(RemoveFirst(s, w));
    }
  }

  /** Raising w puts it on top; the windows below are the old stack without
      its first w, in their old order; w appears exactly once afterwards if it
      appeared at most once before; a stack without duplicates keeps none. */
  lemma RaisedProperties(s: seq<Window>, w: Window)
    ensures Raised(s, w)[0] == w
    ensures IsSubsequence(Raised(s, w)[1..], s)
    ensures multiset(Raised(s, w)) == (multiset(s) - multiset{w}) + multiset{w}
    ensures multiset(s)[w] <= 1 ==> multiset(Raised(s, w))[w] == 1
    ensures NoDuplicates(s) ==> NoDuplicates(Raised(s, w))
  {
    var rest := RemoveFirst(s, w);
    assert Raised(s, w)[1..] == rest;
    RemovedProperties(s, w);
    assert multiset(Raised(s, w)) == multiset{w} + multiset(rest);
    if NoDuplicates(s) {
      forall i, j | 0 <= i < j < |Raised(s, w)| ensures Raised(s, w)[i] != Raised(s, w)[j] {
        if i == 0 {
          assert Raised(s, w)[j] == rest[j - 1];
        } else {
          assert Raised(s, w)[i] == rest[i - 1] && Raised(s, w)[j] == rest[j - 1];
        }
      }
    }
  }

  /** The cold rebuild holds every enumerated window once per actor, oldest
      first. */
  lemma ColdRebuildProperties(actors: seq<WindowActor>, host: Host)
    ensures multiset(FocusBase([], actors, host)) == multiset(MetaWindows(actors))
    ensures SortedBy(FocusBase([], actors, host), host, Ascending)
  {
  }

  /** After a focus change to w, w is on top of the stack and the windows
      below it are the (possibly rebuilt) stack without its first w, in
      order; with nothing focused the (possibly rebuilt) stack is left as it
      is. */
  lemma FocusChangeProperties(s: seq<Window>, actors: seq<WindowActor>, host: Host, w: Window)
    ensures var r := Raised(FocusBase(s, actors, host), w);
      r[0] == w && r[1..] == RemoveFirst(FocusBase(s, actors, host), w) &&
      IsSubsequence(r[1..], FocusBase(s, actors, host))
  {
    RaisedProperties(FocusBase(s, actors, host), w);
  }

  /** For switch_windows the session gets the whole stack; for any other
      binding exactly the stack's windows that are on the active workspace
      and on the taskbar, in stack order. */
  lemma SessionListProperties(windows: seq<Window>, binding: string, activeWorkspace: int, host: Host, w: Window)
    ensures binding == "switch_windows" ==> SessionList(windows, binding, activeWorkspace, host) == windows
    ensures binding != "switch_windows" ==>
      (w in SessionList(windows, binding, activeWorkspace, host) <==>
        w in windows && host(w).workspace == activeWorkspace && !host(w).skipTaskbar)
    ensures IsSubsequence(SessionList(windows, binding, activeWorkspace, host), windows)
  {
    if binding == "switch_windows" {
      SubsequenceReflexive(windows);
    } else {
      FilterMembers(windows, host, SameWorkspace(activeWorkspace), w);
      FilterIsSubsequence(windows, host, SameWorkspace(activeWorkspace));
    }
  }

  /** An example: an empty stack, windows X, Y, Z
      (oldest first by user time, enumerated in another order), focus moves
      to Y; the rebuilt stack is [X, Y, Z] and the result [Y, X, Z]. */
  lemma FocusChangeExample(x: Window, y: Window, z: Window, host: Host)
    requires x != y && y != z && x != z
    requires host(x).userTime < host(y).userTime < host(z).userTime
    ensures FocusBase([], [WindowActor(z), WindowActor(x), WindowActor(y)], host) == [x, y, z]
    ensures Raised(FocusBase([], [WindowActor(z), WindowActor(x), WindowActor(y)], host), y) == [y, x, z]
  {
    EnumerationExample(x, y, z);
    RebuildExample(x, y, z, host);
    RaiseExample(x, y, z);
  }

  lemma EnumerationExample(x: Window, y: Window, z: Window)
    ensures MetaWindows([WindowActor(z), WindowActor(x), WindowActor(y)]) == [z, x, y]
  {
  }

  lemma RaiseExample(x: Window, y: Window, z: Window)
    requires x != y
    ensures Raised([x, y, z], y) == [y, x, z]
  {
    assert [x, y, z][1..] == [y, z];
    assert RemoveFirst([x, y, z], y) == [x] + RemoveFirst([y, z], y) == [x, z];
  }

  lemma RebuildExample(x: Window, y: Window, z: Window, host: Host)
    requires host(x).userTime < host(y).userTime < host(z).userTime
    ensures Sort([z, x, y], host, Ascending) == [x, y, z]
  {
    assert [z, x, y][1..] == [x, y];
    SortTwoExample(x, y, host);
    InsertLastExample(x, y, z, host);
  }

  lemma SortTwoExample(x: Window, y: Window, host: Host)
    requires host(x).userTime < host(y).userTime
    ensures Sort([x, y], host, Ascending) == [x, y]
  {
    assert [x, y][1..] == [y];
    assert [y][1..] == [];
    assert Sort([y], host, Ascending) == Insert(y, [], host, Ascending) == [y];
  }

  lemma InsertLastExample(x: Window, y: Window, z: Window, host: Host)
    requires host(x).userTime < host(y).userTime < host(z).userTime
    ensures Insert(z, [x, y], host, Ascending) == [x, y, z]
  {
    assert [x, y][1..] == [y] && [y][1..] == [];
    assert Insert(z, [y], host, Ascending) == [y] + Insert(z, [], host, Ascending);
  }

  /** The stack of windows ordered by most recent focus. */
  class Manager {
    var windows: seq<Window>

    constructor ()
      ensures windows == []
    {
      windows := [];
    }

    /** _windowAdded. */
    method WindowAdded(w: Window)
      modifies this
      ensures windows == Added(old(windows), w)
    {
      if IndexOf(windows, w) == -1 {
        windows := InsertAt(windows, 1, w);
      }
    }

    /** _windowRemoved. */
    method WindowRemoved(w: Window)
      modifies this
      ensures windows == RemoveFirst(old(windows), w)
    {
      SpliceAtIndexOf(windows, w);
      var windowIndex := IndexOf(windows, w);
      if windowIndex != -1 {
        windows := windows[..windowIndex] + windows[windowIndex + 1..];
      }
    }

    /** _initWindowList: every actor's window, in enumeration order, then
        sorted by user time, oldest first. */
    method InitWindowList(actors: seq<WindowActor>, host: Host)
      modifies this
      ensures windows == Sort(MetaWindows(actors), host, Ascending)
      ensures multiset(windows) == multiset(MetaWindows(actors))
      ensures SortedBy(windows, host, Ascending)
    {
      windows := [];
      var i := 0;
      while i < |actors|
        invariant 0 <= i <= |actors|
        invariant |windows| == i
        invariant forall k :: 0 <= k < i ==> windows[k] == actors[k].metaWindow
      {
        windows := windows + [actors[i].metaWindow];
        i := i + 1;
      }
      assert windows == MetaWindows(actors);
      windows := Sort(windows, host, Ascending);
    }

    /** _focusChanged: rebuild an empty stack, then raise the focused window
        (if any). Taking the window out is the same indexOf and splice as in
        _windowRemoved. `actors` and `focus` are what the shell reports at the time. */
    method FocusChanged(actors: seq<WindowActor>, host: Host, focus: Option<Window>)
      modifies this
      ensures focus.None? ==> windows == FocusBase(old(windows), actors, host)
      ensures focus.Some? ==> windows == Raised(FocusBase(old(windows), actors, host), focus.value)
    {
      ghost var base := FocusBase(windows, actors, host);
      if |windows| == 0 {
        InitWindowList(actors, host);
      }
      assert windows == base;
      if focus.Some? {
        var focusedWindow := focus.value;
        WindowRemoved(focusedWindow);
        windows := [focusedWindow] + windows;
      }
    }

    /** _startWindowSwitcher: pick the session list for the binding; with an
        empty list nothing happens; otherwise a switcher starts with its
        cursor at -1 when nothing has focus and at 0 otherwise, and is
        destroyed at once when show() answers false. The session gets a copy
        of the stack. The remaining parameters are passed on to show(). */
    method StartWindowSwitcher(binding: string, focus: Option<Window>, activeWorkspace: int, host: Host,
                               grabGranted: bool, primaryModifier: bv32, mods: bv32, timeoutId: nat)
      returns (switcher: Switcher?, shown: bool)
      requires timeoutId > 0
      ensures var list := SessionList(windows, binding, activeWorkspace, host);
        && (switcher == null <==> list == [])
        && (switcher == null ==> !shown)
        && (switcher != null ==>
          var first := NextIndex(if focus.None? then -1 else 0, |list|);
          && fresh(switcher) && switcher.Valid()
          && switcher.modalAcquired == grabGranted
          && (grabGranted ==> switcher.modifierMask == primaryModifier)
          && (shown ==>
            && switcher.haveModal && switcher.actorAlive
            && switcher.list == list && switcher.currentIndex == first
            && switcher.initialDelayTimeoutId == timeoutId
            && switcher.actions == [] && switcher.popModalCalls == 0 && switcher.removedSources == [])
          && (!shown ==> switcher.TornDown() && switcher.removedSources == [])
          && (!grabGranted ==> !shown && switcher.actions == [] && switcher.popModalCalls == 0)
          && (grabGranted && Released(mods, primaryModifier) ==>
            !shown && switcher.actions == [Activate(list[first])] && switcher.popModalCalls == 1)
          && (grabGranted && !Released(mods, primaryModifier) ==> shown))
    {
      var list := SessionList(windows, binding, activeWorkspace, host);
      var currentIndex := 0;
      if focus.None? {
        currentIndex := -1;
      }
      switcher := null;
      shown := false;
      if |list| > 0 {
        switcher := new Switcher(list);
        switcher.currentIndex := currentIndex;
        shown := switcher.Show(grabGranted, primaryModifier, mods, timeoutId);
        if !shown {
          switcher.Destroy();
        }
      }
    }
  }

  /** The main path from the entry point: with [a, b] on the stack and a
      focused, a switch_windows session is started with the modifier held; it
      selects b and keeps the delay timer pending. Releasing another key with
      the modifier still held keeps the session, and releasing the modifier
      activates b and cancels the timer. */
  method LaunchAndTapWhileHeld(a: Window, b: Window, host: Host)
    returns (aliveAfterTap: bool, activated: seq<WindowAction>, removed: seq<nat>)
    ensures aliveAfterTap && activated == [Activate(b)] && removed == [1]
  {
    var m := new Manager();
    m.windows := [a, b];
    var s, shown := m.StartWindowSwitcher("switch_windows", Some(a), 0, host, true, 8, 8, 1);
    var h := s.KeyRelease(8);
    aliveAfterTap := s.haveModal;
    h := s.KeyRelease(0);
    activated := s.actions;
    removed := s.removedSources;
  }
}
