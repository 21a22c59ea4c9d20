# Coverflow alt-tab switcher: a Dafny model of its switching logic

This project models the sequential core of an alt-tab replacement for a
desktop shell. There are three parts.

- **The switch session** (`Switcher` in extension.js). This is one modal
  session over a list of candidate windows. It has a cursor, a modifier mask
  that must stay held, and a delay timer. It takes a keyboard grab, moves the
  cursor, and ends with at most one terminal action: activate the selected
  window, or ask it to close. Then it releases the grab and drops its state.
- **The most-recently-used stack** (`Manager` in extension.js). This is a
  list of windows, most recently focused first. The focus-app notification
  (extension.js:204) raises the focused window, rebuilding the list first
  when it is empty. The source also has handlers that add and remove a
  window (extension.js:209-220), but nothing in it connects them; the model
  gives them as operations all the same. A session is started from this
  list, filtered by the key binding's scope.
- **The per-invocation catalog** (`_startWindowSwitcher` in manager.js). It
  enumerates every window and sorts them newest first by user time. It
  applies one of three scope filters: same workspace, same application
  class, or anything on the taskbar. It starts a session only when something
  is left.

Files:

- `windows.dfy`, module `Windows`:
  - Windows are an opaque identity type. The attributes the shell reports
    about them come from a `Host` function.
  - The two user-time comparators.
  - One concrete sort, and the proof that every sorted permutation lists the
    same user times in the same order.
- `listops.dfy`, module `ListOps`:
  - `indexOf` and the two `splice` forms the code uses.
  - Being a subsequence, and having no duplicates.
- `scope.dfy`, module `Scope`: the filter callbacks and `Array.filter`.
- `cursor.dfy`, module `Cursor`: JavaScript's truncating `%`, and the
  cursor's forward and backward steps.
- `extension.dfy`, module `Extension`: the `Switcher` and `Manager` classes
  and the recency-stack functions and lemmas.
- `manager.dfy`, module `Manager`: the enumeration loop, the catalog, the
  scope filters and the session start of manager.js.

Host calls are inputs or recorded outputs:

- `Main.pushModal` is the `grabGranted` parameter.
- The modifier state from `global.get_pointer` is a `bv32` parameter.
- `AltTab.primaryModifier(mask)` is taken as the given mask.
- The id from `Mainloop.timeout_add` is a positive parameter.
- The clock of `global.get_current_time` is the `now` parameter.
- `Main.popModal` is the counter `popModalCalls`.
- `Mainloop.source_remove` is the list `removedSources`.
- The `activate_selected` and `remove_selected` callbacks append to the action
  log `actions`.

Points where the model's choices need saying:

- The comparators never answer 0, so the order of windows with equal user
  time is left to the engine's sort. The model sorts one definite way.
  `Windows.SortedPermutationsAgreeOnTimes` shows that any sorted arrangement
  lists the same user times in the same order.
- The cold rebuild of the recency stack (extension.js:234-238) sorts oldest
  first. The catalog of manager.js (manager.js:48-55) sorts newest first.
  Both are modelled as written.
- Teardown is the one place where the model corrects the code. The
  source's `destroy()` cancels a pending delay timer twice (see Findings).
  `Extension.Switcher.OnDestroy` and `Extension.Switcher.Destroy` are the
  corrected teardown, which clears the timer id after cancelling it; every
  other member calls them. `Extension.Switcher.OnDestroyAsWritten` and
  `Extension.Switcher.DestroyAsWritten` keep the source's teardown. The
  corrected `Destroy` of an ended session changes nothing.

## Model

| member | source | states |
|---|---|---|
| Windows.MetaWindows | manager.js:42-46 | The window of each actor, in enumeration order. The source builds this with the `get_meta_window` push loops, here and at extension.js:227-231; `Manager.CollectWindows` and `Extension.Manager.InitWindowList` are proved to produce it. |
| Windows.Compare | manager.js:49-54 | The two sort callbacks: ascending (extension.js:236) answers 1 when the first window's user time is greater, descending answers 1 when the second's is greater, and both answer -1 otherwise, never 0. `CompareRespectsOrder` states what this means for the order. |
| Windows.CompareRespectsOrder | extension.js:235-237 | The comparators never answer 0. A negative answer keeps the pair in user-time order; a positive one means the second must go first. |
| Windows.Sort | manager.js:48-55 | The sorted list is a permutation of the input, ordered by user time in the chosen direction. |
| Windows.SortedPermutationsAgreeOnTimes | manager.js:48-55 | Any two sorted permutations of the same windows list the same user times in the same order. So the unspecified tie order does not change the result's shape. |
| ListOps.IndexOf | extension.js:210 | The result is -1 exactly when the window is absent. Otherwise it is the position of its first occurrence. |
| ListOps.RemoveFirst | extension.js:216-219 | The list without its first occurrence of the window, the rest in order; the list itself when the window is absent. `SpliceAtIndexOf` proves the source's `splice(indexOf(w), 1)` equal to it; `RemoveFirstMultiset` and `RemoveFirstIsSubsequence` state its properties. |
| ListOps.InsertAt | extension.js:211 | `splice(i, 0, x)`: x inserted before position i, or appended when i is past the end, so the list grows by exactly one. |
| ListOps.SpliceAtIndexOf | extension.js:215-220 | Splicing out the element at `indexOf` removes exactly the first occurrence. With no occurrence the list is unchanged. |
| ListOps.RemoveFirstMultiset | extension.js:215-220 | Removing the first occurrence takes one copy of the window out and nothing else. |
| ListOps.RemoveFirstIsSubsequence | extension.js:215-220 | What remains keeps its order. |
| ListOps.SubsequenceNoDuplicates | extension.js:209-220 | A subsequence of a duplicate-free list is duplicate-free. |
| ListOps.NoDuplicatesCount | extension.js:249-267 | In a duplicate-free list a window occurs once if at all. |
| Scope.Keeps | manager.js:57-80 | The filter callbacks: a window is admitted when it is on the taskbar and, for the workspace scope (extension.js:281, manager.js:61), on the given workspace, or, for the class scope (manager.js:71), of the given class; the taskbar scope (manager.js:77) asks nothing more. |
| Scope.Filter | extension.js:279-283 | `Array.filter` with a `Keeps` callback, in list order. `FilterCounts`, `FilterMembers` and `FilterIsSubsequence` state what it keeps and that it never reorders. |
| Scope.FilterCounts | manager.js:57-80 | A filter keeps every copy of an admitted window and no copy of any other window. |
| Scope.FilterMembers | extension.js:279-283 | A window is kept exactly when it is in the list and the scope admits it. |
| Scope.FilterIsSubsequence | manager.js:57-80 | A filtered list is a subsequence of its input. |
| Scope.FilterKeepsSorted | manager.js:57-80 | Filtering a sorted list leaves it sorted. |
| Scope.SubsequenceKeepsSorted | manager.js:57-80 | A subsequence of a sorted list is sorted. |
| Cursor.TruncatedRem | extension.js:126 | JavaScript's `%` takes the sign of the dividend and stays below the divisor in size. Within one lap it is the identity or a single subtraction. |
| Cursor.NextIndex | extension.js:125-128 | From any index in [-1, N) the step lands in [0, N). It moves to i+1 and wraps from N-1 to 0; the sentinel -1 goes to 0. |
| Cursor.PreviousIndex | extension.js:130-133 | From [0, N) the step lands in [0, N). It moves to i-1 and wraps from 0 to N-1. |
| Cursor.StepsAreInverse | extension.js:125-133 | A backward step undoes a forward step, and the other way round. |
| Cursor.AdvanceWithinLap | extension.js:125-128 | k forward steps with k <= N land at i+k, or at i+k-N once past the end. |
| Cursor.RetreatWithinLap | extension.js:130-133 | k backward steps with k <= N land at i-k, or at i-k+N once past the start. |
| Cursor.FullCycle | extension.js:125-133 | N steps in either direction return to the start. |
| Extension.Released | extension.js:103-106 | A release of the watched modifiers: no bit of the pointer's modifier state is in the mask. It is the test of show() (extension.js:104) and of the key-release handler (extension.js:159-161). |
| Extension.Switcher.Valid | extension.js:21-190 | The session invariant every public method keeps: a held grab means a live session with its cursor on the list and no release yet; a grab taken and let go was released exactly once; a session never granted the grab has logged, released and cancelled nothing; an ended session holds no list, grab or timer; a pending timer means the grab is held and nothing has been cancelled yet; at most one timer cancellation and at most one terminal action, and none while the session is live. |
| Extension.Switcher.constructor | extension.js:21-42 | A new session is live, holds no grab and no timer, has its cursor at 0 and has logged nothing. It satisfies the session invariant. |
| Extension.Switcher.Show | extension.js:76-123 | Three outcomes. If the grab is refused: false, nothing changed. If the modifier is already up: the cursor advances once, the new selection is activated, the grab is released once, and the result is false. Otherwise: true, grab held, cursor advanced once, timer pending. |
| Extension.Switcher.TakeGrab | extension.js:80-96 | After a granted grab: the grab is held, the mask recorded and the cursor advanced exactly once. Nothing is logged or released, and no timer is pending. |
| Extension.Switcher.InitialDelayElapsed | extension.js:115-118 | When the delay timer fires it is no longer pending, and the invariant holds. |
| Extension.Switcher.Next | extension.js:125-128 | The cursor becomes `NextIndex` of its old value. |
| Extension.Switcher.Previous | extension.js:130-133 | The cursor becomes `PreviousIndex` of its old value. |
| Extension.Switcher.KeyPress | extension.js:135-155 | Escape tears down with no action. q or Q logs one close request, for the selected window with the event time, then tears down; both cancel a pending timer once. Switch bindings step forward and backward bindings step back; nothing else changes, and the grab, mask and timer stay as they were. Any other key changes nothing. The result is always true. The backward branch rests on an assumption about the shell's enumeration, stated under Left out. |
| Extension.Switcher.KeyRelease | extension.js:157-166 | With every watched modifier bit up, the selected window is activated once, a pending timer cancelled once and the session torn down. Otherwise nothing changes. The result is always true. |
| Extension.Switcher.ActivateSelected | extension.js:168-171 | Logs one activation of the selected window, then tears down. The grab is released once and a pending timer is cancelled once. |
| Extension.Switcher.OnDestroy | extension.js:173-185 | Releases a held grab exactly once, drops the list and cancels a pending timer once. Run on a session that holds nothing, it changes nothing. |
| Extension.Switcher.Destroy | extension.js:187-190 | Runs the teardown and then the actor's destroy signal (extension.js:31). The session ends torn down. The grab is released once if it was ever taken, and never otherwise. A pending timer is cancelled once. On an ended session it changes nothing. |
| Extension.Switcher.OnDestroyAsWritten | extension.js:173-185 | The source's teardown: the timer id is cancelled but left in place. |
| Extension.Switcher.DestroyAsWritten | extension.js:187-190 | With the source's teardown, a live session with a pending timer hands the timer's id to `source_remove` twice. |
| Extension.PendingTimerRemovedTwiceAsWritten | extension.js:182-184 | A session shown while the modifier is held, then destroyed with the source's teardown, removes timer 1 twice. |
| Extension.PendingTimerRemovedOnce | extension.js:182-184 | The same session with the corrected teardown removes timer 1 once, even when destroyed twice. |
| Extension.CycleThroughThree | extension.js:93-166 | Over [a, b, c] from the sentinel: show selects a. Three forward presses return to a. Releasing the modifier activates a, once. The grab is released once although `_onDestroy` runs three times in all: twice inside the release's destroy(), once in a further destroy(). |
| Extension.TapWhileHeld | extension.js:76-171 | Over [a, b] from the sentinel: show selects a, a forward press selects b, a release with the modifier still held keeps the session, and releasing the modifier activates b and cancels timer 1 once. |
| Extension.Added | extension.js:209-213 | The stack after `_windowAdded`: unchanged when the window is present, otherwise the window inserted in second place. `AddedProperties` and `AddedFresh` state its properties. |
| Extension.AddedProperties | extension.js:209-213 | After adding w, w is present, and the old stack is a subsequence of the new one with the same top. A missing w is added once, in second place (first on an empty stack). A present w changes nothing. No duplicate appears. |
| Extension.AddedFresh | extension.js:209-213 | Adding a missing w is an insertion at position min(1, length): one more copy of w and nothing else. |
| Extension.RemovedProperties | extension.js:215-220 | Removal takes out one copy of w and keeps the rest in order. An absent w is a no-op. On a duplicate-free stack w is gone afterwards. |
| Extension.Raised | extension.js:257-265 | The stack after raising w: w on top of the old stack without its first w. `RaisedProperties` states its properties. |
| Extension.FocusBase | extension.js:250-252 | The stack _focusChanged starts from: the cold rebuild, oldest first, when the stack is empty, and the stack itself otherwise. `ColdRebuildProperties` states what the rebuild holds. |
| Extension.RaisedProperties | extension.js:257-266 | After raising w, w is on top and the rest is the old stack minus its first w, in order. If w occurred at most once, it occurs exactly once. No duplicate appears. |
| Extension.ColdRebuildProperties | extension.js:222-239 | Rebuilding an empty stack yields every enumerated window, oldest first. |
| Extension.FocusChangeProperties | extension.js:249-267 | After the focus moves to w, w is on top of the (possibly rebuilt) stack. The windows below keep their relative order. |
| Extension.SessionList | extension.js:276-284 | A session's list: the whole stack for `switch_windows`, the workspace-and-taskbar filter of it otherwise. `SessionListProperties` states both cases. |
| Extension.SessionListProperties | extension.js:269-284 | `switch_windows` gets the whole stack. Any other binding gets exactly the stack's windows on the active workspace and on the taskbar, in stack order. |
| Extension.FocusChangeExample | extension.js:222-267 | Windows X, Y, Z enumerated as Z, X, Y with increasing user times, and an empty stack. The rebuild gives [X, Y, Z]; focusing Y gives [Y, X, Z]. |
| Extension.Manager.constructor | extension.js:202-207 | The stack starts empty. |
| Extension.Manager.WindowAdded | extension.js:209-213 | The stack becomes `Added` of the old stack (see AddedProperties). |
| Extension.Manager.WindowRemoved | extension.js:215-220 | The stack becomes the old stack without its first w (see RemovedProperties). |
| Extension.Manager.InitWindowList | extension.js:222-239 | The enumeration loop and the sort. The stack becomes a permutation of the enumerated windows, oldest first. |
| Extension.Manager.FocusChanged | extension.js:249-267 | An empty stack is rebuilt first. A focused window is then raised to the top. With no focus the rebuilt stack is left as it is. |
| Extension.Manager.StartWindowSwitcher | extension.js:269-306 | No session for an empty scope list. Otherwise a new session over that list, with the sentinel cursor exactly when nothing has focus. A shown session holds the grab and the recorded modifier mask, has its cursor one step on, has the delay timer pending under the given id, and has logged, released and cancelled nothing. Otherwise it is torn down: with nothing logged or released when the grab is refused, and with the new selection activated and the grab released once when the modifier was already up. |
| Extension.LaunchAndTapWhileHeld | extension.js:76-171 | From the entry point: with [a, b] on the stack and a focused, a `switch_windows` session started with the modifier held survives a release of another key, and releasing the modifier activates b and cancels timer 1 once. |
| Manager.CollectWindows | manager.js:42-47 | The loop collects every actor's window in enumeration order. |
| Manager.Catalog | manager.js:48-55 | The catalog is a permutation of the enumerated windows, newest first. |
| Manager.PanelsReference | manager.js:65-67 | The window whose class `switch-panels` matches: the focused window, or the first of the sorted list when nothing has focus; none when there is neither, in which case the filter over the empty list never calls its callback. `PanelsReferenceIsNewest` states which window that is. |
| Manager.Candidates | manager.js:57-80 | The list the binding name selects: the workspace filter for `switch-group`, the class filter for `switch-panels`, the taskbar filter otherwise. `GroupScope`, `PanelsScope`, `DefaultScope`, `CandidatesOrdered` and `CandidatesOnTaskbar` state each mode. |
| Manager.CatalogProperties | manager.js:48-55 | Any newest-first arrangement of the same windows lists the same user times as the catalog. |
| Manager.GroupScope | manager.js:58-63 | `switch-group` keeps exactly the windows on the active workspace that are on the taskbar. |
| Manager.PanelsScope | manager.js:64-73 | `switch-panels` keeps exactly the taskbar windows of the focused window's class. With no focus it uses the class of the newest window; with no focus and no windows it yields nothing. |
| Manager.PanelsKeepsReference | manager.js:64-73 | With nothing focused, the newest window is a `switch-panels` candidate when it is on the taskbar. |
| Manager.PanelsReferenceIsNewest | manager.js:64-67 | With nothing focused and some window enumerated, the `switch-panels` reference exists and has the greatest user time of all enumerated windows. |
| Manager.DefaultScope | manager.js:74-80 | Any other binding drops exactly the skip-taskbar windows and keeps every copy of every other window. |
| Manager.CandidatesOrdered | manager.js:57-80 | In every mode the candidates are a subsequence of the catalog, so they are newest first too. |
| Manager.CandidatesOnTaskbar | manager.js:57-80 | No mode ever offers a skip-taskbar window, or a window outside the catalog. |
| Manager.StartWindowSwitcher | manager.js:82-96 | A switcher is made exactly when the filtered list is non-empty, over that list. Its cursor starts at -1 exactly when nothing has focus, and at 0 otherwise. It is destroyed exactly when show answers false. |

## Left out

- Layout and rendering are not modelled: preferred sizes, allocation, thumbnails, highlighting and opacity (extension.js:44-74, extension.js:87-94). They are toolkit plumbing.
- The delay timer's scheduling is not modelled. Only its id and its cancellation are kept; the timer's callback is `InitialDelayElapsed`.
- Extension.Manager.WindowAdded and Extension.Manager.WindowRemoved are modelled as operations, but the source never connects them (only the focus-app notification is connected, extension.js:204). Once the stack holds a window nothing in the source removes one, since `_focusChanged` only reorders and grows it, so a closed window stays on the stack for the rest of the manager's life; the model does not capture that these two operations never run.
- Extension.Manager.FocusChanged: the model runs it on whatever focus it is given. In the source it runs only on the focus-app notification, so moving focus between two windows of the same application does not reorder the stack; the model does not capture when the notification fires.
- Extension wiring is not modelled: `init`, `enable`, `disable`, the key-binding handler installation and the signal connections. They are host wiring.
- Concurrency is not modelled. A second invocation failing the grab while a session is active is the host's business; the model takes the grab's answer as a parameter.
- The `Switcher.Switcher` class that manager.js constructs is not part of this model. `Manager.StartWindowSwitcher` takes its `show()` answer as a parameter and records the outcome.
- The session list of `switch_windows` in extension.js is the manager's own array. The model hands the session a copy, so it does not capture later updates of the stack showing through in a live session.
- `null` results of the host's queries are not modelled: a missing class name, or a window whose actor is gone. Class names are plain strings compared for equality.
- Windows.Sort: the engine's sort algorithm is not modelled. The model resolves ties one definite way. `SortedPermutationsAgreeOnTimes` shows every sorted arrangement has the same user-time sequence, but which tied window comes first is the model's choice.
- Manager.StartWindowSwitcher: its list is the one for the model's tie order. When nothing is focused and several windows share the newest user time, the engine may put a different one first, and `switch-panels` then matches that window's class instead. `Manager.PanelsReferenceIsNewest` states what holds for any tie order: the reference is a window of greatest user time.
- Extension.Switcher.KeyPress: its backward branch assumes the shell's key-binding enumeration has the members `SWITCH_GROUP_BACKWORD` and `SWITCH_WINDOWS_BACKWORD` that extension.js:149-150 compares against. That enumeration is not part of this model, and the binding names at extension.js:322-323 are spelled `_backward`. If the enumeration spells its members `..._BACKWARD`, both comparisons are against `undefined`, the backward branch never runs, and a backward binding pressed inside a session does nothing. The model treats `SwitchGroupBackward` and `SwitchWindowsBackward` as actions the dispatch can receive.
- Extension.Switcher.Show: it requires a session that has not been shown before, a non-empty list, a cursor in [-1, N) and a positive timer id. extension.js:294-305 guarantees the first three: a fresh switcher, a list checked non-empty at extension.js:298, and a cursor of -1 or 0 (extension.js:294-300). The timer id is positive because `Mainloop.timeout_add` (extension.js:112) never returns 0. manager.js:82-96 sets up its own switcher, which is not part of this model, the same way.

## Findings

| source | as written | input that shows it | evidently intended | confidence | as-written member | corrected member |
|---|---|---|---|---|---|---|
| extension.js:173-190 | `_onDestroy` cancels a pending delay timer but never resets `_initialDelayTimeoutId`. `destroy()` runs `_onDestroy` and then destroys the actor, whose `destroy` signal (extension.js:31) runs `_onDestroy` again. | A session shown with the modifier held (timer id 1 pending) that ends before the timer fires, e.g. a fast alt-tab release: `Mainloop.source_remove(1)` is called twice. | The timer is cancelled once, and a further teardown changes nothing. | not executed | Extension.PendingTimerRemovedTwiceAsWritten | Extension.PendingTimerRemovedOnce |
