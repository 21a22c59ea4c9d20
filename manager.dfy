/** manager.js: the per-invocation catalog. Every window the compositor
    shows is collected, sorted newest first by user time, narrowed to the
    scope the key binding names, and, when anything is left, handed to a new
    switcher whose cursor starts before the first entry when nothing has
    focus. */
module Manager {
  import opened Windows
  import opened ListOps
  import opened Scope

  /** The enumeration loop: the window of each actor, pushed in order. */
  method CollectWindows(actors: seq<WindowActor>) returns (windows: seq<Window>)
    ensures windows == MetaWindows(actors)
  {
    windows := [];
    var i := 0;
    while i < |actors|
      invariant 0 <= i <= |actors|
      invariant windows == MetaWindows(actors[..i])
    {
      assert actors[..i + 1] == actors[..i] + [actors[i]];
      windows := windows + [actors[i].metaWindow];
      i := i + 1;
    }
    assert actors[..|actors|] == actors;
  }

  /** The enumerated windows after the in-place sort, newest first. */
  function Catalog(actors: seq<WindowActor>, host: Host): (r: seq<Window>)
    ensures multiset(r) == multiset(MetaWindows(actors))
    ensures SortedBy(r, host, Descending)
  {
    Sort(MetaWindows(actors), host, Descending)
  }

  /** The window whose class switch-panels matches: the focused one, or the
      first of the sorted, unfiltered list when nothing has focus. None only
      when there is no focus and no window at all. */
  function PanelsReference(sorted: seq<Window>, focus: Option<Window>): Option<Window>
  {
    if focus.Some? then focus
    else if sorted != [] then Some(sorted[0])
    else None
  }

  /** The filter the binding name selects. With no reference window the list
      is empty and the filter's callback is never called, so the result is
      the empty list. */
  function Candidates(sorted: seq<Window>, bindingName: string, focus: Option<Window>,
                      activeWorkspace: int, host: Host): seq<Window>
  {
    if bindingName == "switch-group" then
      Filter(sorted, host, SameWorkspace(activeWorkspace))
    else if bindingName == "switch-panels" then
      match PanelsReference(sorted, focus)
      case None => []
      case Some(f) => Filter(sorted, host, SameClass(host(f).wmClass))
    else
      Filter(sorted, host, OnTaskbar)
  }

  /** What _startWindowSwitcher does, seen from the manager: either no
      switcher is made, or one is made over `windows` with its cursor at
      `startIndex`, and destroyed again when its show() answers false. */
  datatype Launch =
    | NoSwitcher
    | Launched(windows: seq<Window>, startIndex: int, destroyedAfterShow: bool)

  /** _startWindowSwitcher. `actors` is what global.get_window_actors()
      returns, `focus` the display's focus window, `showSucceeds` the answer
      of the switcher's show(). */
  method StartWindowSwitcher(actors: seq<WindowActor>, host: Host, bindingName: string,
                             focus: Option<Window>, activeWorkspace: int, showSucceeds: bool)
    returns (launch: Launch)
    ensures var list := Candidates(Catalog(actors, host), bindingName, focus, activeWorkspace, host);
      && (launch.NoSwitcher? <==> list == [])
      && (launch.Launched? ==>
        && launch.windows == list
        && (launch.startIndex == -1 <==> focus.None?)
        && (launch.startIndex == 0 <==> focus.Some?)
        && (launch.destroyedAfterShow <==> !showSucceeds))
  {
    var windows := CollectWindows(actors);
    windows := Sort(windows, host, Descending);
    windows := Candidates(windows, bindingName, focus, activeWorkspace, host);
    var currentIndex := 0;
    if |windows| > 0 {
      if focus.None? {
        currentIndex := -1;
      }
      launch := Launched(windows, currentIndex, !showSucceeds);
    } else {
      launch := NoSwitcher;
    }
  }

  // ---------------------------------------------------------------------
  // Properties

  /** The catalog holds each enumerated window once per actor, newest first;
      any other newest-first arrangement of the same windows, which is what a
      different sort algorithm could produce, lists the same user times in the
      same order. */
  lemma CatalogProperties(actors: seq<WindowActor>, host: Host, other: seq<Window>)
    requires multiset(other) == multiset(MetaWindows(actors))
    requires SortedBy(other, host, Descending)
    ensures Times(other, host) == Times(Catalog(actors, host), host)
  {
    SortedPermutationsAgreeOnTimes(other, Catalog(actors, host), host, Descending);
  }

  /** switch-group keeps exactly the windows on the active workspace that are
      on the taskbar. */
  lemma GroupScope(sorted: seq<Window>, focus: Option<Window>, activeWorkspace: int, host: Host, w: Window)
    ensures w in Candidates(sorted, "switch-group", focus, activeWorkspace, host) <==>
      w in sorted && host(w).workspace == activeWorkspace && !host(w).skipTaskbar
  {
    FilterMembers(sorted, host, SameWorkspace(activeWorkspace), w);
  }

  /** switch-panels keeps exactly the taskbar windows of the focused window's
      class, or of the newest window's class when nothing has focus; with no
      focus and no window it yields nothing. */
  lemma PanelsScope(sorted: seq<Window>, focus: Option<Window>, activeWorkspace: int, host: Host, w: Window)
    ensures focus.Some? ==>
      (w in Candidates(sorted, "switch-panels", focus, activeWorkspace, host) <==>
        w in sorted && host(w).wmClass == host(focus.value).wmClass && !host(w).skipTaskbar)
    ensures focus.None? && sorted != [] ==>
      (w in Candidates(sorted, "switch-panels", focus, activeWorkspace, host) <==>
        w in sorted && host(w).wmClass == host(sorted[0]).wmClass && !host(w).skipTaskbar)
    ensures focus.None? && sorted == [] ==> Candidates(sorted, "switch-panels", focus, activeWorkspace, host) == []
  {
    var r := PanelsReference(sorted, focus);
    if r.Some? {
      FilterMembers(sorted, host, SameClass(host(r.value).wmClass), w);
    }
  }

  /** With nothing focused the newest window is always a switch-panels
      candidate, unless it is itself off the taskbar. */
  lemma PanelsKeepsReference(sorted: seq<Window>, activeWorkspace: int, host: Host)
    requires sorted != [] && !host(sorted[0]).skipTaskbar
    ensures Candidates(sorted, "switch-panels", None, activeWorkspace, host) != []
  {
    FilterMembers(sorted, host, SameClass(host(sorted[0]).wmClass), sorted[0]);
  }

  /** With nothing focused, the switch-panels reference is a window of
      greatest user time among all enumerated windows. Which one of several
      tied windows it is depends on the sort's tie order. */
  lemma PanelsReferenceIsNewest(actors: seq<WindowActor>, host: Host, w: Window)
    requires actors != [] && w in MetaWindows(actors)
    ensures PanelsReference(Catalog(actors, host), None).Some?
    ensures host(w).userTime <= host(PanelsReference(Catalog(actors, host), None).value).userTime
  {
    var sorted := Catalog(actors, host);
    assert w in multiset(MetaWindows(actors));
    assert w in multiset(sorted);
    var k :| 0 <= k < |sorted| && sorted[k] == w;
    assert k == 0 || InOrder(host, Descending, sorted[0], sorted[k]);
  }

  /** Any other binding name drops exactly the windows off the taskbar, and
      keeps every copy of every other window. */
  lemma DefaultScope(sorted: seq<Window>, bindingName: string, focus: Option<Window>,
                     activeWorkspace: int, host: Host, w: Window)
    requires bindingName != "switch-group" && bindingName != "switch-panels"
    ensures multiset(Candidates(sorted, bindingName, focus, activeWorkspace, host))[w] ==
      if host(w).skipTaskbar then 0 else multiset(sorted)[w]
  {
    FilterCounts(sorted, host, OnTaskbar, w);
  }

  /** Whatever the binding, the candidates are a subsequence of the sorted
      list, so they are newest first too; and none of them is off the
      taskbar. */
  lemma CandidatesOrdered(actors: seq<WindowActor>, bindingName: string, focus: Option<Window>,
                          activeWorkspace: int, host: Host)
    ensures IsSubsequence(Candidates(Catalog(actors, host), bindingName, focus, activeWorkspace, host),
                          Catalog(actors, host))
    ensures SortedBy(Candidates(Catalog(actors, host), bindingName, focus, activeWorkspace, host), host, Descending)
  {
    var sorted := Catalog(actors, host);
    var list := Candidates(sorted, bindingName, focus, activeWorkspace, host);
    if bindingName == "switch-group" {
      FilterIsSubsequence(sorted, host, SameWorkspace(activeWorkspace));
    } else if bindingName == "switch-panels" {
      var r := PanelsReference(sorted, focus);
      if r.Some? {
        FilterIsSubsequence(sorted, host, SameClass(host(r.value).wmClass));
      }
    } else {
      FilterIsSubsequence(sorted, host, OnTaskbar);
    }
    SubsequenceKeepsSorted(list, sorted, host, Descending);
  }

  /** No candidate is ever a window that asks to be left off the taskbar. */
  lemma CandidatesOnTaskbar(sorted: seq<Window>, bindingName: string, focus: Option<Window>,
                            activeWorkspace: int, host: Host, w: Window)
    requires w in Candidates(sorted, bindingName, focus, activeWorkspace, host)
    ensures w in sorted && !host(w).skipTaskbar
  {
    if bindingName == "switch-group" {
      FilterMembers(sorted, host, SameWorkspace(activeWorkspace), w);
    } else if bindingName == "switch-panels" {
      var r := PanelsReference(sorted, focus);
      if r.Some? {
        FilterMembers(sorted, host, SameClass(host(r.value).wmClass), w);
      }
    } else {
      FilterMembers(sorted, host, OnTaskbar, w);
    }
  }
}
