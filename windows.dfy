/** Windows as the compositor hands them to the switcher: an identity, the
    attributes the switcher queries, and the ordering by user time that both
    the recency stack and the per-invocation catalog use. */
module Windows {

  /** A window known to the compositor. The switcher compares windows by
      identity only (reference equality in the shell). */
  type Window(==)

  /** What the shell reports about a window when asked. */
  datatype WindowInfo = WindowInfo(
    userTime: int,      // get_user_time(): last user interaction
    workspace: int,     // get_workspace(), by identity
    wmClass: string,    // get_wm_class()
    skipTaskbar: bool)  // is_skip_taskbar()

  /** The shell's answers to the queries above, at the moment of one call. */
  type Host = Window -> WindowInfo

  /** A compositor actor; the switcher only asks it for the window it shows. */
  datatype WindowActor = WindowActor(metaWindow: Window)

  datatype Option<T> = None | Some(value: T)

  /** A call of one of the two actions handed to a switcher: raise the window
      (Main.activateWindow) or ask it to close (win.delete with a timestamp). */
  datatype WindowAction = Activate(window: Window) | Delete(window: Window, time: int)

  /** get_meta_window() of each actor, in enumeration order. */
  function MetaWindows(actors: seq<WindowActor>): seq<Window>
  {
    seq(|actors|, i requires 0 <= i < |actors| => actors[i].metaWindow)
  }

  // ---------------------------------------------------------------------
  // Sorting by user time

  /** Oldest first (the recency stack's cold rebuild) or newest first (the
      per-invocation catalog). */
  datatype Direction = Ascending | Descending

  /** The comparator given to Array.prototype.sort. Neither comparator ever
      answers 0: two windows with the same user time compare as -1 both ways. */
  function Compare(host: Host, dir: Direction, a: Window, b: Window): int
  {
    var t1, t2 := host(a).userTime, host(b).userTime;
    match dir
    case Ascending => if t1 > t2 then 1 else -1
    case Descending => if t2 > t1 then 1 else -1
  }

  /** a may stand before b in a list sorted in direction dir. */
  predicate InOrder(host: Host, dir: Direction, a: Window, b: Window)
  {
    match dir
    case Ascending => host(a).userTime <= host(b).userTime
    case Descending => host(a).userTime >= host(b).userTime
  }

  ghost predicate SortedBy(s: seq<Window>, host: Host, dir: Direction)
  {
    forall i, j :: 0 <= i < j < |s| ==> InOrder(host, dir, s[i], s[j])
  }

  /** The comparator's answer decides order only by user time: a negative
      answer (a goes first) never puts a strictly later window before an
      earlier one in the chosen direction, and a positive one never lets a
      stay in front of a window that must precede it. */
  lemma CompareRespectsOrder(host: Host, dir: Direction, a: Window, b: Window)
    ensures Compare(host, dir, a, b) != 0
    ensures Compare(host, dir, a, b) < 0 ==> InOrder(host, dir, a, b)
    ensures Compare(host, dir, a, b) > 0 ==> InOrder(host, dir, b, a) && !InOrder(host, dir, a, b)
  {
  }

  /** Place x in front of the first element the comparator does not put
      before it. */
  function Insert(x: Window, s: seq<Window>, host: Host, dir: Direction): (r: seq<Window>)
    ensures multiset(r) == multiset(s) + multiset{x}
    ensures SortedBy(s, host, dir) ==> SortedBy(r, host, dir)
  {
    if s == [] then [x]
    else if Compare(host, dir, x, s[0]) < 0 then
      PrependKeepsSorted(x, s, host, dir);
      [x] + s
    else
      var rest := Insert(x, s[1..], host, dir);
      assert s == [s[0]] + s[1..];
      KeepHeadKeepsSorted(x, s, rest, host, dir);
      [s[0]] + rest
  }

  lemma PrependKeepsSorted(x: Window, s: seq<Window>, host: Host, dir: Direction)
    requires s != [] && Compare(host, dir, x, s[0]) < 0
    ensures SortedBy(s, host, dir) ==> SortedBy([x] + s, host, dir)
  {
    if SortedBy(s, host, dir) {
      CompareRespectsOrder(host, dir, x, s[0]);
      forall i, j | 0 <= i < j < |[x] + s| ensures InOrder(host, dir, ([x] + s)[i], ([x] + s)[j]) {
        if i > 0 {
          assert ([x] + s)[i] == s[i - 1] && ([x] + s)[j] == s[j - 1];
        } else if j > 1 {
          assert InOrder(host, dir, s[0], s[j - 1]);
        }
      }
    }
  }

  lemma KeepHeadKeepsSorted(x: Window, s: seq<Window>, rest: seq<Window>, host: Host, dir: Direction)
    requires s != [] && Compare(host, dir, x, s[0]) >= 0
    requires multiset(rest) == multiset(s[1..]) + multiset{x}
    requires SortedBy(s[1..], host, dir) ==> SortedBy(rest, host, dir)
    ensures SortedBy(s, host, dir) ==> SortedBy([s[0]] + rest, host, dir)
  {
    if SortedBy(s, host, dir) {
      assert SortedBy(s[1..], host, dir) by {
        forall i, j | 0 <= i < j < |s[1..]| ensures InOrder(host, dir, s[1..][i], s[1..][j]) {
          assert s[1..][i] == s[i + 1] && s[1..][j] == s[j + 1];
        }
      }
      var r := [s[0]] + rest;
      forall i, j | 0 <= i < j < |r| ensures InOrder(host, dir, r[i], r[j]) {
        if i > 0 {
          assert r[i] == rest[i - 1] && r[j] == rest[j - 1];
        } else {
          HeadPrecedesRest(x, s, rest, r[j], host, dir);
        }
      }
    }
  }

  lemma HeadPrecedesRest(x: Window, s: seq<Window>, rest: seq<Window>, y: Window, host: Host, dir: Direction)
    requires s != [] && Compare(host, dir, x, s[0]) >= 0 && SortedBy(s, host, dir)
    requires multiset(rest) == multiset(s[1..]) + multiset{x}
    requires y in rest
    ensures InOrder(host, dir, s[0], y)
  {
    assert y in multiset(rest);
    if y == x {
      CompareRespectsOrder(host, dir, x, s[0]);
    } else {
      assert y in multiset(s[1..]);
      var k :| 0 <= k < |s[1..]| && s[1..][k] == y;
      assert s[k + 1] == y;
    }
  }

  /** The list after the in-place sort with the given comparator. The shell's
      sort algorithm is not specified and the comparators are inconsistent on
      ties, so the model sorts one definite way (insertion); what it proves
      holds of every sorted permutation (see SortedPermutationsAgreeOnTimes). */
  function Sort(s: seq<Window>, host: Host, dir: Direction): (r: seq<Window>)
    ensures multiset(r) == multiset(s)
    ensures SortedBy(r, host, dir)
  {
    if s == [] then []
    else
      assert s == [s[0]] + s[1..];
      Insert(s[0], Sort(s[1..], host, dir), host, dir)
  }

  /** The user times of a list, in list order. */
  function Times(s: seq<Window>, host: Host): (ts: seq<int>)
    ensures |ts| == |s|
  {
    seq(|s|, i requires 0 <= i < |s| => host(s[i]).userTime)
  }

  /** The multiset of times is determined by the multiset of windows. */
  lemma {:induction false} TimesOfPermutation(s: seq<Window>, t: seq<Window>, host: Host)
    requires multiset(s) == multiset(t)
    ensures multiset(Times(s, host)) == multiset(Times(t, host))
    decreases |s|
  {
    if s != [] {
      var x := s[0];
      var k := PositionIn(t, x);
      var t' := t[..k] + t[k + 1..];
      HeadRemoved(s);
      RemoveAtMultiset(t, k);
      MultisetCancel(multiset(s[1..]), multiset(t'), x);
      TimesOfPermutation(s[1..], t', host);
      TimesRemoveAt(s, 0, host);
      TimesRemoveAt(t, k, host);
    }
  }

  /** A position at which x occurs, given that it occurs. */
  lemma PositionIn<T>(t: seq<T>, x: T) returns (k: nat)
    requires x in multiset(t)
    ensures k < |t| && t[k] == x
  {
    assert x in t;
    k :| 0 <= k < |t| && t[k] == x;
  }

  lemma HeadRemoved<T>(s: seq<T>)
    requires s != []
    ensures multiset(s) == multiset(s[1..]) + multiset{s[0]}
    ensures s[..0] + s[1..] == s[1..]
  {
    assert s == [s[0]] + s[1..];
  }

  lemma MultisetCancel<T>(a: multiset<T>, b: multiset<T>, x: T)
    requires a + multiset{x} == b + multiset{x}
    ensures a == b
  {
    forall y ensures a[y] == b[y] {
      assert (a + multiset{x})[y] == (b + multiset{x})[y];
    }
  }

  lemma RemoveAtMultiset<T>(t: seq<T>, k: nat)
    requires k < |t|
    ensures multiset(t) == multiset(t[..k] + t[k + 1..]) + multiset{t[k]}
  {
    assert t == t[..k] + [t[k]] + t[k + 1..];
  }

  lemma TimesRemoveAt(t: seq<Window>, k: nat, host: Host)
    requires k < |t|
    ensures multiset(Times(t, host)) == multiset(Times(t[..k] + t[k + 1..], host)) + multiset{host(t[k]).userTime}
  {
    var ts := Times(t, host);
    assert Times(t[..k] + t[k + 1..], host) == ts[..k] + ts[k + 1..];
    RemoveAtMultiset(ts, k);
  }

  /** Two orderings of the same windows that are both sorted in direction dir
      list the same user times in the same order; they can differ only in how
      windows with equal user times are arranged. So whichever sort the shell
      runs, the model's result has the same shape. */
  lemma {:induction false} SortedPermutationsAgreeOnTimes(s: seq<Window>, t: seq<Window>, host: Host, dir: Direction)
    requires multiset(s) == multiset(t)
    requires SortedBy(s, host, dir) && SortedBy(t, host, dir)
    ensures Times(s, host) == Times(t, host)
  {
    assert |s| == |multiset(s)| == |multiset(t)| == |t|;
    TimesOfPermutation(s, t, host);
    var ts, tt := Times(s, host), Times(t, host);
    TimesSorted(s, host, dir);
    TimesSorted(t, host, dir);
    SortedIntsUnique(ts, tt, dir);
  }

  lemma TimesSorted(s: seq<Window>, host: Host, dir: Direction)
    requires SortedBy(s, host, dir)
    ensures IntsSorted(Times(s, host), dir)
  {
    var ts := Times(s, host);
    forall i, j | 0 <= i < j < |ts| ensures IntInOrder(dir, ts[i], ts[j]) {
      assert InOrder(host, dir, s[i], s[j]);
    }
  }

  predicate IntInOrder(dir: Direction, a: int, b: int)
  {
    match dir
    case Ascending => a <= b
    case Descending => a >= b
  }

  ghost predicate IntsSorted(a: seq<int>, dir: Direction)
  {
    forall i, j :: 0 <= i < j < |a| ==> IntInOrder(dir, a[i], a[j])
  }

  lemma SortedHeadIsExtreme(a: seq<int>, dir: Direction, v: int)
    requires IntsSorted(a, dir) && v in a
    ensures IntInOrder(dir, a[0], v)
  {
    var m :| 0 <= m < |a| && a[m] == v;
    assert m == 0 || IntInOrder(dir, a[0], a[m]);
  }

  lemma SortedTail(a: seq<int>, dir: Direction)
    requires IntsSorted(a, dir) && a != []
    ensures IntsSorted(a[1..], dir)
  {
    forall i, j | 0 <= i < j < |a[1..]| ensures IntInOrder(dir, a[1..][i], a[1..][j]) {
      assert a[1..][i] == a[i + 1] && a[1..][j] == a[j + 1];
    }
  }

  lemma SameHeadSameTail<T>(a: seq<T>, b: seq<T>)
    requires a != [] && b != [] && a[0] == b[0] && a[1..] == b[1..]
    ensures a == b
  {
    assert a == [a[0]] + a[1..] && b == [b[0]] + b[1..];
  }

  /** Sorted lists of the same values start with the same (extreme) value. */
  lemma SortedHeadsAgree(a: seq<int>, b: seq<int>, dir: Direction)
    requires multiset(a) == multiset(b) && a != [] && b != []
    requires IntsSorted(a, dir) && IntsSorted(b, dir)
    ensures a[0] == b[0]
  {
    assert a[0] in multiset(b) && b[0] in multiset(a);
    SortedHeadIsExtreme(b, dir, a[0]);
    SortedHeadIsExtreme(a, dir, b[0]);
    match dir
    case Ascending =>
    case Descending =>
  }

  /** Removing equal heads from two lists with the same values leaves two
      lists with the same values. */
  lemma TailsSameValues<T>(a: seq<T>, b: seq<T>)
    requires multiset(a) == multiset(b) && a != [] && b != [] && a[0] == b[0]
    ensures multiset(a[1..]) == multiset(b[1..])
  {
    HeadRemoved(a);
    HeadRemoved(b);
    MultisetCancel(multiset(a[1..]), multiset(b[1..]), a[0]);
  }

  lemma {:induction false} SortedIntsUnique(a: seq<int>, b: seq<int>, dir: Direction)
    requires multiset(a) == multiset(b)
    requires IntsSorted(a, dir) && IntsSorted(b, dir)
    ensures a == b
    decreases |a|
  {
    assert |a| == |multiset(a)| == |multiset(b)| == |b|;
    if a != [] {
      SortedHeadsAgree(a, b, dir);
      TailsSameValues(a, b);
      SortedTail(a, dir);
      SortedTail(b, dir);
      SortedIntsUnique(a[1..], b[1..], dir);
      SameHeadSameTail(a, b);
    }
  }
}
