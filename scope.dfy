/** The scope filters that narrow a window list to the candidates of one
    invocation: same workspace, same application class, or anything shown on
    the taskbar. Filtering never reorders. */
module Scope {
  import opened Windows
  import opened ListOps

  /** Which windows a switcher invocation may offer. Every scope also drops
      windows that ask to be left off the taskbar. */
  datatype Scope =
    | SameWorkspace(workspace: int)  // switch-group, and every binding other than switch_windows in extension.js
    | SameClass(wmClass: string)     // switch-panels
    | OnTaskbar                      // any other binding

  /** The predicate handed to Array.prototype.filter for the scope. */
  predicate Keeps(host: Host, scope: Scope, w: Window)
  {
    !host(w).skipTaskbar &&
    match scope
    case SameWorkspace(ws) => host(w).workspace == ws
    case SameClass(c) => host(w).wmClass == c
    case OnTaskbar => true
  }

  /** Array.prototype.filter with the scope's predicate. */
  function Filter(s: seq<Window>, host: Host, scope: Scope): seq<Window>
  {
    if s == [] then []
    else (if Keeps(host, scope, s[0]) then [s[0]] else []) + Filter(s[1..], host, scope)
  }

  /** The filter keeps every copy of a window its scope admits and no copy of
      any other window. */
  lemma {:induction false} FilterCounts(s: seq<Window>, host: Host, scope: Scope, w: Window)
    ensures multiset(Filter(s, host, scope))[w] == if Keeps(host, scope, w) then multiset(s)[w] else 0
  {
    if s != [] {
      assert s == [s[0]] + s[1..];
      FilterCounts(s[1..], host, scope, w);
    }
  }

  /** A window is among the candidates exactly when it is in the list and the
      scope admits it. */
  lemma FilterMembers(s: seq<Window>, host: Host, scope: Scope, w: Window)
    ensures w in Filter(s, host, scope) <==> w in s && Keeps(host, scope, w)
  {
    FilterCounts(s, host, scope, w);
    assert w in Filter(s, host, scope) <==> w in multiset(Filter(s, host, scope));
    assert w in s <==> w in multiset(s);
  }

  /** The candidates keep the order they had in the list. */
  lemma {:induction false} FilterIsSubsequence(s: seq<Window>, host: Host, scope: Scope)
    ensures IsSubsequence(Filter(s, host, scope), s)
  {
    if s != [] {
      var rest := Filter(s[1..], host, scope);
      FilterIsSubsequence(s[1..], host, scope);
      if Keeps(host, scope, s[0]) {
        assert ([s[0]] + rest)[1..] == rest;
      } else {
        assert [] + rest == rest;
        if rest != [] {
          assert IsSubsequence(rest, s[1..]);
        }
      }
    }
  }

  /** Filtering a list ordered by user time leaves it ordered. */
  lemma FilterKeepsSorted(s: seq<Window>, host: Host, dir: Direction, scope: Scope)
    requires SortedBy(s, host, dir)
    ensures SortedBy(Filter(s, host, scope), host, dir)
  {
    FilterIsSubsequence(s, host, scope);
    SubsequenceKeepsSorted(Filter(s, host, scope), s, host, dir);
  }

  lemma {:induction false} SubsequenceKeepsSorted(a: seq<Window>, s: seq<Window>, host: Host, dir: Direction)
    requires IsSubsequence(a, s) && SortedBy(s, host, dir)
    ensures SortedBy(a, host, dir)
    decreases |s|
  {
    if a != [] {
      assert SortedBy(s[1..], host, dir) by {
        forall i, j | 0 <= i < j < |s[1..]| ensures InOrder(host, dir, s[1..][i], s[1..][j]) {
          assert InOrder(host, dir, s[i + 1], s[j + 1]);
        }
      }
      if a[0] == s[0] && IsSubsequence(a[1..], s[1..]) {
        SubsequenceKeepsSorted(a[1..], s[1..], host, dir);
        forall i, j | 0 <= i < j < |a| ensures InOrder(host, dir, a[i], a[j]) {
          if i == 0 {
            assert a[j] == a[1..][j - 1];
            SubsequenceMembers(a[1..], s[1..], a[j]);
            var m :| 0 <= m < |s[1..]| && s[1..][m] == a[j];
            assert InOrder(host, dir, s[0], s[m + 1]);
          } else {
            assert a[i] == a[1..][i - 1] && a[j] == a[1..][j - 1];
          }
        }
      } else {
        SubsequenceKeepsSorted(a, s[1..], host, dir);
      }
    }
  }
}
