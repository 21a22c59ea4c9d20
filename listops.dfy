/** The array operations the switcher's code leans on (indexOf and the two
    forms of splice it uses), as functions on sequences, and the two relations
    its guarantees are stated in: being a subsequence, and having no
    duplicates. */
module ListOps {

  /** Array.prototype.indexOf: the first position of x, or -1. */
  function IndexOf<T(==)>(s: seq<T>, x: T): (r: int)
    ensures -1 <= r < |s|
    ensures r == -1 <==> x !in s
    ensures r >= 0 ==> s[r] == x && x !in s[..r]
  {
    if s == [] then -1
    else if s[0] == x then 0
    else
      var k := IndexOf(s[1..], x);
      assert s[1..][..if k < 0 then 0 else k] == s[1..if k < 0 then 1 else k + 1];
      if k == -1 then -1 else k + 1
  }

  /** s without its first occurrence of x (s itself when x is absent). */
  function RemoveFirst<T(==)>(s: seq<T>, x: T): seq<T>
  {
    if s == [] then []
    else if s[0] == x then s[1..]
    else [s[0]] + RemoveFirst(s[1..], x)
  }

  /** splice(i, 0, x): x inserted before position i, which the array clamps
      to its length. */
  function InsertAt<T>(s: seq<T>, i: nat, x: T): (r: seq<T>)
    ensures |r| == |s| + 1
  {
    var k := if i <= |s| then i else |s|;
    s[..k] + [x] + s[k..]
  }

  /** a is s with some elements left out, the rest in their original order. */
  predicate IsSubsequence<T(==)>(a: seq<T>, s: seq<T>)
    decreases |s|
  {
    if a == [] then true
    else if s == [] then false
    else (a[0] == s[0] && IsSubsequence(a[1..], s[1..])) || IsSubsequence(a, s[1..])
  }

  ghost predicate NoDuplicates<T>(s: seq<T>)
  {
    forall i, j :: 0 <= i < j < |s| ==> s[i] != s[j]
  }

  /** Splicing out the element indexOf finds removes exactly the first
      occurrence; when indexOf finds nothing the list is left as it is. */
  lemma {:induction false} SpliceAtIndexOf<T>(s: seq<T>, x: T)
    ensures IndexOf(s, x) == -1 ==> RemoveFirst(s, x) == s
    ensures IndexOf(s, x) >= 0 ==>
      RemoveFirst(s, x) == s[..IndexOf(s, x)] + s[IndexOf(s, x) + 1..]
  {
    if s != [] && s[0] != x {
      var t := s[1..];
      SpliceAtIndexOf(t, x);
      var k := IndexOf(t, x);
      assert RemoveFirst(s, x) == [s[0]] + RemoveFirst(t, x);
      if k >= 0 {
        assert IndexOf(s, x) == k + 1;
        SpliceOfTail(s, k);
      } else {
        assert IndexOf(s, x) == -1;
        assert s == [s[0]] + t;
      }
    }
  }

  /** Splicing position k out of the tail is splicing k + 1 out of the list,
      behind its head. */
  lemma SpliceOfTail<T>(s: seq<T>, k: nat)
    requires k + 1 < |s|
    ensures s[..k + 1] + s[k + 2..] == [s[0]] + (s[1..][..k] + s[1..][k + 1..])
  {
    assert s[..k + 1] == [s[0]] + s[1..][..k];
    assert s[k + 2..] == s[1..][k + 1..];
  }

  /** Removing the first occurrence takes exactly one copy of x out of the
      list (none when there is no x), and only that. */
  lemma {:induction false} RemoveFirstMultiset<T>(s: seq<T>, x: T)
    ensures multiset(RemoveFirst(s, x)) == multiset(s) - multiset{x}
    ensures x !in s ==> RemoveFirst(s, x) == s
  {
    if s != [] {
      var t := s[1..];
      assert s == [s[0]] + t;
      RemoveFirstMultiset(t, x);
      if s[0] != x {
        assert RemoveFirst(s, x) == [s[0]] + RemoveFirst(t, x);
      }
    }
  }

  /** What remains after removing the first x keeps its original order. */
  lemma {:induction false} RemoveFirstIsSubsequence<T>(s: seq<T>, x: T)
    ensures IsSubsequence(RemoveFirst(s, x), s)
  {
    if s != [] {
      if s[0] == x {
        SubsequenceOfTail(s[1..], s);
      } else {
        RemoveFirstIsSubsequence(s[1..], x);
        assert ([s[0]] + RemoveFirst(s[1..], x))[1..] == RemoveFirst(s[1..], x);
      }
    }
  }

  lemma {:induction false} SubsequenceReflexive<T>(s: seq<T>)
    ensures IsSubsequence(s, s)
  {
    if s != [] {
      SubsequenceReflexive(s[1..]);
    }
  }

  lemma SubsequenceOfTail<T>(a: seq<T>, s: seq<T>)
    requires s != [] && a == s[1..]
    ensures IsSubsequence(a, s)
  {
    SubsequenceReflexive(a);
  }

  /** Every element of a subsequence is an element of the list. */
  lemma {:induction false} SubsequenceMembers<T>(a: seq<T>, s: seq<T>, x: T)
    requires IsSubsequence(a, s) && x in a
    ensures x in s
    decreases |s|
  {
    if a[0] == s[0] && IsSubsequence(a[1..], s[1..]) {
      if x != a[0] {
        SubsequenceMembers(a[1..], s[1..], x);
      }
    } else {
      SubsequenceMembers(a, s[1..], x);
    }
  }

  /** A subsequence of a list without duplicates has none either. */
  lemma {:induction false} SubsequenceNoDuplicates<T>(a: seq<T>, s: seq<T>)
    requires IsSubsequence(a, s) && NoDuplicates(s)
    ensures NoDuplicates(a)
    decreases |s|
  {
    if a != [] {
      assert NoDuplicates(s[1..]) by {
        forall i, j | 0 <= i < j < |s[1..]| ensures s[1..][i] != s[1..][j] {
          assert s[i + 1] != s[j + 1];
        }
      }
      if a[0] == s[0] && IsSubsequence(a[1..], s[1..]) {
        SubsequenceNoDuplicates(a[1..], s[1..]);
        forall j | 0 < j < |a| ensures a[0] != a[j] {
          assert a[j] == a[1..][j - 1];
          SubsequenceMembers(a[1..], s[1..], a[j]);
          var m :| 0 <= m < |s[1..]| && s[1..][m] == a[j];
          assert s[0] != s[m + 1];
        }
      } else {
        SubsequenceNoDuplicates(a, s[1..]);
      }
    }
  }

  /** In a list without duplicates, x occurs once if it occurs at all. */
  lemma {:induction false} NoDuplicatesCount<T>(s: seq<T>, x: T)
    requires NoDuplicates(s)
    ensures multiset(s)[x] == if x in s then 1 else 0
    decreases |s|
  {
    if s != [] {
      assert s == [s[0]] + s[1..];
      assert NoDuplicates(s[1..]) by {
        forall i, j | 0 <= i < j < |s[1..]| ensures s[1..][i] != s[1..][j] {
          assert s[i + 1] != s[j + 1];
        }
      }
      NoDuplicatesCount(s[1..], x);
      if s[0] == x {
        forall m | 0 <= m < |s[1..]| ensures s[1..][m] != x {
          assert s[0] != s[m + 1];
        }
      }
    }
  }
}
