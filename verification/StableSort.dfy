/** Array.prototype.sort by a numeric key: stable, as the language requires. */
module StableSort {
  /** x goes after everything whose key does not exceed its own. */
  function Insert<T(!new)>(s: seq<T>, x: T, key: T -> int): seq<T> {
    if s == [] || key(s[|s| - 1]) <= key(x) then s + [x]
    else Insert(s[..|s| - 1], x, key) + [s[|s| - 1]]
  }

  function Sort<T(!new)>(s: seq<T>, key: T -> int): seq<T> {
    if s == [] then [] else Insert(Sort(s[..|s| - 1], key), s[|s| - 1], key)
  }

  ghost predicate Sorted<T(!new)>(s: seq<T>, key: T -> int) {
    forall i, j :: 0 <= i < j < |s| ==> key(s[i]) <= key(s[j])
  }

  ghost predicate Increasing<T(!new)>(s: seq<T>, key: T -> int) {
    forall i, j :: 0 <= i < j < |s| ==> key(s[i]) < key(s[j])
  }

  lemma {:induction false} InsertKeepsAll<T(!new)>(s: seq<T>, x: T, key: T -> int)
    ensures multiset(Insert(s, x, key)) == multiset(s) + multiset{x}
    decreases |s|
  {
    if !(s == [] || key(s[|s| - 1]) <= key(x)) {
      InsertKeepsAll(s[..|s| - 1], x, key);
      assert s == s[..|s| - 1] + [s[|s| - 1]];
    }
  }

  lemma {:induction false} InsertKeepsOrder<T(!new)>(s: seq<T>, x: T, key: T -> int)
    requires Sorted(s, key)
    ensures Sorted(Insert(s, x, key), key)
    decreases |s|
  {
    if s == [] || key(s[|s| - 1]) <= key(x) {
      AppendGreatest(s, x, key);
    } else {
      var before, last := s[..|s| - 1], s[|s| - 1];
      InsertKeepsOrder(before, x, key);
      InsertKeepsAll(before, x, key);
      hide Insert;
      InsertedAreLess(before, x, last, Insert(before, x, key), key);
      AppendGreatest(Insert(before, x, key), last, key);
    }
  }

  lemma InsertedAreLess<T(!new)>(before: seq<T>, x: T, last: T, r: seq<T>, key: T -> int)
    requires multiset(r) == multiset(before) + multiset{x} && key(x) <= key(last)
    requires forall y :: y in before ==> key(y) <= key(last)
    ensures forall y :: y in r ==> key(y) <= key(last)
  {
    forall y | y in r ensures key(y) <= key(last) {
      assert y in multiset(before) + multiset{x};
      if y != x { assert y in before; }
    }
  }

  lemma AppendGreatest<T(!new)>(s: seq<T>, x: T, key: T -> int)
    requires Sorted(s, key) && (s != [] ==> key(s[|s| - 1]) <= key(x))
    ensures Sorted(s + [x], key)
  {
  }

  lemma {:induction false} SortIsSorted<T(!new)>(s: seq<T>, key: T -> int)
    ensures Sorted(Sort(s, key), key) && multiset(Sort(s, key)) == multiset(s)
    decreases |s|
  {
    if s != [] {
      SortIsSorted(s[..|s| - 1], key);
      InsertKeepsAll(Sort(s[..|s| - 1], key), s[|s| - 1], key);
      InsertKeepsOrder(Sort(s[..|s| - 1], key), s[|s| - 1], key);
      assert s == s[..|s| - 1] + [s[|s| - 1]];
    }
  }

  lemma LastIsGreatest<T(!new)>(s: seq<T>, t: seq<T>, key: T -> int)
    requires multiset(s) == multiset(t) && t != [] && Sorted(s, key)
    requires Increasing(t, key)
    ensures |s| == |t| && s[|s| - 1] == t[|t| - 1]
  {
    assert |s| == |multiset(s)| == |multiset(t)| == |t|;
    var n := |t| - 1;
    assert t[n] in multiset(s) && s[n] in multiset(t);
    var i :| 0 <= i <= n && s[i] == t[n];
    var j :| 0 <= j <= n && t[j] == s[n];
    assert key(s[i]) <= key(s[n]);
  }

  /** Two sorted arrangements of the same elements are equal when no two elements share a key. */
  lemma {:induction false} SortedIsUnique<T(!new)>(s: seq<T>, t: seq<T>, key: T -> int)
    requires multiset(s) == multiset(t) && Sorted(s, key)
    requires Increasing(t, key)
    ensures s == t
    decreases |t|
  {
    SameLength(s, t);
    if t != [] {
      LastIsGreatest(s, t, key);
      InitsMatch(s, t, key);
      hide *;
      SortedIsUnique(s[..|s| - 1], t[..|t| - 1], key);
      assert s == s[..|s| - 1] + [s[|s| - 1]] && t == t[..|t| - 1] + [t[|t| - 1]];
    }
  }

  lemma InitsMatch<T(!new)>(s: seq<T>, t: seq<T>, key: T -> int)
    requires multiset(s) == multiset(t) && Sorted(s, key) && Increasing(t, key)
    requires s != [] && t != [] && s[|s| - 1] == t[|t| - 1]
    ensures multiset(s[..|s| - 1]) == multiset(t[..|t| - 1]) && Sorted(s[..|s| - 1], key)
            && Increasing(t[..|t| - 1], key)
  {
    InitMultiset(s);
    InitMultiset(t);
  }

  lemma SameLength<T>(s: seq<T>, t: seq<T>)
    requires multiset(s) == multiset(t)
    ensures |s| == |t|
  {
    assert |s| == |multiset(s)| == |multiset(t)| == |t|;
  }

  lemma InitMultiset<T>(s: seq<T>)
    requires s != []
    ensures multiset(s[..|s| - 1]) == multiset(s) - multiset{s[|s| - 1]}
  {
    assert s == s[..|s| - 1] + [s[|s| - 1]];
  }

  /** Sorting any shuffle of a strictly increasing list gives the list back. */
  lemma SortRecovers<T(!new)>(s: seq<T>, t: seq<T>, key: T -> int)
    requires multiset(s) == multiset(t)
    requires Increasing(t, key)
    ensures Sort(s, key) == t
  {
    SortIsSorted(s, key);
    SortedIsUnique(Sort(s, key), t, key);
  }
}
