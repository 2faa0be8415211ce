/** `apparitions.sort((a, b) => parseDate(a.date) - parseDate(b.date))`,
    for any `key` standing for `parseDate` of an element (`None` is NaN).
    The array sort is stable (section 22.1.3.27 of ECMA-262, 2019 edition),
    so for a consistent comparator its result is the unique stable ascending
    permutation; the model computes it by insertion. A comparator value that is NaN counts as +0. */
module History {
  import opened Wrappers
  import opened Records

  /** The comparator: the difference of the two time values, or 0 when
      either is NaN. Only its sign matters to the sort. */
  function Compare<T>(key: T -> Option<int>, a: T, b: T): int
  {
    if key(a).Some? && key(b).Some? then key(a).value - key(b).value else 0
  }

  /** Inserts `x` before the first element it does not sort after. */
  function Insert<T>(key: T -> Option<int>, x: T, t: seq<T>): (r: seq<T>)
    ensures multiset(r) == multiset(t) + multiset{x}
  {
    if |t| == 0 then [x]
    else if Compare(key, x, t[0]) <= 0 then [x] + t
    else
      assert t == [t[0]] + t[1..];
      [t[0]] + Insert(key, x, t[1..])
  }

  /** The sorted sequence: each element is inserted into the sorted rest,
      so earlier elements land before later equal ones. */
  function Sort<T>(key: T -> Option<int>, s: seq<T>): (r: seq<T>)
    ensures multiset(r) == multiset(s)
    ensures |r| == |s|
  {
    if |s| == 0 then []
    else
      assert s == [s[0]] + s[1..];
      Insert(key, s[0], Sort(key, s[1..]))
  }

  /** Every key is a number and the keys never decrease along `s`. */
  predicate Ascending<T>(key: T -> Option<int>, s: seq<T>)
  {
    && AllKeyed(key, s)
    && forall i, j :: 0 <= i < j < |s| ==> key(s[i]).value <= key(s[j]).value
  }

  /** The elements of `s` whose key is `k`, in order. */
  function WithKey<T>(key: T -> Option<int>, s: seq<T>, k: Option<int>): seq<T>
  {
    if |s| == 0 then []
    else (if key(s[0]) == k then [s[0]] else []) + WithKey(key, s[1..], k)
  }

  /** `r` keeps, for every key, the relative order `s` had among the
      elements carrying it. */
  ghost predicate StableWrt<T>(key: T -> Option<int>, s: seq<T>, r: seq<T>)
  {
    forall k :: WithKey(key, r, k) == WithKey(key, s, k)
  }

  lemma {:induction false} WithKeyMembers<T>(key: T -> Option<int>, s: seq<T>, k: Option<int>, x: T)
    requires x in WithKey(key, s, k)
    ensures x in s && key(x) == k
  {
    if |s| > 0 && !(x == s[0] && key(s[0]) == k) {
      WithKeyMembers(key, s[1..], k, x);
    }
  }

  /** The first element opens the group of its key. */
  lemma WithKeyHead<T>(key: T -> Option<int>, s: seq<T>)
    requires |s| > 0
    ensures WithKey(key, s, key(s[0])) == [s[0]] + WithKey(key, s[1..], key(s[0]))
  {
  }

  /** Grouping a sequence that starts with `a`. */
  lemma WithKeyCons<T>(key: T -> Option<int>, a: T, t: seq<T>, k: Option<int>)
    ensures WithKey(key, [a] + t, k) == (if key(a) == k then [a] else []) + WithKey(key, t, k)
  {
    assert ([a] + t)[0] == a && ([a] + t)[1..] == t;
  }

  /** Inserting `x` puts it first among the elements sharing its key, and
      leaves the other groups as they were. */
  lemma {:induction false} InsertGroups<T>(key: T -> Option<int>, x: T, t: seq<T>, k: Option<int>)
    ensures WithKey(key, Insert(key, x, t), k) == (if key(x) == k then [x] else []) + WithKey(key, t, k)
  {
    if |t| == 0 {
      WithKeyCons(key, x, t, k);
      assert [x] + t == [x];
    } else if Compare(key, x, t[0]) <= 0 {
      WithKeyCons(key, x, t, k);
    } else {
      InsertGroups(key, x, t[1..], k);
      PastHead(key, x, t, Insert(key, x, t[1..]), k);
    }
  }

  /** Putting the head of `t` back in front of `rest` keeps the `k` group
      of `rest` with the head's own group before it, as long as `x` and the
      head carry different keys. */
  lemma PastHead<T>(key: T -> Option<int>, x: T, t: seq<T>, rest: seq<T>, k: Option<int>)
    requires |t| > 0 && key(x) != key(t[0])
    requires WithKey(key, rest, k) == (if key(x) == k then [x] else []) + WithKey(key, t[1..], k)
    ensures WithKey(key, [t[0]] + rest, k) == (if key(x) == k then [x] else []) + WithKey(key, t, k)
  {
    var w := WithKey(key, t[1..], k);
    WithKeyCons(key, t[0], rest, k);
    assert WithKey(key, t, k) == (if key(t[0]) == k then [t[0]] else []) + w by {
      WithKeyCons(key, t[0], t[1..], k);
      assert t == [t[0]] + t[1..];
    }
    if key(x) == k {
      assert WithKey(key, [t[0]] + rest, k) == WithKey(key, rest, k);
    } else {
      assert WithKey(key, rest, k) == w;
    }
  }

  /** Sorting is stable, whatever the keys. */
  lemma {:induction false} SortStable<T>(key: T -> Option<int>, s: seq<T>)
    ensures StableWrt(key, s, Sort(key, s))
  {
    if |s| > 0 {
      SortStable(key, s[1..]);
      forall k
        ensures WithKey(key, Sort(key, s), k) == WithKey(key, s, k)
      {
        InsertGroups(key, s[0], Sort(key, s[1..]), k);
      }
    }
  }

  /** Every key in `s` is a number no smaller than `b`. */
  predicate AtLeast<T>(key: T -> Option<int>, b: int, s: seq<T>)
  {
    forall i :: 0 <= i < |s| ==> key(s[i]).Some? && key(s[i]).value >= b
  }

  lemma {:induction false} InsertAtLeast<T>(key: T -> Option<int>, b: int, x: T, t: seq<T>)
    requires key(x).Some? && key(x).value >= b && AtLeast(key, b, t)
    ensures AtLeast(key, b, Insert(key, x, t))
  {
    if |t| > 0 && Compare(key, x, t[0]) > 0 {
      InsertAtLeast(key, b, x, t[1..]);
    }
  }

  lemma AscendingCons<T>(key: T -> Option<int>, a: T, t: seq<T>)
    requires key(a).Some? && Ascending(key, t) && AtLeast(key, key(a).value, t)
    ensures Ascending(key, [a] + t)
  {
  }

  /** Inserting a keyed element into an ascending sequence keeps it
      ascending. */
  lemma {:induction false} InsertAscending<T>(key: T -> Option<int>, x: T, t: seq<T>)
    requires key(x).Some? && Ascending(key, t)
    ensures Ascending(key, Insert(key, x, t))
  {
    if |t| == 0 {
    } else if Compare(key, x, t[0]) <= 0 {
      assert AtLeast(key, key(x).value, t);
      AscendingCons(key, x, t);
    } else {
      var tail := t[1..];
      assert Ascending(key, tail);
      assert AtLeast(key, key(t[0]).value, tail);
      InsertAscending(key, x, tail);
      InsertAtLeast(key, key(t[0]).value, x, tail);
      AscendingCons(key, t[0], Insert(key, x, tail));
    }
  }

  /** When every key is a number, the sorted sequence is ascending. */
  lemma {:induction false} SortAscending<T>(key: T -> Option<int>, s: seq<T>)
    requires AllKeyed(key, s)
    ensures Ascending(key, Sort(key, s))
  {
    if |s| > 0 {
      SortAscending(key, s[1..]);
      InsertAscending(key, s[0], Sort(key, s[1..]));
    }
  }

  /** The sorted sequence is ascending whenever every key is a number. */
  lemma {:induction false} SortAscendingWhenKeyed<T>(key: T -> Option<int>, s: seq<T>)
    ensures AllKeyed(key, s) ==> Ascending(key, Sort(key, s))
  {
    if AllKeyed(key, s) {
      SortAscending(key, s);
    }
  }

  /** Grouping by key distributes over concatenation. */
  lemma {:induction false} WithKeyAppend<T>(key: T -> Option<int>, a: seq<T>, b: seq<T>, k: Option<int>)
    ensures WithKey(key, a + b, k) == WithKey(key, a, k) + WithKey(key, b, k)
  {
    if |a| > 0 {
      assert (a + b)[0] == a[0] && (a + b)[1..] == a[1..] + b;
      WithKeyAppend(key, a[1..], b, k);
    } else {
      assert a + b == b;
    }
  }

  /** A run in which no element carries key `k` has an empty `k` group. */
  lemma {:induction false} WithKeyNone<T>(key: T -> Option<int>, s: seq<T>, k: Option<int>)
    requires forall i :: 0 <= i < |s| ==> key(s[i]) != k
    ensures WithKey(key, s, k) == []
  {
    if |s| > 0 {
      WithKeyNone(key, s[1..], k);
    }
  }

  /** When no element after `s[j]` shares its key, `s[j]` closes its group. */
  lemma {:induction false} WithKeyLast<T>(key: T -> Option<int>, s: seq<T>, j: int, k: Option<int>)
    requires 0 <= j < |s| && key(s[j]) == k
    requires forall i :: j < i < |s| ==> key(s[i]) != k
    ensures var w := WithKey(key, s, k); |w| > 0 && w[|w| - 1] == s[j]
  {
    assert s == s[..j] + ([s[j]] + s[j + 1..]);
    WithKeyAppend(key, s[..j], [s[j]] + s[j + 1..], k);
    WithKeyAppend(key, [s[j]], s[j + 1..], k);
    assert WithKey(key, [s[j]], k) == [s[j]] by {
      assert [s[j]][1..] == [];
    }
    WithKeyNone(key, s[j + 1..], k);
  }

  /** The last element of the sorted sequence carries the greatest key. */
  lemma {:induction false} SortLastIsGreatest<T>(key: T -> Option<int>, s: seq<T>)
    requires |s| > 0 && AllKeyed(key, s)
    ensures var r := Sort(key, s);
      && r[|r| - 1] in s
      && forall i :: 0 <= i < |s| ==> key(s[i]).value <= key(r[|r| - 1]).value
  {
    var r := Sort(key, s);
    SortAscending(key, s);
    assert r[|r| - 1] in multiset(s);
    forall i | 0 <= i < |s|
      ensures key(s[i]).value <= key(r[|r| - 1]).value
    {
      assert s[i] in multiset(r);
      var j :| 0 <= j < |r| && r[j] == s[i];
    }
  }

  /** An ascending rearrangement that keeps the group of the greatest key
      in order ends with the last element of `s` carrying that key. */
  lemma {:induction false} AscendingEndsWithLastGreatest<T>(key: T -> Option<int>, s: seq<T>, r: seq<T>, j: int)
    requires AllKeyed(key, s) && 0 <= j < |s|
    requires forall m :: 0 <= m < |s| ==> key(s[m]).value <= key(s[j]).value
    requires forall m :: j < m < |s| ==> key(s[m]) != key(s[j])
    requires Ascending(key, r) && multiset(r) == multiset(s)
    requires WithKey(key, r, key(s[j])) == WithKey(key, s, key(s[j]))
    ensures |r| == |s| && r[|r| - 1] == s[j]
  {
    assert |r| == |multiset(r)| == |multiset(s)| == |s|;
    var n := |r| - 1;
    var k := key(s[j]);
    assert key(r[n]) == k by {
      assert r[n] in multiset(s);
      var m :| 0 <= m < |s| && s[m] == r[n];
      assert s[j] in multiset(r);
      var q :| 0 <= q < |r| && r[q] == s[j];
      assert key(r[q]).value <= key(r[n]).value;
    }
    SameGroupSameLast(key, s, r, j, k);
  }

  /** The sorted sequence ends with the last element carrying the greatest
      key. */
  lemma {:induction false} SortEndsWithLastGreatest<T>(key: T -> Option<int>, s: seq<T>, j: int)
    requires AllKeyed(key, s) && 0 <= j < |s|
    requires forall m :: 0 <= m < |s| ==> key(s[m]).value <= key(s[j]).value
    requires forall m :: j < m < |s| ==> key(s[m]) != key(s[j])
    ensures Sort(key, s)[|s| - 1] == s[j]
  {
    SortLastKey(key, s, j);
    SortGroup(key, s, key(s[j]));
    SameGroupSameLast(key, s, Sort(key, s), j, key(s[j]));
  }

  /** The last element of the sorted sequence carries the greatest key. */
  lemma {:induction false} SortLastKey<T>(key: T -> Option<int>, s: seq<T>, j: int)
    requires AllKeyed(key, s) && 0 <= j < |s|
    requires forall m :: 0 <= m < |s| ==> key(s[m]).value <= key(s[j]).value
    ensures key(Sort(key, s)[|s| - 1]) == key(s[j])
  {
    var r := Sort(key, s);
    SortLastIsGreatest(key, s);
    GreatestKeyAgrees(key, s, r[|r| - 1], j);
  }

  /** An element of `s` whose key bounds every key of `s` has the key of any
      other such element. */
  lemma {:induction false} GreatestKeyAgrees<T>(key: T -> Option<int>, s: seq<T>, x: T, j: int)
    requires AllKeyed(key, s) && 0 <= j < |s| && x in s
    requires forall m :: 0 <= m < |s| ==> key(s[m]).value <= key(s[j]).value
    requires forall m :: 0 <= m < |s| ==> key(s[m]).value <= key(x).value
    ensures key(x) == key(s[j])
  {
    var m :| 0 <= m < |s| && s[m] == x;
    assert key(x).value <= key(s[j]).value;
    assert key(s[j]).value <= key(x).value;
  }

  /** The sorted sequence lists the elements of key `k` in input order. */
  lemma {:induction false} SortGroup<T>(key: T -> Option<int>, s: seq<T>, k: Option<int>)
    ensures WithKey(key, Sort(key, s), k) == WithKey(key, s, k)
  {
    SortStable(key, s);
  }

  /** Two sequences with the same `k` group end that group with the same
      element. */
  lemma {:induction false} SameGroupSameLast<T>(key: T -> Option<int>, s: seq<T>, r: seq<T>, j: int, k: Option<int>)
    requires 0 <= j < |s| && key(s[j]) == k
    requires forall i :: j < i < |s| ==> key(s[i]) != k
    requires |r| > 0 && key(r[|r| - 1]) == k
    requires WithKey(key, r, k) == WithKey(key, s, k)
    ensures r[|r| - 1] == s[j]
  {
    WithKeyLast(key, r, |r| - 1, k);
    WithKeyLast(key, s, j, k);
  }

  /** Two ascending sequences with the same groups start with the same
      element: the head of each carries the least key, so it opens that
      key's group in both. */
  lemma HeadsAgree<T>(key: T -> Option<int>, r1: seq<T>, r2: seq<T>)
    requires Ascending(key, r1) && Ascending(key, r2) && |r1| > 0 && |r2| > 0
    requires forall k :: WithKey(key, r1, k) == WithKey(key, r2, k)
    ensures r1[0] == r2[0]
  {
    WithKeyHead(key, r1);
    WithKeyHead(key, r2);
    var k1, k2 := key(r1[0]), key(r2[0]);
    assert k2.value <= k1.value by {
      assert r1[0] in WithKey(key, r2, k1);
      WithKeyMembers(key, r2, k1, r1[0]);
      var q :| 0 <= q < |r2| && r2[q] == r1[0];
    }
    assert k1.value <= k2.value by {
      assert r2[0] in WithKey(key, r1, k2);
      WithKeyMembers(key, r1, k2, r2[0]);
      var q :| 0 <= q < |r1| && r1[q] == r2[0];
    }
    assert WithKey(key, r1, k1)[0] == WithKey(key, r2, k1)[0];
  }

  /** Dropping a common head keeps the groups equal. */
  lemma TailGroups<T>(key: T -> Option<int>, r1: seq<T>, r2: seq<T>)
    requires |r1| > 0 && |r2| > 0 && r1[0] == r2[0]
    requires forall k :: WithKey(key, r1, k) == WithKey(key, r2, k)
    ensures forall k :: WithKey(key, r1[1..], k) == WithKey(key, r2[1..], k)
  {
    forall k
      ensures WithKey(key, r1[1..], k) == WithKey(key, r2[1..], k)
    {
      var own := if key(r1[0]) == k then [r1[0]] else [];
      var w1, w2 := WithKey(key, r1[1..], k), WithKey(key, r2[1..], k);
      WithKeyCons(key, r1[0], r1[1..], k);
      WithKeyCons(key, r2[0], r2[1..], k);
      assert r1 == [r1[0]] + r1[1..] && r2 == [r2[0]] + r2[1..];
      CancelPrefix(own, w1, w2);
    }
  }

  lemma CancelPrefix<T>(a: seq<T>, b: seq<T>, c: seq<T>)
    requires a + b == a + c
    ensures b == c
  {
    assert b == (a + b)[|a|..] && c == (a + c)[|a|..];
  }

  /** Two ascending sequences with the same groups, in the same order
      within each group, are equal. */
  lemma {:induction false} GroupsDetermine<T>(key: T -> Option<int>, r1: seq<T>, r2: seq<T>)
    requires Ascending(key, r1) && Ascending(key, r2)
    requires forall k :: WithKey(key, r1, k) == WithKey(key, r2, k)
    ensures r1 == r2
    decreases |r1|
  {
    if |r1| > 0 {
      WithKeyHead(key, r1);
    }
    if |r2| > 0 {
      WithKeyHead(key, r2);
    }
    if |r1| > 0 && |r2| > 0 {
      HeadsAgree(key, r1, r2);
      TailGroups(key, r1, r2);
      GroupsDetermine(key, r1[1..], r2[1..]);
      assert r1 == [r1[0]] + r1[1..] && r2 == [r2[0]] + r2[1..];
    }
  }

  /** The sort is the only stable ascending rearrangement: any sequence that
      is ascending and keeps equal keys in their original order is the
      sorted one. */
  lemma {:induction false} StableSortUnique<T>(key: T -> Option<int>, s: seq<T>, r: seq<T>)
    requires AllKeyed(key, s)
    requires Ascending(key, r) && StableWrt(key, s, r)
    ensures r == Sort(key, s)
  {
    SortStable(key, s);
    SortAscending(key, s);
    GroupsDetermine(key, r, Sort(key, s));
  }

  /** Sorting an already sorted sequence changes nothing. */
  lemma {:induction false} SortIdempotent<T>(key: T -> Option<int>, s: seq<T>)
    requires AllKeyed(key, s)
    ensures Sort(key, Sort(key, s)) == Sort(key, s)
  {
    SortAscending(key, s);
    SortAscending(key, Sort(key, s));
    SortStable(key, Sort(key, s));
    GroupsDetermine(key, Sort(key, Sort(key, s)), Sort(key, s));
  }
}
