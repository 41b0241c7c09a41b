/** Python's `sorted(xs, key=..., reverse=...)` as a stable insertion sort
    over a total preorder `le` ("may come before").

    A descending sort on a key is the preorder `key(a) >= key(b)`; Python's
    `reverse=True` keeps equal-key elements in input order, which is exactly
    stability with respect to that preorder. */
module Sorting {

  ghost predicate TotalPreorder<T(!new)>(le: (T, T) -> bool)
  {
    && (forall a, b :: le(a, b) || le(b, a))
    && (forall a, b, c :: le(a, b) && le(b, c) ==> le(a, c))
  }

  predicate SortedBy<T>(s: seq<T>, le: (T, T) -> bool)
  {
    forall i, j :: 0 <= i < j < |s| ==> le(s[i], s[j])
  }

  /** Inserts `x` after every element that may precede it, so that `x` lands
      behind the elements equivalent to it. */
  function Insert<T>(s: seq<T>, x: T, le: (T, T) -> bool): (r: seq<T>)
    ensures |r| == |s| + 1
  {
    if |s| == 0 then [x]
    else if le(s[0], x) then [s[0]] + Insert(s[1..], x, le)
    else [x] + s
  }

  /** Inserting adds `x` and loses nothing. */
  lemma {:induction false} InsertPerm<T>(s: seq<T>, x: T, le: (T, T) -> bool)
    ensures multiset(Insert(s, x, le)) == multiset(s) + multiset{x}
  {
    if |s| > 0 && le(s[0], x) {
      InsertPerm(s[1..], x, le);
      assert s == [s[0]] + s[1..];
    }
  }

  function Sort<T>(s: seq<T>, le: (T, T) -> bool): (r: seq<T>)
    ensures |r| == |s|
  {
    if |s| == 0 then []
    else Insert(Sort(s[..|s| - 1], le), s[|s| - 1], le)
  }

  lemma {:induction false} InsertSorted<T(!new)>(s: seq<T>, x: T, le: (T, T) -> bool)
    requires TotalPreorder(le)
    requires SortedBy(s, le)
    ensures SortedBy(Insert(s, x, le), le)
  {
    if |s| > 0 && le(s[0], x) {
      InsertSorted(s[1..], x, le);
      var r := Insert(s, x, le);
      var t := Insert(s[1..], x, le);
      InsertPerm(s[1..], x, le);
      assert r == [s[0]] + t;
      assert forall k :: 0 <= k < |t| ==> t[k] in multiset(t);
      forall j | 0 < j < |r|
        ensures le(r[0], r[j])
      {
        assert r[j] == t[j - 1];
        assert r[j] in multiset(s[1..]) + multiset{x};
        if r[j] != x {
          assert r[j] in s[1..];
        }
      }
    }
  }

  /** The result is ordered and a permutation of the input. */
  lemma {:induction false} SortSorted<T(!new)>(s: seq<T>, le: (T, T) -> bool)
    requires TotalPreorder(le)
    ensures SortedBy(Sort(s, le), le)
    ensures multiset(Sort(s, le)) == multiset(s)
  {
    if |s| > 0 {
      SortSorted(s[..|s| - 1], le);
      InsertSorted(Sort(s[..|s| - 1], le), s[|s| - 1], le);
      InsertPerm(Sort(s[..|s| - 1], le), s[|s| - 1], le);
      assert s == s[..|s| - 1] + [s[|s| - 1]];
    }
  }

  /** The elements of `s` equivalent to `z` under `le`, in order. */
  function Equivalents<T>(s: seq<T>, z: T, le: (T, T) -> bool): seq<T>
  {
    if |s| == 0 then []
    else (if le(s[0], z) && le(z, s[0]) then [s[0]] else []) + Equivalents(s[1..], z, le)
  }

  lemma {:induction false} EquivalentsAppend<T>(a: seq<T>, b: seq<T>, z: T, le: (T, T) -> bool)
    ensures Equivalents(a + b, z, le) == Equivalents(a, z, le) + Equivalents(b, z, le)
  {
    if |a| > 0 {
      EquivalentsAppend(a[1..], b, z, le);
      assert (a + b)[1..] == a[1..] + b;
    } else {
      assert a + b == b;
    }
  }

  lemma {:induction false} InsertStable<T(!new)>(s: seq<T>, x: T, z: T, le: (T, T) -> bool)
    requires TotalPreorder(le)
    requires SortedBy(s, le)
    ensures Equivalents(Insert(s, x, le), z, le) == Equivalents(s, z, le) + Equivalents([x], z, le)
  {
    if |s| == 0 {
    } else if le(s[0], x) {
      InsertStable(s[1..], x, z, le);
      InsertBehindStable(s, x, z, le);
    } else {
      assert Insert(s, x, le) == [x] + s;
      InsertFrontStable(s, x, z, le);
    }
  }

  /** When `x` goes behind the head, stability of the tail carries over. */
  lemma InsertBehindStable<T>(s: seq<T>, x: T, z: T, le: (T, T) -> bool)
    requires |s| > 0 && le(s[0], x)
    requires Equivalents(Insert(s[1..], x, le), z, le) == Equivalents(s[1..], z, le) + Equivalents([x], z, le)
    ensures Equivalents(Insert(s, x, le), z, le) == Equivalents(s, z, le) + Equivalents([x], z, le)
  {
    var head := Equivalents([s[0]], z, le);
    var tail := Insert(s[1..], x, le);
    assert Insert(s, x, le) == [s[0]] + tail;
    EquivalentsAppend([s[0]], tail, z, le);
    EquivalentsAppend([s[0]], s[1..], z, le);
    assert [s[0]] + s[1..] == s;
    AppendAssoc(head, Equivalents(s[1..], z, le), Equivalents([x], z, le));
  }

  lemma AppendAssoc<T>(a: seq<T>, b: seq<T>, c: seq<T>)
    ensures a + (b + c) == (a + b) + c
  {
  }

  /** When `x` goes in front, every element of `s` is strictly after `x`,
      so none of them is equivalent to `x`. */
  lemma InsertFrontStable<T(!new)>(s: seq<T>, x: T, z: T, le: (T, T) -> bool)
    requires TotalPreorder(le)
    requires SortedBy(s, le)
    requires |s| > 0 && !le(s[0], x)
    ensures Equivalents([x] + s, z, le) == Equivalents(s, z, le) + Equivalents([x], z, le)
  {
    EquivalentsAppend([x], s, z, le);
    if le(x, z) && le(z, x) {
      NoEquivalents(s, x, z, le);
      assert Equivalents(s, z, le) == [];
    } else {
      assert Equivalents([x], z, le) == [];
    }
  }

  lemma {:induction false} NoEquivalents<T(!new)>(s: seq<T>, x: T, z: T, le: (T, T) -> bool)
    requires TotalPreorder(le)
    requires SortedBy(s, le)
    requires |s| > 0 && !le(s[0], x)
    requires le(x, z) && le(z, x)
    ensures Equivalents(s, z, le) == []
  {
    if |s| > 1 {
      assert le(s[0], s[1]);
      NoEquivalents(s[1..], x, z, le);
    }
  }

  /** Stability: equivalent elements keep their relative input order. */
  lemma {:induction false} SortStable<T(!new)>(s: seq<T>, z: T, le: (T, T) -> bool)
    requires TotalPreorder(le)
    ensures Equivalents(Sort(s, le), z, le) == Equivalents(s, z, le)
  {
    if |s| > 0 {
      var init := s[..|s| - 1];
      SortStable(init, z, le);
      SortSorted(init, le);
      InsertStable(Sort(init, le), s[|s| - 1], z, le);
      EquivalentsAppend(init, [s[|s| - 1]], z, le);
      assert init + [s[|s| - 1]] == s;
    }
  }
}
