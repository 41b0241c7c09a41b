/** The `cols = defaultdict(list); for x in xs: cols[key(x)].append(x)` idiom
    that the source uses to group forms by token, forms by CLICS form, nodes by
    community and edges by cluster index. */
module Grouping {

  /** A dict of lists: `order` lists the keys in insertion order (the order a
      Python dict iterates them in), `members` maps each key to its list. */
  datatype Groups<K, V> = Groups(order: seq<K>, members: map<K, seq<V>>)

  /** The elements of `xs` whose key is `k`, in input order. */
  function Members<K(==,!new), V(!new)>(xs: seq<V>, key: V -> K, k: K): (r: seq<V>)
    ensures |r| <= |xs|
    ensures forall x :: x in r <==> x in xs && key(x) == k
  {
    if |xs| == 0 then []
    else Members(xs[..|xs| - 1], key, k) + (if key(xs[|xs| - 1]) == k then [xs[|xs| - 1]] else [])
  }

  lemma {:induction false} MembersNone<K(!new), V(!new)>(xs: seq<V>, key: V -> K, k: K)
    requires forall x :: x in xs ==> key(x) != k
    ensures Members(xs, key, k) == []
  {
    if |xs| > 0 {
      MembersNone(xs[..|xs| - 1], key, k);
    }
  }

  /** The elements of `xs` satisfying `p`, in input order (a Python
      comprehension with an `if`, or a loop with a `continue`). */
  function Filter<V(!new)>(xs: seq<V>, p: V -> bool): (r: seq<V>)
    ensures |r| <= |xs|
    ensures forall x :: x in r <==> x in xs && p(x)
  {
    if |xs| == 0 then []
    else Filter(xs[..|xs| - 1], p) + (if p(xs[|xs| - 1]) then [xs[|xs| - 1]] else [])
  }

  /** Index of the first element of `xs` with key `k`, or `|xs|` if none. */
  ghost function FirstIndex<K(!new), V(!new)>(xs: seq<V>, key: V -> K, k: K): (i: nat)
    ensures i <= |xs|
  {
    if |xs| == 0 then 0
    else if key(xs[0]) == k then 0
    else 1 + FirstIndex(xs[1..], key, k)
  }

  /** The first index holds the first element with key `k`; it is `|xs|`
      exactly when no element has key `k`. */
  lemma {:induction false} FirstIndexMeans<K(!new), V(!new)>(xs: seq<V>, key: V -> K, k: K)
    ensures FirstIndex(xs, key, k) < |xs| ==> key(xs[FirstIndex(xs, key, k)]) == k
    ensures FirstIndex(xs, key, k) == |xs| ==> forall x :: x in xs ==> key(x) != k
    ensures forall j :: 0 <= j < FirstIndex(xs, key, k) ==> key(xs[j]) != k
  {
    if |xs| > 0 && key(xs[0]) != k {
      FirstIndexMeans(xs[1..], key, k);
      assert forall x :: x in xs ==> x == xs[0] || x in xs[1..];
    }
  }

  predicate Distinct<K(==)>(s: seq<K>)
  {
    forall i, j :: 0 <= i < j < |s| ==> s[i] != s[j]
  }

  /** One step of the loop: `cols[key(x)].append(x)`. */
  function Add<K(==,!new), V(!new)>(g: Groups<K, V>, x: V, key: V -> K): (r: Groups<K, V>)
    requires Distinct(g.order)
    requires forall k :: k in g.order <==> k in g.members
    ensures Distinct(r.order)
    ensures forall k :: k in r.order <==> k in r.members
  {
    var k := key(x);
    if k in g.members then Groups(g.order, g.members[k := g.members[k] + [x]])
    else Groups(g.order + [k], g.members[k := [x]])
  }

  /** The defaultdict-append loop, run over `xs` from left to right. */
  function GroupBy<K(==,!new), V(!new)>(xs: seq<V>, key: V -> K): (g: Groups<K, V>)
    ensures Distinct(g.order)
    ensures forall k :: k in g.order <==> k in g.members
  {
    if |xs| == 0 then Groups([], map[])
    else Add(GroupBy(xs[..|xs| - 1], key), xs[|xs| - 1], key)
  }

  /** Every key of an element is listed, and only those. */
  lemma {:induction false} GroupByKeys<K(!new), V(!new)>(xs: seq<V>, key: V -> K)
    ensures forall k :: k in GroupBy(xs, key).members <==> exists x :: x in xs && key(x) == k
  {
    if |xs| > 0 {
      var init := xs[..|xs| - 1];
      var x := xs[|xs| - 1];
      GroupByKeys(init, key);
      assert xs == init + [x];
      var r := GroupBy(xs, key);
      forall k ensures k in r.members <==> exists y :: y in xs && key(y) == k {
        if k == key(x) {
          assert x in xs;
        } else if k in r.members {
          var y :| y in init && key(y) == k;
          assert y in xs;
        } else {
          assert forall y :: y in xs ==> y in init || y == x;
        }
      }
    }
  }

  /** Each key's list is exactly the elements with that key, in input order. */
  lemma {:induction false} GroupByLists<K(!new), V(!new)>(xs: seq<V>, key: V -> K)
    ensures forall k :: k in GroupBy(xs, key).members ==> GroupBy(xs, key).members[k] == Members(xs, key, k)
  {
    if |xs| > 0 {
      var init := xs[..|xs| - 1];
      var x := xs[|xs| - 1];
      GroupByLists(init, key);
      GroupByKeys(init, key);
      var g := GroupBy(init, key);
      var r := GroupBy(xs, key);
      forall k | k in r.members ensures r.members[k] == Members(xs, key, k) {
        assert Members(xs, key, k) == Members(init, key, k) + (if key(x) == k then [x] else []);
        if k !in g.members {
          MembersNone(init, key, k);
        }
      }
    }
  }

  /** Appending `y` to `init` keeps a first index below `|init|` and gives
      a key first seen in `y` the index `|init|`. */
  lemma {:induction false} FirstIndexSnoc<K(!new), V(!new)>(init: seq<V>, y: V, key: V -> K, k: K)
    ensures FirstIndex(init, key, k) < |init| ==> FirstIndex(init + [y], key, k) == FirstIndex(init, key, k)
    ensures FirstIndex(init, key, k) == |init| && key(y) == k ==> FirstIndex(init + [y], key, k) == |init|
  {
    if |init| > 0 {
      assert (init + [y])[1..] == init[1..] + [y];
      FirstIndexSnoc(init[1..], y, key, k);
    }
  }

  /** Appending an element keeps the first index of every key already
      listed, and gives a new key the index of the appended element. */
  lemma FirstIndexAppend<K(!new), V(!new)>(xs: seq<V>, init: seq<V>, key: V -> K)
    requires |xs| > 0 && init == xs[..|xs| - 1]
    ensures forall i :: 0 <= i < |GroupBy(init, key).order| ==>
      FirstIndex(xs, key, GroupBy(init, key).order[i]) == FirstIndex(init, key, GroupBy(init, key).order[i]) < |init|
    ensures key(xs[|init|]) !in GroupBy(init, key).members ==> FirstIndex(xs, key, key(xs[|init|])) == |init|
  {
    GroupByKeys(init, key);
    assert xs == init + [xs[|init|]];
    var g := GroupBy(init, key);
    forall i | 0 <= i < |g.order|
      ensures FirstIndex(xs, key, g.order[i]) == FirstIndex(init, key, g.order[i]) < |init|
    {
      var k := g.order[i];
      assert k in g.members;
      var y :| y in init && key(y) == k;
      FirstIndexMeans(init, key, k);
      FirstIndexSnoc(init, xs[|init|], key, k);
    }
    if key(xs[|init|]) !in g.members {
      FirstIndexMeans(init, key, key(xs[|init|]));
      FirstIndexSnoc(init, xs[|init|], key, key(xs[|init|]));
    }
  }

  /** One element either extends the key list by its own key or leaves it. */
  lemma GroupByOrderStep<K(!new), V(!new)>(xs: seq<V>, init: seq<V>, key: V -> K)
    requires |xs| > 0 && init == xs[..|xs| - 1]
    ensures key(xs[|init|]) in GroupBy(init, key).members ==> GroupBy(xs, key).order == GroupBy(init, key).order
    ensures key(xs[|init|]) !in GroupBy(init, key).members ==>
      GroupBy(xs, key).order == GroupBy(init, key).order + [key(xs[|init|])]
  {
  }

  /** Keys are listed in the order their first element appears. */
  lemma {:induction false} GroupByOrder<K(!new), V(!new)>(xs: seq<V>, key: V -> K)
    ensures forall i, j :: 0 <= i < j < |GroupBy(xs, key).order| ==>
      FirstIndex(xs, key, GroupBy(xs, key).order[i]) < FirstIndex(xs, key, GroupBy(xs, key).order[j]) < |xs|
  {
    if |xs| > 0 {
      var init := xs[..|xs| - 1];
      GroupByOrder(init, key);
      FirstIndexAppend(xs, init, key);
      GroupByOrderStep(xs, init, key);
      var o0 := GroupBy(init, key).order;
      var o := GroupBy(xs, key).order;
      forall i, j | 0 <= i < j < |o|
        ensures FirstIndex(xs, key, o[i]) < FirstIndex(xs, key, o[j]) < |xs|
      {
        assert o[i] == o0[i];
        if j < |o0| {
          assert o[j] == o0[j];
        }
      }
    }
  }

  /** The lists of a grouping in key order (Python `list(cols.values())`). */
  function Values<K(==,!new), V(!new)>(g: Groups<K, V>): (r: seq<seq<V>>)
    requires forall k :: k in g.order ==> k in g.members
    ensures |r| == |g.order|
    ensures forall i :: 0 <= i < |r| ==> r[i] == g.members[g.order[i]]
    decreases |g.order|
  {
    if |g.order| == 0 then []
    else [g.members[g.order[0]]] + Values(Groups(g.order[1..], g.members))
  }

  /** Every element of the input lands in exactly the group of its own key,
      and no group is empty. */
  lemma {:induction false} GroupByPartition<K(!new), V(!new)>(xs: seq<V>, key: V -> K)
    ensures forall x :: x in xs ==>
      key(x) in GroupBy(xs, key).members && x in GroupBy(xs, key).members[key(x)]
    ensures forall k, x :: k in GroupBy(xs, key).members && x in GroupBy(xs, key).members[k] ==> key(x) == k
    ensures forall k :: k in GroupBy(xs, key).members ==> |GroupBy(xs, key).members[k]| > 0
  {
    GroupByKeys(xs, key);
    GroupByLists(xs, key);
    var g := GroupBy(xs, key);
    forall k | k in g.members
      ensures |g.members[k]| > 0
    {
      var x :| x in xs && key(x) == k;
      assert x in Members(xs, key, k);
    }
  }

  /** Read as a list of lists: every element is in the list of its key. */
  lemma GroupValuesCover<K(!new), V(!new)>(xs: seq<V>, key: V -> K)
    ensures forall x :: x in xs ==>
      exists i :: 0 <= i < |Values(GroupBy(xs, key))| && x in Values(GroupBy(xs, key))[i] && key(x) == GroupBy(xs, key).order[i]
  {
    forall x | x in xs
      ensures exists i :: 0 <= i < |Values(GroupBy(xs, key))| && x in Values(GroupBy(xs, key))[i] && key(x) == GroupBy(xs, key).order[i]
    {
      var i := GroupValueOf(xs, key, x);
    }
  }

  /** The position of the list an element of the input lands in. */
  lemma GroupValueOf<K(!new), V(!new)>(xs: seq<V>, key: V -> K, x: V) returns (i: nat)
    requires x in xs
    ensures i < |Values(GroupBy(xs, key))| && x in Values(GroupBy(xs, key))[i] && key(x) == GroupBy(xs, key).order[i]
  {
    var g := GroupBy(xs, key);
    GroupByPartition(xs, key);
    assert key(x) in g.order;
    i :| 0 <= i < |g.order| && g.order[i] == key(x);
    assert Values(g)[i] == g.members[key(x)];
  }

  /** The list at position `i` holds only input elements with the `i`-th key. */
  lemma GroupValueIn<K(!new), V(!new)>(xs: seq<V>, key: V -> K, i: nat, x: V)
    requires i < |Values(GroupBy(xs, key))| && x in Values(GroupBy(xs, key))[i]
    ensures x in xs && key(x) == GroupBy(xs, key).order[i]
  {
    var g := GroupBy(xs, key);
    var k := g.order[i];
    assert k in g.members;
    assert x in g.members[k];
    GroupByPartition(xs, key);
    GroupByLists(xs, key);
    assert x in Members(xs, key, k);
  }

  /** No list is empty. */
  lemma GroupValuesNonEmpty<K(!new), V(!new)>(xs: seq<V>, key: V -> K)
    ensures forall i :: 0 <= i < |Values(GroupBy(xs, key))| ==> |Values(GroupBy(xs, key))[i]| > 0
  {
    var g := GroupBy(xs, key);
    GroupByPartition(xs, key);
    forall i | 0 <= i < |Values(g)| ensures |Values(g)[i]| > 0 {
      assert g.order[i] in g.members;
    }
  }

  /** Two elements with one key make a single list of both. */
  lemma GroupPair<K(!new), V(!new)>(a: V, b: V, key: V -> K)
    requires key(a) == key(b)
    ensures GroupBy([a, b], key) == Groups([key(a)], map[key(a) := [a, b]])
    ensures Values(GroupBy([a, b], key)) == [[a, b]]
  {
    var k := key(a);
    assert [a, b][..1] == [a];
    assert [a][..0] == [];
    var g0: Groups<K, V> := Groups([], map[]);
    assert GroupBy([a][..0], key) == g0;
    var g1 := GroupBy([a], key);
    assert g1 == Add(g0, a, key);
    assert g0.order + [k] == [k];
    assert g1 == Groups([k], map[k := [a]]);
    assert GroupBy([a, b], key) == Add(g1, b, key);
    assert [a] + [b] == [a, b];
    assert map[k := [a]][k := [a] + [b]] == map[k := [a, b]];
  }

  /** The lists `f(w)` for the elements `w` of `ws`, joined left to right. */
  function ConcatMap<W, T>(ws: seq<W>, f: W -> seq<T>): seq<T>
  {
    if |ws| == 0 then []
    else ConcatMap(ws[..|ws| - 1], f) + f(ws[|ws| - 1])
  }

  /** An element of the joined list comes from the list of some `w`, and
      every such element is in it. */
  lemma {:induction false} ConcatMapMeans<W, T>(ws: seq<W>, f: W -> seq<T>, c: T)
    ensures c in ConcatMap(ws, f) <==> exists i :: 0 <= i < |ws| && c in f(ws[i])
  {
    if |ws| > 0 {
      var init := ws[..|ws| - 1];
      ConcatMapMeans(init, f, c);
      if c in ConcatMap(init, f) {
        var i :| 0 <= i < |init| && c in f(init[i]);
        assert ws[i] == init[i];
      } else if c !in f(ws[|init|]) {
        forall i | 0 <= i < |ws| ensures c !in f(ws[i]) {
          if i < |init| {
            assert init[i] == ws[i];
          }
        }
      }
    }
  }

  /** A subset is no larger than its superset. */
  lemma SubsetCard<V>(s: set<V>, t: set<V>)
    requires s <= t
    ensures |s| <= |t|
  {
    assert t == s + (t - s);
  }

  /** A rejected first element leaves no trace in the filter. */
  lemma {:induction false} FilterSkipFront<V(!new)>(x: V, xs: seq<V>, p: V -> bool)
    requires !p(x)
    ensures Filter([x] + xs, p) == Filter(xs, p)
  {
    if |xs| > 0 {
      var n := |xs| - 1;
      assert ([x] + xs)[..n + 1] == [x] + xs[..n];
      FilterSkipFront(x, xs[..n], p);
    }
  }

  /** Filtering a list with no passing element leaves nothing. */
  lemma {:induction false} FilterNone<V(!new)>(xs: seq<V>, p: V -> bool)
    requires forall i :: 0 <= i < |xs| ==> !p(xs[i])
    ensures Filter(xs, p) == []
  {
    if |xs| > 0 {
      FilterNone(xs[..|xs| - 1], p);
    }
  }

  /** Filtering keeps a list whose every element passes. */
  lemma {:induction false} FilterAll<V(!new)>(xs: seq<V>, p: V -> bool)
    requires forall i :: 0 <= i < |xs| ==> p(xs[i])
    ensures Filter(xs, p) == xs
  {
    if |xs| > 0 {
      FilterAll(xs[..|xs| - 1], p);
    }
  }
}
