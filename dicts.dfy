/**
 * Python dictionaries as sequences of (key, value) pairs in insertion order,
 * because that order decides both how `sorted` breaks ties and in which
 * order the decompressors undo substitutions. Also Python's stable `sorted`
 * with a numeric key and `reverse=True`.
 */
module Dicts {

  datatype Option<T> = None | Some(value: T)

  type Dict<V> = seq<(string, V)>

  function Keys<V>(d: Dict<V>): (ks: seq<string>)
    ensures |ks| == |d|
    ensures forall i :: 0 <= i < |d| ==> ks[i] == d[i].0
  {
    seq(|d|, i requires 0 <= i < |d| => d[i].0)
  }

  /** A Python dict never holds one key twice. */
  predicate DistinctKeys<V>(d: Dict<V>) {
    forall i, j :: 0 <= i < j < |d| ==> d[i].0 != d[j].0
  }

  /** `k in d`. */
  predicate HasKey<V>(d: Dict<V>, k: string) {
    exists i :: 0 <= i < |d| && d[i].0 == k
  }

  /** The position of `k` in `d`, the first one if (unlike a dict) it occurs twice. */
  function Find<V>(d: Dict<V>, k: string): (r: Option<nat>)
    ensures r.Some? ==> r.value < |d| && d[r.value].0 == k
    ensures r.Some? ==> forall j :: 0 <= j < r.value ==> d[j].0 != k
    ensures r.None? <==> !HasKey(d, k)
  {
    if d == [] then None
    else if d[0].0 == k then Some(0)
    else match Find(d[1..], k)
      case None => None
      case Some(j) => Some(j + 1)
  }

  /** `d.get(k)`. */
  function Get<V>(d: Dict<V>, k: string): (r: Option<V>)
    ensures r.Some? <==> HasKey(d, k)
  {
    match Find(d, k)
    case None => None
    case Some(i) => Some(d[i].1)
  }

  /** `d[k] = v`: an existing key keeps its position and takes the new value; a new key goes last. */
  function Put<V>(d: Dict<V>, k: string, v: V): (r: Dict<V>)
    ensures HasKey(d, k) ==> |r| == |d| && Keys(r) == Keys(d)
    ensures !HasKey(d, k) ==> r == d + [(k, v)]
  {
    match Find(d, k)
    case None => d + [(k, v)]
    case Some(i) => d[i := (k, v)]
  }

  /** Reading a key back after `d[k] = v`. */
  lemma PutGet<V>(d: Dict<V>, k: string, v: V, k': string)
    requires DistinctKeys(d)
    ensures DistinctKeys(Put(d, k, v))
    ensures Get(Put(d, k, v), k') == if k' == k then Some(v) else Get(d, k')
  {
    var r := Put(d, k, v);
    match Find(d, k)
    case None =>
      assert r == d + [(k, v)];
      if k' != k {
        FindAppend(d, (k, v), k');
      }
      assert Find(r, k) == Some(|d|) by { FindAppend(d, (k, v), k); }
    case Some(i) =>
      assert r == d[i := (k, v)];
      FindDistinct(r, i);
      if k' != k {
        match Find(d, k')
        case None =>
          assert !HasKey(r, k');
        case Some(j) =>
          FindDistinct(d, j);
          FindDistinct(r, j);
      }
  }
  /** `d[k] = v` keeps the keys distinct. */
  lemma PutDistinct<V>(d: Dict<V>, k: string, v: V)
    requires DistinctKeys(d)
    ensures DistinctKeys(Put(d, k, v))
  {
    PutGet(d, k, v, k);
  }

  /** After `d[k] = v`, `k` is a key and the other keys are those of `d`. */
  lemma PutHasKey<V>(d: Dict<V>, k: string, v: V, k': string)
    requires DistinctKeys(d)
    ensures HasKey(Put(d, k, v), k') <==> HasKey(d, k') || k' == k
  {
    PutGet(d, k, v, k');
    assert HasKey(Put(d, k, v), k') <==> Get(Put(d, k, v), k').Some?;
  }


  /** In a dict, the position `Find` gives is the only one holding that key. */
  lemma FindDistinct<V>(d: Dict<V>, i: nat)
    requires DistinctKeys(d) && i < |d|
    ensures Find(d, d[i].0) == Some(i)
  {
    var r := Find(d, d[i].0);
    assert r.Some?;
  }

  lemma FindAppend<V>(d: Dict<V>, e: (string, V), k: string)
    ensures Find(d + [e], k) == match Find(d, k)
                                 case Some(i) => Some(i)
                                 case None => if e.0 == k then Some(|d|) else None
  {
    if d != [] {
      assert (d + [e])[1..] == d[1..] + [e];
      FindAppend(d[1..], e, k);
    }
  }

  /** Every pair of `d[k] = v` is `(k, v)` or was already in `d`. */
  lemma PutMembers<V>(d: Dict<V>, k: string, v: V, x: (string, V))
    requires x in Put(d, k, v)
    ensures x in d || x == (k, v)
  {
    match Find(d, k)
    case None =>
    case Some(i) =>
      var j :| 0 <= j < |d[i := (k, v)]| && d[i := (k, v)][j] == x;
      if j != i {
        assert d[j] == x;
      }
  }

  /** `{**d, **e}` (and `d.update(e)`): `e`'s pairs put into `d` in order. */
  function Update<V>(d: Dict<V>, e: Dict<V>): (r: Dict<V>)
    decreases |e|
  {
    if e == [] then d else Put(Update(d, e[..|e| - 1]), e[|e| - 1].0, e[|e| - 1].1)
  }

  /** Reading a key of a dict with one more pair at the end. */
  lemma GetAppend<V>(d: Dict<V>, x: (string, V), k: string)
    ensures Get(d + [x], k) == if HasKey(d, k) then Get(d, k) else if x.0 == k then Some(x.1) else None
  {
    FindAppend(d, x, k);
  }

  lemma GetLast<V>(e: Dict<V>, k: string)
    requires e != []
    ensures Get(e, k) == if HasKey(e[..|e| - 1], k) then Get(e[..|e| - 1], k)
                         else if e[|e| - 1].0 == k then Some(e[|e| - 1].1) else None
  {
    assert e == e[..|e| - 1] + [e[|e| - 1]];
    GetAppend(e[..|e| - 1], e[|e| - 1], k);
  }

  lemma {:induction false} UpdateDistinct<V>(d: Dict<V>, e: Dict<V>)
    requires DistinctKeys(d)
    ensures DistinctKeys(Update(d, e))
    decreases |e|
  {
    if e != [] {
      var e', last := e[..|e| - 1], e[|e| - 1];
      UpdateDistinct(d, e');
      PutGet(Update(d, e'), last.0, last.1, last.0);
    }
  }

  /** The merged dict takes `e`'s value where `e` has the key and `d`'s otherwise. */
  lemma {:induction false} UpdateGet<V>(d: Dict<V>, e: Dict<V>, k: string)
    requires DistinctKeys(d) && DistinctKeys(e)
    ensures Get(Update(d, e), k) == if HasKey(e, k) then Get(e, k) else Get(d, k)
    decreases |e|
  {
    if e != [] {
      var e', last := e[..|e| - 1], e[|e| - 1];
      assert DistinctKeys(e');
      UpdateGet(d, e', k);
      UpdateDistinct(d, e');
      var u := Update(d, e');
      assert Update(d, e) == Put(u, last.0, last.1);
      PutGet(u, last.0, last.1, k);
      GetLast(e, k);
      if k == last.0 {
        assert !HasKey(e', k);
      }
    }
  }

  /** Merging keeps `d`'s keys in front, in their order. */
  lemma {:induction false} UpdateKeepsOrder<V>(d: Dict<V>, e: Dict<V>)
    ensures |Update(d, e)| >= |d| && Keys(Update(d, e))[..|d|] == Keys(d)
    decreases |e|
  {
    if e != [] {
      var e', last := e[..|e| - 1], e[|e| - 1];
      UpdateKeepsOrder(d, e');
      var u := Update(d, e');
      if !HasKey(u, last.0) {
        assert Keys(u + [last])[..|d|] == Keys(u)[..|d|];
      }
    }
  }

  /** Every pair of the merged dict comes from one of the two. */
  lemma {:induction false} UpdateMembers<V>(d: Dict<V>, e: Dict<V>, x: (string, V))
    requires x in Update(d, e)
    ensures x in d || x in e
    decreases |e|
  {
    if e != [] {
      var e', last := e[..|e| - 1], e[|e| - 1];
      var u := Update(d, e');
      if x != last {
        PutMembers(u, last.0, last.1, x);
        UpdateMembers(d, e', x);
        assert x in e' ==> x in e;
      }
    }
  }

  /** No key and no value is empty. */
  predicate NonEmptyEntries(d: Dict<string>) {
    forall x :: x in d ==> |x.0| > 0 && |x.1| > 0
  }

  /** Every value is shorter than its key. */
  predicate Abbreviating(d: Dict<string>) {
    forall x :: x in d ==> |x.1| < |x.0|
  }

  /** `{v: k for k, v in d.items()}`: the inverse dict, keyed by value. */
  function Invert(d: Dict<string>): (r: Dict<string>)
    decreases |d|
  {
    if d == [] then [] else Put(Invert(d[..|d| - 1]), d[|d| - 1].1, d[|d| - 1].0)
  }

  /** Every pair of the inverse dict is a pair of `d` turned round. */
  lemma {:induction false} InvertMembers(d: Dict<string>, x: (string, string))
    requires x in Invert(d)
    ensures (x.1, x.0) in d
    decreases |d|
  {
    if d != [] {
      var init, last := d[..|d| - 1], d[|d| - 1];
      PutMembers(Invert(init), last.1, last.0, x);
      if x in Invert(init) {
        InvertMembers(init, x);
        assert forall y :: y in init ==> y in d;
      }
    }
  }

  /** The pairs of `d`, each turned round. */
  function Swapped(d: Dict<string>): (r: Dict<string>)
    ensures |r| == |d|
    ensures forall i :: 0 <= i < |d| ==> r[i] == (d[i].1, d[i].0)
  {
    seq(|d|, i requires 0 <= i < |d| => (d[i].1, d[i].0))
  }

  /** No value of `d` occurs twice, as with the distinct tokens of a substitution table. */
  predicate DistinctValues(d: Dict<string>) {
    forall i, j :: 0 <= i < j < |d| ==> d[i].1 != d[j].1
  }

  /** When no two keys share a value the inverse dict lists every pair turned round, in the original order. */
  lemma {:induction false} InvertDistinct(d: Dict<string>)
    requires DistinctValues(d)
    ensures Invert(d) == Swapped(d)
    ensures DistinctKeys(Invert(d))
    decreases |d|
  {
    if d != [] {
      var d', last := d[..|d| - 1], d[|d| - 1];
      assert DistinctValues(d');
      InvertDistinct(d');
      SwappedLast(d);
      assert Invert(d) == Put(Invert(d'), last.1, last.0);
      PutDistinct(Invert(d'), last.1, last.0);
    }
  }

  /** The last pair turned round goes after the others, and its value is not among theirs. */
  lemma SwappedLast(d: Dict<string>)
    requires d != [] && DistinctValues(d)
    ensures !HasKey(Swapped(d[..|d| - 1]), d[|d| - 1].1)
    ensures Swapped(d) == Swapped(d[..|d| - 1]) + [(d[|d| - 1].1, d[|d| - 1].0)]
  {
    var d', last := d[..|d| - 1], d[|d| - 1];
    forall i | 0 <= i < |d'| ensures Swapped(d')[i].0 != last.1 {
      assert d'[i].1 == d[i].1;
    }
    assert Swapped(d) == Swapped(d') + [(last.1, last.0)];
  }

  // ---------------------------------------------------------------------
  // Stable sort, descending by an integer rank.
  // ---------------------------------------------------------------------

  /** Ranks never increase from left to right. */
  predicate Descending<T>(xs: seq<T>, rank: T -> int) {
    forall i, j :: 0 <= i < j < |xs| ==> rank(xs[i]) >= rank(xs[j])
  }

  /** The elements of `xs` whose rank is `r`, in their order in `xs`. */
  function Having<T>(xs: seq<T>, rank: T -> int, r: int): (ys: seq<T>)
    ensures |ys| <= |xs|
    decreases |xs|
  {
    if xs == [] then []
    else (if rank(xs[0]) == r then [xs[0]] else []) + Having(xs[1..], rank, r)
  }

  /** `x` placed after every element ranked at least as high: the stable insertion step. */
  function Insert<T>(x: T, xs: seq<T>, rank: T -> int): (ys: seq<T>)
    ensures |ys| == |xs| + 1
    ensures multiset(ys) == multiset(xs) + multiset{x}
  {
    if xs == [] then [x]
    else if rank(xs[0]) >= rank(x) then
      assert xs == [xs[0]] + xs[1..];
      [xs[0]] + Insert(x, xs[1..], rank)
    else [x] + xs
  }

  /** `sorted(xs, key=rank, reverse=True)`, which Python keeps stable. */
  function SortDesc<T>(xs: seq<T>, rank: T -> int): (ys: seq<T>)
    ensures multiset(ys) == multiset(xs)
    ensures |ys| == |xs|
    decreases |xs|
  {
    if xs == [] then []
    else
      assert xs == xs[..|xs| - 1] + [xs[|xs| - 1]];
      Insert(xs[|xs| - 1], SortDesc(xs[..|xs| - 1], rank), rank)
  }

  lemma {:induction false} HavingConcat<T>(a: seq<T>, b: seq<T>, rank: T -> int, r: int)
    ensures Having(a + b, rank, r) == Having(a, rank, r) + Having(b, rank, r)
    decreases |a|
  {
    if a == [] {
      assert a + b == b;
    } else {
      var head := if rank(a[0]) == r then [a[0]] else [];
      assert (a + b)[0] == a[0];
      assert (a + b)[1..] == a[1..] + b;
      HavingConcat(a[1..], b, rank, r);
      assert Having(a + b, rank, r) == head + Having(a[1..] + b, rank, r);
      assert Having(a, rank, r) == head + Having(a[1..], rank, r);
    }
  }

  lemma {:induction false} HavingNone<T>(xs: seq<T>, rank: T -> int, r: int)
    requires forall i :: 0 <= i < |xs| ==> rank(xs[i]) != r
    ensures Having(xs, rank, r) == []
    decreases |xs|
  {
    if xs != [] {
      HavingNone(xs[1..], rank, r);
    }
  }

  lemma {:induction false} InsertBound<T>(x: T, xs: seq<T>, rank: T -> int, m: int)
    requires rank(x) <= m && forall i :: 0 <= i < |xs| ==> rank(xs[i]) <= m
    ensures forall i :: 0 <= i < |Insert(x, xs, rank)| ==> rank(Insert(x, xs, rank)[i]) <= m
    decreases |xs|
  {
    if xs != [] && rank(xs[0]) >= rank(x) {
      InsertBound(x, xs[1..], rank, m);
    }
  }

  lemma {:induction false} InsertDescending<T>(x: T, xs: seq<T>, rank: T -> int)
    requires Descending(xs, rank)
    ensures Descending(Insert(x, xs, rank), rank)
    decreases |xs|
  {
    if xs != [] && rank(xs[0]) >= rank(x) {
      InsertDescending(x, xs[1..], rank);
      InsertBound(x, xs[1..], rank, rank(xs[0]));
    }
  }

  lemma {:induction false} InsertHaving<T>(x: T, xs: seq<T>, rank: T -> int, r: int)
    requires Descending(xs, rank)
    ensures Having(Insert(x, xs, rank), rank, r) == Having(xs, rank, r) + Having([x], rank, r)
    decreases |xs|
  {
    if xs == [] {
      assert Insert(x, xs, rank) == [x];
    } else if rank(xs[0]) >= rank(x) {
      assert Descending(xs[1..], rank);
      InsertHaving(x, xs[1..], rank, r);
      InsertHavingBehind(x, xs, rank, r);
    } else {
      assert Insert(x, xs, rank) == [x] + xs;
      HavingAbove(x, xs, rank, r);
    }
  }

  /** The step of `InsertHaving` where `x` goes behind the head of `xs`. */
  lemma InsertHavingBehind<T>(x: T, xs: seq<T>, rank: T -> int, r: int)
    requires xs != [] && rank(xs[0]) >= rank(x)
    requires Having(Insert(x, xs[1..], rank), rank, r) == Having(xs[1..], rank, r) + Having([x], rank, r)
    ensures Having(Insert(x, xs, rank), rank, r) == Having(xs, rank, r) + Having([x], rank, r)
  {
    var h, tail := xs[0], xs[1..];
    assert Insert(x, xs, rank) == [h] + Insert(x, tail, rank);
    HavingConcat([h], Insert(x, tail, rank), rank, r);
    HavingConcat([h], tail, rank, r);
    assert xs == [h] + tail;
    ConcatAssoc(Having([h], rank, r), Having(tail, rank, r), Having([x], rank, r));
  }

  lemma ConcatAssoc<T>(a: seq<T>, b: seq<T>, c: seq<T>)
    ensures a + (b + c) == (a + b) + c
  {
  }

  /** An element ranked above all of `xs` can go in front without changing any rank's order. */
  lemma HavingAbove<T>(x: T, xs: seq<T>, rank: T -> int, r: int)
    requires forall i :: 0 <= i < |xs| ==> rank(xs[i]) < rank(x)
    ensures Having([x] + xs, rank, r) == Having(xs, rank, r) + Having([x], rank, r)
  {
    HavingConcat([x], xs, rank, r);
    if rank(x) == r {
      HavingNone(xs, rank, r);
    } else {
      assert Having([x], rank, r) == [];
    }
  }

  /**
   * `SortDesc` is Python's stable sort: ranks descend, and for every rank
   * the elements of that rank appear in the order they had in `xs`.
   */
  lemma {:induction false} SortDescSpec<T>(xs: seq<T>, rank: T -> int, r: int)
    ensures Descending(SortDesc(xs, rank), rank)
    ensures Having(SortDesc(xs, rank), rank, r) == Having(xs, rank, r)
    decreases |xs|
  {
    if xs != [] {
      var init, last := xs[..|xs| - 1], xs[|xs| - 1];
      SortDescSpec(init, rank, r);
      InsertDescending(last, SortDesc(init, rank), rank);
      InsertHaving(last, SortDesc(init, rank), rank, r);
      HavingSnoc(xs, rank, r);
    }
  }

  /** The elements of a rank in a non-empty sequence: those before its last element, then the last one if it has that rank. */
  lemma HavingSnoc<T>(xs: seq<T>, rank: T -> int, r: int)
    requires xs != []
    ensures Having(xs, rank, r) == Having(xs[..|xs| - 1], rank, r) + Having([xs[|xs| - 1]], rank, r)
  {
    assert xs == xs[..|xs| - 1] + [xs[|xs| - 1]];
    HavingConcat(xs[..|xs| - 1], [xs[|xs| - 1]], rank, r);
  }

  /** Inserting a pair with a new key keeps the keys distinct. */
  lemma {:induction false} InsertDistinct<V>(x: (string, V), xs: Dict<V>, rank: ((string, V)) -> int)
    requires DistinctKeys(xs) && !HasKey(xs, x.0)
    ensures DistinctKeys(Insert(x, xs, rank))
    decreases |xs|
  {
    if xs != [] && rank(xs[0]) >= rank(x) {
      var tail := xs[1..];
      InsertDistinct(x, tail, rank);
      var ys := Insert(x, tail, rank);
      forall j | 0 <= j < |ys| ensures ys[j].0 != xs[0].0 {
        assert ys[j] in multiset(tail) + multiset{x};
        if ys[j] in tail {
          var k :| 0 <= k < |tail| && tail[k] == ys[j];
          assert xs[k + 1] == ys[j];
        }
      }
      assert Insert(x, xs, rank) == [xs[0]] + ys;
    }
  }

  /** Sorting a dict's pairs keeps their keys distinct. */
  lemma {:induction false} SortDescDistinct<V>(xs: Dict<V>, rank: ((string, V)) -> int)
    requires DistinctKeys(xs)
    ensures DistinctKeys(SortDesc(xs, rank))
    decreases |xs|
  {
    if xs != [] {
      var init, last := xs[..|xs| - 1], xs[|xs| - 1];
      SortDescDistinct(init, rank);
      var sorted := SortDesc(init, rank);
      forall j | 0 <= j < |sorted| ensures sorted[j].0 != last.0 {
        SortDescMembers(init, rank, sorted[j]);
        var k :| 0 <= k < |init| && init[k] == sorted[j];
        assert xs[k] == sorted[j];
      }
      InsertDistinct(last, sorted, rank);
    }
  }

  /** In a descending sequence, whatever the first `m` elements leave behind ranks no higher than any of them. */
  lemma DescendingPrefixAbove<T>(xs: seq<T>, rank: T -> int, m: nat)
    requires Descending(xs, rank) && m <= |xs|
    ensures forall x, y :: x in xs && x !in xs[..m] && y in xs[..m] ==> rank(y) >= rank(x)
  {
    forall x, y | x in xs && x !in xs[..m] && y in xs[..m] ensures rank(y) >= rank(x) {
      var i :| 0 <= i < |xs| && xs[i] == x;
      var j :| 0 <= j < m && xs[..m][j] == y;
      assert i >= m;
    }
  }

  /** The first `m` elements of `xs` of each rank come first among all of `xs`'s elements of that rank. */
  lemma HavingPrefix<T>(xs: seq<T>, rank: T -> int, m: nat, r: int)
    requires m <= |xs|
    ensures Having(xs[..m], rank, r) <= Having(xs, rank, r)
  {
    assert xs == xs[..m] + xs[m..];
    HavingConcat(xs[..m], xs[m..], rank, r);
  }

  /** The sorted table holds the same pairs as the original. */
  lemma SortDescMembers<T>(xs: seq<T>, rank: T -> int, x: T)
    ensures x in SortDesc(xs, rank) <==> x in xs
  {
    assert x in multiset(SortDesc(xs, rank)) <==> x in multiset(xs);
  }
}
