/** Python's `sorted`: a stable sort of keyed items, and why its result is determined by the keys. */
module Sorting {

  /** Tuple keys compare lexicographically. */
  datatype Key = Key(major: int, minor: int)

  predicate Leq(a: Key, b: Key) {
    a.major < b.major || (a.major == b.major && a.minor <= b.minor)
  }

  type Keyed<T> = (Key, T)

  /** Inserts after every item whose key is not greater. */
  function Insert<T>(s: seq<Keyed<T>>, x: Keyed<T>): (r: seq<Keyed<T>>)
    ensures |r| == |s| + 1
  {
    if s == [] then [x]
    else
      var front, last := s[..|s| - 1], s[|s| - 1];
      if Leq(last.0, x.0) then s + [x] else Insert(front, x) + [last]
  }

  lemma {:induction false} InsertKeeps<T>(s: seq<Keyed<T>>, x: Keyed<T>)
    ensures multiset(Insert(s, x)) == multiset(s) + multiset{x}
  {
    if s != [] {
      var front, last := s[..|s| - 1], s[|s| - 1];
      assert s == front + [last];
      InsertKeeps(front, x);
    }
  }

  function StableSort<T>(s: seq<Keyed<T>>): (r: seq<Keyed<T>>)
    ensures multiset(r) == multiset(s)
  {
    if s == [] then []
    else
      assert s == s[..|s| - 1] + [s[|s| - 1]];
      InsertKeeps(StableSort(s[..|s| - 1]), s[|s| - 1]);
      Insert(StableSort(s[..|s| - 1]), s[|s| - 1])
  }

  predicate Ascending<T>(s: seq<Keyed<T>>) {
    forall i, j :: 0 <= i < j < |s| ==> Leq(s[i].0, s[j].0)
  }

  lemma {:induction false} InsertAscending<T>(s: seq<Keyed<T>>, x: Keyed<T>)
    requires Ascending(s)
    ensures Ascending(Insert(s, x))
  {
    if s != [] {
      var front, last := s[..|s| - 1], s[|s| - 1];
      if !Leq(last.0, x.0) {
        InsertAscending(front, x);
        InsertKeeps(front, x);
        var r := Insert(front, x);
        forall i | 0 <= i < |r| ensures Leq(r[i].0, last.0) {
          assert r[i] in multiset(r);
          if r[i] != x {
            assert r[i] in multiset(front);
          }
        }
      }
    }
  }

  lemma {:induction false} SortAscending<T>(s: seq<Keyed<T>>)
    ensures Ascending(StableSort(s))
  {
    if s != [] {
      SortAscending(s[..|s| - 1]);
      InsertAscending(StableSort(s[..|s| - 1]), s[|s| - 1]);
    }
  }

  /** The values whose key is `k`, in order. */
  function WithKey<T>(s: seq<Keyed<T>>, k: Key): (r: seq<T>)
    ensures |r| <= |s|
  {
    if s == [] then []
    else
      var front := WithKey(s[..|s| - 1], k);
      if s[|s| - 1].0 == k then front + [s[|s| - 1].1] else front
  }

  lemma {:induction false} WithKeyConcat<T>(a: seq<Keyed<T>>, b: seq<Keyed<T>>, k: Key)
    ensures WithKey(a + b, k) == WithKey(a, k) + WithKey(b, k)
  {
    if b == [] {
      assert a + b == a;
    } else {
      WithKeyConcat(a, b[..|b| - 1], k);
      assert (a + b)[..|a + b| - 1] == a + b[..|b| - 1];
    }
  }

  lemma WithKeyOne<T>(x: Keyed<T>, k: Key)
    ensures WithKey([x], k) == if x.0 == k then [x.1] else []
  {
    assert [x][..0] == [];
  }

  /** Two items of different keys can be taken in either order. */
  lemma EitherOrder<T>(x: Keyed<T>, y: Keyed<T>, k: Key)
    requires x.0 != y.0
    ensures WithKey([x], k) + WithKey([y], k) == WithKey([y], k) + WithKey([x], k)
  {
    WithKeyOne(x, k);
    WithKeyOne(y, k);
  }

  lemma WithKeySnoc<T>(s: seq<Keyed<T>>, x: Keyed<T>, k: Key)
    ensures WithKey(s + [x], k) == WithKey(s, k) + WithKey([x], k)
  {
    WithKeyConcat(s, [x], k);
  }

  lemma {:induction false} InsertStable<T>(s: seq<Keyed<T>>, x: Keyed<T>, k: Key)
    ensures WithKey(Insert(s, x), k) == WithKey(s, k) + WithKey([x], k)
  {
    if s == [] {
      assert [x] == [] + [x];
    } else {
      var front, last := s[..|s| - 1], s[|s| - 1];
      if Leq(last.0, x.0) {
        WithKeySnoc(s, x, k);
      } else {
        InsertStable(front, x, k);
        EitherOrder(x, last, k);
        WithKeySnoc(Insert(front, x), last, k);
        WithKeySnoc(front, last, k);
        assert s == front + [last];
      }
    }
  }

  /** Stability: items with one key keep their relative order. */
  lemma {:induction false} SortStable<T>(s: seq<Keyed<T>>, k: Key)
    ensures WithKey(StableSort(s), k) == WithKey(s, k)
  {
    if s != [] {
      var front, last := s[..|s| - 1], s[|s| - 1];
      SortStable(front, k);
      InsertStable(StableSort(front), last, k);
      WithKeySnoc(front, last, k);
      assert s == front + [last];
    }
  }

  function Values<T>(s: seq<Keyed<T>>): (r: seq<T>)
    ensures |r| == |s|
    ensures forall i :: 0 <= i < |s| ==> r[i] == s[i].1
  {
    seq(|s|, i requires 0 <= i < |s| => s[i].1)
  }
}
