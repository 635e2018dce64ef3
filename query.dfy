/**
  Relational building blocks shared by the reports. A table or a query
  result is a sequence of rows (a bag: duplicates and order are kept), and
  each SQL clause the reports use is one function here:
  WHERE is Filter, an inner JOIN is Join (a nested loop), a projection is
  Project, COUNT per GROUP BY key is GroupCount, COUNT(DISTINCT ...) per key
  is GroupDistinct, `.first()` is FirstWith, and ORDER BY / Python's stable
  `sorted` is SortBy.
*/
module Query {

  datatype Option<T> = None | Some(value: T)

  // ---------------------------------------------------------------- WHERE

  /** The rows of `s` that satisfy `p`, in their original order. */
  function Filter<T(!new)>(s: seq<T>, p: T -> bool): (r: seq<T>)
    ensures |r| <= |s|
    ensures forall x :: x in r <==> x in s && p(x)
  {
    if s == [] then []
    else if p(s[0]) then [s[0]] + Filter(s[1..], p)
    else Filter(s[1..], p)
  }

  lemma {:induction false} FilterConcat<T(!new)>(a: seq<T>, b: seq<T>, p: T -> bool)
    ensures Filter(a + b, p) == Filter(a, p) + Filter(b, p)
  {
    if a == [] {
      assert a + b == b;
    } else {
      assert (a + b)[0] == a[0];
      assert (a + b)[1..] == a[1..] + b;
      FilterConcat(a[1..], b, p);
    }
  }

  /** How many rows a `WHERE` keeps depends only on the rows, not on their order. */
  lemma {:induction false} FilterCountPermutation<T(!new)>(a: seq<T>, b: seq<T>, p: T -> bool)
    requires multiset(a) == multiset(b)
    ensures |Filter(a, p)| == |Filter(b, p)|
    decreases |a|
  {
    if a == [] {
      assert |b| == |multiset(b)| == 0;
    } else {
      var x := a[0];
      assert x in multiset(b);
      var i :| 0 <= i < |b| && b[i] == x;
      var rest := b[..i] + b[i + 1..];
      assert b == b[..i] + [x] + b[i + 1..];
      assert a == [x] + a[1..];
      assert multiset(a[1..]) == multiset(rest) by {
        assert multiset(a) == multiset{x} + multiset(a[1..]);
        assert multiset(b) == multiset(b[..i]) + multiset{x} + multiset(b[i + 1..]);
        assert multiset(rest) == multiset(b[..i]) + multiset(b[i + 1..]);
        assert multiset(a[1..]) == multiset(a) - multiset{x};
        assert multiset(rest) == multiset(b) - multiset{x};
      }
      FilterCountPermutation(a[1..], rest, p);
      FilterConcat([x], a[1..], p);
      FilterConcat(b[..i] + [x], b[i + 1..], p);
      FilterConcat(b[..i], [x], p);
      FilterConcat(b[..i], b[i + 1..], p);
    }
  }

  // ----------------------------------------------------------- projection

  /** `[f(x) for x in s]`. */
  function Project<T, U>(s: seq<T>, f: T -> U): (r: seq<U>)
    ensures |r| == |s|
    ensures forall i :: 0 <= i < |s| ==> r[i] == f(s[i])
  {
    seq(|s|, i requires 0 <= i < |s| => f(s[i]))
  }

  lemma ProjectMembership<T, U>(s: seq<T>, f: T -> U, y: U)
    ensures y in Project(s, f) <==> exists x :: x in s && f(x) == y
  {
    var r := Project(s, f);
    if y in r {
      var i :| 0 <= i < |r| && r[i] == y;
      assert s[i] in s;
    }
    if exists x :: x in s && f(x) == y {
      var x :| x in s && f(x) == y;
      var i :| 0 <= i < |s| && s[i] == x;
      assert r[i] == y;
    }
  }

  lemma ProjectConcat<T, U>(a: seq<T>, b: seq<T>, f: T -> U)
    ensures Project(a + b, f) == Project(a, f) + Project(b, f)
  {
  }

  // ---------------------------------------------------------------- JOIN

  /** The rows `(x, y)` with `y` in `ys` and `on(x, y)`, in the order of `ys`. */
  function Matches<A(!new), B(!new)>(x: A, ys: seq<B>, on: (A, B) -> bool): (r: seq<(A, B)>)
    ensures |r| <= |ys|
    ensures forall p :: p in r <==> p.0 == x && p.1 in ys && on(x, p.1)
  {
    if ys == [] then []
    else (if on(x, ys[0]) then [(x, ys[0])] else []) + Matches(x, ys[1..], on)
  }

  /**
    `xs JOIN ys ON on`: one row per matching pair, enumerated as a nested
    loop (outer `xs`, inner `ys`).
  */
  function Join<A(!new), B(!new)>(xs: seq<A>, ys: seq<B>, on: (A, B) -> bool): (r: seq<(A, B)>)
    ensures forall p :: p in r <==> p.0 in xs && p.1 in ys && on(p.0, p.1)
  {
    if xs == [] then []
    else Matches(xs[0], ys, on) + Join(xs[1..], ys, on)
  }

  lemma JoinSingle<A(!new), B(!new)>(x: A, ys: seq<B>, on: (A, B) -> bool)
    ensures Join([x], ys, on) == Matches(x, ys, on)
  {
    assert [x][1..] == [];
    assert Join([x], ys, on) == Matches(x, ys, on) + Join([], ys, on);
  }

  lemma {:induction false} JoinConcat<A(!new), B(!new)>(a: seq<A>, b: seq<A>, ys: seq<B>, on: (A, B) -> bool)
    ensures Join(a + b, ys, on) == Join(a, ys, on) + Join(b, ys, on)
  {
    if a == [] {
      assert a + b == b;
    } else {
      assert (a + b)[0] == a[0];
      assert (a + b)[1..] == a[1..] + b;
      JoinConcat(a[1..], b, ys, on);
    }
  }

  // ------------------------------------------------------- GROUP BY, COUNT

  /** The number of rows whose key is `k`: COUNT(*) of one group. */
  function CountKey<T, K(==)>(rows: seq<T>, key: T -> K, k: K): (n: nat)
    ensures n <= |rows|
    ensures n == 0 <==> forall x :: x in rows ==> key(x) != k
  {
    if rows == [] then 0
    else (if key(rows[0]) == k then 1 else 0) + CountKey(rows[1..], key, k)
  }

  lemma {:induction false} CountKeyConcat<T, K>(a: seq<T>, b: seq<T>, key: T -> K, k: K)
    ensures CountKey(a + b, key, k) == CountKey(a, key, k) + CountKey(b, key, k)
  {
    if a == [] {
      assert a + b == b;
    } else {
      assert (a + b)[0] == a[0];
      assert (a + b)[1..] == a[1..] + b;
      CountKeyConcat(a[1..], b, key, k);
    }
  }

  /** The keys that occur in `rows`: the groups of a GROUP BY. */
  function Keys<T(==), K>(rows: seq<T>, key: T -> K): set<K>
  {
    set x | x in rows :: key(x)
  }

  /**
    `SELECT key, COUNT(*) ... GROUP BY key`: one entry per key that occurs,
    mapped to the number of rows with that key. Keys with no rows are absent
    (a gap, not a zero).
  */
  function GroupCount<T(==,!new), K(==,!new)>(rows: seq<T>, key: T -> K): (m: map<K, nat>)
    ensures forall k :: k in m <==> exists x :: x in rows && key(x) == k
    ensures forall k :: k in m ==> m[k] == CountKey(rows, key, k) && m[k] >= 1
  {
    map k | k in Keys(rows, key) :: CountKey(rows, key, k)
  }

  /** The distinct values of `val` over the rows whose key is `k`. */
  function DistinctValues<T(==), K(==), V>(rows: seq<T>, key: T -> K, val: T -> V, k: K): set<V>
  {
    set x | x in rows && key(x) == k :: val(x)
  }

  lemma {:induction false} DistinctValuesAtMostCount<T, K, V>(rows: seq<T>, key: T -> K, val: T -> V, k: K)
    ensures |DistinctValues(rows, key, val, k)| <= CountKey(rows, key, k)
  {
    if rows != [] {
      DistinctValuesAtMostCount(rows[1..], key, val, k);
      var rest := DistinctValues(rows[1..], key, val, k);
      var all := DistinctValues(rows, key, val, k);
      if key(rows[0]) == k {
        assert all <= rest + {val(rows[0])} by {
          forall v | v in all ensures v in rest + {val(rows[0])} {
            var x :| x in rows && key(x) == k && val(x) == v;
            if x != rows[0] {
              assert x in rows[1..];
            }
          }
        }
        assert |rest + {val(rows[0])}| <= |rest| + 1;
        LemmaSubsetSize(all, rest + {val(rows[0])});
      } else {
        assert all <= rest by {
          forall v | v in all ensures v in rest {
            var x :| x in rows && key(x) == k && val(x) == v;
            assert x in rows[1..];
          }
        }
        LemmaSubsetSize(all, rest);
      }
    }
  }

  lemma LemmaSubsetSize<T>(a: set<T>, b: set<T>)
    requires a <= b
    ensures |a| <= |b|
  {
    assert b == a + (b - a);
  }

  /**
    `SELECT key, COUNT(DISTINCT val) ... GROUP BY key`: one entry per key
    that occurs, mapped to the number of distinct values among its rows,
    which is at least one and at most the group's row count.
  */
  function GroupDistinct<T(==,!new), K(==,!new), V(==)>(rows: seq<T>, key: T -> K, val: T -> V): (m: map<K, nat>)
    ensures forall k :: k in m <==> exists x :: x in rows && key(x) == k
    ensures forall k :: k in m ==> m[k] == |DistinctValues(rows, key, val, k)|
    ensures forall k :: k in m ==> 1 <= m[k] <= CountKey(rows, key, k)
  {
    var m := map k | k in Keys(rows, key) :: |DistinctValues(rows, key, val, k)|;
    assert forall k :: k in m ==> 1 <= m[k] <= CountKey(rows, key, k) by {
      forall k | k in m ensures 1 <= m[k] <= CountKey(rows, key, k) {
        var x :| x in rows && key(x) == k;
        assert val(x) in DistinctValues(rows, key, val, k);
        DistinctValuesAtMostCount(rows, key, val, k);
      }
    }
    m
  }

  /** The distinct values of `f` over all of `s` (`len(set(...))` in Python). */
  function Image<T(==), V>(s: seq<T>, f: T -> V): set<V>
  {
    set x | x in s :: f(x)
  }

  lemma {:induction false} ImageAtMostLength<T, V>(s: seq<T>, f: T -> V)
    ensures |Image(s, f)| <= |s|
    ensures |Image(s, f)| == 0 <==> |s| == 0
  {
    if s != [] {
      ImageAtMostLength(s[1..], f);
      assert f(s[0]) in Image(s, f);
      assert Image(s, f) <= Image(s[1..], f) + {f(s[0])} by {
        forall v | v in Image(s, f) ensures v in Image(s[1..], f) + {f(s[0])} {
          var x :| x in s && f(x) == v;
          if x != s[0] {
            assert x in s[1..];
          }
        }
      }
      LemmaSubsetSize(Image(s, f), Image(s[1..], f) + {f(s[0])});
    }
  }

  // -------------------------------------------------------------- first()

  /** `.first()` on `WHERE key = k`: the first row with key `k`, if any. */
  function FirstWith<T, K(==)>(s: seq<T>, key: T -> K, k: K): (r: Option<T>)
    ensures r.None? <==> forall x :: x in s ==> key(x) != k
    ensures r.Some? ==> r.value in s && key(r.value) == k
  {
    if s == [] then None
    else if key(s[0]) == k then Some(s[0])
    else FirstWith(s[1..], key, k)
  }

  /** No two rows of `s` share a key: a primary key or a UNIQUE column. */
  ghost predicate UniqueBy<T, K>(s: seq<T>, key: T -> K)
  {
    forall i, j :: 0 <= i < j < |s| ==> key(s[i]) != key(s[j])
  }

  /** Dropping the first row keeps a key unique, and no later row shares the first row's key. */
  lemma UniqueByTail<T, K>(s: seq<T>, key: T -> K)
    requires UniqueBy(s, key) && s != []
    ensures UniqueBy(s[1..], key)
    ensures forall x :: x in s[1..] ==> key(x) != key(s[0])
  {
    forall i, j | 0 <= i < j < |s[1..]| ensures key(s[1..][i]) != key(s[1..][j]) {
      assert s[1..][i] == s[i + 1] && s[1..][j] == s[j + 1];
    }
    forall x | x in s[1..] ensures key(x) != key(s[0]) {
      var j :| 0 <= j < |s[1..]| && s[1..][j] == x;
      assert s[j + 1] == x;
    }
  }

  /** Under a unique key, `.first()` finds THE row with that key. */
  lemma {:induction false} FirstWithUnique<T, K>(s: seq<T>, key: T -> K, x: T)
    requires UniqueBy(s, key)
    requires x in s
    ensures FirstWith(s, key, key(x)) == Some(x)
  {
    if s[0] != x {
      assert x in s[1..];
      var j :| 0 < j < |s| && s[j] == x;
      assert key(s[0]) != key(s[j]);
      assert UniqueBy(s[1..], key) by {
        forall i, j | 0 <= i < j < |s[1..]| ensures key(s[1..][i]) != key(s[1..][j]) {
          assert s[1..][i] == s[i + 1] && s[1..][j] == s[j + 1];
        }
      }
      FirstWithUnique(s[1..], key, x);
    }
  }

  // -------------------------------------------------------------- ORDER BY

  /** Non-decreasing by `key`. */
  ghost predicate SortedBy<T>(s: seq<T>, key: T -> int)
  {
    forall i, j :: 0 <= i < j < |s| ==> key(s[i]) <= key(s[j])
  }

  /** The index of the first element of `s` whose key is strictly larger than that of `x`, or `|s|`. */
  function InsertAt<T>(x: T, s: seq<T>, key: T -> int): (i: nat)
    ensures i <= |s|
    ensures forall j :: 0 <= j < i ==> key(s[j]) <= key(x)
    ensures i < |s| ==> key(x) < key(s[i])
  {
    if s == [] || key(x) < key(s[0]) then 0 else 1 + InsertAt(x, s[1..], key)
  }

  /** A sorted prefix, an element no smaller than it, and a sorted suffix no smaller than that element, make a sorted sequence. */
  lemma SortedSplice<T>(p: seq<T>, x: T, q: seq<T>, key: T -> int)
    requires SortedBy(p, key) && SortedBy(q, key)
    requires forall j :: 0 <= j < |p| ==> key(p[j]) <= key(x)
    requires forall j :: 0 <= j < |q| ==> key(x) <= key(q[j])
    ensures SortedBy(p + [x] + q, key)
  {
    var r := p + [x] + q;
    forall a, b | 0 <= a < b < |r| ensures key(r[a]) <= key(r[b]) {
      if b < |p| {
        assert r[a] == p[a] && r[b] == p[b];
      } else if b == |p| {
        assert r[a] == p[a] && r[b] == x;
      } else if a < |p| {
        assert r[a] == p[a] && r[b] == q[b - |p| - 1];
      } else if a == |p| {
        assert r[a] == x && r[b] == q[b - |p| - 1];
      } else {
        assert r[a] == q[a - |p| - 1] && r[b] == q[b - |p| - 1];
      }
    }
  }

  lemma InsertPermutes<T>(x: T, s: seq<T>, i: nat)
    requires i <= |s|
    ensures multiset(s[..i] + [x] + s[i..]) == multiset(s) + multiset{x}
  {
    assert s == s[..i] + s[i..];
  }

  lemma InsertSorted<T>(x: T, s: seq<T>, key: T -> int)
    requires SortedBy(s, key)
    ensures var i := InsertAt(x, s, key); SortedBy(s[..i] + [x] + s[i..], key)
  {
    var i := InsertAt(x, s, key);
    forall j | 0 <= j < |s[i..]| ensures key(x) <= key(s[i..][j]) {
      assert key(s[i]) <= key(s[i + j]);
    }
    SortedSplice(s[..i], x, s[i..], key);
  }

  /** Puts `x` into `s` before the first element with a strictly larger key. */
  function Insert<T>(x: T, s: seq<T>, key: T -> int): (r: seq<T>)
    ensures |r| == |s| + 1
    ensures multiset(r) == multiset(s) + multiset{x}
    ensures SortedBy(s, key) ==> SortedBy(r, key)
  {
    var i := InsertAt(x, s, key);
    InsertPermutes(x, s, i);
    assert SortedBy(s, key) ==> SortedBy(s[..i] + [x] + s[i..], key) by {
      if SortedBy(s, key) {
        InsertSorted(x, s, key);
      }
    }
    s[..i] + [x] + s[i..]
  }

  /**
    A stable sort, ascending by `key` (insertion sort, the input scanned
    left to right). Python's `sorted(xs, key=f, reverse=True)` is this with
    key `-f`: its reverse order also keeps equal elements in input order.
  */
  function SortBy<T>(s: seq<T>, key: T -> int): (r: seq<T>)
    ensures |r| == |s|
    ensures multiset(r) == multiset(s)
    ensures SortedBy(r, key)
  {
    if s == [] then []
    else
      assert s == s[..|s| - 1] + [s[|s| - 1]];
      Insert(s[|s| - 1], SortBy(s[..|s| - 1], key), key)
  }

  /** The elements of `s` whose key is `k`, in their order in `s`. */
  function WithKey<T>(s: seq<T>, key: T -> int, k: int): seq<T>
  {
    if s == [] then []
    else (if key(s[0]) == k then [s[0]] else []) + WithKey(s[1..], key, k)
  }

  lemma {:induction false} WithKeyConcat<T>(a: seq<T>, b: seq<T>, key: T -> int, k: int)
    ensures WithKey(a + b, key, k) == WithKey(a, key, k) + WithKey(b, key, k)
  {
    if a == [] {
      assert a + b == b;
    } else {
      var h := if key(a[0]) == k then [a[0]] else [];
      assert (a + b)[0] == a[0];
      assert (a + b)[1..] == a[1..] + b;
      WithKeyConcat(a[1..], b, key, k);
      assert WithKey(a + b, key, k) == h + WithKey(a[1..] + b, key, k);
      assert WithKey(a, key, k) == h + WithKey(a[1..], key, k);
      assert h + (WithKey(a[1..], key, k) + WithKey(b, key, k))
          == (h + WithKey(a[1..], key, k)) + WithKey(b, key, k);
    }
  }

  lemma {:induction false} WithKeyNone<T>(s: seq<T>, key: T -> int, k: int)
    requires forall x :: x in s ==> key(x) != k
    ensures WithKey(s, key, k) == []
  {
    if s != [] {
      assert s[0] in s;
      WithKeyNone(s[1..], key, k);
    }
  }

  /** In a sorted sequence, nothing after the insertion point of `x` has the key of `x`. */
  lemma AfterInsertAtNone<T>(x: T, s: seq<T>, key: T -> int)
    requires SortedBy(s, key)
    ensures WithKey(s[InsertAt(x, s, key)..], key, key(x)) == []
  {
    var i := InsertAt(x, s, key);
    forall y | y in s[i..] ensures key(y) != key(x) {
      var j :| i <= j < |s| && s[j] == y;
      assert key(s[i]) <= key(s[j]);
    }
    WithKeyNone(s[i..], key, key(x));
  }

  lemma WithKeySplice<T>(p: seq<T>, x: T, q: seq<T>, key: T -> int, k: int)
    requires key(x) == k ==> WithKey(q, key, k) == []
    ensures WithKey(p + [x] + q, key, k) == WithKey(p + q, key, k) + (if key(x) == k then [x] else [])
  {
    var tail := if key(x) == k then [x] else [];
    WithKeyConcat(p + [x], q, key, k);
    WithKeyConcat(p, [x], key, k);
    WithKeyConcat(p, q, key, k);
    assert WithKey([x], key, k) == tail + WithKey([x][1..], key, k);
    assert WithKey([x], key, k) == tail;
  }

  lemma {:induction false} SpliceWithKey<T>(x: T, s: seq<T>, key: T -> int, k: int)
    requires SortedBy(s, key)
    ensures var i := InsertAt(x, s, key);
            WithKey(s[..i] + [x] + s[i..], key, k) == WithKey(s, key, k) + (if key(x) == k then [x] else [])
  {
    var i := InsertAt(x, s, key);
    if key(x) == k {
      AfterInsertAtNone(x, s, key);
    }
    WithKeySplice(s[..i], x, s[i..], key, k);
    assert s[..i] + s[i..] == s;
  }

  lemma {:induction false} InsertIsSplice<T>(x: T, s: seq<T>, key: T -> int)
    ensures var i := InsertAt(x, s, key);
            Insert(x, s, key) == s[..i] + [x] + s[i..]
  {
  }

  lemma {:induction false} InsertWithKey<T>(x: T, s: seq<T>, key: T -> int, k: int)
    requires SortedBy(s, key)
    ensures WithKey(Insert(x, s, key), key, k)
         == WithKey(s, key, k) + (if key(x) == k then [x] else [])
  {
    InsertIsSplice(x, s, key);
    SpliceWithKey(x, s, key, k);
  }


  /**
    SortBy is stable: for every key, the elements with that key come out in
    the order they went in.
  */
  lemma {:induction false} SortByStable<T>(s: seq<T>, key: T -> int, k: int)
    ensures WithKey(SortBy(s, key), key, k) == WithKey(s, key, k)
  {
    if s != [] {
      var init, last := s[..|s| - 1], s[|s| - 1];
      var sorted := SortBy(init, key);
      var tail := if key(last) == k then [last] else [];
      assert s == init + [last];
      assert SortBy(s, key) == Insert(last, sorted, key);
      SortByStable(init, key, k);
      InsertWithKey(last, sorted, key, k);
      WithKeyConcat(init, [last], key, k);
      assert WithKey([last], key, k) == tail + WithKey([last][1..], key, k);
      assert WithKey([last], key, k) == tail;
    }
  }

  /** `LIMIT n`. */
  function Take<T>(s: seq<T>, n: nat): (r: seq<T>)
    ensures |r| <= n && |r| <= |s|
    ensures |r| == n || |r| == |s|
    ensures r == s[..|r|]
  {
    if |s| <= n then s else s[..n]
  }

  /** A prefix of a sorted sequence is sorted. */
  lemma {:induction false} TakeSorted<T>(s: seq<T>, n: nat, key: T -> int)
    requires SortedBy(s, key)
    ensures SortedBy(Take(s, n), key)
  {
    var r := Take(s, n);
    forall i, j | 0 <= i < j < |r| ensures key(r[i]) <= key(r[j]) {
      assert r[i] == s[i] && r[j] == s[j];
    }
  }

  // ------------------------------------------------------------ uniquing

  /** `UniqueFirst` after the keys in `seen` have already been taken. */
  function UniqueFrom<T, K(==)>(s: seq<T>, key: T -> K, seen: set<K>): (r: seq<T>)
    ensures |r| <= |s|
    ensures forall x :: x in r ==> x in s && key(x) !in seen
  {
    if s == [] then []
    else if key(s[0]) in seen then UniqueFrom(s[1..], key, seen)
    else [s[0]] + UniqueFrom(s[1..], key, seen + {key(s[0])})
  }

  lemma {:induction false} UniqueFromUnique<T, K>(s: seq<T>, key: T -> K, seen: set<K>)
    ensures UniqueBy(UniqueFrom(s, key, seen), key)
  {
    if s != [] {
      if key(s[0]) in seen {
        UniqueFromUnique(s[1..], key, seen);
      } else {
        var rest := UniqueFrom(s[1..], key, seen + {key(s[0])});
        UniqueFromUnique(s[1..], key, seen + {key(s[0])});
        var r := [s[0]] + rest;
        forall i, j | 0 <= i < j < |r| ensures key(r[i]) != key(r[j]) {
          assert r[j] == rest[j - 1];
          if i > 0 {
            assert r[i] == rest[i - 1];
          } else {
            assert rest[j - 1] in rest;
          }
        }
      }
    }
  }

  lemma {:induction false} UniqueFromCovers<T, K>(s: seq<T>, key: T -> K, seen: set<K>, x: T)
    requires x in s
    ensures key(x) in seen || exists y :: y in UniqueFrom(s, key, seen) && key(y) == key(x)
  {
    if x != s[0] {
      assert x in s[1..];
      if key(s[0]) in seen {
        UniqueFromCovers(s[1..], key, seen, x);
      } else {
        UniqueFromCovers(s[1..], key, seen + {key(s[0])}, x);
        if key(x) != key(s[0]) && key(x) !in seen {
          var y :| y in UniqueFrom(s[1..], key, seen + {key(s[0])}) && key(y) == key(x);
          assert y in UniqueFrom(s, key, seen);
        }
      }
    }
    if key(x) !in seen && key(x) == key(s[0]) && key(s[0]) !in seen {
      assert s[0] in UniqueFrom(s, key, seen);
    }
  }

  /**
    The ORM's uniquing of a single-entity result: the first row of each key
    is kept, in order, and later rows with a key already seen are dropped.
  */
  function UniqueFirst<T, K(==)>(s: seq<T>, key: T -> K): (r: seq<T>)
    ensures |r| <= |s|
    ensures forall x :: x in r ==> x in s
    ensures UniqueBy(r, key)
  {
    UniqueFromUnique(s, key, {});
    UniqueFrom(s, key, {})
  }

  /** Every key of the input keeps a row. */
  lemma {:induction false} UniqueFirstCovers<T, K>(s: seq<T>, key: T -> K, x: T)
    requires x in s
    ensures exists y :: y in UniqueFirst(s, key) && key(y) == key(x)
  {
    UniqueFromCovers(s, key, {}, x);
  }

  /** When rows with the same key are the same row, uniquing keeps exactly the rows of the input. */
  lemma {:induction false} UniqueFirstMembers<T, K>(s: seq<T>, key: T -> K, x: T)
    requires forall a, b :: a in s && b in s && key(a) == key(b) ==> a == b
    ensures x in UniqueFirst(s, key) <==> x in s
  {
    if x in s {
      UniqueFirstCovers(s, key, x);
      var y :| y in UniqueFirst(s, key) && key(y) == key(x);
    }
  }

  /** Under a unique key, two rows of the table with the same key are the same row. */
  lemma {:induction false} UniqueBySameRow<T, K>(s: seq<T>, key: T -> K, a: T, b: T)
    requires UniqueBy(s, key) && a in s && b in s && key(a) == key(b)
    ensures a == b
  {
    var i :| 0 <= i < |s| && s[i] == a;
    var j :| 0 <= j < |s| && s[j] == b;
    assert i == j;
  }
}
