/**
 * Product records, the case-insensitive sort key, Python's stable `sorted`
 * by that key, and the linear prefix filter that the search must agree with.
 */
module Products {
  import opened Wrappers
  import opened Text

  /**
   * One row of the products table. `category` is the optional category id,
   * kept opaque.
   */
  datatype Product = Product(id: int, name: string, quantity: int, category: Option<int>)

  /** The sort and search key: the lower-cased name. */
  function Key(p: Product): string {
    Lower(p.name)
  }

  /** Non-decreasing by key. */
  predicate SortedByKey(ps: seq<Product>) {
    forall i, j :: 0 <= i < j < |ps| ==> Le(Key(ps[i]), Key(ps[j]))
  }

  /** Every element of `ps` has a key at least `k`. */
  predicate KeysAtLeast(k: string, ps: seq<Product>) {
    forall j :: 0 <= j < |ps| ==> Le(k, Key(ps[j]))
  }

  lemma ConsSorted(h: Product, t: seq<Product>)
    requires SortedByKey(t) && KeysAtLeast(Key(h), t)
    ensures SortedByKey([h] + t)
  {
    var r := [h] + t;
    forall i, j | 0 <= i < j < |r| ensures Le(Key(r[i]), Key(r[j])) {
      assert r[j] == t[j - 1];
      if i > 0 {
        assert r[i] == t[i - 1];
      }
    }
  }

  lemma SortedHeadIsLeast(k: string, s: seq<Product>)
    requires SortedByKey(s) && |s| > 0 && Le(k, Key(s[0]))
    ensures KeysAtLeast(k, s)
  {
    forall j | 0 < j < |s| ensures Le(k, Key(s[j])) {
      LeTransitive(k, Key(s[0]), Key(s[j]));
    }
  }

  lemma KeysAtLeastPermuted(k: string, s: seq<Product>, x: Product, r: seq<Product>)
    requires KeysAtLeast(k, s) && Le(k, Key(x))
    requires multiset(r) == multiset(s) + multiset{x}
    ensures KeysAtLeast(k, r)
  {
    forall j | 0 <= j < |r| ensures Le(k, Key(r[j])) {
      assert r[j] in multiset(r);
      if r[j] != x {
        assert r[j] in multiset(s);
        var i :| 0 <= i < |s| && s[i] == r[j];
      }
    }
  }

  /**
   * Puts `x` in front of the first element whose key is not below its own,
   * so `x` lands before every element of equal key.
   */
  function Insert(x: Product, s: seq<Product>): (r: seq<Product>)
    requires SortedByKey(s)
    ensures SortedByKey(r)
    ensures multiset(r) == multiset(s) + multiset{x}
  {
    if |s| == 0 then [x]
    else if Le(Key(x), Key(s[0])) then
      SortedHeadIsLeast(Key(x), s);
      ConsSorted(x, s);
      [x] + s
    else
      var rest := Insert(x, s[1..]);
      assert s == [s[0]] + s[1..];
      LeTotal(Key(x), Key(s[0]));
      assert KeysAtLeast(Key(s[0]), s[1..]) by {
        forall j | 0 <= j < |s| - 1 ensures Le(Key(s[0]), Key(s[1..][j])) {
          assert s[1..][j] == s[j + 1];
        }
      }
      KeysAtLeastPermuted(Key(s[0]), s[1..], x, rest);
      ConsSorted(s[0], rest);
      [s[0]] + rest
  }

  /** Inserting an element that sorts before the whole of `s` puts it in front. */
  lemma InsertInFront(x: Product, s: seq<Product>)
    requires SortedByKey(s)
    requires |s| == 0 || Le(Key(x), Key(s[0]))
    ensures Insert(x, s) == [x] + s
  {
  }

  /** Inserting an element that sorts after the head of `s` keeps the head in front. */
  lemma InsertBehind(x: Product, s: seq<Product>)
    requires SortedByKey(s) && |s| > 0 && !Le(Key(x), Key(s[0]))
    ensures Insert(x, s) == [s[0]] + Insert(x, s[1..])
  {
  }

  /**
   * Python's `sorted(rows, key=lambda p: p.nom.lower())`: a stable sort by
   * key, built by inserting each row, last to first, into the sorted rest.
   */
  function SortByName(rows: seq<Product>): (r: seq<Product>)
    ensures SortedByKey(r)
    ensures multiset(r) == multiset(rows)
  {
    if |rows| == 0 then []
    else
      assert rows == [rows[0]] + rows[1..];
      Insert(rows[0], SortByName(rows[1..]))
  }

  /** The elements of `ps` whose key is exactly `k`, in their order in `ps`. */
  function WithKey(ps: seq<Product>, k: string): seq<Product> {
    if |ps| == 0 then []
    else (if Key(ps[0]) == k then [ps[0]] else []) + WithKey(ps[1..], k)
  }

  lemma WithKeyCons(h: Product, t: seq<Product>, k: string)
    ensures WithKey([h] + t, k) == (if Key(h) == k then [h] else []) + WithKey(t, k)
  {
    assert ([h] + t)[1..] == t;
  }

  lemma {:induction false} InsertWithKey(x: Product, s: seq<Product>, k: string)
    requires SortedByKey(s)
    ensures WithKey(Insert(x, s), k) == (if Key(x) == k then [x] else []) + WithKey(s, k)
    decreases |s|
  {
    if |s| == 0 || Le(Key(x), Key(s[0])) {
      InsertInFront(x, s);
      WithKeyCons(x, s, k);
    } else {
      InsertWithKey(x, s[1..], k);
      InsertWithKeyBehind(x, s, k);
    }
  }

  lemma InsertWithKeyBehind(x: Product, s: seq<Product>, k: string)
    requires SortedByKey(s) && |s| > 0 && !Le(Key(x), Key(s[0]))
    requires WithKey(Insert(x, s[1..]), k) == (if Key(x) == k then [x] else []) + WithKey(s[1..], k)
    ensures WithKey(Insert(x, s), k) == (if Key(x) == k then [x] else []) + WithKey(s, k)
  {
    var rest := Insert(x, s[1..]);
    var tail := WithKey(s[1..], k);
    InsertBehind(x, s);
    WithKeyCons(s[0], rest, k);
    WithKeyCons(s[0], s[1..], k);
    assert s == [s[0]] + s[1..];
    if Key(x) == k {
      LeReflexive(Key(x));
      assert WithKey(s, k) == tail;
    } else if Key(s[0]) == k {
      var none: seq<Product> := [];
      assert (if Key(x) == k then [x] else []) == none;
      assert WithKey(rest, k) == none + tail == tail;
      assert WithKey(Insert(x, s), k) == [s[0]] + tail;
      assert WithKey(s, k) == [s[0]] + tail;
    } else {
      assert WithKey(Insert(x, s), k) == tail;
    }

  }

  /**
   * Stability: for every key, the rows carrying it come out of the sort in
   * the order they went in.
   */
  lemma {:induction false} SortIsStable(rows: seq<Product>, k: string)
    ensures WithKey(SortByName(rows), k) == WithKey(rows, k)
    decreases |rows|
  {
    if |rows| > 0 {
      SortIsStable(rows[1..], k);
      InsertWithKey(rows[0], SortByName(rows[1..]), k);
    }
  }

  /** Whether `p` answers the (already normalised) query `q`. */
  predicate Matches(p: Product, q: string) {
    StartsWith(Key(p), q)
  }

  /**
   * The linear search: the elements of `ps` whose lower-cased name starts
   * with `q`, in their order in `ps`.
   */
  function Matching(ps: seq<Product>, q: string): seq<Product> {
    if |ps| == 0 then []
    else (if Matches(ps[0], q) then [ps[0]] else []) + Matching(ps[1..], q)
  }

  /** The filter keeps an element exactly when it occurs in `ps` and matches. */
  lemma {:induction false} MatchingMembers(ps: seq<Product>, q: string, x: Product)
    ensures x in Matching(ps, q) <==> x in ps && Matches(x, q)
    decreases |ps|
  {
    if |ps| > 0 {
      MatchingMembers(ps[1..], q, x);
      assert ps == [ps[0]] + ps[1..];
    }
  }

  /** The filter of a sorted sequence is sorted. */
  lemma {:induction false} MatchingSorted(ps: seq<Product>, q: string)
    requires SortedByKey(ps)
    ensures SortedByKey(Matching(ps, q))
    decreases |ps|
  {
    if |ps| > 0 {
      var rest := Matching(ps[1..], q);
      MatchingSorted(ps[1..], q);
      if Matches(ps[0], q) {
        var r := [ps[0]] + rest;
        forall j | 0 <= j < |rest| ensures Le(Key(ps[0]), Key(rest[j])) {
          MatchingMembers(ps[1..], q, rest[j]);
          var i :| 0 <= i < |ps[1..]| && ps[1..][i] == rest[j];
          assert ps[i + 1] == rest[j];
        }
        forall i, j | 0 <= i < j < |r| ensures Le(Key(r[i]), Key(r[j])) {
          assert r[j] == rest[j - 1];
          if i > 0 {
            assert r[i] == rest[i - 1];
          }
        }
      }
    }
  }

  /**
   * The filter keeps exactly the matching elements, each as many times as
   * it occurs.
   */
  lemma {:induction false} MatchingCounts(ps: seq<Product>, q: string, p: Product)
    ensures multiset(Matching(ps, q))[p] == if Matches(p, q) then multiset(ps)[p] else 0
    decreases |ps|
  {
    if |ps| > 0 {
      MatchingCounts(ps[1..], q, p);
      assert ps == [ps[0]] + ps[1..];
    }
  }

  lemma {:induction false} MatchingConcat(a: seq<Product>, b: seq<Product>, q: string)
    ensures Matching(a + b, q) == Matching(a, q) + Matching(b, q)
    decreases |a|
  {
    if |a| > 0 {
      assert (a + b)[1..] == a[1..] + b;
      MatchingConcat(a[1..], b, q);
    } else {
      assert a + b == b;
    }
  }

  /** Nothing in `ps` matches, so the filter is empty. */
  lemma {:induction false} MatchingNone(ps: seq<Product>, q: string)
    requires forall i :: 0 <= i < |ps| ==> !Matches(ps[i], q)
    ensures Matching(ps, q) == []
    decreases |ps|
  {
    if |ps| > 0 {
      MatchingNone(ps[1..], q);
    }
  }

  /** Every element of `ps` matches, so the filter keeps all of it. */
  lemma {:induction false} MatchingAll(ps: seq<Product>, q: string)
    requires forall i :: 0 <= i < |ps| ==> Matches(ps[i], q)
    ensures Matching(ps, q) == ps
    decreases |ps|
  {
    if |ps| > 0 {
      MatchingAll(ps[1..], q);
      assert ps == [ps[0]] + ps[1..];
    }
  }

  lemma {:induction false} InsertMatching(x: Product, s: seq<Product>, q: string)
    requires SortedByKey(s)
    ensures SortedByKey(Matching(s, q))
    ensures Matching(Insert(x, s), q)
         == if Matches(x, q) then Insert(x, Matching(s, q)) else Matching(s, q)
    decreases |s|
  {
    MatchingSorted(s, q);
    if |s| == 0 {
    } else if Le(Key(x), Key(s[0])) {
      InsertMatchingFront(x, s, q);
    } else {
      InsertMatching(x, s[1..], q);
      InsertMatchingBehind(x, s, q);
    }
  }

  lemma InsertMatchingFront(x: Product, s: seq<Product>, q: string)
    requires SortedByKey(s) && |s| > 0 && Le(Key(x), Key(s[0]))
    ensures SortedByKey(Matching(s, q))
    ensures Matching(Insert(x, s), q)
         == if Matches(x, q) then Insert(x, Matching(s, q)) else Matching(s, q)
  {
    var m := Matching(s, q);
    MatchingSorted(s, q);
    assert Insert(x, s) == [x] + s;
    assert ([x] + s)[1..] == s;
    assert Matching([x] + s, q) == (if Matches(x, q) then [x] else []) + m;
    if Matches(x, q) {
      if |m| > 0 {
        MatchingMembers(s, q, m[0]);
        var j :| 0 <= j < |s| && s[j] == m[0];
        if j > 0 {
          LeTransitive(Key(x), Key(s[0]), Key(s[j]));
        }
      }
      InsertInFront(x, m);
    }
  }

  lemma InsertMatchingBehind(x: Product, s: seq<Product>, q: string)
    requires SortedByKey(s) && |s| > 0 && !Le(Key(x), Key(s[0]))
    requires SortedByKey(Matching(s[1..], q))
    requires Matching(Insert(x, s[1..]), q)
          == if Matches(x, q) then Insert(x, Matching(s[1..], q)) else Matching(s[1..], q)
    ensures SortedByKey(Matching(s, q))
    ensures Matching(Insert(x, s), q)
         == if Matches(x, q) then Insert(x, Matching(s, q)) else Matching(s, q)
  {
    var m := Matching(s, q);
    var rest := Insert(x, s[1..]);
    var m' := Matching(s[1..], q);
    assert Insert(x, s) == [s[0]] + rest;
    assert ([s[0]] + rest)[1..] == rest;
    assert Matching(Insert(x, s), q) == (if Matches(s[0], q) then [s[0]] else []) + Matching(rest, q);
    assert m == (if Matches(s[0], q) then [s[0]] else []) + m';
    MatchingSorted(s, q);
    if Matches(x, q) {
      assert Matching(rest, q) == Insert(x, m');
      if Matches(s[0], q) {
        assert m[0] == s[0] && m[1..] == m';
        assert !Le(Key(x), Key(m[0]));
        assert Insert(x, m) == [m[0]] + Insert(x, m[1..]);
      } else {
        assert m == m';
      }
    } else {
      assert Matching(rest, q) == m';
    }

  }

  /**
   * Filtering commutes with the stable sort: the matches of the sorted rows
   * are the sorted matches of the rows.
   */
  lemma {:induction false} SortThenFilter(rows: seq<Product>, q: string)
    ensures Matching(SortByName(rows), q) == SortByName(Matching(rows, q))
    decreases |rows|
  {
    if |rows| > 0 {
      var tail := Matching(rows[1..], q);
      var m := (if Matches(rows[0], q) then [rows[0]] else []) + tail;
      assert Matching(rows, q) == m;
      assert SortByName(rows) == Insert(rows[0], SortByName(rows[1..]));
      SortThenFilter(rows[1..], q);
      InsertMatching(rows[0], SortByName(rows[1..]), q);
      if Matches(rows[0], q) {
        assert m[0] == rows[0] && m[1..] == tail;
        assert SortByName(m) == Insert(rows[0], SortByName(tail));
      } else {
        assert m == tail;
      }
    }
  }
}
