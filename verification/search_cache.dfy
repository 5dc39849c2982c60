/**
 * The in-memory search cache of app.py: the products sorted by lower-cased
 * name, the parallel list of those names, and the validity flag; plus the
 * lower-bound binary search and the forward scan that answer a prefix query.
 */
module SearchCache {
  import opened Text
  import opened Products

  /**
   * `products` and `names` are `produits_tries_cache` and
   * `noms_tries_cache`; `valid` is `cache_valide`.
   */
  datatype Cache = Cache(products: seq<Product>, names: seq<string>, valid: bool)

  /** The cache the service starts with: empty lists, flag down. */
  const Empty := Cache([], [], false)

  /** `names[i]` is the key of `products[i]`, for every `i`. */
  predicate Indexed(products: seq<Product>, names: seq<string>) {
    |names| == |products| && forall i :: 0 <= i < |names| ==> names[i] == Key(products[i])
  }

  /** Non-decreasing in Python's string order. */
  predicate Sorted(names: seq<string>) {
    forall i, j :: 0 <= i < j < |names| ==> Le(names[i], names[j])
  }

  /** The names of a sequence of products, in order. */
  function Keys(ps: seq<Product>): (names: seq<string>)
    ensures Indexed(ps, names)
    ensures SortedByKey(ps) ==> Sorted(names)
  {
    seq(|ps|, i requires 0 <= i < |ps| => Key(ps[i]))
  }

  /**
   * The rebuild in `get_produits`: the rows, stably sorted by lower-cased
   * name, with the matching names beside them and the flag raised.
   */
  function Rebuild(rows: seq<Product>): (c: Cache)
    ensures c.valid
    ensures multiset(c.products) == multiset(rows)
    ensures SortedByKey(c.products)
    ensures Indexed(c.products, c.names) && Sorted(c.names)
  {
    var sorted := SortByName(rows);
    Cache(sorted, Keys(sorted), true)
  }

  /**
   * Python's `bisect_left(names, q)`: the first position whose name is not
   * below `q`; everything before it is below `q`.
   */
  method LowerBound(names: seq<string>, q: string) returns (lo: nat)
    requires Sorted(names)
    ensures lo <= |names|
    ensures forall k :: 0 <= k < lo ==> Lt(names[k], q)
    ensures forall k :: lo <= k < |names| ==> Le(q, names[k])
  {
    lo := 0;
    var hi := |names|;
    while lo < hi
      invariant 0 <= lo <= hi <= |names|
      invariant forall k :: 0 <= k < lo ==> Lt(names[k], q)
      invariant forall k :: hi <= k < |names| ==> Le(q, names[k])
      decreases hi - lo
    {
      var mid := (lo + hi) / 2;
      if Lt(names[mid], q) {
        forall k | 0 <= k < mid ensures Lt(names[k], q) {
          if Le(q, names[k]) {
            LeTransitive(q, names[k], names[mid]);
          }
        }
        lo := mid + 1;
      } else {
        forall k | mid < k < |names| ensures Le(q, names[k]) {
          LeTransitive(q, names[mid], names[k]);
        }
        hi := mid;
      }
    }
  }

  /** No name below `q` can start with `q`. */
  lemma BelowBoundNoMatch(products: seq<Product>, names: seq<string>, q: string, start: nat)
    requires Indexed(products, names) && start <= |names|
    requires forall k :: 0 <= k < start ==> Lt(names[k], q)
    ensures Matching(products[..start], q) == []
  {
    forall k | 0 <= k < start ensures !Matches(products[..start][k], q) {
      if Matches(products[k], q) {
        PrefixIsLower(names[k], q);
      }
    }
    MatchingNone(products[..start], q);
  }

  /**
   * Once a name at or above `q` fails to start with `q`, no later name of a
   * sorted list starts with `q`.
   */
  lemma PastBlockNoMatch(products: seq<Product>, names: seq<string>, q: string, i: nat)
    requires Indexed(products, names) && Sorted(names) && i <= |names|
    requires i < |names| ==> Le(q, names[i]) && !StartsWith(names[i], q)
    ensures Matching(products[i..], q) == []
  {
    forall k | 0 <= k < |names| - i ensures !Matches(products[i..][k], q) {
      if Matches(products[i + k], q) {
        PrefixBlock(q, names[i], names[i + k]);
      }
    }
    MatchingNone(products[i..], q);
  }

  /** The filter of three pieces when only the middle one matches, and all of it. */
  lemma OnlyMiddleMatches(x: seq<Product>, m: seq<Product>, z: seq<Product>, q: string)
    requires Matching(x, q) == [] && Matching(z, q) == []
    requires forall k :: 0 <= k < |m| ==> Matches(m[k], q)
    ensures Matching(x + m + z, q) == m
  {
    MatchingAll(m, q);
    MatchingConcat(x, m, q);
    MatchingConcat(x + m, z, q);
  }

  lemma SplitTwice(ps: seq<Product>, a: nat, b: nat)
    requires a <= b <= |ps|
    ensures ps[..a] + ps[a..b] + ps[b..] == ps
  {
    assert ps[..a] + ps[a..b] == ps[..b];
  }

  /**
   * The lookup in `recherche`: binary search to the first name not below
   * `q`, then collect entries while their name starts with `q`. The result
   * is the linear filter of the whole cache.
   */
  method PrefixLookup(products: seq<Product>, names: seq<string>, q: string)
    returns (found: seq<Product>)
    requires Indexed(products, names) && Sorted(names)
    ensures found == Matching(products, q)
  {
    var start := LowerBound(names, q);
    BelowBoundNoMatch(products, names, q, start);
    found := [];
    var i := start;
    while i < |names| && StartsWith(names[i], q)
      invariant start <= i <= |names|
      invariant forall k :: start <= k < i ==> Matches(products[k], q)
      invariant found == products[start..i]
      decreases |names| - i
    {
      found := found + [products[i]];
      i := i + 1;
    }
    PastBlockNoMatch(products, names, q, i);
    OnlyMiddleMatches(products[..start], products[start..i], products[i..], q);
    SplitTwice(products, start, i);
  }
}
