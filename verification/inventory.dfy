/**
 * The inventory service of app.py with the HTTP, SQLite and locking layers
 * removed: a store of product rows together with the search cache, and the
 * operations that read and change it. Every operation is one atomic
 * transition from a store to a store.
 */
module Inventory {
  import opened Wrappers
  import opened Text
  import opened Products
  import opened SearchCache

  /** The ways an operation can be rejected (each one an HTTP 400 or 404). */
  datatype Rejection = InvalidInput | InvalidDelta | NotFound | InsufficientQuantity

  /**
   * The product rows in the order a full table scan returns them (ascending
   * id), the next id AUTOINCREMENT will hand out, and the search cache.
   */
  datatype Store = Store(rows: seq<Product>, nextId: int, cache: Cache)

  /** What an operation answered and the store it left behind. */
  datatype Transition<T> = Transition(result: Result<T, Rejection>, after: Store)

  /** A fresh database: no products, ids starting at 1, an invalid empty cache. */
  const Initial := Store([], 1, Empty)

  /** `SELECT ... WHERE id = ?`: the row with that id, if any. */
  function Find(rows: seq<Product>, id: int): (r: Option<Product>)
    ensures r.Some? ==> r.value in rows && r.value.id == id
    ensures r.None? <==> forall p :: p in rows ==> p.id != id
  {
    if |rows| == 0 then None
    else if rows[0].id == id then Some(rows[0])
    else Find(rows[1..], id)
  }

  /** Ids increase along the rows, so no id occurs twice. */
  predicate IdsAscending(rows: seq<Product>) {
    forall i, j :: 0 <= i < j < |rows| ==> rows[i].id < rows[j].id
  }

  /**
   * A row as the schema and `add_produit` allow it: an id already handed out,
   * a non-empty name, a quantity of at least zero.
   */
  predicate WellFormedRow(p: Product, nextId: int) {
    p.id < nextId && |p.name| > 0 && p.quantity >= 0
  }

  /**
   * The invariant of every reachable store: the rows are well formed and
   * uniquely identified, and a cache marked valid is exactly the rebuild of
   * the current rows.
   */
  predicate Valid(s: Store) {
    && IdsAscending(s.rows)
    && (forall p :: p in s.rows ==> WellFormedRow(p, s.nextId))
    && (s.cache.valid ==> s.cache == Rebuild(s.rows))
  }

  /** Lowers the cache flag and touches nothing else. */
  function Invalidate(c: Cache): Cache {
    c.(valid := false)
  }

  /** `UPDATE produits SET quantite = ? WHERE id = ?`. */
  function SetQuantity(rows: seq<Product>, id: int, quantity: int): seq<Product> {
    seq(|rows|, i requires 0 <= i < |rows| =>
      if rows[i].id == id then rows[i].(quantity := quantity) else rows[i])
  }

  /** `DELETE FROM produits WHERE id = ?`. */
  function Without(rows: seq<Product>, id: int): seq<Product> {
    if |rows| == 0 then []
    else (if rows[0].id == id then [] else [rows[0]]) + Without(rows[1..], id)
  }

  // ---------------------------------------------------------------------------
  // The row-level operations, seen through Find

  lemma {:induction false} FindSetQuantity(rows: seq<Product>, id: int, quantity: int, k: int)
    ensures Find(SetQuantity(rows, id, quantity), k)
         == if k != id then Find(rows, k)
            else if Find(rows, k).None? then None
            else Some(Find(rows, k).value.(quantity := quantity))
    decreases |rows|
  {
    if |rows| > 0 {
      assert SetQuantity(rows, id, quantity)[1..] == SetQuantity(rows[1..], id, quantity);
      FindSetQuantity(rows[1..], id, quantity, k);
    }
  }

  lemma {:induction false} FindWithout(rows: seq<Product>, id: int, k: int)
    ensures Find(Without(rows, id), k) == if k == id then None else Find(rows, k)
    decreases |rows|
  {
    if |rows| > 0 {
      var rest := Without(rows[1..], id);
      FindWithout(rows[1..], id, k);
      if rows[0].id == id {
        assert Without(rows, id) == rest;
      } else {
        var r := [rows[0]] + rest;
        assert Without(rows, id) == r;
        assert r[0] == rows[0] && r[1..] == rest;
        assert Find(r, k) == if rows[0].id == k then Some(rows[0]) else Find(rest, k);
      }
    }

  }

  lemma {:induction false} WithoutKeepsRows(rows: seq<Product>, id: int, p: Product)
    ensures p in Without(rows, id) <==> p in rows && p.id != id
    decreases |rows|
  {
    if |rows| > 0 {
      WithoutKeepsRows(rows[1..], id, p);
      assert rows == [rows[0]] + rows[1..];
    }
  }

  lemma {:induction false} WithoutKeepsOrder(rows: seq<Product>, id: int)
    requires IdsAscending(rows)
    ensures IdsAscending(Without(rows, id))
    decreases |rows|
  {
    if |rows| > 0 {
      var rest := Without(rows[1..], id);
      WithoutKeepsOrder(rows[1..], id);
      if rows[0].id != id {
        var r := [rows[0]] + rest;
        forall i, j | 0 <= i < j < |r| ensures r[i].id < r[j].id {
          assert r[j] == rest[j - 1];
          WithoutKeepsRows(rows[1..], id, rest[j - 1]);
          var m :| 0 <= m < |rows[1..]| && rows[1..][m] == rest[j - 1];
          assert rows[m + 1] == r[j];
          if i > 0 {
            assert r[i] == rest[i - 1];
          }
        }
      }
    }
  }

  lemma {:induction false} FindAppend(rows: seq<Product>, p: Product, k: int)
    requires Find(rows, p.id).None?
    ensures Find(rows + [p], k) == if k == p.id then Some(p) else Find(rows, k)
    decreases |rows|
  {
    if |rows| > 0 {
      assert (rows + [p])[1..] == rows[1..] + [p];
      FindAppend(rows[1..], p, k);
    }
  }

  // ---------------------------------------------------------------------------
  // The operations

  /**
   * `add_produit`: a missing quantity counts as 0; a missing or empty name or
   * a negative quantity is rejected; otherwise the row is inserted under the
   * next id and the cache is invalidated. The id is returned so that
   * properties can name the new row.
   */
  function AddProduct(s: Store, name: Option<string>, quantity: Option<int>, category: Option<int>)
    : (t: Transition<int>)
    ensures t.result.Failure? <==> name.None? || name.value == [] || quantity.GetOr(0) < 0
    ensures t.result.Failure? ==> t.result.error == InvalidInput && t.after == s
    ensures t.result.Success? ==> !t.after.cache.valid && t.after.cache.products == s.cache.products
  {
    var q := quantity.GetOr(0);
    if name.None? || name.value == [] || q < 0 then Transition(Failure(InvalidInput), s)
    else
      var p := Product(s.nextId, name.value, q, category);
      Transition(Success(s.nextId), Store(s.rows + [p], s.nextId + 1, Invalidate(s.cache)))
  }

  /**
   * `update_quantite`: a zero (or missing) delta, an unknown id and a
   * result below zero are rejected in that order; otherwise the row gets
   * its new quantity, which is returned, and the cache is invalidated.
   */
  function UpdateQuantity(s: Store, id: int, delta: Option<int>): (t: Transition<int>)
    ensures t.result == Failure(InvalidDelta) <==> delta.GetOr(0) == 0
    ensures t.result == Failure(NotFound) <==> delta.GetOr(0) != 0 && Find(s.rows, id).None?
    ensures t.result == Failure(InsufficientQuantity)
        <==> delta.GetOr(0) != 0 && Find(s.rows, id).Some?
             && Find(s.rows, id).value.quantity + delta.GetOr(0) < 0
    ensures t.result.Failure? ==> t.after == s
    ensures t.result.Success?
        <==> delta.GetOr(0) != 0 && Find(s.rows, id).Some?
             && Find(s.rows, id).value.quantity + delta.GetOr(0) >= 0
    ensures t.result.Success? ==>
              && Find(s.rows, id).Some?
              && t.result.value == Find(s.rows, id).value.quantity + delta.GetOr(0)
              && t.result.value >= 0
              && !t.after.cache.valid
  {
    var d := delta.GetOr(0);
    if d == 0 then Transition(Failure(InvalidDelta), s)
    else match Find(s.rows, id)
      case None => Transition(Failure(NotFound), s)
      case Some(p) =>
        var updated := p.quantity + d;
        if updated < 0 then Transition(Failure(InsufficientQuantity), s)
        else Transition(Success(updated),
                        s.(rows := SetQuantity(s.rows, id, updated), cache := Invalidate(s.cache)))
  }

  /**
   * `delete_produit`: an unknown id is rejected; otherwise the row goes and
   * the cache is invalidated.
   */
  function DeleteProduct(s: Store, id: int): (t: Transition<()>)
    ensures t.result.Failure? <==> Find(s.rows, id).None?
    ensures t.result.Failure? ==> t.result.error == NotFound && t.after == s
    ensures t.result.Success? ==> !t.after.cache.valid && t.after.nextId == s.nextId
  {
    if Find(s.rows, id).None? then Transition(Failure(NotFound), s)
    else Transition(Success(()), s.(rows := Without(s.rows, id), cache := Invalidate(s.cache)))
  }

  /**
   * `get_produits`: answers the rows in store order and, as a side effect,
   * replaces the cache with a fresh valid rebuild.
   */
  function ListProducts(s: Store): (t: Transition<seq<Product>>)
    ensures t.result == Success(s.rows)
    ensures t.after.rows == s.rows && t.after.nextId == s.nextId
    ensures t.after.cache.valid && SortedByKey(t.after.cache.products)
    ensures multiset(t.after.cache.products) == multiset(s.rows)
    ensures Indexed(t.after.cache.products, t.after.cache.names)
  {
    Transition(Success(s.rows), s.(cache := Rebuild(s.rows)))
  }

  // ---------------------------------------------------------------------------
  // What a successful write does to the rows

  lemma AddProductEffect(s: Store, name: Option<string>, quantity: Option<int>, category: Option<int>)
    requires Valid(s)
    ensures var t := AddProduct(s, name, quantity, category);
      t.result.Success? ==>
        var id := t.result.value;
        && Find(s.rows, id).None?
        && Find(t.after.rows, id) == Some(Product(id, name.value, quantity.GetOr(0), category))
        && (forall k :: k != id ==> Find(t.after.rows, k) == Find(s.rows, k))
        && t.after.nextId > id
  {
    var t := AddProduct(s, name, quantity, category);
    if t.result.Success? {
      var p := Product(s.nextId, name.value, quantity.GetOr(0), category);
      assert Find(s.rows, p.id).None?;
      forall k ensures Find(t.after.rows, k) == if k == p.id then Some(p) else Find(s.rows, k) {
        FindAppend(s.rows, p, k);
      }
    }
  }

  lemma UpdateQuantityEffect(s: Store, id: int, delta: Option<int>)
    ensures var t := UpdateQuantity(s, id, delta);
      t.result.Success? ==>
        && Find(t.after.rows, id) == Some(Find(s.rows, id).value.(quantity := t.result.value))
        && (forall k :: k != id ==> Find(t.after.rows, k) == Find(s.rows, k))
        && t.after.nextId == s.nextId
  {
    var t := UpdateQuantity(s, id, delta);
    if t.result.Success? {
      var q := t.result.value;
      assert t.after.rows == SetQuantity(s.rows, id, q);
      forall k ensures Find(t.after.rows, k)
          == if k != id then Find(s.rows, k) else Some(Find(s.rows, k).value.(quantity := q)) {
        FindSetQuantity(s.rows, id, q, k);
      }
    }
  }

  lemma DeleteProductEffect(s: Store, id: int)
    ensures var t := DeleteProduct(s, id);
      t.result.Success? ==>
        && Find(t.after.rows, id).None?
        && (forall k :: k != id ==> Find(t.after.rows, k) == Find(s.rows, k))
  {
    var t := DeleteProduct(s, id);
    if t.result.Success? {
      forall k ensures Find(t.after.rows, k) == if k == id then None else Find(s.rows, k) {
        FindWithout(s.rows, id, k);
      }
    }
  }

  // ---------------------------------------------------------------------------
  // The invariant is kept by every operation

  lemma AddKeepsValid(s: Store, name: Option<string>, quantity: Option<int>, category: Option<int>)
    requires Valid(s)
    ensures Valid(AddProduct(s, name, quantity, category).after)
  {
    var t := AddProduct(s, name, quantity, category);
    if t.result.Success? {
      var rows := t.after.rows;
      assert rows == s.rows + [rows[|rows| - 1]];
      forall i, j | 0 <= i < j < |rows| ensures rows[i].id < rows[j].id {
        if j == |rows| - 1 {
          assert rows[i] in s.rows;
        }
      }
    }
  }

  lemma UpdateKeepsValid(s: Store, id: int, delta: Option<int>)
    requires Valid(s)
    ensures Valid(UpdateQuantity(s, id, delta).after)
  {
  }

  lemma DeleteKeepsValid(s: Store, id: int)
    requires Valid(s)
    ensures Valid(DeleteProduct(s, id).after)
  {
    var t := DeleteProduct(s, id);
    if t.result.Success? {
      WithoutKeepsOrder(s.rows, id);
      forall p | p in t.after.rows ensures WellFormedRow(p, s.nextId) {
        WithoutKeepsRows(s.rows, id, p);
      }
    }
  }

  lemma ListKeepsValid(s: Store)
    requires Valid(s)
    ensures Valid(ListProducts(s).after)
  {
  }

  // ---------------------------------------------------------------------------
  // Search

  /**
   * The query as `recherche` uses it: stripped, then lower-cased. It is
   * already in lower case, like every cached name.
   */
  function Normalize(query: string): (q: string)
    ensures |q| <= |query|
    ensures Lower(q) == q
  {
    LowerIdempotent(Strip(query));
    Lower(Strip(query))
  }

  /** A query is blank after normalising exactly when it is all whitespace. */
  lemma BlankQuery(query: string)
    ensures Normalize(query) == [] <==> forall i :: 0 <= i < |query| ==> IsSpace(query[i])
  {
  }

  /**
   * What a search answers, stated without the cache: nothing for a blank
   * query; otherwise the rows whose lower-cased name starts with the
   * normalised query, stably sorted by lower-cased name.
   */
  function SearchResult(rows: seq<Product>, query: string): (r: seq<Product>)
    ensures SortedByKey(r)
  {
    var q := Normalize(query);
    if q == [] then [] else SortByName(Matching(rows, q))
  }

  /**
   * The store after a search: a blank query touches nothing, a valid cache
   * is kept, a stale one is rebuilt.
   */
  function AfterSearch(s: Store, query: string): (after: Store)
    ensures after.rows == s.rows && after.nextId == s.nextId
    ensures Normalize(query) != [] ==> after.cache.valid
    ensures Normalize(query) == [] ==> after == s
    ensures Valid(s) ==> Valid(after)
  {
    if Normalize(query) == [] || s.cache.valid then s else s.(cache := Rebuild(s.rows))
  }

  /**
   * `recherche`: normalise the query and answer nothing if it is blank;
   * rebuild a stale cache; answer nothing from an empty cache; otherwise
   * binary-search the sorted names and scan forward over the block of
   * matches. The answer is the cache-free `SearchResult` of the rows, so it
   * does not depend on whether the cache was valid beforehand.
   */
  method Search(s: Store, query: string) returns (found: seq<Product>, after: Store)
    requires Valid(s)
    ensures found == SearchResult(s.rows, query)
    ensures after == AfterSearch(s, query)
  {
    var q := Normalize(query);
    if q == [] {
      return [], s;
    }
    after := s;
    if !s.cache.valid {
      after := s.(cache := Rebuild(s.rows));
    }
    assert after.cache == Rebuild(s.rows);
    if |after.cache.products| == 0 {
      assert |multiset(s.rows)| == 0;
      return [], after;
    }
    found := PrefixLookup(after.cache.products, after.cache.names, q);
    SortThenFilter(s.rows, q);
  }

  /**
   * The search answer, element by element: exactly the rows whose
   * lower-cased name starts with the normalised (non-blank) query, in
   * non-decreasing name order, rows of equal name in store order.
   */
  lemma SearchResultMeaning(rows: seq<Product>, query: string, p: Product, k: string)
    ensures p in SearchResult(rows, query)
        <==> Normalize(query) != [] && p in rows && StartsWith(Key(p), Normalize(query))
    ensures SortedByKey(SearchResult(rows, query))
    ensures Normalize(query) != [] ==>
              WithKey(SearchResult(rows, query), k) == WithKey(Matching(rows, Normalize(query)), k)
  {
    var q := Normalize(query);
    if q != [] {
      var m := Matching(rows, q);
      MatchingMembers(rows, q, p);
      assert p in SortByName(m) <==> p in multiset(SortByName(m));
      SortIsStable(m, k);
    }
  }

  /** Once a delete succeeds, no search finds the deleted product any more. */
  lemma DeletedNeverFound(s: Store, id: int, query: string, p: Product)
    ensures var t := DeleteProduct(s, id);
      t.result.Success? && p in SearchResult(t.after.rows, query) ==> p.id != id
  {
    var t := DeleteProduct(s, id);
    if t.result.Success? {
      SearchResultMeaning(t.after.rows, query, p, []);
      WithoutKeepsRows(s.rows, id, p);
    }
  }

  /**
   * Two searches with no write between them: the first leaves the rows as
   * they were, so the second answers what it would have answered first;
   * and repeating a search changes nothing more.
   */
  lemma RepeatedSearch(s: Store, first: string, second: string)
    requires Valid(s)
    ensures SearchResult(AfterSearch(s, first).rows, second) == SearchResult(s.rows, second)
    ensures AfterSearch(AfterSearch(s, first), first) == AfterSearch(s, first)
  {
  }

  // ---------------------------------------------------------------------------
  // Reachable stores

  /** One request to the service. */
  datatype Request =
    | ListAll
    | Create(name: Option<string>, quantity: Option<int>, category: Option<int>)
    | ChangeQuantity(id: int, delta: Option<int>)
    | Remove(id: int)
    | Query(text: string)

  function Apply(s: Store, r: Request): Store {
    match r
    case ListAll => ListProducts(s).after
    case Create(name, quantity, category) => AddProduct(s, name, quantity, category).after
    case ChangeQuantity(id, delta) => UpdateQuantity(s, id, delta).after
    case Remove(id) => DeleteProduct(s, id).after
    case Query(text) => AfterSearch(s, text)
  }

  /** The store after serving `rs` one at a time, in order. */
  function Replay(s: Store, rs: seq<Request>): Store
    decreases |rs|
  {
    if |rs| == 0 then s else Replay(Apply(s, rs[0]), rs[1..])
  }

  lemma ApplyKeepsValid(s: Store, r: Request)
    requires Valid(s)
    ensures Valid(Apply(s, r))
  {
    match r
    case ListAll => ListKeepsValid(s);
    case Create(name, quantity, category) => AddKeepsValid(s, name, quantity, category);
    case ChangeQuantity(id, delta) => UpdateKeepsValid(s, id, delta);
    case Remove(id) => DeleteKeepsValid(s, id);
    case Query(text) =>
  }

  lemma {:induction false} ReplayKeepsValid(s: Store, rs: seq<Request>)
    requires Valid(s)
    ensures Valid(Replay(s, rs))
    decreases |rs|
  {
    if |rs| > 0 {
      ApplyKeepsValid(s, rs[0]);
      ReplayKeepsValid(Apply(s, rs[0]), rs[1..]);
    }
  }

  /**
   * Every store the service can reach from a fresh database keeps all
   * quantities at or above zero and all names non-empty, and its cache,
   * when marked valid, is the sorted rebuild of the current rows.
   */
  lemma Reachable(rs: seq<Request>)
    ensures var s := Replay(Initial, rs);
      && (forall p :: p in s.rows ==> p.quantity >= 0 && |p.name| > 0)
      && (s.cache.valid ==> s.cache == Rebuild(s.rows))
  {
    ReplayKeepsValid(Initial, rs);
  }
}
