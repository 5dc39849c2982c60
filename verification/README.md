# Gestion inventory: search cache and store transitions

This project models the backend logic of the inventory service in `app.py`
without the Flask, SQLite and threading layers. It has two parts.

- **The search cache** (`search_cache.dfy`, with `products.dfy` and `text.dfy`).
  `get_produits` rebuilds the cache. It stably sorts the products by
  lower-cased name, keeps the parallel list of lower-cased names, and raises
  `cache_valide`. `recherche` strips and lower-cases the query, rebuilds a
  stale cache, runs `bisect_left` over the names, and scans forward while
  each name starts with the query. The model proves that the binary search
  plus the scan returns exactly the linear prefix filter of the sorted
  cache. This holds because, in a sorted list, the names with a given prefix
  form one block that starts at the lower bound of that prefix.
- **The inventory store** (`inventory.dfy`). The store is the product rows
  in rowid order, plus the next AUTOINCREMENT id and the cache.
  `add_produit`, `update_quantite` and `delete_produit` are pure transitions
  that return a result or a rejection, together with the new store. A
  rejection leaves the store as it was. A successful write touches only its
  own row and lowers the cache flag. A store invariant, `Valid`, is kept by
  every request. Under it, ids ascend, quantities are at least zero, names
  are non-empty, and a cache marked valid is the rebuild of the current
  rows.

Python's string semantics are written out in `text.dfy`:

- `str.strip()` removes exactly the characters for which `str.isspace()`
  holds.
- `str.lower()` is modelled on ASCII and the Latin-1 capitals.
- `<` on strings is code-point lexicographic order, with a proper prefix
  sorting first.
- `startswith` compares a leading slice.

`scenarios.dfy` holds worked examples on a three-product store: a search
and two refused requests.

## Model

| member | source | states |
|---|---|---|
| Text.Strip | app.py:156 | the stripped query is the input with a run of leading and a run of trailing whitespace removed and nothing else; it is empty exactly when the input is all whitespace; a non-empty result starts and ends with a non-space character |
| Text.LowerIdempotent | app.py:156 | lower-casing an already lower-cased string changes nothing |
| Inventory.Normalize | app.py:156 | the normalised query is no longer than the raw one and is already lower case, as every cached name is |
| Inventory.BlankQuery | app.py:156-159 | the normalised query is blank, so the search answers nothing, exactly when the raw query is all whitespace |
| Text.LeTransitive | app.py:79 | the string order used by the sort and by `bisect_left` is transitive (with `LeTotal` and `LeAntisymmetric`, a total order) |
| Text.PrefixIsLower | app.py:167-170 | a string that starts with `q` is never below `q`, so no entry before the lower bound can match |
| Text.PrefixBlock | app.py:170 | if `q <= a <= b` and `b` starts with `q`, then `a` starts with `q`: the matches of `q` are one contiguous run of a sorted list |
| Products.Insert | app.py:79 | inserting into a key-sorted list keeps it sorted and adds exactly that one product to its multiset |
| Products.SortByName | app.py:79 | the sorted list is a permutation of the rows and is non-decreasing in lower-cased name |
| Products.SortIsStable | app.py:79 | for every key, the products with that key keep their original relative order (Python's `sorted` is stable) |
| Products.MatchingMembers | app.py:170 | a product is in the prefix filter exactly when it is in the list and its lower-cased name starts with the query |
| Products.MatchingSorted | app.py:168-172 | filtering a key-sorted list leaves it key-sorted |
| Products.MatchingCounts | app.py:168-172 | the filter keeps each matching product as many times as it occurs and drops every other product |
| Products.SortThenFilter | app.py:79-80 | filtering the stably sorted rows gives the same list as stably sorting the filtered rows |
| SearchCache.Keys | app.py:80 | the name list is aligned with the product list, entry by entry, and is sorted when the products are |
| SearchCache.Rebuild | app.py:77-81 | after a rebuild the flag is raised, the products are a permutation of the rows sorted by lower-cased name, and `names[i]` is the lower-cased name of `products[i]` |
| SearchCache.LowerBound | app.py:167 | `bisect_left` returns the first index whose name is not below the query: every earlier name is strictly below it, every later one is not |
| SearchCache.BelowBoundNoMatch | app.py:167 | no entry before the lower bound matches the query |
| SearchCache.PastBlockNoMatch | app.py:170 | once a name at or above the query fails to start with it, no later entry of the sorted cache matches |
| SearchCache.PrefixLookup | app.py:167-172 | the binary search plus the forward scan returns exactly the linear prefix filter of the whole sorted cache, in cache order |
| Inventory.Find | app.py:119-120 | a lookup by id yields a row of the store carrying that id, and yields nothing exactly when no row carries it |
| Inventory.AddProduct | app.py:89-105 | rejected exactly when the name is missing or empty or the quantity (0 when absent) is negative; a rejection is `InvalidInput` and changes nothing; a success lowers the cache flag |
| Inventory.AddProductEffect | app.py:99-104 | a successful add creates one row under a fresh id with the given name, quantity and category, and every other id looks up as before |
| Inventory.UpdateQuantity | app.py:111-136 | the zero-delta, unknown-id and below-zero rejections each happen exactly under their own condition and change nothing; the update succeeds exactly when none of them applies, returns current + delta, which is at least zero, and lowers the cache flag |
| Inventory.FindSetQuantity | app.py:131 | after the row update, looking up the updated id gives the old row with the new quantity (or nothing if it was absent), and every other id looks up as before |
| Inventory.UpdateQuantityEffect | app.py:131 | a successful update changes only that row's quantity; every other id looks up as before |
| Inventory.DeleteProduct | app.py:143-151 | not-found exactly when no row has the id, and then nothing changes; a success lowers the cache flag |
| Inventory.FindWithout | app.py:143 | after the row delete, the deleted id looks up as nothing and every other id looks up as before |
| Inventory.WithoutKeepsRows | app.py:143 | a product remains after the row delete exactly when it was there and does not carry the deleted id |
| Inventory.DeleteProductEffect | app.py:143 | after a successful delete the id is gone and every other id looks up as before |
| Inventory.ListProducts | app.py:63-83 | the listing answers the rows in store order, keeps them, and leaves a valid cache that is a sorted permutation of them, aligned with its names |
| Inventory.AddKeepsValid | app.py:34 | a store invariant (ascending ids below the next id, quantities at least zero, non-empty names, a valid cache equal to the rebuild) survives an add |
| Inventory.UpdateKeepsValid | app.py:34 | the store invariant survives a quantity update |
| Inventory.DeleteKeepsValid | app.py:34 | the store invariant survives a delete |
| Inventory.AfterSearch | app.py:158-162 | a search keeps the rows; a blank query leaves the whole store, cache included, untouched; any other query leaves a valid cache; the store invariant is kept |
| Inventory.SearchResult | app.py:156-172 | the cache-free reference answer (blank query: nothing; otherwise the stably sorted prefix filter of the rows) is sorted by lower-cased name; its members are pinned down by `SearchResultMeaning` |
| Inventory.Search | app.py:153-174 | the answer equals the cache-free reference: nothing for a blank query, otherwise the stably sorted prefix filter of the rows, whatever the cache held before |
| Inventory.SearchResultMeaning | app.py:156-172 | a product is found exactly when the normalised query is non-blank and the product's lower-cased name starts with it; the answer is name-sorted and keeps store order among equal names |
| Inventory.RepeatedSearch | app.py:161-162 | a search leaves the rows as they were, so a second search with no write between answers what it would have answered first, and repeating a search leaves the store as the first one left it |
| Inventory.DeletedNeverFound | app.py:150 | after a successful delete, no search returns the deleted product |
| Inventory.ReplayKeepsValid | app.py:85-174 | any sequence of requests keeps the store invariant |
| Inventory.Reachable | app.py:34 | in every store reachable from an empty database, quantities are at least zero, names are non-empty, and a cache marked valid is the rebuild of the current rows |
| Scenarios.SearchApricotScenario | app.py:153-174 | in a store holding "Apple", "apricot" and "Banana", the query " AP " finds Apple then apricot and not Banana |
| Scenarios.InsufficientScenario | app.py:126-129 | taking 5 from a product holding 1 is refused as insufficient and leaves the store unchanged |

## Left out

- HTTP routing, `request.json` / `jsonify` marshalling, templates and status codes are left out. Results are a `Result` over a `Rejection` datatype (`InvalidInput`, `InvalidDelta`, `NotFound`, `InsufficientQuantity`).
- SQLite I/O, connections and `init_db` (app.py:16-48) are left out. The table is a sequence of rows in rowid order, and AUTOINCREMENT is a `nextId` counter that never goes back. SQLite leaves the listing order undefined without an `ORDER BY`. The model takes it to be ascending id, which is what a scan of the rowid table gives in practice. This order fixes the tie order of the stable sort.
- Categories are left out: `get_categories`, the default seeding and the category join (app.py:54-61, app.py:69-73). The category is kept as an opaque optional id. The model does not enforce the foreign key, and SQLite does not enforce it by default either.
- The lock (app.py:9, app.py:116) and all concurrency are left out. Each request is one atomic transition. Interleavings are not modelled. Two examples: the cache lists and the flag are assigned in three separate steps, and `update_quantite` lowers the flag after leaving the lock.
- `int()` parsing is left out. A missing `quantite` or `delta` is `None` and counts as 0; any other value is already an integer. A name that is not a string, such as a JSON number, is not modelled.
- `Text.LowerChar` lower-cases only ASCII and the Latin-1 capitals U+00C0–U+00DE (except U+00D7). It does not cover the rest of Unicode, including lower-casings that change a string's length.
- Inventory.AddProduct: integers are unbounded, but the `sqlite3` driver binds only 64-bit signed integers. A quantity of 2^63 or more raises an overflow error (an HTTP 500, with no insert), where the model answers success.
- Inventory.UpdateQuantity: when current + delta is 2^63 or more, the driver raises an overflow error at the UPDATE (app.py:131) and nothing is written. The model answers success with the unbounded sum. An id of 2^63 or more fails the same way at the SELECT (app.py:119), where the model answers not-found.
- Inventory.DeleteProduct: an id of 2^63 or more raises the same overflow error at the DELETE (app.py:143), where the model answers not-found.
- Inventory.AddProduct returns the new row's id. The source answers only with a message. The id is exposed so that properties can name the new row.
- Inventory.Search requires the store invariant `Valid`. `Inventory.Reachable` proves that every store reachable from an empty database satisfies it. So the requirement excludes only states the service cannot reach, such as a raised flag over a stale cache.
- `static/script.js`, the browser UI, is not part of this model.
