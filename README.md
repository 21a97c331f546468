# Products service — a Dafny model

This project models `ProductsService`, the product-catalogue service of a small
REST backend. The service keeps a product table and offers five operations:

- create a product;
- fetch one active product by id;
- update any product, active or soft-deleted, with a partial payload;
- soft-delete a product by setting its status from `1` to `-1`;
- list products. The listing filters on status `1`, an optional category and an
  optional case-insensitive search term in the name or the description. It orders
  by an optional price key, then an optional creation-time key. It returns one page
  with the total count and the page count. When the requested page holds no
  row it does not return an empty list: it fails with NotFound "No products
  found", and the model keeps that behaviour.

Layout:

- `wrappers.dfy`: the `Option` and `Result` types.
- `products.dfy`: the product record, the create and update payloads, the two
  error kinds (NotFound, BadRequest) with their messages, and `ApplyUpdate`. That
  is the row the store writes for a partial update.
- `product_table.dfy`: the table as a sequence of rows in insertion order, which is
  ascending id order. It holds the four single-row operations as pure transitions
  (`Create`, `FetchOne`, `Update`, `Delete`), each returning the result together
  with the table after it, and the lemmas about them.
- `text_search.dfy`: the case-insensitive substring test, proved equal to "some
  position holds the term".
- `product_query.dfy`: the listing. It builds the `where` filter and the `orderBy`
  key list from the query, selects, runs a stable sort over the key list, applies
  skip/take, counts, and computes `totalPages`. The lemmas state what a listing
  promises.
- `service.dfy`: the class `ProductsService`, holding the table (`rows`) and the
  next autoincrement id (`nextId`). The three methods that change the table
  follow the source's decision procedure step by step. The two read-only methods
  return the pure function's value directly. Each method is proved to return, and to leave the table
  exactly as, the pure transition says. The class invariant `Valid()` says ids
  strictly increase along the table, stay below `nextId`, and every status is `1`
  or `-1`.

Every fact is stated about the pure transitions. The class methods are then
connected to those facts: each method's `ensures` equates its result and its new
table with the transition's.

## Model

| member | source | states |
|---|---|---|
| Products.ApplyUpdate | src/products/dtos/update-product.dto.ts:9-28 | A partial update keeps the row's id, status and creation time. Each field the payload supplies replaces the old value. Each field the payload omits keeps its old value. |
| Products.EmptyUpdateIsIdentity | src/products/products.service.ts:170-174 | A payload that supplies no field besides `id` leaves the row unchanged. |
| Products.ApplyUpdateIdempotent | src/products/products.service.ts:170-174 | Applying the same update payload twice gives the same row as applying it once. |
| ProductTable.IndexOf | src/products/products.service.ts:163-165 | The lookup by id returns an in-range position holding that id, and no earlier row has it. It returns nothing exactly when no row has the id. |
| ProductTable.CreateAddsOneRow | src/products/products.service.ts:17-21 | createProduct succeeds and appends exactly one row, keeping every earlier row. The new row has a fresh id, the payload's name, description, price and category, status 1, and the given creation time. It is also the row returned. The table invariant still holds afterwards. |
| ProductTable.FetchAfterCreate | src/products/products.service.ts:17-21 | Fetching a newly created product by its id returns exactly the record createProduct returned. |
| ProductTable.FetchOneSpec | src/products/products.service.ts:148-158 | fetchProduct succeeds exactly when some row has the id and status 1, and it then returns that row. A missing id or a soft-deleted id gives NotFound "Product does not exist". |
| ProductTable.UpdateSpec | src/products/products.service.ts:162-176 | updateProduct fails with NotFound exactly when no row has the id, whatever the row's status, and the table is then unchanged. Otherwise it writes the partial update to that one row, returns it, and leaves every other row unchanged. |
| ProductTable.UpdateKeepsStatuses | src/products/products.service.ts:170-174 | For a payload of the update DTO's fields, an update never changes the number of rows, any row's id, or any row's status. So such a payload cannot bring a soft-deleted product back. |
| ProductTable.UpdatePreservesValid | src/products/products.service.ts:162-176 | An update keeps the table invariant: ids strictly increase, stay below the next id, and every status is 1 or -1. |
| ProductTable.DeleteSpec | src/products/products.service.ts:180-202 | deleteProduct gives NotFound on a missing id and BadRequest "Product is already deleted" on a row at status -1; in both cases the table is unchanged. Otherwise only that row's status becomes -1, and the updated row is returned. |
| ProductTable.DeletePreservesValid | src/products/products.service.ts:180-202 | A delete keeps the table invariant. |
| ProductTable.SecondDeleteFails | src/products/products.service.ts:187-194 | Whatever the first delete of an id did, a second delete of the same id fails and changes nothing. |
| ProductTable.FetchAfterDeleteNotFound | src/products/products.service.ts:148-158 | After a delete of an id, fetching that id gives NotFound. |
| ProductTable.DeletedRowStaysDeleted | src/products/products.service.ts:196-200 | After a delete, every row carrying the id has status -1, unless the id was not in the table. |
| TextSearch.ContainsIsSubstring | src/products/products.service.ts:103-107 | The executable substring test holds exactly when some position of the text holds the term. |
| TextSearch.SearchIgnoresTermCase | src/products/products.service.ts:105-106 | The case-insensitive search gives the same answer for a term and for its lower-cased form. |
| TextSearch.ExactMatchIsFound | src/products/products.service.ts:105-106 | A term that occurs exactly as typed is found by the case-insensitive search. |
| TextSearch.LowerIdempotent | src/products/products.service.ts:105-106 | Folding case twice is the same as folding it once. |
| ProductQuery.BuildWhereMeaning | src/products/products.service.ts:95-108 | The built filter admits a row exactly when three things hold. Its status is 1. When the category is a non-empty string, the row's category equals it. When the search term is a non-empty string, the term occurs, ignoring case, in the name or in the description. |
| ProductQuery.Select | src/products/products.service.ts:119-124 | The selected rows are the table's rows that pass the filter, each with its multiplicity; rows that fail it are dropped. |
| ProductQuery.SelectAllMatching | src/products/products.service.ts:119-124 | When every row passes the filter, the selection is the whole table in table order. |
| ProductQuery.SortBySortedPermutation | src/products/products.service.ts:111-124 | Sorting returns a permutation of the matching rows, ordered by the key list. |
| ProductQuery.InsertSortedPermutation | src/products/products.service.ts:111-124 | Inserting a row into a sorted list keeps it sorted and adds exactly that row. |
| ProductQuery.InOrderTotal | src/products/products.service.ts:111-116 | Under any key list, any two rows can be put in some order. |
| ProductQuery.InOrderTransitive | src/products/products.service.ts:111-116 | The order a key list induces is transitive. |
| ProductQuery.SortByTiedKeepsOrder | src/products/products.service.ts:111-124 | When the key list ties every pair of rows, the sort returns them in table order. |
| ProductQuery.SortByNoKeys | src/products/products.service.ts:92 | With an empty `orderBy`, the rows keep their table order. |
| ProductQuery.PriceKeyDecides | src/products/products.service.ts:111-113 | When `sortByPrice` is a non-empty string, it decides between rows of different prices. The exact string "asc" puts the cheaper row first; any other value puts the dearer row first. |
| ProductQuery.CreatedAtBreaksTies | src/products/products.service.ts:114-116 | Creation time orders rows the price key cannot separate: rows of equal price, or all rows when there is no price key. The exact string "asc" puts the older row first; any other value puts the newer row first. |
| ProductQuery.CeilDiv | src/products/products.service.ts:141 | `totalPages` is the least whole number of pages of size `limit` that hold `total` rows. |
| ProductQuery.FetchProductsFilters | src/products/products.service.ts:95-108 | Every listed row is a row of the table, has status 1, has the requested category, and holds the search term, on every page. |
| ProductQuery.FetchProductsOrdered | src/products/products.service.ts:111-124 | The listed rows are in the order the key list asks for. |
| ProductQuery.FetchProductsPage | src/products/products.service.ts:91-124 | A listed page holds between 1 and `limit` rows. It is full unless it is the last page. Its rows are the sorted matching rows starting at position (page-1)*limit. |
| ProductQuery.FetchProductsPagination | src/products/products.service.ts:126-142 | `total` counts every matching row, whatever the page. `page` and `limit` are the requested values, with defaults 1 and 10. `totalPages` is total/limit rounded up. The requested page lies between 1 and `totalPages`. |
| ProductQuery.FetchProductsAt | src/products/products.service.ts:91-133 | When position `skip + j` holds a matching row and `j < limit`, the listing succeeds and its `j`-th row is that sorted row. |
| ProductQuery.FetchProductsEmptyPage | src/products/products.service.ts:131-133 | The listing fails with NotFound "No products found" exactly when the requested page holds no matching row. |
| ProductQuery.EveryMatchIsOnAPage | src/products/products.service.ts:91-124 | With a positive limit, every matching row appears on some page. The i-th row in key order is row i mod limit of page i div limit + 1. |
| ProductQuery.CategoryPriceDescScenario | src/products/products.service.ts:98-116 | Take two active products of category "A", the first cheaper. Listing category "A" with price descending returns both, dearer first, with total 2, page 1, limit 10 and 1 page. |
| ProductQuery.UnfilteredListingIsTableSlice | src/products/products.service.ts:91-129 | When every row is active and the query has no category, no search term and no sort key, a page is the plain slice of the table and the total is the table's size. |
| ProductQuery.SecondPageOfOneScenario | src/products/products.service.ts:91-142 | Over three active products with no filter, page 2 of size 1 holds the second product and reports 3 pages. |
| Service.ProductsService.constructor | src/products/products.service.ts:13-14 | A new service has an empty table, and the first id it hands out is 1. |
| Service.ProductsService.CreateProduct | src/products/products.service.ts:17-21 | It returns the created row and leaves the table as `Create` says. The row gets the next id, which no earlier row has, and the id counter advances by one. |
| Service.ProductsService.FetchProduct | src/products/products.service.ts:148-158 | It returns what `FetchOne` says: the active row with the id, or NotFound. It does not change the table. |
| Service.ProductsService.UpdateProduct | src/products/products.service.ts:162-176 | It looks the id up, then writes the partial update. Its result and new table are exactly what `Update` says, and the table invariant is kept. |
| Service.ProductsService.DeleteProduct | src/products/products.service.ts:180-202 | It checks for NotFound, then for BadRequest, then sets the status. Its result and new table are exactly what `Delete` says, and a failure leaves the table unchanged. |
| Service.ProductsService.FetchProducts | src/products/products.service.ts:81-144 | Its result is the listing function over the current table, whose properties the listing lemmas state, and the table does not change. |
| Service.ListingOmitsDeleted | src/products/products.service.ts:95 | After a delete of an id, no page of any listing holds a row with that id. |

## Left out

- The authentication service, both controllers, the response interceptor, the
  bootstrap file and the roles decorator are not part of this model. They are
  framework glue, hashing, token signing and HTTP plumbing around the product
  service. In particular, the products controller never passes `search` to the
  service. The model covers the service's search branch as the service defines it.
- The store's internals are not modelled. Generated ids come from an autoincrement
  counter in the class. The creation timestamp is a parameter of `CreateProduct`,
  because it stands for the clock. The `updatedAt` column is not modelled.
- The schema's default for `status` is not part of this model. A created row gets
  status 1, which is what every read treats as active.
- The store leaves the order of rows that no sort key separates unspecified. The
  model's sort inserts each row before the first row it may precede, so it keeps
  tied rows in table order, which is one of the orders the store may return.
  ProductQuery.SortByTiedKeepsOrder proves this for a list whose rows are all
  tied. For a list that mixes tied and separated rows, stability holds by
  construction and is not proved.
- ProductQuery.FetchProducts requires `page >= 1` and `limit >= 0`. A page below 1
  gives a negative `skip`, and a negative `limit` gives a negative `take`. The
  store rejects or reinterprets both, and that behaviour is not modelled.
  `limit = 0` is modelled: the page is empty, so the listing fails with NotFound
  before any division by zero.
- `price` is a JavaScript number, and the model uses an integer. `Math.ceil(total /
  limit)` is modelled as integer ceiling division, which agrees with it for
  integers.
- TextSearch.ContainsInsensitive folds case for ASCII letters only. The store's
  insensitive mode also folds other scripts, and that folding is not modelled.
- Products.UpdatePayload holds only the fields the update DTO declares: `id` and
  the optional name, description, price and category. The service writes every
  property of the request body except `id` (products.service.ts:170-174). The
  global validation pipe is installed without a whitelist (main.ts:10), so it
  does not strip undeclared properties. A body carrying `status` or `createdAt`
  therefore reaches the write unchanged: `{id, status: 1}` brings a soft-deleted
  product back, and `{id, createdAt}` rewrites its creation time. The model cannot
  express such a body, so UpdateKeepsStatuses and the un-deletion it rules out
  hold only for payloads of the DTO's fields. createProduct passes its whole
  payload to the insert too (products.service.ts:18-19). The create DTO is not
  part of this model, so whether `status` or `id` can slip in there is open.
- ProductQuery.Query is always present, and each field is either absent or a
  value. Two cases of the service are not modelled. First, `fetchProducts`
  declares its argument optional, and called with none, the destructuring at
  products.service.ts:82-89 throws a TypeError. Second, the defaults `page = 1` and
  `limit = 10` apply only to `undefined`: an explicit `page: null` gives `skip =
  (null - 1) * limit = -limit`, which lies outside QueryInRange. An explicit
  `null` limit is not modelled either.
- The payloads carry optional fields as `Option`. An explicit `null` sent for an
  optional field is not distinguished from an absent one.
- Concurrency is not modelled: each operation, including the existence check
  and the write in update and delete, is treated as one atomic step.
- The commented-out earlier version of the listing is not modelled.
