/** The products service: the product table it owns and the five operations
    callers invoke on it. Each operation follows the service's own decision
    procedure and is proved to leave the table and return exactly what the
    matching transition of ProductTable (or the listing of ProductQuery) says. */
module Service {
  import opened Wrappers
  import opened Products
  import ProductTable
  import ProductQuery

  class ProductsService {
    /** The product rows, in insertion order. */
    var rows: seq<Product>
    /** The next value of the autoincrement id. */
    var nextId: int

    ghost predicate Valid()
      reads this
    {
      ProductTable.TableValid(rows) && ProductTable.IdsBelow(rows, nextId)
    }

    /** A service over an empty table whose first id is 1. */
    constructor ()
      ensures Valid() && rows == [] && nextId == 1
    {
      rows := [];
      nextId := 1;
    }

    /** createProduct: insert a row built from the payload under the next id,
        stamped `createdAt` (the store's clock), and return it. */
    method CreateProduct(payload: CreatePayload, createdAt: int) returns (product: Product)
      requires Valid()
      modifies this
      ensures Valid()
      ensures ProductTable.Step(Success(product), rows) == ProductTable.Create(old(rows), payload, old(nextId), createdAt)
      ensures product.id == old(nextId) && !ProductTable.HasId(old(rows), product.id)
      ensures nextId == old(nextId) + 1
    {
      ProductTable.CreateAddsOneRow(rows, payload, nextId, createdAt);
      product := ProductTable.NewProduct(payload, nextId, createdAt);
      rows := rows + [product];
      nextId := nextId + 1;
    }

    /** fetchProduct: the active row with this id, or NotFound. */
    method FetchProduct(id: int) returns (r: Result<Product, Error>)
      requires Valid()
      ensures r == ProductTable.FetchOne(rows, id)
      ensures r.Success? <==> exists i :: 0 <= i < |rows| && rows[i].id == id && rows[i].status == Active
      ensures r.Success? ==> r.value in rows && r.value.id == id && r.value.status == Active
      ensures r.Failure? ==> r.error == NotFound(NotExistMessage)
    {
      ProductTable.FetchOneSpec(rows, id);
      r := ProductTable.FetchOne(rows, id);
    }

    /** updateProduct: NotFound when no row has the payload's id, whatever its
        status; otherwise write the supplied fields to that row and return it. */
    method UpdateProduct(payload: UpdatePayload) returns (r: Result<Product, Error>)
      requires Valid()
      modifies this
      ensures Valid() && nextId == old(nextId)
      ensures ProductTable.Step(r, rows) == ProductTable.Update(old(rows), payload)
    {
      ProductTable.UpdatePreservesValid(rows, payload, nextId);
      var found := ProductTable.IndexOf(rows, payload.id);
      if found.None? {
        r := Failure(NotFound(NotExistMessage));
        return;
      }
      var k := found.value;
      var updated := ApplyUpdate(rows[k], payload);
      rows := rows[k := updated];
      r := Success(updated);
    }

    /** deleteProduct: NotFound for a missing id, BadRequest for a row already
        at status -1, otherwise set that row's status to -1 and return it. */
    method DeleteProduct(id: int) returns (r: Result<Product, Error>)
      requires Valid()
      modifies this
      ensures Valid() && nextId == old(nextId)
      ensures ProductTable.Step(r, rows) == ProductTable.Delete(old(rows), id)
      ensures r.Failure? ==> rows == old(rows)
    {
      ProductTable.DeletePreservesValid(rows, id, nextId);
      var found := ProductTable.IndexOf(rows, id);
      if found.None? {
        r := Failure(NotFound(NotExistMessage));
        return;
      }
      var k := found.value;
      if rows[k].status == Deleted {
        r := Failure(BadRequest(AlreadyDeletedMessage));
        return;
      }
      var deleted := rows[k].(status := Deleted);
      rows := rows[k := deleted];
      r := Success(deleted);
    }

    /** fetchProducts: one page of the listing over the current table; the
        table is only read. */
    method FetchProducts(q: ProductQuery.Query) returns (r: Result<ProductQuery.ProductPage, Error>)
      requires Valid() && ProductQuery.QueryInRange(q)
      ensures r == ProductQuery.FetchProducts(rows, q)
    {
      r := ProductQuery.FetchProducts(rows, q);
    }
  }

  /** Soft-deleted rows never appear in a listing: after a delete of `id`, no
      page of any listing holds a row with that id. */
  lemma ListingOmitsDeleted(rows: seq<Product>, id: int, q: ProductQuery.Query)
    requires ProductTable.TableValid(rows) && ProductQuery.QueryInRange(q)
    ensures var r := ProductQuery.FetchProducts(ProductTable.Delete(rows, id).table, q);
      r.Success? ==> forall p :: p in r.value.data ==> p.id != id
  {
    var t := ProductTable.Delete(rows, id).table;
    var r := ProductQuery.FetchProducts(t, q);
    ProductQuery.FetchProductsFilters(t, q);
    ProductTable.DeletedRowStaysDeleted(rows, id);
    if r.Success? {
      forall p | p in r.value.data
        ensures p.id != id
      {
        var i :| 0 <= i < |t| && t[i] == p;
        assert p.status == Active;
      }
    }
  }
}
