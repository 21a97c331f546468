/** The product record, the payloads the service accepts and the errors it throws. */
module Products {
  import opened Wrappers

  /** Status of a product that reads can see. */
  const Active: int := 1
  /** Status of a soft-deleted product. */
  const Deleted: int := -1

  const NotExistMessage: string := "Product does not exist"
  const AlreadyDeletedMessage: string := "Product is already deleted"
  const NoProductsMessage: string := "No products found"

  /** One row of the product table. `price` is an integer here; `createdAt`
      is a timestamp, ordered like an integer. */
  datatype Product = Product(
    id: int,
    name: string,
    description: Option<string>,
    price: int,
    category: string,
    status: int,
    createdAt: int)

  /** What a caller supplies to create a product. */
  datatype CreatePayload = CreatePayload(
    name: string,
    description: Option<string>,
    price: int,
    category: string)

  /** A partial update: `id` selects the row, every other field is optional. */
  datatype UpdatePayload = UpdatePayload(
    id: int,
    name: Option<string>,
    description: Option<string>,
    price: Option<int>,
    category: Option<string>)

  /** The two exception kinds the service throws. */
  datatype Error = NotFound(message: string) | BadRequest(message: string)

  /** The row the store writes when it applies `u` (its `id` left out) to `p`. */
  function ApplyUpdate(p: Product, u: UpdatePayload): (r: Product)
    ensures r.id == p.id && r.status == p.status && r.createdAt == p.createdAt
    ensures r.name == (if u.name.Some? then u.name.value else p.name)
    ensures r.description == (if u.description.Some? then u.description else p.description)
    ensures r.price == (if u.price.Some? then u.price.value else p.price)
    ensures r.category == (if u.category.Some? then u.category.value else p.category)
  {
    p.(name := u.name.GetOr(p.name),
       description := if u.description.None? then p.description else u.description,
       price := u.price.GetOr(p.price),
       category := u.category.GetOr(p.category))
  }

  /** An update whose payload supplies no field leaves the row as it was. */
  lemma EmptyUpdateIsIdentity(p: Product, id: int)
    ensures ApplyUpdate(p, UpdatePayload(id, None, None, None, None)) == p
  {
  }

  /** Applying the same payload twice is the same as applying it once. */
  lemma ApplyUpdateIdempotent(p: Product, u: UpdatePayload)
    ensures ApplyUpdate(ApplyUpdate(p, u), u) == ApplyUpdate(p, u)
  {
  }
}
