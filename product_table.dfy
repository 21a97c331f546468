/** The product table and the four single-row operations of the service
    (create, fetch one, update, soft delete) as transitions over it.
    The table is the sequence of rows in insertion order. */
module ProductTable {
  import opened Wrappers
  import opened Products

  /** What an operation returns (the record or the exception) and the table after it. */
  datatype Step = Step(result: Result<Product, Error>, table: seq<Product>)

  /** Ids strictly increase along the table (an autoincrement key), so each
      id names at most one row; every status is active or soft-deleted. */
  ghost predicate TableValid(rows: seq<Product>) {
    && (forall i, j :: 0 <= i < j < |rows| ==> rows[i].id < rows[j].id)
    && (forall i :: 0 <= i < |rows| ==> rows[i].status == Active || rows[i].status == Deleted)
  }

  /** Every id in the table is below `next`, the next id the key will hand out. */
  ghost predicate IdsBelow(rows: seq<Product>, next: int) {
    forall i :: 0 <= i < |rows| ==> rows[i].id < next
  }

  ghost predicate HasId(rows: seq<Product>, id: int) {
    exists i :: 0 <= i < |rows| && rows[i].id == id
  }

  /** Position of the row whose key is `id` (a unique lookup on the key). */
  function IndexOf(rows: seq<Product>, id: int): (r: Option<nat>)
    ensures r.Some? ==> r.value < |rows| && rows[r.value].id == id
    ensures r.Some? ==> forall j :: 0 <= j < r.value ==> rows[j].id != id
    ensures r.None? <==> !HasId(rows, id)
  {
    if |rows| == 0 then None
    else if rows[0].id == id then Some(0)
    else
      match IndexOf(rows[1..], id)
      case None =>
        assert forall i :: 1 <= i < |rows| ==> rows[i] == rows[1..][i - 1];
        None
      case Some(k) => Some(k + 1)
  }

  /** Under the table invariant two rows with the same id are the same row. */
  lemma SameIdSameRow(rows: seq<Product>, i: int, j: int)
    requires TableValid(rows)
    requires 0 <= i < |rows| && 0 <= j < |rows| && rows[i].id == rows[j].id
    ensures i == j
  {
  }

  /** Writing a row with the same id at the position the lookup found keeps the lookup there. */
  lemma IndexOfAfterWrite(rows: seq<Product>, id: int, k: nat, p: Product)
    requires IndexOf(rows, id) == Some(k) && p.id == id
    ensures IndexOf(rows[k := p], id) == Some(k)
  {
    assert rows[k := p][k].id == id;
  }

  /** The row the store inserts for `payload`; the status defaults to active. */
  function NewProduct(payload: CreatePayload, id: int, createdAt: int): Product {
    Product(id, payload.name, payload.description, payload.price, payload.category, Active, createdAt)
  }

  /** createProduct: insert one row built from the payload and return it. */
  function Create(rows: seq<Product>, payload: CreatePayload, id: int, createdAt: int): Step {
    var p := NewProduct(payload, id, createdAt);
    Step(Success(p), rows + [p])
  }

  /** fetchProduct: the row with key `id`, provided it is active. */
  function FetchOne(rows: seq<Product>, id: int): Result<Product, Error> {
    match IndexOf(rows, id)
    case Some(k) =>
      if rows[k].status == Active then Success(rows[k]) else Failure(NotFound(NotExistMessage))
    case None => Failure(NotFound(NotExistMessage))
  }

  /** updateProduct: look the row up whatever its status, then write the supplied fields. */
  function Update(rows: seq<Product>, u: UpdatePayload): Step {
    match IndexOf(rows, u.id)
    case None => Step(Failure(NotFound(NotExistMessage)), rows)
    case Some(k) =>
      var p := ApplyUpdate(rows[k], u);
      Step(Success(p), rows[k := p])
  }

  /** deleteProduct: refuse a missing row and a row already deleted, otherwise set status -1. */
  function Delete(rows: seq<Product>, id: int): Step {
    match IndexOf(rows, id)
    case None => Step(Failure(NotFound(NotExistMessage)), rows)
    case Some(k) =>
      if rows[k].status == Deleted then Step(Failure(BadRequest(AlreadyDeletedMessage)), rows)
      else
        var p := rows[k].(status := Deleted);
        Step(Success(p), rows[k := p])
  }

  // ---------------------------------------------------------------------------
  // createProduct

  /** Create adds exactly one row, built from the payload with status 1 and a
      fresh id, returns it, and keeps every earlier row and the table invariant. */
  lemma CreateAddsOneRow(rows: seq<Product>, payload: CreatePayload, id: int, createdAt: int)
    requires TableValid(rows) && IdsBelow(rows, id)
    ensures var s := Create(rows, payload, id, createdAt);
      && s.result.Success?
      && s.table == rows + [s.result.value]
      && s.result.value.id == id && !HasId(rows, id)
      && s.result.value.name == payload.name && s.result.value.description == payload.description
      && s.result.value.price == payload.price && s.result.value.category == payload.category
      && s.result.value.status == Active && s.result.value.createdAt == createdAt
      && TableValid(s.table) && IdsBelow(s.table, id + 1)
  {
  }

  /** A freshly created product can be fetched back. */
  lemma FetchAfterCreate(rows: seq<Product>, payload: CreatePayload, id: int, createdAt: int)
    requires TableValid(rows) && IdsBelow(rows, id)
    ensures var s := Create(rows, payload, id, createdAt);
      FetchOne(s.table, id) == s.result
  {
    var s := Create(rows, payload, id, createdAt);
    assert s.table[|rows|].id == id;
    assert forall j :: 0 <= j < |rows| ==> s.table[j].id != id;
  }

  // ---------------------------------------------------------------------------
  // fetchProduct

  /** fetchProduct succeeds exactly when an active row has the id, and then
      returns that row; a missing or soft-deleted id yields NotFound. */
  lemma FetchOneSpec(rows: seq<Product>, id: int)
    requires TableValid(rows)
    ensures var r := FetchOne(rows, id);
      && (r.Success? <==> exists i :: 0 <= i < |rows| && rows[i].id == id && rows[i].status == Active)
      && (r.Success? ==> r.value in rows && r.value.id == id && r.value.status == Active)
      && (r.Failure? ==> r.error == NotFound(NotExistMessage))
  {
    var r := FetchOne(rows, id);
    match IndexOf(rows, id)
    case None =>
    case Some(k) =>
      forall i | 0 <= i < |rows| && rows[i].id == id
        ensures i == k
      {
        SameIdSameRow(rows, i, k);
      }
  }

  // ---------------------------------------------------------------------------
  // updateProduct

  /** updateProduct fails with NotFound exactly when no row has the payload's id
      (soft-deleted rows are still updatable) and then changes nothing; otherwise
      it writes ApplyUpdate to that one row, returns it, and every other row stays. */
  lemma UpdateSpec(rows: seq<Product>, u: UpdatePayload)
    ensures var s := Update(rows, u);
      && (s.result.Failure? <==> !HasId(rows, u.id))
      && (s.result.Failure? ==> s.result.error == NotFound(NotExistMessage) && s.table == rows)
      && (s.result.Success? ==>
            exists k :: 0 <= k < |rows| && rows[k].id == u.id
              && s.result.value == ApplyUpdate(rows[k], u)
              && s.table == rows[k := s.result.value])
  {
    match IndexOf(rows, u.id)
    case None =>
    case Some(k) =>
      assert rows[k].id == u.id;
  }

  /** Updates never touch statuses or ids, so they keep the table invariant
      (in particular they never bring a soft-deleted row back). */
  lemma UpdateKeepsStatuses(rows: seq<Product>, u: UpdatePayload)
    ensures var t := Update(rows, u).table;
      && |t| == |rows|
      && forall i :: 0 <= i < |rows| ==> t[i].id == rows[i].id && t[i].status == rows[i].status
  {
  }

  lemma UpdatePreservesValid(rows: seq<Product>, u: UpdatePayload, next: int)
    requires TableValid(rows) && IdsBelow(rows, next)
    ensures TableValid(Update(rows, u).table) && IdsBelow(Update(rows, u).table, next)
  {
    UpdateKeepsStatuses(rows, u);
  }

  // ---------------------------------------------------------------------------
  // deleteProduct

  /** deleteProduct: a missing id is NotFound, an id already at status -1 is
      BadRequest, and both leave the table as it was; otherwise exactly that row's
      status becomes -1, the updated row is returned, and nothing else changes. */
  lemma DeleteSpec(rows: seq<Product>, id: int)
    ensures var s := Delete(rows, id);
      && (!HasId(rows, id) ==> s == Step(Failure(NotFound(NotExistMessage)), rows))
      && (forall k :: 0 <= k < |rows| && rows[k].id == id && (forall j :: 0 <= j < k ==> rows[j].id != id) ==>
            if rows[k].status == Deleted then s == Step(Failure(BadRequest(AlreadyDeletedMessage)), rows)
            else s.result == Success(rows[k].(status := Deleted)) && s.table == rows[k := rows[k].(status := Deleted)])
  {
    match IndexOf(rows, id)
    case None =>
    case Some(k) =>
      assert rows[k].id == id;
  }

  lemma DeletePreservesValid(rows: seq<Product>, id: int, next: int)
    requires TableValid(rows) && IdsBelow(rows, next)
    ensures TableValid(Delete(rows, id).table) && IdsBelow(Delete(rows, id).table, next)
  {
  }

  /** Whatever the first delete of an id did, a second delete of it fails. */
  lemma SecondDeleteFails(rows: seq<Product>, id: int)
    ensures var again := Delete(Delete(rows, id).table, id);
      && again.result.Failure?
      && again.table == Delete(rows, id).table
  {
    var s := Delete(rows, id);
    match IndexOf(rows, id)
    case None =>
    case Some(k) =>
      IndexOfAfterWrite(rows, id, k, rows[k].(status := Deleted));
  }

  /** After a delete of an id, fetching that id yields NotFound. */
  lemma FetchAfterDeleteNotFound(rows: seq<Product>, id: int)
    ensures FetchOne(Delete(rows, id).table, id) == Failure(NotFound(NotExistMessage))
  {
    var s := Delete(rows, id);
    match IndexOf(rows, id)
    case None =>
    case Some(k) =>
      IndexOfAfterWrite(rows, id, k, rows[k].(status := Deleted));
  }

  /** A successful delete leaves the id in the table with status -1 and no
      row with that id is active any more. */
  lemma DeletedRowStaysDeleted(rows: seq<Product>, id: int)
    requires TableValid(rows)
    ensures var t := Delete(rows, id).table;
      forall i :: 0 <= i < |t| && t[i].id == id ==> t[i].status == Deleted || !HasId(rows, id)
  {
    var t := Delete(rows, id).table;
    match IndexOf(rows, id)
    case None =>
    case Some(k) =>
      forall i | 0 <= i < |t| && t[i].id == id
        ensures t[i].status == Deleted
      {
        SameIdSameRow(rows, i, k);
      }
  }
}
