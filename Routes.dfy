/** The HTTP handlers for products: which table query each request runs, how found rows become
    response bodies, and which status each outcome gets. */
module Routes {
  import opened Wrappers
  import opened Seqs
  import opened Schema
  import opened Crud

  /** A `ProductResponse` body: the row's columns as returned by `from_orm`. */
  datatype ProductResponse = ProductResponse(
    name: string,
    description: Option<string>,
    price: real,
    category: ProductCategory,
    inStock: int,
    imageUrl: Option<string>,
    discount: Option<real>,
    id: int,
    isAvailable: bool,
    createdAt: string,
    updatedAt: string,
    discountedPrice: Option<real>)

  /** The reply to a request: a status with a body, or an `HTTPException` (or a FastAPI
      request-validation error) with its status and detail. */
  datatype Reply<T> = Ok(status: int, body: T) | HttpError(status: int, detail: string)

  const StatusOk := 200
  const StatusCreated := 201
  const StatusNoContent := 204
  const StatusBadRequest := 400
  const StatusNotFound := 404
  const StatusUnprocessable := 422
  const StatusServerError := 500

  const NotFoundDetail := "Product not found"
  const CreationFailedDetail := "Product creation failed"
  const InvalidRequestDetail := "Invalid request"
  /** The reply to an exception the handler does not catch. */
  const ServerErrorDetail := "Internal Server Error"

  /** The largest page size `read_products` accepts (`Query(10, le=100)`), and its default. */
  const MaxLimit: nat := 100
  const DefaultLimit: nat := 10

  /** The value of an omitted query parameter: its default. */
  function OrDefault(o: Option<nat>, default: nat): nat
  {
    match o
    case None => default
    case Some(v) => v
  }

  /** `ProductResponse.from_orm(row)`: `discounted_price` is not a column and stays None. */
  function ToResponse(p: Product): ProductResponse
  {
    ProductResponse(p.name, p.description, p.price, p.category, p.inStock, p.imageUrl,
                    p.discount, p.id, p.isAvailable, p.createdAt, p.updatedAt, None)
  }

  /** The row a response body was built from. */
  function FromResponse(r: ProductResponse): Product
  {
    Product(r.id, r.name, r.description, r.price, r.category, r.inStock, r.isAvailable,
            r.createdAt, r.updatedAt, r.imageUrl, r.discount)
  }

  /** A response body loses no column of its row. */
  lemma ResponseRoundTrip(p: Product, r: ProductResponse)
    ensures FromResponse(ToResponse(p)) == p
    ensures ToResponse(FromResponse(r)) == r.(discountedPrice := None)
  {
  }

  /** A row a handler can answer with: `from_orm` re-runs every `ProductBase` constraint on
      the row and raises a `ValidationError` when one fails, and `price * (1 - discount)`
      raises a `TypeError` when the discount is NULL. */
  predicate Servable(p: Product)
  {
    RecordValid(p) && p.discount.Some?
  }

  predicate AllServable(rows: seq<Product>)
  {
    forall i :: 0 <= i < |rows| ==> Servable(rows[i])
  }

  /** The body a handler returns for a row: `from_orm` with `discounted_price` filled in, or
      None when validating the row or computing the price raises. On a row meeting the
      schema constraints, as every row of a valid table does, only a NULL discount fails. */
  function Respond(p: Product): (r: Option<ProductResponse>)
    ensures r.None? <==> !Servable(p)
    ensures RecordValid(p) ==> (r.None? <==> p.discount.None?)
    ensures r.Some? ==> FromResponse(r.value) == p
    ensures r.Some? ==> r.value.discountedPrice == Some(p.price * (1.0 - p.discount.value))
  {
    if !RecordValid(p) || p.discount.None? then None
    else Some(ToResponse(p).(discountedPrice := Some(p.price * (1.0 - p.discount.value))))
  }

  /** On a row meeting the schema constraints the discounted price lies between 0 and the
      price. */
  lemma DiscountedPriceWithinPrice(p: Product)
    requires Servable(p)
    ensures 0.0 <= Respond(p).value.discountedPrice.value <= p.price
  {
    var d := p.discount.value;
    assert 0.0 <= 1.0 - d <= 1.0;
    assert p.price * (1.0 - d) <= p.price * 1.0;
  }

  /** The test `category == c and is_available` on a row. */
  function AvailableIn(c: ProductCategory): Product -> bool
  {
    (p: Product) => p.category == c && p.isAvailable
  }

  /** The rows `read_products` responds with: a category query, narrowed to available rows
      when both filters are given; the available rows; or, with no filter, one page. Only the
      unfiltered query pays attention to `skip` and `limit`. */
  function Select(rows: seq<Product>, skip: nat, limit: nat, category: Option<ProductCategory>,
                  availableOnly: bool): (r: seq<Product>)
    ensures forall i :: 0 <= i < |r| ==> r[i] in rows
    ensures category.Some? ==> forall i :: 0 <= i < |r| ==> r[i].category == category.value
    ensures availableOnly ==> forall i :: 0 <= i < |r| ==> r[i].isAvailable
    ensures |r| <= |rows|
  {
    if category.Some? && availableOnly then
      var inCategory := Filter(rows, HasCategory(category.value));
      FilterMembers(rows, HasCategory(category.value));
      FilterMembers(inCategory, IsAvailable);
      Filter(inCategory, IsAvailable)
    else if category.Some? then
      FilterMembers(rows, HasCategory(category.value));
      Filter(rows, HasCategory(category.value))
    else if availableOnly then
      FilterMembers(rows, IsAvailable);
      Filter(rows, IsAvailable)
    else
      var page := Page(rows, skip, limit);
      assert forall i :: 0 <= i < |page| ==> page[i] in rows by {
        forall i | 0 <= i < |page| ensures page[i] in rows {
          assert page[i] == rows[skip + i];
        }
      }
      page
  }

  /** With both filters the reply holds exactly the available rows of the category, in table
      order, however the two filters are combined. */
  lemma {:induction false} SelectBothFilters(rows: seq<Product>, skip: nat, limit: nat, c: ProductCategory)
    ensures Select(rows, skip, limit, Some(c), true) == Filter(rows, AvailableIn(c))
    ensures Select(rows, skip, limit, Some(c), true) == Filter(Filter(rows, IsAvailable), HasCategory(c))
    ensures forall i :: 0 <= i < |rows| && rows[i].category == c && rows[i].isAvailable
                     ==> rows[i] in Select(rows, skip, limit, Some(c), true)
  {
    FilterFilter(rows, HasCategory(c), IsAvailable, AvailableIn(c));
    FilterFilter(rows, IsAvailable, HasCategory(c), AvailableIn(c));
    FilterMembers(rows, AvailableIn(c));
  }

  /** A reply to a filtered query also holds every matching row, and does not depend on
      `skip` or `limit`. */
  lemma SelectFilteredIgnoresPaging(rows: seq<Product>, skip: nat, limit: nat, skip': nat, limit': nat,
                                    category: Option<ProductCategory>, availableOnly: bool)
    requires category.Some? || availableOnly
    ensures Select(rows, skip, limit, category, availableOnly) == Select(rows, skip', limit', category, availableOnly)
    ensures category.Some? && !availableOnly ==>
      forall i :: 0 <= i < |rows| && rows[i].category == category.value ==> rows[i] in Select(rows, skip, limit, category, availableOnly)
    ensures category.None? ==>
      forall i :: 0 <= i < |rows| && rows[i].isAvailable ==> rows[i] in Select(rows, skip, limit, category, availableOnly)
  {
    if category.Some? {
      FilterMembers(rows, HasCategory(category.value));
    } else {
      FilterMembers(rows, IsAvailable);
    }
  }

  /** Every row of a valid table is available (`ProductTable.Valid`): inserts set
      `is_available` and no request body can change it. On such rows `available_only` filters
      nothing out. */
  lemma AvailableOnlyOnAvailableRows(rows: seq<Product>, skip: nat, limit: nat, c: ProductCategory)
    requires forall i :: 0 <= i < |rows| ==> rows[i].isAvailable
    ensures Select(rows, skip, limit, None, true) == rows
    ensures Select(rows, skip, limit, Some(c), true) == Select(rows, skip, limit, Some(c), false)
  {
    FilterKeepsAll(rows, IsAvailable);
    var inCategory := Filter(rows, HasCategory(c));
    FilterMembers(rows, HasCategory(c));
    forall i | 0 <= i < |inCategory| ensures IsAvailable(inCategory[i]) {
      var j :| 0 <= j < |rows| && rows[j] == inCategory[i];
    }
    FilterKeepsAll(inCategory, IsAvailable);
  }

  /** An unfiltered query replies with the page that starts at `skip` and holds at most
      `limit` rows. */
  lemma SelectUnfilteredPage(rows: seq<Product>, skip: nat, limit: nat)
    ensures var r := Select(rows, skip, limit, None, false);
      && |r| == Min(limit, Max(0, |rows| - skip))
      && forall i :: 0 <= i < |r| ==> r[i] == rows[skip + i]
  {
  }

  /** The loop that turns each fetched row into a response body. It stops with None at the
      first row that cannot be answered. */
  method BuildResponses(products: seq<Product>) returns (r: Option<seq<ProductResponse>>)
    ensures r.None? <==> !AllServable(products)
    ensures r.Some? ==>
      |r.value| == |products| && forall i :: 0 <= i < |products| ==> Respond(products[i]) == Some(r.value[i])
  {
    var rs := [];
    for i := 0 to |products|
      invariant |rs| == i
      invariant forall j :: 0 <= j < i ==> Servable(products[j]) && Respond(products[j]) == Some(rs[j])
    {
      var body := Respond(products[i]);
      if body.None? {
        return None;
      }
      rs := rs + [body.value];
    }
    r := Some(rs);
  }

  /** `GET /products/`: 422 for a page size above 100; otherwise 200 with one body per
      selected row, in order, or 500 when a selected row breaks a constraint or has no discount. An omitted `skip`
      is 0 and an omitted `limit` is 10. */
  method ReadProducts(db: ProductTable, skip: Option<nat>, limit: Option<nat>,
                      category: Option<ProductCategory>, availableOnly: bool)
    returns (r: Reply<seq<ProductResponse>>)
    ensures var lim := OrDefault(limit, DefaultLimit);
      lim > MaxLimit ==> r == HttpError(StatusUnprocessable, InvalidRequestDetail)
    ensures var selected := Select(db.rows, OrDefault(skip, 0), OrDefault(limit, DefaultLimit), category, availableOnly);
      && (OrDefault(limit, DefaultLimit) <= MaxLimit && !AllServable(selected) ==>
            r == HttpError(StatusServerError, ServerErrorDetail))
      && (OrDefault(limit, DefaultLimit) <= MaxLimit && AllServable(selected) ==> r.Ok? && r.status == StatusOk)
      && (r.Ok? ==>
            |r.body| == |selected| && forall i :: 0 <= i < |selected| ==> Respond(selected[i]) == Some(r.body[i]))
    ensures r.Ok? && limit.None? && category.None? && !availableOnly ==> |r.body| <= DefaultLimit
  {
    var offset, lim := OrDefault(skip, 0), OrDefault(limit, DefaultLimit);
    if lim > MaxLimit {
      return HttpError(StatusUnprocessable, InvalidRequestDetail);
    }
    var products;
    if category.Some? && availableOnly {
      products := db.GetProductsByCategory(category.value);
      products := Filter(products, IsAvailable);
    } else if category.Some? {
      products := db.GetProductsByCategory(category.value);
    } else if availableOnly {
      products := db.GetAvailableProducts();
    } else {
      products := db.GetProducts(offset, lim);
    }
    var bodies := BuildResponses(products);
    if bodies.None? {
      return HttpError(StatusServerError, ServerErrorDetail);
    }
    r := Ok(StatusOk, bodies.value);
  }

  /** `GET /products/available/`: 200 with one body per available row, in order, or 500 when
      one of them breaks a constraint or has no discount. */
  method ReadAvailableProducts(db: ProductTable) returns (r: Reply<seq<ProductResponse>>)
    ensures var available := Filter(db.rows, IsAvailable);
      && (AllServable(available) <==> r.Ok?)
      && (r.HttpError? ==> r == HttpError(StatusServerError, ServerErrorDetail))
      && (r.Ok? ==> r.status == StatusOk && |r.body| == |available|
                    && forall i :: 0 <= i < |available| ==> Respond(available[i]) == Some(r.body[i]))
  {
    var products := db.GetAvailableProducts();
    var bodies := BuildResponses(products);
    if bodies.None? {
      return HttpError(StatusServerError, ServerErrorDetail);
    }
    r := Ok(StatusOk, bodies.value);
  }

  /** `GET /products/{product_id}`: 404 when no row has the key, 500 when the row breaks a
      constraint or has no discount, otherwise 200 with the row. */
  method ReadProduct(db: ProductTable, id: int) returns (r: Reply<ProductResponse>)
    ensures !HasId(db.rows, id) <==> r == HttpError(StatusNotFound, NotFoundDetail)
    ensures HasId(db.rows, id) ==>
      var row := db.rows[FirstIndex(db.rows, id)];
      && (!Servable(row) ==> r == HttpError(StatusServerError, ServerErrorDetail))
      && (Servable(row) ==> r.Ok? && r.status == StatusOk && Respond(row) == Some(r.body))
    ensures r.Ok? ==> r.body.id == id && FromResponse(r.body) in db.rows
  {
    var found := db.GetProduct(id);
    if found.None? {
      return HttpError(StatusNotFound, NotFoundDetail);
    }
    var body := Respond(found.value);
    if body.None? {
      return HttpError(StatusServerError, ServerErrorDetail);
    }
    r := Ok(StatusOk, body.value);
  }

  /** The guard after `crud.create_product`: a missing result is a 400; a row is a 201, or a
      500 when it cannot be answered. */
  function CreationReply(created: Option<Product>): (r: Reply<ProductResponse>)
    ensures r.status == StatusBadRequest <==> created.None?
    ensures created.Some? && !Servable(created.value) ==> r == HttpError(StatusServerError, ServerErrorDetail)
    ensures created.Some? && Servable(created.value) ==>
      r.Ok? && r.status == StatusCreated && Respond(created.value) == Some(r.body)
  {
    match created
    case None => HttpError(StatusBadRequest, CreationFailedDetail)
    case Some(p) =>
      match Respond(p)
      case None => HttpError(StatusServerError, ServerErrorDetail)
      case Some(body) => Ok(StatusCreated, body)
  }

  /** `POST /products/`: 422 for a body breaking a constraint; otherwise one row is inserted
      under the fresh key and returned with 201. The inserted row always meets the
      constraints and has a discount, so neither the 400 branch nor a 500 can happen (for
      values the columns can hold). */
  method CreateProduct(db: ProductTable, input: ProductInput, newId: int, now: string)
    returns (r: Reply<ProductResponse>)
    requires db.Valid() && !HasId(db.rows, newId)
    modifies db
    ensures db.Valid()
    ensures r.status != StatusBadRequest && r.status != StatusServerError
    ensures !Valid(input) ==> r.HttpError? && r.status == StatusUnprocessable && db.rows == old(db.rows)
    ensures Valid(input) ==>
      && r.Ok? && r.status == StatusCreated
      && db.rows == old(db.rows) + [FromResponse(r.body)]
      && r.body.id == newId
      && FromResponse(r.body) == NewRecord(newId, Validate(input).value, now)
  {
    var base := Validate(input);
    if base.Failure? {
      return HttpError(StatusUnprocessable, InvalidRequestDetail);
    }
    var created := db.CreateProduct(base.value, newId, now);
    NewRecordValid(newId, base.value, now);
    r := CreationReply(Some(created));
  }

  /** `PUT /products/{product_id}`: 422 for a body breaking a constraint, 404 when no row has
      the key; otherwise the row is patched and committed, and returned with 200, or answered
      with 500 when the patched row has no discount (a body with `"discount": null`). */
  method UpdateProduct(db: ProductTable, id: int, input: ProductInput, now: string)
    returns (r: Reply<ProductResponse>)
    requires db.Valid()
    modifies db
    ensures db.Valid()
    ensures !Valid(input) ==> r == HttpError(StatusUnprocessable, InvalidRequestDetail) && db.rows == old(db.rows)
    ensures Valid(input) && !HasId(old(db.rows), id) ==>
      r == HttpError(StatusNotFound, NotFoundDetail) && db.rows == old(db.rows)
    ensures Valid(input) && HasId(old(db.rows), id) ==>
      var k := FirstIndex(old(db.rows), id);
      var patched := Patched(old(db.rows)[k], Validate(input).value, now);
      && k < |old(db.rows)|
      && db.rows == old(db.rows)[k := patched]
      && (!Servable(patched) ==> r == HttpError(StatusServerError, ServerErrorDetail))
      && (Servable(patched) ==> r.Ok? && r.status == StatusOk && Respond(patched) == Some(r.body))
    ensures Valid(input) && HasId(old(db.rows), id) && input.discount == Set(None) ==>
      r == HttpError(StatusServerError, ServerErrorDetail)
  {
    var base := Validate(input);
    if base.Failure? {
      return HttpError(StatusUnprocessable, InvalidRequestDetail);
    }
    var updated := db.UpdateProduct(id, base.value, now);
    if updated.None? {
      return HttpError(StatusNotFound, NotFoundDetail);
    }
    var body := Respond(updated.value);
    if body.None? {
      return HttpError(StatusServerError, ServerErrorDetail);
    }
    r := Ok(StatusOk, body.value);
  }

  /** `DELETE /products/{product_id}`: 404 when no row has the key; otherwise the row is
      removed and the reply is 204 with no body. */
  method DeleteProduct(db: ProductTable, id: int) returns (r: Reply<()>)
    requires db.Valid()
    modifies db
    ensures db.Valid()
    ensures r.HttpError? <==> !HasId(old(db.rows), id)
    ensures r.HttpError? ==> r == HttpError(StatusNotFound, NotFoundDetail) && db.rows == old(db.rows)
    ensures r.Ok? ==>
      r.status == StatusNoContent && !HasId(db.rows, id) && db.rows == Filter(old(db.rows), KeyIsNot(id))
  {
    ghost var before := db.rows;
    var ok := db.DeleteProduct(id);
    if !ok {
      return HttpError(StatusNotFound, NotFoundDetail);
    }
    RemoveAtKey(before, id);
    r := Ok(StatusNoContent, ());
  }
}
