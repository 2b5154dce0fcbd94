/** The `products` table and the record operations over it. The table is held in memory as a
    sequence of rows in storage order; `id` is its primary key. */
module Crud {
  import opened Wrappers
  import opened Seqs
  import opened Schema

  /** One row of the `products` table. Nullable columns are `Option`s. */
  datatype Product = Product(
    id: int,
    name: string,
    description: Option<string>,
    price: real,
    category: ProductCategory,
    inStock: int,
    isAvailable: bool,
    createdAt: string,
    updatedAt: string,
    imageUrl: Option<string>,
    discount: Option<real>)

  /** No two rows share a primary key. */
  ghost predicate UniqueIds(rows: seq<Product>)
  {
    forall i, j :: 0 <= i < j < |rows| ==> rows[i].id != rows[j].id
  }

  predicate HasId(rows: seq<Product>, id: int)
  {
    exists i :: 0 <= i < |rows| && rows[i].id == id
  }

  /** The schema constraints, read on a stored row. */
  predicate RecordValid(r: Product)
  {
    && NameOk(r.name)
    && (r.description.Some? ==> |r.description.value| <= MaxDescriptionLength)
    && r.price > 0.0
    && r.inStock >= 0
    && (r.discount.Some? ==> 0.0 <= r.discount.value <= 1.0)
  }

  /** Position of the first row whose key is `id`, or `|rows|` when there is none:
      the row `filter(id == product_id).first()` returns. */
  function FirstIndex(rows: seq<Product>, id: int): (k: nat)
    ensures k <= |rows|
    ensures k < |rows| ==> rows[k].id == id
    ensures forall j :: 0 <= j < k ==> rows[j].id != id
  {
    if rows == [] then 0 else if rows[0].id == id then 0 else 1 + FirstIndex(rows[1..], id)
  }

  function Min(a: int, b: int): int { if a <= b then a else b }
  function Max(a: int, b: int): int { if a <= b then b else a }

  /** `offset(skip).limit(limit)`: the rows from position `skip` on, at most `limit` of them. */
  function Page(rows: seq<Product>, skip: nat, limit: nat): (r: seq<Product>)
    ensures |r| == Min(limit, Max(0, |rows| - skip))
    ensures forall i :: 0 <= i < |r| ==> r[i] == rows[skip + i]
  {
    if skip >= |rows| then [] else rows[skip..Min(skip + limit, |rows|)]
  }

  /** The test `category == c` on a row. */
  function HasCategory(c: ProductCategory): Product -> bool
  {
    (p: Product) => p.category == c
  }

  /** The test `is_available == True` on a row. */
  predicate IsAvailable(p: Product)
  {
    p.isAvailable
  }

  /** The `discount` an insert stores: a given number as it is; a null or absent value is left
      out of the INSERT, so the column default 0.0 applies. */
  function InsertedDiscount(d: Field<Option<real>>): Option<real>
  {
    match d
    case Set(Some(x)) => Some(x)
    case _ => Some(DefaultDiscount)
  }

  /** The row `ProductDB(**product.dict())` inserts under the generated key `id`, with `stamp`
      as both timestamps: fields left out of the request take their defaults, and the row
      starts out available. With `stamp` the time of the insert this is the intended row. */
  function NewRecord(id: int, p: ProductBase, stamp: string): Product
  {
    Product(id, p.name, Resolved(p.description, None), p.price, p.category, p.inStock,
            true, stamp, stamp, Resolved(p.imageUrl, None), InsertedDiscount(p.discount))
  }

  /** The row as the column defaults actually produce it for an insert at time `now`:
      `default=datetime.utcnow().isoformat()` was evaluated once, when the model was imported,
      so both timestamps are `importedAt` and `now` is not used. */
  function NewRecordAsWritten(id: int, p: ProductBase, importedAt: string, now: string): Product
  {
    NewRecord(id, p, importedAt)
  }

  /** Two rows inserted at different times `t1 != t2` still get the same `created_at` under the
      as-written defaults, while the intended rows record their own insert times. */
  lemma CreatedAtFixedAtImport(id1: int, p1: ProductBase, id2: int, p2: ProductBase,
                               importedAt: string, t1: string, t2: string)
    requires t1 != t2
    ensures NewRecordAsWritten(id1, p1, importedAt, t1).createdAt == NewRecordAsWritten(id2, p2, importedAt, t2).createdAt
    ensures NewRecordAsWritten(id1, p1, importedAt, t1).updatedAt == NewRecordAsWritten(id2, p2, importedAt, t2).updatedAt
    ensures NewRecord(id1, p1, t1).createdAt != NewRecord(id2, p2, t2).createdAt
  {
  }

  /** A new row carries the request's values under the new key and starts out available; its
      discount is the given number, or 0 when the request left it out or sent null; a valid
      request yields a row meeting the schema constraints. */
  lemma NewRecordValid(id: int, p: ProductBase, now: string)
    requires ValidBase(p)
    ensures var r := NewRecord(id, p, now);
      && r.id == id && r.name == p.name && r.price == p.price && r.category == p.category
      && r.inStock == p.inStock && r.isAvailable && r.createdAt == now && r.updatedAt == now
      && (p.description.Set? ==> r.description == p.description.value)
      && (p.description.Unset? ==> r.description == None)
      && (p.imageUrl.Set? ==> r.imageUrl == p.imageUrl.value)
      && (p.imageUrl.Unset? ==> r.imageUrl == None)
      && r.discount.Some?
      && (p.discount.Set? && p.discount.value.Some? ==> r.discount == p.discount.value)
      && (p.discount.Unset? || p.discount == Set(None) ==> r.discount == Some(0.0))
    ensures RecordValid(NewRecord(id, p, now))
  {
  }

  /** The `setattr` loop over `dict(exclude_unset=True)` followed by the new `updated_at`.
      The fields without a default (name, price, category, in_stock) are always set; the
      others only when the request supplied them, possibly as null. */
  function Patched(r: Product, u: ProductBase, now: string): Product
  {
    r.(name := u.name,
       description := Resolved(u.description, r.description),
       price := u.price,
       category := u.category,
       inStock := u.inStock,
       imageUrl := Resolved(u.imageUrl, r.imageUrl),
       discount := Resolved(u.discount, r.discount),
       updatedAt := now)
  }

  /** What an update keeps: the key, availability and creation time never change, and every
      optional field the request left out keeps its old value. Applying an update twice is
      the same as applying it once, and it preserves the schema constraints. */
  lemma PatchedFrame(r: Product, u: ProductBase, now: string)
    ensures var r' := Patched(r, u, now);
      && r'.id == r.id && r'.isAvailable == r.isAvailable && r'.createdAt == r.createdAt
      && r'.updatedAt == now
      && (u.description.Unset? ==> r'.description == r.description)
      && (u.imageUrl.Unset? ==> r'.imageUrl == r.imageUrl)
      && (u.discount.Unset? ==> r'.discount == r.discount)
      && (u.description.Set? ==> r'.description == u.description.value)
      && (u.imageUrl.Set? ==> r'.imageUrl == u.imageUrl.value)
      && (u.discount.Set? ==> r'.discount == u.discount.value)
    ensures Patched(Patched(r, u, now), u, now) == Patched(r, u, now)
    ensures RecordValid(r) && ValidBase(u) ==> RecordValid(Patched(r, u, now))
  {
  }

  /** `rows` without the row at position `k`. */
  function RemoveAt(rows: seq<Product>, k: nat): seq<Product>
    requires k < |rows|
  {
    rows[..k] + rows[k + 1..]
  }

  /** The test `id != key` on a row. */
  function KeyIsNot(key: int): Product -> bool
  {
    (p: Product) => p.id != key
  }

  /** Removing one row of a keyed table leaves a keyed table without that row's key. */
  lemma RemoveAtKeyed(rows: seq<Product>, k: nat)
    requires UniqueIds(rows) && k < |rows|
    ensures var rest := RemoveAt(rows, k);
      |rest| == |rows| - 1 && UniqueIds(rest) && !HasId(rest, rows[k].id)
  {
    var rest := RemoveAt(rows, k);
    assert forall i :: 0 <= i < |rest| ==> rest[i] == rows[if i < k then i else i + 1];
  }

  /** Deleting the row with key `id` from a keyed table removes exactly that row: the rest is
      the table filtered to the other keys, in order, one row shorter, still keyed, and it
      holds no row with key `id`. */
  lemma RemoveAtKey(rows: seq<Product>, id: int)
    requires UniqueIds(rows) && HasId(rows, id)
    ensures FirstIndex(rows, id) < |rows|
    ensures var rest := RemoveAt(rows, FirstIndex(rows, id));
      && rest == Filter(rows, KeyIsNot(id))
      && |rest| == |rows| - 1
      && !HasId(rest, id)
      && UniqueIds(rest)
  {
    var k := FirstIndex(rows, id);
    RemoveAtKeyed(rows, k);
    FilterDropsOne(rows, k, KeyIsNot(id));
  }

  /** The `products` table of one database session. */
  class ProductTable {
    var rows: seq<Product>

    /** The primary key holds, every row meets the schema constraints, and every row is
        available: inserts set `is_available` and no request body can change it. */
    ghost predicate Valid()
      reads this
    {
      && UniqueIds(rows)
      && (forall i :: 0 <= i < |rows| ==> RecordValid(rows[i]))
      && (forall i :: 0 <= i < |rows| ==> rows[i].isAvailable)
    }

    constructor ()
      ensures Valid() && rows == []
    {
      rows := [];
    }

    /** `get_product`: the first row with key `id`, or None. */
    method GetProduct(id: int) returns (r: Option<Product>)
      ensures r.None? <==> !HasId(rows, id)
      ensures r.Some? ==> r.value.id == id
      ensures r.Some? ==> exists k :: 0 <= k < |rows| && rows[k] == r.value && forall j :: 0 <= j < k ==> rows[j].id != id
    {
      var k := FirstIndex(rows, id);
      if k < |rows| {
        r := Some(rows[k]);
      } else {
        r := None;
      }
    }

    /** `get_products`: one page of the table. */
    method GetProducts(skip: nat, limit: nat) returns (r: seq<Product>)
      ensures r == Page(rows, skip, limit)
    {
      r := Page(rows, skip, limit);
    }

    /** `create_product`: inserts one row built from the request under a fresh key. `now`
        is the insert time, so this is the intended insert; the program as written passes the
        import time instead (`NewRecordAsWritten`). */
    method CreateProduct(p: ProductBase, newId: int, now: string) returns (r: Product)
      requires Valid() && ValidBase(p)
      requires !HasId(rows, newId)
      modifies this
      ensures Valid()
      ensures r == NewRecord(newId, p, now)
      ensures rows == old(rows) + [r]
    {
      r := NewRecord(newId, p, now);
      NewRecordValid(newId, p, now);
      rows := rows + [r];
    }

    /** `update_product`: None and no change for a missing key; otherwise the matching row is
        patched in place and returned, and every other row stays as it was. */
    method UpdateProduct(id: int, u: ProductBase, now: string) returns (r: Option<Product>)
      requires Valid() && ValidBase(u)
      modifies this
      ensures Valid()
      ensures r.None? <==> !HasId(old(rows), id)
      ensures r.None? ==> rows == old(rows)
      ensures r.Some? ==>
        var k := FirstIndex(old(rows), id);
        k < |old(rows)| && r.value == Patched(old(rows)[k], u, now) && rows == old(rows)[k := r.value]
    {
      var k := FirstIndex(rows, id);
      if k == |rows| {
        r := None;
        return;
      }
      PatchedFrame(rows[k], u, now);
      var updated := Patched(rows[k], u, now);
      rows := rows[k := updated];
      r := Some(updated);
    }

    /** `delete_product`: False and no change for a missing key; otherwise the row with key
        `id` is removed and True returned. */
    method DeleteProduct(id: int) returns (ok: bool)
      requires Valid()
      modifies this
      ensures Valid()
      ensures ok <==> HasId(old(rows), id)
      ensures !ok ==> rows == old(rows)
      ensures ok ==> rows == RemoveAt(old(rows), FirstIndex(old(rows), id)) && !HasId(rows, id)
    {
      var k := FirstIndex(rows, id);
      if k == |rows| {
        ok := false;
        return;
      }
      RemoveAtKey(rows, id);
      rows := RemoveAt(rows, k);
      ok := true;
    }

    /** `get_products_by_category`: the rows of category `c`, in table order. */
    method GetProductsByCategory(c: ProductCategory) returns (r: seq<Product>)
      ensures r == Filter(rows, HasCategory(c))
      ensures forall i :: 0 <= i < |r| ==> r[i].category == c
      ensures forall i :: 0 <= i < |rows| && rows[i].category == c ==> rows[i] in r
    {
      r := Filter(rows, HasCategory(c));
      FilterMembers(rows, HasCategory(c));
    }

    /** `get_available_products`: the available rows, in table order. */
    method GetAvailableProducts() returns (r: seq<Product>)
      ensures r == Filter(rows, IsAvailable)
      ensures forall i :: 0 <= i < |r| ==> r[i].isAvailable
      ensures forall i :: 0 <= i < |rows| && rows[i].isAvailable ==> rows[i] in r
    {
      r := Filter(rows, IsAvailable);
      FilterMembers(rows, IsAvailable);
    }
  }
}
