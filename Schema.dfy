/** Request bodies for products and their field constraints (pydantic models with
    `Field` constraints and two `@validator` methods, in pydantic v1 semantics). */
module Schema {
  import opened Wrappers

  /** The six product categories; each is a string enum member. */
  datatype ProductCategory = Electronics | Clothing | Books | Home | Sports | Other

  /** The string value of each enum member. */
  function CategoryValue(c: ProductCategory): string
  {
    match c
    case Electronics => "electronics"
    case Clothing => "clothing"
    case Books => "books"
    case Home => "home"
    case Sports => "sports"
    case Other => "other"
  }

  /** Enum lookup by value: the member whose value is `s`, if any. */
  function ParseCategory(s: string): (r: Option<ProductCategory>)
    ensures r.Some? ==> CategoryValue(r.value) == s
  {
    if s == "electronics" then Some(Electronics)
    else if s == "clothing" then Some(Clothing)
    else if s == "books" then Some(Books)
    else if s == "home" then Some(Home)
    else if s == "sports" then Some(Sports)
    else if s == "other" then Some(Other)
    else None
  }

  /** The values the enum accepts. */
  const CategoryValues: set<string> := {"electronics", "clothing", "books", "home", "sports", "other"}

  /** Parsing inverts `CategoryValue`, and the enum accepts exactly six distinct strings. */
  lemma CategoryRoundTrip(c: ProductCategory, s: string)
    ensures ParseCategory(CategoryValue(c)) == Some(c)
    ensures ParseCategory(s).Some? <==> s in CategoryValues
    ensures |CategoryValues| == 6
  {
  }

  /** Whether a request supplied a field: pydantic's "fields set", which `exclude_unset` keeps. */
  datatype Field<T> = Unset | Set(value: T)

  /** The value a field takes in `.dict()`: what the request gave, else the field's default. */
  function Resolved<T>(f: Field<T>, default: T): T
  {
    match f
    case Unset => default
    case Set(v) => v
  }

  /** The default of `discount`. */
  const DefaultDiscount: real := 0.0

  /** A request body as received: the category is still a string. A field without a default
      (name, price, category, in_stock) is always present; the others may be left out or set
      to null. */
  datatype ProductInput = ProductInput(
    name: string,
    description: Field<Option<string>>,
    price: real,
    category: string,
    inStock: int,
    imageUrl: Field<Option<string>>,
    discount: Field<Option<real>>)

  /** A validated `ProductBase` instance. */
  datatype ProductBase = ProductBase(
    name: string,
    description: Field<Option<string>>,
    price: real,
    category: ProductCategory,
    inStock: int,
    imageUrl: Field<Option<string>>,
    discount: Field<Option<real>>)

  /** One validation error, in the order pydantic reports them (field declaration order). */
  datatype FieldError =
    | NameTooShort              // Field(min_length=1)
    | NameTooLong               // Field(max_length=100)
    | DescriptionTooLong        // Field(max_length=500)
    | PriceNotGreaterThanZero   // Field(gt=0)
    | PriceNotPositive          // price_must_be_positive
    | CategoryNotMember         // not one of the enum values
    | StockLessThanZero         // Field(ge=0)
    | StockNegative             // stock_must_be_non_negative
    | DiscountBelowZero         // Field(ge=0)
    | DiscountAboveOne          // Field(le=1)

  const MaxNameLength: nat := 100
  const MaxDescriptionLength: nat := 500

  predicate NameOk(s: string) { 1 <= |s| <= MaxNameLength }

  /** A null or absent description is accepted; a given one is at most 500 characters. */
  predicate DescriptionOk(d: Field<Option<string>>)
  {
    match d
    case Set(Some(s)) => |s| <= MaxDescriptionLength
    case _ => true
  }

  /** A null or absent discount is accepted; a given one lies in [0, 1]. */
  predicate DiscountOk(d: Field<Option<real>>)
  {
    match d
    case Set(Some(x)) => 0.0 <= x <= 1.0
    case _ => true
  }

  /** Every constraint of `ProductBase` holds of the request body. */
  predicate Valid(p: ProductInput)
  {
    && NameOk(p.name)
    && DescriptionOk(p.description)
    && p.price > 0.0
    && ParseCategory(p.category).Some?
    && p.inStock >= 0
    && DiscountOk(p.discount)
  }

  /** Every constraint of `ProductBase` holds of a validated instance. */
  predicate ValidBase(b: ProductBase)
  {
    && NameOk(b.name)
    && DescriptionOk(b.description)
    && b.price > 0.0
    && b.inStock >= 0
    && DiscountOk(b.discount)
  }

  /** The `price_must_be_positive` validator: rejects a price that is not above zero and
      returns an accepted one unchanged. */
  function PriceMustBePositive(v: real): (r: Result<real, FieldError>)
    ensures r.Success? <==> v > 0.0
    ensures r.Success? ==> r.value == v
    ensures r.Failure? ==> r.error == PriceNotPositive
  {
    if v <= 0.0 then Failure(PriceNotPositive) else Success(v)
  }

  /** The `stock_must_be_non_negative` validator: rejects a negative stock and returns an
      accepted one unchanged. */
  function StockMustBeNonNegative(v: int): (r: Result<int, FieldError>)
    ensures r.Success? <==> v >= 0
    ensures r.Success? ==> r.value == v
    ensures r.Failure? ==> r.error == StockNegative
  {
    if v < 0 then Failure(StockNegative) else Success(v)
  }

  /** The `price` field: the `gt=0` constraint first; the validator runs only on a value the
      constraint accepted. */
  function PriceField(v: real): Result<real, FieldError>
  {
    if !(v > 0.0) then Failure(PriceNotGreaterThanZero) else PriceMustBePositive(v)
  }

  /** The `in_stock` field: the `ge=0` constraint first, then the validator. */
  function StockField(v: int): Result<int, FieldError>
  {
    if v < 0 then Failure(StockLessThanZero) else StockMustBeNonNegative(v)
  }

  function NameError(s: string): Option<FieldError>
  {
    if |s| < 1 then Some(NameTooShort) else if |s| > MaxNameLength then Some(NameTooLong) else None
  }

  function DescriptionError(d: Field<Option<string>>): Option<FieldError>
  {
    if DescriptionOk(d) then None else Some(DescriptionTooLong)
  }

  function CategoryError(s: string): Option<FieldError>
  {
    if ParseCategory(s).Some? then None else Some(CategoryNotMember)
  }

  function DiscountError(d: Field<Option<real>>): Option<FieldError>
  {
    match d
    case Set(Some(x)) => if x < 0.0 then Some(DiscountBelowZero) else if x > 1.0 then Some(DiscountAboveOne) else None
    case _ => None
  }

  function Listed(e: Option<FieldError>): seq<FieldError>
  {
    match e
    case None => []
    case Some(x) => [x]
  }

  function ErrorOf<T>(r: Result<T, FieldError>): Option<FieldError>
  {
    match r
    case Success(_) => None
    case Failure(e) => Some(e)
  }

  /** All errors pydantic reports for a body, one per failing field, in declaration order. */
  function Errors(p: ProductInput): seq<FieldError>
  {
    Listed(NameError(p.name))
    + Listed(DescriptionError(p.description))
    + Listed(ErrorOf(PriceField(p.price)))
    + Listed(CategoryError(p.category))
    + Listed(ErrorOf(StockField(p.inStock)))
    + Listed(DiscountError(p.discount))
  }

  /** The constraint that error `e` says `p` breaks. */
  predicate Violates(p: ProductInput, e: FieldError)
  {
    match e
    case NameTooShort => |p.name| < 1
    case NameTooLong => |p.name| > MaxNameLength
    case DescriptionTooLong => !DescriptionOk(p.description)
    case PriceNotGreaterThanZero => p.price <= 0.0
    case PriceNotPositive => p.price <= 0.0
    case CategoryNotMember => p.category !in CategoryValues
    case StockLessThanZero => p.inStock < 0
    case StockNegative => p.inStock < 0
    case DiscountBelowZero => p.discount.Set? && p.discount.value.Some? && p.discount.value.value < 0.0
    case DiscountAboveOne => p.discount.Set? && p.discount.value.Some? && p.discount.value.value > 1.0
  }

  /** Every error of `es` names a constraint that `p` breaks. */
  predicate AllViolated(p: ProductInput, es: seq<FieldError>)
  {
    forall i :: 0 <= i < |es| ==> Violates(p, es[i])
  }

  lemma AllViolatedAppend(p: ProductInput, a: seq<FieldError>, b: seq<FieldError>)
    requires AllViolated(p, a) && AllViolated(p, b)
    ensures AllViolated(p, a + b)
  {
    forall i | 0 <= i < |a + b| ensures Violates(p, (a + b)[i]) {
      if i >= |a| {
        assert (a + b)[i] == b[i - |a|];
      }
    }
  }

  /** The error list is empty exactly for a valid body, and each listed error is real. */
  lemma ErrorsSound(p: ProductInput)
    ensures Errors(p) == [] <==> Valid(p)
    ensures AllViolated(p, Errors(p))
  {
    CategoryRoundTrip(Other, p.category);
    var name, description := Listed(NameError(p.name)), Listed(DescriptionError(p.description));
    var price, category := Listed(ErrorOf(PriceField(p.price))), Listed(CategoryError(p.category));
    var stock, discount := Listed(ErrorOf(StockField(p.inStock))), Listed(DiscountError(p.discount));
    assert AllViolated(p, name) && AllViolated(p, description) && AllViolated(p, price);
    assert AllViolated(p, category) && AllViolated(p, stock) && AllViolated(p, discount);
    AllViolatedAppend(p, name, description);
    AllViolatedAppend(p, name + description, price);
    AllViolatedAppend(p, name + description + price, category);
    AllViolatedAppend(p, name + description + price + category, stock);
    AllViolatedAppend(p, name + description + price + category + stock, discount);
  }

  /** Building a `ProductBase` from a request body: an instance exactly when every constraint
      holds, carrying the given values unchanged; otherwise the list of errors, each naming a
      constraint the body breaks. */
  function Validate(p: ProductInput): (r: Result<ProductBase, seq<FieldError>>)
    ensures r.Success? <==> Valid(p)
    ensures r.Success? ==> ValidBase(r.value)
    ensures r.Success? ==>
      && r.value.name == p.name && r.value.description == p.description
      && r.value.price == p.price && CategoryValue(r.value.category) == p.category
      && r.value.inStock == p.inStock && r.value.imageUrl == p.imageUrl
      && r.value.discount == p.discount
    ensures r.Failure? ==> r.error != [] && forall i :: 0 <= i < |r.error| ==> Violates(p, r.error[i])
  {
    CategoryRoundTrip(Other, p.category);
    ErrorsSound(p);
    var errors := Errors(p);
    if errors == [] then
      Success(ProductBase(p.name, p.description, p.price, ParseCategory(p.category).value,
                          p.inStock, p.imageUrl, p.discount))
    else
      Failure(errors)
  }

  /** Under pydantic's order of checks neither validator ever rejects a value: the field
      constraints `gt=0` and `ge=0` already exclude everything the validators would. */
  lemma ValidatorsNeverReject(p: ProductInput)
    ensures PriceNotPositive !in Errors(p)
    ensures StockNegative !in Errors(p)
    ensures PriceField(p.price) == Failure(PriceNotGreaterThanZero) || PriceField(p.price) == Success(p.price)
    ensures StockField(p.inStock) == Failure(StockLessThanZero) || StockField(p.inStock) == Success(p.inStock)
  {
    var price, stock := Listed(ErrorOf(PriceField(p.price))), Listed(ErrorOf(StockField(p.inStock)));
    assert PriceNotPositive !in price && StockNegative !in price;
    assert PriceNotPositive !in stock && StockNegative !in stock;
  }

  /** A discount left out of the request reads as 0, which is inside [0, 1]. */
  lemma DiscountDefaultsToZero(b: ProductBase)
    requires ValidBase(b)
    ensures b.discount.Unset? ==> Resolved(b.discount, Some(DefaultDiscount)) == Some(0.0)
    ensures match Resolved(b.discount, Some(DefaultDiscount))
            case Some(x) => 0.0 <= x <= 1.0
            case None => true
  {
  }
}
