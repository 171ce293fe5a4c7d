/** Products (courses) the school sells: fields, defaults, validation, `__str__`, ordering. */
module Comercial {
  import opened Wrappers
  import opened Text
  import opened Ordering
  import opened Common
  import Money

  datatype Product = Product(
    name: string,
    description: Option<string>,
    price: Money.Cents,
    durationMonths: nat,
    isActive: bool)

  /** `Product.objects.create(...)` arguments: description is null and is_active is true unless given. */
  function NewProduct(name: string, price: Money.Cents, durationMonths: nat,
                      description: Option<string> := None, isActive: bool := true): Product
  {
    Product(name, description, price, durationMonths, isActive)
  }

  /** A product created without the optional fields is active and has no description. */
  lemma NewProductDefaults(name: string, price: Money.Cents, durationMonths: nat)
    ensures NewProduct(name, price, durationMonths).isActive
    ensures NewProduct(name, price, durationMonths).description.None?
    ensures NewProduct(name, price, durationMonths).name == name
  {
  }

  datatype ProductError = NameBlank | NameTooLong | PriceDigits(error: Money.DecimalError)

  const NameMaxLength: nat := 255

  /**
   * `full_clean()` field checks, in field order: name is a required
   * CharField(max_length=255); price is a DecimalField(10, 2) with no lower
   * bound; duration_months is non-negative by its type.
   */
  function ProductErrors(p: Product): seq<ProductError> {
    (if |p.name| == 0 then [NameBlank] else [])
    + (if |p.name| > NameMaxLength then [NameTooLong] else [])
    + (match Money.DecimalCheck(p.price, Money.MaxDigits, Money.DecimalPlaces)
       case Some(e) => [PriceDigits(e)]
       case None => [])
  }

  /** A product passes validation exactly when its name is 1..255 characters and |price| < 10^8. */
  lemma ProductValidIff(p: Product)
    ensures ProductErrors(p) == [] <==>
      0 < |p.name| <= NameMaxLength && -(Pow10(10) as int) < p.price < Pow10(10)
  {
    Money.MoneyFieldBounds(p.price);
  }

  /** A negative price is accepted: the field declares no lower bound. */
  lemma NegativePriceAccepted()
    ensures ProductErrors(NewProduct("Course", -100, 6)) == []
  {
    Money.MoneyFieldBounds(-100);
  }

  /** `__str__`: the product's name. */
  function ProductStr(p: Product): string {
    p.name
  }

  lemma ProductStrIsName(name: string, price: Money.Cents, durationMonths: nat)
    ensures ProductStr(NewProduct(name, price, durationMonths)) == name
  {
  }

  function ProductName(r: Row<Product>): string {
    r.rec.data.name
  }

  /** `ordering = ["name"]`. */
  function ProductOrder(): (Row<Product>, Row<Product>) -> bool {
    ByTextAsc(ProductName)
  }

  /** The product listing is sorted by name and holds exactly the rows of the view. */
  lemma ProductListing(view: Rows<Product>, bound: nat)
    requires forall id | id in view :: id < bound
    ensures SortedBy(Listing(view, bound, ProductOrder()), ProductOrder())
    ensures forall r :: r in Listing(view, bound, ProductOrder()) <==> r.id in view && view[r.id] == r.rec
  {
    ByTextAscIsTotalPreorder(ProductName);
    ListingSpec(view, bound, ProductOrder());
  }

  /** Of two listed products, one named "A Course" comes before one named "Z Course". */
  lemma ProductOrderByName(a: Row<Product>, z: Row<Product>)
    requires a.rec.data.name == "A Course" && z.rec.data.name == "Z Course"
    ensures ProductOrder()(a, z) && !ProductOrder()(z, a)
  {
    var an, zn := ProductName(a), ProductName(z);
    assert an[0] == 'A' && zn[0] == 'Z';
    assert LexLe(an, zn) && !LexLe(zn, an);
  }
}
