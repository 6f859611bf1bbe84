/** The order document schema (models/orders.js) read as a validity
    predicate: which paths are required, which strings are enumerations,
    which defaults are filled in, and what the `pre("save")` hook computes. */
module OrderSchema {
  import opened Common
  import opened JsString

  // ---------------------------------------------------------------------
  // The document as submitted (every field may be absent)

  datatype LineDoc = LineDoc(
    itemId: Option<Id>,
    itemType: Option<string>,
    category: Option<string>,
    quantity: Option<int>,
    price: Option<int>)

  /** `orderDate`: the client sends `date` and `year` as digit strings,
      which the schema casts to numbers. */
  datatype DateDoc = DateDoc(
    date: Option<string>,
    dayName: Option<string>,
    month: Option<string>,
    year: Option<string>)

  datatype OrderDoc = OrderDoc(
    customer: Option<Id>,
    vendor: Option<Id>,
    items: seq<LineDoc>,
    totalAmount: Option<int>,
    orderDate: DateDoc,
    status: Option<string>,
    paymentStatus: Option<string>,
    discount: Option<int>)

  // ---------------------------------------------------------------------
  // The stored order

  datatype ItemType = Menu | Snack

  datatype Category = WeeklyMenu | BreakFast | AllDaySnacks

  datatype Line = Line(itemId: Id, itemType: ItemType, category: Category, quantity: int, price: int)

  datatype OrderDate = OrderDate(date: nat, dayName: string, month: string, year: nat)

  datatype Order = Order(
    customer: Id,
    vendor: Id,
    items: seq<Line>,
    totalAmount: int,
    orderDate: OrderDate,
    status: string,
    paymentStatus: string)

  /** A path of the document that failed validation. */
  datatype Path =
    | CustomerPath | VendorPath
    | ItemIdPath(index: nat) | ItemTypePath(index: nat) | CategoryPath(index: nat) | PricePath(index: nat)
    | TotalAmountPath
    | DatePath | DayNamePath | MonthPath | YearPath

  const DefaultQuantity: int := 1
  const DefaultStatus: string := "Pending"

  // ---------------------------------------------------------------------
  // Enumerations

  function ItemTypeName(t: ItemType): string {
    match t
    case Menu => "Menu"
    case Snack => "Snack"
  }

  function ParseItemType(s: string): (r: Option<ItemType>)
    ensures r.Some? ==> ItemTypeName(r.value) == s
  {
    if s == "Menu" then Some(Menu) else if s == "Snack" then Some(Snack) else None
  }

  function CategoryName(c: Category): string {
    match c
    case WeeklyMenu => "WeeklyMenu"
    case BreakFast => "BreakFast"
    case AllDaySnacks => "AllDaySnacks"
  }

  function ParseCategory(s: string): (r: Option<Category>)
    ensures r.Some? ==> CategoryName(r.value) == s
  {
    if s == "WeeklyMenu" then Some(WeeklyMenu)
    else if s == "BreakFast" then Some(BreakFast)
    else if s == "AllDaySnacks" then Some(AllDaySnacks)
    else None
  }

  /** The enumerations accept exactly the names of their members. */
  lemma EnumRoundTrip(t: ItemType, c: Category)
    ensures ParseItemType(ItemTypeName(t)) == Some(t)
    ensures ParseCategory(CategoryName(c)) == Some(c)
  {
  }

  // ---------------------------------------------------------------------
  // Casts and required checks

  /** A required String path rejects both an absent value and "". */
  predicate RequiredString(o: Option<string>) {
    o.Some? && |o.value| > 0
  }

  predicate IsDecimal(s: string) {
    |s| > 0 && forall k :: 0 <= k < |s| ==> IsDigit(s[k])
  }

  /** Cast of a string to a Number path, for plain decimal spellings. */
  function CastNumber(o: Option<string>): (r: Option<nat>)
    ensures r.Some? <==> o.Some? && IsDecimal(o.value)
  {
    if o.Some? && IsDecimal(o.value) then Some(DecimalValue(o.value)) else None
  }

  predicate LineIdOk(l: LineDoc) { l.itemId.Some? }

  predicate LineTypeOk(l: LineDoc) { l.itemType.Some? && ParseItemType(l.itemType.value).Some? }

  predicate LineCategoryOk(l: LineDoc) { l.category.Some? && ParseCategory(l.category.value).Some? }

  predicate LinePriceOk(l: LineDoc) { l.price.Some? }

  predicate LineOk(l: LineDoc) {
    LineIdOk(l) && LineTypeOk(l) && LineCategoryOk(l) && LinePriceOk(l)
  }

  /** Every path of the document that violates the schema. */
  function Errors(doc: OrderDoc): set<Path> {
    var items := doc.items;
    var d := doc.orderDate;
    (if doc.customer.None? then {CustomerPath} else {})
    + (if doc.vendor.None? then {VendorPath} else {})
    + (set i | 0 <= i < |items| && !LineIdOk(items[i]) :: ItemIdPath(i))
    + (set i | 0 <= i < |items| && !LineTypeOk(items[i]) :: ItemTypePath(i))
    + (set i | 0 <= i < |items| && !LineCategoryOk(items[i]) :: CategoryPath(i))
    + (set i | 0 <= i < |items| && !LinePriceOk(items[i]) :: PricePath(i))
    + (if doc.totalAmount.None? then {TotalAmountPath} else {})
    + (if CastNumber(d.date).None? then {DatePath} else {})
    + (if !RequiredString(d.dayName) then {DayNamePath} else {})
    + (if !RequiredString(d.month) then {MonthPath} else {})
    + (if CastNumber(d.year).None? then {YearPath} else {})
  }

  predicate DateOk(d: DateDoc) {
    CastNumber(d.date).Some? && RequiredString(d.dayName) && RequiredString(d.month) && CastNumber(d.year).Some?
  }

  /** The schema's acceptance condition, field by field. */
  predicate Valid(doc: OrderDoc) {
    && doc.customer.Some? && doc.vendor.Some?
    && (forall i | 0 <= i < |doc.items| :: LineOk(doc.items[i]))
    && doc.totalAmount.Some?
    && DateOk(doc.orderDate)
  }

  function ToLine(l: LineDoc): Line
    requires LineOk(l)
  {
    Line(l.itemId.value, ParseItemType(l.itemType.value).value, ParseCategory(l.category.value).value,
         l.quantity.GetOr(DefaultQuantity), l.price.value)
  }

  /** Validation with defaults applied: the stored order, or the set of
      failing paths. */
  function Validate(doc: OrderDoc): (r: Result<Order, set<Path>>)
    ensures r.Ok? <==> Valid(doc)
    ensures r.Err? ==> r.error != {}
    ensures r.Ok? ==> r.value.status == doc.status.GetOr(DefaultStatus)
    ensures r.Ok? ==> r.value.paymentStatus == doc.paymentStatus.GetOr(DefaultStatus)
    ensures r.Ok? ==> |r.value.items| == |doc.items|
    ensures r.Ok? ==> forall i | 0 <= i < |doc.items| ::
              && r.value.items[i].quantity == doc.items[i].quantity.GetOr(DefaultQuantity)
              && Some(r.value.items[i].price) == doc.items[i].price
              && Some(r.value.items[i].itemId) == doc.items[i].itemId
              && Some(ItemTypeName(r.value.items[i].itemType)) == doc.items[i].itemType
              && Some(CategoryName(r.value.items[i].category)) == doc.items[i].category
    ensures r.Ok? ==> Some(r.value.totalAmount) == doc.totalAmount
    ensures r.Ok? ==> Some(r.value.customer) == doc.customer && Some(r.value.vendor) == doc.vendor
    ensures r.Ok? ==> && CastNumber(doc.orderDate.date) == Some(r.value.orderDate.date)
                      && Some(r.value.orderDate.dayName) == doc.orderDate.dayName
                      && Some(r.value.orderDate.month) == doc.orderDate.month
                      && CastNumber(doc.orderDate.year) == Some(r.value.orderDate.year)
  {
    var errs := Errors(doc);
    if errs != {} then Err(errs)
    else
      assert forall i | 0 <= i < |doc.items| :: LineOk(doc.items[i]) by {
        forall i | 0 <= i < |doc.items| ensures LineOk(doc.items[i]) {
          assert ItemIdPath(i) !in errs && ItemTypePath(i) !in errs;
          assert CategoryPath(i) !in errs && PricePath(i) !in errs;
        }
      }
      var d := doc.orderDate;
      Ok(Order(
        doc.customer.value, doc.vendor.value,
        seq(|doc.items|, i requires 0 <= i < |doc.items| => ToLine(doc.items[i])),
        doc.totalAmount.value,
        OrderDate(CastNumber(d.date).value, d.dayName.value, d.month.value, CastNumber(d.year).value),
        doc.status.GetOr(DefaultStatus), doc.paymentStatus.GetOr(DefaultStatus)))
  }

  /** A missing line quantity is stored as 1. */
  lemma QuantityDefault(doc: OrderDoc, i: nat)
    requires Valid(doc) && i < |doc.items| && doc.items[i].quantity.None?
    ensures Validate(doc).value.items[i].quantity == 1
  {
  }

  // ---------------------------------------------------------------------
  // Reading a stored order back

  predicate StoredWellFormed(o: Order) {
    |o.orderDate.dayName| > 0 && |o.orderDate.month| > 0
  }

  function LineToDoc(l: Line): LineDoc {
    LineDoc(Some(l.itemId), Some(ItemTypeName(l.itemType)), Some(CategoryName(l.category)),
            Some(l.quantity), Some(l.price))
  }

  /** A stored order written back as a document, with every default spelled out. */
  function ToDoc(o: Order): OrderDoc {
    var d := o.orderDate;
    OrderDoc(Some(o.customer), Some(o.vendor),
             seq(|o.items|, i requires 0 <= i < |o.items| => LineToDoc(o.items[i])),
             Some(o.totalAmount),
             DateDoc(Some(DecimalString(d.date)), Some(d.dayName), Some(d.month), Some(DecimalString(d.year))),
             Some(o.status), Some(o.paymentStatus), None)
  }

  /** Validating a stored order again gives back the same order: the
      defaults and casts are idempotent. */
  lemma ValidateToDoc(o: Order)
    requires StoredWellFormed(o)
    ensures Validate(ToDoc(o)) == Ok(o)
  {
    var doc := ToDoc(o);
    DecimalRoundTrip(o.orderDate.date);
    DecimalRoundTrip(o.orderDate.year);
    forall i | 0 <= i < |o.items| ensures LineOk(doc.items[i]) && ToLine(doc.items[i]) == o.items[i] {
      EnumRoundTrip(o.items[i].itemType, o.items[i].category);
    }
    assert Valid(doc);
    assert Validate(doc).value.items == o.items;
  }

  // ---------------------------------------------------------------------
  // The pre-save hook

  /** `this.totalAmount - this.discount` as written: `discount` is not a
      schema path, so an absent discount makes the difference NaN (`None`). */
  function TotalAfterDiscountAsWritten(totalAmount: int, discount: Option<int>): (r: Option<int>)
    ensures r.None? <==> discount.None?
  {
    match discount
    case None => None
    case Some(d) => Some(totalAmount - d)
  }

  /** The order the client places carries no discount, so the hook as
      written yields NaN for it. */
  lemma AsWrittenNaNWithoutDiscount()
    ensures TotalAfterDiscountAsWritten(130, None) == None
  {
  }

  /** The amount after discount with an absent discount read as 0. */
  function TotalAfterDiscount(totalAmount: int, discount: Option<int>): (r: int)
    ensures discount.None? ==> r == totalAmount
    ensures discount.Some? && discount.value >= 0 ==> r <= totalAmount
  {
    totalAmount - discount.GetOr(0)
  }

  /** Wherever the hook as written produces a number, the corrected hook
      produces the same number. */
  lemma TotalAfterDiscountAgrees(totalAmount: int, discount: Option<int>)
    requires TotalAfterDiscountAsWritten(totalAmount, discount).Some?
    ensures TotalAfterDiscountAsWritten(totalAmount, discount).value == TotalAfterDiscount(totalAmount, discount)
  {
  }

  datatype Saved = Saved(order: Order, totalAfterDiscount: int)

  /** `save()`: validation, then the pre-save hook. */
  function Save(doc: OrderDoc): (r: Result<Saved, set<Path>>)
    ensures r.Ok? <==> Valid(doc)
    ensures r.Ok? ==> Validate(doc) == Ok(r.value.order)
    ensures r.Ok? && doc.discount.None? ==> r.value.totalAfterDiscount == r.value.order.totalAmount
  {
    match Validate(doc)
    case Err(e) => Err(e)
    case Ok(o) => Ok(Saved(o, TotalAfterDiscount(o.totalAmount, doc.discount)))
  }
}
