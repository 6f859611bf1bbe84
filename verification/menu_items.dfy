/** The weekly-menu ordering component (components/MenuItems.jsx): the cart
    held in component state together with its badge map, the date/time
    gate that refuses late or past orders, and the mapping from the cart
    to the order payload sent to the server. The wall clock is a parameter:
    `today` is the current date as a "YYYY-MM-DD" string, `hour` and
    `minute` the current local time. */
module MenuItems {
  import opened Common
  import opened JsString
  import opened Cart
  import opened OrderSchema

  // ---------------------------------------------------------------------
  // Month names

  const MonthNames: seq<string> := [
    "January", "February", "March", "April", "May", "June",
    "July", "August", "September", "October", "November", "December"]

  /** `getMonthName(i)`: `undefined` outside 0..11 (including NaN). */
  function MonthName(i: int): (r: Option<string>)
    ensures r.Some? <==> 0 <= i < 12
  {
    if 0 <= i < |MonthNames| then Some(MonthNames[i]) else None
  }

  lemma MonthNamesListed()
    ensures MonthName(0) == Some("January") && MonthName(11) == Some("December")
    ensures MonthName(-1).None? && MonthName(12).None?
  {
  }

  // ---------------------------------------------------------------------
  // Parts of the selected date

  /** The k-th element of a destructured array: `undefined` past its end. */
  function PartAt(parts: seq<string>, k: nat): Option<string> {
    if k < |parts| then Some(parts[k]) else None
  }

  /** `const [year, month, day] = dayInfo.split("-")`. */
  function DatePart(dayInfo: string, k: nat): Option<string> {
    PartAt(Split(dayInfo, '-'), k)
  }

  /** `getMonthName(parseInt(month) - 1)`; `parseInt(undefined)` is NaN. */
  function MonthOfPart(month: Option<string>): Option<string> {
    match month
    case None => None
    case Some(m) =>
      match ParseInt(m)
      case None => None
      case Some(v) => MonthName(v - 1)
  }

  function PayloadMonth(dayInfo: string): Option<string> {
    MonthOfPart(DatePart(dayInfo, 1))
  }

  /** A "YYYY-MM-DD"-shaped date string: three digit runs joined by '-'. */
  function DateString(y: string, m: string, d: string): string {
    y + "-" + (m + "-" + d)
  }

  predicate IsDateString(y: string, m: string, d: string) {
    IsDecimal(y) && IsDecimal(m) && IsDecimal(d) && 1 <= DecimalValue(m) <= 12
  }

  lemma DecimalHasNoDash(s: string)
    requires IsDecimal(s)
    ensures '-' !in s
  {
    assert forall k :: 0 <= k < |s| ==> s[k] != '-';
  }

  lemma SplitDate(y: string, m: string, d: string)
    requires IsDecimal(y) && IsDecimal(m) && IsDecimal(d)
    ensures Split(DateString(y, m, d), '-') == [y, m, d]
  {
    DecimalHasNoDash(y);
    DecimalHasNoDash(m);
    DecimalHasNoDash(d);
    SplitCons(y, '-', m + "-" + d);
    SplitCons(m, '-', d);
    SplitNoSeparator(d, '-');
  }

  /** A month written in digits names the month it numbers. */
  lemma MonthOfDigits(m: string)
    requires IsDecimal(m) && 1 <= DecimalValue(m) <= 12
    ensures MonthOfPart(Some(m)) == Some(MonthNames[DecimalValue(m) - 1])
  {
    ParseIntDigits(m);
  }

  /** For "YYYY-MM-DD" the parts are the year, month and day digits, and the
      payload month is the name of the numeric month. */
  lemma DateParts(y: string, m: string, d: string)
    requires IsDateString(y, m, d)
    ensures DatePart(DateString(y, m, d), 0) == Some(y)
    ensures DatePart(DateString(y, m, d), 2) == Some(d)
    ensures PayloadMonth(DateString(y, m, d)) == Some(MonthNames[DecimalValue(m) - 1])
  {
    SplitDate(y, m, d);
    assert DatePart(DateString(y, m, d), 1) == Some(m);
    MonthOfDigits(m);
  }

  // ---------------------------------------------------------------------
  // The order gate

  datatype Refusal = SameDayAfterCutoff | PastDate

  function RefusalMessage(r: Refusal): string {
    match r
    case SameDayAfterCutoff => "No same-day orders after 10:00 AM."
    case PastDate => "No orders accepted for past dates."
  }

  predicate AfterCutoff(hour: int, minute: int) {
    hour > 10 || (hour == 10 && minute > 0)
  }

  /** The checks at the start of `handleOrder`, in their order. A later
      date is never refused; today is refused only after the cut-off, and
      never as a past date. */
  function Gate(dayInfo: string, today: string, hour: int, minute: int): (r: Option<Refusal>)
    ensures Less(today, dayInfo) ==> r.None?
    ensures dayInfo == today ==> r != Some(PastDate) && (r.Some? <==> AfterCutoff(hour, minute))
    ensures Less(dayInfo, today) ==> r == Some(PastDate)
  {
    LessIrreflexive(dayInfo);
    LessAsymmetric(today, dayInfo);
    if dayInfo == today && AfterCutoff(hour, minute) then Some(SameDayAfterCutoff)
    else if Less(dayInfo, today) then Some(PastDate)
    else None
  }

  /** An order is let through exactly when it is for a later date, or for
      today at or before 10:00. */
  lemma GateAccepts(dayInfo: string, today: string, hour: int, minute: int)
    requires 0 <= hour < 24 && 0 <= minute < 60
    ensures Gate(dayInfo, today, hour, minute).None?
        <==> (dayInfo == today && (hour < 10 || (hour == 10 && minute == 0))) || Less(today, dayInfo)
  {
    LessTotal(dayInfo, today);
    LessIrreflexive(dayInfo);
    if Less(today, dayInfo) && Less(dayInfo, today) {
      LessTransitive(today, dayInfo, today);
      LessIrreflexive(today);
    }
  }

  // ---------------------------------------------------------------------
  // The order payload

  function OrderLine(e: CartEntry): LineDoc {
    LineDoc(Some(e.item.id), Some("Menu"), Some("WeeklyMenu"), Some(e.quantity), Some(Amount(e)))
  }

  /** Sum of the submitted line prices, from the front. */
  function LinePriceSum(lines: seq<LineDoc>): int {
    if |lines| == 0 then 0 else lines[0].price.GetOr(0) + LinePriceSum(lines[1..])
  }

  lemma {:induction false} LinePriceSumSnoc(lines: seq<LineDoc>, l: LineDoc)
    ensures LinePriceSum(lines + [l]) == LinePriceSum(lines) + l.price.GetOr(0)
  {
    if |lines| > 0 {
      assert (lines + [l])[1..] == lines[1..] + [l];
      LinePriceSumSnoc(lines[1..], l);
    }
  }

  function OrderLines(c: Cart): (lines: seq<LineDoc>)
    ensures |lines| == |c|
  {
    seq(|c|, i requires 0 <= i < |c| => OrderLine(c[i]))
  }

  /** The cart total is the sum of the payload's line prices. */
  lemma {:induction false} TotalIsLineSum(c: Cart)
    ensures Total(c) == LinePriceSum(OrderLines(c))
    decreases |c|
  {
    if |c| > 0 {
      var p := c[..|c| - 1];
      TotalIsLineSum(p);
      assert c == p + [c[|c| - 1]];
      TotalConcat(p, [c[|c| - 1]]);
      TotalSingle(c[|c| - 1]);
      assert OrderLines(c) == OrderLines(p) + [OrderLine(c[|c| - 1])];
      LinePriceSumSnoc(OrderLines(p), OrderLine(c[|c| - 1]));
    }
  }

  /** `orderData`: one line per cart entry in cart order, the vendor of the
      first entry, the cart total, and the parts of the selected date. */
  function BuildOrder(c: Cart, customerId: Option<Id>, dayInfo: string, dayName: string): (doc: OrderDoc)
    ensures |doc.items| == |c|
    ensures forall i | 0 <= i < |c| ::
              && doc.items[i].itemId == Some(c[i].item.id)
              && doc.items[i].quantity == Some(c[i].quantity)
              && doc.items[i].price == Some(Amount(c[i]))
              && doc.items[i].itemType == Some("Menu")
              && doc.items[i].category == Some("WeeklyMenu")
    ensures doc.vendor == (if |c| > 0 then Some(c[0].item.vendor) else None)
    ensures doc.totalAmount == Some(LinePriceSum(doc.items))
    ensures doc.customer == customerId
    ensures doc.orderDate.dayName == Some(dayName)
    ensures doc.status.None? && doc.paymentStatus.None? && doc.discount.None?
  {
    TotalIsLineSum(c);
    OrderDoc(
      customerId,
      if |c| > 0 then Some(c[0].item.vendor) else None,
      OrderLines(c),
      Some(Total(c)),
      PayloadDate(dayInfo, dayName),
      None, None, None)
  }

  /** `orderDate`: the day and year digits, the day name and the month name. */
  function PayloadDate(dayInfo: string, dayName: string): DateDoc {
    DateDoc(DatePart(dayInfo, 2), Some(dayName), PayloadMonth(dayInfo), DatePart(dayInfo, 0))
  }

  lemma MonthNamesNonEmpty(k: int)
    requires 0 <= k < 12
    ensures |MonthNames[k]| > 0
  {
  }

  /** The date parts of a "YYYY-MM-DD" day satisfy the schema. */
  lemma PayloadDateOk(y: string, m: string, d: string, dayName: string)
    requires |dayName| > 0
    requires IsDateString(y, m, d)
    ensures DateOk(PayloadDate(DateString(y, m, d), dayName))
  {
    DateParts(y, m, d);
    MonthNamesNonEmpty(DecimalValue(m) - 1);
  }

  lemma PayloadValid(c: Cart, customerId: Id, y: string, m: string, d: string, dayName: string)
    requires |c| > 0 && |dayName| > 0
    requires IsDateString(y, m, d)
    ensures Valid(BuildOrder(c, Some(customerId), DateString(y, m, d), dayName))
  {
    var doc := BuildOrder(c, Some(customerId), DateString(y, m, d), dayName);
    PayloadDateOk(y, m, d, dayName);
    OrderLinesOk(c);
    assert doc.items == OrderLines(c);
    assert doc.orderDate == PayloadDate(DateString(y, m, d), dayName);
  }

  /** Every submitted line passes the schema's line rules. */
  lemma OrderLinesOk(c: Cart)
    ensures forall i | 0 <= i < |c| :: LineOk(OrderLines(c)[i])
  {
    forall i | 0 <= i < |c| ensures LineOk(OrderLines(c)[i]) {
      assert OrderLines(c)[i] == OrderLine(c[i]);
    }
  }

  /** A non-empty cart ordered for a "YYYY-MM-DD" date by a signed-in
      customer yields a document the order schema accepts, stored with
      the cart total, "Menu"/"WeeklyMenu" lines and "Pending" statuses. */
  lemma PayloadSatisfiesSchema(c: Cart, customerId: Id, y: string, m: string, d: string, dayName: string)
    requires |c| > 0 && |dayName| > 0
    requires IsDateString(y, m, d)
    ensures var doc := BuildOrder(c, Some(customerId), DateString(y, m, d), dayName);
            && Validate(doc).Ok?
            && Validate(doc).value.totalAmount == Total(c)
            && Validate(doc).value.customer == customerId
            && Validate(doc).value.vendor == c[0].item.vendor
            && Validate(doc).value.status == "Pending"
            && Validate(doc).value.paymentStatus == "Pending"
            && Validate(doc).value.orderDate.month == MonthNames[DecimalValue(m) - 1]
            && Validate(doc).value.orderDate
                 == OrderDate(DecimalValue(d), dayName, MonthNames[DecimalValue(m) - 1], DecimalValue(y))
            && forall i | 0 <= i < |c| ::
                 Validate(doc).value.items[i].itemType == Menu
                 && Validate(doc).value.items[i].category == WeeklyMenu
  {
    var doc := BuildOrder(c, Some(customerId), DateString(y, m, d), dayName);
    PayloadValid(c, customerId, y, m, d, dayName);
    DateParts(y, m, d);
    TotalIsLineSum(c);
    var o := Validate(doc).value;
    forall i | 0 <= i < |c| ensures o.items[i].itemType == Menu && o.items[i].category == WeeklyMenu {
      assert o.items[i] == ToLine(doc.items[i]);
    }
  }

  /** An empty cart has no vendor, so its payload is rejected. */
  lemma EmptyCartRejected(customerId: Option<Id>, dayInfo: string, dayName: string)
    ensures !Valid(BuildOrder([], customerId, dayInfo, dayName))
  {
  }

  // ---------------------------------------------------------------------
  // Component state and handlers

  datatype SelectedDate = SelectedDate(date: string, day: string)

  /** `orderItems`, `itemQuantities` and `dayInfo`, after effects have run. */
  datatype MenuState = MenuState(orderItems: Cart, itemQuantities: map<string, int>, dayInfo: string)

  const InitialState: MenuState := MenuState([], map[], "")

  /** The badge map agrees with the cart (the effect on `orderItems`). */
  predicate Consistent(s: MenuState) {
    s.itemQuantities == Badges(s.orderItems)
  }

  /** The state invariant: a consistent badge map over a well-formed cart. */
  predicate Good(s: MenuState) {
    Consistent(s) && WellFormed(s.orderItems)
  }

  function WithItems(s: MenuState, c: Cart): MenuState {
    s.(orderItems := c, itemQuantities := Badges(c))
  }

  /** `handleAddToOrder(item, quantity)`: also records the selected date. */
  function AddToOrder(s: MenuState, selected: SelectedDate, item: MenuItem, q: int): (s': MenuState)
    ensures s'.orderItems == Add(s.orderItems, item, q)
    ensures s'.dayInfo == selected.date
    ensures Consistent(s')
  {
    WithItems(s, Add(s.orderItems, item, q)).(dayInfo := selected.date)
  }

  /** `handleRemoveOrder(item)`. */
  function RemoveFromOrder(s: MenuState, item: MenuItem): (s': MenuState)
    ensures s'.orderItems == Remove(s.orderItems, item.id)
    ensures s'.dayInfo == s.dayInfo
    ensures Consistent(s')
  {
    WithItems(s, Remove(s.orderItems, item.id))
  }

  /** `handleClearOrder`. */
  function ClearOrder(s: MenuState): (s': MenuState)
    ensures s'.orderItems == [] && s'.itemQuantities == map[]
    ensures Total(s'.orderItems) == 0
    ensures Good(s')
  {
    s.(orderItems := [], itemQuantities := map[])
  }

  lemma ClearIdempotent(s: MenuState)
    ensures ClearOrder(ClearOrder(s)) == ClearOrder(s)
  {
  }

  /** The customer entry of local storage: absent, or present with an
      optional `customerId`. */
  datatype Session = NoSession | Session(customerId: Option<Id>)

  /** The local-storage key of the customer entry. */
  const CustomerKey: string := "customer"

  /** `JSON.parse(localStorage.getItem("customer"))`: the session read from
      local storage; decoding the JSON entry is a parameter. */
  function StoredSession(storage: map<string, string>, decode: string -> Session): (r: Session)
    ensures CustomerKey !in storage ==> r == NoSession
  {
    if CustomerKey in storage then decode(storage[CustomerKey]) else NoSession
  }

  datatype OrderOutcome =
    | Refused(message: string)
    | Threw                      // `JSON.parse(null).customerId` throws
    | Submitted(payload: OrderDoc)

  /** `handleOrder` up to the request: the gate clears the cart and refuses,
      otherwise the payload is built from the cart. */
  function HandleOrder(s: MenuState, selected: SelectedDate, today: string, hour: int, minute: int,
                       session: Session): (r: (MenuState, OrderOutcome))
    ensures r.1.Refused? <==> Gate(s.dayInfo, today, hour, minute).Some?
    ensures r.1.Refused? ==> r.1.message == RefusalMessage(Gate(s.dayInfo, today, hour, minute).value)
    ensures r.1.Refused? ==> r.0.orderItems == [] && r.0.itemQuantities == map[]
    ensures !r.1.Refused? ==> r.0 == s
    ensures Gate(s.dayInfo, today, hour, minute).None? && session.NoSession? ==> r.1 == Threw
    ensures Gate(s.dayInfo, today, hour, minute).None? && session.Session? ==>
              r.1 == Submitted(BuildOrder(s.orderItems, session.customerId, s.dayInfo, selected.day))
    ensures r.1.Submitted? ==> session.Session? && |r.1.payload.items| == |s.orderItems|
    ensures r.1.Submitted? ==> r.1.payload.totalAmount == Some(Total(s.orderItems))
  {
    match Gate(s.dayInfo, today, hour, minute)
    case Some(refusal) => (ClearOrder(s), Refused(RefusalMessage(refusal)))
    case None =>
      match session
      case NoSession => (s, Threw)
      case Session(id) =>
        TotalIsLineSum(s.orderItems);
        (s, Submitted(BuildOrder(s.orderItems, id, s.dayInfo, selected.day)))
  }

  /** At 10:00 exactly a same-day order is still let through; one minute
      later it is refused and the cart emptied. */
  lemma CutoffAtTen(s: MenuState, selected: SelectedDate, session: Session)
    ensures !HandleOrder(s, selected, s.dayInfo, 10, 0, session).1.Refused?
    ensures HandleOrder(s, selected, s.dayInfo, 10, 1, session).1
         == Refused("No same-day orders after 10:00 AM.")
    ensures HandleOrder(s, selected, s.dayInfo, 10, 1, session).0.orderItems == []
  {
    LessIrreflexive(s.dayInfo);
  }

  /** Every handler keeps the state invariant (adds with positive quantity). */
  lemma HandlersPreserveGood(s: MenuState, selected: SelectedDate, item: MenuItem, q: int,
                             today: string, hour: int, minute: int, session: Session)
    requires Good(s) && q > 0
    ensures Good(AddToOrder(s, selected, item, q))
    ensures Good(RemoveFromOrder(s, item))
    ensures Good(ClearOrder(s))
    ensures Good(HandleOrder(s, selected, today, hour, minute, session).0)
  {
    AddPreservesWellFormed(s.orderItems, item, q);
    RemovePreservesWellFormed(s.orderItems, item.id);
  }
}
