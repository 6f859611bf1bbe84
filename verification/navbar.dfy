/** The customer navigation bar (components/Navbar.jsx): which menu options
    are offered, where each option leads, how it is labelled and
    highlighted, and what logging out removes. */
module Navbar {
  import opened Common
  import opened JsString
  import MenuItems

  // ---------------------------------------------------------------------
  // Routes

  const MyOrders: string := "myOrders"

  /** The routes that need a vendor in the URL. */
  predicate IsMealRoute(route: string) {
    route == "breakfast" || route == "snacks" || route == "weeklymenu"
  }

  /** `!vendorId || vendorId === "null"`. */
  predicate VendorMissing(vendorId: Option<Id>) {
    vendorId.None? || vendorId.value == "" || vendorId.value == "null"
  }

  /** A value spliced into a template literal: `undefined` is written out. */
  function Interp(o: Option<string>): (s: string)
    ensures o.Some? ==> s == o.value
    ensures o.None? ==> s == "undefined"
  {
    match o
    case None => "undefined"
    case Some(v) => v
  }

  const VendorMissingMessage: string := "Vendor ID is missing!"

  datatype NavOutcome = Navigate(path: string) | Toast(message: string)

  /** The sidebar is closed whatever the outcome. */
  datatype NavResult = NavResult(sidebarOpen: bool, outcome: NavOutcome)

  /** Two path pieces joined by a slash. */
  function Slash(a: string, b: string): string {
    a + "/" + b
  }

  /** `/booking/${customerId}/${vendorId}/${route}`. */
  function BookingPath(customerId: string, vendorId: string, route: string): string {
    Slash("", Slash("booking", Slash(customerId, Slash(vendorId, route))))
  }

  /** `/myOrders/${customerId}`. */
  function OrdersPath(customerId: string): string {
    Slash("", Slash(MyOrders, customerId))
  }

  /** `handleNavigation(route)` with the URL parameters of the current page. */
  function HandleNavigation(route: string, customerId: Option<Id>, vendorId: Option<Id>): (r: NavResult)
    ensures !r.sidebarOpen
    ensures r.outcome.Toast? <==> IsMealRoute(route) && VendorMissing(vendorId)
    ensures r.outcome.Toast? ==> r.outcome.message == VendorMissingMessage
    ensures r.outcome.Navigate? && route == MyOrders ==> r.outcome.path == OrdersPath(Interp(customerId))
    ensures r.outcome.Navigate? && route != MyOrders ==>
              r.outcome.path == BookingPath(Interp(customerId), Interp(vendorId), route)
  {
    if IsMealRoute(route) && VendorMissing(vendorId) then
      NavResult(false, Toast(VendorMissingMessage))
    else if IsMealRoute(route) then
      NavResult(false, Navigate(BookingPath(Interp(customerId), Interp(vendorId), route)))
    else if route == MyOrders then
      NavResult(false, Navigate(OrdersPath(Interp(customerId))))
    else
      NavResult(false, Navigate(BookingPath(Interp(customerId), Interp(vendorId), route)))
  }

  // ---------------------------------------------------------------------
  // Reading a path back

  datatype Page =
    | BookingPage(customerId: string, vendorId: string, route: string)
    | OrdersPage(customerId: string)
    | OtherPage

  /** The page a path names, read segment by segment. */
  function ParsePath(path: string): Page {
    ParseSegments(Split(path, '/'))
  }

  function ParseSegments(parts: seq<string>): Page {
    if |parts| == 5 && parts[0] == "" && parts[1] == "booking" then BookingPage(parts[2], parts[3], parts[4])
    else if |parts| == 3 && parts[0] == "" && parts[1] == MyOrders then OrdersPage(parts[2])
    else OtherPage
  }

  predicate NoSlash(s: string) { '/' !in s }

  /** The segments of a booking path are its customer, vendor and route. */
  lemma BookingPathParses(c: string, v: string, route: string)
    requires NoSlash(c) && NoSlash(v) && NoSlash(route)
    ensures ParsePath(BookingPath(c, v, route)) == BookingPage(c, v, route)
  {
    var p3 := [v] + [route];
    var p2 := [c] + p3;
    var p1 := ["booking"] + p2;
    var p0 := [""] + p1;
    JoinCons(v, [route], '/');
    JoinCons(c, p3, '/');
    JoinCons("booking", p2, '/');
    JoinCons("", p1, '/');
    assert Join(p0, '/') == BookingPath(c, v, route);
    assert p0 == ["", "booking", c, v, route];
    SplitJoin(p0, '/');
  }

  /** The segments of an orders path are the orders route and the customer. */
  lemma OrdersPathParses(c: string)
    requires NoSlash(c)
    ensures ParsePath(OrdersPath(c)) == OrdersPage(c)
  {
    var p1 := [MyOrders] + [c];
    var p0 := [""] + p1;
    JoinCons(MyOrders, [c], '/');
    JoinCons("", p1, '/');
    assert Join(p0, '/') == OrdersPath(c);
    assert p0 == ["", MyOrders, c];
    SplitJoin(p0, '/');
  }

  /** Wherever navigation leads, the page reached carries the customer, the
      vendor and the route it was asked for (identifiers without '/'). */
  lemma NavigationRoundTrip(route: string, customerId: Option<Id>, vendorId: Option<Id>)
    requires NoSlash(route) && NoSlash(Interp(customerId)) && NoSlash(Interp(vendorId))
    requires HandleNavigation(route, customerId, vendorId).outcome.Navigate?
    ensures var p := ParsePath(HandleNavigation(route, customerId, vendorId).outcome.path);
            if route == MyOrders then p == OrdersPage(Interp(customerId))
            else p == BookingPage(Interp(customerId), Interp(vendorId), route)
  {
    if route == MyOrders {
      OrdersPathParses(Interp(customerId));
    } else {
      BookingPathParses(Interp(customerId), Interp(vendorId), route);
    }
  }

  // ---------------------------------------------------------------------
  // The options offered, their labels and highlight

  /** `navOptions`: on an orders page only the orders option is offered. */
  function NavOptions(pathname: string): (r: seq<string>)
    ensures Includes(pathname, MyOrders) <==> r == [MyOrders]
    ensures !Includes(pathname, MyOrders) ==> r == ["breakfast", "snacks", "weeklymenu", MyOrders]
    ensures MyOrders in r
    ensures forall k :: 0 <= k < |r| ==> IsMealRoute(r[k]) || r[k] == MyOrders
  {
    if Includes(pathname, MyOrders) then [MyOrders] else ["breakfast", "snacks", "weeklymenu", MyOrders]
  }

  /** An option is highlighted when the current path contains its route. */
  predicate Highlighted(pathname: string, route: string) {
    Includes(pathname, route)
  }

  /** The page reached by an option highlights that option, and the page
      reached by the orders option offers nothing else. */
  lemma NavigationHighlights(route: string, customerId: Option<Id>, vendorId: Option<Id>)
    requires HandleNavigation(route, customerId, vendorId).outcome.Navigate?
    ensures var path := HandleNavigation(route, customerId, vendorId).outcome.path;
            && Highlighted(path, route)
            && (route == MyOrders ==> NavOptions(path) == [MyOrders])
  {
    var path := HandleNavigation(route, customerId, vendorId).outcome.path;
    if route == MyOrders {
      OrdersPathHasRoute(Interp(customerId));
    } else {
      BookingPathEndsWithRoute(Interp(customerId), Interp(vendorId), route);
    }
  }

  lemma OrdersPathHasRoute(c: string)
    ensures Includes(OrdersPath(c), MyOrders)
  {
    assert OccursAt(OrdersPath(c), MyOrders, 1);
  }

  /** A slash-joined path keeps the last piece at its end. */
  lemma SlashEnd(a: string, b: string, route: string)
    requires |route| <= |b| && b[|b| - |route|..] == route
    ensures var p := Slash(a, b); |route| <= |p| && p[|p| - |route|..] == route
  {
    var p := Slash(a, b);
    assert p == (a + "/") + b;
    assert p[|p| - |route|..] == b[|b| - |route|..];
  }

  lemma BookingPathEndsWithRoute(c: string, v: string, route: string)
    ensures Includes(BookingPath(c, v, route), route)
  {
    var p4 := Slash(v, route);
    SlashEnd(v, route, route);
    var p3 := Slash(c, p4);
    SlashEnd(c, p4, route);
    var p2 := Slash("booking", p3);
    SlashEnd("booking", p3, route);
    var p1 := Slash("", p2);
    SlashEnd("", p2, route);
    assert OccursAt(p1, route, |p1| - |route|);
  }

  /** `route.charAt(0).toUpperCase() + route.slice(1)`. */
  function Label(route: string): (r: string)
    ensures |r| == |route|
    ensures |r| > 0 ==> !IsAsciiLower(r[0]) && r[1..] == route[1..]
    ensures |r| > 0 ==> r[0] == UpperChar(route[0])
  {
    Capitalize(route)
  }

  /** The inverse of `Label` on routes that do not start with a capital. */
  function Uncapitalize(s: string): string {
    if |s| == 0 then "" else [LowerChar(s[0])] + s[1..]
  }

  /** Labels are the routes with the first letter raised, so they determine
      their route. */
  lemma LabelRoundTrip(route: string)
    requires |route| == 0 || !IsAsciiUpper(route[0])
    ensures Uncapitalize(Label(route)) == route
  {
    if |route| > 0 {
      assert LowerChar(UpperChar(route[0])) == route[0];
    }
  }

  /** The four labels shown. */
  lemma Labels()
    ensures Label("breakfast") == "Breakfast"
    ensures Label("snacks") == "Snacks"
    ensures Label("weeklymenu") == "Weeklymenu"
    ensures Label(MyOrders) == "MyOrders"
  {
    assert "breakfast"[1..] == "reakfast";
    assert "snacks"[1..] == "nacks";
    assert "weeklymenu"[1..] == "eeklymenu";
    assert MyOrders[1..] == "yOrders";
  }

  // ---------------------------------------------------------------------
  // Logging out

  const LoginPath: string := "/onboardingcustomer/login"

  /** `handleLogOut`: the customer entry is removed from local storage and
      the login page is opened. */
  function LogOut(storage: map<string, string>): (r: (map<string, string>, string))
    ensures MenuItems.CustomerKey !in r.0
    ensures forall k :: k != MenuItems.CustomerKey ==> (k in r.0 <==> k in storage)
    ensures forall k :: k in r.0 ==> r.0[k] == storage[k]
    ensures r.1 == LoginPath
  {
    (storage - {MenuItems.CustomerKey}, LoginPath)
  }

  /** After logging out, placing an order that passes the time gate fails
      before any request is made, and logging out twice is logging out once. */
  lemma LogOutEndsOrdering(storage: map<string, string>, decode: string -> MenuItems.Session,
                           s: MenuItems.MenuState, selected: MenuItems.SelectedDate,
                           today: string, hour: int, minute: int)
    requires MenuItems.Gate(s.dayInfo, today, hour, minute).None?
    ensures var session := MenuItems.StoredSession(LogOut(storage).0, decode);
            MenuItems.HandleOrder(s, selected, today, hour, minute, session).1 == MenuItems.Threw
    ensures LogOut(LogOut(storage).0) == LogOut(storage)
  {
    assert (storage - {MenuItems.CustomerKey}) - {MenuItems.CustomerKey} == storage - {MenuItems.CustomerKey};
  }
}
