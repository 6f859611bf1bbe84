# Lunch booking core in Dafny

This project models the deterministic core of a lunch booking web application.
Customers pick meals from a vendor's menu into a cart and place dated orders.
Vendors register and verify their accounts.

The model covers:

- the customer cart: add, remove, clear, total, and per-name badges (`Cart`);
- the menu page: the order time gate, the order payload, and the month names (`MenuItems`);
- the order document schema, with its enumerations, required paths, defaults and pre-save hook (`OrderSchema`);
- the customer registration form's validators and its submit ladder (`RegisterForm`);
- the two vendor endpoints, registration and verification (`VendorRegister`, `VendorExists`), over a vendor collection (`VendorStore`) and a password hash (`Crypto`);
- the navigation bar's route building, options, labels and log-out (`Navbar`);
- a menu card's price markup and add button (`MenuCard`).

JavaScript behaviour the code depends on is written out in `JsString`:

- `split` on one character;
- `indexOf` and `lastIndexOf`;
- `includes`;
- string `<`;
- `parseInt`;
- ASCII case mapping;
- the `\s` white-space class.

Everything outside the program becomes a parameter:

- The wall clock is the `today`, `hour` and `minute` parameters.
- The browser's local storage is a `Session` value, or a string map for log-out.
- The database is a sequence of vendor records, searched in insertion order.
- The identifier the database gives a new record is a parameter.
- The answers of the customer endpoints the form calls are boolean parameters.
- bcrypt is modelled through its key. The key is the UTF-8 bytes of the password and a terminating NUL, read cyclically into 72 bytes (`Crypto.Key`). `Crypto.Compare` accepts a password exactly when its key equals the key of the hashed one. `Crypto.Hash` is a stand-in that keeps the password after the version prefix.

## Model

| member | source | states |
|---|---|---|
| Cart.Add | components/MenuItems.jsx:48-65 | a known id keeps the length and every other entry; an unknown id is appended at the end with the given quantity |
| Cart.AddExisting | components/MenuItems.jsx:55-63 | on a cart with unique ids, adding a present id raises exactly that entry's quantity by the amount added |
| Cart.AddPreservesWellFormed | components/MenuItems.jsx:55-65 | adding a positive quantity keeps ids unique and all quantities positive |
| Cart.Remove | components/MenuItems.jsx:71-80 | the result never holds an entry with quantity 0 or less and is never longer than the cart |
| Cart.RemoveAbsent | components/MenuItems.jsx:71-80 | removing an id that is not in a positive cart leaves the cart unchanged |
| Cart.RemovePresent | components/MenuItems.jsx:71-80 | removing a present id lowers that entry by one, or deletes exactly that entry when its quantity was 1 |
| Cart.RemovePreservesWellFormed | components/MenuItems.jsx:71-80 | removal keeps ids unique and quantities positive |
| Cart.RunPreservesWellFormed | components/MenuItems.jsx:43-80 | any sequence of positive adds, removes and clears from a well-formed cart, the empty one included, stays well formed |
| Cart.Clear | components/MenuItems.jsx:43-46 | clearing leaves an empty, well-formed cart with total 0 and no badges |
| Cart.AmountIsProduct | components/MenuItems.jsx:137 | an entry's amount is its item's price times its quantity |
| Cart.Total | components/MenuItems.jsx:86-91 | a cart without negative prices or quantities has a total of 0 or more |
| Cart.TotalConcat | components/MenuItems.jsx:86-91 | the total is additive over concatenated carts, so it is the sum of the entries' amounts |
| Cart.AddTotal | components/MenuItems.jsx:55-65 | adding q units raises the total by q times the unit price (the cart's own price when the id is present) |
| Cart.RemoveTotal | components/MenuItems.jsx:71-80 | removing a present id lowers the total by exactly that entry's unit price |
| Cart.BadgesCount | components/MenuItems.jsx:34-41 | the badge map has one key per item name in the cart, and its value is the sum of quantities over all entries with that name, whatever their ids |
| Cart.Badges | components/MenuItems.jsx:34-41 | the badge map has a key for exactly the item names in the cart |
| MenuItems.MonthName | components/MenuItems.jsx:8-24 | a month name exists exactly for the indices 0 to 11 |
| MenuItems.MonthNamesListed | components/MenuItems.jsx:8-24 | index 0 is January, index 11 is December, and -1 and 12 have no name |
| MenuItems.DateParts | components/MenuItems.jsx:101-102 | for a `YYYY-MM-DD` string of digit groups, the payload gets the year, the day, and the month name of the numeric month |
| MenuItems.MonthOfDigits | components/MenuItems.jsx:102 | a month written in digits from 1 to 12 gives the name of that month |
| MenuItems.PayloadDateOk | components/MenuItems.jsx:140-145 | the date fields of the payload for a `YYYY-MM-DD` day pass the schema's date rules |
| MenuItems.Gate | components/MenuItems.jsx:104-122 | a later date is never refused; an earlier date is refused as a past date; for today's date the order is refused exactly after 10:00, and never as a past date |
| MenuItems.GateAccepts | components/MenuItems.jsx:104-122 | the gate lets an order through exactly when its date is later than today, or is today at or before 10:00 |
| MenuItems.CutoffAtTen | components/MenuItems.jsx:104-113 | a same-day order at 10:00 passes; at 10:01 it is refused with the cut-off message and the cart is emptied |
| MenuItems.TotalIsLineSum | components/MenuItems.jsx:129-139 | the cart total equals the sum of the payload's line prices |
| MenuItems.BuildOrder | components/MenuItems.jsx:129-146 | one line per cart entry in order, each with the entry's id, "Menu", "WeeklyMenu", its quantity, and its amount (price times quantity); the vendor of the first entry; the total equals the sum of line prices; the day name is the selected one; no status, payment status or discount is sent |
| MenuItems.PayloadSatisfiesSchema | components/MenuItems.jsx:129-146 | a payload for a non-empty cart and a well-formed date passes the order schema; the stored order has the cart total, "Pending" statuses, the order date made of the day number, the selected day name, the month name and the year number of the date, every line stored as Menu and WeeklyMenu, and the ordering customer and the vendor of the first cart item as customer and vendor |
| MenuItems.EmptyCartRejected | components/MenuItems.jsx:131 | an empty cart gives a payload without a vendor, which the schema rejects |
| MenuItems.ClearOrder | components/MenuItems.jsx:43-46 | after clearing, the cart and the badge map are empty and the total is 0 |
| MenuItems.ClearIdempotent | components/MenuItems.jsx:43-46 | clearing twice is clearing once |
| MenuItems.AddToOrder | components/MenuItems.jsx:48-65 | the cart becomes the cart with the item added, the selected date is recorded, and the badge map agrees with the new cart |
| MenuItems.RemoveFromOrder | components/MenuItems.jsx:71-84 | the cart becomes the cart with the item removed once, the date is kept, and the badge map agrees with the new cart |
| MenuItems.HandleOrder | components/MenuItems.jsx:93-146 | the order is refused exactly when the gate fires, with the gate's message, and then the cart and badges are emptied; otherwise the state is untouched, a missing session throws, and a present one submits the payload built from the cart, the customer, the date and the day name |
| MenuItems.HandlersPreserveGood | components/MenuItems.jsx:34-122 | every handler keeps the cart well formed and the badge map in agreement with it |
| OrderSchema.EnumRoundTrip | models/orders.js:22-31 | each enumeration accepts exactly the names of its members |
| OrderSchema.Validate | models/orders.js:3-74 | validation succeeds exactly when every required path is present and every enum holds; a failure names at least one path; status and payment status default to "Pending"; quantities default to 1; the customer, the vendor, the total, each line's id, price, item type and category, the day name, the month and the cast day and year numbers are stored as the document gives them |
| OrderSchema.QuantityDefault | models/orders.js:32-35 | a line without a quantity is stored with quantity 1 |
| OrderSchema.ValidateToDoc | models/orders.js:3-74 | validating a stored order written back as a document gives back the same order |
| OrderSchema.TotalAfterDiscountAsWritten | models/orders.js:76-79 | the hook as written yields a number exactly when a discount is present |
| OrderSchema.AsWrittenNaNWithoutDiscount | models/orders.js:76-79 | an order without a discount gets NaN from the hook as written |
| OrderSchema.TotalAfterDiscount | models/orders.js:76-79 | with no discount the amount after discount is the total; a non-negative discount never raises it |
| OrderSchema.TotalAfterDiscountAgrees | models/orders.js:76-79 | wherever the hook as written gives a number, the corrected hook gives the same number |
| OrderSchema.Save | models/orders.js:76-79 | saving succeeds exactly for valid documents, stores the validated order, and without a discount keeps the amount after discount equal to the total |
| RegisterForm.IsValidEmail | components/RegisterForm.jsx:20-23 | an accepted address has at least six characters, starts with a local-part character and ends with two letters |
| RegisterForm.IsValidEmailMatchesPattern | components/RegisterForm.jsx:20-23 | the executable check accepts exactly the addresses the pattern matches: a local part of `[A-Za-z0-9._%+-]`, '@', a domain of `[A-Za-z0-9.-]`, '.', and two or more letters |
| RegisterForm.ValidEmailHasOneAt | components/RegisterForm.jsx:20-27 | an address that passes the format check has exactly one '@', so it splits into exactly two parts |
| RegisterForm.EmailDomainOf | components/RegisterForm.jsx:18-32 | for a one-'@' address, the domain check holds exactly when the lower-cased domain is on the allow list |
| RegisterForm.IsValidEmailDomain | components/RegisterForm.jsx:25-32 | an address with an allowed domain contains an '@' and has at least eight characters, the shortest allowed domain plus the '@' |
| RegisterForm.AtCountNotOne | components/RegisterForm.jsx:25-32 | an address with no '@' or with more than one splits into other than two parts and is refused by the domain check |
| RegisterForm.EmailDomainCaseInsensitive | components/RegisterForm.jsx:28 | changing the case of the domain part does not change the domain check |
| RegisterForm.DomainCheckAfterFormat | components/RegisterForm.jsx:48-57 | after a passing format check, only the lower-cased domain decides the domain check |
| RegisterForm.IsValidPassword | components/RegisterForm.jsx:34-37 | an accepted password is ASCII, so its JavaScript length is its character count, and that is at least 8 |
| RegisterForm.PasswordRule | components/RegisterForm.jsx:34-37 | a password is accepted exactly when it has at least 8 characters, all ASCII letters or digits, at least one a digit |
| RegisterForm.FirstFailure | components/RegisterForm.jsx:43-62 | no message exactly when all four checks pass; the missing-fields message exactly when a field is empty; with every field filled, the format message wins over the domain message, which wins over the password message |
| RegisterForm.HandleSubmit | components/RegisterForm.jsx:40-107 | a failed check issues no request and shows its message; otherwise the existence request comes first; an existing user stops after it with "User already exists."; when every check passed and no user exists, exactly two requests are sent, the existence check and the register request with the four fields; the login page opens only after a successful registration, and a refused registration shows "User registration failed." |
| RegisterForm.RegisterRequestOnlyWhenValid | components/RegisterForm.jsx:43-93 | whenever the register request is sent, the address has one '@', an allowed domain, and the password has at least 8 characters |
| VendorRegister.ServerEmailOk | app/api/vendorregister/route.js:19-20 | an accepted address has at least five characters, and neither its first nor its last character is white space or '@' |
| VendorRegister.ServerEmailOkIsPattern | app/api/vendorregister/route.js:19-20 | the executable check accepts exactly the language of the server's e-mail pattern |
| VendorRegister.ServerEmailOneAt | app/api/vendorregister/route.js:19-25 | an accepted address has exactly one '@' and no white space |
| VendorRegister.FormEmailPassesServer | app/api/vendorregister/route.js:19-25 | every address the customer form accepts also passes the vendor endpoint's pattern |
| VendorRegister.Register | app/api/vendorregister/route.js:6-71 | 201 exactly when all fields are present, the address is well formed, the password has a JavaScript length of 8 or more, and the address is new, and then exactly one vendor is appended; 409 exactly for a taken address; 500 exactly for a body that is not JSON; a missing field, then a malformed address, then a short password each give 400 with their own message; any other outcome leaves the collection unchanged |
| VendorRegister.RegisteredVendorStoresHash | app/api/vendorregister/route.js:47-63 | after a registration the new record carries the address, and its password is the hash, never the plain text, and matches the original password |
| VendorRegister.PasswordLengthOnly | app/api/vendorregister/route.js:27-33 | an eight-letter password without a digit is accepted |
| VendorRegister.AstralPasswordPasses | app/api/vendorregister/route.js:27-33 | a password of six letters and one emoji, seven characters but eight UTF-16 code units, is accepted |
| Crypto.CompareHash | app/api/vendorExists/route.js:30 | a stored hash matches exactly the passwords whose 72-byte key equals that of the password it was made from |
| Crypto.Utf8BytesInjective | app/api/vendorExists/route.js:30 | different strings have different UTF-8 encodings |
| Crypto.ShortKeyDetermines | app/api/vendorExists/route.js:30 | for passwords of at most 71 UTF-8 bytes without a NUL character, equal keys mean equal passwords |
| Crypto.SharedPrefixMatches | app/api/vendorExists/route.js:30 | passwords that share their first 72 bytes match each other's hash, whatever follows |
| Crypto.LongPasswordsCollide | app/api/vendorExists/route.js:30 | seventy-two 'a's followed by "1" and the same followed by "2" are different passwords, and one matches the other's hash |
| VendorStore.FindOne | app/api/vendorExists/route.js:21 | the record found matches both the address and the identifier, and nothing is found exactly when no record matches both |
| VendorStore.FindOneAppend | app/api/vendorExists/route.js:21 | a record appended after no earlier match is the one found |
| VendorExists.Verify | app/api/vendorExists/route.js:6-54 | 200 exactly when all fields are present, a record matches both address and identifier, and the password matches its hash, and then the body is only that record's id, address and name; 404 exactly when no record matches both; 401 "Invalid email or password." exactly when a record matches but the password does not; 500 exactly for a body that is not JSON; a missing field gives 400 before any lookup |
| VendorExists.RegisterThenVerify | app/api/vendorExists/route.js:21-45 | after a successful registration under a new identifier, verifying with the same address and password returns the new vendor's id, address and name |
| VendorExists.RegisterThenWrongPassword | app/api/vendorExists/route.js:21-45 | after the same registration, a password is refused with 401 exactly when its bcrypt key differs from the registered one, and accepted with 200 otherwise |
| VendorExists.RegisterThenShortWrongPassword | app/api/vendorExists/route.js:30-37 | when both passwords have at most 71 UTF-8 bytes and no NUL character, any other password is refused with 401 |
| VendorExists.RegisterThenSameKey | app/api/vendorExists/route.js:21-45 | after a registration under a new identifier, any password with the registered password's 72-byte key is accepted with the new vendor's id, address and name |
| VendorExists.RegisterThenLongVariantAccepted | app/api/vendorExists/route.js:30-45 | after registering seventy-two 'a's followed by "1", the same 'a's followed by "2" is accepted with the vendor's id, address and name |
| Navbar.HandleNavigation | components/Navbar.jsx:58-76 | the sidebar always closes; a missing vendor toast appears exactly for a meal route with an absent, empty or "null" vendor; the orders route goes to `/myOrders/{customer}`; every other route goes to `/booking/{customer}/{vendor}/{route}`, with absent ids written as "undefined" |
| Navbar.NavigationRoundTrip | components/Navbar.jsx:69-75 | splitting the path reached on '/' gives back the customer, the vendor and the route asked for |
| Navbar.NavOptions | components/Navbar.jsx:78-80 | only the orders option is offered exactly when the path contains "myOrders"; elsewhere breakfast, snacks, weeklymenu and the orders option are offered, in that order |
| Navbar.NavigationHighlights | components/Navbar.jsx:78-100 | the page an option leads to highlights that option, and the orders page offers only the orders option |
| Navbar.Label | components/Navbar.jsx:103 | a label has the route's length, its first character is the route's first character upper-cased (so never a lower-case letter), and it keeps the rest of the route |
| Navbar.LabelRoundTrip | components/Navbar.jsx:103 | lowering the first letter of a label gives back a route that did not start with a capital |
| Navbar.Labels | components/Navbar.jsx:103 | the four labels are Breakfast, Snacks, Weeklymenu and MyOrders |
| MenuItems.StoredSession | components/MenuItems.jsx:124-125 | without a customer entry in local storage there is no session |
| Navbar.LogOut | components/Navbar.jsx:53-56 | the customer entry is gone, every other entry of local storage is unchanged, and the login page opens |
| Navbar.LogOutEndsOrdering | components/Navbar.jsx:53-56 | after log-out, an order that passes the time gate fails before any request is made, and logging out twice is logging out once |
| MenuCard.MarkUpPrice | components/MenuCard.jsx:15-19 | the struck-through price is the price plus 10, so it is always above the price |
| MenuCard.CardShowsMarkUp | components/MenuCard.jsx:15-19 | a loaded card's struck-through price is the marked-up price, 10 above the price it shows |
| MenuCard.AddButton | components/MenuCard.jsx:71-82 | the button is disabled exactly when the item is already added, and then reads "Added" without the plus icon; otherwise it reads "Add to cart" |
| MenuCard.RenderCard | components/MenuCard.jsx:7-49 | a placeholder exactly when the item is absent; otherwise a card with a non-empty title, the item's price, and a higher struck-through price |
| MenuCard.Click | components/MenuCard.jsx:72-78 | a press hands on the item with quantity 1 exactly when the card is loaded and its button is enabled |
| MenuCard.PageCardsAlwaysClickable | components/MenuCard.jsx:72-78 | a loaded card without `isAdded` adds one of its item; a placeholder or an added card adds nothing |
| MenuCard.ClickThenAdd | components/MenuCard.jsx:72 | a press passed to the page's add handler keeps the page state good, raises the total by the unit price, and appends a new item with quantity 1 |
| JsString.SplitSeparatorFree | components/RegisterForm.jsx:26 | no part produced by `split` on one character contains that character |
| JsString.SplitCount | components/RegisterForm.jsx:26 | `split` on one character gives one part more than the string has occurrences of that character |
| JsString.SplitJoin | components/Navbar.jsx:70-72 | splitting a joined sequence of separator-free parts gives back the parts |
| JsString.LessTotal | components/MenuItems.jsx:116 | any two strings are equal or ordered one way or the other by `<` |
| JsString.LessTransitive | components/MenuItems.jsx:116 | string `<` is transitive |
| JsString.ParseInt | components/MenuItems.jsx:102 | a string without any decimal digit parses to NaN |
| JsString.ParseIntDigits | components/MenuItems.jsx:102 | `parseInt` of a non-empty digit string is its decimal value |
| JsString.DecimalRoundTrip | models/orders.js:47-62 | reading the decimal spelling of a number gives back the number |
| JsString.Utf16Length | app/api/vendorregister/route.js:28 | the JavaScript length of a string lies between its character count and twice that |
| JsString.Utf16LengthBmp | app/api/vendorregister/route.js:28 | the JavaScript length equals the character count exactly when no character lies outside the Basic Multilingual Plane |

## Left out

- Rendering, toasts, the loading flag and the router are left out. Navigation is the path returned, and a toast is the message returned.
- `fetch` is modelled only through its answers:
  - The order request and the checkout redirect after it are not modelled. `MenuItems.HandleOrder` stops at the payload.
  - Network failures and non-JSON replies are not modelled.
  - The form's existence and register answers are booleans.
- `MenuItems.StoredSession` takes the JSON decoding of the customer entry as a parameter, because JSON parsing is not modelled. Only an absent entry is decided: it makes `customer.customerId` throw.
- The user-info request in components/Navbar.jsx:20-51 and the name and e-mail display that depends on it are left out. They are I/O around a string concatenation.
- The local time versus UTC mismatch between `getHours` and `toISOString` at components/MenuItems.jsx:96-99 is left out: `today`, `hour` and `minute` are independent parameters.
- Prices and quantities are integers. JavaScript floating point and string concatenation on non-number prices are not modelled.
- `itemQuantities` is recomputed by an effect after each cart change. The model treats it as already recomputed, and the display order of the badges is not modelled.
- Cart.Badges: the model is a true map from names to numbers. The source accumulates into a plain `{}` object, so an item named after an inherited property (`toString`, `constructor`) starts from that property instead of 0, and for `__proto__` the sum is a string, which the prototype setter ignores, so the assignment has no effect and no badge appears. Such names are not modelled.
- Strings are sequences of Unicode scalar values. `length` is modelled as `JsString.Utf16Length`, in UTF-16 code units. Two other places where code units differ from characters are not modelled: string `<` in the date gate, whose operands are ASCII dates, and `charAt(0)` in `Navbar.Label`, whose routes are ASCII.
- Case mapping is ASCII only. `toLowerCase` on other letters (for example the Kelvin sign, which lowers to 'k') is not modelled. So `RegisterForm.IsValidEmailDomain` is exact only for addresses that pass the format check, which is the only way the form calls it.
- OrderSchema.CastNumber: only plain decimal spellings cast to a Number. Mongoose also accepts signs, exponents, white space and decimals, which the page never sends.
- ObjectId casting of `customer`, `vendor`, `itemId` and `verifiedId` is not modelled. Identifiers are strings. A malformed identifier, which the database would reject with a cast error (a 500 in the vendor endpoint), is treated like any other identifier.
- Mongoose's strict mode is not modelled. It drops `totalAfterDiscount` and `discount` because they are not schema paths. `OrderSchema.Save` returns the hook's value next to the stored order instead.
- Timestamps (`createdAt`, `updatedAt`) are left out. They come from the clock.
- bcrypt's salt, cost factor and cipher are left out. `Crypto.Hash` is deterministic and not one-way: it keeps the password, and only `Crypto.Compare` reduces it to its 72-byte key. So `VendorRegister.RegisteredVendorStoresHash` shows that the stored value is not the plain password. It does not show that the password cannot be recovered from the stored value.
- The vendor schema (models/vendor.js) is not part of this model. In particular, a unique index on `email` is not assumed. `VendorRegister.Register` checks for a taken address exactly as the handler does.
- Non-string JSON values in request bodies (numbers, arrays, objects) are not modelled. Every field is an optional string.
- Menu item fields the core never reads are not modelled: image, type badge and the card's quantity badge.
- The payment flow, the customer endpoints (`/api/userExists`, `/api/customerregister`, `/api/addOrders`), the socket relay, the footer and the login form are not part of this model.

## Findings

| source | as written | input that shows it | evidently intended | confidence | as-written member | corrected member |
|---|---|---|---|---|---|---|
| models/orders.js:76-79 | the pre-save hook subtracts `this.discount`, which is not a schema path and is never sent by the menu page, so the result is NaN | any order placed from the menu page, for example total 130 with no discount | an absent discount counts as 0, so the amount after discount equals the total | medium, not executed | OrderSchema.TotalAfterDiscountAsWritten (with OrderSchema.AsWrittenNaNWithoutDiscount) | OrderSchema.TotalAfterDiscount (used by OrderSchema.Save, with OrderSchema.TotalAfterDiscountAgrees) |
