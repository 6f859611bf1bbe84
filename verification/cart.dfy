/** The client-side cart of the weekly-menu page (components/MenuItems.jsx):
    a list of catalog items, each with a quantity, changed by "add",
    "remove one" and "clear", and summarised by a total price and by
    per-name badge counts. */
module Cart {
  import opened Common

  /** The fields of a catalog item that the cart reads. */
  datatype MenuItem = MenuItem(id: Id, itemName: string, price: int, vendor: Id)

  /** `{...item, quantity}`: a catalog item together with its quantity. */
  datatype CartEntry = CartEntry(item: MenuItem, quantity: int)

  type Cart = seq<CartEntry>

  predicate HasId(c: Cart, id: Id) {
    exists i | 0 <= i < |c| :: c[i].item.id == id
  }

  predicate UniqueIds(c: Cart) {
    forall i, j | 0 <= i < j < |c| :: c[i].item.id != c[j].item.id
  }

  predicate AllPositive(c: Cart) {
    forall i | 0 <= i < |c| :: c[i].quantity > 0
  }

  /** The invariant every reachable cart keeps. */
  predicate WellFormed(c: Cart) {
    UniqueIds(c) && AllPositive(c)
  }

  // ---------------------------------------------------------------------
  // Operations

  /** `prev.map(order => order._id === id ? {...order, quantity: order.quantity + delta} : order)` */
  function AdjustQuantity(c: Cart, id: Id, delta: int): (r: Cart)
    ensures |r| == |c|
  {
    seq(|c|, i requires 0 <= i < |c| =>
      if c[i].item.id == id then c[i].(quantity := c[i].quantity + delta) else c[i])
  }

  /** `handleAddToOrder(item, quantity)`: a known `_id` has its quantity raised,
      an unknown one is appended at the end. */
  function Add(c: Cart, item: MenuItem, q: int): (r: Cart)
    ensures HasId(c, item.id) ==> |r| == |c|
    ensures HasId(c, item.id) ==> forall i | 0 <= i < |c| && c[i].item.id != item.id :: r[i] == c[i]
    ensures !HasId(c, item.id) ==> r == c + [CartEntry(item, q)]
  {
    if HasId(c, item.id) then AdjustQuantity(c, item.id, q) else c + [CartEntry(item, q)]
  }

  /** `.filter(order => order.quantity > 0)` */
  function KeepPositive(c: Cart): (r: Cart)
    ensures AllPositive(r)
    ensures |r| <= |c|
  {
    if |c| == 0 then []
    else (if c[0].quantity > 0 then [c[0]] else []) + KeepPositive(c[1..])
  }

  /** `handleRemoveOrder(item)`: one unit fewer of the matching entry, then
      every entry whose quantity is no longer positive is dropped. */
  function Remove(c: Cart, id: Id): (r: Cart)
    ensures AllPositive(r)
    ensures |r| <= |c|
  {
    KeepPositive(AdjustQuantity(c, id, -1))
  }

  /** `handleClearOrder`. */
  function Clear(c: Cart): (r: Cart)
    ensures |r| == 0
    ensures Total(r) == 0 && Badges(r) == map[] && WellFormed(r)
  {
    []
  }

  /** `p * n` as repeated addition, so that facts about totals are stated
      in linear arithmetic; `TimesIsProduct` connects it with `*`. */
  function Times(p: int, n: int): int
    decreases if n < 0 then -n else n
  {
    if n == 0 then 0
    else if n > 0 then Times(p, n - 1) + p
    else Times(p, n + 1) - p
  }

  /** The line amount of one entry: price × quantity. */
  function Amount(e: CartEntry): int {
    Times(e.item.price, e.quantity)
  }

  /** The running sum of `calculateTotalPrice` after its first n entries. */
  function TotalOfFirst(c: Cart, n: nat): int
    requires n <= |c|
  {
    if n == 0 then 0 else TotalOfFirst(c, n - 1) + Amount(c[n - 1])
  }

  /** No entry has a negative price or quantity. */
  predicate NonNegative(c: Cart) {
    forall k :: 0 <= k < |c| ==> c[k].item.price >= 0 && c[k].quantity >= 0
  }

  lemma {:induction false} TimesNonNegative(p: int, n: int)
    requires p >= 0 && n >= 0
    ensures Times(p, n) >= 0
    decreases n
  {
    if n > 0 {
      TimesNonNegative(p, n - 1);
    }
  }

  lemma {:induction false} TotalOfFirstNonNegative(c: Cart, n: nat)
    requires n <= |c|
    ensures NonNegative(c) ==> TotalOfFirst(c, n) >= 0
  {
    if n > 0 && NonNegative(c) {
      TotalOfFirstNonNegative(c, n - 1);
      TimesNonNegative(c[n - 1].item.price, c[n - 1].quantity);
    }
  }

  /** `calculateTotalPrice`: the `reduce` from the left of price × quantity. */
  function Total(c: Cart): (t: int)
    ensures NonNegative(c) ==> t >= 0
  {
    TotalOfFirstNonNegative(c, |c|);
    TotalOfFirst(c, |c|)
  }

  /** The `itemQuantities` reduction: itemName ↦ accumulated quantity. */
  function Badges(c: Cart): (r: map<string, int>)
    ensures r.Keys == Names(c)
  {
    if |c| == 0 then map[]
    else
      var m := Badges(c[..|c| - 1]);
      var e := c[|c| - 1];
      NamesSnoc(c);
      m[e.item.itemName := (if e.item.itemName in m then m[e.item.itemName] else 0) + e.quantity]
  }

  // ---------------------------------------------------------------------
  // Reference definitions

  function Names(c: Cart): set<string> {
    set i | 0 <= i < |c| :: c[i].item.itemName
  }

  /** The names of a cart are those of all but its last entry, and the
      last entry's. */
  lemma NamesSnoc(c: Cart)
    requires |c| > 0
    ensures Names(c) == Names(c[..|c| - 1]) + {c[|c| - 1].item.itemName}
  {
    var p, e := c[..|c| - 1], c[|c| - 1];
    forall n | n in Names(c) ensures n in Names(p) + {e.item.itemName} {
      var i :| 0 <= i < |c| && c[i].item.itemName == n;
      if i < |p| {
        assert p[i] == c[i];
      }
    }
    forall n | n in Names(p) ensures n in Names(c) {
      var i :| 0 <= i < |p| && p[i].item.itemName == n;
      assert c[i] == p[i];
    }
  }

  /** Sum of the quantities of all entries called `name`, from the front. */
  function NameTotal(c: Cart, name: string): int {
    if |c| == 0 then 0
    else (if c[0].item.itemName == name then c[0].quantity else 0) + NameTotal(c[1..], name)
  }

  /** The unit price at which `q` more units of `item` are charged: an
      entry already in the cart keeps the price it was added with. */
  ghost function UnitPrice(c: Cart, item: MenuItem): int {
    if exists i | 0 <= i < |c| :: c[i].item.id == item.id then
      var i :| 0 <= i < |c| && c[i].item.id == item.id; c[i].item.price
    else item.price
  }

  // ---------------------------------------------------------------------
  // Add

  /** With unique ids, adding a known `_id` changes exactly that entry. */
  lemma AddExisting(c: Cart, item: MenuItem, q: int, k: nat)
    requires UniqueIds(c)
    requires k < |c| && c[k].item.id == item.id
    ensures Add(c, item, q) == c[k := c[k].(quantity := c[k].quantity + q)]
  {
    assert HasId(c, item.id);
  }

  lemma AddPreservesWellFormed(c: Cart, item: MenuItem, q: int)
    requires WellFormed(c) && q > 0
    ensures WellFormed(Add(c, item, q))
  {
    var r := Add(c, item, q);
    if HasId(c, item.id) {
      assert forall i | 0 <= i < |r| :: r[i].item == c[i].item;
    }
  }

  // ---------------------------------------------------------------------
  // Remove

  lemma {:induction false} KeepPositiveIdentity(c: Cart)
    requires AllPositive(c)
    ensures KeepPositive(c) == c
  {
    if |c| > 0 {
      KeepPositiveIdentity(c[1..]);
    }
  }

  lemma {:induction false} KeepPositiveConcat(a: Cart, b: Cart)
    ensures KeepPositive(a + b) == KeepPositive(a) + KeepPositive(b)
  {
    if |a| > 0 {
      assert (a + b)[1..] == a[1..] + b;
      KeepPositiveConcat(a[1..], b);
    } else {
      assert a + b == b;
    }
  }

  /** Removing an `_id` that is not in a well-formed cart changes nothing. */
  lemma RemoveAbsent(c: Cart, id: Id)
    requires AllPositive(c) && !HasId(c, id)
    ensures Remove(c, id) == c
  {
    assert AdjustQuantity(c, id, -1) == c;
    KeepPositiveIdentity(c);
  }

  /** With unique ids, adjusting a present `_id` changes exactly its entry. */
  lemma AdjustAt(c: Cart, id: Id, k: nat, delta: int)
    requires UniqueIds(c)
    requires k < |c| && c[k].item.id == id
    ensures AdjustQuantity(c, id, delta) == c[k := c[k].(quantity := c[k].quantity + delta)]
  {
    assert forall i | 0 <= i < |c| && i != k :: c[i].item.id != id;
  }

  /** Filtering a positive cart in which one entry was replaced keeps the
      replacement if it is positive and drops just that entry otherwise. */
  lemma KeepPositiveReplaced(a: Cart, e: CartEntry, b: Cart)
    requires AllPositive(a) && AllPositive(b)
    ensures e.quantity > 0 ==> KeepPositive(a + [e] + b) == a + [e] + b
    ensures e.quantity <= 0 ==> KeepPositive(a + [e] + b) == a + b
  {
    KeepPositiveConcat(a + [e], b);
    KeepPositiveConcat(a, [e]);
    KeepPositiveIdentity(a);
    KeepPositiveIdentity(b);
    assert [e][1..] == [];
    if e.quantity > 0 {
      assert KeepPositive([e]) == [e];
    } else {
      assert KeepPositive([e]) == [];
      assert a + [] == a;
    }
  }

  /** Removing a present `_id` decrements that entry only, and drops it
      when its quantity reaches 0. */
  lemma RemovePresent(c: Cart, id: Id, k: nat)
    requires WellFormed(c)
    requires k < |c| && c[k].item.id == id
    ensures c[k].quantity > 1 ==> Remove(c, id) == c[k := c[k].(quantity := c[k].quantity - 1)]
    ensures c[k].quantity == 1 ==> Remove(c, id) == c[..k] + c[k + 1..]
  {
    var a, b := c[..k], c[k + 1..];
    var e := c[k].(quantity := c[k].quantity - 1);
    AdjustAt(c, id, k, -1);
    assert c[k := e] == a + [e] + b;
    assert AllPositive(a) && AllPositive(b);
    KeepPositiveReplaced(a, e, b);
  }

  lemma RemovePreservesWellFormed(c: Cart, id: Id)
    requires WellFormed(c)
    ensures WellFormed(Remove(c, id))
  {
    if HasId(c, id) {
      var k :| 0 <= k < |c| && c[k].item.id == id;
      RemovePresent(c, id, k);
      if c[k].quantity == 1 {
        var r := c[..k] + c[k + 1..];
        forall i, j | 0 <= i < j < |r|
          ensures r[i].item.id != r[j].item.id
        {
          var i' := if i < k then i else i + 1;
          var j' := if j < k then j else j + 1;
          assert r[i] == c[i'] && r[j] == c[j'];
        }
      }
    } else {
      RemoveAbsent(c, id);
    }
  }

  // ---------------------------------------------------------------------
  // Total

  /** The running sum depends only on the entries it has passed. */
  lemma {:induction false} TotalOfFirstPrefix(c: Cart, d: Cart, n: nat)
    requires n <= |c| && n <= |d|
    requires forall i | 0 <= i < n :: c[i] == d[i]
    ensures TotalOfFirst(c, n) == TotalOfFirst(d, n)
  {
    if n > 0 {
      TotalOfFirstPrefix(c, d, n - 1);
    }
  }

  lemma {:induction false} TotalOfFirstConcat(a: Cart, b: Cart, m: nat)
    requires m <= |b|
    ensures TotalOfFirst(a + b, |a| + m) == Total(a) + TotalOfFirst(b, m)
  {
    if m == 0 {
      TotalOfFirstPrefix(a + b, a, |a|);
    } else {
      TotalOfFirstConcat(a, b, m - 1);
      assert (a + b)[|a| + m - 1] == b[m - 1];
    }
  }

  lemma TotalConcat(a: Cart, b: Cart)
    ensures Total(a + b) == Total(a) + Total(b)
  {
    TotalOfFirstConcat(a, b, |b|);
  }

  lemma {:induction false} TimesIsProduct(p: int, n: int)
    ensures Times(p, n) == p * n
    decreases if n < 0 then -n else n
  {
    if n > 0 {
      TimesIsProduct(p, n - 1);
    } else if n < 0 {
      TimesIsProduct(p, n + 1);
    }
  }

  /** An entry's amount is its price times its quantity. */
  lemma AmountIsProduct(e: CartEntry)
    ensures Amount(e) == e.item.price * e.quantity
  {
    TimesIsProduct(e.item.price, e.quantity);
  }

  lemma TotalSingle(e: CartEntry)
    ensures Total([e]) == Amount(e)
  {
    assert TotalOfFirst([e], 0) == 0;
  }

  /** Replacing entry k changes the total by the difference of the two lines. */
  lemma TotalUpdate(c: Cart, k: nat, e: CartEntry)
    requires k < |c|
    ensures Total(c[k := e]) == Total(c) - Amount(c[k]) + Amount(e)
  {
    var a, b := c[..k], c[k + 1..];
    assert c == (a + [c[k]]) + b;
    assert c[k := e] == (a + [e]) + b;
    TotalConcat(a + [c[k]], b);
    TotalConcat(a, [c[k]]);
    TotalConcat(a + [e], b);
    TotalConcat(a, [e]);
    TotalSingle(c[k]);
    TotalSingle(e);
  }

  /** Taking one entry out of the middle lowers the total by its amount. */
  lemma TotalWithout(a: Cart, e: CartEntry, b: Cart)
    ensures Total(a + [e] + b) == Total(a + b) + Amount(e)
  {
    TotalConcat(a + [e], b);
    TotalConcat(a, [e]);
    TotalSingle(e);
    TotalConcat(a, b);
  }

  /** Deleting entry k lowers the total by that entry's line amount. */
  lemma TotalDelete(c: Cart, k: nat)
    requires k < |c|
    ensures Total(c[..k] + c[k + 1..]) == Total(c) - Amount(c[k])
  {
    var a, e, b := c[..k], c[k], c[k + 1..];
    assert c == a + [e] + b by {
      assert c == c[..k] + c[k..];
      assert c[k..] == [e] + b;
    }
    TotalWithout(a, e, b);
  }

  /** Raising an entry's quantity by q raises its amount by q × price. */
  lemma AmountAdd(e: CartEntry, q: int)
    ensures Amount(e.(quantity := e.quantity + q)) == Amount(e) + q * e.item.price
  {
    var p, n := e.item.price, e.quantity;
    TimesIsProduct(p, n + q);
    TimesIsProduct(p, n);
    assert p * (n + q) == p * n + q * p;
  }

  /** With unique ids, the unit price of a present item is its entry's price. */
  lemma UnitPriceAt(c: Cart, item: MenuItem, k: nat)
    requires UniqueIds(c)
    requires k < |c| && c[k].item.id == item.id
    ensures UnitPrice(c, item) == c[k].item.price
  {
  }

  /** Adding q units raises the total by q times the unit price charged. */
  lemma AddTotal(c: Cart, item: MenuItem, q: int)
    requires UniqueIds(c)
    ensures Total(Add(c, item, q)) == Total(c) + q * UnitPrice(c, item)
  {
    if HasId(c, item.id) {
      var k :| 0 <= k < |c| && c[k].item.id == item.id;
      var e := c[k];
      UnitPriceAt(c, item, k);
      AddExisting(c, item, q, k);
      TotalUpdate(c, k, e.(quantity := e.quantity + q));
      AmountAdd(e, q);
    } else {
      var e := CartEntry(item, q);
      TotalConcat(c, [e]);
      TotalSingle(e);
      AmountIsProduct(e);
    }
  }

  /** Removing one unit of a present entry lowers the total by its unit price. */
  lemma RemoveTotal(c: Cart, id: Id, k: nat)
    requires WellFormed(c)
    requires k < |c| && c[k].item.id == id
    ensures Total(Remove(c, id)) == Total(c) - c[k].item.price
  {
    var e := c[k];
    assert e.quantity > 0;
    RemovePresent(c, id, k);
    if e.quantity > 1 {
      DecrementTotal(c, k);
    } else {
      assert e.quantity == 1;
      TotalDelete(c, k);
      assert Amount(e) == e.item.price;
    }
  }

  lemma DecrementTotal(c: Cart, k: nat)
    requires k < |c|
    ensures Total(c[k := c[k].(quantity := c[k].quantity - 1)]) == Total(c) - c[k].item.price
  {
    var e := c[k];
    TotalUpdate(c, k, e.(quantity := e.quantity - 1));
    AmountAdd(e, -1);
  }

  // ---------------------------------------------------------------------
  // Badges

  lemma {:induction false} NameTotalSnoc(c: Cart, e: CartEntry, name: string)
    ensures NameTotal(c + [e], name)
         == NameTotal(c, name) + (if e.item.itemName == name then e.quantity else 0)
  {
    if |c| > 0 {
      assert (c + [e])[1..] == c[1..] + [e];
      NameTotalSnoc(c[1..], e, name);
    }
  }

  lemma {:induction false} NameTotalAbsent(c: Cart, name: string)
    requires name !in Names(c)
    ensures NameTotal(c, name) == 0
  {
    if |c| > 0 {
      assert c[0].item.itemName in Names(c);
      assert Names(c[1..]) <= Names(c) by {
        forall n | n in Names(c[1..]) ensures n in Names(c) {
          var i :| 0 <= i < |c[1..]| && c[1..][i].item.itemName == n;
          assert c[i + 1].item.itemName == n;
        }
      }
      NameTotalAbsent(c[1..], name);
    }
  }

  /** The badge map has one key per item name in the cart, and each badge
      is the sum of the quantities of all entries with that name, whatever
      their `_id`. */
  lemma {:induction false} BadgesCount(c: Cart)
    ensures Badges(c).Keys == Names(c)
    ensures forall n | n in Badges(c) :: Badges(c)[n] == NameTotal(c, n)
    decreases |c|
  {
    if |c| > 0 {
      var p, e := c[..|c| - 1], c[|c| - 1];
      assert c == p + [e];
      BadgesCount(p);
      forall n | n in Badges(c)
        ensures Badges(c)[n] == NameTotal(c, n)
      {
        NameTotalSnoc(p, e, n);
        if n == e.item.itemName && n !in Badges(p) {
          NameTotalAbsent(p, n);
        }
      }
    }
  }

  // ---------------------------------------------------------------------
  // Sequences of operations

  datatype CartOp = AddOp(item: MenuItem, quantity: int) | RemoveOp(id: Id) | ClearOp

  function Step(c: Cart, op: CartOp): Cart {
    match op
    case AddOp(item, q) => Add(c, item, q)
    case RemoveOp(id) => Remove(c, id)
    case ClearOp => Clear(c)
  }

  function Run(c: Cart, ops: seq<CartOp>): Cart
    decreases |ops|
  {
    if |ops| == 0 then c else Run(Step(c, ops[0]), ops[1..])
  }

  predicate PositiveAdds(ops: seq<CartOp>) {
    forall i | 0 <= i < |ops| :: ops[i].AddOp? ==> ops[i].quantity > 0
  }

  /** Any run of adds with positive quantities, removes and clears keeps a
      well-formed cart well-formed; in particular every cart reachable from
      the empty one has unique ids and positive quantities. */
  lemma {:induction false} RunPreservesWellFormed(c: Cart, ops: seq<CartOp>)
    requires WellFormed(c) && PositiveAdds(ops)
    ensures WellFormed(Run(c, ops))
    decreases |ops|
  {
    if |ops| > 0 {
      match ops[0] {
        case AddOp(item, q) => AddPreservesWellFormed(c, item, q);
        case RemoveOp(id) => RemovePreservesWellFormed(c, id);
        case ClearOp =>
      }
      RunPreservesWellFormed(Step(c, ops[0]), ops[1..]);
    }
  }
}
