/** One menu card (components/MenuCard.jsx): a placeholder while the item
    loads, otherwise the name, the price with a struck-through marked-up
    price, and a button that hands the item with quantity 1 to the page. */
module MenuCard {
  import opened Common
  import opened Cart
  import MenuItems

  /** The amount the struck-through price adds to the real one. */
  const MarkUp: int := 10

  /** The quantity state of every card starts at, and is never changed. */
  const InitialQuantity: int := 1

  const UntitledName: string := "Untitled Item"

  /** `calculateMarkUpPrice(item)`. */
  function MarkUpPrice(item: MenuItem): (r: int)
    ensures r > item.price
    ensures r - item.price == MarkUp
  {
    item.price + MarkUp
  }

  datatype Button = Button(caption: string, disabled: bool, showsPlus: bool)

  datatype CardView =
    | Placeholder
    | Card(item: MenuItem, title: string, price: int, struckPrice: int, button: Button)

  /** `isAdded` as the page passes it; an absent prop is `false`. */
  function AddButton(isAdded: bool): (b: Button)
    ensures b.disabled == isAdded
    ensures b.showsPlus != b.disabled
    ensures b.caption == (if b.disabled then "Added" else "Add to cart")
  {
    if isAdded then Button("Added", true, false) else Button("Add to cart", false, true)
  }

  /** What the card shows for `item` (absent while loading). */
  function RenderCard(item: Option<MenuItem>, isAdded: bool): (v: CardView)
    ensures v.Placeholder? <==> item.None?
    ensures v.Card? ==> v.item == item.value && v.price == item.value.price
    ensures v.Card? ==> v.struckPrice > v.price
    ensures v.Card? ==> |v.title| > 0
    ensures v.Card? ==> v.button.disabled == isAdded
  {
    match item
    case None => Placeholder
    case Some(it) =>
      var title := if it.itemName == "" then UntitledName else it.itemName;
      Card(it, title, it.price, MarkUpPrice(it), AddButton(isAdded))
  }

  /** A loaded card shows the item's own price and, struck through, the
      marked-up price, whatever the state of its button. */
  lemma CardShowsMarkUp(item: MenuItem, isAdded: bool)
    ensures RenderCard(Some(item), isAdded).struckPrice == MarkUpPrice(item)
    ensures RenderCard(Some(item), isAdded).struckPrice - RenderCard(Some(item), isAdded).price == MarkUp
  {
  }

  /** Pressing the button: `onOrder(item, quantity)`, or nothing for a
      placeholder or a disabled button. */
  function Click(v: CardView): (r: Option<(MenuItem, int)>)
    ensures r.Some? <==> v.Card? && !v.button.disabled
    ensures r.Some? ==> r.value == (v.item, InitialQuantity)
  {
    if v.Card? && !v.button.disabled then Some((v.item, InitialQuantity)) else None
  }

  /** The menu page renders its cards without `isAdded`, so every loaded
      card's button is live and adds exactly one of its item. */
  lemma PageCardsAlwaysClickable(item: MenuItem)
    ensures Click(RenderCard(Some(item), false)) == Some((item, 1))
    ensures Click(RenderCard(Some(item), true)).None?
    ensures Click(RenderCard(None, false)).None?
  {
  }

  /** A click handed to `handleAddToOrder` keeps the page state good and
      raises the cart total by the item's unit price; an item new to the
      cart appears once, at the end, with quantity 1. */
  lemma ClickThenAdd(s: MenuItems.MenuState, selected: MenuItems.SelectedDate, item: MenuItem)
    requires MenuItems.Good(s)
    ensures var (it, q) := Click(RenderCard(Some(item), false)).value;
            var s' := MenuItems.AddToOrder(s, selected, it, q);
            && MenuItems.Good(s')
            && Total(s'.orderItems) == Total(s.orderItems) + UnitPrice(s.orderItems, item)
            && (!HasId(s.orderItems, item.id) ==> s'.orderItems == s.orderItems + [CartEntry(item, 1)])
  {
    AddPreservesWellFormed(s.orderItems, item, 1);
    AddTotal(s.orderItems, item, 1);
  }
}
