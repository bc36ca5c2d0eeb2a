/**
  The cart screen's pricing engine: the list of cart lines, the quantity
  update and removal handlers, the promo-code latch and the total formula.
  Money is whole currency units.
 */
module Cart {
  import opened Seqs
  import opened Text

  datatype CartItem = CartItem(
    id: int,
    name: string,
    description: string,
    price: int,
    quantity: int,
    size: string,
    extras: seq<string>)

  datatype DeliveryOption = Pickup | Delivery

  /** The state of one cart screen; the other `@State` fields are display-only. */
  datatype Session = Session(
    items: seq<CartItem>,
    deliveryOption: DeliveryOption,
    promoCode: string,
    isPromoApplied: bool)

  const DeliveryFee: int := 15
  const ServiceFee: int := 5
  const PromoDiscount: int := 10

  /** The one promo code the cart recognises, compared after lower-casing. */
  const PromoCodeWord: string := "coffee10"

  function LineTotal(line: CartItem): int
  {
    line.price * line.quantity
  }

  /**
    `reduce(0)` over the lines, folding from the left as Swift does. Lines
    with no negative price or quantity never sum to a negative amount.
   */
  function Subtotal(items: seq<CartItem>): (r: int)
    ensures (forall k :: 0 <= k < |items| ==> items[k].price >= 0 && items[k].quantity >= 0) ==> r >= 0
    decreases |items|
  {
    if |items| == 0 then 0
    else Subtotal(items[..|items| - 1]) + LineTotal(items[|items| - 1])
  }

  /** The running total before the clamp at zero. */
  function Unclamped(subtotal: int, option: DeliveryOption, isPromoApplied: bool): int
  {
    subtotal
    + (if option == Delivery then DeliveryFee else 0)
    + ServiceFee
    - (if isPromoApplied then PromoDiscount else 0)
  }

  function Total(s: Session): (r: int)
    ensures r >= 0
    ensures r >= Unclamped(Subtotal(s.items), s.deliveryOption, s.isPromoApplied)
    ensures r == 0 || r == Unclamped(Subtotal(s.items), s.deliveryOption, s.isPromoApplied)
  {
    var total := Unclamped(Subtotal(s.items), s.deliveryOption, s.isPromoApplied);
    if total > 0 then total else 0
  }

  predicate HasId(items: seq<CartItem>, id: int)
  {
    exists k :: 0 <= k < |items| && items[k].id == id
  }

  /** Ids are unique, as `Identifiable` rows of a `ForEach` are meant to be. */
  predicate UniqueIds(items: seq<CartItem>)
  {
    forall i, j :: 0 <= i < j < |items| ==> items[i].id != items[j].id
  }

  /** `firstIndex(where: { $0.id == id })`. */
  function FirstIndex(items: seq<CartItem>, id: int): (r: int)
    ensures -1 <= r < |items|
    ensures r == -1 <==> !HasId(items, id)
    ensures r >= 0 ==> items[r].id == id && forall k :: 0 <= k < r ==> items[k].id != id
    decreases |items|
  {
    if |items| == 0 then -1
    else if items[0].id == id then 0
    else
      var k := FirstIndex(items[1..], id);
      assert HasId(items, id) ==> HasId(items[1..], id) by {
        if HasId(items, id) {
          var j :| 0 <= j < |items| && items[j].id == id;
          assert items[1..][j - 1].id == id;
        }
      }
      assert k >= 0 ==> items[k + 1] == items[1..][k];
      if k == -1 then -1 else k + 1
  }

  /** The `removeAll` predicate of `removeItem(id:)`, negated: the lines it keeps. */
  function OtherId(id: int): CartItem -> bool
  {
    (line: CartItem) => line.id != id
  }

  /** The lines `removeItem(id:)` drops. */
  function SameId(id: int): CartItem -> bool
  {
    (line: CartItem) => line.id == id
  }

  /**
    `removeItem(id:)`: drops every line with the id, keeping the order of
    the rest.
   */
  function RemoveItem(items: seq<CartItem>, id: int): (r: seq<CartItem>)
    ensures forall line :: line in r <==> line in items && line.id != id
    ensures forall line :: multiset(r)[line] == if line.id == id then 0 else multiset(items)[line]
    ensures SubseqOf(r, items)
    ensures !HasId(r, id)
    ensures !HasId(items, id) ==> r == items
  {
    var r := Filter(OtherId(id), items);
    FilterCount(OtherId(id), items);
    assert !HasId(items, id) ==> r == items by {
      if !HasId(items, id) {
        FilterKeepsAll(OtherId(id), items);
      }
    }
    r
  }

  /**
    `updateQuantity(for:quantity:)`: on the first line with the id, a
    positive quantity replaces that line's quantity and anything else
    removes the line; an unknown id changes nothing.
   */
  function UpdateQuantity(items: seq<CartItem>, id: int, quantity: int): (r: seq<CartItem>)
    ensures !HasId(items, id) ==> r == items
    ensures HasId(items, id) && quantity > 0 ==>
      var i := FirstIndex(items, id);
      && |r| == |items|
      && r[i] == items[i].(quantity := quantity)
      && forall k :: 0 <= k < |items| && k != i ==> r[k] == items[k]
    ensures HasId(items, id) && quantity <= 0 ==>
      var i := FirstIndex(items, id);
      r == items[..i] + items[i + 1..]
  {
    var i := FirstIndex(items, id);
    if i == -1 then items
    else if quantity > 0 then items[i := items[i].(quantity := quantity)]
    else items[..i] + items[i + 1..]
  }

  /**
    `applyPromoCode()`: latches the promo on when the lower-cased code is
    the promo word, and otherwise leaves the session as it was.
   */
  function ApplyPromoCode(s: Session): (r: Session)
    ensures r.isPromoApplied <==> s.isPromoApplied || Lower(s.promoCode) == PromoCodeWord
    ensures r.items == s.items && r.deliveryOption == s.deliveryOption && r.promoCode == s.promoCode
  {
    if Lower(s.promoCode) == PromoCodeWord then s.(isPromoApplied := true) else s
  }

  /** The Apply button's `.disabled(promoCode.isEmpty || isPromoApplied)`, negated. */
  predicate ApplyEnabled(s: Session)
  {
    |s.promoCode| > 0 && !s.isPromoApplied
  }

  /** A tap on the Apply button, which does nothing while the button is disabled. */
  function TapApply(s: Session): (r: Session)
    ensures s.isPromoApplied ==> r == s
    ensures |s.promoCode| == 0 ==> r == s
    ensures r.isPromoApplied <==> s.isPromoApplied || Lower(s.promoCode) == PromoCodeWord
    ensures r.items == s.items && r.deliveryOption == s.deliveryOption && r.promoCode == s.promoCode
  {
    if ApplyEnabled(s) then ApplyPromoCode(s) else s
  }

  /** What the controls of one `CartItemCard` report back to the cart. */
  datatype CardAction = Minus | Plus | Trash

  /**
    One tap on the card showing line `k`: minus reports `quantity - 1` only
    above 1, plus reports `quantity + 1`, the bin removes the line's id.
   */
  function TapCard(items: seq<CartItem>, k: int, action: CardAction): (r: seq<CartItem>)
    requires 0 <= k < |items|
    ensures action == Minus && items[k].quantity <= 1 ==> r == items
    ensures (action == Minus && items[k].quantity > 1) || (action == Plus && items[k].quantity >= 0) ==>
      var i := FirstIndex(items, items[k].id);
      && |r| == |items|
      && r[i] == items[i].(quantity := if action == Minus then items[k].quantity - 1 else items[k].quantity + 1)
      && forall j :: 0 <= j < |items| && j != i ==> r[j] == items[j]
    ensures action == Trash ==> !HasId(r, items[k].id) && SubseqOf(r, items)
    ensures action == Trash ==>
      forall line :: multiset(r)[line] == if line.id == items[k].id then 0 else multiset(items)[line]
  {
    var line := items[k];
    assert HasId(items, line.id);
    match action
    case Minus => if line.quantity > 1 then UpdateQuantity(items, line.id, line.quantity - 1) else items
    case Plus => UpdateQuantity(items, line.id, line.quantity + 1)
    case Trash => RemoveItem(items, line.id)
  }

  predicate AllPositive(items: seq<CartItem>)
  {
    forall k :: 0 <= k < |items| ==> items[k].quantity >= 1
  }

  /** A tap on one card of the list; a card that is not on screen cannot be tapped. */
  datatype CardTap = CardTap(line: int, action: CardAction)

  function RunTaps(items: seq<CartItem>, taps: seq<CardTap>): seq<CartItem>
    decreases |taps|
  {
    if |taps| == 0 then items
    else
      var t := taps[0];
      var next := if 0 <= t.line < |items| then TapCard(items, t.line, t.action) else items;
      RunTaps(next, taps[1..])
  }

  // ---------------------------------------------------------------------
  // Pricing

  /** The subtotal of two carts laid end to end is the sum of their subtotals. */
  lemma {:induction false} SubtotalConcat(a: seq<CartItem>, b: seq<CartItem>)
    ensures Subtotal(a + b) == Subtotal(a) + Subtotal(b)
    decreases |b|
  {
    if |b| > 0 {
      var b' := b[..|b| - 1];
      assert (a + b)[..|a + b| - 1] == a + b';
      SubtotalConcat(a, b');
    } else {
      assert a + b == a;
    }
  }

  /** The subtotal is the sum over the lines, whichever end the sum starts from. */
  lemma SubtotalCons(x: CartItem, s: seq<CartItem>)
    ensures Subtotal([x] + s) == LineTotal(x) + Subtotal(s)
  {
    SubtotalConcat([x], s);
    assert [x][..0] == [];
  }

  /** Replacing one line changes the subtotal by the difference of the two lines. */
  lemma SubtotalReplace(items: seq<CartItem>, i: int, x: CartItem)
    requires 0 <= i < |items|
    ensures Subtotal(items[i := x]) == Subtotal(items) - LineTotal(items[i]) + LineTotal(x)
  {
    var pre, post := items[..i], items[i + 1..];
    assert items == pre + ([items[i]] + post);
    assert items[i := x] == pre + ([x] + post);
    SubtotalConcat(pre, [items[i]] + post);
    SubtotalConcat(pre, [x] + post);
    SubtotalCons(items[i], post);
    SubtotalCons(x, post);
  }

  /** Changing one line's quantity changes the subtotal by that line's difference. */
  lemma SubtotalAfterUpdate(items: seq<CartItem>, id: int, quantity: int)
    requires HasId(items, id) && quantity > 0
    ensures var line := items[FirstIndex(items, id)];
            Subtotal(UpdateQuantity(items, id, quantity))
            == Subtotal(items) - line.price * line.quantity + line.price * quantity
  {
    var i := FirstIndex(items, id);
    SubtotalReplace(items, i, items[i].(quantity := quantity));
  }

  /** The lines `removeItem` drops account for exactly the subtotal it loses. */
  lemma {:induction false} SubtotalAfterRemove(items: seq<CartItem>, id: int)
    ensures Subtotal(items)
            == Subtotal(RemoveItem(items, id)) + Subtotal(Filter(SameId(id), items))
    decreases |items|
  {
    if |items| > 0 {
      var x := items[0];
      var rest := items[1..];
      var kept, dropped := Filter(OtherId(id), rest), Filter(SameId(id), rest);
      SubtotalAfterRemove(rest, id);
      assert items[1..] == rest;
      SubtotalCons(x, rest);
      assert Subtotal(items) == LineTotal(x) + Subtotal(kept) + Subtotal(dropped) by {
        assert items == [x] + rest;
      }
      if x.id == id {
        assert Filter(OtherId(id), items) == kept;
        assert Filter(SameId(id), items) == [x] + dropped;
        SubtotalCons(x, dropped);
      } else {
        assert Filter(OtherId(id), items) == [x] + kept;
        assert Filter(SameId(id), items) == dropped;
        SubtotalCons(x, kept);
      }
    }
  }

  /** The total with delivery is the pickup total plus the delivery fee. */
  lemma DeliveryAddsFee(s: Session)
    requires Unclamped(Subtotal(s.items), Pickup, s.isPromoApplied) >= 0
    ensures Total(s.(deliveryOption := Delivery)) == Total(s.(deliveryOption := Pickup)) + DeliveryFee
  {
  }

  /** The promo lowers the total by the discount, or to zero if that is less. */
  lemma PromoLowersTotal(s: Session)
    ensures var before := Total(s.(isPromoApplied := false));
            var after := Total(s.(isPromoApplied := true));
            after <= before && before - after <= PromoDiscount
            && (before >= PromoDiscount ==> after == before - PromoDiscount)
  {
  }

  /** An empty pickup cart with the promo applied costs nothing. */
  lemma EmptyPickupPromoIsFree(code: string)
    ensures Total(Session([], Pickup, code, true)) == 0
  {
  }

  /** The cart the screen starts with. */
  const SeedItems: seq<CartItem> := [
    CartItem(1, "Cappuccino", "Espresso, steamed milk and milk foam", 32, 2, "Medium", ["Extra Shot", "Dairy-Free"]),
    CartItem(2, "Americano", "Simple espresso and hot water", 25, 1, "Large", []),
    CartItem(3, "Tiramisu", "Traditional Italian dessert", 45, 1, "Regular", ["Extra Cocoa"]),
    CartItem(4, "Cold Brew", "12-hour steeped cold coffee", 30, 2, "Medium", ["Vanilla Syrup"])
  ]

  lemma SeedTotals()
    ensures Subtotal(SeedItems) == 194
    ensures Total(Session(SeedItems, Pickup, "", false)) == 199
    ensures Total(Session(SeedItems, Delivery, "", false)) == 214
    ensures Total(Session(SeedItems, Delivery, "COFFEE10", true)) == 204
  {
    SeedSubtotals();
  }

  lemma SeedSubtotals()
    ensures Subtotal(SeedItems[..2]) == 89
    ensures Subtotal(SeedItems) == 194
  {
    var s := SeedItems;
    assert s[..1][..0] == [];
    assert Subtotal(s[..1]) == 64;
    assert s[..2][..1] == s[..1];
    assert Subtotal(s[..2]) == 89;
    assert s[..3][..2] == s[..2];
    assert Subtotal(s[..3]) == 134;
    assert s[..4][..3] == s[..3];
    assert s[..4] == s;
  }

  /** Cappuccino x2 and one Americano: 89, then 94, 109 with delivery, 99 with the promo. */
  lemma TwoLineTotals()
    ensures var items := SeedItems[..2];
            && Subtotal(items) == 89
            && Total(Session(items, Pickup, "", false)) == 94
            && Total(Session(items, Delivery, "", false)) == 109
            && Total(ApplyPromoCode(Session(items, Delivery, "COFFEE10", false))) == 99
  {
    SeedSubtotals();
    assert Lower("COFFEE10") == PromoCodeWord;
  }

  // ---------------------------------------------------------------------
  // Line updates

  /** No line after the first one with an id carries that id again, when ids are unique. */
  lemma NoIdAfterFirst(items: seq<CartItem>, id: int)
    requires UniqueIds(items)
    requires HasId(items, id)
    ensures forall x :: x in items[FirstIndex(items, id) + 1..] ==> x.id != id
  {
    var i := FirstIndex(items, id);
    forall x | x in items[i + 1..]
      ensures x.id != id
    {
      var k :| 0 <= k < |items[i + 1..]| && items[i + 1..][k] == x;
      assert items[i + 1 + k] == x;
    }
  }

  /** With unique ids, setting a quantity of zero or less is removing the line. */
  lemma UpdateToZeroIsRemove(items: seq<CartItem>, id: int, quantity: int)
    requires UniqueIds(items)
    requires quantity <= 0
    ensures UpdateQuantity(items, id, quantity) == RemoveItem(items, id)
  {
    var p := OtherId(id);
    var i := FirstIndex(items, id);
    if i >= 0 {
      var pre, post := items[..i], items[i + 1..];
      assert items == pre + ([items[i]] + post);
      FilterConcat(p, pre, [items[i]] + post);
      FilterConcat(p, [items[i]], post);
      assert Filter(p, [items[i]]) == [];
      FilterKeepsAll(p, pre);
      NoIdAfterFirst(items, id);
      FilterKeepsAll(p, post);
      assert Filter(p, items) == pre + post;
    }
  }

  /** Removing the same id twice is removing it once. */
  lemma RemoveIdempotent(items: seq<CartItem>, id: int)
    ensures RemoveItem(RemoveItem(items, id), id) == RemoveItem(items, id)
  {
  }

  /** Dropping elements keeps ids unique. */
  lemma {:induction false} SubseqKeepsIdsUnique(r: seq<CartItem>, s: seq<CartItem>)
    requires SubseqOf(r, s)
    requires UniqueIds(s)
    ensures UniqueIds(r)
    decreases |s|
  {
    if |r| > 0 {
      assert UniqueIds(s[1..]);
      if r[0] == s[0] && SubseqOf(r[1..], s[1..]) {
        SubseqKeepsIdsUnique(r[1..], s[1..]);
        SubseqMembers(r[1..], s[1..]);
        forall j | 0 < j < |r|
          ensures r[0].id != r[j].id
        {
          assert r[j] in r[1..];
          var m :| 0 <= m < |s[1..]| && s[1..][m] == r[j];
          assert s[m + 1] == r[j];
        }
        assert forall k :: 0 < k < |r| ==> r[k] == r[1..][k - 1];
      } else {
        SubseqKeepsIdsUnique(r, s[1..]);
      }
    }
  }

  /** Quantity updates and removals never create a second line with the same id. */
  lemma UpdateKeepsIdsUnique(items: seq<CartItem>, id: int, quantity: int)
    requires UniqueIds(items)
    ensures UniqueIds(UpdateQuantity(items, id, quantity))
    ensures UniqueIds(RemoveItem(items, id))
  {
    SubseqKeepsIdsUnique(RemoveItem(items, id), items);
    if quantity <= 0 {
      UpdateToZeroIsRemove(items, id, quantity);
    }
  }

  // ---------------------------------------------------------------------
  // Promo code

  /** The promo is recognised whatever the case of the letters typed. */
  lemma PromoCodeCaseInsensitive(s: Session)
    ensures ApplyPromoCode(s.(promoCode := "COFFEE10")).isPromoApplied
    ensures ApplyPromoCode(s.(promoCode := "coffee10")).isPromoApplied
    ensures ApplyPromoCode(s.(promoCode := "Coffee10")).isPromoApplied
    ensures !s.isPromoApplied ==> !ApplyPromoCode(s.(promoCode := "bogus")).isPromoApplied
  {
    assert Lower("COFFEE10") == PromoCodeWord;
    assert Lower("coffee10") == PromoCodeWord;
    assert Lower("Coffee10") == PromoCodeWord;
    assert Lower("bogus")[0] == 'b';
  }

  /** Applying the code twice is applying it once. */
  lemma ApplyPromoIdempotent(s: Session)
    ensures ApplyPromoCode(ApplyPromoCode(s)) == ApplyPromoCode(s)
    ensures TapApply(TapApply(s)) == TapApply(s)
  {
  }

  // ---------------------------------------------------------------------
  // Quantities through the card controls

  /** One card tap keeps every quantity at one or more. */
  lemma TapCardKeepsPositive(items: seq<CartItem>, k: int, action: CardAction)
    requires AllPositive(items)
    requires 0 <= k < |items|
    ensures AllPositive(TapCard(items, k, action))
  {
    var r := TapCard(items, k, action);
    if action == Trash {
      SubseqMembers(r, items);
      forall j | 0 <= j < |r|
        ensures r[j].quantity >= 1
      {
        assert r[j] in items;
      }
    } else if action == Plus || items[k].quantity > 1 {
      var i := FirstIndex(items, items[k].id);
      forall j | 0 <= j < |r|
        ensures r[j].quantity >= 1
      {
        if j != i {
          assert r[j] == items[j];
        }
      }
    }
  }

  /** Any run of card taps keeps every quantity at one or more. */
  lemma {:induction false} RunTapsKeepsPositive(items: seq<CartItem>, taps: seq<CardTap>)
    requires AllPositive(items)
    ensures AllPositive(RunTaps(items, taps))
    decreases |taps|
  {
    if |taps| > 0 {
      var t := taps[0];
      if 0 <= t.line < |items| {
        TapCardKeepsPositive(items, t.line, t.action);
        RunTapsKeepsPositive(TapCard(items, t.line, t.action), taps[1..]);
      } else {
        RunTapsKeepsPositive(items, taps[1..]);
      }
    }
  }
}
