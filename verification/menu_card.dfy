/**
  The quantity counter of a menu card (the same in the menu screen and in
  its Turkish copy). At zero the card shows a single add button; above zero
  it shows a minus button, the count and a plus button.
 */
module MenuCard {

  datatype CounterButton = Add | Decrement | Increment

  /** Which buttons the card shows for a given count. */
  predicate Visible(quantity: int, button: CounterButton)
  {
    if quantity == 0 then button == Add else button != Add
  }

  /** One tap; a button that is not shown cannot be tapped. */
  function Tap(quantity: int, button: CounterButton): (r: int)
    ensures quantity >= 0 ==> r >= 0
    ensures Visible(quantity, button) && button == Add ==> r == 1
    ensures Visible(quantity, button) && button == Increment ==> r == quantity + 1
    ensures Visible(quantity, button) && button == Decrement && quantity > 0 ==> r == quantity - 1
    ensures !Visible(quantity, button) ==> r == quantity
  {
    if !Visible(quantity, button) then quantity
    else match button
      case Add => 1
      case Decrement => if quantity > 0 then quantity - 1 else quantity
      case Increment => quantity + 1
  }

  function Run(quantity: int, taps: seq<CounterButton>): int
    decreases |taps|
  {
    if |taps| == 0 then quantity else Run(Tap(quantity, taps[0]), taps[1..])
  }

  /**
    However the buttons are tapped, the count never goes below zero and never
    grows by more than the number of taps.
   */
  lemma {:induction false} RunStaysInRange(quantity: int, taps: seq<CounterButton>)
    requires quantity >= 0
    ensures 0 <= Run(quantity, taps) <= quantity + |taps|
    decreases |taps|
  {
    if |taps| > 0 {
      RunStaysInRange(Tap(quantity, taps[0]), taps[1..]);
    }
  }

  /** From a fresh card, the add button then two pluses and a minus leave two. */
  lemma AddPlusPlusMinus()
    ensures Run(0, [Add, Increment, Increment, Decrement]) == 2
  {
  }
}
