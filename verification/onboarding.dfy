/**
  The onboarding carousel: a page index over the three onboarding pages,
  moved by the Next button or by swiping, and a Get Started button on the
  last page that opens the sign-in sheet.
 */
module Onboarding {

  datatype OnboardingPage = OnboardingPage(
    title: string,
    subtitle: string,
    imageName: string,
    backgroundImageName: string)

  const Pages: seq<OnboardingPage> := [
    OnboardingPage("Coffee Break", "ENJOY YOUR DAY\nWITH COFFEE", "cup.and.saucer.fill", "coffee_background_1"),
    OnboardingPage("Premium Quality", "TASTE THE BEST\nCOFFEE EXPERIENCE", "leaf.fill", "coffee_background_2"),
    OnboardingPage("Fast Delivery", "GET YOUR COFFEE\nIN MINUTES", "bicycle", "coffee_background_3")
  ]

  datatype Pager = Pager(currentPage: int, showSignIn: bool)

  const Start: Pager := Pager(0, false)

  /** What the user can do on the carousel. */
  datatype PagerEvent = TapButton | Swipe(page: int)

  /** The page index names one of the pages. */
  predicate Valid(p: Pager)
  {
    0 <= p.currentPage < |Pages|
  }

  predicate OnLastPage(p: Pager)
  {
    p.currentPage >= |Pages| - 1
  }

  /** The button's caption. */
  function Label(p: Pager): (r: string)
    ensures r == "Next" <==> !OnLastPage(p)
    ensures OnLastPage(p) ==> r == "Get Started"
  {
    if p.currentPage < |Pages| - 1 then "Next" else "Get Started"
  }

  /**
    The button's action: before the last page it moves one page on, on the
    last page it opens the sign-in sheet and stays put.
   */
  function TapNext(p: Pager): (r: Pager)
    ensures !OnLastPage(p) ==> r.currentPage == p.currentPage + 1 && r.showSignIn == p.showSignIn
    ensures OnLastPage(p) ==> r.currentPage == p.currentPage && r.showSignIn
    ensures Valid(p) ==> Valid(r)
  {
    if p.currentPage < |Pages| - 1 then p.(currentPage := p.currentPage + 1)
    else p.(showSignIn := true)
  }

  /** The page view's selection binding: a swipe can only land on one of the page tags. */
  function Step(p: Pager, e: PagerEvent): (r: Pager)
    ensures Valid(p) ==> Valid(r)
    ensures r.showSignIn <==> p.showSignIn || (e == TapButton && OnLastPage(p))
    ensures e.Swipe? && 0 <= e.page < |Pages| ==> r.currentPage == e.page
    ensures e.Swipe? && !(0 <= e.page < |Pages|) ==> r == p
  {
    match e
    case TapButton => TapNext(p)
    case Swipe(page) => if 0 <= page < |Pages| then p.(currentPage := page) else p
  }

  function Run(p: Pager, events: seq<PagerEvent>): Pager
    decreases |events|
  {
    if |events| == 0 then p else Run(Step(p, events[0]), events[1..])
  }

  /** From the start, the page index stays on a page whatever the user does. */
  lemma {:induction false} RunStaysValid(p: Pager, events: seq<PagerEvent>)
    requires Valid(p)
    ensures Valid(Run(p, events))
    decreases |events|
  {
    if |events| > 0 {
      RunStaysValid(Step(p, events[0]), events[1..]);
    }
  }

  /** Once the sign-in sheet has been asked for, nothing on the carousel takes it back. */
  lemma {:induction false} SignInStays(p: Pager, events: seq<PagerEvent>)
    requires p.showSignIn
    ensures Run(p, events).showSignIn
    decreases |events|
  {
    if |events| > 0 {
      SignInStays(Step(p, events[0]), events[1..]);
    }
  }

  /** Three taps from the start: two page turns, then the sign-in sheet. */
  lemma ThreeTaps()
    ensures Run(Start, [TapButton, TapButton]) == Pager(2, false)
    ensures Label(Run(Start, [TapButton, TapButton])) == "Get Started"
    ensures Run(Start, [TapButton, TapButton, TapButton]) == Pager(2, true)
  {
  }
}
