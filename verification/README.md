# coffeeApp view logic in Dafny

This project models the business rules hidden inside the SwiftUI screens of
the coffeeApp storefront. Each screen's state becomes an immutable value and
each button handler or computed property becomes a pure function:

- **Cart** (`cart.dfy`). The cart lines, `subtotal` and `total` with the
  delivery fee, service fee and promo discount, `updateQuantity`,
  `removeItem`, the promo-code latch behind the Apply button, and the minus,
  plus and bin buttons of each cart card.
- **Menu** (`menu.dfy`). The `filteredItems` query: a category chip, a
  case-insensitive name search and one of five sort orders. It covers the
  English menu screen and its Turkish copy in `ContentView.swift`.
- **MenuCard** (`menu_card.dfy`). The add, minus and plus counter of a menu
  card.
- **Search** (`search.dfy`). The `filteredResults` text-and-kind filter and
  the recent-searches list: `performSearch`, the per-row delete, Clear, and
  the five rows shown.
- **Profile** (`profile.dfy`). The avatar `initials` and the Save button of
  the edit sheet. The copy of `UserProfile` and its edit sheet in
  `ContentView.swift` follow the same rules, so one model covers both.
- **Onboarding** (`onboarding.dfy`). The three-page carousel, its Next /
  Get Started button and swipes.

Two support modules come with these:

- `Seqs`: an order-preserving filter and the subsequence relation.
- `Text`: ASCII case folding, substring search, the ordering of `String <`
  and `components(separatedBy: " ")`.

Modelling choices:

- Prices are whole currency units, because every price in the app is a
  whole number. Ratings are integers in tenths.
- A list that the source keeps in `@State` is a `seq`, and each handler
  returns the new list.
- A `categories[selectedCategory]` lookup traps in Swift when the index is
  out of range. The model therefore requires the selected index to be 0 or
  in range (`Menu.ValidSelection`).
- `applyPromoCode` leaves `isPromoApplied` as it was when the code does not
  match.
- `sorted(by:)` is a stable sort. The model sorts by insertion, and
  `Menu.SortStable` proves that items the closure leaves tied keep their
  input order.
- `performSearch` drops exactly one entry when the list grows past ten. A
  list that was already longer than ten stays longer.

## Model

| member | source | states |
|---|---|---|
| Cart.Subtotal | coffeeApp/basket/CartView.swift:30-32 | The left fold of price × quantity over the lines. Lines with no negative price or quantity never sum to a negative subtotal. |
| Cart.Total | coffeeApp/basket/CartView.swift:26-48 | The total is never negative. It equals subtotal + delivery fee (on delivery) + service fee − promo discount (when applied), or zero when that sum is not positive. |
| Cart.DeliveryAddsFee | coffeeApp/basket/CartView.swift:34-48 | When the pickup total is not clamped, choosing delivery adds exactly the 15-unit delivery fee. |
| Cart.PromoLowersTotal | coffeeApp/basket/CartView.swift:34-48 | The promo never raises the total and lowers it by at most 10. It lowers it by exactly 10 when the total without the promo is at least 10. |
| Cart.EmptyPickupPromoIsFree | coffeeApp/basket/CartView.swift:34-48 | An empty pickup cart with the promo costs 0: 5 of service fee minus 10 of discount is clamped. |
| Cart.SeedTotals | coffeeApp/basket/CartView.swift:10-48 | The starting cart's subtotal is 194. Its totals are 199 for pickup and 214 for delivery, and 204 for delivery with the promo. |
| Cart.TwoLineTotals | coffeeApp/basket/CartView.swift:10-48 | Two Cappuccinos and one Americano: subtotal 89, pickup 94, delivery 109, delivery with COFFEE10 applied 99. |
| Cart.SubtotalConcat | coffeeApp/basket/CartView.swift:30-32 | The left fold over the lines is additive: the subtotal of `a + b` is the subtotal of `a` plus that of `b`. |
| Cart.SubtotalCons | coffeeApp/basket/CartView.swift:30-32 | The subtotal is also the first line's total plus the subtotal of the rest, so summing from either end gives the same amount. |
| Cart.SubtotalReplace | coffeeApp/basket/CartView.swift:30-32 | Replacing one line changes the subtotal by the new line total minus the old one. |
| Cart.FirstIndex | coffeeApp/basket/CartView.swift:304 | The result is -1 exactly when no line has the id. Otherwise it is a line with the id, and no earlier line has that id. |
| Cart.UpdateQuantity | coffeeApp/basket/CartView.swift:303-311 | An unknown id changes nothing. A positive quantity replaces the quantity of the first line with the id and leaves every other line as it was. Zero or less removes that one line. |
| Cart.SubtotalAfterUpdate | coffeeApp/basket/CartView.swift:303-311 | A positive update moves the subtotal by price × (new − old quantity) of that line. |
| Cart.RemoveItem | coffeeApp/basket/CartView.swift:313-315 | The result holds exactly the lines with another id, each as often as before and in the same order. No line with the id is left, and an absent id changes nothing. |
| Cart.SubtotalAfterRemove | coffeeApp/basket/CartView.swift:313-315 | The subtotal before removal is the subtotal after it plus the subtotal of the removed lines. |
| Cart.RemoveIdempotent | coffeeApp/basket/CartView.swift:313-315 | Removing an id twice is removing it once. |
| Cart.UpdateToZeroIsRemove | coffeeApp/basket/CartView.swift:303-315 | With unique ids, setting a quantity of zero or less is the same as removing the id. |
| Cart.UpdateKeepsIdsUnique | coffeeApp/basket/CartView.swift:303-315 | Updates and removals never create two lines with the same id. |
| Cart.ApplyPromoCode | coffeeApp/basket/CartView.swift:317-321 | The promo is applied afterwards exactly when it already was, or when the lower-cased code is `coffee10`. The lines, delivery option and code are unchanged. |
| Cart.PromoCodeCaseInsensitive | coffeeApp/basket/CartView.swift:317-321 | `COFFEE10`, `coffee10` and `Coffee10` are all accepted. Another word does not apply the promo. |
| Cart.ApplyPromoIdempotent | coffeeApp/basket/CartView.swift:156-164 | Applying the promo, or tapping Apply, twice has the same effect as doing it once. |
| Cart.TapApply | coffeeApp/basket/CartView.swift:156-164 | A disabled Apply button does nothing: it is disabled when the code is empty or the promo is already applied. Otherwise the tap applies the promo exactly when the code matches. The lines, delivery option and code are never changed. |
| Cart.TapCardKeepsPositive | coffeeApp/basket/CartView.swift:364-401 | One tap on a cart card's minus, plus or bin keeps every line's quantity at 1 or more. |
| Cart.TapCard | coffeeApp/basket/CartView.swift:364-401 | Minus at quantity 1 or less does nothing. Minus above 1 and plus from 0 or more set the first line with the card's id to one less or one more and leave every other line alone. The bin drops every line with the id and keeps every other line, as often as before and in order. |
| Cart.RunTapsKeepsPositive | coffeeApp/basket/CartView.swift:60-68 | Any sequence of card taps keeps every quantity at 1 or more. |
| Menu.Before | coffeeApp/menu/MenuView.swift:57-66 | The five `sorted(by:)` closures. Each is irreflexive: no item must precede itself. |
| Menu.BeforeNegativelyTransitive | coffeeApp/menu/MenuView.swift:57-66 | Each closure is a strict weak order: when `a` goes before `c`, every `b` goes after `a` or before `c`. |
| Menu.Insert | coffeeApp/menu/MenuView.swift:56-67 | Inserting into a list sorted for the option gives a sorted list with that one item added. |
| Menu.Sort | coffeeApp/menu/MenuView.swift:56-67 | `sorted(by:)`: the result is ordered for the option and is a permutation of the input. |
| Menu.SortStable | coffeeApp/menu/MenuView.swift:56-67 | The sort is stable: for each class of items the closure leaves tied, the output lists them in input order, each as often. |
| Menu.PopularSortKeepsInputOrder | coffeeApp/menu/MenuView.swift:57-58 | Popular-first gives the popular items in input order, then the other items in input order. |
| Menu.FilterCategory | coffeeApp/menu/MenuView.swift:45-48 | Chip 0 keeps everything. Any other chip keeps the items of that category, each as often as before. |
| Menu.FilterName | coffeeApp/menu/MenuView.swift:51-53 | Empty text keeps everything. Otherwise the filter keeps the items whose name contains the text, ignoring case. |
| Menu.FilteredItems | coffeeApp/menu/MenuView.swift:41-70 | Each item appears as often as in the catalogue when it passes both filters, and not at all otherwise. The result is ordered for the sort option. |
| Menu.QueryIsFilter | coffeeApp/menu/MenuView.swift:42-53 | The category filter followed by the name filter keeps, in catalogue order, exactly the items that pass both. |
| Menu.FilteredItemsStable | coffeeApp/menu/MenuView.swift:41-70 | Within each tie class of the sort option, the result lists the matching catalogue items in catalogue order. |
| Menu.SortedMeaning | coffeeApp/menu/MenuView.swift:56-67 | What each order means for two items in sorted output: popular items come before the rest; price ascending or descending; rating descending; names in character-code order, as `String <` compares, so every upper-case ASCII letter sorts before every lower-case one. |
| Menu.TurkishFilteredItems | coffeeApp/ContentView.swift:143-172 | The same query over the Turkish chips: with "Tümü" and no text it only reorders the catalogue, and any other chip keeps only its category. |
| Menu.UnfilteredQueryIsPermutation | coffeeApp/menu/MenuView.swift:41-70 | With "All" and no text the query is a permutation of the catalogue. |
| Menu.SortedIsUnique | coffeeApp/menu/MenuView.swift:56-67 | When the option orders every two different items, there is only one sorted arrangement of a multiset. |
| Menu.PriceSortsAreReverses | coffeeApp/menu/MenuView.swift:59-62 | With pairwise different prices, the price-descending result is the price-ascending result reversed. |
| MenuCard.Tap | coffeeApp/menu/MenuView.swift:234-268 | At 0 only the add button is shown and it sets 1. Plus adds one, minus subtracts one above zero, and a hidden button does nothing. |
| MenuCard.RunStaysInRange | coffeeApp/ContentView.swift:336-369 | However the buttons are tapped, the count stays at 0 or more. It grows by at most the number of taps. |
| MenuCard.AddPlusPlusMinus | coffeeApp/menu/MenuView.swift:234-268 | Add, plus, plus, minus on a fresh card leaves 2. |
| Search.TextFilter | coffeeApp/search/SearchView.swift:47-53 | Empty text keeps everything. Otherwise a result is kept when its title, subtitle or category contains the text, ignoring case, and the order is kept. |
| Search.KindFilter | coffeeApp/search/SearchView.swift:55-64 | `.all` keeps everything. Each other filter keeps exactly the results of its kind, in order. |
| Search.FilteredResults | coffeeApp/search/SearchView.swift:44-67 | The result is an in-order selection of the results. A result is in it exactly when it matches both the text and the kind filter, and it appears as often as before. |
| Search.PerformSearch | coffeeApp/search/SearchView.swift:242-249 | Empty or already listed text changes nothing. New text goes to the front with the old list after it, and the last entry is dropped when the list would exceed ten. |
| Search.PerformSearchKeepsOk | coffeeApp/search/SearchView.swift:242-249 | A list of at most ten distinct entries stays that way after a search. |
| Search.DeleteRecent | coffeeApp/search/SearchView.swift:151-152 | The row's delete removes every copy of that text and keeps every other entry, as often as before and in order. |
| Search.ClearRecent | coffeeApp/search/SearchView.swift:140 | Clear leaves no recent searches. |
| Search.DeleteKeepsOk | coffeeApp/search/SearchView.swift:139-152 | Deleting a row or clearing keeps the list short and free of duplicates. |
| Search.SearchThenDelete | coffeeApp/search/SearchView.swift:151-152 | Deleting a text right after searching it restores the list, when the list had room for it. |
| Search.DisplayedRecent | coffeeApp/search/SearchView.swift:147 | The rows shown are the first five entries, or all of them if there are fewer. |
| Search.SeedRecentOk | coffeeApp/search/SearchView.swift:12 | The starting list has five distinct entries and is shown whole. |
| Profile.Initials | coffeeApp/profile/ProfileView.swift:281-286 | At most two letters. An empty name gives none, and a name without a space gives at most one. |
| Profile.InitialsAreScanned | coffeeApp/profile/ProfileView.swift:281-286 | The initials equal the name's first character unless it is a space, plus the character after the last space if there is one, both upper-cased. |
| Profile.LastComponent | coffeeApp/profile/ProfileView.swift:282-284 | The last space-separated component is exactly the text after the last space: same length, same character at each position. |
| Profile.SecondComponentIffSpace | coffeeApp/profile/ProfileView.swift:282-284 | A name has more than one component exactly when it contains a space. |
| Profile.TrailingSpaceAddsNothing | coffeeApp/profile/ProfileView.swift:281-286 | A trailing space adds no second letter. |
| Profile.InitialsOfTwoParts | coffeeApp/profile/ProfileView.swift:281-286 | A name made of a word, a space and a word gives the first letters of the two words. |
| Profile.InitialsOfSeedName | coffeeApp/profile/ProfileView.swift:10 | "Burak Selcuk" gives "BS". |
| Profile.InitialsOfTurkishSeedName | coffeeApp/ContentView.swift:493 | "Ahmet Yılmaz" gives "AY". |
| Profile.InitialsOfWord | coffeeApp/profile/ProfileView.swift:281-286 | A non-empty name without a space gives exactly its first letter, upper-cased. |
| Profile.InitialsOfOneWord | coffeeApp/profile/ProfileView.swift:281-286 | "burak" gives "B", and so does "Burak ". |
| Profile.Save | coffeeApp/profile/ProfileView.swift:255-259 | Save copies the three edited fields and leaves membership level, order count, favourite store and join date alone. |
| Profile.SaveUneditedIsIdentity | coffeeApp/profile/ProfileView.swift:255-269 | The sheet opens with the current values, so saving it untouched changes nothing. |
| Profile.SaveTwice | coffeeApp/ContentView.swift:815-819 | A second save overrides the first completely. |
| Onboarding.Label | coffeeApp/onboarding/OnboardingView.swift:110 | The button reads "Next" exactly when the last page is not showing. On the last page it reads "Get Started". |
| Onboarding.TapNext | coffeeApp/onboarding/OnboardingView.swift:101-108 | Before the last page the button moves one page on. On the last page it stays and opens the sign-in sheet, and the page index stays on a page. |
| Onboarding.Step | coffeeApp/onboarding/OnboardingView.swift:37-130 | One event on the carousel keeps the index on a page. The sign-in flag becomes set only by the button on the last page, and a swipe lands on its page's tag. |
| Onboarding.RunStaysValid | coffeeApp/onboarding/OnboardingView.swift:37-130 | Whatever the taps and swipes, the page index stays one of the three pages. |
| Onboarding.SignInStays | coffeeApp/onboarding/OnboardingView.swift:101-108 | Once the sign-in sheet is requested, nothing on the carousel takes the request back. |
| Onboarding.ThreeTaps | coffeeApp/onboarding/OnboardingView.swift:15-34 | Two taps from the start reach the third page, labelled "Get Started", and a third tap opens sign-in. |
| Text.SplitJoin | coffeeApp/profile/ProfileView.swift:282 | Joining the components of `components(separatedBy: " ")` with single spaces gives back the name. |
| Text.SplitPartsHaveNoSpace | coffeeApp/profile/ProfileView.swift:282 | No component contains a space. |
| Text.CaseInsensitiveContains | coffeeApp/menu/MenuView.swift:52 | True exactly when the needle is not empty and occurs in the text with each character compared after ASCII lower-casing. |
| Text.Lower | coffeeApp/basket/CartView.swift:318 | `lowercased()` folds each character on its own: same length, each character lower-cased, and no upper-case ASCII letter left. |
| Text.LowerIdempotent | coffeeApp/basket/CartView.swift:318 | Lower-casing twice is lower-casing once. |
| Text.LexLessTransitive | coffeeApp/menu/MenuView.swift:66 | `String <` is transitive. |
| Text.LexLessTotal | coffeeApp/menu/MenuView.swift:66 | Any two different strings are ordered by `String <` one way or the other. |
| Text.UpperBeforeLower | coffeeApp/menu/MenuView.swift:66 | A name starting with an upper-case ASCII letter sorts before one starting with a lower-case letter. |
| Text.SplitSpaces | coffeeApp/profile/ProfileView.swift:282 | `components(separatedBy: " ")` always gives at least one piece, and the empty text gives the single empty piece. `Text.SplitJoin` and `Text.SplitPartsHaveNoSpace` give the rest. |
| Seqs.Filter | coffeeApp/menu/MenuView.swift:47-52 | `filter` and `removeAll(where:)`: the result holds exactly the elements that pass, as a subsequence of the input. `Seqs.FilterCount` gives the multiplicities. |
| Seqs.FilterCount | coffeeApp/basket/CartView.swift:314 | Each element that passes is kept as often as it occurs, and each other element is dropped. |
| Text.Contains | coffeeApp/menu/MenuView.swift:52 | Substring search is true exactly when the needle occurs at some position of the text. |

## Left out

- Layout, colours, fonts, animations, images and navigation are presentation only.
- The sign-in and sign-up forms, the home feed, the checkout, address and payment-method sheets, and the stub views in `ContentView.swift` are not part of this model. The cart's `selectedAddress` and `paymentMethod` state only feed those sheets.
- Swift's `Int` is 64-bit and traps on overflow, for example at `item.quantity + 1` (CartView.swift:400) and `quantity += 1` (MenuView.swift:267, ContentView.swift:369). Here `int` is unbounded and the overflow trap is not modelled, so `MenuCard.RunStaysInRange` and `Cart.RunTapsKeepsPositive` also cover tap runs on which the app would trap at `Int.max`.
- Prices and ratings are `Double` in Swift. The model uses whole units and tenths, because every value in the app is exact in those units. `String(format:)` display rounding is not modelled.
- `lowercased`, `uppercased` and `localizedCaseInsensitiveContains` fold only ASCII letters. Unicode and locale rules, such as the Turkish dotted and dotless I, are not modelled.
- String comparison (`==` at MenuView.swift:47, `contains` at SearchView.swift:243, `removeAll { $0 == search }` at SearchView.swift:152, and `<` at MenuView.swift:66) compares Unicode scalars without normalisation here, where Swift uses canonical equivalence. The two agree on ASCII text.
- `first` in `initials` is a grapheme cluster in Swift and a single scalar here. The two agree on ASCII names.
- An empty needle makes `localizedCaseInsensitiveContains` false, as Foundation's `range(of:)` does. Every call site guards with `isEmpty`, so this never decides an outcome.
- Menu.FilteredItems: requires a valid chip index, because the source traps on `categories[selectedCategory]` out of range.
- Onboarding.SignInStays: the carousel's events never clear the sign-in flag, but dismissing the sheet does (`.sheet(isPresented: $showSignIn)`, OnboardingView.swift:135), and the sign-up form sets it (SignUpView.swift:177). The sheets are not part of this model.
- Onboarding: a swipe is an event carrying the page tag. The page view's gesture handling and animations are not modelled.
- OnboardingPage: `backgroundImageName` is optional in Swift and a plain string here, because every page sets it.
- Search: `searchResults` is a constant table in the source. The filter is stated for any table, so the table itself is not copied.
- Menu: the `menuItems` catalogue and the English chip labels are not copied either; the query is stated for any catalogue and chip list.
