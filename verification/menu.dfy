/**
  The menu query of the menu screen (and of its Turkish-labelled copy in the
  app's root view file): filter the catalogue by category index and by
  case-insensitive name containment, then sort by one of five orderings.
  Prices are whole currency units and ratings are tenths of a star.
 */
module Menu {
  import opened Seqs
  import opened Text

  datatype MenuItem = MenuItem(
    id: int,
    name: string,
    category: string,
    price: int,
    description: string,
    isPopular: bool,
    rating: int,
    prepTime: string)

  datatype SortOption = Popular | PriceAsc | PriceDesc | Rating | Name

  /** Category chips of the Turkish copy of the menu screen. */
  const TurkishCategories: seq<string> := ["Tümü", "Kahve", "Soğuk İçecek", "Tatlı", "Atıştırmalık"]

  /** A category index the view can look up without trapping. */
  predicate ValidSelection(categories: seq<string>, selected: int)
  {
    selected == 0 || 0 <= selected < |categories|
  }

  /**
    The `areInIncreasingOrder` closure handed to `sorted(by:)` for each
    option: `Before(opt, a, b)` means `a` must be placed before `b`. Each
    closure is irreflexive, as `sorted(by:)` requires of it.
   */
  predicate Before(opt: SortOption, a: MenuItem, b: MenuItem): (r: bool)
    ensures r ==> a != b
  {
    match opt
    case Popular => a.isPopular && !b.isPopular
    case PriceAsc => a.price < b.price
    case PriceDesc => a.price > b.price
    case Rating => a.rating > b.rating
    case Name =>
      LexLessIrreflexive(a.name);
      LexLess(a.name, b.name)
  }

  /** No item is placed after one that must come before it. */
  ghost predicate SortedBy(opt: SortOption, s: seq<MenuItem>)
  {
    forall i, j :: 0 <= i < j < |s| ==> !Before(opt, s[j], s[i])
  }

  lemma BeforeTransitive(opt: SortOption, a: MenuItem, b: MenuItem, c: MenuItem)
    requires Before(opt, a, b) && Before(opt, b, c)
    ensures Before(opt, a, c)
  {
    if opt == Name {
      LexLessTransitive(a.name, b.name, c.name);
    }
  }

  lemma BeforeAsymmetric(opt: SortOption, a: MenuItem, b: MenuItem)
    ensures Before(opt, a, b) ==> !Before(opt, b, a)
  {
    if Before(opt, a, b) && Before(opt, b, a) {
      BeforeTransitive(opt, a, b, a);
    }
  }

  /**
    Every closure is a strict weak order: if `a` goes before `c`, any `b`
    goes after `a` or before `c`.
   */
  lemma BeforeNegativelyTransitive(opt: SortOption, a: MenuItem, b: MenuItem, c: MenuItem)
    requires Before(opt, a, c)
    ensures Before(opt, a, b) || Before(opt, b, c)
  {
    if opt == Name {
      LexLessTotal(a.name, b.name);
      LexLessTotal(b.name, c.name);
      if LexLess(b.name, a.name) {
        LexLessTransitive(b.name, a.name, c.name);
      } else if a.name == b.name {
      } else {
        LexLessIrreflexive(a.name);
      }
    }
  }

  /** Putting an item that nothing must precede in front of a sorted sequence keeps it sorted. */
  lemma ConsSorted(opt: SortOption, h: MenuItem, t: seq<MenuItem>)
    requires SortedBy(opt, t)
    requires forall j :: 0 <= j < |t| ==> !Before(opt, t[j], h)
    ensures SortedBy(opt, [h] + t)
  {
    var r := [h] + t;
    forall i, j | 0 <= i < j < |r|
      ensures !Before(opt, r[j], r[i])
    {
      assert r[j] == t[j - 1];
      if i > 0 {
        assert r[i] == t[i - 1];
      }
    }
  }

  /** When `x` may not go after `s[0]`, nothing in `s` must precede `x`. */
  lemma NothingBeforeNew(opt: SortOption, x: MenuItem, s: seq<MenuItem>)
    requires |s| > 0 && SortedBy(opt, s) && !Before(opt, s[0], x)
    ensures forall j :: 0 <= j < |s| ==> !Before(opt, s[j], x)
  {
    forall j | 0 < j < |s|
      ensures !Before(opt, s[j], x)
    {
      if Before(opt, s[j], x) {
        BeforeNegativelyTransitive(opt, s[j], s[0], x);
      }
    }
  }

  /** When `s[0]` goes before `x`, nothing in the rest with `x` added must precede `s[0]`. */
  lemma NothingBeforeHead(opt: SortOption, x: MenuItem, s: seq<MenuItem>, t: seq<MenuItem>)
    requires |s| > 0 && SortedBy(opt, s) && Before(opt, s[0], x)
    requires multiset(t) == multiset(s[1..]) + multiset{x}
    ensures forall j :: 0 <= j < |t| ==> !Before(opt, t[j], s[0])
  {
    BeforeAsymmetric(opt, s[0], x);
    forall j | 0 <= j < |t|
      ensures !Before(opt, t[j], s[0])
    {
      assert t[j] in multiset(t);
      if t[j] != x {
        assert t[j] in multiset(s[1..]);
        var k :| 0 <= k < |s[1..]| && s[1..][k] == t[j];
        assert s[k + 1] == t[j];
      }
    }
  }

  /** Inserts `x` into a sorted sequence, ahead of every item it may precede. */
  function Insert(opt: SortOption, x: MenuItem, s: seq<MenuItem>): (r: seq<MenuItem>)
    requires SortedBy(opt, s)
    ensures SortedBy(opt, r)
    ensures multiset(r) == multiset(s) + multiset{x}
    decreases |s|
  {
    if |s| == 0 then [x]
    else if !Before(opt, s[0], x) then
      NothingBeforeNew(opt, x, s);
      ConsSorted(opt, x, s);
      [x] + s
    else
      SortedTail(opt, s);
      var t := Insert(opt, x, s[1..]);
      NothingBeforeHead(opt, x, s, t);
      ConsSorted(opt, s[0], t);
      assert s == [s[0]] + s[1..];
      [s[0]] + t
  }

  /** `sorted(by:)`: some ordering of `s` that respects the option. */
  function Sort(opt: SortOption, s: seq<MenuItem>): (r: seq<MenuItem>)
    ensures SortedBy(opt, r)
    ensures multiset(r) == multiset(s)
    decreases |s|
  {
    if |s| == 0 then []
    else
      assert s == [s[0]] + s[1..];
      Insert(opt, s[0], Sort(opt, s[1..]))
  }

  /** The predicate of the category chip's `filter`. */
  function InCategory(categoryName: string): MenuItem -> bool
  {
    (x: MenuItem) => x.category == categoryName
  }

  /** The predicate of the search field's `filter`. */
  function NameHas(searchText: string): MenuItem -> bool
  {
    (x: MenuItem) => CaseInsensitiveContains(x.name, searchText)
  }

  /** Keeps the items of the selected category, or everything for index 0. */
  function FilterCategory(items: seq<MenuItem>, categories: seq<string>, selected: int): (r: seq<MenuItem>)
    requires ValidSelection(categories, selected)
    ensures forall x :: multiset(r)[x] ==
                        if selected == 0 || x.category == categories[selected] then multiset(items)[x] else 0
  {
    if selected == 0 then items
    else
      FilterCount(InCategory(categories[selected]), items);
      Filter(InCategory(categories[selected]), items)
  }

  /** Keeps the items whose name contains the search text, or everything when it is empty. */
  function FilterName(items: seq<MenuItem>, searchText: string): (r: seq<MenuItem>)
    ensures forall x :: multiset(r)[x] ==
                        if |searchText| == 0 || CaseInsensitiveContains(x.name, searchText)
                        then multiset(items)[x] else 0
  {
    if |searchText| == 0 then items
    else
      FilterCount(NameHas(searchText), items);
      Filter(NameHas(searchText), items)
  }

  /** The item survives both filters of the query. */
  predicate Matches(x: MenuItem, categories: seq<string>, selected: int, searchText: string)
    requires ValidSelection(categories, selected)
  {
    && (selected == 0 || x.category == categories[selected])
    && (|searchText| == 0 || CaseInsensitiveContains(x.name, searchText))
  }

  /** `Matches` as a filter predicate. */
  function MatchesQuery(categories: seq<string>, selected: int, searchText: string): MenuItem -> bool
    requires ValidSelection(categories, selected)
  {
    (x: MenuItem) => Matches(x, categories, selected, searchText)
  }

  /**
    `filteredItems`: the matching items, each as often as it occurs in the
    catalogue, in the order the sort option asks for.
   */
  function FilteredItems(
    catalogue: seq<MenuItem>, categories: seq<string>, selected: int,
    searchText: string, opt: SortOption): (r: seq<MenuItem>)
    requires ValidSelection(categories, selected)
    ensures forall x :: multiset(r)[x] ==
                        if Matches(x, categories, selected, searchText) then multiset(catalogue)[x] else 0
    ensures forall x :: x in r <==> x in catalogue && Matches(x, categories, selected, searchText)
    ensures SortedBy(opt, r)
  {
    var byCategory := FilterCategory(catalogue, categories, selected);
    var byName := FilterName(byCategory, searchText);
    var r := Sort(opt, byName);
    assert forall x :: x in r <==> x in multiset(r);
    r
  }

  /** The per-option reading of `SortedBy`, in terms of the sorted field. */
  lemma SortedMeaning(opt: SortOption, s: seq<MenuItem>, i: int, j: int)
    requires SortedBy(opt, s)
    requires 0 <= i < j < |s|
    ensures opt == Popular ==> s[i].isPopular || !s[j].isPopular
    ensures opt == PriceAsc ==> s[i].price <= s[j].price
    ensures opt == PriceDesc ==> s[i].price >= s[j].price
    ensures opt == Rating ==> s[i].rating >= s[j].rating
    ensures opt == Name ==> s[i].name == s[j].name || LexLess(s[i].name, s[j].name)
  {
    if opt == Name {
      LexLessTotal(s[i].name, s[j].name);
    }
  }

  /** The Turkish copy of the menu screen runs the same query over its own chips. */
  function TurkishFilteredItems(
    catalogue: seq<MenuItem>, selected: int, searchText: string, opt: SortOption): (r: seq<MenuItem>)
    requires ValidSelection(TurkishCategories, selected)
    ensures selected == 0 && |searchText| == 0 ==> multiset(r) == multiset(catalogue)
    ensures selected != 0 ==> forall x :: x in r ==> x.category == TurkishCategories[selected]
    ensures forall x :: x in r <==> x in catalogue && Matches(x, TurkishCategories, selected, searchText)
    ensures SortedBy(opt, r)
  {
    FilteredItems(catalogue, TurkishCategories, selected, searchText, opt)
  }

  /** With the "All" chip and no text, the query only reorders the catalogue. */
  lemma UnfilteredQueryIsPermutation(catalogue: seq<MenuItem>, categories: seq<string>, opt: SortOption)
    ensures multiset(FilteredItems(catalogue, categories, 0, "", opt)) == multiset(catalogue)
  {
  }

  /** No two items of `s` share a price. */
  ghost predicate DistinctPrices(s: seq<MenuItem>)
  {
    forall i, j :: 0 <= i < j < |s| ==> s[i].price != s[j].price
  }

  /** The option orders any two different items of the multiset. */
  ghost predicate OrdersAll(opt: SortOption, m: multiset<MenuItem>)
  {
    forall x, y :: x in m && y in m && x != y ==> Before(opt, x, y) || Before(opt, y, x)
  }

  /** Two sortings of the same items start with the same item. */
  lemma SortedSameHead(opt: SortOption, a: seq<MenuItem>, b: seq<MenuItem>)
    requires |a| > 0 && multiset(a) == multiset(b)
    requires SortedBy(opt, a) && SortedBy(opt, b)
    requires OrdersAll(opt, multiset(a))
    ensures |b| > 0 && a[0] == b[0]
  {
    assert a[0] in multiset(b);
    var k :| 0 <= k < |b| && b[k] == a[0];
    assert b[0] in multiset(a);
    var m :| 0 <= m < |a| && a[m] == b[0];
  }

  lemma SortedTail(opt: SortOption, a: seq<MenuItem>)
    requires |a| > 0 && SortedBy(opt, a)
    ensures SortedBy(opt, a[1..])
  {
    forall i, j | 0 <= i < j < |a[1..]|
      ensures !Before(opt, a[1..][j], a[1..][i])
    {
      assert a[1..][j] == a[j + 1] && a[1..][i] == a[i + 1];
    }
  }

  lemma OrdersAllSmaller(opt: SortOption, small: multiset<MenuItem>, big: multiset<MenuItem>)
    requires small <= big && OrdersAll(opt, big)
    ensures OrdersAll(opt, small)
  {
  }

  lemma SameTails(a: seq<MenuItem>, b: seq<MenuItem>)
    requires |a| > 0 && |b| > 0 && a[0] == b[0] && multiset(a) == multiset(b)
    ensures multiset(a[1..]) == multiset(b[1..]) && multiset(a[1..]) <= multiset(a)
  {
    HeadAndTail(a);
    HeadAndTail(b);
    assert multiset(a[1..]) == multiset(a) - multiset{a[0]};
    assert multiset(b[1..]) == multiset(b) - multiset{b[0]};
  }

  lemma HeadAndTail(s: seq<MenuItem>)
    requires |s| > 0
    ensures multiset(s) == multiset{s[0]} + multiset(s[1..])
  {
    assert s == [s[0]] + s[1..];
  }

  /**
    Sorting is determined by the multiset when the option orders any two
    different items of it.
   */
  lemma {:induction false} SortedIsUnique(opt: SortOption, a: seq<MenuItem>, b: seq<MenuItem>)
    requires multiset(a) == multiset(b)
    requires SortedBy(opt, a) && SortedBy(opt, b)
    requires OrdersAll(opt, multiset(a))
    ensures a == b
    decreases |a|
  {
    if |a| == 0 {
      assert |multiset(b)| == 0;
    } else {
      SortedSameHead(opt, a, b);
      var a', b' := a[1..], b[1..];
      SameTails(a, b);
      OrdersAllSmaller(opt, multiset(a'), multiset(a));
      SortedTail(opt, a);
      SortedTail(opt, b);
      SortedIsUnique(opt, a', b');
    }
  }

  /** Read backwards, an ascending price order is a descending one. */
  lemma ReversedAscendingIsDescending(asc: seq<MenuItem>)
    requires SortedBy(PriceAsc, asc)
    ensures SortedBy(PriceDesc, Reverse(asc))
  {
    var rev := Reverse(asc);
    forall i, j | 0 <= i < j < |rev|
      ensures !Before(PriceDesc, rev[j], rev[i])
    {
      assert rev[i] == asc[|asc| - 1 - i] && rev[j] == asc[|asc| - 1 - j];
    }
  }

  /** Pairwise different prices leave no tie for a price order to break. */
  lemma DistinctPricesAreOrdered(s: seq<MenuItem>)
    requires DistinctPrices(s)
    ensures OrdersAll(PriceDesc, multiset(s))
  {
    forall x, y | x in multiset(s) && y in multiset(s) && x != y
      ensures Before(PriceDesc, x, y) || Before(PriceDesc, y, x)
    {
      var i :| 0 <= i < |s| && s[i] == x;
      var j :| 0 <= j < |s| && s[j] == y;
      assert i != j;
      if i < j {
        assert x.price != y.price;
      } else {
        assert y.price != x.price;
      }
    }
  }

  /**
    On items with pairwise different prices, sorting by price descending
    yields exactly the reverse of sorting by price ascending.
   */
  lemma PriceSortsAreReverses(s: seq<MenuItem>)
    requires DistinctPrices(s)
    ensures Sort(PriceDesc, s) == Reverse(Sort(PriceAsc, s))
  {
    var asc := Sort(PriceAsc, s);
    var desc := Sort(PriceDesc, s);
    ReversedAscendingIsDescending(asc);
    DistinctPricesAreOrdered(s);
    SortedIsUnique(PriceDesc, desc, Reverse(asc));
  }

  // ---------------------------------------------------------------------
  // Stability: items the closure does not order keep their input order

  /** Neither item must precede the other, so the closure leaves them tied. */
  predicate Tied(opt: SortOption, a: MenuItem, b: MenuItem)
  {
    !Before(opt, a, b) && !Before(opt, b, a)
  }

  /** The tie class of `k` as a filter predicate. */
  function TiedWith(opt: SortOption, k: MenuItem): MenuItem -> bool
  {
    (x: MenuItem) => Tied(opt, x, k)
  }

  /**
    Within a tie class, inserting `x` puts it in front of the class members
    already there: every item it is moved past must precede it, so none is
    tied with it.
   */
  lemma {:induction false} InsertStable(opt: SortOption, k: MenuItem, x: MenuItem, t: seq<MenuItem>)
    requires SortedBy(opt, t)
    ensures Filter(TiedWith(opt, k), Insert(opt, x, t)) ==
            if Tied(opt, x, k) then [x] + Filter(TiedWith(opt, k), t) else Filter(TiedWith(opt, k), t)
    decreases |t|
  {
    var r := Insert(opt, x, t);
    if |t| == 0 {
      assert r == [x] && r[1..] == [];
    } else if !Before(opt, t[0], x) {
      assert r == [x] + t && r[1..] == t;
    } else {
      SortedTail(opt, t);
      InsertStable(opt, k, x, t[1..]);
      assert r == [t[0]] + Insert(opt, x, t[1..]);
      assert r[0] == t[0] && r[1..] == Insert(opt, x, t[1..]);
      BeforeNegativelyTransitive(opt, t[0], k, x);
    }
  }

  /**
    The sort is stable: for every tie class, the output lists the class's
    items in the order of the input, each as often.
   */
  lemma {:induction false} SortStable(opt: SortOption, k: MenuItem, s: seq<MenuItem>)
    ensures Filter(TiedWith(opt, k), Sort(opt, s)) == Filter(TiedWith(opt, k), s)
    decreases |s|
  {
    if |s| > 0 {
      SortStable(opt, k, s[1..]);
      InsertStable(opt, k, s[0], Sort(opt, s[1..]));
    }
  }

  /** The two filters of the query, one after the other, keep the matching items in catalogue order. */
  lemma QueryIsFilter(catalogue: seq<MenuItem>, categories: seq<string>, selected: int, searchText: string)
    requires ValidSelection(categories, selected)
    ensures FilterName(FilterCategory(catalogue, categories, selected), searchText) ==
            Filter(MatchesQuery(categories, selected, searchText), catalogue)
  {
    var m := MatchesQuery(categories, selected, searchText);
    if selected == 0 && |searchText| == 0 {
      FilterKeepsAll(m, catalogue);
    } else if selected == 0 {
      FilterExt(NameHas(searchText), m, catalogue);
    } else if |searchText| == 0 {
      FilterExt(InCategory(categories[selected]), m, catalogue);
    } else {
      FilterFilter(InCategory(categories[selected]), NameHas(searchText), m, catalogue);
    }
  }

  /**
    The query is stable: within each tie class of the sort option, the
    result lists the matching catalogue items in catalogue order.
   */
  lemma FilteredItemsStable(
    catalogue: seq<MenuItem>, categories: seq<string>, selected: int,
    searchText: string, opt: SortOption, k: MenuItem)
    requires ValidSelection(categories, selected)
    ensures Filter(TiedWith(opt, k), FilteredItems(catalogue, categories, selected, searchText, opt)) ==
            Filter(TiedWith(opt, k), Filter(MatchesQuery(categories, selected, searchText), catalogue))
  {
    QueryIsFilter(catalogue, categories, selected, searchText);
    SortStable(opt, k, FilterName(FilterCategory(catalogue, categories, selected), searchText));
  }

  /** Keeps the items whose popularity flag is `flag`. */
  function WithPopular(flag: bool): MenuItem -> bool
  {
    (x: MenuItem) => x.isPopular == flag
  }

  /** A list sorted popular-first is its popular items followed by the rest. */
  lemma {:induction false} PopularSplit(r: seq<MenuItem>)
    requires SortedBy(Popular, r)
    ensures r == Filter(WithPopular(true), r) + Filter(WithPopular(false), r)
    decreases |r|
  {
    if |r| > 0 {
      if r[0].isPopular {
        SortedTail(Popular, r);
        PopularSplit(r[1..]);
      } else {
        forall j | 0 <= j < |r|
          ensures !r[j].isPopular
        {
          if j > 0 {
            assert !Before(Popular, r[j], r[0]);
          }
        }
        FilterKeepsNone(WithPopular(true), r);
        FilterKeepsAll(WithPopular(false), r);
      }
    }
  }

  /** Under the popular-first closure, the tie class of `k` is the items as popular as `k`. */
  lemma PopularTieClass(k: MenuItem, s: seq<MenuItem>)
    ensures Filter(TiedWith(Popular, k), s) == Filter(WithPopular(k.isPopular), s)
  {
    assert forall x :: TiedWith(Popular, k)(x) == WithPopular(k.isPopular)(x);
    FilterExt(TiedWith(Popular, k), WithPopular(k.isPopular), s);
  }

  /**
    The popular-first order lists the popular items in input order, then
    the other items in input order.
   */
  lemma PopularSortKeepsInputOrder(s: seq<MenuItem>)
    ensures Sort(Popular, s) == Filter(WithPopular(true), s) + Filter(WithPopular(false), s)
  {
    var r := Sort(Popular, s);
    var yes := MenuItem(0, "", "", 0, "", true, 0, "");
    var no := yes.(isPopular := false);
    SortStable(Popular, yes, s);
    SortStable(Popular, no, s);
    PopularTieClass(yes, r);
    PopularTieClass(yes, s);
    PopularTieClass(no, r);
    PopularTieClass(no, s);
    PopularSplit(r);
  }
}
