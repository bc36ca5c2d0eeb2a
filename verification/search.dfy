/**
  The search screen: the result filter (free text over title, subtitle and
  category, then a result-kind filter) and the list of recent searches,
  which behaves as a most-recently-used list of at most ten entries of
  which the first five are shown.
 */
module Search {
  import opened Seqs
  import opened Text

  datatype ResultKind = Product | Category | Store

  datatype SearchResult = SearchResult(
    id: int,
    title: string,
    subtitle: string,
    kind: ResultKind,
    category: string,
    price: int,
    rating: int,
    prepTime: string)

  datatype SearchFilter = All | Products | Categories | Stores

  /** The text part of `filteredResults`: empty text matches everything. */
  predicate MatchesText(x: SearchResult, text: string)
  {
    || |text| == 0
    || CaseInsensitiveContains(x.title, text)
    || CaseInsensitiveContains(x.subtitle, text)
    || CaseInsensitiveContains(x.category, text)
  }

  /** The kind part of `filteredResults`. */
  predicate MatchesFilter(x: SearchResult, filter: SearchFilter)
  {
    match filter
    case All => true
    case Products => x.kind == Product
    case Categories => x.kind == Category
    case Stores => x.kind == Store
  }

  function TextFilter(results: seq<SearchResult>, text: string): (r: seq<SearchResult>)
    ensures SubseqOf(r, results)
    ensures forall x :: multiset(r)[x] == if MatchesText(x, text) then multiset(results)[x] else 0
  {
    if |text| == 0 then
      assert SubseqOf(results, results) by { FilterKeepsAll((x: SearchResult) => true, results); }
      results
    else
      var p := (x: SearchResult) =>
                 || CaseInsensitiveContains(x.title, text)
                 || CaseInsensitiveContains(x.subtitle, text)
                 || CaseInsensitiveContains(x.category, text);
      FilterCount(p, results);
      Filter(p, results)
  }

  function KindFilter(results: seq<SearchResult>, filter: SearchFilter): (r: seq<SearchResult>)
    ensures SubseqOf(r, results)
    ensures forall x :: multiset(r)[x] == if MatchesFilter(x, filter) then multiset(results)[x] else 0
  {
    match filter
    case All =>
      assert SubseqOf(results, results) by { FilterKeepsAll((x: SearchResult) => true, results); }
      results
    case Products => KeepKind(results, Product)
    case Categories => KeepKind(results, Category)
    case Stores => KeepKind(results, Store)
  }

  function KeepKind(results: seq<SearchResult>, kind: ResultKind): (r: seq<SearchResult>)
    ensures SubseqOf(r, results)
    ensures forall x :: multiset(r)[x] == if x.kind == kind then multiset(results)[x] else 0
  {
    var p := (x: SearchResult) => x.kind == kind;
    FilterCount(p, results);
    Filter(p, results)
  }

  /**
    `filteredResults`: the results that match both the text and the kind
    filter, in their original order and with nothing reordered.
   */
  function FilteredResults(results: seq<SearchResult>, text: string, filter: SearchFilter): (r: seq<SearchResult>)
    ensures SubseqOf(r, results)
    ensures forall x :: multiset(r)[x] ==
                        if MatchesText(x, text) && MatchesFilter(x, filter) then multiset(results)[x] else 0
    ensures forall x :: x in r <==> x in results && MatchesText(x, text) && MatchesFilter(x, filter)
  {
    var byText := TextFilter(results, text);
    var r := KindFilter(byText, filter);
    SubseqTransitive(r, byText, results);
    assert forall x :: x in r <==> x in multiset(r);
    r
  }

  // ---------------------------------------------------------------------
  // Recent searches

  const MaxRecent: nat := 10
  const ShownRecent: nat := 5

  predicate NoDuplicates(s: seq<string>)
  {
    forall i, j :: 0 <= i < j < |s| ==> s[i] != s[j]
  }

  /** What the list keeps true when it starts out true. */
  predicate RecentOk(recent: seq<string>)
  {
    |recent| <= MaxRecent && NoDuplicates(recent)
  }

  /** The list the screen starts with. */
  const SeedRecent: seq<string> := ["Cappuccino", "Latte", "Tiramisu", "Cold Brew", "Americano"]

  /**
    `performSearch()`: a new, non-empty text goes to the front, and if the
    list then holds more than ten entries the last one is dropped. Empty or
    already listed text (compared exactly) changes nothing.
   */
  function PerformSearch(recent: seq<string>, text: string): (r: seq<string>)
    ensures |text| == 0 || text in recent ==> r == recent
    ensures |text| > 0 && text !in recent ==>
              && |r| == (if |recent| + 1 > MaxRecent then |recent| else |recent| + 1)
              && r[0] == text
              && r[1..] == recent[..|r| - 1]
    ensures |text| > 0 ==> text in r
  {
    if |text| > 0 && text !in recent then
      var inserted := [text] + recent;
      if |inserted| > MaxRecent then inserted[..|inserted| - 1] else inserted
    else recent
  }

  /** The delete button of one recent row: removes every copy of that text. */
  function DeleteRecent(recent: seq<string>, search: string): (r: seq<string>)
    ensures search !in r
    ensures forall x :: x in r <==> x in recent && x != search
    ensures SubseqOf(r, recent)
    ensures forall x :: multiset(r)[x] == if x == search then 0 else multiset(recent)[x]
  {
    var keep := (x: string) => x != search;
    FilterCount(keep, recent);
    Filter(keep, recent)
  }

  /** The Clear button. */
  function ClearRecent(recent: seq<string>): (r: seq<string>)
    ensures |r| == 0
  {
    []
  }

  /** `recentSearches.prefix(5)`: the rows on screen. */
  function DisplayedRecent(recent: seq<string>): (r: seq<string>)
    ensures |r| == if |recent| < ShownRecent then |recent| else ShownRecent
    ensures r <= recent
  {
    if |recent| < ShownRecent then recent else recent[..ShownRecent]
  }

  /** Searching keeps the list short and free of duplicates. */
  lemma PerformSearchKeepsOk(recent: seq<string>, text: string)
    requires RecentOk(recent)
    ensures RecentOk(PerformSearch(recent, text))
  {
    var r := PerformSearch(recent, text);
    if |text| > 0 && text !in recent {
      forall i, j | 0 <= i < j < |r|
        ensures r[i] != r[j]
      {
        if i == 0 {
          assert r[j] == recent[j - 1];
        } else {
          assert r[i] == recent[i - 1] && r[j] == recent[j - 1];
        }
      }
    }
  }

  /** A subsequence of a duplicate-free list is duplicate-free. */
  lemma {:induction false} SubseqNoDuplicates(r: seq<string>, s: seq<string>)
    requires SubseqOf(r, s) && NoDuplicates(s)
    ensures NoDuplicates(r)
    ensures |r| <= |s|
    decreases |s|
  {
    if |r| > 0 {
      assert NoDuplicates(s[1..]);
      if r[0] == s[0] && SubseqOf(r[1..], s[1..]) {
        SubseqNoDuplicates(r[1..], s[1..]);
        SubseqMembers(r[1..], s[1..]);
        forall j | 0 < j < |r|
          ensures r[0] != r[j]
        {
          assert r[j] in r[1..];
          var m :| 0 <= m < |s[1..]| && s[1..][m] == r[j];
          assert s[m + 1] == r[j];
        }
        assert forall k :: 0 < k < |r| ==> r[k] == r[1..][k - 1];
      } else {
        SubseqNoDuplicates(r, s[1..]);
      }
    }
  }

  /** Deleting and clearing keep the list short and free of duplicates. */
  lemma DeleteKeepsOk(recent: seq<string>, search: string)
    requires RecentOk(recent)
    ensures RecentOk(DeleteRecent(recent, search))
    ensures RecentOk(ClearRecent(recent))
  {
    SubseqNoDuplicates(DeleteRecent(recent, search), recent);
  }

  /** Deleting a text right after searching it restores a list that had room for it. */
  lemma SearchThenDelete(recent: seq<string>, text: string)
    requires |text| > 0 && text !in recent
    requires |recent| < MaxRecent
    ensures DeleteRecent(PerformSearch(recent, text), text) == recent
  {
    var p := (x: string) => x != text;
    FilterConcat(p, [text], recent);
    FilterKeepsAll(p, recent);
  }

  lemma SeedRecentOk()
    ensures RecentOk(SeedRecent)
    ensures DisplayedRecent(SeedRecent) == SeedRecent
  {
  }
}
