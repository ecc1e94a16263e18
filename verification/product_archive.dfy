/**
 * The product archive of the shop: a catalogue list narrowed by a search
 * term, a heat level, a chilli type and a category, ordered by one of four
 * sort options, and shown a page of twelve at a time. The component's state
 * (the four filter values, the sort option and the number of products shown)
 * is the class `ArchiveState`; what it displays is a function of that state.
 */
module ProductArchive {
  import opened Wrappers
  import opened Text
  import opened StoreTypes
  import JsArray

  datatype SortOption = Recent | Popular | MildFirst | HotFirst

  /** The filter values of the archive; the empty string means "no restriction". */
  datatype Filters = Filters(searchTerm: string, heatLevel: string, chilliType: string, category: string)

  const NoFilters: Filters := Filters("", "", "", "")

  /** `HEAT_ORDER`: the rank of each named heat level, from mild to extreme. */
  function HeatOrder(name: string): (rank: Option<int>)
    ensures rank.Some? ==> 1 <= rank.value <= 4
    ensures rank.Some? <==> name in ["mild", "medium", "hot", "extreme"]
  {
    if name == "mild" then Some(1)
    else if name == "medium" then Some(2)
    else if name == "hot" then Some(3)
    else if name == "extreme" then Some(4)
    else None
  }

  /** The named levels rank 1 to 4 in the order mild, medium, hot, extreme. */
  lemma HeatOrderRanks()
    ensures HeatOrder("mild") == Some(1) && HeatOrder("medium") == Some(2)
    ensures HeatOrder("hot") == Some(3) && HeatOrder("extreme") == Some(4)
    ensures HeatOrder("mild").value < HeatOrder("medium").value < HeatOrder("hot").value < HeatOrder("extreme").value
  {
  }

  /** Products shown at first, and added by every "load more". */
  const PageSize: nat := 12

  /**
   * `resolveHeatRank`: the numeric rank of a heat level, if it has one.
   * The four cases follow the source's branches; HeatRankIgnoresCase,
   * HeatRankOfNumeral and HeatOrderRanks state what the ranks mean.
   */
  function ResolveHeatRank(value: HeatLevel): (rank: Option<int>)
    ensures value.NoHeat? ==> rank == None
    ensures value.HeatNum? ==> rank == Some(value.n)
    ensures value.HeatText? && ParseNumber(value.s).Some? ==> rank == ParseNumber(value.s)
    ensures value.HeatText? && ParseNumber(value.s).None? ==> rank == HeatOrder(ToLower(value.s))
  {
    match value
    case NoHeat => None
    case HeatNum(n) => Some(n)
    case HeatText(s) =>
      match ParseNumber(s)
      case Some(n) => Some(n)
      case None => HeatOrder(ToLower(s))
  }

  /** Heat labels that differ only in letter case have the same rank. */
  lemma HeatRankIgnoresCase(a: string, b: string)
    requires ToLower(a) == ToLower(b)
    ensures ResolveHeatRank(HeatText(a)) == ResolveHeatRank(HeatText(b))
  {
    ParseNumberIgnoresCase(a);
    ParseNumberIgnoresCase(b);
  }

  /** A numeral ranks as the number it spells, exactly as that number would. */
  lemma HeatRankOfNumeral(n: int)
    ensures ResolveHeatRank(HeatText(IntToString(n))) == ResolveHeatRank(HeatNum(n)) == Some(n)
  {
    IntToStringRoundTrip(n);
  }

  /** A label made of lower-case letters is no number, so it ranks by name alone. */
  lemma WordLabelRanksByName(text: string)
    requires text != [] && forall i :: 0 <= i < |text| ==> IsLower(text[i])
    ensures ResolveHeatRank(HeatText(text)) == HeatOrder(text)
  {
    TrimUnchanged(text);
    ToLowerNoUpper(text);
    assert !IsDigit(text[0]);
    assert ParseTrimmed(text) == None;
  }

  lemma HeatRankOfMild()
    ensures ResolveHeatRank(HeatText("mild")) == Some(1)
  {
    WordLabelRanksByName("mild");
  }

  lemma HeatRankOfHot()
    ensures ResolveHeatRank(HeatText("hot")) == Some(3)
  {
    WordLabelRanksByName("hot");
  }

  lemma HeatRankOfUnknownLabel()
    ensures ResolveHeatRank(HeatText("spicy")) == None
  {
    WordLabelRanksByName("spicy");
  }

  /** `Number("")` is 0, so an empty heat label ranks 0, not "none". */
  lemma HeatRankOfEmptyLabel()
    ensures ResolveHeatRank(HeatText("")) == Some(0)
  {
  }

  /** The search filter: the term, case-insensitively, in the name, the description or the brand name. */
  predicate MatchesSearch(p: StoreProduct, term: string) {
    var t := ToLower(term);
    term == []
    || Contains(ToLower(p.name), t)
    || (p.description.Some? && Contains(ToLower(p.description.value), t))
    || (p.brand.Some? && Contains(ToLower(p.brand.value.name), t))
  }

  /** The product's heat level as text: the label itself, the numeral of a number, or "" when missing. */
  function HeatLabel(heatLevel: HeatLevel): string {
    HeatString(heatLevel).GetOr("")
  }

  /** The heat filter: the label equals the selected level, ignoring case. */
  predicate MatchesHeatLevel(p: StoreProduct, selected: string) {
    selected == [] || (HeatLabel(p.heatLevel) != [] && ToLower(HeatLabel(p.heatLevel)) == ToLower(selected))
  }

  /** The pepper filter: some chilli type of the product has the selected id or name. */
  predicate MatchesChilliType(p: StoreProduct, selected: string) {
    selected == []
    || (p.chilliTypes.Some? && exists ct :: ct in p.chilliTypes.value && (IdToString(ct.id) == selected || ct.name == selected))
  }

  /** The category filter: the product's category has the selected id or slug. */
  predicate MatchesCategory(p: StoreProduct, selected: string) {
    selected == []
    || (p.category.Some? && (IdToString(p.category.value.id) == selected || p.category.value.slug == selected))
  }

  /** The filter predicate: all four filters accept the product. */
  predicate Matches(p: StoreProduct, f: Filters) {
    MatchesSearch(p, f.searchTerm) && MatchesHeatLevel(p, f.heatLevel)
    && MatchesChilliType(p, f.chilliType) && MatchesCategory(p, f.category)
  }

  function FilterProducts(products: seq<StoreProduct>, f: Filters): seq<StoreProduct> {
    JsArray.Filter(products, p => Matches(p, f))
  }

  /** A product is shown exactly when it is in the catalogue and every filter accepts it; order is kept. */
  lemma FilterKeepsExactlyMatches(products: seq<StoreProduct>, f: Filters, p: StoreProduct)
    ensures p in FilterProducts(products, f) <==> p in products && Matches(p, f)
    ensures JsArray.IsSubsequence(FilterProducts(products, f), products)
  {
    var r := FilterProducts(products, f);
    assert multiset(r)[p] == if Matches(p, f) then multiset(products)[p] else 0;
  }

  /** With no filter set, every product is kept, in order. */
  lemma NoFiltersKeepAll(products: seq<StoreProduct>)
    ensures FilterProducts(products, NoFilters) == products
  {
  }

  /** A heat selection of either letter case keeps the same products. */
  lemma HeatFilterIgnoresCase(p: StoreProduct, a: string, b: string)
    requires ToLower(a) == ToLower(b) && (a == []) == (b == [])
    ensures MatchesHeatLevel(p, a) == MatchesHeatLevel(p, b)
  {
  }

  /** The rank a sort uses, with `fallback` for a product without one. */
  function RankOr(p: StoreProduct, fallback: int): int {
    ResolveHeatRank(p.heatLevel).GetOr(fallback)
  }

  /** 'mild-first' sorts by ascending rank, unranked as 999. */
  function MildFirstKey(p: StoreProduct): int {
    RankOr(p, 999)
  }

  /** 'hot-first' sorts by descending rank, unranked as -1: ascending by the negated rank. */
  function HotFirstKey(p: StoreProduct): int {
    0 - RankOr(p, -1)
  }

  /** The sort step on a copy of the filtered list. */
  function SortProducts(filtered: seq<StoreProduct>, sortBy: SortOption): (r: seq<StoreProduct>)
    ensures multiset(r) == multiset(filtered)
    ensures sortBy == MildFirst ==> forall i, j :: 0 <= i < j < |r| ==> RankOr(r[i], 999) <= RankOr(r[j], 999)
    ensures sortBy == HotFirst ==> forall i, j :: 0 <= i < j < |r| ==> RankOr(r[i], -1) >= RankOr(r[j], -1)
    ensures sortBy == Recent || sortBy == Popular ==> r == filtered
  {
    match sortBy
    case MildFirst => JsArray.Sort(filtered, MildFirstKey)
    case HotFirst => JsArray.Sort(filtered, HotFirstKey)
    case Recent => filtered
    case Popular => filtered
  }

  /** The sort ranks of a product labelled "mild" and of one labelled "hot". */
  lemma SortRanksOfMildAndHot(mild: StoreProduct, hot: StoreProduct)
    requires mild.heatLevel == HeatText("mild") && hot.heatLevel == HeatText("hot")
    ensures MildFirstKey(mild) == 1 && MildFirstKey(hot) == 3
    ensures HotFirstKey(mild) == -1 && HotFirstKey(hot) == -3
  {
    HeatRankOfMild();
    HeatRankOfHot();
  }

  /** Under 'mild-first' a product labelled "mild" comes before every product labelled "hot". */
  lemma MildFirstPutsMildBeforeHot(filtered: seq<StoreProduct>, i: nat, j: nat)
    requires i < |SortProducts(filtered, MildFirst)| && j < |SortProducts(filtered, MildFirst)|
    requires SortProducts(filtered, MildFirst)[i].heatLevel == HeatText("mild")
    requires SortProducts(filtered, MildFirst)[j].heatLevel == HeatText("hot")
    ensures i < j
  {
    var r := JsArray.Sort(filtered, MildFirstKey);
    assert r == SortProducts(filtered, MildFirst);
    SortRanksOfMildAndHot(r[i], r[j]);
    JsArray.SmallerKeyFirst(r, MildFirstKey, i, j);
  }

  /** Under 'hot-first' a product labelled "hot" comes before every product labelled "mild". */
  lemma HotFirstPutsHotBeforeMild(filtered: seq<StoreProduct>, i: nat, j: nat)
    requires i < |SortProducts(filtered, HotFirst)| && j < |SortProducts(filtered, HotFirst)|
    requires SortProducts(filtered, HotFirst)[i].heatLevel == HeatText("hot")
    requires SortProducts(filtered, HotFirst)[j].heatLevel == HeatText("mild")
    ensures i < j
  {
    var r := JsArray.Sort(filtered, HotFirstKey);
    assert r == SortProducts(filtered, HotFirst);
    SortRanksOfMildAndHot(r[j], r[i]);
    JsArray.SmallerKeyFirst(r, HotFirstKey, i, j);
  }

  /** Products of equal rank keep their filtered order under both rank sorts. */
  lemma RankSortsStable(filtered: seq<StoreProduct>, rank: int)
    ensures JsArray.WithKey(SortProducts(filtered, MildFirst), MildFirstKey, rank)
         == JsArray.WithKey(filtered, MildFirstKey, rank)
    ensures JsArray.WithKey(SortProducts(filtered, HotFirst), HotFirstKey, rank)
         == JsArray.WithKey(filtered, HotFirstKey, rank)
  {
    JsArray.SortStable(filtered, MildFirstKey, rank);
    JsArray.SortStable(filtered, HotFirstKey, rank);
  }

  /** `filteredAndSortedProducts` */
  function FilteredAndSortedProducts(products: seq<StoreProduct>, f: Filters, sortBy: SortOption): seq<StoreProduct> {
    SortProducts(FilterProducts(products, f), sortBy)
  }

  /** Every sort option yields a rearrangement of exactly the filtered products. */
  lemma FilteredAndSortedIsPermutation(products: seq<StoreProduct>, f: Filters, sortBy: SortOption, p: StoreProduct)
    ensures multiset(FilteredAndSortedProducts(products, f, sortBy)) == multiset(FilterProducts(products, f))
    ensures p in FilteredAndSortedProducts(products, f, sortBy) <==> p in products && Matches(p, f)
  {
    FilterKeepsExactlyMatches(products, f, p);
    assert p in FilteredAndSortedProducts(products, f, sortBy) <==> p in multiset(FilteredAndSortedProducts(products, f, sortBy));
  }

  /** `displayedProducts`: the first `displayCount` products of the list. */
  function DisplayedProducts(list: seq<StoreProduct>, displayCount: nat): seq<StoreProduct> {
    JsArray.SliceTo(list, displayCount)
  }

  /** `hasMore` */
  predicate HasMore(list: seq<StoreProduct>, displayCount: nat) {
    |list| > displayCount
  }

  /** A page is a prefix of the list; "load more" is offered exactly when the page leaves products out. */
  lemma PagingShowsPrefix(list: seq<StoreProduct>, displayCount: nat)
    ensures |DisplayedProducts(list, displayCount)| == if displayCount < |list| then displayCount else |list|
    ensures DisplayedProducts(list, displayCount) <= list
    ensures HasMore(list, displayCount) <==> |DisplayedProducts(list, displayCount)| < |list|
  {
  }

  /** Loading more keeps the products already shown and adds the next ones; with nothing more it changes nothing. */
  lemma LoadMoreExtendsPage(list: seq<StoreProduct>, displayCount: nat)
    ensures DisplayedProducts(list, displayCount) <= DisplayedProducts(list, displayCount + PageSize)
    ensures HasMore(list, displayCount)
      ==> |DisplayedProducts(list, displayCount)| < |DisplayedProducts(list, displayCount + PageSize)|
    ensures !HasMore(list, displayCount)
      ==> DisplayedProducts(list, displayCount + PageSize) == DisplayedProducts(list, displayCount)
  {
  }

  /** The heat chip: clicking the selected level clears it, clicking another selects it. */
  function HeatToggle(current: string, level: string): (next: string)
    ensures next == "" || next == level
    ensures level != "" ==> (next == "" <==> current == level)
  {
    if current == level then "" else level
  }

  /** From no selection or from the chip's own level, clicking the same chip twice restores the selection. */
  lemma HeatToggleTwice(current: string, level: string)
    requires level != "" && (current == "" || current == level)
    ensures HeatToggle(HeatToggle(current, level), level) == current
  {
  }

  /** The state of the archive component. */
  class ArchiveState {
    var searchTerm: string
    var selectedHeatLevel: string
    var selectedChilliType: string
    var selectedCategory: string
    var sortBy: SortOption
    var displayCount: nat

    /** The page size only ever grows in whole pages. */
    ghost predicate Valid()
      reads this
    {
      displayCount >= PageSize && displayCount % PageSize == 0
    }

    constructor ()
      ensures Valid()
      ensures searchTerm == "" && selectedHeatLevel == "" && selectedChilliType == "" && selectedCategory == ""
      ensures sortBy == Recent && displayCount == PageSize
    {
      searchTerm, selectedHeatLevel, selectedChilliType, selectedCategory := "", "", "", "";
      sortBy, displayCount := Recent, PageSize;
    }

    function CurrentFilters(): Filters
      reads this
    {
      Filters(searchTerm, selectedHeatLevel, selectedChilliType, selectedCategory)
    }

    /** The products on screen. */
    function Shown(products: seq<StoreProduct>): seq<StoreProduct>
      reads this
    {
      DisplayedProducts(FilteredAndSortedProducts(products, CurrentFilters(), sortBy), displayCount)
    }

    /** Whether the "load more" button is on screen. */
    predicate ShowsLoadMore(products: seq<StoreProduct>)
      reads this
    {
      HasMore(FilteredAndSortedProducts(products, CurrentFilters(), sortBy), displayCount)
    }

    method SetSearchTerm(term: string)
      requires Valid()
      modifies this
      ensures Valid()
      ensures CurrentFilters() == old(CurrentFilters()).(searchTerm := term)
      ensures sortBy == old(sortBy) && displayCount == old(displayCount)
    {
      searchTerm := term;
    }

    method SetChilliType(selected: string)
      requires Valid()
      modifies this
      ensures Valid()
      ensures CurrentFilters() == old(CurrentFilters()).(chilliType := selected)
      ensures sortBy == old(sortBy) && displayCount == old(displayCount)
    {
      selectedChilliType := selected;
    }

    method SetCategory(selected: string)
      requires Valid()
      modifies this
      ensures Valid()
      ensures CurrentFilters() == old(CurrentFilters()).(category := selected)
      ensures sortBy == old(sortBy) && displayCount == old(displayCount)
    {
      selectedCategory := selected;
    }

    method SetSortBy(option: SortOption)
      requires Valid()
      modifies this
      ensures Valid()
      ensures CurrentFilters() == old(CurrentFilters())
      ensures sortBy == option && displayCount == old(displayCount)
    {
      sortBy := option;
    }

    /** A click on the heat chip `level`. */
    method ToggleHeatLevel(level: string)
      requires Valid()
      modifies this
      ensures Valid()
      ensures CurrentFilters() == old(CurrentFilters()).(heatLevel := HeatToggle(old(selectedHeatLevel), level))
      ensures sortBy == old(sortBy) && displayCount == old(displayCount)
    {
      selectedHeatLevel := if selectedHeatLevel == level then "" else level;
    }

    /** `clearAllFilters`: the four filters are emptied; sorting and paging stay. */
    method ClearAllFilters()
      requires Valid()
      modifies this
      ensures Valid()
      ensures CurrentFilters() == NoFilters
      ensures sortBy == old(sortBy) && displayCount == old(displayCount)
    {
      searchTerm := "";
      selectedHeatLevel := "";
      selectedChilliType := "";
      selectedCategory := "";
    }

    /** The "load more" button: one more page. */
    method LoadMore()
      requires Valid()
      modifies this
      ensures Valid()
      ensures displayCount == old(displayCount) + PageSize
      ensures CurrentFilters() == old(CurrentFilters()) && sortBy == old(sortBy)
    {
      displayCount := displayCount + PageSize;
    }
  }

  /** After clearing the filters, an unsorted view shows the catalogue's first products in catalogue order. */
  lemma ClearedViewShowsCatalogue(products: seq<StoreProduct>, sortBy: SortOption, displayCount: nat)
    requires sortBy == Recent || sortBy == Popular
    ensures DisplayedProducts(FilteredAndSortedProducts(products, NoFilters, sortBy), displayCount)
         == JsArray.SliceTo(products, displayCount)
  {
    NoFiltersKeepAll(products);
  }
}
