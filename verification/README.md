# Storefront pricing, shipping weight and catalogue logic in Dafny

This project models the deterministic core of a hot-sauce web shop and proves properties of it. The core has seven parts:

- **Shipping cost resolver.** It classifies a destination country into one of three rate zones: Germany (DEU), EU zone 1 (EU1) or DEFAULT. It then applies free shipping from 50 EUR within Germany, or charges the zone's base price plus a per-kilogram charge on the weight rounded up.
- **Package weight estimator.** It classifies each order line by keywords in the product name: hoodie, t-shirt, or bottle of sauce. It gives each line a fixed unit weight in grams, adds the empty box, and reports kilograms with a 0.01 kg floor. It also gives the box dimensions in centimetres.
- **Product archive.** This is the catalogue page. It resolves heat ranks, filters on four criteria (search term, heat level, chilli type, category), sorts by four options (recent, popular, mild first, hot first) and pages through the results twelve at a time. The component's state is a class whose methods are the page's state updates.
- **Brand card.** It gives each product's heat-dot colour, the product tiles and the "+n" overflow tile, the singular or plural count label, and the brand and product links.
- **Product card.** It gives the category badge colour, the shown price and discount rule, and the product link.
- **`slugify`.**
- **`capitalize`.**

Supporting modules:

- `Text` holds the JavaScript string operations the code uses:
  - ASCII case mapping;
  - the whitespace class of `\s`, `trim()` and `Number()`;
  - `includes`;
  - `String(n)` for integers;
  - `Number(s)` restricted to integer numerals.
- `JsArray` holds `filter`, `slice(0, n)` and the stable `sort` with a numeric comparator.
- `Links` holds the `/{locale}/{section}/{slug}` link shape.
- `StoreTypes` holds the record shapes of the catalogue.

Units and representations:

- Amounts are integer euro cents.
- Package weight is a `real` number of kilograms.
- Heat levels may be missing, a number, or a label.

Where a code comment disagrees with the code, the model follows the code. The package weight is `grams / 1000` with no further rounding, so it can have three decimals, although the comment in `calculatePackageWeight` speaks of two decimal places.

## Model

| member | source | states |
|---|---|---|
| Pricing.Ceil | src/lib/checkout/pricing.ts:70 | `Math.ceil`: the result is the least integer not below the weight |
| Pricing.CeilMonotone | src/lib/checkout/pricing.ts:70 | rounding up never reverses the order of two weights |
| Pricing.GetRateZone | src/lib/checkout/pricing.ts:43-52 | the zone is always DEU, EU1 or DEFAULT, so the rate lookup always hits a defined rate; a two-letter code other than DE (such as FR) is DEFAULT |
| Pricing.RateFor | src/lib/checkout/pricing.ts:63 | the rate of a zone, DEFAULT's rate for a zone without one; its values are stated by Pricing.ShippingCostPerZone and Pricing.OnlyNationalShipsFree |
| Pricing.RateZoneIgnoresCase | src/lib/checkout/pricing.ts:44 | codes that differ only in letter case get the same zone |
| Pricing.RateZoneClassification | src/lib/checkout/pricing.ts:46-51 | DEU exactly for DE/DEU, EU1 exactly for the eight zone-1 codes, DEFAULT for everything else, after upper-casing |
| Pricing.GermanZoneExamples | src/lib/checkout/pricing.ts:43-46 | "de", "Deu" and "DEU" are all the German zone |
| Pricing.ZoneOneExamples | src/lib/checkout/pricing.ts:48-51 | "fra" and "FRA" are EU1, while the alpha-2 "FR" falls through to DEFAULT |
| Pricing.DefaultZoneExample | src/lib/checkout/pricing.ts:51 | an unknown code such as "XYZ" is DEFAULT |
| Pricing.CalculateShippingCost | src/lib/checkout/pricing.ts:57-72 | the cost is 0 exactly when the zone is DEU and the subtotal is at least 5000; it is never negative for a non-negative weight |
| Pricing.ShippingCostPerZone | src/lib/checkout/pricing.ts:18-38 | outside the free case the cost is 590 (DEU) or 1290 (EU1) whatever the weight, and 1990 + 200 times the rounded-up weight for DEFAULT |
| Pricing.OnlyNationalShipsFree | src/lib/checkout/pricing.ts:27-37 | EU1 and DEFAULT have no threshold and never cost less than their base price |
| Pricing.ShippingCostMonotoneInWeight | src/lib/checkout/pricing.ts:70 | a heavier package never costs less |
| Pricing.ShippingCostAntitoneInSubtotal | src/lib/checkout/pricing.ts:66-68 | a larger subtotal never costs more |
| Pricing.ShippingCostExamples | src/lib/checkout/pricing.ts:57-72 | DEU is 0 at 55 EUR and 590 at 1 EUR; FRA is 1290; elsewhere 2190 at 1.0 kg and 2390 at 1.01 kg |
| ShippingConfig.GetProductType | src/lib/shipping/config.ts:55-56 | lower-cases the name and classifies it; ShippingConfig.ProductTypeIgnoresCase and ShippingConfig.ProductTypeHoodieFirst state its properties |
| ShippingConfig.ClassifyName | src/lib/shipping/config.ts:58-69 | the keyword tests in source order: hoodie, then t-shirt, then bottle, else unknown; ShippingConfig.ProductTypeHoodieFirst states the priority |
| ShippingConfig.ProductTypeIgnoresCase | src/lib/shipping/config.ts:55-56 | the product type depends only on the lower-cased name |
| ShippingConfig.ProductTypeHoodieFirst | src/lib/shipping/config.ts:58-66 | the hoodie keyword wins over the sauce keywords: "hot sauce hoodie" is a hoodie |
| ShippingConfig.BottleWeight | src/lib/shipping/config.ts:79-84 | 450 g for a 200 ml bottle and 280 g for any other capacity, including a missing or zero one |
| ShippingConfig.HoodieWeight | src/lib/shipping/config.ts:89-96 | 1000 g exactly when the upper-cased size is 2XL or XXL, else 800 g, including a missing size |
| ShippingConfig.HoodieWeightExamples | src/lib/shipping/config.ts:91-95 | "xxl" and "2xl" weigh 1000 g; "XL" and no size weigh 800 g |
| ShippingConfig.GetProductWeight | src/lib/shipping/config.ts:75-103 | the unit weight is always one of 250, 280, 450, 800 or 1000 g |
| ShippingConfig.ProductWeightByType | src/lib/shipping/config.ts:78-102 | the weight of each product type: t-shirt 250 g, unknown 280 g, bottle and hoodie by capacity and size |
| ShippingConfig.LineGrams | src/lib/shipping/config.ts:113-114 | the weight of one line, unit weight times quantity; ShippingConfig.LineGramsMonotone states its growth |
| ShippingConfig.ItemsGrams | src/lib/shipping/config.ts:112-115 | the sum of the line weights; ShippingConfig.ItemsGramsAppend, ItemsGramsPermutation and ItemsGramsSplit state its properties |
| ShippingConfig.KgFromGrams | src/lib/shipping/config.ts:117-121 | below 10 g the result is exactly the 0.01 kg minimum; from 10 g up it is exactly grams / 1000; it is never below 0.01 kg |
| ShippingConfig.KgFromGramsMonotone | src/lib/shipping/config.ts:118-121 | more grams never give fewer kilograms |
| ShippingConfig.PackageKg | src/lib/shipping/config.ts:109-122 | the box plus the items, converted to kg; ShippingConfig.CalculatePackageWeight is proved to return it and ShippingConfig.PackageKgExact states its value |
| ShippingConfig.CalculatePackageWeight | src/lib/shipping/config.ts:109-122 | the loop returns the box plus the sum of weight times quantity, converted to kg, and at least 0.01 kg |
| ShippingConfig.ItemsGramsAppend | src/lib/shipping/config.ts:112-115 | line weights add up over concatenation of orders |
| ShippingConfig.ItemsGramsPermutation | src/lib/shipping/config.ts:112-115 | the summed weight does not depend on the order of the items |
| ShippingConfig.ItemsGramsNonNegative | src/lib/shipping/config.ts:112-115 | with non-negative quantities the items weigh at least nothing |
| ShippingConfig.PackageKgExact | src/lib/shipping/config.ts:110-121 | with whole non-negative quantities the weight is exactly (100 + Σ weight·quantity) / 1000 kg |
| ShippingConfig.PackageKgEmpty | src/lib/shipping/config.ts:110 | an empty order weighs the box alone: 0.1 kg |
| ShippingConfig.PackageKgAppend | src/lib/shipping/config.ts:112-115 | appending an item never makes the package lighter |
| ShippingConfig.ItemsGramsSplit | src/lib/shipping/config.ts:112-115 | the total splits into the lines before, the line itself and the lines after |
| ShippingConfig.LineGramsMonotone | src/lib/shipping/config.ts:114 | a larger quantity on a line never weighs less |
| ShippingConfig.PackageKgQuantityGrows | src/lib/shipping/config.ts:112-121 | raising the quantity of any one line never makes the package lighter |
| ShippingConfig.PackageKgPermutation | src/lib/shipping/config.ts:109-122 | reordering the items leaves the package weight unchanged |
| ShippingConfig.GetBoxDimensions | src/lib/shipping/config.ts:128-134 | each dimension in centimetres is a tenth of the millimetre constant |
| ShippingConfig.BoxDimensionsInCm | src/lib/shipping/config.ts:11-14 | the box is 23 × 15.5 × 9 cm |
| ProductArchive.HeatOrder | src/components/store/ProductArchive.tsx:18-23 | exactly mild, medium, hot and extreme have a rank, and it lies between 1 and 4 |
| ProductArchive.HeatOrderRanks | src/components/store/ProductArchive.tsx:18-23 | the ranks are exactly mild 1, medium 2, hot 3, extreme 4, strictly rising from mild to extreme |
| ProductArchive.ResolveHeatRank | src/components/store/ProductArchive.tsx:25-32 | missing gives no rank; a number ranks as itself; a string that `Number()` reads ranks as that number; any other string gets its named rank after lower-casing, or none |
| ProductArchive.HeatRankIgnoresCase | src/components/store/ProductArchive.tsx:28-31 | among the labels modelled (integer numerals and names), labels that differ only in letter case have the same rank |
| ProductArchive.HeatRankOfNumeral | src/components/store/ProductArchive.tsx:27-29 | the numeral of an integer ranks as that integer, just as the integer does |
| ProductArchive.HeatRankOfMild | src/components/store/ProductArchive.tsx:18-31 | "mild" has rank 1 |
| ProductArchive.HeatRankOfHot | src/components/store/ProductArchive.tsx:18-31 | "hot" has rank 3 |
| ProductArchive.HeatRankOfUnknownLabel | src/components/store/ProductArchive.tsx:30-31 | an unknown label such as "spicy" has no rank |
| ProductArchive.HeatRankOfEmptyLabel | src/components/store/ProductArchive.tsx:28-29 | the empty label is read by `Number()` as 0, so it ranks 0 rather than none |
| ProductArchive.MatchesSearch | src/components/store/ProductArchive.tsx:50-53 | an empty term matches; otherwise the lower-cased term must occur in the lower-cased name, description or brand name; ProductArchive.FilterKeepsExactlyMatches states what the filter keeps |
| ProductArchive.MatchesHeatLevel | src/components/store/ProductArchive.tsx:55-63 | an empty selection matches; otherwise the product's non-empty label must equal the selection after lower-casing; ProductArchive.HeatFilterIgnoresCase states its case blindness |
| ProductArchive.MatchesChilliType | src/components/store/ProductArchive.tsx:65-68 | an empty selection matches; otherwise some chilli type must have that id or that name |
| ProductArchive.MatchesCategory | src/components/store/ProductArchive.tsx:70-73 | an empty selection matches; otherwise the category's id or slug must equal it |
| ProductArchive.Matches | src/components/store/ProductArchive.tsx:75 | all four filters accept the product |
| ProductArchive.FilterProducts | src/components/store/ProductArchive.tsx:49-76 | the catalogue filtered by ProductArchive.Matches; ProductArchive.FilterKeepsExactlyMatches states what it keeps |
| JsArray.Filter | src/components/store/ProductArchive.tsx:49 | `filter` keeps exactly the accepted elements, each as often as before, as an order-preserving subsequence; when every element is accepted, the list is unchanged |
| ProductArchive.FilterKeepsExactlyMatches | src/components/store/ProductArchive.tsx:49-76 | a product is kept exactly when it is in the catalogue and all four filters accept it, and the kept list preserves catalogue order |
| ProductArchive.NoFiltersKeepAll | src/components/store/ProductArchive.tsx:50-73 | with all four filters empty every product is kept, in order |
| ProductArchive.HeatFilterIgnoresCase | src/components/store/ProductArchive.tsx:61-63 | heat selections that differ only in letter case keep the same products |
| JsArray.SliceTo | src/components/store/ProductArchive.tsx:131 | `slice(0, n)` is the first min(n, length) elements |
| JsArray.Insert | src/components/store/ProductArchive.tsx:79-89 | one insertion step adds exactly the new element |
| JsArray.InsertSorted | src/components/store/ProductArchive.tsx:79-89 | inserting into a sorted list keeps it sorted |
| JsArray.Sort | src/components/store/ProductArchive.tsx:79-89 | sorting by a numeric key gives a permutation ordered by ascending key |
| JsArray.WithKeyInsert | src/components/store/ProductArchive.tsx:79-89 | an insertion step places the new element first among those with its key |
| JsArray.SortStable | src/components/store/ProductArchive.tsx:79-89 | elements with equal keys keep their relative order |
| JsArray.SortSorted | src/components/store/ProductArchive.tsx:79-89 | an already sorted list is left unchanged |
| ProductArchive.SortProducts | src/components/store/ProductArchive.tsx:78-94 | every option gives a permutation of the filtered list; mild-first ascends by rank with unranked as 999; hot-first descends by rank with unranked as -1; recent and popular keep the filtered order |
| ProductArchive.SortRanksOfMildAndHot | src/components/store/ProductArchive.tsx:78-89 | the mild-first keys of mild and hot are 1 and 3, the hot-first keys -1 and -3 |
| ProductArchive.MildFirstPutsMildBeforeHot | src/components/store/ProductArchive.tsx:78-83 | under mild-first a "mild" product stands before every "hot" one |
| ProductArchive.HotFirstPutsHotBeforeMild | src/components/store/ProductArchive.tsx:84-89 | under hot-first a "hot" product stands before every "mild" one |
| ProductArchive.RankSortsStable | src/components/store/ProductArchive.tsx:79-89 | products of equal rank keep their filtered order under both rank sorts |
| ProductArchive.FilteredAndSortedProducts | src/components/store/ProductArchive.tsx:48-97 | the filtered catalogue in the chosen order; ProductArchive.FilteredAndSortedIsPermutation states its contents |
| ProductArchive.FilteredAndSortedIsPermutation | src/components/store/ProductArchive.tsx:48-97 | the shown list is a rearrangement of the filtered list, and it holds a product exactly when the catalogue holds it and the filters accept it |
| ProductArchive.DisplayedProducts | src/components/store/ProductArchive.tsx:131 | the first displayCount products; ProductArchive.PagingShowsPrefix states its value |
| ProductArchive.HasMore | src/components/store/ProductArchive.tsx:132 | more products than displayCount; ProductArchive.PagingShowsPrefix states when it holds |
| ProductArchive.PagingShowsPrefix | src/components/store/ProductArchive.tsx:131-132 | the page is the first min(displayCount, length) products; "load more" is offered exactly when the page leaves products out |
| ProductArchive.LoadMoreExtendsPage | src/components/store/ProductArchive.tsx:288 | loading more keeps the shown products as a prefix and shows more of them when there were more; with nothing more it changes nothing |
| ProductArchive.HeatToggle | src/components/store/ProductArchive.tsx:162 | clicking the selected level clears it; clicking another level selects it |
| ProductArchive.HeatToggleTwice | src/components/store/ProductArchive.tsx:162 | starting from no selection or from the clicked chip's own level, two clicks on the same chip restore the starting selection |
| ProductArchive.ArchiveState.constructor | src/components/store/ProductArchive.tsx:41-46 | the four filters start empty, sorting starts as recent, and twelve products are shown |
| ProductArchive.ArchiveState.SetSearchTerm | src/components/store/ProductArchive.tsx:147 | only the search term changes |
| ProductArchive.ArchiveState.SetChilliType | src/components/store/ProductArchive.tsx:180 | only the chilli type selection changes |
| ProductArchive.ArchiveState.SetCategory | src/components/store/ProductArchive.tsx:198 | only the category selection changes |
| ProductArchive.ArchiveState.SetSortBy | src/components/store/ProductArchive.tsx:216 | only the sort option changes |
| ProductArchive.ArchiveState.ToggleHeatLevel | src/components/store/ProductArchive.tsx:162 | the heat selection becomes the toggle of the old one; nothing else changes |
| ProductArchive.ArchiveState.ClearAllFilters | src/components/store/ProductArchive.tsx:124-129 | the four filters become empty; sorting and the number shown stay as they were |
| ProductArchive.ArchiveState.LoadMore | src/components/store/ProductArchive.tsx:288 | the display count grows by twelve and the filters and sorting stay; fewer than twelve more products appear when fewer remain (ProductArchive.LoadMoreExtendsPage); the count being a positive multiple of twelve is kept as the class invariant, which no other member relies on |
| ProductArchive.ClearedViewShowsCatalogue | src/components/store/ProductArchive.tsx:124-132 | after clearing the filters, an unsorted view shows the first products of the catalogue in catalogue order |
| BrandCard.HeatColor | src/components/store/BrandCard.tsx:15-24 | always one of four classes; green exactly when the lower-cased label mentions "mild"; red for a missing or empty heat level |
| BrandCard.HeatColorIgnoresCase | src/components/store/BrandCard.tsx:19 | labels that differ only in letter case get the same colour |
| BrandCard.NumericHeatIsRed | src/components/store/BrandCard.tsx:17-23 | a numeric heat level such as 3 mentions no keyword, so its dot is always red |
| BrandCard.HeatColorPriority | src/components/store/BrandCard.tsx:20-21 | a label that mentions "medium" but not "mild" is yellow, even if it also mentions "hot" |
| BrandCard.HotIsOrange | src/components/store/BrandCard.tsx:22 | "hot" is orange |
| BrandCard.HotLabelIsOrange | src/components/store/BrandCard.tsx:20-22 | any non-empty label that mentions "hot" but neither "mild" nor "medium", in any letter case, gets the orange dot |
| BrandCard.UnmarkedLabelIsRed | src/components/store/BrandCard.tsx:17-23 | a non-empty label that mentions none of "mild", "medium" and "hot" in any letter case gets the red fallback |
| BrandCard.ExtremeIsRed | src/components/store/BrandCard.tsx:23 | "extreme" is red |
| BrandCard.ShowsHeatDot | src/components/store/BrandCard.tsx:111 | a dot is drawn for a non-empty label or a non-zero number; BrandCard.ShownDotColor states its colour |
| BrandCard.ShownDotColor | src/components/store/BrandCard.tsx:111-113 | a dot is drawn only for a truthy heat level, whose colour comes from a non-empty label |
| BrandCard.ResolveLocale | src/components/store/BrandCard.tsx:33 | a non-empty locale passed in wins over the page's locale |
| BrandCard.BrandHref | src/components/store/BrandCard.tsx:38 | the brand link in the resolved locale; BrandCard.BrandHrefIdentifiesBrand and BrandCard.BrandAndProductLinksDiffer state its properties |
| BrandCard.ProductHref | src/components/store/BrandCard.tsx:133 | the product link under "products"; BrandCard.ProductHrefIsNotProductUrl states how it differs from the product card's |
| BrandCard.BrandHrefIdentifiesBrand | src/components/store/BrandCard.tsx:38 | in one locale, two brand links are equal exactly when the slugs are |
| BrandCard.BrandAndProductLinksDiffer | src/components/store/BrandCard.tsx:38 | a brand link is never a product link |
| BrandCard.ProductHrefIsNotProductUrl | src/components/store/BrandCard.tsx:133 | the brand card links a product under "products", a different page from the product card's "shop" link |
| BrandCard.ProductList | src/components/store/BrandCard.tsx:35 | a missing product list counts as empty; BrandCard.CountLabelExamples covers the missing list |
| BrandCard.DisplayProducts | src/components/store/BrandCard.tsx:37 | the first three products; BrandCard.TilesAccountForAll states its value |
| BrandCard.OverflowCount | src/components/store/BrandCard.tsx:119-124 | the "+n" tile appears exactly when there are more than three products, with a positive n |
| BrandCard.TilesAccountForAll | src/components/store/BrandCard.tsx:35-37 | the tiles are the first min(3, count) products, and tiles plus n count every product once |
| BrandCard.TextListProducts | src/components/store/BrandCard.tsx:130 | the text list holds the first min(2, count) products, which are the first tiles |
| BrandCard.UsesSingularLabel | src/components/store/BrandCard.tsx:87 | exactly one product; BrandCard.CountLabelExamples states its cases |
| BrandCard.CountLabelExamples | src/components/store/BrandCard.tsx:87 | the singular label is used for one product, and the plural for none (including a missing list) or two |
| Links.LocalePathInjective | src/components/store/ProductCard.tsx:42 | a link determines its locale, section and slug when the locale and section contain no slash |
| ProductCard.GetCategoryColor | src/components/store/ProductCard.tsx:16-34 | a known slug gets its table entry; a missing, empty or unknown slug gets the zinc default |
| ProductCard.SmokyAndHotHoneyShareColor | src/components/store/ProductCard.tsx:22 | 'smoky' and 'hot-honey' share the orange badge, so the colour does not identify the category |
| ProductCard.DisplayPrice | src/components/store/ProductCard.tsx:40 | the special price whenever one is given, including 0; otherwise the regular price |
| ProductCard.HasDiscount | src/components/store/ProductCard.tsx:41 | a truthy special price below the regular one; ProductCard.DiscountShowsLowerPrice and ProductCard.NoDiscountCases state both directions |
| ProductCard.DiscountShowsLowerPrice | src/components/store/ProductCard.tsx:40-41 | when the regular price is struck through, the shown price is strictly lower |
| ProductCard.NoDiscountCases | src/components/store/ProductCard.tsx:40-41 | without a discount, the shown price is the regular price, a special price of 0, or a special price that is not lower |
| ProductCard.ZeroSpecialPrice | src/components/store/ProductCard.tsx:41 | a special price of 0 is shown as the price without a discount mark |
| ProductCard.ProductUrl | src/components/store/ProductCard.tsx:42 | the product link under "shop"; ProductCard.ProductUrlIdentifiesProduct states that it identifies the product |
| ProductCard.ProductUrlIdentifiesProduct | src/components/store/ProductCard.tsx:42 | in one locale, two product links are equal exactly when the slugs are |
| Text.ToLower | src/lib/utils.ts:11 | lower-casing keeps the length and maps each character on its own |
| Text.ToUpper | src/lib/checkout/pricing.ts:44 | upper-casing keeps the length and maps each character on its own |
| Text.ToLowerIdempotent | src/lib/utils.ts:11 | a lower-cased text has no upper-case letter, and lower-casing it again changes nothing |
| Text.LowerOfUpper | src/lib/checkout/pricing.ts:44 | lower-casing forgets an earlier upper-casing |
| Text.ContainsAt | src/lib/shipping/config.ts:58 | `includes` holds exactly when the word occurs at some position |
| Text.NoLetterNoContains | src/components/store/BrandCard.tsx:20-22 | a text without lower-case letters contains no word that starts with one |
| Text.TrimStart | src/lib/utils.ts:12 | the result is a suffix of the input that does not start with whitespace, and every character removed is whitespace |
| Text.TrimEnd | src/lib/utils.ts:12 | the result is a prefix of the input that does not end with whitespace, and every character removed is whitespace |
| Text.Trim | src/lib/utils.ts:12 | whitespace trimmed at the start, then at the end; Text.TrimLower and Utils.TrimKeeps state its properties |
| Text.IntToString | src/components/store/ProductArchive.tsx:59 | `String(n)` is a non-empty string of digits and an optional minus sign |
| Text.IntToStringRoundTrip | src/components/store/ProductArchive.tsx:28 | `Number(String(n))` is n |
| Text.ParseNumber | src/components/store/ProductArchive.tsx:28 | `Number()` on a trimmed integer numeral, the empty text read as 0; Text.IntToStringRoundTrip states that it inverts IntToString |
| Text.ParseNumberIgnoresCase | src/components/store/ProductArchive.tsx:28 | for the integer numerals modelled, `Number()` reads a text and its lower-case form alike |
| Utils.StripCombiningMarks | src/lib/utils.ts:14 | no combining mark is left; nothing else is dropped from a text without marks |
| Utils.StripCombiningMarksIsFilter | src/lib/utils.ts:14 | the result is the text with exactly its combining marks filtered out, the rest in order |
| Utils.StripCombiningMarksAppend | src/lib/utils.ts:14 | dropping marks from two texts joined is dropping them from each and joining the results |
| Utils.HyphenateWhitespace | src/lib/utils.ts:15 | each run of whitespace becomes one hyphen; Utils.HyphenateSplit and HyphenateWhitespaceUnchanged together fix the result on every text, and the lemmas below state its properties |
| Utils.HyphenateSplit | src/lib/utils.ts:15 | a run of whitespace between a text that does not end in whitespace and one that does not start with it becomes exactly one hyphen, and each side is hyphenated on its own |
| Utils.HyphenateKeepsNoUpper | src/lib/utils.ts:15 | turning whitespace runs into hyphens creates no upper-case letter |
| Utils.HyphenateKeepsNoWordChar | src/lib/utils.ts:15 | turning whitespace runs into hyphens creates no word character |
| Utils.HyphenateWhitespaceUnchanged | src/lib/utils.ts:15 | a text without whitespace is left as it is |
| Utils.StripNonWord | src/lib/utils.ts:16 | only word characters and hyphens remain, and they are slug characters when the text had no upper-case letter |
| Utils.StripNonWordIsFilter | src/lib/utils.ts:16 | the result is the text with exactly its word characters and hyphens kept, in order |
| Utils.StripNonWordAppend | src/lib/utils.ts:16 | removing the other characters from two texts joined is removing them from each and joining the results |
| Utils.CollapseHyphens | src/lib/utils.ts:17 | each run of hyphens becomes one; Utils.CollapseHyphensSplit and CollapseHyphensUnchanged together fix the result on every text, and CollapseHyphensNoDouble, CollapseHyphensKeepsSlugChars and CollapseHyphensOfHyphens state its properties |
| Utils.CollapseHyphensSplit | src/lib/utils.ts:17 | a run of hyphens between a text that does not end in a hyphen and one that does not start with one becomes exactly one hyphen, and each side is collapsed on its own |
| Utils.TrimLeadingHyphens | src/lib/utils.ts:18 | the result is a suffix that does not start with a hyphen, and every character removed is a hyphen |
| Utils.TrimTrailingHyphens | src/lib/utils.ts:19 | the result is a prefix that does not end with a hyphen, and every character removed is a hyphen |
| Utils.CollapseHyphensNoDouble | src/lib/utils.ts:17 | no two hyphens are left in a row |
| Utils.CollapseHyphensKeepsSlugChars | src/lib/utils.ts:17 | no character outside the slug alphabet is introduced |
| Utils.CollapseHyphensOfHyphens | src/lib/utils.ts:17 | a text made only of hyphens collapses to at most one hyphen |
| Utils.CollapseHyphensUnchanged | src/lib/utils.ts:17 | a text without a double hyphen is left as it is |
| Utils.Slugify | src/lib/utils.ts:8-20 | the stages in source order; the lemmas below state its properties |
| Utils.SlugifyIsSlug | src/lib/utils.ts:8-20 | the slug holds only `[a-z0-9_-]`, never two hyphens in a row, and no hyphen at either end |
| Utils.SlugifyFixesSlugs | src/lib/utils.ts:8-20 | a slug is left as it is |
| Utils.SlugifyIdempotent | src/lib/utils.ts:8-20 | slugifying twice gives the same as once |
| Utils.SlugifyFixedPoints | src/lib/utils.ts:8-20 | the texts `slugify` leaves unchanged are exactly the slugs |
| Utils.SlugifyIgnoresCase | src/lib/utils.ts:11 | a text has the slug of its lower-case form |
| Utils.WhitespaceBecomesHyphen | src/lib/utils.ts:11-19 | a non-empty slug, a run of whitespace and any text whose slug is not empty become the slug, one hyphen and that text's slug; applied word by word, every inner run of whitespace becomes one hyphen |
| Utils.WordsJoinedByHyphen | src/lib/utils.ts:11-19 | two words separated by whitespace become their lower-case forms joined by one hyphen ("Hot  Sauce" becomes "hot-sauce") |
| Utils.NoWordCharsEmptySlug | src/lib/utils.ts:16-19 | a text of only punctuation and whitespace has the empty slug |
| Format.Capitalize | src/lib/format.ts:27-30 | the length is kept, only the letter case changes, the first character is not lower-case and the rest is not upper-case; the empty text stays empty |
| Format.CapitalizeIgnoresCase | src/lib/format.ts:29 | texts that differ only in letter case capitalize alike |
| Format.CapitalizeIdempotent | src/lib/format.ts:29 | capitalizing a capitalized text changes nothing |
| Format.CapitalizeExample | src/lib/format.ts:29 | "hELLO" becomes "Hello" |

## Left out

- Tax extraction (`calculateTaxFromTotal`, `STANDARD_TAX_RATE`): other files import them from src/lib/checkout/pricing.ts, but that file does not define them. Their definitions are not part of this model.
- `formatPrice`: floating-point division and locale-dependent currency formatting through `toLocaleString`.
- `cn`: class-name merging is done by third-party libraries.
- Utils.Slugify: `normalize('NFD')` is not modelled. An accented letter such as "é" is not split into a base letter and a combining mark, so the model drops it where JavaScript keeps the base letter. The removal of combining marks that are already separate is modelled.
- Text.ToLower, Text.ToUpper: only ASCII letters change case. JavaScript also maps other letters, some of them to ASCII (the Kelvin sign U+212A lowers to "k").
- Strings are sequences of Unicode characters, not UTF-16 code units. This matters to `capitalize` and `charAt(0)` only for characters outside the Basic Multilingual Plane.
- Text.ParseNumber: `Number()` is modelled for integer numerals only: surrounding whitespace, an optional sign and decimal digits, with the empty text read as 0. Fractions, exponents, hexadecimal, binary and octal literals, `Infinity`, and their ranks in `resolveHeatRank` are not modelled; such texts read as "not a number" here.
- Text.ParseNumberIgnoresCase: holds only for the integer numerals modelled. In JavaScript `Number("Infinity")` is Infinity while `Number("infinity")` and `Number("INFINITY")` are NaN, so `Number()` is not blind to letter case in general.
- ProductArchive.HeatRankIgnoresCase: holds only for the labels modelled. "Infinity" ranks as Infinity in `resolveHeatRank` while "INFINITY" has no rank, so the source's ranking is not blind to letter case in general.
- Text.IntToString: always writes plain decimal digits. JavaScript's `String(n)` switches to exponent notation from 1e21 on ("1e+21"), so heat numbers of that size are not modelled faithfully.
- Heat levels and quantities are integers. Non-integer heat numbers, NaN and fractional quantities (and the `Math.round` that would round them) are not modelled.
- Lookups in `HEAT_ORDER` and the category colour table with keys inherited from the JavaScript object prototype (such as "constructor") are not modelled.
- The `console.warn` for unknown products in `getProductWeight` is not modelled.
- JSX rendering, images and translations are not modelled. The page locale from `useLocale` and the option values chosen in the form controls are parameters.
