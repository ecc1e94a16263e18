/**
 * The brand card: a producer's name and link, the size of its range, the
 * first three products as tiles with a "+n" tile for the rest, the first two
 * as a text list with links, and a coloured dot for each product's heat.
 */
module BrandCard {
  import opened Wrappers
  import opened Text
  import opened StoreTypes
  import JsArray
  import Links
  import ProductCard

  const Red: string := "bg-red-500"
  const Green: string := "bg-green-400"
  const Yellow: string := "bg-yellow-400"
  const Orange: string := "bg-orange-400"

  /** Tiles shown before the "+n" tile; products in the text list. */
  const TileCount: nat := 3
  const TextListCount: nat := 2

  /** The dot colour of a lower-cased heat label: the first of mild, medium and hot it mentions. */
  function ColorOfLabel(normalized: string): string {
    if Contains(normalized, "mild") then Green
    else if Contains(normalized, "medium") then Yellow
    else if Contains(normalized, "hot") then Orange
    else Red
  }

  /** `heatColor` */
  function HeatColor(heatLevel: HeatLevel): (color: string)
    ensures color in {Red, Green, Yellow, Orange}
    ensures color == Green <==> HeatString(heatLevel).Some? && Contains(ToLower(HeatString(heatLevel).value), "mild")
    ensures heatLevel.NoHeat? || heatLevel == HeatText("") ==> color == Red
  {
    match HeatString(heatLevel)
    case None => Red
    case Some(text) => if text == "" then Red else ColorOfLabel(ToLower(text))
  }

  /** The colour does not depend on the letter case of the label. */
  lemma HeatColorIgnoresCase(a: string, b: string)
    requires ToLower(a) == ToLower(b)
    ensures HeatColor(HeatText(a)) == HeatColor(HeatText(b))
  {
    assert |a| == |ToLower(a)| == |b|;
  }

  /** A numeric heat level mentions no word, so its dot is always red. */
  lemma NumericHeatIsRed(n: int)
    ensures HeatColor(HeatNum(n)) == Red
  {
    var s := IntToString(n);
    assert forall i :: 0 <= i < |s| ==> !IsUpper(s[i]) && !IsLower(s[i]);
    ToLowerNoUpper(s);
    NoLetterNoContains(s, "mild");
    NoLetterNoContains(s, "medium");
    NoLetterNoContains(s, "hot");
  }

  /** A label that mentions "hot" but neither "mild" nor "medium" gets the orange dot. */
  lemma HotLabelIsOrange(text: string)
    requires text != []
    requires Contains(ToLower(text), "hot")
    requires !Contains(ToLower(text), "mild") && !Contains(ToLower(text), "medium")
    ensures HeatColor(HeatText(text)) == Orange
  {
  }

  lemma HotIsOrange()
    ensures HeatColor(HeatText("hot")) == Orange
  {
    var text := "hot";
    assert ToLower(text) == text;
    AbsentCharNoContains(text, "mild", 0);
    AbsentCharNoContains(text, "medium", 0);
    assert OccursAt(text, "hot", 0);
    ContainsAt(text, "hot");
  }

  /** "mild" wins over everything, "medium" over "hot". */
  lemma HeatColorPriority(text: string)
    requires text != [] && Contains(ToLower(text), "medium") && !Contains(ToLower(text), "mild")
    ensures HeatColor(HeatText(text)) == Yellow
  {
  }

  /** A label that mentions none of mild, medium and hot gets the red fallback. */
  lemma UnmarkedLabelIsRed(text: string)
    requires text != []
    requires !Contains(ToLower(text), "mild") && !Contains(ToLower(text), "medium")
    requires !Contains(ToLower(text), "hot")
    ensures HeatColor(HeatText(text)) == Red
  {
  }

  /** "extreme" is lower-case and mentions none of the three keywords. */
  lemma ExtremeIsUnmarked()
    ensures ToLower("extreme") == "extreme"
    ensures !Contains("extreme", "mild") && !Contains("extreme", "medium") && !Contains("extreme", "hot")
  {
    var text := "extreme";
    AbsentCharNoContains(text, "mild", 3);
    AbsentCharNoContains(text, "medium", 2);
    AbsentCharNoContains(text, "hot", 0);
  }

  lemma ExtremeIsRed()
    ensures HeatColor(HeatText("extreme")) == Red
  {
    ExtremeIsUnmarked();
    UnmarkedLabelIsRed("extreme");
  }


  /** Whether a product shows a heat dot at all: only for a truthy heat level. */
  predicate ShowsHeatDot(heatLevel: HeatLevel) {
    (heatLevel.HeatNum? && heatLevel.n != 0) || (heatLevel.HeatText? && heatLevel.s != "")
  }

  /** A shown dot takes its colour from a non-empty label. */
  lemma ShownDotColor(heatLevel: HeatLevel)
    requires ShowsHeatDot(heatLevel)
    ensures HeatString(heatLevel).Some? && HeatString(heatLevel).value != ""
    ensures HeatColor(heatLevel) == ColorOfLabel(ToLower(HeatString(heatLevel).value))
  {
  }

  /** `locale`: a non-empty locale passed in wins over the one of the page. */
  function ResolveLocale(propLocale: Option<string>, hookLocale: string): (locale: string)
    ensures locale == hookLocale || (propLocale.Some? && locale == propLocale.value != "")
    ensures propLocale.Some? && propLocale.value != "" ==> locale == propLocale.value
  {
    match propLocale
    case Some(l) => if l != "" then l else hookLocale
    case None => hookLocale
  }

  /** `brandHref` */
  function BrandHref(propLocale: Option<string>, hookLocale: string, brand: StoreBrand): string {
    Links.LocalePath(ResolveLocale(propLocale, hookLocale), "brands", brand.slug)
  }

  /** The link of a product in the text list. */
  function ProductHref(locale: string, product: StoreProduct): string {
    Links.LocalePath(locale, "products", product.slug)
  }

  /** Two brand links in the same locale differ exactly when the slugs differ. */
  lemma BrandHrefIdentifiesBrand(propLocale: Option<string>, hookLocale: string, a: StoreBrand, b: StoreBrand)
    requires Links.NoSlash(ResolveLocale(propLocale, hookLocale))
    ensures BrandHref(propLocale, hookLocale, a) == BrandHref(propLocale, hookLocale, b) <==> a.slug == b.slug
  {
    var locale := ResolveLocale(propLocale, hookLocale);
    if BrandHref(propLocale, hookLocale, a) == BrandHref(propLocale, hookLocale, b) {
      Links.LocalePathInjective(locale, "brands", a.slug, locale, "brands", b.slug);
    }
  }

  /** A brand link is never a product link. */
  lemma BrandAndProductLinksDiffer(propLocale: Option<string>, hookLocale: string, brand: StoreBrand, locale: string, product: StoreProduct)
    requires Links.NoSlash(ResolveLocale(propLocale, hookLocale)) && Links.NoSlash(locale)
    ensures BrandHref(propLocale, hookLocale, brand) != ProductHref(locale, product)
  {
    if BrandHref(propLocale, hookLocale, brand) == ProductHref(locale, product) {
      Links.LocalePathInjective(ResolveLocale(propLocale, hookLocale), "brands", brand.slug, locale, "products", product.slug);
      assert false;
    }
  }

  /** The brand card's text list links a product under "products", not under the "shop" page the product card links to. */
  lemma ProductHrefIsNotProductUrl(locale: string, product: StoreProduct)
    requires Links.NoSlash(locale)
    ensures ProductHref(locale, product) != ProductCard.ProductUrl(locale, product)
  {
    if ProductHref(locale, product) == ProductCard.ProductUrl(locale, product) {
      Links.LocalePathInjective(locale, "products", product.slug, locale, "shop", product.slug);
    }
  }

  /** `productList`: the products passed in, or none. */
  function ProductList(products: Option<seq<StoreProduct>>): seq<StoreProduct> {
    products.GetOr([])
  }

  /** `displayProducts`: the products shown as tiles. */
  function DisplayProducts(productList: seq<StoreProduct>): seq<StoreProduct> {
    JsArray.SliceTo(productList, TileCount)
  }

  /** The number on the "+n" tile, when the tile is shown. */
  function OverflowCount(productList: seq<StoreProduct>): (overflow: Option<nat>)
    ensures overflow.Some? <==> |productList| > TileCount
    ensures overflow.Some? ==> overflow.value > 0
  {
    if |productList| > TileCount then Some(|productList| - TileCount) else None
  }

  /** The tiles and the "+n" tile account for every product exactly once. */
  lemma TilesAccountForAll(productList: seq<StoreProduct>)
    ensures |DisplayProducts(productList)| == if |productList| < TileCount then |productList| else TileCount
    ensures |DisplayProducts(productList)| + OverflowCount(productList).GetOr(0) == |productList|
    ensures DisplayProducts(productList) <= productList
    ensures OverflowCount(productList).None? ==> DisplayProducts(productList) == productList
  {
  }

  /** The products of the text list: the first two tiles, which are the first two products. */
  function TextListProducts(productList: seq<StoreProduct>): (listed: seq<StoreProduct>)
    ensures listed == JsArray.SliceTo(productList, TextListCount)
    ensures listed <= DisplayProducts(productList)
  {
    JsArray.SliceTo(DisplayProducts(productList), TextListCount)
  }

  /** The count reads "sauce" for exactly one product and "sauces" otherwise, including none. */
  predicate UsesSingularLabel(productList: seq<StoreProduct>) {
    |productList| == 1
  }

  lemma CountLabelExamples(p: StoreProduct)
    ensures UsesSingularLabel([p])
    ensures !UsesSingularLabel(ProductList(None)) && !UsesSingularLabel([p, p])
  {
  }
}
