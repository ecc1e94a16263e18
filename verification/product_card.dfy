/**
 * The product card: a category badge coloured by the category's slug, the
 * price (a special price when one is given, with the regular price struck
 * through when the special one is lower) and the link to the product page.
 */
module ProductCard {
  import opened Wrappers
  import opened StoreTypes
  import Links

  const Zinc: string := "bg-zinc-100 text-zinc-800 border-zinc-200"

  /** The badge classes of the known category slugs. */
  const CategoryColors: map<string, string> := map[
    "classic-hot-sauce" := "bg-red-100 text-red-800 border-red-200",
    "fermented" := "bg-amber-100 text-amber-800 border-amber-200",
    "smoky" := "bg-orange-100 text-orange-800 border-orange-200",
    "fruit-forward" := "bg-lime-100 text-lime-800 border-lime-200",
    "chili-challenges-spicy-snacks" := "bg-purple-100 text-purple-800 border-purple-200",
    "chili-extracts" := "bg-rose-100 text-rose-800 border-rose-200",
    "chili-oil" := "bg-yellow-100 text-yellow-800 border-yellow-200",
    "dried-chilies-pods-flakes-powders" := "bg-emerald-100 text-emerald-800 border-emerald-200",
    "gift-boxes-sets" := "bg-blue-100 text-blue-800 border-blue-200",
    "hot-honey" := "bg-orange-100 text-orange-800 border-orange-200",
    "salts-seasonings-rubs" := "bg-cyan-100 text-cyan-800 border-cyan-200"
  ]

  /** `getCategoryColor`: the classes of a known slug; zinc for a missing, empty or unknown one. */
  function GetCategoryColor(slug: Option<string>): (color: string)
    ensures color == Zinc || color in CategoryColors.Values
    ensures slug.Some? && slug.value in CategoryColors ==> color == CategoryColors[slug.value]
    ensures slug.None? || slug.value !in CategoryColors ==> color == Zinc
  {
    match slug
    case None => Zinc
    case Some(s) => if s == "" then Zinc else if s in CategoryColors then CategoryColors[s] else Zinc
  }

  /** Smoky sauces and hot honey share the orange badge. */
  lemma SmokyAndHotHoneyShareColor()
    ensures GetCategoryColor(Some("smoky")) == GetCategoryColor(Some("hot-honey"))
  {
  }

  /** `displayPrice`: the special price when one is given (even 0), else the regular price. */
  function DisplayPrice(specialPrice: Option<int>, priceCents: int): (shown: int)
    ensures specialPrice.Some? ==> shown == specialPrice.value
    ensures specialPrice.None? ==> shown == priceCents
  {
    specialPrice.GetOr(priceCents)
  }

  /** `hasDiscount`: a special price that is non-zero and below the regular price. */
  predicate HasDiscount(specialPrice: Option<int>, priceCents: int) {
    specialPrice.Some? && specialPrice.value != 0 && specialPrice.value < priceCents
  }

  /** When the regular price is struck through, the price shown is strictly lower. */
  lemma DiscountShowsLowerPrice(specialPrice: Option<int>, priceCents: int)
    requires HasDiscount(specialPrice, priceCents)
    ensures DisplayPrice(specialPrice, priceCents) < priceCents
  {
  }

  /** Without a strike-through, the shown price is the regular one, a zero special price, or a special price that is not lower. */
  lemma NoDiscountCases(specialPrice: Option<int>, priceCents: int)
    requires !HasDiscount(specialPrice, priceCents)
    ensures var shown := DisplayPrice(specialPrice, priceCents);
      shown == priceCents || shown == 0 || shown > priceCents
  {
  }

  /** A special price of 0 is shown as the price, with no discount marked. */
  lemma ZeroSpecialPrice(priceCents: int)
    ensures DisplayPrice(Some(0), priceCents) == 0 && !HasDiscount(Some(0), priceCents)
  {
  }

  /** `productUrl` */
  function ProductUrl(locale: string, product: StoreProduct): string {
    Links.LocalePath(locale, "shop", product.slug)
  }

  /** Product cards in one locale link to the same page exactly when the products share a slug. */
  lemma ProductUrlIdentifiesProduct(locale: string, a: StoreProduct, b: StoreProduct)
    requires Links.NoSlash(locale)
    ensures ProductUrl(locale, a) == ProductUrl(locale, b) <==> a.slug == b.slug
  {
    if ProductUrl(locale, a) == ProductUrl(locale, b) {
      Links.LocalePathInjective(locale, "shop", a.slug, locale, "shop", b.slug);
    }
  }
}
