/** The record shapes of the storefront catalogue, as the components receive them. */
module StoreTypes {
  import opened Wrappers
  import opened Text

  /** A database id: a number or a string. */
  datatype DbId = NumId(n: int) | StrId(s: string)

  /** A heat level as stored: missing (`null` / `undefined`), a number, or a label such as "Mild". */
  datatype HeatLevel = NoHeat | HeatNum(n: int) | HeatText(s: string)

  datatype ChilliType = ChilliType(id: DbId, name: string, slug: string, heatLevel: HeatLevel)

  datatype Category = Category(id: DbId, name: string, slug: string)

  datatype StoreBrand = StoreBrand(
    id: DbId,
    name: string,
    slug: string,
    description: Option<string>,
    country: Option<string>,
    logoUrl: Option<string>)

  datatype StoreProduct = StoreProduct(
    id: DbId,
    name: string,
    slug: string,
    priceCents: int,
    currency: string,
    description: Option<string>,
    imageUrl: Option<string>,
    heatLevel: HeatLevel,
    chilliTypes: Option<seq<ChilliType>>,
    category: Option<Category>,
    brandId: Option<DbId>,
    brand: Option<StoreBrand>,
    stock: Option<int>,
    isActive: Option<bool>)

  /** `id.toString()` */
  function IdToString(id: DbId): string {
    match id
    case NumId(n) => IntToString(n)
    case StrId(s) => s
  }

  /** `String(heatLevel)` for a present heat level; `None` when it is missing. */
  function HeatString(heatLevel: HeatLevel): Option<string> {
    match heatLevel
    case NoHeat => None
    case HeatNum(n) => Some(IntToString(n))
    case HeatText(s) => Some(s)
  }
}
