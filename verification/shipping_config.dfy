/**
 * Package weight estimator: every order item is classified by keywords in its
 * lower-cased name, given a fixed unit weight in grams, and the weights times
 * the quantities are summed on top of the empty box; the total is reported in
 * kilograms with a floor of 0.01 kg.
 */
module ShippingConfig {
  import opened Wrappers
  import opened Text

  /** Box dimensions in millimetres and empty-box weight in grams. */
  const BoxLengthMm: int := 230
  const BoxWidthMm: int := 155
  const BoxHeightMm: int := 90
  const BoxWeightGrams: int := 100

  /** Bottle weight in grams, keyed by capacity in millilitres. */
  const BottleGrams: map<int, nat> := map[100 := 280, 200 := 450]
  const TshirtGrams: nat := 250
  const HoodieDefaultGrams: nat := 800
  const Hoodie2XLGrams: nat := 1000

  /** The smallest weight the carrier accepts, in kilograms. */
  const MinWeightKg: real := 0.01

  datatype OrderItem = OrderItem(
    productName: string,
    quantity: int,
    capacityMl: Option<int>,
    selectedSize: Option<string>)

  datatype ProductType = Bottle | Tshirt | Hoodie | Unknown

  datatype BoxDimensions = BoxDimensions(length: real, width: real, height: real)

  /** `getProductType`: keyword search in the lower-cased name. */
  function GetProductType(productName: string): ProductType {
    ClassifyName(ToLower(productName))
  }

  /** The keyword priority chain on an already lower-cased name: hoodie, then t-shirt, then bottle. */
  function ClassifyName(name: string): ProductType {
    if Contains(name, "hoodie") || Contains(name, "hoody") then Hoodie
    else if Contains(name, "t-shirt") || Contains(name, "tshirt") || Contains(name, "tee") then Tshirt
    else if Contains(name, "sauce") || Contains(name, "hot") || Contains(name, "chili") || Contains(name, "chilli") then Bottle
    else Unknown
  }

  /** Classification does not depend on letter case. */
  lemma {:induction false} ProductTypeIgnoresCase(productName: string)
    ensures GetProductType(ToUpper(productName)) == GetProductType(productName)
    ensures GetProductType(ToLower(productName)) == GetProductType(productName)
  {
    LowerOfUpper(productName);
    ToLowerIdempotent(productName);
  }

  /** A hoodie keyword wins over the sauce keywords ("hot", "sauce") in the same name. */
  lemma ProductTypeHoodieFirst()
    ensures ClassifyName("hot sauce hoodie") == Hoodie
  {
    assert OccursAt("hot sauce hoodie", "hoodie", 10);
    ContainsAt("hot sauce hoodie", "hoodie");
  }

  /** The bottle weight: 450 g for a 200 ml bottle, 280 g for anything else, including no capacity. */
  function BottleWeight(capacityMl: Option<int>): (grams: nat)
    ensures grams == if capacityMl == Some(200) then 450 else 280
  {
    // a missing or zero capacity counts as 100 ml
    var capacity := if capacityMl.None? || capacityMl.value == 0 then 100 else capacityMl.value;
    if capacity in BottleGrams && BottleGrams[capacity] != 0 then BottleGrams[capacity] else BottleGrams[100]
  }

  /** The hoodie weight: 1000 g for the sizes 2XL and XXL in any letter case, else 800 g. */
  function HoodieWeight(selectedSize: Option<string>): (grams: nat)
    ensures grams == 800 || grams == 1000
    ensures grams == 1000 <==> selectedSize.Some? && ToUpper(selectedSize.value) in {"2XL", "XXL"}
  {
    if selectedSize.Some? && (ToUpper(selectedSize.value) == "2XL" || ToUpper(selectedSize.value) == "XXL")
    then Hoodie2XLGrams
    else HoodieDefaultGrams
  }

  lemma HoodieWeightExamples()
    ensures HoodieWeight(Some("xxl")) == 1000 && HoodieWeight(Some("2xl")) == 1000
    ensures HoodieWeight(Some("XL")) == 800 && HoodieWeight(None) == 800
  {
  }

  /** `getProductWeight`: unit weight in grams. */
  function GetProductWeight(item: OrderItem): (grams: nat)
    ensures grams in {250, 280, 450, 800, 1000}
  {
    match GetProductType(item.productName)
    case Bottle => BottleWeight(item.capacityMl)
    case Tshirt => TshirtGrams
    case Hoodie => HoodieWeight(item.selectedSize)
    case Unknown => BottleGrams[100]
  }

  /** The weight of each kind of product; an unrecognised product weighs as a 100 ml bottle. */
  lemma ProductWeightByType(item: OrderItem)
    ensures GetProductType(item.productName) == Tshirt ==> GetProductWeight(item) == 250
    ensures GetProductType(item.productName) == Unknown ==> GetProductWeight(item) == 280
    ensures GetProductType(item.productName) == Bottle
      ==> GetProductWeight(item) == if item.capacityMl == Some(200) then 450 else 280
    ensures GetProductType(item.productName) == Hoodie
      ==> GetProductWeight(item) == if item.selectedSize.Some? && ToUpper(item.selectedSize.value) in {"2XL", "XXL"} then 1000 else 800
  {
  }

  /** The weight one order line adds. */
  function LineGrams(item: OrderItem): int {
    GetProductWeight(item) * item.quantity
  }

  /** The summed line weights of an order, accumulated front to back. */
  function ItemsGrams(items: seq<OrderItem>): int {
    if items == [] then 0 else ItemsGrams(items[..|items| - 1]) + LineGrams(items[|items| - 1])
  }

  /** Grams to kilograms, never below the carrier minimum. */
  function KgFromGrams(grams: int): (kg: real)
    ensures kg >= MinWeightKg
    ensures grams >= 10 ==> kg * 1000.0 == grams as real
    ensures grams < 10 ==> kg == MinWeightKg
  {
    var weightKg := grams as real / 1000.0;
    if MinWeightKg < weightKg then weightKg else MinWeightKg
  }

  /** The package weight in kilograms that the loop of `calculatePackageWeight` computes. */
  function PackageKg(items: seq<OrderItem>): real {
    KgFromGrams(BoxWeightGrams + ItemsGrams(items))
  }

  /** `calculatePackageWeight` */
  method CalculatePackageWeight(items: seq<OrderItem>) returns (kg: real)
    ensures kg == PackageKg(items)
    ensures kg >= MinWeightKg
  {
    var totalGrams := BoxWeightGrams;
    for i := 0 to |items|
      invariant totalGrams == BoxWeightGrams + ItemsGrams(items[..i])
    {
      assert items[..i + 1][..i] == items[..i];
      var itemWeight := GetProductWeight(items[i]);
      totalGrams := totalGrams + itemWeight * items[i].quantity;
    }
    assert items[..|items|] == items;
    // Math.round is the identity on a whole number of grams
    var weightKg := totalGrams as real / 1000.0;
    kg := if MinWeightKg < weightKg then weightKg else MinWeightKg;
  }

  /** Line weights add up over concatenation. */
  lemma {:induction false} ItemsGramsAppend(a: seq<OrderItem>, b: seq<OrderItem>)
    ensures ItemsGrams(a + b) == ItemsGrams(a) + ItemsGrams(b)
  {
    if b != [] {
      ItemsGramsAppend(a, b[..|b| - 1]);
      assert (a + b)[..|a + b| - 1] == a + b[..|b| - 1];
    } else {
      assert a + b == a;
    }
  }

  /** The total does not depend on the order of the items. */
  lemma {:induction false} ItemsGramsPermutation(a: seq<OrderItem>, b: seq<OrderItem>)
    requires multiset(a) == multiset(b)
    ensures ItemsGrams(a) == ItemsGrams(b)
    decreases |a|
  {
    if a == [] {
      assert |b| == |multiset(b)| == 0;
    } else {
      var n := |a| - 1;
      var x := a[n];
      assert x in multiset(b);
      var k :| 0 <= k < |b| && b[k] == x;
      var rest := b[..k] + b[k + 1..];
      assert b == b[..k] + [x] + b[k + 1..];
      assert a == a[..n] + [x];
      assert multiset(b) == multiset(b[..k]) + multiset{x} + multiset(b[k + 1..]);
      assert multiset(a) == multiset(a[..n]) + multiset{x};
      assert multiset(rest) == multiset(b[..k]) + multiset(b[k + 1..]);
      assert multiset(rest) == multiset(b) - multiset{x};
      assert multiset(a[..n]) == multiset(a) - multiset{x};
      ItemsGramsPermutation(a[..n], rest);
      ItemsGramsAppend(b[..k] + [x], b[k + 1..]);
      ItemsGramsAppend(b[..k], b[k + 1..]);
      assert (b[..k] + [x])[..k] == b[..k];
    }
  }

  /** With non-negative quantities the line weights never sum below zero. */
  lemma {:induction false} ItemsGramsNonNegative(items: seq<OrderItem>)
    requires forall i :: 0 <= i < |items| ==> items[i].quantity >= 0
    ensures ItemsGrams(items) >= 0
  {
    if items != [] {
      ItemsGramsNonNegative(items[..|items| - 1]);
    }
  }

  lemma KgFromGramsMonotone(g1: int, g2: int)
    requires g1 <= g2
    ensures KgFromGrams(g1) <= KgFromGrams(g2)
  {
  }

  /** With whole non-negative quantities the weight is exactly (box + items) / 1000 kg. */
  lemma PackageKgExact(items: seq<OrderItem>)
    requires forall i :: 0 <= i < |items| ==> items[i].quantity >= 0
    ensures PackageKg(items) * 1000.0 == (BoxWeightGrams + ItemsGrams(items)) as real
  {
    ItemsGramsNonNegative(items);
  }

  /** An empty order weighs only the box: 0.1 kg. */
  lemma PackageKgEmpty()
    ensures PackageKg([]) == 0.1
  {
  }

  /** Appending an item never makes the package lighter. */
  lemma {:induction false} PackageKgAppend(items: seq<OrderItem>, item: OrderItem)
    requires item.quantity >= 0
    ensures PackageKg(items) <= PackageKg(items + [item])
  {
    assert (items + [item])[..|items|] == items;
    KgFromGramsMonotone(BoxWeightGrams + ItemsGrams(items), BoxWeightGrams + ItemsGrams(items + [item]));
  }

  /** The total splits around any one line. */
  lemma ItemsGramsSplit(items: seq<OrderItem>, i: nat)
    requires i < |items|
    ensures ItemsGrams(items) == ItemsGrams(items[..i]) + LineGrams(items[i]) + ItemsGrams(items[i + 1..])
  {
    assert items == items[..i + 1] + items[i + 1..];
    ItemsGramsAppend(items[..i + 1], items[i + 1..]);
    assert items[..i + 1][..i] == items[..i];
  }

  /** A larger quantity on a line never weighs less: unit weights are positive. */
  lemma LineGramsMonotone(item: OrderItem, quantity: int)
    requires item.quantity <= quantity
    ensures LineGrams(item) <= LineGrams(item.(quantity := quantity))
  {
    var w := GetProductWeight(item);
    assert GetProductWeight(item.(quantity := quantity)) == w;
    assert w * quantity - w * item.quantity == w * (quantity - item.quantity);
  }

  /** Raising the quantity of one line (doubling it, say) never makes the package lighter. */
  lemma {:induction false} PackageKgQuantityGrows(items: seq<OrderItem>, i: nat, quantity: int)
    requires i < |items| && items[i].quantity <= quantity
    ensures PackageKg(items) <= PackageKg(items[i := items[i].(quantity := quantity)])
  {
    var grown := items[i := items[i].(quantity := quantity)];
    ItemsGramsSplit(items, i);
    ItemsGramsSplit(grown, i);
    assert grown[..i] == items[..i] && grown[i + 1..] == items[i + 1..];
    LineGramsMonotone(items[i], quantity);
    KgFromGramsMonotone(BoxWeightGrams + ItemsGrams(items), BoxWeightGrams + ItemsGrams(grown));
  }

  /** Reordering the items leaves the package weight unchanged. */
  lemma PackageKgPermutation(a: seq<OrderItem>, b: seq<OrderItem>)
    requires multiset(a) == multiset(b)
    ensures PackageKg(a) == PackageKg(b)
  {
    ItemsGramsPermutation(a, b);
  }

  /** `getBoxDimensions`: the box dimensions converted from millimetres to centimetres. */
  function GetBoxDimensions(): (d: BoxDimensions)
    ensures d.length * 10.0 == BoxLengthMm as real
    ensures d.width * 10.0 == BoxWidthMm as real
    ensures d.height * 10.0 == BoxHeightMm as real
  {
    BoxDimensions(BoxLengthMm as real / 10.0, BoxWidthMm as real / 10.0, BoxHeightMm as real / 10.0)
  }

  lemma BoxDimensionsInCm()
    ensures GetBoxDimensions() == BoxDimensions(23.0, 15.5, 9.0)
  {
  }
}
