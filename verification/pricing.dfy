/**
 * Shipping cost resolver: a destination country code is classified into a
 * rate zone, the zone's rate is looked up in a constant table, and the cost
 * in euro cents is either zero (free-shipping threshold reached) or the base
 * price plus a per-kilogram charge on the weight rounded up to whole kilograms.
 */
module Pricing {
  import opened Wrappers
  import opened Text

  datatype ShippingRate = ShippingRate(
    name: string,
    basePriceCents: int,
    perKgCents: int,
    freeShippingThresholdCents: Option<int>)

  /** The rate table, keyed by zone name. */
  const ShippingRates: map<string, ShippingRate> := map[
    "DEU" := ShippingRate("Germany (National)", 590, 0, Some(5000)),
    "EU1" := ShippingRate("EU Zone 1", 1290, 0, None),
    "DEFAULT" := ShippingRate("International Shipping", 1990, 200, None)
  ]

  /** The alpha-3 codes of EU zone 1. */
  const EuZone1: seq<string> := ["AUT", "BEL", "CZE", "DNK", "FRA", "LUX", "NLD", "POL"]

  /** `Math.ceil`: the least integer not below `x`. */
  function Ceil(x: real): (r: int)
    ensures r as real - 1.0 < x <= r as real
  {
    if x.Floor as real == x then x.Floor else x.Floor + 1
  }

  lemma CeilMonotone(x: real, y: real)
    requires x <= y
    ensures Ceil(x) <= Ceil(y)
  {
  }

  /** `getRateZone`: the zone name of a country code, compared after upper-casing. */
  function GetRateZone(countryCode: string): (zone: string)
    ensures zone in ShippingRates
    ensures zone == "DEU" || zone == "EU1" || zone == "DEFAULT"
    ensures |countryCode| == 2 && ToUpper(countryCode) != "DE" ==> zone == "DEFAULT"
  {
    var code := ToUpper(countryCode);
    if code == "DEU" || code == "DE" then "DEU"
    else if code in EuZone1 then "EU1"
    else "DEFAULT"
  }

  /** The rate of a zone; a zone missing from the table would fall back to DEFAULT. */
  function RateFor(zone: string): ShippingRate {
    if zone in ShippingRates then ShippingRates[zone] else ShippingRates["DEFAULT"]
  }

  /** `calculateShippingCost` in cents; the caller passes 0 for an omitted subtotal. */
  function CalculateShippingCost(countryCode: string, weightKg: real, subtotalCents: int): (cost: int)
    ensures cost == 0 <==> GetRateZone(countryCode) == "DEU" && subtotalCents >= 5000
    ensures weightKg >= 0.0 ==> cost >= 0
  {
    var rate := RateFor(GetRateZone(countryCode));
    var threshold := rate.freeShippingThresholdCents;
    // the threshold takes effect only when present and non-zero (JavaScript truthiness)
    if threshold.Some? && threshold.value != 0 && subtotalCents >= threshold.value then 0
    else rate.basePriceCents + Ceil(weightKg) * rate.perKgCents
  }

  /** Classification ignores letter case. */
  lemma {:induction false} RateZoneIgnoresCase(countryCode: string)
    ensures GetRateZone(ToLower(countryCode)) == GetRateZone(countryCode)
    ensures GetRateZone(ToUpper(countryCode)) == GetRateZone(countryCode)
  {
    UpperOfLower(countryCode);
    assert ToUpper(ToUpper(countryCode)) == ToUpper(countryCode);
  }

  /** The classification chain: DE/DEU, then the eight zone-1 codes, then everything else. */
  lemma RateZoneClassification(countryCode: string)
    ensures GetRateZone(countryCode) == "DEU" <==> ToUpper(countryCode) in {"DE", "DEU"}
    ensures GetRateZone(countryCode) == "EU1" <==> ToUpper(countryCode) in EuZone1
    ensures GetRateZone(countryCode) == "DEFAULT"
      <==> ToUpper(countryCode) !in {"DE", "DEU"} && ToUpper(countryCode) !in EuZone1
  {
  }

  /** German codes in any letter case. */
  lemma GermanZoneExamples()
    ensures GetRateZone("de") == "DEU" && GetRateZone("Deu") == "DEU" && GetRateZone("DEU") == "DEU"
  {
    assert ToUpper("de") == "DE";
    assert ToUpper("Deu") == "DEU";
  }

  /** Alpha-3 codes of zone 1; the alpha-2 form of the same country is not in the list. */
  lemma ZoneOneExamples()
    ensures GetRateZone("fra") == "EU1" && GetRateZone("FRA") == "EU1"
    ensures GetRateZone("FR") == "DEFAULT"
  {
    assert ToUpper("fra") == EuZone1[4];
    assert ToUpper("FRA") == EuZone1[4];
  }

  /** An unknown code falls through to the default zone. */
  lemma DefaultZoneExample()
    ensures GetRateZone("XYZ") == "DEFAULT"
  {
    var code := ToUpper("XYZ");
    assert code == "XYZ";
    assert code[0] == 'X';
    assert forall i :: 0 <= i < |EuZone1| ==> EuZone1[i][0] != 'X';
  }


  /** Outside the free case the cost is base + ceil(weight) * perKg of the zone. */
  lemma ShippingCostPerZone(countryCode: string, weightKg: real, subtotalCents: int)
    ensures GetRateZone(countryCode) == "DEU" && subtotalCents < 5000
      ==> CalculateShippingCost(countryCode, weightKg, subtotalCents) == 590
    ensures GetRateZone(countryCode) == "EU1"
      ==> CalculateShippingCost(countryCode, weightKg, subtotalCents) == 1290
    ensures GetRateZone(countryCode) == "DEFAULT"
      ==> CalculateShippingCost(countryCode, weightKg, subtotalCents) == 1990 + 200 * Ceil(weightKg)
  {
    var zone := GetRateZone(countryCode);
    if zone == "DEU" {
      assert RateFor(zone) == ShippingRate("Germany (National)", 590, 0, Some(5000));
    } else if zone == "EU1" {
      assert RateFor(zone) == ShippingRate("EU Zone 1", 1290, 0, None);
    } else {
      assert RateFor(zone) == ShippingRate("International Shipping", 1990, 200, None);
    }
  }

  /** Only Germany ships free; the other zones never cost less than their base price. */
  lemma OnlyNationalShipsFree(countryCode: string, weightKg: real, subtotalCents: int)
    requires weightKg >= 0.0
    ensures GetRateZone(countryCode) == "EU1"
      ==> CalculateShippingCost(countryCode, weightKg, subtotalCents) >= 1290
    ensures GetRateZone(countryCode) == "DEFAULT"
      ==> CalculateShippingCost(countryCode, weightKg, subtotalCents) >= 1990
  {
  }

  /** A heavier package never costs less. */
  lemma ShippingCostMonotoneInWeight(countryCode: string, w1: real, w2: real, subtotalCents: int)
    requires w1 <= w2
    ensures CalculateShippingCost(countryCode, w1, subtotalCents)
         <= CalculateShippingCost(countryCode, w2, subtotalCents)
  {
    CeilMonotone(w1, w2);
  }

  /** A larger subtotal never costs more. */
  lemma ShippingCostAntitoneInSubtotal(countryCode: string, weightKg: real, s1: int, s2: int)
    requires s1 <= s2
    ensures CalculateShippingCost(countryCode, weightKg, s2)
         <= CalculateShippingCost(countryCode, weightKg, s1)
  {
  }

  lemma ShippingCostExamples()
    ensures CalculateShippingCost("DEU", 2.3, 5500) == 0
    ensures CalculateShippingCost("DEU", 2.3, 100) == 590
    ensures CalculateShippingCost("FRA", 3.1, 0) == 1290
    ensures CalculateShippingCost("XYZ", 1.0, 0) == 2190
    ensures CalculateShippingCost("XYZ", 1.01, 0) == 2390
  {
    GermanZoneExamples();
    ZoneOneExamples();
    DefaultZoneExample();
    ShippingCostPerZone("DEU", 2.3, 100);
    ShippingCostPerZone("FRA", 3.1, 0);
    assert Ceil(1.0) == 1;
    ShippingCostPerZone("XYZ", 1.0, 0);
    assert Ceil(1.01) == 2;
    ShippingCostPerZone("XYZ", 1.01, 0);
  }

}
