/**
 * `Models.getAssetsPrices`: the per-market price dictionaries are spread
 * one after another into `priceData`, so a later market's entry for an
 * asset replaces an earlier one. Each market's own dictionary
 * (`Market.getAssetsPrices`) is an input.
 */
module AssetPrices {
  import opened Records

  /** Index of the last dictionary in `dicts[..n]` that holds `key`. */
  predicate LastHolder(dicts: seq<Record>, n: nat, key: string, i: nat)
    requires n <= |dicts|
  {
    i < n && key in dicts[i] && forall j :: i < j < n ==> key !in dicts[j]
  }

  /**
   * `priceData = { ...priceData, ...assetPrices }` for each market in
   * turn: the result holds every key of every dictionary, with the value
   * of the last dictionary that has it.
   */
  method AccumulatePrices(dicts: seq<Record>) returns (priceData: Record)
    ensures forall key :: key in priceData <==> exists i :: 0 <= i < |dicts| && key in dicts[i]
    ensures forall key, i :: 0 <= i < |dicts| && LastHolder(dicts, |dicts|, key, i) ==>
              key in priceData && priceData[key] == dicts[i][key]
  {
    priceData := map[];
    var n := 0;
    while n < |dicts|
      invariant 0 <= n <= |dicts|
      invariant forall key :: key in priceData <==> exists i :: 0 <= i < n && key in dicts[i]
      invariant forall key, i :: 0 <= i < n && LastHolder(dicts, n, key, i) ==>
                  key in priceData && priceData[key] == dicts[i][key]
    {
      priceData := priceData + dicts[n];
      n := n + 1;
    }
  }
}
