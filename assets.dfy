/**
 * Outcome assets: the tradable tokens of a market, derived from its market
 * type (`fetchMarketData`, the `outcomeAssets` computation).
 */
module Assets {

  /** The side of a scalar market an asset stands for. */
  datatype ScalarPosition = Long | Short

  /** The chain's `Asset` values built with `createType("Asset", …)`. */
  datatype Asset =
    | CategoricalOutcome(marketId: nat, index: nat)
    | ScalarOutcome(marketId: nat, position: ScalarPosition)

  /** A market's type: `Categorical` with its outcome count, or `Scalar` with its bounds. */
  datatype MarketType = Categorical(outcomes: nat) | Scalar(low: int, high: int)

  /** The keys of `Array(n)`, each mapped to the categorical asset of that index. */
  function CategoricalAssets(marketId: nat, n: nat): (r: seq<Asset>)
    ensures |r| == n
    ensures forall i :: 0 <= i < n ==> r[i] == CategoricalOutcome(marketId, i)
  {
    if n == 0 then [] else CategoricalAssets(marketId, n - 1) + [CategoricalOutcome(marketId, n - 1)]
  }

  /**
   * The outcome assets of market `marketId`: one categorical asset per
   * outcome for a categorical market, otherwise Long then Short.
   */
  function OutcomeAssets(marketId: nat, marketType: MarketType): (r: seq<Asset>)
    ensures forall a :: a in r ==> a.marketId == marketId
    ensures marketType.Categorical? ==> |r| == marketType.outcomes
    ensures marketType.Categorical? ==>
              forall i :: 0 <= i < |r| ==> r[i].CategoricalOutcome? && r[i].index == i
    ensures !marketType.Categorical? ==>
              r == [ScalarOutcome(marketId, Long), ScalarOutcome(marketId, Short)]
  {
    if marketType.Categorical? then CategoricalAssets(marketId, marketType.outcomes)
    else [ScalarOutcome(marketId, Long), ScalarOutcome(marketId, Short)]
  }

  /** An asset that belongs to a market of the given id and type. */
  predicate BelongsTo(a: Asset, marketId: nat, marketType: MarketType)
  {
    a.marketId == marketId
    && match marketType
       case Categorical(n) => a.CategoricalOutcome? && a.index < n
       case Scalar(_, _) => a.ScalarOutcome?
  }

  /** The derived list holds exactly the assets that belong to the market. */
  lemma OutcomeAssetsMembership(marketId: nat, marketType: MarketType, a: Asset)
    ensures a in OutcomeAssets(marketId, marketType) <==> BelongsTo(a, marketId, marketType)
  {
    var r := OutcomeAssets(marketId, marketType);
    if BelongsTo(a, marketId, marketType) {
      match a
      case CategoricalOutcome(_, i) =>
        assert r[i] == a;
      case ScalarOutcome(_, p) =>
        assert a == if p == Long then r[0] else r[1];
    }
  }

  /** No asset appears twice, and the list has one entry per outcome. */
  lemma OutcomeAssetsDistinct(marketId: nat, marketType: MarketType)
    ensures forall i, j :: 0 <= i < j < |OutcomeAssets(marketId, marketType)| ==>
              OutcomeAssets(marketId, marketType)[i] != OutcomeAssets(marketId, marketType)[j]
    ensures |OutcomeAssets(marketId, marketType)| ==
              match marketType
              case Categorical(n) => n
              case Scalar(_, _) => 2
  {
  }

  /** Two different markets never share an outcome asset. */
  lemma OutcomeAssetsDisjoint(m1: nat, t1: MarketType, m2: nat, t2: MarketType)
    requires m1 != m2
    ensures forall a :: a in OutcomeAssets(m1, t1) ==> a !in OutcomeAssets(m2, t2)
  {
  }
}
