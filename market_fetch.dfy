/**
 * Assembly of one market (`Models.fetchMarketData`): read the raw record,
 * resolve its metadata with a JSON-then-legacy fallback, derive its
 * outcome assets and overlay all of it on the record.
 *
 * The chain query, the IPFS read and `JSON.parse` are parameters: the
 * stored record is an input, `store` is the IPFS read of a locator (None
 * when it throws), and `parse` gives the own properties of what
 * `JSON.parse` returns (None when it throws).
 */
module MarketFetch {
  import opened Wrappers
  import opened JsString
  import opened Records
  import opened Assets
  import LegacyMetadata

  /**
   * An existing market as read from storage: its JSON form, its metadata
   * locator after `hexToString`, and its market type.
   */
  datatype RawMarket = RawMarket(json: Record, metadataString: JsText, marketType: MarketType)

  datatype FetchError = MarketNotFound(marketId: nat)

  type Store = JsText -> Option<JsText>
  type JsonParser = JsText -> Option<Record>

  /** The keys the assembler writes besides the metadata fields. */
  const DerivedKeys: set<string> := {"marketId", "metadataString", "outcomeAssets"}

  /**
   * A `__proto__` key of the overlay is not copied: `Object.assign` writes
   * it through the inherited `__proto__` setter, which changes the target's
   * prototype instead of adding an own key.
   */
  const ProtoKey: string := "__proto__"

  /** Every key the assembler may overwrite when the metadata is a plain document. */
  const MarketKeys: set<string> := MetadataKeys + DerivedKeys

  function AssetList(assets: seq<Asset>): (v: Value)
    ensures v.Arr? && |v.items| == |assets|
    ensures forall i :: 0 <= i < |assets| ==> v.items[i] == AssetValue(assets[i])
  {
    Arr(seq(|assets|, i requires 0 <= i < |assets| => AssetValue(assets[i])))
  }

  /** The store reads resolving `metadataString` performs. */
  function StoreReads(metadataString: JsText): seq<JsText>
  {
    if metadataString == [] then [] else [metadataString]
  }

  /**
   * The metadata `data` ends with: the sentinel when the locator is empty
   * or the read throws, the parsed JSON as it is when it parses, and the
   * legacy extraction otherwise.
   */
  function ResolveMetadata(metadataString: JsText, store: Store, parse: JsonParser): (r: Record)
    ensures r == ToRecord(Sentinel())
            || (metadataString != [] && store(metadataString).Some?
                && (parse(store(metadataString).value) == Some(r)
                    || r == ToRecord(LegacyMetadata.Extract(store(metadataString).value))))
    ensures r.Keys == MetadataKeys
            || (metadataString != [] && store(metadataString).Some?
                && parse(store(metadataString).value) == Some(r))
  {
    if metadataString == [] then ToRecord(Sentinel())
    else
      match store(metadataString)
      case None => ToRecord(Sentinel())
      case Some(raw) =>
        match parse(raw)
        case Some(parsed) => parsed
        case None => ToRecord(LegacyMetadata.Extract(raw))
  }

  /**
   * `Object.assign(record, {...data, marketId, metadataString, outcomeAssets})`:
   * later sources win, no key of the record is removed, and a metadata key
   * `__proto__` adds nothing.
   */
  function Merge(record: Record, data: Record, marketId: nat, metadataString: JsText,
                 assets: seq<Asset>): (r: Record)
    ensures r.Keys == record.Keys + (data.Keys - {ProtoKey}) + DerivedKeys
    ensures r["marketId"] == Num(marketId)
    ensures r["metadataString"] == Str(metadataString)
    ensures r["outcomeAssets"] == AssetList(assets)
    ensures forall k :: k in data && k != ProtoKey && k !in DerivedKeys ==> r[k] == data[k]
    ensures forall k :: k in record && (k !in data || k == ProtoKey) && k !in DerivedKeys ==> r[k] == record[k]
  {
    var overlay := data + map["marketId" := Num(marketId), "metadataString" := Str(metadataString),
                              "outcomeAssets" := AssetList(assets)];
    record + (overlay - {ProtoKey})
  }

  /** The market object `fetchMarketData` builds from an existing record. */
  function AssembledMarket(marketId: nat, raw: RawMarket, store: Store, parse: JsonParser): (r: Record)
    ensures var data := ResolveMetadata(raw.metadataString, store, parse);
            && r.Keys == raw.json.Keys + (data.Keys - {ProtoKey}) + DerivedKeys
            && (forall k :: k in raw.json && (k !in data || k == ProtoKey) && k !in DerivedKeys
                 ==> r[k] == raw.json[k])
            && (forall k :: k in data && k != ProtoKey && k !in DerivedKeys ==> r[k] == data[k])
            && r["marketId"] == Num(marketId)
            && r["metadataString"] == Str(raw.metadataString)
            && r["outcomeAssets"] == AssetList(OutcomeAssets(marketId, raw.marketType))
  {
    Merge(raw.json, ResolveMetadata(raw.metadataString, store, parse), marketId,
          raw.metadataString, OutcomeAssets(marketId, raw.marketType))
  }

  /**
   * `fetchMarketData`: fails before any metadata read when the record is
   * missing; otherwise reads the store at most once and returns the
   * assembled market. `requested` lists the locators given to the store.
   */
  method FetchMarketData(marketId: nat, stored: Option<RawMarket>, store: Store, parse: JsonParser)
    returns (market: Result<Record, FetchError>, requested: seq<JsText>)
    ensures stored.None? ==> market == Failure(MarketNotFound(marketId)) && requested == []
    ensures stored.Some? ==> requested == StoreReads(stored.value.metadataString)
    ensures stored.Some? ==> market == Success(AssembledMarket(marketId, stored.value, store, parse))
  {
    requested := [];
    if stored.None? {
      market := Failure(MarketNotFound(marketId));
      return;
    }
    var raw := stored.value;
    var metadataString := raw.metadataString;

    // Default to no metadata; replaced below when the locator resolves.
    var data := ToRecord(Sentinel());
    if metadataString != [] {
      requested := requested + [metadataString];
      var content := store(metadataString);
      if content.Some? {
        var parsed := parse(content.value);
        if parsed.Some? {
          data := parsed.value;
        } else {
          data := ToRecord(LegacyMetadata.Extract(content.value));
        }
      }
      // A read that throws is logged and leaves the default in place.
    }

    var outcomeAssets := OutcomeAssets(marketId, raw.marketType);
    var extendedMarket := raw.json;
    var overlay := data + map["marketId" := Num(marketId),
                              "metadataString" := Str(metadataString),
                              "outcomeAssets" := AssetList(outcomeAssets)];
    // `Object.assign` sends a `__proto__` key to the prototype setter.
    extendedMarket := extendedMarket + (overlay - {ProtoKey});
    market := Success(extendedMarket);
  }

  // ----- Properties of the assembly -----

  /** An empty locator gives the sentinel whatever the store and the parser would do. */
  lemma EmptyLocatorKeepsSentinel(store1: Store, parse1: JsonParser, store2: Store, parse2: JsonParser)
    ensures ResolveMetadata([], store1, parse1) == ToRecord(Sentinel())
    ensures ResolveMetadata([], store1, parse1) == ResolveMetadata([], store2, parse2)
  {
  }

  /** A read that throws leaves the sentinel, whatever the parser would do. */
  lemma FailedReadKeepsSentinel(metadataString: JsText, store: Store, parse: JsonParser)
    requires store(metadataString).None?
    ensures ResolveMetadata(metadataString, store, parse) == ToRecord(Sentinel())
  {
  }

  /**
   * A document that parses as JSON is used verbatim, with no check of its
   * fields, and the legacy extractor plays no part.
   */
  lemma ParsedMetadataUsedVerbatim(metadataString: JsText, store: Store, parse: JsonParser)
    requires metadataString != [] && store(metadataString).Some?
    requires parse(store(metadataString).value).Some?
    ensures ResolveMetadata(metadataString, store, parse) == parse(store(metadataString).value).value
  {
  }

  /** A document that does not parse is read in the legacy format. */
  lemma UnparsedMetadataUsesLegacy(metadataString: JsText, store: Store, parse: JsonParser)
    requires metadataString != [] && store(metadataString).Some?
    requires parse(store(metadataString).value).None?
    ensures ResolveMetadata(metadataString, store, parse)
            == ToRecord(LegacyMetadata.Extract(store(metadataString).value))
    ensures ResolveMetadata(metadataString, store, parse)["categories"]
            == Arr(Strings(LegacyMetadata.LegacyCategories))
  {
  }

  /**
   * Overlaying a metadata document: the record gains exactly the six
   * market keys, which carry the document and the derived fields, and
   * every other key of the record keeps its value.
   */
  lemma MergeDocumentOverwritesOnlyMarketKeys(record: Record, m: Metadata, marketId: nat,
                                              metadataString: JsText, assets: seq<Asset>)
    ensures var r := Merge(record, ToRecord(m), marketId, metadataString, assets);
            && r.Keys == record.Keys + MarketKeys
            && (forall k :: k in record && k !in MarketKeys ==> r[k] == record[k])
            && r["title"] == Str(m.title)
            && r["description"] == Str(m.description)
            && r["categories"] == Arr(Strings(m.categories))
  {
    var r := Merge(record, ToRecord(m), marketId, metadataString, assets);
    assert "title" in ToRecord(m) && "title" !in DerivedKeys;
    assert "description" in ToRecord(m) && "description" !in DerivedKeys;
    assert "categories" in ToRecord(m) && "categories" !in DerivedKeys;
  }

  /**
   * A market created by `createNewMarket` reads back as created: when the
   * store returns what was written under the locator and the parser reads
   * that JSON text back to the document, the assembled market carries the
   * title, description and categories, and one outcome asset per category
   * (the chain is asked for `categories.length` outcomes).
   */
  lemma CreatedMarketReadsBack(marketId: nat, raw: RawMarket, m: Metadata,
                               stringify: Metadata -> JsText, store: Store, parse: JsonParser)
    requires raw.metadataString != []
    requires store(raw.metadataString) == Some(stringify(m))
    requires parse(stringify(m)) == Some(ToRecord(m))
    requires raw.marketType == Categorical(|m.categories|)
    ensures var r := AssembledMarket(marketId, raw, store, parse);
            && r["title"] == Str(m.title)
            && r["description"] == Str(m.description)
            && r["categories"] == Arr(Strings(m.categories))
            && |r["outcomeAssets"].items| == |m.categories|
  {
    var data := ResolveMetadata(raw.metadataString, store, parse);
    assert data == ToRecord(m);
    MergeDocumentOverwritesOnlyMarketKeys(raw.json, m, marketId, raw.metadataString,
                                          OutcomeAssets(marketId, raw.marketType));
  }
}
