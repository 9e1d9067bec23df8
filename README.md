# Zeitgeist SDK market-data reconstruction, modelled in Dafny

This project models the market-data logic of the Zeitgeist SDK's `Models`
class (`packages/sdk/src/models/index.ts`). That logic turns on-chain
storage into application-ready market objects:

- **Key decoding** (`getAllMarketIds`). A storage key ends with the market
  id as a 16-byte little-endian integer in hex. The SDK keeps the last 32
  characters, swaps them to big-endian and parses the hex (`KeyCodec`).
- **Metadata resolution** (`fetchMarketData`). The SDK starts from the
  "No metadata" sentinel. For a non-empty locator it reads the document
  from IPFS and tries `JSON.parse`; when that throws, it falls back to the
  legacy `title:<title>::info:<description>` format. Any error from the
  read keeps the sentinel (`MarketFetch.ResolveMetadata`). The legacy
  `extract` cuts the document with `indexOf` and `slice`
  (`JsString`, `LegacyMetadata`).
- **Outcome assets**. A categorical market with `n` outcomes gets the
  assets `CategoricalOutcome(id, 0..n-1)`. Any other market gets
  `ScalarOutcome(id, Long)` and `ScalarOutcome(id, Short)` (`Assets`).
- **Assembly**. `Object.assign` overlays the metadata fields, `marketId`,
  `metadataString` and `outcomeAssets` onto the record's JSON form
  (`MarketFetch.Merge`, `MarketFetch.FetchMarketData`).
- **Market creation result**. `createNewMarket`'s default status callback
  settles its promise. The first event that is `MarketCreated` or
  `ExtrinsicFailed` decides. `MarketCreated` settles it with its first
  data item and throws when it has none; `ExtrinsicFailed` settles it with
  `""` (`MarketCreation`).
- **Price accumulation** (`getAssetsPrices`). The markets' price
  dictionaries are spread into one, and later entries win (`AssetPrices`).

JavaScript text is modelled as it is stored: a sequence of UTF-16 code
units (`JsString.JsText`). `indexOf` and `slice` count positions in code
units, so a character outside the Basic Multilingual Plane takes two
positions, and a `slice` can cut it in half. `JsString.Utf16` gives the
code units of a string literal.

The chain, IPFS and `JSON.parse` are parameters, not code:

- The stored record is an `Option<RawMarket>`. A `RawMarket` carries the
  record's JSON form, its metadata locator already decoded by
  `hexToString`, and its market type.
- The IPFS read (`cat`, then concatenating and decoding the bytes) is a
  function `store: JsText -> Option<JsText>`. `None` means the read threw.
- `JSON.parse` is a function `parse: JsText -> Option<Record>`. It yields
  the own properties that the object spread would copy, and `None` when
  the parse throws. Whatever it returns is used without validation.

`FetchMarketData` also returns `requested`, the list of locators it handed
to the store. This list is how the model states "no read for a missing
record or an empty locator, and at most one read otherwise".

Three facts about the code shape the model:

- The code has no error branch for other market types. Every
  non-categorical type gets the two scalar assets (index.ts:202-217).
- The result of `JSON.parse` is used as it is, with no check of its
  fields (index.ts:171-178).
- `slice(-32)` keeps a key shorter than 32 characters whole
  (index.ts:46). The model treats a suffix that is not whole bytes of hex
  digits as a decoding failure; every other suffix decodes.

The legacy extractor misreads more titles than "titles that contain
`::info:`". A title that starts with `:info:` completes a marker with the
colon of `title:`. A title that ends with `::info` completes a marker with
the real one. `LegacyMetadata.ExtractWellFormed` and
`LegacyMetadata.ExtractWellFormedOnlyIf` together state the exact
condition, one direction each. `LegacyMetadata.ExtractMarkerInsidePrefix`
proves that the title `:info:x` reads back as the empty title.

## Model

| member | source | states |
|---|---|---|
| `KeyCodec.DecodeKey` | packages/sdk/src/models/index.ts:46-47 | a key decodes exactly when `slice(-32)` of it is an even number of hex digits (an odd-length or non-hex suffix is treated as a decoding failure), and the id it decodes to is below 2^128 |
| `KeyCodec.DecodeKeys` | packages/sdk/src/models/index.ts:45-49 | all keys are decoded, in order and one id per key, exactly when every key decodes; otherwise the error names the first key that does not decode, and all keys before it decode |
| `KeyCodec.HexValue` | packages/sdk/src/models/index.ts:47 | the parsed value of `k` hex digits is below 16^k |
| `KeyCodec.ChangeEndianness` | packages/sdk/src/models/index.ts:46 | swapping the byte order keeps the length and keeps the text hex (and lower-case hex) |
| `KeyCodec.ChangeEndiannessInvolution` | packages/sdk/src/models/index.ts:46 | swapping the byte order twice gives back the original text |
| `KeyCodec.KeyDecodingUsesSuffixOnly` | packages/sdk/src/models/index.ts:46 | a key decodes the same as its last 32 characters, whatever precedes them |
| `KeyCodec.DecodeKeyRoundTrip` | packages/sdk/src/models/index.ts:45-48 | any key ending with `EncodeId(id)`, the 16-byte little-endian hex of an id below 2^128, decodes to that id |
| `KeyCodec.EncodeDecodedKey` | packages/sdk/src/models/index.ts:45-48 | every 32-character lower-case hex suffix decodes to an id below 2^128 whose little-endian encoding is that suffix, so decoding is a bijection |
| `JsString.IndexOf` | packages/sdk/src/models/index.ts:185-187 | `indexOf` gives -1 exactly when the pattern does not occur, and otherwise the first code-unit index where it occurs |
| `JsString.Slice` | packages/sdk/src/models/index.ts:184-187 | `slice(start, end)` holds the code units from the clamped relative start up to the clamped relative end, and is empty when the start is not before the end |
| `JsString.SliceFrom` | packages/sdk/src/models/index.ts:184-185 | `slice(start)` is the text from the clamped relative start to the end |
| `LegacyMetadata.Extract` | packages/sdk/src/models/index.ts:180-190 | a legacy document always gets the categories `["Invalid","Yes","No"]` |
| `LegacyMetadata.ExtractWithMarker` | packages/sdk/src/models/index.ts:184-187 | with the first `::info:` at `i`, the description is the text after the marker, and the title is the text from offset 6 to `i` (empty when `i < 6`) |
| `LegacyMetadata.ExtractWithoutMarker` | packages/sdk/src/models/index.ts:184-187 | without `::info:`, the description is the text from offset 6 and the title is the same text minus its last code unit, both clamped to empty |
| `LegacyMetadata.ExtractWellFormed` | packages/sdk/src/models/index.ts:180-190 | `title:T::info:D` reads back as title `T` and description `D` when no marker occurs before the real one |
| `LegacyMetadata.ExtractWellFormedOnlyIf` | packages/sdk/src/models/index.ts:180-190 | when a marker does occur before the real one, `title:T::info:D` does not read back as `T` and `D` |
| `LegacyMetadata.ExtractMarkerInsidePrefix` | packages/sdk/src/models/index.ts:187 | a title without `::info:` (here `:info:x`) can still read back as the empty title |
| `LegacyMetadata.ExtractSplitsSurrogatePair` | packages/sdk/src/models/index.ts:187 | without a marker, `slice(6, -1)` of `title:Go 🚀` drops only the low surrogate, so the title ends with a lone high surrogate |
| `Records.ToRecord` | packages/sdk/src/models/index.ts:160-164 | a metadata document has exactly the keys `title`, `description` and `categories` |
| `Assets.CategoricalAssets` | packages/sdk/src/models/index.ts:204-209 | `n` assets, where entry `i` is the categorical asset of outcome `i` of the market |
| `Assets.OutcomeAssets` | packages/sdk/src/models/index.ts:202-217 | every asset carries the market id; a categorical market with `n` outcomes gets `n` categorical assets with indices `0..n-1` in order; any other market gets Long then Short |
| `Assets.OutcomeAssetsMembership` | packages/sdk/src/models/index.ts:202-217 | an asset is in the derived list exactly when it belongs to the market: same id, and either a categorical index below the outcome count or a scalar position |
| `Assets.OutcomeAssetsDistinct` | packages/sdk/src/models/index.ts:202-217 | no asset occurs twice, and the list has `n` entries for a categorical market and 2 for a scalar one |
| `Assets.OutcomeAssetsDisjoint` | packages/sdk/src/models/index.ts:202-217 | two different markets share no outcome asset |
| `MarketFetch.Merge` | packages/sdk/src/models/index.ts:219-226 | after `Object.assign` the keys are those of the record, of the metadata except `__proto__` (which goes to the prototype setter), and the three derived keys; the derived keys hold the id, the locator and the assets; metadata values win over record values; no record key is lost or changed otherwise |
| `MarketFetch.ResolveMetadata` | packages/sdk/src/models/index.ts:160-195 | the metadata is the sentinel, or, for a non-empty locator the store could read, either what `JSON.parse` returned or the legacy extraction of the text; anything the parser did not produce has exactly the three metadata keys |
| `MarketFetch.AssembledMarket` | packages/sdk/src/models/index.ts:219-228 | the market holds the record's keys, the metadata's keys except `__proto__`, and the three derived keys; metadata values win over record values, other record values are kept, and the derived keys hold the id, the locator and the outcome assets |
| `MarketFetch.FetchMarketData` | packages/sdk/src/models/index.ts:142-229 | a missing record fails with "not found" before any store read; otherwise the store is read once for a non-empty locator and never for an empty one, and the result is the assembled market |
| `MarketFetch.EmptyLocatorKeepsSentinel` | packages/sdk/src/models/index.ts:160-168 | an empty locator gives the "No metadata" sentinel whatever the store and the parser would do |
| `MarketFetch.FailedReadKeepsSentinel` | packages/sdk/src/models/index.ts:166-195 | a store read that throws leaves the sentinel |
| `MarketFetch.ParsedMetadataUsedVerbatim` | packages/sdk/src/models/index.ts:171-178 | a document that parses as JSON is used as parsed, and the legacy extractor is not applied |
| `MarketFetch.UnparsedMetadataUsesLegacy` | packages/sdk/src/models/index.ts:179-193 | a document that does not parse is read by the legacy extractor and gets the categories `Invalid`, `Yes`, `No` |
| `MarketFetch.MergeDocumentOverwritesOnlyMarketKeys` | packages/sdk/src/models/index.ts:219-226 | overlaying a metadata document adds exactly the six market keys, which carry the document's fields, and leaves every other record key unchanged |
| `MarketFetch.CreatedMarketReadsBack` | packages/sdk/src/models/index.ts:84-120 | a market created with some metadata reads back with that title, description and categories, and with one outcome asset per category, provided JSON text parses back to what was written |
| `MarketCreation.EventStep` | packages/sdk/src/models/index.ts:106-111 | an event lets the walk continue exactly when it is neither `MarketCreated` nor `ExtrinsicFailed`; it throws exactly when it is `MarketCreated` without data; `MarketCreated` resolves with `data[0]` and `ExtrinsicFailed` with `""` |
| `MarketCreation.FirstResolution` | packages/sdk/src/models/index.ts:103-114 | the walk over a block's events settles the promise only when the block has a `MarketCreated` or `ExtrinsicFailed` event |
| `MarketCreation.FirstDecisiveDecides` | packages/sdk/src/models/index.ts:103-114 | the first `MarketCreated` or `ExtrinsicFailed` event alone decides the promise's value |
| `MarketCreation.NoDecisiveNoResolution` | packages/sdk/src/models/index.ts:103-114 | a block with neither event leaves the promise pending |
| `MarketCreation.ResolutionSource` | packages/sdk/src/models/index.ts:106-111 | the promise resolves only with `""` or with the first data item of some `MarketCreated` event |
| `MarketCreation.DecidedPrefix` | packages/sdk/src/models/index.ts:103-114 | once a deciding event has been seen, later events change nothing; before that, earlier events do not matter |
| `MarketCreation.HandleStatus` | packages/sdk/src/models/index.ts:93-116 | the callback does nothing outside `InBlock`; in a block, walking the events and keeping only the first resolution settles the promise with the first deciding event's value |
| `MarketCreation.CreationResult` | packages/sdk/src/models/index.ts:118-133 | the promise never settles when the caller passes a callback; otherwise it settles exactly when some in-block update settles it, with the value of the first such update |
| `AssetPrices.AccumulatePrices` | packages/sdk/src/models/index.ts:239-247 | the merged dictionary holds exactly the keys of all the markets' dictionaries, each with the value from the last dictionary that has it |

## Left out

- Chain queries and transactions are not modelled. This covers the storage
  key listing (and its choice between `markets` and `marketIds` in mock
  mode), the record lookup, and the `createCategoricalMarket` extrinsic with
  `signAndSend` and its signer forms. The keys, the stored record and the
  status updates are inputs instead.
- IPFS `add`/`cat`, `initIpfs`, `hexToString` and the byte decoding are
  abstract inputs. So are the internals of `JSON.parse` and
  `JSON.stringify`.
- `changeEndianness` lives in the SDK's `util`, whose source is not
  available. It is modelled as reversing the two-character byte groups,
  and a suffix of odd length counts as a decoding failure.
- `KeyCodec.DecodeKeys` returns ids as unbounded naturals. What
  `hexToNumber` (in the SDK's dependencies, not part of this model) does
  with an id above 2^53 is not modelled.
- `getAllMarkets` is not modelled. Its `Promise.all` fan-out is concurrent
  I/O, and the rejection it reports depends on timing.
- The `Market` and `Swap` classes (`models/market.ts`, `models/swaps.ts`)
  are not part of this model. The assembled market is returned as the
  record handed to `new Market`. `fetchPoolData` is a single storage query.
- `Market.getAssetsPrices` is an input to `AssetPrices.AccumulatePrices`.
- `MarketFetch.Merge`, `MarketFetch.AssembledMarket` and
  `MarketFetch.FetchMarketData` drop a `__proto__` key of the parsed
  metadata, as `Object.assign` adds no own key for it. The prototype change
  its setter makes (to an object or to `null`; any other value is ignored) is
  not modelled, so the market's inherited properties are not captured
  (with `null` it inherits none, not even `toString`).
- The `Object.assign` mutation of the record object is modelled as
  reassigning a map value. That object is freshly made by `toJSON`, so no
  other reference sees the change. JavaScript key order is not modelled.
- A record without a `metadata` field is not modelled. On such a record,
  `metadata.toString()` would throw.
- `MarketCreation.CreationResult` takes `updates` to be the status updates
  actually delivered to the default callback. `unsubOrWarns` (index.ts:113)
  presumably ends the subscription after the first event, but its source
  is not available, so which later updates still arrive is an input. This
  also covers updates after one whose callback threw. A caller-supplied callback is modelled only by
  its effect: the returned promise never settles.
- `console` logging is not modelled.
- `Shares`, the SDK entry point and the CLI action are not modelled. They
  are thin RPC and transaction wrappers.
