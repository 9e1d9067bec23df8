/**
 * The dynamic JavaScript values the market code passes around: the
 * JSON form of an on-chain market record, metadata documents, and the
 * assembled market object.
 */
module Records {
  import Assets
  import opened JsString

  /** A JSON-like value; `AssetValue` is a codec object built by `createType`. */
  datatype Value =
    | Null
    | Bool(b: bool)
    | Num(n: int)
    | Str(s: JsText)
    | Arr(items: seq<Value>)
    | Obj(fields: map<string, Value>)
    | AssetValue(asset: Assets.Asset)

  /**
   * An object's own enumerable properties: what `Object.assign` and `...`
   * copy. Property names are only compared, never sliced, so they are
   * plain strings.
   */
  type Record = map<string, Value>

  /** A metadata document as the SDK writes it and the legacy extractor yields it. */
  datatype Metadata = Metadata(title: JsText, description: JsText, categories: seq<JsText>)

  /** "No metadata" */
  const NoMetadata: JsText :=
    ['N' as int, 'o' as int, ' ' as int, 'm' as int, 'e' as int, 't' as int, 'a' as int, 'd' as int, 'a' as int, 't' as int, 'a' as int]

  /** The keys of a metadata document. */
  const MetadataKeys: set<string> := {"title", "description", "categories"}

  function Strings(xs: seq<JsText>): (r: seq<Value>)
    ensures |r| == |xs| && forall i :: 0 <= i < |xs| ==> r[i] == Str(xs[i])
  {
    seq(|xs|, i requires 0 <= i < |xs| => Str(xs[i]))
  }

  /** The object literal `{title, description, categories}`. */
  function ToRecord(m: Metadata): (r: Record)
    ensures r.Keys == MetadataKeys
  {
    map["title" := Str(m.title), "description" := Str(m.description),
        "categories" := Arr(Strings(m.categories))]
  }

  /** The default kept when a market has no readable metadata. */
  function Sentinel(): Metadata
  {
    Metadata(NoMetadata, NoMetadata, [NoMetadata])
  }
}
