/**
 * The shapes of the JSON documents the catalogue reads, reduced to the fields the item
 * logic looks at, and the lookup helpers of the database that are given to the model
 * rather than modelled.
 */
module Records {
  import opened Wrappers
  import opened Js

  /**
   * `CommonData` of an item record. `displayPath` is the value at
   * `DisplayPath.Media.MediaUrl.Path` (Undefined when any step is missing).
   */
  datatype CommonData = CommonData(
    title: JsValue,
    season: JsValue,
    displayPath: JsValue,
    hideUntilOwned: JsValue)

  /** The `offering` part of a store offering document. */
  datatype OfferingInfo = OfferingInfo(
    offeringId: JsValue,
    includedItems: Option<seq<JsValue>>)  // the `ItemPath` of each entry; Undefined for a null entry

  /**
   * One top-level property of a document, in enumeration order: its name and the
   * `OptionPaths` array under it (None when there is none).
   */
  datatype Field = Field(name: string, optionPaths: Option<seq<string>>)

  /**
   * An item's fetched JSON document. Item records carry `CommonData`; store offerings carry
   * `title`, `touched` and `offering`; a core carries `Themes.DefaultOptionPath`; a theme's
   * sockets are its top-level `fields`. A field a document lacks is None or Undefined.
   */
  datatype Record = Record(
    commonData: Option<CommonData>,
    title: JsValue,
    touched: Option<seq<string>>,      // Some exactly when `touched` is an array
    offering: Option<OfferingInfo>,
    defaultOptionPath: Option<string>,
    fields: seq<Field>)

  /** One entry of the item manifest. */
  datatype ManifestEntry = ManifestEntry(
    path: Option<string>,
    name: Option<string>,
    title: Option<string>,
    visible: Option<string>,           // the last date the item was visible
    touched: Option<seq<string>>)      // Some exactly when `touched` is an array

  /** Name and image that replace an item's own, keyed by item path. */
  datatype ReplacedInfo = ReplacedInfo(name: Option<string>, mediaPath: Option<string>)

  /**
   * The database helpers the item logic calls but that are not part of this model:
   * `itemPathToID`, `getItemManifestByID`, `replacedInfoItems` and the `revealHidden` switch.
   * A key missing from a map is the helper returning undefined.
   */
  datatype Env = Env(
    pathToID: map<string, string>,
    manifest: map<string, ManifestEntry>,
    replacedInfo: map<string, ReplacedInfo>,
    revealHidden: bool)

  function PathToID(env: Env, path: Option<string>): Option<string> {
    if path.Some? && path.value in env.pathToID then Some(env.pathToID[path.value]) else None
  }

  function ManifestByID(env: Env, id: Option<string>): Option<ManifestEntry> {
    if id.Some? && id.value in env.manifest then Some(env.manifest[id.value]) else None
  }

  function ReplacedFor(env: Env, path: Option<string>): Option<ReplacedInfo> {
    if path.Some? && path.value in env.replacedInfo then Some(env.replacedInfo[path.value]) else None
  }

  /** The three visibility states of an item. */
  datatype Status = Visible | Seen | Hidden

  /**
   * A date as the item logic builds it: the fixed fallback date 2021-11-15T20:00:00.000Z, or
   * `new Date(text)` of a manifest string (None: `new Date(undefined)`, an invalid date).
   */
  datatype Date = DefaultDate | DateFrom(text: Option<string>)

  datatype Visibility = Visibility(status: Status, date: Date)

  /** One top-level property of `vanity.json`, with its `options` array when it has one. */
  datatype VanityProperty = VanityProperty(name: string, options: Option<seq<string>>)
}
