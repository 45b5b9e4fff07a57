/**
 * The lookup tables and path handling of the catalogue database (src/db/index.js):
 * path casing, the manufacturer table, item-type labels, the currency table, the legacy
 * image path and the `.json` link replacer of the item panel's pretty-printer.
 */
module Db {
  import opened Wrappers
  import opened Js

  // ---------------------------------------------------------------------------
  // Path casing

  /** `pathCasing ?? true`, then truthiness: casing is on unless the setting is set and falsy. */
  predicate CasingOn(pathCasing: JsValue) {
    Nullish(pathCasing) || Truthy(pathCasing)
  }

  /**
   * `Database.pathCase`: anything but a non-empty string becomes "", and a string is
   * lower-cased unless the path-casing setting turns that off.
   */
  function PathCase(path: JsValue, pathCasing: JsValue): (r: string)
    ensures !NonEmptyString(path) ==> r == ""
    ensures NonEmptyString(path) && CasingOn(pathCasing) ==> r == Lower(path.s)
    ensures NonEmptyString(path) && !CasingOn(pathCasing) ==> r == path.s
  {
    if !NonEmptyString(path) then ""
    else if CasingOn(pathCasing) then Lower(path.s)
    else path.s
  }

  /** With casing on, the result is lower-case; with it off, a path comes back as it was. */
  lemma PathCaseLowers(path: JsValue, pathCasing: JsValue)
    ensures CasingOn(pathCasing) ==> IsLowerCase(PathCase(path, pathCasing))
    ensures NonEmptyString(path) && !CasingOn(pathCasing) ==> PathCase(path, pathCasing) == path.s
  {
  }

  /** Casing a cased path again changes nothing. */
  lemma PathCaseIdempotent(path: JsValue, pathCasing: JsValue)
    ensures PathCase(Str(PathCase(path, pathCasing)), pathCasing) == PathCase(path, pathCasing)
  {
    var once := PathCase(path, pathCasing);
    if once != "" && CasingOn(pathCasing) {
      LowerOfLowerCase(once);
    }
  }

  // ---------------------------------------------------------------------------
  // Manufacturers

  datatype Manufacturer = Manufacturer(name: string, logoImage: string)

  /** `{ManufacturerName: "", ManufacturerLogoImage: ""}`, the entry for "no manufacturer". */
  const DefaultManufacturer := Manufacturer("", "")

  /** The `Manufacturers` list of the metadata document as a map from list position to entry. */
  function ManufacturerTable(list: seq<Manufacturer>): (table: map<int, Manufacturer>)
    ensures forall i :: i in table <==> 0 <= i < |list|
    ensures forall i :: 0 <= i < |list| ==> table[i] == list[i]
  {
    map i | 0 <= i < |list| :: list[i]
  }

  /**
   * `getManufacturerByIndex`: a falsy index (0 included) or one missing from the table gives
   * the default entry. Map keys are numbers, so only a number index can match.
   */
  function ManufacturerByIndex(table: map<int, Manufacturer>, index: JsValue): (m: Manufacturer)
    ensures !Truthy(index) ==> m == DefaultManufacturer
    ensures !(index.Num? && index.n in table) ==> m == DefaultManufacturer
    ensures Truthy(index) && index.Num? && index.n in table ==> m == table[index.n]
  {
    if !Truthy(index) then DefaultManufacturer
    else if index.Num? && index.n in table then table[index.n]
    else DefaultManufacturer
  }

  /**
   * Over the table built from the metadata list, position 0 is reserved: an index picks the
   * list entry exactly when it is a number in 1..|list|-1; anything else gives the default.
   */
  lemma ManufacturerLookup(list: seq<Manufacturer>, index: JsValue)
    ensures ManufacturerByIndex(ManufacturerTable(list), index) ==
            if index.Num? && 0 < index.n < |list| then list[index.n] else DefaultManufacturer
  {
  }

  /**
   * The database object's lazily cached state: the loaded metadata (None when it did not
   * load), the cached manufacturer table, and the path-casing setting.
   */
  class Database {
    var metadata: Option<seq<Manufacturer>>
    var manufacturersMemo: Option<map<int, Manufacturer>>
    const pathCasing: JsValue

    constructor (pathCasing: JsValue)
      ensures this.pathCasing == pathCasing && metadata.None? && manufacturersMemo.None?
    {
      this.pathCasing := pathCasing;
      metadata := None;
      manufacturersMemo := None;
    }

    /** What the `manufacturers` getter returns in the current state. */
    function ManufacturersNow(): map<int, Manufacturer>
      reads this
    {
      if metadata.None? then map[]
      else if manufacturersMemo.Some? then manufacturersMemo.value
      else ManufacturerTable(metadata.value)
    }

    /**
     * The `manufacturers` getter: empty while no metadata is loaded (and nothing is cached);
     * otherwise the table is built once from the metadata and cached from then on.
     */
    method Manufacturers() returns (table: map<int, Manufacturer>)
      modifies this`manufacturersMemo
      ensures table == old(ManufacturersNow())
      ensures old(metadata).None? ==> table == map[] && manufacturersMemo == old(manufacturersMemo)
      ensures old(metadata).Some? && old(manufacturersMemo).None? ==>
                table == ManufacturerTable(metadata.value)
      ensures old(metadata).Some? ==> manufacturersMemo == Some(table)
      ensures ManufacturersNow() == table
    {
      if metadata.None? {
        return map[];
      }
      if manufacturersMemo.None? {
        manufacturersMemo := Some(ManufacturerTable(metadata.value));
      }
      table := manufacturersMemo.value;
    }

    /** `getManufacturerByIndex` on the current table; never fails. */
    method ManufacturerByIndexOf(index: JsValue) returns (m: Manufacturer)
      modifies this`manufacturersMemo
      ensures m == ManufacturerByIndex(old(ManufacturersNow()), index)
      ensures !Truthy(index) ==> m == DefaultManufacturer && manufacturersMemo == old(manufacturersMemo)
      ensures ManufacturersNow() == old(ManufacturersNow())
    {
      if !Truthy(index) {
        return DefaultManufacturer;
      }
      var table := Manufacturers();
      m := ManufacturerByIndex(table, index);
    }
  }

  // ---------------------------------------------------------------------------
  // Item-type labels

  /** The display label of each item-type tag. */
  const ItemTypes: map<string, string> := map[
    "ArmorCoating" := "Coating, Armor",
    "ArmorHelmet" := "Helmet",
    "ArmorHelmetAttachment" := "Helmet Attachment",
    "ArmorVisor" := "Visor",
    "ArmorLeftShoulderPad" := "Shoulder, Left",
    "ArmorRightShoulderPad" := "Shoulder, Right",
    "ArmorGlove" := "Gloves",
    "ArmorChestAttachment" := "Chest Attachment",
    "ArmorKneePad" := "Knee Pads",
    "ArmorWristAttachment" := "Wrist Attachment",
    "ArmorHipAttachment" := "Hip Attachment",
    "ArmorEmblem" := "Emblem, Armor",
    "ArmorFx" := "Armor Effects",
    "ArmorMythicFx" := "Mythic Effects",
    "ArmorTheme" := "Theme, Armor",
    "ArmorCore" := "Core, Armor",
    "SpartanActionPose" := "Stance",
    "SpartanBackdropImage" := "Backdrop",
    "SpartanEmblem" := "Emblem, Player",
    "WeaponCharm" := "Weapon Charm",
    "WeaponCoating" := "Coating, Weapon",
    "WeaponDeathFx" := "Weapon Death Effect",
    "WeaponEmblem" := "Emblem, Weapon",
    "WeaponTheme" := "Theme, Weapon",
    "WeaponCore" := "Core, Weapon",
    "WeaponAlternateGeometryRegion" := "Weapon Model",
    "VehicleAlternateGeometryRegion" := "Vehicle Model",
    "VehicleCoating" := "Coating, Vehicle",
    "VehicleEmblem" := "Emblem, Vehicle",
    "VehicleTheme" := "Theme, Vehicle",
    "VehicleCore" := "Core, Vehicle",
    "HelmetAttachments" := "Helmet Attachments",
    "LeftShoulderPads" := "Shoulder, Left",
    "RightShoulderPads" := "Shoulder, Right",
    "KneePads" := "Knee Pads",
    "ChestAttachments" := "Chest Attachments",
    "WristAttachments" := "Wrist Attachments",
    "HipAttachments" := "Hip Attachments",
    "WeaponCharms" := "Weapon Charms",
    "DeathFx" := "Death Effects",
    "AlternateGeometryRegions" := "Models",
    "MythicFx" := "Mythic Effects",
    "AiColor" := "AI Color",
    "AiModel" := "AI Model",
    "AiTheme" := "Theme, AI",
    "AiCore" := "Core, AI"
  ]

  /**
   * `getItemType`: the label of a known tag; any other value is passed through unchanged.
   * (The source's `name &&` guard is subsumed: the empty string is not a tag.)
   */
  function GetItemType(name: JsValue): (r: JsValue)
    ensures name.Str? && name.s in ItemTypes ==> r == Str(ItemTypes[name.s])
    ensures !(name.Str? && name.s in ItemTypes) ==> r == name
  {
    if name.Str? && name.s in ItemTypes then Str(ItemTypes[name.s]) else name
  }

  // ---------------------------------------------------------------------------
  // Currencies

  datatype Currency = Currency(mediaPath: string, name: string)

  const UnknownCurrency := Currency("progression/Default/default.png", "Unknown Currency")

  /** The four known currencies, keyed by lower-case item path. */
  const Currencies: map<string, Currency> := map[
    "currency/currencies/rerollcurrency.json" :=
      Currency("progression/currencies/1104-000-data-pad-e39bef84-sm.png", "Challenge Swap"),
    "currency/currencies/xpgrant.json" :=
      Currency("progression/currencies/1102-000-xp-grant-c77c6396-sm.png", "XP Grant"),
    "currency/currencies/xpboost.json" :=
      Currency("progression/currencies/1103-000-xp-boost-5e92621a-sm.png", "XP Boost"),
    "currency/currencies/cr.json" :=
      Currency("progression/Default/default.png", "cR")
  ]

  /**
   * `CurrencyItem.currency`: the table entry of the lower-cased path, or the unknown-currency
   * entry. None when the item has no path (`this.path.toLowerCase()` throws).
   */
  function CurrencyOf(path: Option<string>): (c: Option<Currency>)
    ensures c.Some? <==> path.Some?
    ensures path.Some? && Lower(path.value) in Currencies ==> c == Some(Currencies[Lower(path.value)])
    ensures path.Some? && Lower(path.value) !in Currencies ==> c == Some(UnknownCurrency)
  {
    if path.None? then None
    else
      var key := Lower(path.value);
      if key in Currencies then Some(Currencies[key]) else Some(UnknownCurrency)
  }

  /** The currency lookup ignores the case of the path. */
  lemma CurrencyIgnoresCase(path: string)
    ensures CurrencyOf(Some(path)) == CurrencyOf(Some(Lower(path)))
  {
    LowerOfLowerCase(Lower(path));
  }

  // ---------------------------------------------------------------------------
  // Legacy image path

  /**
   * The legacy `Item.imagePath`: "" without a display path; otherwise the display path with
   * only its first character lower-cased.
   */
  function LegacyImagePath(displayPath: JsValue): (r: string)
    ensures !NonEmptyString(displayPath) ==> r == ""
    ensures NonEmptyString(displayPath) ==>
              |r| == |displayPath.s| && r[0] == LowerChar(displayPath.s[0]) && r[1..] == displayPath.s[1..]
  {
    if NonEmptyString(displayPath) then [LowerChar(displayPath.s[0])] + displayPath.s[1..] else ""
  }

  /** The legacy `Item.name`: the title unless it is null or undefined, then "???". */
  function LegacyName(title: JsValue): (r: JsValue)
    ensures Nullish(title) ==> r == Str("???")
    ensures !Nullish(title) ==> r == title
  {
    if Nullish(title) then Str("???") else title
  }

  // ---------------------------------------------------------------------------
  // The pretty-printer's link replacer

  /** A string value the replacer turns into a link: longer than 10 characters, ending in ".json". */
  predicate IsJsonLink(value: JsValue) {
    value.Str? && |value.s| > 10 && value.s[|value.s| - 5..] == ".json"
  }

  /** The anchor markup the replacer writes for a path. */
  function Anchor(path: string): string {
    "<a href=#" + path + ">" + path + "</a>"
  }

  /** The path an anchor produced by Anchor links to. */
  function AnchorTarget(markup: string): string
    requires |markup| >= 14
  {
    markup[9..9 + (|markup| - 14) / 2]
  }

  /** The anchor keeps the path it wraps: AnchorTarget undoes Anchor. */
  lemma AnchorRoundTrip(path: string)
    ensures |Anchor(path)| == 2 * |path| + 14
    ensures AnchorTarget(Anchor(path)) == path
  {
    var a := Anchor(path);
    assert a[9..9 + |path|] == path;
  }

  /**
   * The replacer `prettyJson` hands to `JSON.stringify`: a `.json` path string becomes an
   * anchor linking to it; every other value is returned unchanged.
   */
  function LinkReplacer(value: JsValue): (r: JsValue)
    ensures IsJsonLink(value) ==> r == Str(Anchor(value.s)) && AnchorTarget(r.s) == value.s
    ensures !IsJsonLink(value) ==> r == value
  {
    if IsJsonLink(value) then
      AnchorRoundTrip(value.s);
      Str(Anchor(value.s))
    else value
  }
}
