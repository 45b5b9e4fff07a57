/**
 * The decision tables behind an item's derived display fields (src/db/item/index.js):
 * name, image path, season number, visibility, redaction, and the store offering's
 * path, name and date. All of them are functions of the item's record, its manifest
 * entry and the database helpers; the caching around them is in the Registry module.
 */
module Display {
  import opened Wrappers
  import opened Js
  import opened Records
  import Db

  const DefaultImagePath := "progression/default/default.png"
  const RedactedName := "[REDACTED]"

  // ---------------------------------------------------------------------------
  // Reading the record (`this?.data?.CommonData?.X`)

  function TitleOf(data: Option<Record>): JsValue {
    if data.Some? && data.value.commonData.Some? then data.value.commonData.value.title else Undefined
  }

  function SeasonOf(data: Option<Record>): JsValue {
    if data.Some? && data.value.commonData.Some? then data.value.commonData.value.season else Undefined
  }

  function DisplayPathOf(data: Option<Record>): JsValue {
    if data.Some? && data.value.commonData.Some? then data.value.commonData.value.displayPath else Undefined
  }

  // ---------------------------------------------------------------------------
  // Name

  /** The replaced-info name when the item has one and it is non-empty. */
  predicate HasReplacedName(replaced: Option<ReplacedInfo>) {
    replaced.Some? && Present(replaced.value.name)
  }

  /**
   * The `name` getter. A redacted item is always named "[REDACTED]", whatever its record
   * says; otherwise the first of: the title when it is a non-empty string, the replaced-info
   * name, the item ID, "???".
   */
  function ModernName(redacted: bool, title: JsValue, replaced: Option<ReplacedInfo>, id: Option<string>): (r: string)
    ensures redacted ==> r == RedactedName
    ensures !redacted && NonEmptyString(title) ==> r == title.s
    ensures !redacted && !NonEmptyString(title) && HasReplacedName(replaced) ==> r == replaced.value.name.value
    ensures !redacted && !NonEmptyString(title) && !HasReplacedName(replaced) ==> r == id.GetOr("???")
  {
    if redacted then RedactedName
    else if NonEmptyString(title) then title.s
    else if HasReplacedName(replaced) then replaced.value.name.value
    else id.GetOr("???")
  }

  /**
   * `getName` after its fetch: "[REDACTED]" for a redacted item, otherwise the title whatever
   * its type unless it is null or undefined, and then the item ID (undefined when there is none).
   */
  function FetchedName(redacted: bool, title: JsValue, id: Option<string>): (r: JsValue)
    ensures redacted ==> r == Str(RedactedName)
    ensures !redacted && !Nullish(title) ==> r == title
    ensures !redacted && Nullish(title) ==> r == (if id.Some? then Str(id.value) else Undefined)
  {
    if redacted then Str(RedactedName)
    else if !Nullish(title) then title
    else if id.Some? then Str(id.value)
    else Undefined
  }

  // ---------------------------------------------------------------------------
  // Image path

  predicate HasReplacedMedia(replaced: Option<ReplacedInfo>) {
    replaced.Some? && Present(replaced.value.mediaPath)
  }

  /** A display path, lower-cased, with its first ".svg" rewritten to ".png". */
  function PngPath(displayPath: string): (r: string)
    ensures |r| == |displayPath| && IsLowerCase(r)
  {
    ReplaceKeepsLowerCase(Lower(displayPath), ".svg", ".png");
    ReplaceFirst(Lower(displayPath), ".svg", ".png")
  }

  /**
   * The `imagePath` getter: the default image for a redacted item; otherwise the display path
   * made lower-case with ".svg" rewritten to ".png"; otherwise the replaced-info media path;
   * otherwise the default image.
   */
  function ModernImagePath(redacted: bool, displayPath: JsValue, replaced: Option<ReplacedInfo>): (r: string)
    ensures redacted ==> r == DefaultImagePath
    ensures !redacted && NonEmptyString(displayPath) ==>
              r == PngPath(displayPath.s) && |r| == |displayPath.s| && IsLowerCase(r)
    ensures !redacted && !NonEmptyString(displayPath) && HasReplacedMedia(replaced) ==>
              r == replaced.value.mediaPath.value
    ensures !redacted && !NonEmptyString(displayPath) && !HasReplacedMedia(replaced) ==>
              r == DefaultImagePath
  {
    if redacted then DefaultImagePath
    else if NonEmptyString(displayPath) then PngPath(displayPath.s)
    else if HasReplacedMedia(replaced) then replaced.value.mediaPath.value
    else DefaultImagePath
  }

  /**
   * A display path that ends in ".svg", with no other ".svg" before it, becomes the same
   * path lower-cased and ending in ".png".
   */
  lemma SvgBecomesPng(stem: string)
    requires forall j: nat :: !OccursAt(Lower(stem), ".svg", j)
    ensures PngPath(stem + ".svg") == Lower(stem) + ".png"
  {
    var t := Lower(stem);
    assert Lower(stem + ".svg") == t + ".svg";
    SvgAtEnd(t);
    var r := ReplaceFirst(t + ".svg", ".svg", ".png");
    assert r[..|t|] == t && r[|t|..] == ".png";
    assert r == r[..|t|] + r[|t|..];
  }

  /** In a path with no ".svg" of its own, the first ".svg" of path + ".svg" is the added one. */
  lemma SvgAtEnd(t: string)
    requires forall j: nat :: !OccursAt(t, ".svg", j)
    ensures IndexOf(t + ".svg", ".svg") == Some(|t|)
  {
    var s := t + ".svg";
    var n := |t|;
    assert OccursAt(s, ".svg", n);
    forall j: nat | j < n ensures !OccursAt(s, ".svg", j) {
      if j + 4 <= n {
        assert s[j..j + 4] == t[j..j + 4];
        assert !OccursAt(t, ".svg", j);
      } else if j + 4 <= |s| {
        assert s[j..j + 4][n - j] == s[n] == '.';
        assert ".svg"[n - j] != '.';
      }
    }
  }

  /**
   * `getImagePath` after its fetch, for an item that is not redacted: the display path with
   * its first character lower-cased, or the default image when there is none.
   */
  function FetchedImagePath(displayPath: JsValue): (r: string)
    ensures !NonEmptyString(displayPath) ==> r == DefaultImagePath
    ensures NonEmptyString(displayPath) ==>
              |r| == |displayPath.s| && r[0] == LowerChar(displayPath.s[0]) && r[1..] == displayPath.s[1..]
  {
    if NonEmptyString(displayPath) then Db.LegacyImagePath(displayPath) else DefaultImagePath
  }

  // ---------------------------------------------------------------------------
  // Season number

  /**
   * The `seasonNumber` getter: for a non-empty string season whose second space-separated
   * token is non-empty, `parseInt` of that token (None: NaN); otherwise 0.
   */
  function SeasonNumberOf(season: JsValue): (r: Option<int>)
    ensures !NonEmptyString(season) ==> r == Some(0)
    ensures NonEmptyString(season) && |Split(season.s, ' ')| < 2 ==> r == Some(0)
  {
    if !NonEmptyString(season) then Some(0) else SeasonOfWords(Split(season.s, ' '))
  }

  /** The season number read from the words of a season: `parseInt` of a non-empty second word, else 0. */
  function SeasonOfWords(words: seq<string>): Option<int> {
    if |words| >= 2 && words[1] != "" then ParseInt(words[1], false) else Some(0)
  }

  /** A second word that is the numeral of n gives n. */
  lemma NumeralSecondWord(words: seq<string>, n: nat)
    requires |words| >= 2 && words[1] == DecimalString(n)
    ensures SeasonOfWords(words) == Some(n)
  {
    ParseDecimalString(n);
  }

  /**
   * A season written as space-separated words whose second word is the numeral of n
   * ("Season 3", "Season 3 Extra") has season number n.
   */
  lemma SeasonNumberOfNumeral(words: seq<string>, n: nat)
    requires |words| >= 2 && words[1] == DecimalString(n)
    requires forall i :: 0 <= i < |words| ==> ' ' !in words[i]
    ensures SeasonNumberOf(Str(Join(words, ' '))) == Some(n)
  {
    var s := Join(words, ' ');
    assert s != [] by {
      assert s == words[0] + [' '] + Join(words[1..], ' ');
    }
    SplitJoin(words, ' ');
    NumeralSecondWord(words, n);
  }

  /** A season with no space in it has no second word, so its number is 0. */
  lemma SeasonWithoutNumber(season: string)
    requires ' ' !in season
    ensures SeasonNumberOf(Str(season)) == Some(0)
  {
  }

  // ---------------------------------------------------------------------------
  // Visibility

  predicate InInventory(entry: ManifestEntry)
    requires entry.path.Some?
  {
    StartsWith(entry.path.value, "inventory")
  }

  /**
   * The cases in which the `visibility` getter throws and so falls back to Hidden: no
   * manifest entry, an entry without a path, or an inventory item whose record lacks
   * `CommonData` (`this?.data?.CommonData.HideUntilOwned`).
   */
  predicate VisibilityThrows(manifest: Option<ManifestEntry>, data: Option<Record>) {
    || manifest.None?
    || manifest.value.path.None?
    || (InInventory(manifest.value) && data.Some? && data.value.commonData.None?)
  }

  /** `HideUntilOwned` is set (truthy) on the record. */
  predicate HideFlag(data: Option<Record>) {
    data.Some? && data.value.commonData.Some? && Truthy(data.value.commonData.value.hideUntilOwned)
  }

  /**
   * The `visibility` getter's decision table. Outside the "inventory" namespace an item is
   * Visible. Inside it: hidden with a last-visible date is Seen, not hidden with one is
   * Visible, and without a date the item is Hidden exactly when it is hidden. The error path
   * gives Hidden.
   */
  function VisibilityOf(manifest: Option<ManifestEntry>, data: Option<Record>): (v: Visibility)
    ensures VisibilityThrows(manifest, data) ==> v == Visibility(Hidden, DefaultDate)
    ensures !VisibilityThrows(manifest, data) && !InInventory(manifest.value) ==>
              v == Visibility(Visible, DateFrom(manifest.value.visible))
    ensures !VisibilityThrows(manifest, data) && InInventory(manifest.value) ==>
              && (v.status == Seen <==> HideFlag(data) && Present(manifest.value.visible))
              && (v.status == Hidden <==> HideFlag(data) && !Present(manifest.value.visible))
              && v.date == (if Present(manifest.value.visible) then DateFrom(manifest.value.visible) else DefaultDate)
  {
    if VisibilityThrows(manifest, data) then Visibility(Hidden, DefaultDate)
    else
      var entry := manifest.value;
      if !InInventory(entry) then Visibility(Visible, DateFrom(entry.visible))
      else if HideFlag(data) && Present(entry.visible) then Visibility(Seen, DateFrom(entry.visible))
      else if !HideFlag(data) && Present(entry.visible) then Visibility(Visible, DateFrom(entry.visible))
      else Visibility(if HideFlag(data) then Hidden else Visible, DefaultDate)
  }

  /**
   * Hidden only arises from the error path or from an inventory item that is flagged hidden
   * and was never visible; Seen only from an item that is flagged hidden.
   */
  lemma HiddenOnlyWhenFlaggedOrMissing(manifest: Option<ManifestEntry>, data: Option<Record>)
    ensures VisibilityOf(manifest, data).status == Hidden ==>
              VisibilityThrows(manifest, data) || (HideFlag(data) && !Present(manifest.value.visible))
    ensures VisibilityOf(manifest, data).status == Seen ==> HideFlag(data)
  {
  }

  // ---------------------------------------------------------------------------
  // Redaction

  /**
   * The `isRedacted` getter: never after the user's `unredact()`; a cached true stays true;
   * never while `revealHidden` is on; otherwise exactly when the visibility is Hidden.
   */
  function RedactedOf(userUnredacted: bool, cachedTrue: bool, revealHidden: bool, visibility: Visibility): (r: bool)
    ensures userUnredacted ==> !r
    ensures !userUnredacted && cachedTrue ==> r
    ensures !userUnredacted && !cachedTrue && revealHidden ==> !r
    ensures !userUnredacted && !cachedTrue && !revealHidden ==> (r <==> visibility.status == Hidden)
  {
    if userUnredacted then false
    else if cachedTrue then true
    else if revealHidden then false
    else visibility.status == Hidden
  }

  /** A Seen item (hidden now, but visible before) is not redacted. */
  lemma SeenIsNotRedacted(userUnredacted: bool, revealHidden: bool, date: Date)
    ensures !RedactedOf(userUnredacted, false, revealHidden, Visibility(Seen, date))
  {
  }

  // ---------------------------------------------------------------------------
  // Store offerings

  const OfferingPrefix := "storecontent/offerings/"

  /** The path an offering is registered under: `storecontent/offerings/{id}.json`. */
  function OfferingPath(id: string): (p: string)
    ensures |p| == |id| + 28 && StartsWith(p, OfferingPrefix) && p[|p| - 5..] == ".json"
  {
    OfferingPrefix + id + ".json"
  }

  /** The offering ID inside an offering path. */
  function OfferingIdOf(path: string): string
    requires |path| >= 28
  {
    path[|OfferingPrefix|..|path| - 5]
  }

  /** An offering path determines its ID: OfferingIdOf undoes OfferingPath. */
  lemma OfferingPathRoundTrip(id: string)
    ensures OfferingIdOf(OfferingPath(id)) == id
  {
    assert OfferingPath(id)[23..23 + |id|] == id;
  }

  /** Distinct offering IDs give distinct paths. */
  lemma OfferingPathInjective(a: string, b: string)
    requires OfferingPath(a) == OfferingPath(b)
    ensures a == b
  {
    OfferingPathRoundTrip(a);
    OfferingPathRoundTrip(b);
  }

  /** The Offering constructor only builds an offering whose `title` is set and whose `touched` is an array. */
  predicate OfferingAccepted(offering: Option<Record>) {
    offering.Some? && Truthy(offering.value.title) && offering.value.touched.Some?
  }

  /** The Offering `name` getter: `title`, else `OfferingId`, else "Offering"; never falsy. */
  function OfferingName(data: Record): (r: JsValue)
    ensures Truthy(r)
    ensures Truthy(data.title) ==> r == data.title
    ensures !Truthy(data.title) && data.offering.Some? && Truthy(data.offering.value.offeringId) ==>
              r == data.offering.value.offeringId
    ensures !Truthy(data.title) && !(data.offering.Some? && Truthy(data.offering.value.offeringId)) ==>
              r == Str("Offering")
  {
    if Truthy(data.title) then data.title
    else if data.offering.Some? && Truthy(data.offering.value.offeringId) then data.offering.value.offeringId
    else Str("Offering")
  }

  /** `new Date(touched[touched.length - 1])`: the date of the last `touched` entry. */
  function LastTouched(touched: seq<string>): (d: Date)
    ensures touched != [] ==> d == DateFrom(Some(touched[|touched| - 1]))
    ensures touched == [] ==> d == DateFrom(None)
  {
    DateFrom(if touched == [] then None else Some(touched[|touched| - 1]))
  }

  /** Touching an offering again moves its date to the new entry. */
  lemma LastTouchedAppend(touched: seq<string>, date: string)
    ensures LastTouched(touched + [date]) == DateFrom(Some(date))
  {
  }

  // ---------------------------------------------------------------------------
  // Last-modified date of a catalogue item

  /**
   * The `lastModifiedDate` getter as written: the fallback date when the manifest entry has
   * no `touched` array, otherwise the date of the last `touched` entry. The line meant to
   * fall back on an unparsable entry builds the fallback date and discards it, so an
   * unparsable (or missing) last entry still becomes the item's date.
   */
  function LastModifiedAsWritten(touched: Option<seq<string>>): (d: Date)
    ensures touched.None? ==> d == DefaultDate
    ensures touched.Some? ==> d.DateFrom? && (touched.value != [] <==> d.text.Some?)
    ensures touched.Some? && touched.value != [] ==> d.text.value == touched.value[|touched.value| - 1]
  {
    if touched.None? then DefaultDate else LastTouched(touched.value)
  }

  /**
   * The getter as intended: the fallback date unless the last `touched` entry exists and
   * `Date.parse` (given as `parses`) accepts it. Only an accepted entry is ever a date.
   */
  function LastModifiedOf(touched: Option<seq<string>>, parses: string -> bool): (d: Date)
    ensures d.DateFrom? ==> touched.Some? && touched.value != [] && d.text == Some(touched.value[|touched.value| - 1])
    ensures d.DateFrom? ==> parses(d.text.value)
    ensures touched.Some? && touched.value != [] && parses(touched.value[|touched.value| - 1]) ==> d.DateFrom?
  {
    match touched
    case Some(t) => if t != [] && parses(t[|t| - 1]) then DateFrom(Some(t[|t| - 1])) else DefaultDate
    case None => DefaultDate
  }

  /**
   * The discrepancy: an item whose last `touched` entry does not parse is dated by that
   * entry as written (an invalid date), and by the fallback date as intended.
   */
  lemma UnparsableTouchedDate(touched: seq<string>, parses: string -> bool)
    requires touched != [] && !parses(touched[|touched| - 1])
    ensures LastModifiedAsWritten(Some(touched)) == DateFrom(Some(touched[|touched| - 1]))
    ensures LastModifiedOf(Some(touched), parses) == DefaultDate
  {
  }

  /** Both readings agree whenever the last entry parses or there is no `touched` array. */
  lemma LastModifiedAgreesOnParsableDates(touched: Option<seq<string>>, parses: string -> bool)
    requires touched.Some? ==> touched.value != [] && parses(touched.value[|touched.value| - 1])
    ensures LastModifiedOf(touched, parses) == LastModifiedAsWritten(touched)
  {
  }
}
