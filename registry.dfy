/**
 * The item catalogue: the shared `db.items` map and the catalogue items it holds.
 *
 * Four classes share the map: the item of src/db/item/index.js and its `Offering`
 * subclass (the "modern" classes), and the older item of src/db/index.js and its
 * `CurrencyItem` subclass. They are modelled by one class `Item` whose `kind` says which
 * class built the instance. A getter that caches its value in a write-once `_x` field is
 * modelled by a field `xMemo` and a function `XNow(env)`, the value the getter returns in
 * the current state; each method returns the old `XNow` and leaves every `Now` view as it
 * was, so the caches are invisible except that they pin the first value they store.
 */
module Registry {
  import opened Wrappers
  import opened Js
  import opened Records
  import Db
  import Display

  /** The class that built an instance. */
  datatype Kind = Standard | Offering | Legacy | Currency

  /** Built by src/db/item/index.js; only these instances have the modern getters. */
  predicate Modern(kind: Kind) {
    kind == Standard || kind == Offering
  }

  /**
   * The key the modern constructor registers a path under: the path lower-cased, when the
   * path is a string of at least 10 characters; None when the path is not registered.
   */
  function ModernKey(path: JsValue): (k: Option<string>)
    ensures k.Some? <==> path.Str? && |path.s| >= 10
    ensures k.Some? ==> k.value == Lower(path.s) && |k.value| >= 10 && IsLowerCase(k.value)
  {
    if path.Str? && |path.s| >= 10 then Some(Lower(path.s)) else None
  }

  /** Two paths that differ only in letter case have the same key. */
  lemma CaseVariantsShareKey(a: string, b: string)
    requires |a| >= 10 && Lower(a) == Lower(b)
    ensures ModernKey(Str(a)) == ModernKey(Str(b)) == Some(Lower(a))
  {
    assert |b| == |Lower(b)|;
  }

  /**
   * The modern constructor throws for a truthy path that is not a string (it has no
   * `toLowerCase`).
   */
  predicate ModernThrows(path: JsValue) {
    Truthy(path) && !path.Str?
  }

  /** The keys a sequence of paths is registered under by the modern constructor. */
  function KeysOf(paths: seq<JsValue>): set<string> {
    if paths == [] then {}
    else
      var last := ModernKey(paths[|paths| - 1]);
      var rest := KeysOf(paths[..|paths| - 1]);
      if last.Some? then rest + {last.value} else rest
  }

  /** A key is in KeysOf(paths) exactly when some path in the sequence has that key. */
  lemma {:induction false} KeysOfMembers(paths: seq<JsValue>, k: string)
    ensures k in KeysOf(paths) <==> exists i :: 0 <= i < |paths| && ModernKey(paths[i]) == Some(k)
  {
    if paths != [] {
      var init := paths[..|paths| - 1];
      KeysOfMembers(init, k);
      assert forall i :: 0 <= i < |init| ==> init[i] == paths[i];
    }
  }

  /** The instances a registry holds for a sequence of paths. */
  function ItemsFor(items: map<string, Item>, paths: seq<JsValue>): set<Item> {
    if paths == [] then {}
    else
      var last := ModernKey(paths[|paths| - 1]);
      var rest := ItemsFor(items, paths[..|paths| - 1]);
      if last.Some? && last.value in items then rest + {items[last.value]} else rest
  }

  /** The instances held for the paths are exactly those under the paths' registered keys. */
  lemma {:induction false} ItemsForMembers(items: map<string, Item>, paths: seq<JsValue>, it: Item)
    ensures it in ItemsFor(items, paths) <==> exists k :: k in KeysOf(paths) && k in items && items[k] == it
  {
    if paths != [] {
      ItemsForMembers(items, paths[..|paths| - 1], it);
    }
  }

  /** A registry that keeps the instances under the paths' keys holds the same instances for them. */
  lemma {:induction false} ItemsForExtend(m0: map<string, Item>, m1: map<string, Item>, paths: seq<JsValue>)
    requires KeysOf(paths) <= m0.Keys
    requires forall k :: k in m0 ==> k in m1 && m1[k] == m0[k]
    ensures ItemsFor(m1, paths) == ItemsFor(m0, paths)
  {
    if paths != [] {
      ItemsForExtend(m0, m1, paths[..|paths| - 1]);
    }
  }

  /** Appending a path adds its key, if it has one. */
  lemma KeysOfSnoc(paths: seq<JsValue>, v: JsValue)
    ensures KeysOf(paths + [v]) == KeysOf(paths) + (if ModernKey(v).Some? then {ModernKey(v).value} else {})
  {
    assert (paths + [v])[..|paths|] == paths;
  }

  /**
   * Registering the path `v` after `paths` adds at most the instance under v's key to the
   * instances held for the paths, as long as the keys already there keep their instances.
   */
  lemma ItemsForSnoc(m0: map<string, Item>, m1: map<string, Item>, paths: seq<JsValue>, v: JsValue)
    requires KeysOf(paths) <= m0.Keys
    requires forall k :: k in m0 ==> k in m1 && m1[k] == m0[k]
    requires ModernKey(v).Some? ==> ModernKey(v).value in m1
    ensures ItemsFor(m1, paths + [v]) == ItemsFor(m0, paths) + (if ModernKey(v).Some? then {m1[ModernKey(v).value]} else {})
  {
    assert (paths + [v])[..|paths|] == paths;
    ItemsForExtend(m0, m1, paths);
  }

  /** `this.data.offering.IncludedItems`; None when one of the steps is missing (a TypeError). */
  function IncludedOf(data: Option<Record>): Option<seq<JsValue>> {
    if data.Some? && data.value.offering.Some? then data.value.offering.value.includedItems else None
  }

  /**
   * What an item's getters see in a promise that is still in `data`: none of a record's
   * properties.
   */
  const NoFields := Record(None, Undefined, None, None, None, [])

  /** How `init()` ends: with the record loaded, with the failure caught, or by throwing. */
  datatype InitOutcome = Ready | Failed | Threw

  /**
   * The record an item holds after `init()`. A modern item stores the fetch's promise in
   * `data` before awaiting it, so a record or promise already there is awaited rather than
   * fetched again, and a failed fetch leaves the rejected promise behind (`NoFields`). A
   * legacy item returns at once when it has its record, and a failed fetch leaves `data`
   * undefined. An item without a path (`hasPath` false) fetches nothing: `getJSON` of an
   * undefined path returns undefined at once, so `data` stays undefined.
   */
  function DataAfterInit(kind: Kind, hasPath: bool, data: Option<Record>, fetched: Option<Record>): Option<Record> {
    if data.Some? then data
    else if !hasPath then None
    else if fetched.Some? then fetched
    else if Modern(kind) then Some(NoFields)
    else None
  }

  /** Whether `data` holds a rejected promise after `init()`. */
  function RejectedAfterInit(kind: Kind, hasPath: bool, data: Option<Record>, rejected: bool, fetched: Option<Record>): bool {
    if data.Some? || !hasPath then rejected
    else if fetched.Some? then false
    else Modern(kind) || rejected
  }

  /**
   * How `init()` ends: awaiting a rejected promise throws again, a failed first fetch is
   * caught (`return false`), and anything else, an item without a path included, ends Ready.
   */
  function OutcomeOfInit(kind: Kind, hasPath: bool, data: Option<Record>, rejected: bool, fetched: Option<Record>): InitOutcome {
    if data.Some? then (if Modern(kind) && rejected then Threw else Ready)
    else if !hasPath || fetched.Some? || !Modern(kind) then Ready
    else Failed
  }

  /**
   * A modern item with a path always holds something after `init()`, and what it holds is
   * final: no later `init()` fetches again, whatever that fetch would give.
   */
  lemma ModernInitIsFinal(kind: Kind, data: Option<Record>, rejected: bool, f: Option<Record>, g: Option<Record>)
    requires Modern(kind)
    ensures DataAfterInit(kind, true, data, f).Some?
    ensures DataAfterInit(kind, true, DataAfterInit(kind, true, data, f), g) == DataAfterInit(kind, true, data, f)
    ensures RejectedAfterInit(kind, true, DataAfterInit(kind, true, data, f), RejectedAfterInit(kind, true, data, rejected, f), g)
            == RejectedAfterInit(kind, true, data, rejected, f)
  {
  }

  /**
   * A modern item with a path whose first fetch fails catches the error, and every later
   * `init()` throws, whatever a new fetch would give.
   */
  lemma FailedFetchThrowsLater(kind: Kind, rejected: bool, g: Option<Record>)
    requires Modern(kind)
    ensures OutcomeOfInit(kind, true, None, rejected, None) == Failed
    ensures OutcomeOfInit(kind, true, DataAfterInit(kind, true, None, None),
                          RejectedAfterInit(kind, true, None, rejected, None), g) == Threw
  {
  }

  /** A legacy item whose fetch fails has no record, so its next `init()` fetches again. */
  lemma LegacyFetchRetries(kind: Kind, rejected: bool, g: Option<Record>)
    requires !Modern(kind)
    ensures DataAfterInit(kind, true, None, None).None?
    ensures DataAfterInit(kind, true, DataAfterInit(kind, true, None, None), g) == g
  {
  }

  /**
   * An item of any class without a path fetches nothing: every `init()` ends Ready and
   * leaves it without a record, whatever a fetch would have given.
   */
  lemma PathlessInitFetchesNothing(kind: Kind, rejected: bool, f: Option<Record>, g: Option<Record>)
    ensures DataAfterInit(kind, false, None, f).None?
    ensures OutcomeOfInit(kind, false, None, rejected, f) == Ready
    ensures RejectedAfterInit(kind, false, None, rejected, f) == rejected
    ensures OutcomeOfInit(kind, false, DataAfterInit(kind, false, None, f), rejected, g) == Ready
  {
  }

  /**
   * The rejected promise a failed fetch leaves behind lacks `CommonData`, so an inventory
   * item with a manifest entry is Hidden, and redacted unless unredacted or revealed.
   */
  lemma FailedFetchHidesInventoryItem(entry: ManifestEntry)
    requires entry.path.Some? && Display.InInventory(entry)
    ensures Display.VisibilityOf(Some(entry), Some(NoFields)) == Visibility(Hidden, DefaultDate)
    ensures Display.RedactedOf(false, false, false, Display.VisibilityOf(Some(entry), Some(NoFields)))
  {
  }

  /** The cache fields of an item, in one place. */
  datatype Cached = Cached(
    userUnredacted: bool, id: Option<string>, manifest: Option<ManifestEntry>,
    visibility: Option<Visibility>, redacted: bool, season: Option<int>,
    imagePath: Option<string>, date: Option<Date>, related: Option<set<Item>>)

  /** The values of the memoised getters of an item, in one place. */
  datatype Views = Views(id: Option<string>, manifest: Option<ManifestEntry>, visibility: Visibility, redacted: bool)

  class Item {
    const kind: Kind
    var path: Option<string>
    var data: Option<Record>
    var userUnredacted: bool                // `state.userUnredacted`
    var idMemo: Option<string>              // `_id`
    var manifestMemo: Option<ManifestEntry> // `_manifestItem`
    var visibilityMemo: Option<Visibility>  // `_visibility`
    var redactedMemo: bool                  // `_isRedacted` holds true
    var seasonMemo: Option<int>             // `_seasonNumber` holds a non-zero number
    var imagePathMemo: Option<string>       // `_imagePath`
    var dateMemo: Option<Date>              // `_lastModifiedDate`
    var relatedItems: Option<set<Item>>
    var rejected: bool                      // `data` holds the promise of a fetch that failed

    /** Nothing cached and not unredacted. */
    predicate NoCaches()
      reads this
    {
      && !userUnredacted && idMemo.None? && manifestMemo.None? && visibilityMemo.None?
      && !redactedMemo && seasonMemo.None? && imagePathMemo.None? && dateMemo.None? && relatedItems.None?
    }

    /** Nothing fetched and nothing cached. */
    predicate Blank()
      reads this
    {
      data.None? && !rejected && NoCaches()
    }

    /** Every field of the instance except its record and its path. */
    function Caches(): Cached
      reads this
    {
      Cached(userUnredacted, idMemo, manifestMemo, visibilityMemo, redactedMemo, seasonMemo,
             imagePathMemo, dateMemo, relatedItems)
    }

    constructor (kind: Kind, path: Option<string>)
      ensures this.kind == kind && this.path == path && Blank()
    {
      this.kind := kind;
      this.path := path;
      data := None;
      rejected := false;
      userUnredacted := false;
      idMemo, manifestMemo, visibilityMemo := None, None, None;
      redactedMemo := false;
      seasonMemo, imagePathMemo, dateMemo, relatedItems := None, None, None, None;
    }

    // -------------------------------------------------------------------------
    // What each getter returns in the current state

    function IdNow(env: Env): Option<string>
      reads this
    {
      if idMemo.Some? then idMemo else PathToID(env, path)
    }

    function ManifestNow(env: Env): Option<ManifestEntry>
      reads this
    {
      if manifestMemo.Some? then manifestMemo else ManifestByID(env, IdNow(env))
    }

    function VisibilityNow(env: Env): Visibility
      reads this
    {
      if visibilityMemo.Some? then visibilityMemo.value else Display.VisibilityOf(ManifestNow(env), data)
    }

    function RedactedNow(env: Env): bool
      reads this
    {
      Display.RedactedOf(userUnredacted, redactedMemo, env.revealHidden, VisibilityNow(env))
    }

    function ViewsNow(env: Env): Views
      reads this
    {
      Views(IdNow(env), ManifestNow(env), VisibilityNow(env), RedactedNow(env))
    }

    /** The `name` getter of each class; None when it throws. */
    function NameNow(env: Env): Option<JsValue>
      reads this
    {
      match kind
      case Standard =>
        Some(Str(Display.ModernName(RedactedNow(env), Display.TitleOf(data), ReplacedFor(env, path), IdNow(env))))
      case Offering => if data.Some? then Some(Display.OfferingName(data.value)) else None
      case Legacy => Some(Db.LegacyName(Display.TitleOf(data)))
      case Currency =>
        var c := Db.CurrencyOf(path);
        if c.Some? then Some(Str(c.value.name)) else None
    }

    /** The `imagePath` getter of each class; None when it throws. */
    function ImagePathNow(env: Env): Option<string>
      reads this
    {
      match kind
      case Standard => Some(Display.ModernImagePath(RedactedNow(env), Display.DisplayPathOf(data), ReplacedFor(env, path)))
      case Offering => Some(Display.ModernImagePath(RedactedNow(env), Display.DisplayPathOf(data), ReplacedFor(env, path)))
      case Legacy => Some(Db.LegacyImagePath(Display.DisplayPathOf(data)))
      case Currency =>
        var c := Db.CurrencyOf(path);
        if c.Some? then Some(c.value.mediaPath) else None
    }

    /** What `getName` resolves to once the record is loaded. */
    function FetchedNameNow(env: Env): JsValue
      reads this
    {
      if Modern(kind) then Display.FetchedName(RedactedNow(env), Display.TitleOf(data), IdNow(env))
      else Db.LegacyName(Display.TitleOf(data))
    }

    /** What `getSeasonNumber` resolves to (None: NaN). */
    function SeasonNumberNow(): Option<int>
      reads this
    {
      if seasonMemo.Some? then seasonMemo else Display.SeasonNumberOf(Display.SeasonOf(data))
    }

    /** What `getImagePath` resolves to once the record is loaded. */
    function FetchedImagePathNow(env: Env): string
      reads this
    {
      if imagePathMemo.Some? then imagePathMemo.value
      else if RedactedNow(env) then Display.DefaultImagePath
      else Display.FetchedImagePath(Display.DisplayPathOf(data))
    }

    /** The modern `lastModifiedDate` getter, with `Date.parse` given as `parses`. */
    function LastModifiedNow(env: Env, parses: string -> bool): Date
      reads this
    {
      if dateMemo.Some? then dateMemo.value
      else
        var manifest := ManifestNow(env);
        Display.LastModifiedOf(if manifest.Some? then manifest.value.touched else None, parses)
    }

    // -------------------------------------------------------------------------
    // Loading

    /**
     * `init()` once the fetch has settled (`fetched`: the record, None when the fetch
     * fails; an item without a path never fetches); see `DataAfterInit` for what each class
     * does.
     */
    method Init(fetched: Option<Record>) returns (r: InitOutcome)
      modifies this`data, this`rejected
      ensures data == DataAfterInit(kind, path.Some?, old(data), fetched)
      ensures rejected == RejectedAfterInit(kind, path.Some?, old(data), old(rejected), fetched)
      ensures r == OutcomeOfInit(kind, path.Some?, old(data), old(rejected), fetched)
    {
      if data.Some? {
        return if Modern(kind) && rejected then Threw else Ready;
      }
      if path.None? {
        return Ready;
      }
      if fetched.Some? {
        data, rejected := fetched, false;
        return Ready;
      }
      if !Modern(kind) {
        return Ready;
      }
      data, rejected := Some(NoFields), true;
      r := Failed;
    }

    // -------------------------------------------------------------------------
    // The memoised getters of the modern classes

    /** The `id` getter: the cached ID, else `itemPathToID(path)`, which is cached. */
    method Id(env: Env) returns (id: Option<string>)
      requires Modern(kind)
      modifies this`idMemo
      ensures id == old(IdNow(env)) && idMemo == id
      ensures ViewsNow(env) == old(ViewsNow(env))
    {
      if idMemo.None? {
        idMemo := PathToID(env, path);
      }
      id := idMemo;
    }

    /** The `manifestItem` getter: the cached entry, else the entry for the ID, cached when found. */
    method ManifestItem(env: Env) returns (m: Option<ManifestEntry>)
      requires Modern(kind)
      modifies this`idMemo, this`manifestMemo
      ensures m == old(ManifestNow(env)) && manifestMemo == m
      ensures idMemo == if old(manifestMemo).Some? then old(idMemo) else old(IdNow(env))
      ensures ViewsNow(env) == old(ViewsNow(env))
    {
      if manifestMemo.Some? {
        return manifestMemo;
      }
      var id := Id(env);
      m := ManifestByID(env, id);
      if m.Some? {
        manifestMemo := m;
      }
    }

    /** The `visibility` getter: the cached value, else the decision table's, which is cached. */
    method ItemVisibility(env: Env) returns (v: Visibility)
      requires Modern(kind)
      modifies this`idMemo, this`manifestMemo, this`visibilityMemo
      ensures v == old(VisibilityNow(env)) && visibilityMemo == Some(v)
      ensures old(visibilityMemo).Some? ==> manifestMemo == old(manifestMemo) && idMemo == old(idMemo)
      ensures old(visibilityMemo).None? ==> manifestMemo == old(ManifestNow(env))
      ensures old(visibilityMemo).None? ==> idMemo == if old(manifestMemo).Some? then old(idMemo) else old(IdNow(env))
      ensures ViewsNow(env) == old(ViewsNow(env))
    {
      if visibilityMemo.Some? {
        return visibilityMemo.value;
      }
      var manifest := ManifestItem(env);
      v := Display.VisibilityOf(manifest, data);
      visibilityMemo := Some(v);
    }

    /**
     * The `isRedacted` getter. Nothing is cached after `unredact()`, with a cached true or
     * while hidden items are revealed; otherwise the visibility is computed (and cached) and
     * the item is redacted exactly when it is Hidden.
     */
    method IsRedacted(env: Env) returns (r: bool)
      requires Modern(kind)
      modifies this`idMemo, this`manifestMemo, this`visibilityMemo, this`redactedMemo
      ensures r == old(RedactedNow(env))
      ensures old(userUnredacted || redactedMemo || env.revealHidden) ==> unchanged(this)
      ensures !old(userUnredacted || redactedMemo || env.revealHidden) ==>
                visibilityMemo == Some(old(VisibilityNow(env))) && redactedMemo == r
      ensures ViewsNow(env) == old(ViewsNow(env))
    {
      if userUnredacted {
        return false;
      }
      if redactedMemo {
        return true;
      }
      if env.revealHidden {
        return false;
      }
      var v := ItemVisibility(env);
      r := v.status == Hidden;
      redactedMemo := r;
    }

    /** `unredact()`: from now on the item is not redacted, whatever is cached. */
    method Unredact()
      requires Modern(kind)
      modifies this`userUnredacted
      ensures userUnredacted
      ensures forall env :: !RedactedNow(env)
    {
      userUnredacted := true;
    }

    /** The `name` getter of the item's class; None when it throws. */
    method Name(env: Env) returns (r: Option<JsValue>)
      modifies this`idMemo, this`manifestMemo, this`visibilityMemo, this`redactedMemo
      ensures r == old(NameNow(env))
      ensures kind != Standard ==> unchanged(this)
      ensures ViewsNow(env) == old(ViewsNow(env))
    {
      match kind
      case Standard =>
        var redacted := IsRedacted(env);
        var title := Display.TitleOf(data);
        var replaced := ReplacedFor(env, path);
        if redacted {
          r := Some(Str(Display.RedactedName));
        } else if NonEmptyString(title) {
          r := Some(title);
        } else if Display.HasReplacedName(replaced) {
          r := Some(Str(replaced.value.name.value));
        } else {
          var id := Id(env);
          r := Some(Str(id.GetOr("???")));
        }
      case Offering =>
        r := if data.Some? then Some(Display.OfferingName(data.value)) else None;
      case Legacy =>
        r := Some(Db.LegacyName(Display.TitleOf(data)));
      case Currency =>
        var c := Db.CurrencyOf(path);
        r := if c.Some? then Some(Str(c.value.name)) else None;
    }

    /** The `imagePath` getter of the item's class; None when it throws. */
    method ImagePath(env: Env) returns (r: Option<string>)
      modifies this`idMemo, this`manifestMemo, this`visibilityMemo, this`redactedMemo
      ensures r == old(ImagePathNow(env))
      ensures !Modern(kind) ==> unchanged(this)
      ensures ViewsNow(env) == old(ViewsNow(env))
    {
      if Modern(kind) {
        var redacted := IsRedacted(env);
        r := Some(Display.ModernImagePath(redacted, Display.DisplayPathOf(data), ReplacedFor(env, path)));
      } else if kind == Legacy {
        r := Some(Db.LegacyImagePath(Display.DisplayPathOf(data)));
      } else {
        var c := Db.CurrencyOf(path);
        r := if c.Some? then Some(c.value.mediaPath) else None;
      }
    }

    /** `getName()` once the record is loaded. */
    method GetName(env: Env) returns (r: JsValue)
      modifies this`idMemo, this`manifestMemo, this`visibilityMemo, this`redactedMemo
      ensures r == old(FetchedNameNow(env))
      ensures !Modern(kind) ==> unchanged(this)
      ensures ViewsNow(env) == old(ViewsNow(env))
    {
      var title := Display.TitleOf(data);
      if !Modern(kind) {
        return Db.LegacyName(title);
      }
      var redacted := IsRedacted(env);
      if redacted {
        r := Str(Display.RedactedName);
      } else if !Nullish(title) {
        r := title;
      } else {
        var id := Id(env);
        r := if id.Some? then Str(id.value) else Undefined;
      }
    }

    /**
     * `getSeasonNumber()`: a cached non-zero number is returned as is; otherwise the number
     * is computed, and cached unless it is 0 or NaN (which a later call computes again).
     */
    method GetSeasonNumber() returns (n: Option<int>)
      requires Modern(kind)
      modifies this`seasonMemo
      ensures n == old(SeasonNumberNow())
      ensures seasonMemo == if old(seasonMemo).Some? || !(n.Some? && n.value != 0) then old(seasonMemo) else n
    {
      if seasonMemo.Some? {
        return seasonMemo;
      }
      n := Display.SeasonNumberOf(Display.SeasonOf(data));
      seasonMemo := if n.Some? && n.value != 0 then n else None;
    }

    /**
     * `getImagePath()` once the record is loaded: the cached path, else the default image for
     * a redacted item (not cached), else the display path with its first letter lower-cased
     * or the default image (cached).
     */
    method GetImagePath(env: Env) returns (p: string)
      requires Modern(kind)
      modifies this`idMemo, this`manifestMemo, this`visibilityMemo, this`redactedMemo, this`imagePathMemo
      ensures p == old(FetchedImagePathNow(env))
      ensures imagePathMemo == if old(imagePathMemo).Some? || old(RedactedNow(env)) then old(imagePathMemo) else Some(p)
      ensures ViewsNow(env) == old(ViewsNow(env))
    {
      if imagePathMemo.Some? {
        return imagePathMemo.value;
      }
      var redacted := IsRedacted(env);
      if redacted {
        return Display.DefaultImagePath;
      }
      p := Display.FetchedImagePath(Display.DisplayPathOf(data));
      imagePathMemo := Some(p);
    }

    /**
     * `lastModifiedDate`. An offering is dated by its last `touched` entry (None: its record
     * or `touched` array is missing, a TypeError). Any other modern item: the cached date,
     * else the date of the last `touched` entry of its manifest entry, cached when that entry
     * parses; otherwise the fallback date, not cached.
     */
    method LastModifiedDate(env: Env, parses: string -> bool) returns (d: Option<Date>)
      requires Modern(kind)
      modifies this`idMemo, this`manifestMemo, this`dateMemo
      ensures kind == Offering ==> unchanged(this)
      ensures kind == Offering ==>
                d == if data.Some? && data.value.touched.Some? then Some(Display.LastTouched(data.value.touched.value)) else None
      ensures kind == Standard ==> d == Some(old(LastModifiedNow(env, parses)))
      ensures kind == Standard ==>
                dateMemo == if old(dateMemo).Some? || d.value.DefaultDate? then old(dateMemo) else d
      ensures ViewsNow(env) == old(ViewsNow(env))
    {
      if kind == Offering {
        d := if data.Some? && data.value.touched.Some? then Some(Display.LastTouched(data.value.touched.value)) else None;
        return;
      }
      if dateMemo.Some? {
        return dateMemo;
      }
      var manifest := ManifestItem(env);
      var date := Display.LastModifiedOf(if manifest.Some? then manifest.value.touched else None, parses);
      if date.DateFrom? {
        dateMemo := Some(date);
      }
      d := Some(date);
    }

    /**
     * `Offering.getRelatedItems()`. A second call returns the set built by the first. The
     * first call builds the set and resolves to undefined (None): it constructs a modern item
     * for every truthy `ItemPath`, skipping those whose construction throws. The set holds the
     * registered instance of every path long enough to be registered, plus fresh unregistered
     * items for short paths; the registry gains exactly the new keys. A record without
     * `offering.IncludedItems` makes the first call throw a TypeError; that call also gives
     * None, records nothing and leaves the registry as it was, so a caller tells it from
     * the ordinary first call only by `relatedItems` staying None.
     */
    method GetRelatedItems(reg: Registry) returns (r: Option<set<Item>>)
      requires kind == Offering && reg.Valid()
      modifies this`relatedItems, reg
      ensures reg.Valid()
      ensures old(relatedItems).Some? ==> r == relatedItems == old(relatedItems) && reg.items == old(reg.items)
      ensures old(relatedItems).None? ==> r.None?
      ensures old(relatedItems).None? && IncludedOf(data).None? ==> relatedItems.None? && reg.items == old(reg.items)
      ensures old(relatedItems).None? && IncludedOf(data).Some? ==>
                && relatedItems.Some?
                && reg.items.Keys == old(reg.items).Keys + KeysOf(IncludedOf(data).value)
                && (forall k :: k in old(reg.items) ==> reg.items[k] == old(reg.items)[k])
                && (forall k :: k in reg.items && k !in old(reg.items) ==> fresh(reg.items[k]))
                && ItemsFor(reg.items, IncludedOf(data).value) <= relatedItems.value
                && (forall it :: it in relatedItems.value - ItemsFor(reg.items, IncludedOf(data).value) ==>
                      fresh(it) && it.path.None?)
    {
      if relatedItems.Some? {
        return relatedItems;
      }
      r := None;
      var included := IncludedOf(data);
      if included.None? {
        return;
      }
      var found := reg.NewItemsFor(included.value);
      relatedItems := Some(found);
    }
  }

  /** The shared `db.items` map, from registry key to instance. */
  class Registry {
    var items: map<string, Item>

    constructor ()
      ensures items == map[]
    {
      items := map[];
    }

    /** No key shorter than 10 characters is ever registered. */
    predicate Valid()
      reads this
    {
      forall k :: k in items ==> |k| >= 10
    }

    /**
     * `new Item(path)` of src/db/item/index.js. A falsy path or a string shorter than 10
     * characters gives a fresh item that is not registered (and has no path); a truthy
     * non-string throws (None). Otherwise the lower-cased path is the key: an instance
     * already registered under it is returned, else a fresh one is registered under it and
     * no other key changes.
     */
    method NewItem(path: JsValue) returns (r: Option<Item>)
      requires Valid()
      modifies this
      ensures Valid()
      ensures ModernThrows(path) ==> r.None? && items == old(items)
      ensures !ModernThrows(path) && ModernKey(path).None? ==>
                && r.Some? && fresh(r.value) && r.value.kind == Standard && r.value.path.None? && r.value.Blank()
                && items == old(items)
      ensures ModernKey(path).Some? && ModernKey(path).value in old(items) ==>
                r == Some(old(items)[ModernKey(path).value]) && items == old(items)
      ensures ModernKey(path).Some? && ModernKey(path).value !in old(items) ==>
                && r.Some? && fresh(r.value) && r.value.kind == Standard && r.value.path == ModernKey(path) && r.value.Blank()
                && items == old(items)[ModernKey(path).value := r.value]
    {
      if !Truthy(path) || (path.Str? && |path.s| < 10) {
        var it := new Item(Standard, None);
        return Some(it);
      }
      if !path.Str? {
        return None;
      }
      var key := Lower(path.s);
      if key in items {
        return Some(items[key]);
      }
      var it := new Item(Standard, Some(key));
      items := items[key := it];
      r := Some(it);
    }

    /**
     * The `forEach` of `Offering.getRelatedItems`: `new Item(path)` for every truthy path,
     * collecting the instances whose construction does not throw.
     */
    method NewItemsFor(paths: seq<JsValue>) returns (found: set<Item>)
      requires Valid()
      modifies this
      ensures Valid()
      ensures items.Keys == old(items).Keys + KeysOf(paths)
      ensures forall k :: k in old(items) ==> items[k] == old(items)[k]
      ensures forall k :: k in items && k !in old(items) ==> fresh(items[k])
      ensures ItemsFor(items, paths) <= found
      ensures forall it :: it in found - ItemsFor(items, paths) ==> fresh(it) && it.path.None?
    {
      found := {};
      ghost var extra: set<Item> := {};
      var i := 0;
      while i < |paths|
        invariant 0 <= i <= |paths| && Valid()
        invariant items.Keys == old(items).Keys + KeysOf(paths[..i])
        invariant forall k :: k in old(items) ==> items[k] == old(items)[k]
        invariant forall k :: k in items && k !in old(items) ==> fresh(items[k])
        invariant found == ItemsFor(items, paths[..i]) + extra
        invariant forall it :: it in extra ==> fresh(it) && it.path.None?
      {
        var v := paths[i];
        ghost var before := items;
        assert paths[..i + 1] == paths[..i] + [v];
        var made := NewIncludedItem(v);
        if made.Some? {
          found := found + {made.value};
          if ModernKey(v).None? {
            extra := extra + {made.value};
          }
        }
        KeysOfSnoc(paths[..i], v);
        ItemsForSnoc(before, items, paths[..i], v);
        i := i + 1;
      }
      assert paths[..i] == paths;
    }

    /**
     * One step of that `forEach`: a falsy path is skipped, and so is a path whose
     * construction throws; otherwise the instance `new Item(path)` yields.
     */
    method NewIncludedItem(v: JsValue) returns (made: Option<Item>)
      requires Valid()
      modifies this
      ensures Valid()
      ensures items.Keys == old(items).Keys + (if ModernKey(v).Some? then {ModernKey(v).value} else {})
      ensures forall k :: k in old(items) ==> items[k] == old(items)[k]
      ensures forall k :: k in items && k !in old(items) ==> fresh(items[k])
      ensures ModernKey(v).Some? ==> made == Some(items[ModernKey(v).value])
      ensures ModernKey(v).None? && made.Some? ==> fresh(made.value) && made.value.path.None?
    {
      made := None;
      if Truthy(v) {
        made := NewItem(v);
      }
    }

    /**
     * `new Item(path)` of src/db/index.js (`currency`: `new CurrencyItem(path)`). A missing
     * path or one shorter than 10 characters gives a fresh unregistered item; otherwise the
     * path, as given, is the key: an existing instance is returned whatever its class, else a
     * fresh one is registered under it.
     */
    method NewLegacyItem(path: Option<string>, currency: bool) returns (r: Item)
      requires Valid()
      modifies this
      ensures Valid()
      ensures path.None? || |path.value| < 10 ==>
                && fresh(r) && r.kind == (if currency then Currency else Legacy) && r.path.None? && r.Blank()
                && items == old(items)
      ensures path.Some? && |path.value| >= 10 && path.value in old(items) ==>
                r == old(items)[path.value] && items == old(items)
      ensures path.Some? && |path.value| >= 10 && path.value !in old(items) ==>
                && fresh(r) && r.kind == (if currency then Currency else Legacy) && r.path == path && r.Blank()
                && items == old(items)[path.value := r]
    {
      var kind := if currency then Currency else Legacy;
      if path.None? || |path.value| < 10 {
        r := new Item(kind, None);
        return;
      }
      if path.value in items {
        return items[path.value];
      }
      r := new Item(kind, path);
      items := items[path.value := r];
    }

    /**
     * `new Offering({ offering, id })`. An instance registered under the bare `id` is
     * returned unchanged. An offering without a title or without a `touched` array never
     * calls the base constructor, which is a ReferenceError (None). Otherwise the base
     * constructor runs on `storecontent/offerings/{id}.json`: it yields the instance already
     * registered under the lower-cased path, or a fresh offering registered there; that
     * instance is then also registered under the path as written, takes the offering as its
     * record and the path as written as its path.
     */
    method NewOffering(offering: Option<Record>, id: string) returns (r: Option<Item>)
      requires Valid()
      modifies this, items.Values
      ensures Valid()
      ensures id in old(items) ==> r == Some(old(items)[id]) && items == old(items) && unchanged(old(items)[id])
      ensures id !in old(items) && !Display.OfferingAccepted(offering) ==> r.None? && items == old(items)
      ensures id !in old(items) && Display.OfferingAccepted(offering) ==>
                var path := Display.OfferingPath(id);
                && r.Some? && r.value.path == Some(path) && r.value.data == offering && !r.value.rejected
                && (Lower(path) in old(items) ==>
                      && r.value == old(items)[Lower(path)] && items == old(items)[path := r.value]
                      && r.value.Caches() == old(items[Lower(path)].Caches()))
                && (Lower(path) !in old(items) ==>
                      && fresh(r.value) && r.value.kind == Offering && r.value.NoCaches()
                      && items == old(items)[Lower(path) := r.value][path := r.value])
      ensures forall it | it in old(items).Values && (r.None? || it != r.value) :: unchanged(it)
    {
      if id in items {
        return Some(items[id]);
      }
      if !Display.OfferingAccepted(offering) {
        return None;
      }
      var path := Display.OfferingPath(id);
      var key := Lower(path);
      var it: Item;
      if key in items {
        it := items[key];
      } else {
        it := new Item(Offering, Some(key));
        items := items[key := it];
      }
      items := items[path := it];
      it.data, it.rejected := offering, false;
      it.path := Some(path);
      r := Some(it);
    }
  }
}
