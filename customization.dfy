/**
 * The stateful objects of the armour customisation page
 * (src/pages/vanity/customization/index.js): the armour hall with its supported-ID cache and
 * core map, a core with its theme and sockets, a socket with its page, and the menu's matte
 * colour. The value-level logic they use is in the Sockets module.
 */
module Customization {
  import opened Wrappers
  import opened Js
  import opened Records
  import Db
  import Registry
  import opened Sockets

  /** One socket of a theme: a slot of the armour with the option paths it offers. */
  class Socket {
    const optionPaths: seq<string>
    const socketName: string
    const itemIDs: seq<string>
    var page: nat                      // `state.page`

    /** `itemIDs` never repeats an ID. */
    predicate Valid() {
      NoDup(itemIDs)
    }

    /** `new Socket({ OptionPaths, socketName })`. */
    constructor (optionPaths: seq<string>, socketName: string, fileName: string -> string)
      ensures this.optionPaths == optionPaths && this.socketName == socketName
      ensures itemIDs == ItemIDsOf(optionPaths, fileName) && page == 0
      ensures Valid()
    {
      this.optionPaths := optionPaths;
      this.socketName := socketName;
      itemIDs := ItemIDsOf(optionPaths, fileName);
      page := 0;
    }

    /** `name`: the display label of the socket's item type. */
    function Name(): (r: JsValue)
      ensures socketName in Db.ItemTypes ==> r == Str(Db.ItemTypes[socketName])
      ensures socketName !in Db.ItemTypes ==> r == Str(socketName)
    {
      Db.GetItemType(Str(socketName))
    }

    /** `pages`: enough pages of 100 for every ID of the socket, filtered or not. */
    function PageCount(): (n: nat)
      ensures n * PageLength >= |itemIDs| && (n > 0 ==> (n - 1) * PageLength < |itemIDs|)
    {
      Pages(|itemIDs|)
    }

    /**
     * `filteredItemIDs`: the supported IDs, selected ones first, then favourites, then the
     * rest, each group in `itemIDs` order. Without a supported-ID set (no vanity index) the
     * first lookup throws (None).
     */
    method FilteredItemIDs(supported: Option<set<string>>, selected: set<string>, favorites: set<string>)
      returns (r: Option<seq<string>>)
      requires Valid()
      ensures supported.None? ==> r == if itemIDs == [] then Some([]) else None
      ensures supported.Some? ==> r == Some(Partition(itemIDs, supported.value, selected, favorites))
    {
      var chosen, favored, others := [], [], [];
      var i := 0;
      while i < |itemIDs|
        invariant 0 <= i <= |itemIDs|
        invariant supported.None? ==> i == 0 && chosen == favored == others == []
        invariant supported.Some? ==> chosen == Group(itemIDs[..i], supported.value, selected, favorites, 0)
        invariant supported.Some? ==> favored == Group(itemIDs[..i], supported.value, selected, favorites, 1)
        invariant supported.Some? ==> others == Group(itemIDs[..i], supported.value, selected, favorites, 2)
      {
        var id := itemIDs[i];
        if supported.None? {
          return None;
        }
        assert itemIDs[..i + 1][..i] == itemIDs[..i];
        if id in supported.value {
          if id in selected {
            chosen := chosen + [id];
          } else if id in favorites {
            favored := favored + [id];
          } else {
            others := others + [id];
          }
        }
        i := i + 1;
      }
      assert itemIDs[..i] == itemIDs;
      if supported.Some? {
        PartitionNoDup(itemIDs, supported.value, selected, favorites);
        DedupOfNoDup(chosen + favored + others);
      }
      r := Some(Dedup(chosen + favored + others));
    }

    /** `currentPageIDs`: the current page of the filtered IDs, at most 100 of them. */
    method CurrentPageIDs(supported: Option<set<string>>, selected: set<string>, favorites: set<string>)
      returns (r: Option<seq<string>>)
      requires Valid()
      ensures supported.None? ==> r == if itemIDs == [] then Some([]) else None
      ensures supported.Some? ==> r == Some(PageSlice(Partition(itemIDs, supported.value, selected, favorites), page))
      ensures r.Some? ==> |r.value| <= PageLength && NoDup(r.value)
    {
      var filtered := FilteredItemIDs(supported, selected, favorites);
      if filtered.None? {
        return None;
      }
      if supported.Some? {
        PartitionNoDup(itemIDs, supported.value, selected, favorites);
      }
      PageSliceNoDup(filtered.value, page);
      r := Some(Dedup(PageSlice(filtered.value, page)));
    }

    /** `nextPage`: one page forward, except on the last page. */
    method NextPage()
      modifies this`page
      ensures page == StepNext(old(page), PageCount())
    {
      if page + 1 == PageCount() {
        return;
      }
      page := page + 1;
    }

    /** `previousPage`: one page back, except on the first page. */
    method PreviousPage()
      modifies this`page
      ensures page == StepPrev(old(page))
    {
      if page == 0 {
        return;
      }
      page := page - 1;
    }
  }

  /** The theme's sockets were built from these properties, in this order. */
  predicate BuiltFrom(sockets: seq<Socket>, fields: seq<Field>, fileName: string -> string)
    reads set s | s in sockets
  {
    && |sockets| == |SocketFields(fields)|
    && forall k :: 0 <= k < |sockets| ==>
         && sockets[k].socketName == SocketFields(fields)[k].name
         && Some(sockets[k].optionPaths) == SocketFields(fields)[k].optionPaths
         && sockets[k].itemIDs == ItemIDsOf(sockets[k].optionPaths, fileName)
         && sockets[k].page == 0
  }

  /** The top-level properties of an item's record (none before it is loaded). */
  function FieldsOf(data: Option<Record>): seq<Field> {
    if data.Some? then data.value.fields else []
  }

  /** What a core's `_core` holds: nothing yet, the `{}` placeholder, or the core item. */
  datatype CoreSlot = Unset | Placeholder | Loaded(item: Registry.Item)

  /** An armour core (`uni`: the UniCore standing for the whole vanity index). */
  class Core {
    const meta: Option<ManifestEntry>
    const uni: bool
    var core: CoreSlot
    var theme: Option<Registry.Item>
    var sockets: Option<seq<Socket>>

    /** `new Core(meta)`; a UniCore keeps no manifest entry. */
    constructor (meta: Option<ManifestEntry>, uni: bool)
      ensures this.meta == (if uni then None else meta) && this.uni == uni
      ensures core == Unset && theme.None? && sockets.None?
    {
      this.meta := if uni then None else meta;
      this.uni := uni;
      core := Unset;
      theme := None;
      sockets := None;
    }

    /** `title`: the manifest title, else "core"; a UniCore is "UniCore". */
    function Title(): (r: string)
      ensures uni ==> r == "UniCore"
      ensures !uni && meta.Some? && meta.value.title.Some? ==> r == meta.value.title.value
      ensures !uni && !(meta.Some? && meta.value.title.Some?) ==> r == "core"
    {
      if uni then "UniCore" else if meta.Some? && meta.value.title.Some? then meta.value.title.value else "core"
    }

    /** `id`: the manifest name, else "core"; a UniCore is "UniCore". */
    function Id(): (r: string)
      ensures uni ==> r == "UniCore"
      ensures !uni && meta.Some? && meta.value.name.Some? ==> r == meta.value.name.value
      ensures !uni && !(meta.Some? && meta.value.name.Some?) ==> r == "core"
    {
      if uni then "UniCore" else if meta.Some? && meta.value.name.Some? then meta.value.name.value else "core"
    }

    /**
     * `initSockets()`: without a theme nothing happens; otherwise the sockets become one
     * fresh Socket per theme property with a non-empty `OptionPaths`, in property order.
     */
    method InitSockets(fileName: string -> string)
      modifies this`sockets
      ensures theme.None? ==> sockets == old(sockets)
      ensures theme.Some? ==>
                && sockets.Some?
                && BuiltFrom(sockets.value, FieldsOf(theme.value.data), fileName)
                && forall k :: 0 <= k < |sockets.value| ==> fresh(sockets.value[k])
    {
      if theme.None? {
        return;
      }
      var fields := FieldsOf(theme.value.data);
      var built: seq<Socket> := [];
      var i := 0;
      while i < |fields|
        invariant 0 <= i <= |fields|
        invariant BuiltFrom(built, fields[..i], fileName)
        invariant forall k :: 0 <= k < |built| ==> fresh(built[k])
      {
        var f := fields[i];
        assert fields[..i + 1] == fields[..i] + [f];
        assert fields[..i + 1][..i] == fields[..i];
        if IsSocketField(f) {
          var socket := new Socket(f.optionPaths.value, f.name, fileName);
          built := built + [socket];
        }
        i := i + 1;
      }
      assert fields[..i] == fields;
      sockets := Some(built);
    }

    /**
     * `init()` as written. It looks the core item up with `new Item({ id: this.id })`, an
     * object where the constructor expects a path string; the constructor throws, the error
     * is caught, and the `{}` placeholder stays in `_core`. So the core never gets a theme or
     * sockets, and every later call returns at once.
     */
    method InitAsWritten(reg: Registry.Registry)
      requires reg.Valid()
      modifies this`core, reg
      ensures reg.Valid() && reg.items == old(reg.items)
      ensures old(core) != Unset ==> core == old(core)
      ensures old(core) == Unset ==> core == Placeholder
      ensures theme == old(theme) && sockets == old(sockets)
    {
      if core != Unset {
        return;
      }
      core := Placeholder;
      var made := reg.NewItem(Other);
      // `made` is None: the TypeError leaves the try block before anything else is set
      assert made.None?;
    }

    /**
     * `init()` as intended: the core item is the item at the core's manifest path, and the
     * theme item the one at the manifest path of the theme ID its record names. `coreData`
     * and `themeData` are what their fetches return. The core item is kept unless its
     * `init()` throws; a core whose theme resolves then gets that theme and its sockets
     * unless the theme's `init()` throws. Any missing step, and any throw, leaves the rest
     * as it was, as the caught error does.
     */
    method Init(reg: Registry.Registry, env: Env, fileName: string -> string,
                coreData: Option<Record>, themeData: Option<Record>)
      requires reg.Valid()
      modifies this`core, this`theme, this`sockets, reg, reg.items.Values
      ensures reg.Valid()
      ensures forall o | o in old(reg.items.Values) ::
                unchanged(o) || (core.Loaded? && o == core.item) || (theme.Some? && o == theme.value)
      ensures forall k | k in old(reg.items) :: k in reg.items && reg.items[k] == old(reg.items[k])
      ensures forall k | k in reg.items && k !in old(reg.items) ::
                (core.Loaded? && reg.items[k] == core.item) || (theme.Some? && reg.items[k] == theme.value)
      ensures old(core) != Unset ==> core == old(core) && theme == old(theme) && sockets == old(sockets)
      ensures old(core) == Unset && ManifestPath(env, Id()).None? ==>
                core == Placeholder && theme == old(theme) && sockets == old(sockets)
      ensures old(core) == Unset && ManifestPath(env, Id()).Some? ==>
                var path := ManifestPath(env, Id()).value;
                && (core.Loaded? <==> !old(InitThrows(reg, path)))
                && (core.Loaded? ==> core.item.data == old(RecordAfterLoad(reg, path, coreData)))
                && (core.Loaded? && |path| >= 10 ==> Lower(path) in reg.items && core.item == reg.items[Lower(path)])
      ensures old(core) == Unset && core.Loaded? && ThemePath(env, fileName, core.item.data).Some? ==>
                var path := ThemePath(env, fileName, core.item.data).value;
                && (old(InitThrows(reg, path)) ==> theme == old(theme) && sockets == old(sockets))
                && (!old(InitThrows(reg, path)) ==>
                      && theme.Some? && sockets.Some?
                      && BuiltFrom(sockets.value, FieldsOf(theme.value.data), fileName)
                      && (|path| >= 10 ==> Lower(path) in reg.items && theme.value == reg.items[Lower(path)]))
      ensures old(core) == Unset && !(core.Loaded? && ThemePath(env, fileName, core.item.data).Some?) ==>
                theme == old(theme) && sockets == old(sockets)
    {
      if core != Unset {
        return;
      }
      core := Placeholder;
      var corePath := ManifestPath(env, Id());
      if corePath.None? {
        return;
      }
      LoadCore(reg, corePath.value, coreData);
      if core.Placeholder? {
        return;
      }
      var themePath := ThemePath(env, fileName, core.item.data);
      if themePath.None? {
        return;
      }
      assert InitThrows(reg, themePath.value) == old(InitThrows(reg, themePath.value));
      LoadTheme(reg, env, fileName, themeData);
    }

    /**
     * The core half of `init()`: the item at the core's manifest path is loaded, and unless
     * its `init()` throws it becomes the core. Loading it leaves every other registered item
     * as it was, so once the core holds a record, loading any path throws exactly when it did
     * before.
     */
    method LoadCore(reg: Registry.Registry, path: string, coreData: Option<Record>)
      requires reg.Valid() && core == Placeholder
      modifies this`core, reg, reg.items.Values
      ensures reg.Valid()
      ensures core.Loaded? <==> !old(InitThrows(reg, path))
      ensures core.Loaded? ==> core.item.data == old(RecordAfterLoad(reg, path, coreData))
      ensures core.Loaded? && |path| >= 10 ==> Lower(path) in reg.items && core.item == reg.items[Lower(path)]
      ensures !core.Loaded? ==> core == Placeholder
      ensures forall o :: o in reg.items.Values ==> o in old(reg.items.Values) || fresh(o)
      ensures forall o | o in old(reg.items.Values) :: unchanged(o) || (core.Loaded? && o == core.item)
      ensures forall k | k in old(reg.items) :: k in reg.items && reg.items[k] == old(reg.items[k])
      ensures forall k | k in reg.items && k !in old(reg.items) :: core.Loaded? && reg.items[k] == core.item
      ensures core.Loaded? && core.item.data.Some? && core.item.data != Some(Registry.NoFields) ==>
                forall p :: InitThrows(reg, p) == old(InitThrows(reg, p))
      ensures core.Loaded? ==>
                forall p :: Registered(reg, p) != Some(core.item) ==> InitThrows(reg, p) == old(InitThrows(reg, p))
    {
      var coreItem, coreOutcome := LoadItem(reg, path, coreData);
      if coreOutcome == Registry.Threw {
        return;
      }
      core := Loaded(coreItem);
    }

    /**
     * The theme half of `init()`: the theme item at the path the core's record names is
     * loaded, and unless its `init()` throws it becomes the theme and the sockets are built.
     */
    method LoadTheme(reg: Registry.Registry, env: Env, fileName: string -> string, themeData: Option<Record>)
      requires reg.Valid() && core.Loaded? && ThemePath(env, fileName, core.item.data).Some?
      modifies this`theme, this`sockets, reg, reg.items.Values
      ensures reg.Valid()
      ensures core.item.data == old(core.item.data)
      ensures forall k :: k in old(reg.items) ==> k in reg.items && reg.items[k] == old(reg.items[k])
      ensures forall k | k in reg.items && k !in old(reg.items) :: theme.Some? && reg.items[k] == theme.value
      ensures forall o | o in old(reg.items.Values) :: unchanged(o) || (theme.Some? && o == theme.value)
      ensures var path := ThemePath(env, fileName, core.item.data).value;
              && (old(InitThrows(reg, path)) ==> theme == old(theme) && sockets == old(sockets))
              && (!old(InitThrows(reg, path)) ==>
                    && theme.Some? && sockets.Some?
                    && BuiltFrom(sockets.value, FieldsOf(theme.value.data), fileName)
                    && (|path| >= 10 ==> Lower(path) in reg.items && theme.value == reg.items[Lower(path)]))
    {
      var coreItem := core.item;
      var themePath := ThemePath(env, fileName, coreItem.data);
      var themeItem, themeOutcome := LoadItem(reg, themePath.value, themeData);
      if themeOutcome == Registry.Threw {
        return;
      }
      theme := Some(themeItem);
      InitSockets(fileName);
    }
  }

  /** The registered item `new Item(path)` returns, if there is one. */
  function Registered(reg: Registry.Registry, path: string): Option<Registry.Item>
    reads reg
  {
    if |path| >= 10 && Lower(path) in reg.items then Some(reg.items[Lower(path)]) else None
  }

  /** `new Item(path)` followed by `init()` throws: the registered item holds a rejected promise. */
  predicate InitThrows(reg: Registry.Registry, path: string)
    reads reg, reg.items.Values
  {
    && Registered(reg, path).Some?
    && Registry.OutcomeOfInit(Registered(reg, path).value.kind, Registered(reg, path).value.path.Some?,
                              Registered(reg, path).value.data, Registered(reg, path).value.rejected, None)
       == Registry.Threw
  }

  /**
   * The record of the item `new Item(path)` returns, after its `init()` with `fetched`. A
   * path shorter than 10 characters gives an item without a path, which fetches nothing.
   */
  function RecordAfterLoad(reg: Registry.Registry, path: string, fetched: Option<Record>): Option<Record>
    reads reg, reg.items.Values
  {
    if Registered(reg, path).Some?
    then Registry.DataAfterInit(Registered(reg, path).value.kind, Registered(reg, path).value.path.Some?,
                                Registered(reg, path).value.data, fetched)
    else Registry.DataAfterInit(Registry.Standard, |path| >= 10, None, fetched)
  }

  /**
   * The path of the theme an item's record names: its default option's file name, looked
   * up in the manifest.
   */
  function ThemePath(env: Env, fileName: string -> string, data: Option<Record>): Option<string> {
    if data.None? then None
    else
      var themeId := ThemeIdOf(data.value.defaultOptionPath, fileName, env.manifest);
      if themeId.None? then None else env.manifest[themeId.value].path
  }

  /**
   * `new Item(path)` followed by `init()` with the fetched record. The item is the one
   * registered under the lower-cased path, or a fresh blank one (without a path, so fetching
   * nothing, when the path is shorter than 10 characters); `init()` changes its record as
   * `Registry.DataAfterInit` says, and nothing else changes.
   */
  method LoadItem(reg: Registry.Registry, path: string, fetched: Option<Record>)
    returns (item: Registry.Item, outcome: Registry.InitOutcome)
    requires reg.Valid()
    modifies reg, reg.items.Values
    ensures reg.Valid()
    ensures |path| >= 10 ==> reg.items == old(reg.items)[Lower(path) := item]
    ensures |path| < 10 ==> reg.items == old(reg.items)
    ensures old(Registered(reg, path)).Some? ==>
              && item == old(Registered(reg, path)).value
              && item.data == Registry.DataAfterInit(item.kind, item.path.Some?, old(item.data), fetched)
              && item.rejected == Registry.RejectedAfterInit(item.kind, item.path.Some?, old(item.data), old(item.rejected), fetched)
              && outcome == Registry.OutcomeOfInit(item.kind, item.path.Some?, old(item.data), old(item.rejected), fetched)
              && item.path == old(item.path) && item.Caches() == old(item.Caches())
    ensures old(Registered(reg, path)).None? ==>
              && fresh(item) && item.kind == Registry.Standard && item.NoCaches()
              && (item.path.Some? <==> |path| >= 10)
              && item.data == Registry.DataAfterInit(Registry.Standard, |path| >= 10, None, fetched)
              && item.rejected == Registry.RejectedAfterInit(Registry.Standard, |path| >= 10, None, false, fetched)
              && outcome == Registry.OutcomeOfInit(Registry.Standard, |path| >= 10, None, false, fetched)
    ensures item.data == old(RecordAfterLoad(reg, path, fetched))
    ensures outcome == Registry.Threw <==> old(InitThrows(reg, path))
    ensures outcome == Registry.Threw ==> unchanged(item)
    ensures outcome != Registry.Threw && item.data.Some? && item.data != Some(Registry.NoFields) ==>
              forall p :: InitThrows(reg, p) == old(InitThrows(reg, p))
    ensures forall p :: Registered(reg, p) != Some(item) ==> InitThrows(reg, p) == old(InitThrows(reg, p))
    ensures forall o | o in old(reg.items.Values) && o != item :: unchanged(o)
    ensures forall o :: o in reg.items.Values ==> o in old(reg.items.Values) || fresh(o)
  {
    var made := reg.NewItem(Str(path));
    item := made.value;
    outcome := item.Init(fetched);
  }

  /** The manifest path of an ID (`getItemManifestByID(id).path`), when there is one. */
  function ManifestPath(env: Env, id: string): Option<string> {
    if id in env.manifest then env.manifest[id].path else None
  }

  /** The armour hall: the vanity index, its supported IDs and the map of cores. */
  class ArmorHall {
    var vanity: Option<seq<VanityProperty>>     // `_vanity`
    var supportedMemo: Option<set<string>>      // `_supportedItemIDs`
    var coreMap: Option<map<string, Core>>

    constructor ()
      ensures vanity.None? && supportedMemo.None? && coreMap.None?
    {
      vanity, supportedMemo, coreMap := None, None, None;
    }

    /**
     * `supportedItemIDs`: the cached set, else (with a vanity index) the union of every
     * property's `options` array, which is cached; without a vanity index, undefined.
     */
    method SupportedItemIDs() returns (r: Option<set<string>>)
      modifies this`supportedMemo
      ensures old(supportedMemo).Some? ==> r == supportedMemo == old(supportedMemo)
      ensures old(supportedMemo).None? && vanity.None? ==> r.None? && supportedMemo.None?
      ensures old(supportedMemo).None? && vanity.Some? ==> r == supportedMemo == Some(OptionsUnion(vanity.value))
    {
      if supportedMemo.Some? {
        return supportedMemo;
      }
      if vanity.None? {
        return None;
      }
      var props := vanity.value;
      var ids: set<string> := {};
      var i := 0;
      while i < |props|
        invariant 0 <= i <= |props|
        invariant ids == OptionsUnion(props[..i])
      {
        assert props[..i + 1][..i] == props[..i];
        if props[i].options.Some? {
          ids := ids + set x | x in props[i].options.value;
        }
        i := i + 1;
      }
      assert props[..i] == props;
      supportedMemo := Some(ids);
      r := supportedMemo;
    }

    /**
     * `init()` without its canvas work: once the vanity index is loaded nothing changes.
     * Otherwise the fetched index (`fetched`, None when the fetch gives nothing; `hasCores`:
     * it has a truthy `cores` property) is stored, an index without cores is rejected
     * (`ok` false: the thrown error), and the cores are set up.
     */
    method Init(fetched: Option<seq<VanityProperty>>, hasCores: bool, coreIDs: seq<string>, env: Env)
      returns (ok: bool)
      modifies this`vanity, this`coreMap
      ensures old(vanity).Some? ==> ok && vanity == old(vanity) && coreMap == old(coreMap)
      ensures old(vanity).None? ==> vanity == fetched && ok == (fetched.Some? && hasCores)
      ensures !ok ==> coreMap == old(coreMap)
      ensures old(vanity).None? && ok ==> coreMap.Some? && (old(coreMap).Some? ==> coreMap == old(coreMap))
      ensures old(vanity).None? && ok && old(coreMap).None? ==>
                forall id :: id in coreMap.value <==> id in coreIDs || id == "vanityIndex"
    {
      if vanity.Some? {
        return true;
      }
      vanity := fetched;
      if fetched.None? || !hasCores {
        return false;
      }
      var _ := InitCores(coreIDs, env);
      ok := true;
    }

    /**
     * `initCores(vanityIndex)`: once the core map exists nothing changes (and nothing is
     * returned). Otherwise the map gets a fresh Core for each distinct ArmorCore ID, with the
     * manifest entry of that ID, and a fresh UniCore under "vanityIndex" (which replaces a
     * core of that ID).
     */
    method InitCores(coreIDs: seq<string>, env: Env) returns (r: Option<map<string, Core>>)
      modifies this`coreMap
      ensures old(coreMap).Some? ==> r.None? && coreMap == old(coreMap)
      ensures old(coreMap).None? ==>
                && r == coreMap && r.Some?
                && (forall id :: id in r.value <==> id in coreIDs || id == "vanityIndex")
                && (forall id :: id in r.value ==> fresh(r.value[id]) && r.value[id].core == Unset)
                && r.value["vanityIndex"].uni
                && (forall id :: id in coreIDs && id != "vanityIndex" ==>
                      !r.value[id].uni && r.value[id].meta == ManifestByID(env, Some(id)))
    {
      if coreMap.Some? {
        return None;
      }
      var ids := Dedup(coreIDs);
      DedupIsSet(coreIDs);
      var cores: map<string, Core> := map[];
      var i := 0;
      while i < |ids|
        invariant 0 <= i <= |ids|
        invariant forall id :: id in cores <==> id in ids[..i]
        invariant forall id :: id in cores ==>
                    fresh(cores[id]) && cores[id].core == Unset && !cores[id].uni
                    && cores[id].meta == ManifestByID(env, Some(id))
      {
        var core := new Core(ManifestByID(env, Some(ids[i])), false);
        cores := cores[ids[i] := core];
        assert ids[..i + 1] == ids[..i] + [ids[i]];
        i := i + 1;
      }
      assert ids[..i] == ids;
      var uni := new Core(None, true);
      cores := cores["vanityIndex" := uni];
      coreMap := Some(cores);
      r := coreMap;
    }
  }

  /** The matte colour: three channels (None: NaN) and an opacity. */
  datatype Matte = Matte(red: Option<int>, green: Option<int>, blue: Option<int>, opacity: real)

  class Menu {
    var matte: Matte

    constructor ()
      ensures matte == Matte(Some(0), Some(0), Some(0), 1.0)
    {
      matte := Matte(Some(0), Some(0), Some(0), 1.0);
    }

    /**
     * `updateMatteColor(input)`: red, green and blue become the hex values of characters 1-2,
     * 3-4 and 5-6 of the input; the opacity stays.
     */
    method UpdateMatteColor(input: string)
      modifies this`matte
      ensures matte == old(matte).(red := MatteChannel(input, 1), green := MatteChannel(input, 3), blue := MatteChannel(input, 5))
      ensures matte.opacity == old(matte).opacity
    {
      var red := MatteChannel(input, 1);
      var green := MatteChannel(input, 3);
      var blue := MatteChannel(input, 5);
      matte := matte.(red := red, green := green, blue := blue);
    }
  }
}
