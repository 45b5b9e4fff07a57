# skimmer: item database and armour customisation, modelled in Dafny

skimmer is a browser front end for a Halo Infinite asset database. This project models three
parts of it:

- the item database (`src/db/index.js`): path casing, the manufacturer table, item-type
  labels, the legacy `Item` and `CurrencyItem` classes, and the JSON link replacer of the item
  panel;
- the modern item classes (`src/db/item/index.js`): `Item` with its cached getters (id,
  manifest entry, visibility, redaction, season number, image path, last-modified date), and
  `Offering`, which registers itself under a store path and collects the items it includes;
- the armour hall of the customisation page (`src/pages/vanity/customization/index.js`):
  the supported-item set built from the vanity index, the map of cores, a core's theme and
  sockets, the paging and ordering of a socket's items, and the menu's matte colour.

Layout, one module per file:

- `wrappers.dfy` (`Wrappers`): `Option`.
- `js.dfy` (`Js`): the JavaScript behaviour the code relies on. This covers truthiness,
  `toLowerCase` (ASCII only), `indexOf`, `replace` of the first match, `split`/`join`,
  `parseInt` with radix 10 or 16, and indexing past the end of a string, which gives
  `undefined`.
- `records.dfy` (`Records`): the shapes of fetched records and manifest entries. It also
  defines `Env`, which holds the database lookups the items use.
- `db.dfy` (`Db`): the tables and the `Database` class.
- `display.dfy` (`Display`): the decisions the item getters make, as pure functions.
- `registry.dfy` (`Registry`): the classes `Item` and `Registry`.
  - `Item` stands for all four item classes. A constant `kind` tells which one it is.
  - `Registry` is the database's `items` map, keyed by path.
- `sockets.dfy` (`Sockets`): the pure parts of the customisation page.
- `customization.dfy` (`Customization`): the classes `Socket`, `Core`, `ArmorHall` and `Menu`.

How the JavaScript is represented:

- A cached getter becomes two members:
  - a function (`IdNow`, `VisibilityNow`, …) giving the value the getter would return in
    the current state;
  - a method that returns exactly that value and fills the cache.

  Every getter method also promises that all cached views stay the same. A cache, once
  written, never changes what it reports. The methods that are not getters (`Init`,
  `Unredact`, `NewOffering`) state the new record or flag they set instead.
- A thrown exception becomes `None`.
- `NaN` from `parseInt` becomes `None`.
- A caught error becomes the state it leaves behind.
- Helpers defined outside these files are parameters:
  - `itemPathToID`, `getItemManifestByID`, `replacedInfoItems` and `revealHidden` are the
    fields of `Env`;
  - `filenameFromPath` and `Date.parse` are functions passed in;
  - the selected and favourite sets, and the IDs of type ArmorCore, are arguments.

## Model

| member | source | states |
|---|---|---|
| Js.LowerChar | src/db/index.js:127 | an upper-case ASCII letter moves down by 32, every other character is kept, and the result is never upper case |
| Js.Lower | src/db/item/index.js:20 | `toLowerCase` keeps the length, maps each character through `LowerChar`, and gives a lower-case string |
| Js.LowerOfLowerCase | src/db/item/index.js:20 | lower-casing a lower-case string changes nothing |
| Js.IndexFrom | src/db/item/index.js:194 | the first occurrence at or after a start position, or none at all |
| Js.IndexOf | src/db/item/index.js:194 | `indexOf` finds the first occurrence; when it finds none, the pattern occurs nowhere |
| Js.ReplaceFirst | src/db/item/index.js:194 | `replace` with a string pattern changes only the first occurrence; with no occurrence it returns the input; a same-length replacement keeps the length |
| Js.ReplaceKeepsLowerCase | src/db/item/index.js:194 | replacing `.svg` with `.png` in a lower-cased path keeps it lower case |
| Js.FirstIndexOf | src/db/item/index.js:62 | the first position of a separator that occurs in the string |
| Js.Split | src/db/item/index.js:62 | `split(' ')` gives at least one part, and no part holds the separator |
| Js.JoinSplit | src/db/item/index.js:62 | joining the parts of a split gives back the string |
| Js.SplitJoin | src/db/item/index.js:62 | splitting a join of separator-free parts gives back the parts |
| Js.CharAtOrUndefined | src/pages/vanity/customization/index.js:274-277 | `chars[k]` as a string: the character, or "undefined" past the end |
| Js.CharPair | src/pages/vanity/customization/index.js:274-277 | `chars[k] + chars[k + 1]`: the two characters; one character followed by "undefined" when only the second is missing; "NaN" (the number `undefined + undefined`) when both are |
| Js.TrimStartIsSuffix | src/db/item/index.js:63 | `parseInt` skips leading white space (ECMAScript white space, line terminators and every Unicode space separator): the result is a suffix that starts with no such character |
| Js.LeadingSpaceIgnored | src/db/item/index.js:63 | one leading white-space character, such as U+3000, does not change what `parseInt` reads |
| Js.ParseInt | src/db/item/index.js:63 | `parseInt`: white space alone gives NaN; after the white space, a first character that is neither a sign nor a digit of the radix gives NaN; a digit of the radix that does not begin a "0x" prefix gives a number |
| Js.DigitValue | src/db/item/index.js:63 | a character's digit value lies in -1..35 (-1: not a digit) |
| Js.DigitRun | src/db/item/index.js:63 | the digit run `parseInt` reads is never longer than the input |
| Js.DigitRunIsLongest | src/db/item/index.js:63 | the digit run is all digits of the radix and stops at the first non-digit |
| Js.DigitChar | src/db/item/index.js:63 | a decimal digit's character has that digit value |
| Js.DecimalString | src/db/item/index.js:63 | the decimal numeral of a natural number is all digits, with no leading zero except for 0 |
| Js.DecimalStringValue | src/db/item/index.js:63 | the digits of a numeral add up to the number again |
| Js.DigitRunOfDigits | src/db/item/index.js:63 | a string made only of digits is one digit run |
| Js.SkipNothing | src/db/item/index.js:63 | a string starting with a digit has no white space or sign for `parseInt` to skip |
| Js.ReadDigits | src/db/item/index.js:63 | without a "0x" prefix, `parseInt` reads a string of digits of its radix in full |
| Js.ParseNumeral | src/db/item/index.js:63 | `parseInt` of a string of decimal digits is the number they spell |
| Js.ParseDecimalString | src/db/item/index.js:63 | `parseInt` of a decimal numeral is that number |
| Js.TwoDigits | src/pages/vanity/customization/index.js:274-277 | two digits spell the first times the radix plus the second |
| Js.HexPair | src/pages/vanity/customization/index.js:274-277 | `parseInt` of two hex digits with radix 16 is their value, which lies in 0..255 |
| Db.PathCase | src/db/index.js:125-128 | a missing or non-string path gives ""; with casing on (the default), the path lower-cased; otherwise the path unchanged |
| Db.PathCaseLowers | src/db/index.js:125-128 | with casing on, every cased path is lower case |
| Db.PathCaseIdempotent | src/db/index.js:125-128 | casing a cased path changes nothing |
| Db.ManufacturerTable | src/db/index.js:46-51 | the manufacturer map has exactly the list's indices as keys, each mapped to its entry |
| Db.ManufacturerByIndex | src/db/index.js:53-61 | a falsy index or an unknown one gives the default manufacturer; a known truthy index gives its entry |
| Db.ManufacturerLookup | src/db/index.js:46-61 | looking up index i in the table built from a list gives list[i] for 0 < i < length, and the default otherwise |
| Db.Database.constructor | src/db/index.js:8-15 | a new database has the given path casing, no metadata and no cached manufacturers |
| Db.Database.Manufacturers | src/db/index.js:46-51 | without metadata, an empty map and nothing cached; otherwise the cached table, or the table of the metadata's manufacturers, which is cached |
| Db.Database.ManufacturerByIndexOf | src/db/index.js:53-61 | the manufacturer at the index in the current table; a falsy index touches no cache |
| Db.GetItemType | src/db/index.js:63-117 | a known item type gives its label; any other name comes back unchanged |
| Db.CurrencyOf | src/db/index.js:250-278 | a currency item's entry is looked up by its lower-cased path; an unknown path gives "Unknown Currency"; without a path the getter throws |
| Db.CurrencyIgnoresCase | src/db/index.js:271-273 | paths that differ only in case name the same currency |
| Db.LegacyImagePath | src/db/index.js:230-238 | an empty or non-string display path gives ""; otherwise the same path with its first character lower-cased |
| Db.LegacyName | src/db/index.js:148-155 | the title, or "???" when it is null or undefined |
| Db.AnchorRoundTrip | src/db/index.js:401-409 | the anchor built for a path links back to exactly that path |
| Db.LinkReplacer | src/db/index.js:401-409 | a string longer than 10 that ends in ".json" becomes the markup `<a href=#v>v</a>` of itself, an anchor whose target is that string; every other value is kept |
| Display.ModernName | src/db/item/index.js:36-49 | redacted gives "[REDACTED]"; else a non-empty string title; else a replaced name; else the ID, or "???" |
| Display.FetchedName | src/db/item/index.js:51-55 | redacted gives "[REDACTED]"; else the title unless it is null or undefined; else the ID |
| Display.PngPath | src/db/item/index.js:194 | the rewritten media path has the same length and is lower case |
| Display.ModernImagePath | src/db/item/index.js:187-202 | redacted gives the default image; else the lower-cased display path with `.svg` made `.png`; else the replaced media path; else the default |
| Display.SvgBecomesPng | src/db/item/index.js:194 | a path ending in its only ".svg" ends in ".png" once lower-cased |
| Display.SvgAtEnd | src/db/item/index.js:194 | in a path with no ".svg" of its own, the first ".svg" of the path plus ".svg" is the added one |
| Display.FetchedImagePath | src/db/item/index.js:204-217 | the default image without a string display path; otherwise the path with its first character lower-cased |
| Display.SeasonNumberOf | src/db/item/index.js:57-73 | a missing or non-string season, or one without a second word, gives 0 |
| Display.NumeralSecondWord | src/db/item/index.js:70-71 | a second word that is the numeral of n gives season number n |
| Display.SeasonNumberOfNumeral | src/db/item/index.js:57-73 | a season whose second word is a numeral, such as "Season 3 Alpha", gives that number |
| Display.SeasonWithoutNumber | src/db/item/index.js:61-64 | a season of one word gives 0 |
| Display.VisibilityOf | src/db/item/index.js:267-305 | a missing manifest entry or path gives Hidden (the caught error); outside the inventory, Visible; inside it, Seen exactly when hidden-until-owned with a visible date, Hidden exactly when hidden-until-owned without one, and the date is the visible date when there is one |
| Display.HiddenOnlyWhenFlaggedOrMissing | src/db/item/index.js:267-305 | Hidden only for a missing entry or a hidden-until-owned item without a visible date; Seen only for a hidden-until-owned item |
| Display.RedactedOf | src/db/item/index.js:256-265 | unredacted by the user: never redacted; a cached true: redacted; revealHidden: not redacted; otherwise redacted exactly when the visibility is Hidden |
| Display.SeenIsNotRedacted | src/db/item/index.js:262-263 | an item already seen is never redacted |
| Display.OfferingPath | src/db/item/index.js:321 | the store path of an offering starts with "storecontent/offerings/", ends in ".json", and is 28 characters longer than the ID |
| Display.OfferingPathRoundTrip | src/db/item/index.js:321 | the ID can be read back from its store path |
| Display.OfferingPathInjective | src/db/item/index.js:321 | two offerings with the same store path have the same ID |
| Display.OfferingName | src/db/item/index.js:350-352 | the title, else the offering ID, else "Offering": always truthy |
| Display.LastTouched | src/db/item/index.js:378-381 | an offering's date is the last entry of its touched list |
| Display.LastTouchedAppend | src/db/item/index.js:378-381 | appending a date makes it the offering's date |
| Display.LastModifiedAsWritten | src/db/item/index.js:244-254 | as written: no touched list gives the default date; otherwise the date of the last entry, whether it parses or not |
| Display.LastModifiedOf | src/db/item/index.js:244-254 | as intended: a date from the touched list only when the list has a last entry and it parses; a parsable last entry always gives its date |
| Display.UnparsableTouchedDate | src/db/item/index.js:249 | for an unparsable last entry the code as written builds a date from it, where the intended result is the default date |
| Display.LastModifiedAgreesOnParsableDates | src/db/item/index.js:244-254 | when the last entry parses, or there is no touched list, the two versions agree |
| Registry.ModernKey | src/db/item/index.js:17-27 | a string path of at least 10 characters is registered under its lower-cased form; any other value has no key |
| Registry.CaseVariantsShareKey | src/db/item/index.js:20-24 | paths differing only in case reach the same registry key |
| Registry.KeysOfMembers | src/db/item/index.js:357-362 | the keys an offering's included items reach are exactly the keys of their item paths |
| Registry.ItemsForMembers | src/db/item/index.js:357-362 | the items collected for the paths are exactly the registered items under the paths' keys |
| Registry.ItemsForExtend | src/db/item/index.js:357-362 | registering more items, without replacing any, leaves the items collected for earlier paths unchanged |
| Registry.KeysOfSnoc | src/db/item/index.js:357-362 | one more included item adds its key, if it has one |
| Registry.ItemsForSnoc | src/db/item/index.js:357-362 | one more included item adds the registered item for its key |
| Registry.Item.constructor | src/db/item/index.js:17-30 | a new item has its kind and path and no cached value |
| Registry.Item.Init | src/db/item/index.js:88-104 | a record or promise already held is kept (awaiting a rejected one throws again); an item without a path fetches nothing (`getJSON` of undefined, src/db/index.js:26-32), keeps no data and ends Ready; otherwise the fetched record becomes the data; a failed modern fetch leaves its rejected promise, with no record fields, and ends caught; a failed legacy fetch (src/db/index.js:176-184) leaves no data |
| Registry.PathlessInitFetchesNothing | src/db/index.js:26-32 | an item without a path ends every `init` Ready, with no record, whatever a fetch would give |
| Registry.ModernInitIsFinal | src/db/item/index.js:88-101 | after one `init` a modern item with a path always holds something, and no later `init` changes its data or its rejected flag, whatever a new fetch would give |
| Registry.FailedFetchThrowsLater | src/db/item/index.js:88-101 | a modern item with a path whose first fetch fails ends that `init` caught, and every later `init` throws |
| Registry.LegacyFetchRetries | src/db/index.js:176-184 | a legacy item whose fetch fails holds no record, so its next `init` takes what a new fetch gives |
| Registry.FailedFetchHidesInventoryItem | src/db/item/index.js:256-305 | the rejected promise a failed fetch leaves has no `CommonData`, so an inventory item is Hidden and redacted |
| Registry.Item.Id | src/db/item/index.js:32-34 | returns the cached ID or the looked-up one, caches it, and no cached view changes |
| Registry.Item.ManifestItem | src/db/item/index.js:238-242 | returns the manifest entry of the item's ID (cached when found), and no cached view changes |
| Registry.Item.ItemVisibility | src/db/item/index.js:267-305 | returns the visibility the getter gives and caches it, and no cached view changes |
| Registry.Item.IsRedacted | src/db/item/index.js:256-265 | returns the redaction the getter gives; with the user's unredact, a cached true or revealHidden nothing changes; otherwise the answer and visibility are cached |
| Registry.Item.Unredact | src/db/item/index.js:307-309 | after `unredact` the item is redacted under no database state |
| Registry.Item.Name | src/db/item/index.js:36-49 | returns the name the item's class gives (modern, offering, legacy or currency), and no cached view changes |
| Registry.Item.ImagePath | src/db/item/index.js:187-202 | returns the image path the item's class gives, and no cached view changes |
| Registry.Item.GetName | src/db/item/index.js:51-55 | returns the fetched name (the legacy class: the title or "???"), and no cached view changes |
| Registry.Item.GetSeasonNumber | src/db/item/index.js:57-65 | returns the season number, and caches it only when it is a non-zero number and nothing was cached |
| Registry.Item.GetImagePath | src/db/item/index.js:204-217 | returns the fetched image path and caches it unless the item is redacted |
| Registry.Item.LastModifiedDate | src/db/item/index.js:244-254 | as intended (see Findings): a modern item's date is the cached one, else the date of its manifest entry's last touched entry, cached when that entry parses; an unparsable or missing entry gives the default date, not cached; an offering's date (lines 378-381) is the last entry of its own touched list, or the getter throws |
| Registry.Item.GetRelatedItems | src/db/item/index.js:354-371 | the first call returns nothing and records an item for every included item path, registering new ones; later calls return that set; a record without included items throws, which also gives nothing and records nothing |
| Registry.Registry.constructor | src/db/item/index.js:21-27 | the registry starts empty |
| Registry.Registry.NewItem | src/db/item/index.js:17-30 | a falsy or short path gives a fresh unregistered item; a truthy non-string throws; a known key gives the registered item; a new key registers a fresh item under the lower-cased path |
| Registry.Registry.NewItemsFor | src/db/item/index.js:357-367 | registers a fresh item for every new key among the paths, keeps every existing entry, and returns the registered item of every key |
| Registry.Registry.NewIncludedItem | src/db/item/index.js:358-362 | one included path: the registered item for its key, or a fresh unregistered item for a short path |
| Registry.Registry.NewLegacyItem | src/db/index.js:136-146 | the legacy constructor: a missing or short path gives a fresh unregistered item; a known path (case kept) gives the registered item; a new one is registered |
| Registry.Registry.NewOffering | src/db/item/index.js:313-328 | an ID already registered gives that item, unchanged, and the registry is unchanged; a record without a title and touched list throws; otherwise the item at the store path gets the record and the path as written, and is also registered under that path; a fresh offering has no caches, an existing one keeps all its caches, and no other item changes |
| Sockets.FirstPos | src/pages/vanity/customization/index.js:594 | the first position of an ID in a list |
| Sockets.FirstPosUnique | src/pages/vanity/customization/index.js:594 | a position with no earlier copy is the first position |
| Sockets.FirstPosSnoc | src/pages/vanity/customization/index.js:594 | appending keeps an ID's first position |
| Sockets.DedupIsSet | src/pages/vanity/customization/index.js:472 | `new Set` of a list holds each of its values exactly once |
| Sockets.DedupKeepsFirstOrder | src/pages/vanity/customization/index.js:472 | `new Set` keeps values in the order of their first appearance |
| Sockets.DedupOfNoDup | src/pages/vanity/customization/index.js:594 | `new Set` of a list without repeats is the list |
| Sockets.FileNames | src/pages/vanity/customization/index.js:472 | the file name of each option path, in order |
| Sockets.ItemIDsOf | src/pages/vanity/customization/index.js:472 | a socket's IDs are the distinct file names of its option paths, without repeats |
| Sockets.SocketFieldsMembers | src/pages/vanity/customization/index.js:408-416 | a theme property becomes a socket exactly when it has a non-empty `OptionPaths` |
| Sockets.SocketFieldsCount | src/pages/vanity/customization/index.js:408-416 | there are no more sockets than properties; none when no property has option paths; one per property, in property order, when every property has them |
| Sockets.OptionsUnionMembers | src/pages/vanity/customization/index.js:176-183 | an ID is supported exactly when some vanity property lists it in its `options` array |
| Sockets.GroupOf | src/pages/vanity/customization/index.js:578-589 | selected IDs go to the first group, favourites not selected to the second, the rest to the third |
| Sockets.GroupMembers | src/pages/vanity/customization/index.js:576-591 | a group holds exactly the supported IDs of its kind |
| Sockets.GroupNoDup | src/pages/vanity/customization/index.js:576-591 | a group drawn from distinct IDs has no repeats |
| Sockets.GroupKeepsOrder | src/pages/vanity/customization/index.js:576-591 | a group keeps the socket's order |
| Sockets.PartitionMembers | src/pages/vanity/customization/index.js:572-594 | the filtered IDs are exactly the socket's supported IDs |
| Sockets.PartitionOrdered | src/pages/vanity/customization/index.js:572-594 | selected come before favourites and favourites before the rest, each in socket order |
| Sockets.PartitionNoDup | src/pages/vanity/customization/index.js:572-594 | the filtered IDs have no repeats |
| Sockets.PartitionIsPermutation | src/pages/vanity/customization/index.js:572-594 | the filtered IDs are a rearrangement of the supported IDs in socket order |
| Sockets.Pages | src/pages/vanity/customization/index.js:560-562 | the page count is the ceiling of the ID count over 100 |
| Sockets.PageSlice | src/pages/vanity/customization/index.js:568-570 | a page holds at most 100 IDs: the IDs from page × 100 on, in order, and none past the end |
| Sockets.FirstPagesArePrefix | src/pages/vanity/customization/index.js:568-570 | the first n pages together are the first n × 100 IDs |
| Sockets.PagesCover | src/pages/vanity/customization/index.js:560-570 | the pages counted from all IDs cover every filtered ID |
| Sockets.PagesDisjoint | src/pages/vanity/customization/index.js:568-570 | no ID appears on two pages |
| Sockets.PageSliceNoDup | src/pages/vanity/customization/index.js:568-570 | a page has no repeats, so `new Set` of it is the page |
| Sockets.TwoHundredFiftyIds | src/pages/vanity/customization/index.js:556-570 | 250 IDs make 3 pages, the last one holding 50 |
| Sockets.StepNext | src/pages/vanity/customization/index.js:538-543 | `nextPage` stays on the last page and moves forward from any other |
| Sockets.StepPrev | src/pages/vanity/customization/index.js:545-550 | `previousPage` stays on page 0 and moves back from any other |
| Sockets.StepsStayInRange | src/pages/vanity/customization/index.js:538-550 | from a valid page both steps stay valid, and each stays put exactly at its end |
| Sockets.StepNextThenPrev | src/pages/vanity/customization/index.js:538-550 | going forward then back returns to the page, except on the last page |
| Sockets.ThemeIdOf | src/pages/vanity/customization/index.js:373-374 | a theme ID is the non-empty file name of the default option path, and it is found only when the manifest has it |
| Sockets.MatteChannelOfHexDigits | src/pages/vanity/customization/index.js:274-277 | two hex digits give a channel value in 0..255 |
| Sockets.MatteChannelOfLastDigit | src/pages/vanity/customization/index.js:274-277 | a channel whose second character is missing reads its first hex digit alone |
| Sockets.MatteChannelPastEnd | src/pages/vanity/customization/index.js:274-277 | a channel read past the end of the input is NaN, because `parseInt` reads "NaN" |
| Customization.Socket.constructor | src/pages/vanity/customization/index.js:463-474 | a socket keeps its option paths and name, starts on page 0, and its IDs are the distinct file names |
| Customization.Socket.Name | src/pages/vanity/customization/index.js:552-554 | the item-type label of the socket's name |
| Customization.Socket.PageCount | src/pages/vanity/customization/index.js:560-562 | enough pages of 100 for all the socket's IDs, and no more |
| Customization.Socket.FilteredItemIDs | src/pages/vanity/customization/index.js:572-594 | the partition of the supported IDs into selected, favourite and other; without a supported set, the lookup throws unless there are no IDs |
| Customization.Socket.CurrentPageIDs | src/pages/vanity/customization/index.js:568-570 | the current page of the filtered IDs: at most 100, none repeated |
| Customization.Socket.NextPage | src/pages/vanity/customization/index.js:538-543 | the page takes one step forward |
| Customization.Socket.PreviousPage | src/pages/vanity/customization/index.js:545-550 | the page takes one step back |
| Customization.Core.constructor | src/pages/vanity/customization/index.js:320-324 | a new core has its manifest entry (a UniCore keeps none) and nothing loaded |
| Customization.Core.Title | src/pages/vanity/customization/index.js:434-436 | the manifest title, else "core"; a UniCore is "UniCore" |
| Customization.Core.Id | src/pages/vanity/customization/index.js:438-440 | the manifest name, else "core"; a UniCore is "UniCore" |
| Customization.Core.InitSockets | src/pages/vanity/customization/index.js:401-417 | without a theme nothing changes; otherwise one new socket per theme property with option paths, in order |
| Customization.Core.InitAsWritten | src/pages/vanity/customization/index.js:363-372 | as written: a first call leaves only the placeholder, and the core never gets a theme or sockets; later calls change nothing |
| Customization.Core.Init | src/pages/vanity/customization/index.js:363-388 | as intended: once started nothing changes; the core is the registered item at its manifest path, holding the record its `init` leaves, unless that `init` throws; when its record names a theme in the manifest, the theme is the registered item at the theme's path and the sockets are built from it, unless the theme's `init` throws; every other registered item is unchanged, every existing key keeps its item, and a new key holds the core or the theme item |
| Customization.Core.LoadCore | src/pages/vanity/customization/index.js:366-370 | the core becomes the registered item at the path, with the record its `init` leaves, exactly when that `init` does not throw; every other registered item is unchanged, so a loaded core leaves the `init` outcome of every path not registered to it as it was (and of every path at all when the core holds a real record); existing keys keep their items, and a new key holds the core item |
| Customization.Core.LoadTheme | src/pages/vanity/customization/index.js:373-379 | the theme becomes the registered item at the theme's path and the sockets are built from its record, unless its `init` throws; the core's record and the existing registry entries are kept, every other registered item is unchanged, and a new key holds the theme item |
| Customization.LoadItem | src/pages/vanity/customization/index.js:367-369 | `new Item(path)` then `init()`: the item registered under the lower-cased path (a fresh blank one for a new path; for a path shorter than 10 characters a fresh one without a path, which fetches nothing), whose record, rejected flag and outcome are those of its `init`; its path and caches, and every other item, are unchanged, and an `init` that throws changes nothing |
| Customization.ArmorHall.constructor | src/pages/vanity/customization/index.js:13-22 | a new hall has no vanity index, no supported set and no cores |
| Customization.ArmorHall.SupportedItemIDs | src/pages/vanity/customization/index.js:166-187 | the cached set, or the union of every property's options, which is cached; undefined without a vanity index |
| Customization.ArmorHall.Init | src/pages/vanity/customization/index.js:32-49 | a loaded index is kept; otherwise the fetched index is stored, one without cores is rejected, and the cores are set up |
| Customization.ArmorHall.InitCores | src/pages/vanity/customization/index.js:61-74 | once set up, nothing changes; otherwise one fresh core per ArmorCore ID with its manifest entry, plus a UniCore under "vanityIndex" |
| Customization.Menu.constructor | src/pages/vanity/customization/index.js:191-202 | the matte starts black and opaque |
| Customization.Menu.UpdateMatteColor | src/pages/vanity/customization/index.js:271-288 | red, green and blue become the hex values of characters 1–2, 3–4 and 5–6; the opacity is kept |

## Left out

- Fetching, `async`/`await` and rendering are not modelled. This covers `getJSON`,
  `getAssetJSON`, `render`, `renderIcon`, the item panel, the compositor, the canvas,
  `downloadCanvas`, the mobile menu, event wiring, `src/index.js` and
  `src/pages/forge/nodes/audio.js`. A fetched record is a parameter of `Init`.
- `Date` objects are not modelled. A date is the string it was built from, or the default
  date. `setUTCHours(20)` and invalid dates are not represented, and `Date.parse` is a
  parameter.
- Js.ParseDecimalString: numbers are unbounded integers. JavaScript numbers are doubles, so
  `parseInt` loses precision past 2^53 and `String(n)` uses exponent notation from 1e21.
  The numbers parsed here are season numbers and colour channels of 0..255.
- Js.Lower: only ASCII letters are lower-cased. JavaScript's `toLowerCase` also folds
  other scripts.
- Display.SeasonNumberOf: the synchronous `seasonNumber` getter returns the string '0'
  where `getSeasonNumber` returns the number 0. The model gives the number 0 for both.
- Registry.Item.LastModifiedDate: follows the corrected reading of src/db/item/index.js:249.
  As written, an unparsable last entry, or an empty `touched` array, gives an Invalid Date
  that is cached; that reading is `Display.LastModifiedAsWritten`.
- Strings are sequences of Unicode scalar values, not of UTF-16 code units. This affects
  `path.length < 10`, `displayPath[0]` and `split('')` only for characters outside the
  Basic Multilingual Plane, which catalogue paths do not use.
- Registry.Registry.NewLegacyItem: only string paths are modelled. Non-string offering
  IDs and legacy paths are not.
- Sockets.ItemIDsOf: `OptionPaths` is modelled only as an array of strings.
- `filenameFromPath` is not part of this model. It is a parameter and is never given
  `undefined`.
- The iteration order of `Map` and `Set` is modelled only where it matters: the socket
  ID order, the filtered IDs and the sockets of a theme.
- Db.Database.Manufacturers: metadata without a `Manufacturers` array, where the getter
  throws, is not modelled.
- Item getters not modelled: `parentPaths`, `manufacturerName`, `manufacturerImage`,
  `getParentItem`, `icon` and `showItemPanel`. Of the `Offering` class, `cost` and
  `renderIcon` are not modelled either.
- Customization.Core.constructor: a UniCore (src/pages/vanity/customization/index.js:451-460, built at line 69) is given the vanity index as its `meta`; the vanity index is not kept, because nothing
  reads it.
- `Socket.getCurrentItemPage` is not modelled. It builds items with `new Item({ id })` and
  so throws for the same reason as `Core.init`.
- Not modelled: `updateMatteOpacity`, `updateMatte`, `initCore`, `initProfile`,
  `showSocket` and `gamertag`. These are UI plumbing and hold no logic beyond what is
  modelled.
- Registry.Item.Id: this method, and the other methods that require `Modern(kind)`, are
  not modelled for the legacy classes. Those classes have no such getter.

## Findings

| source | as written | input that shows it | evidently intended | confidence | as-written member | corrected member |
|---|---|---|---|---|---|---|
| src/pages/vanity/customization/index.js:367 | `new Item({ id: this.id })` passes an object where the item constructor expects a path string, so `path.toLowerCase` throws; the catch leaves the `{}` placeholder, which is truthy, so every later `init` returns early | any core, e.g. one whose manifest name is "007-000-mk-vii-core" | look the core (and, at line 377, the theme) up by its manifest path and build the item from that path | high, not executed | Customization.Core.InitAsWritten | Customization.Core.Init |
| src/db/item/index.js:249 | `if (!Date.parse(dateString)) new Date(...)` builds the default date and drops it, so an unparsable last touched entry still becomes the item's date | a manifest entry whose touched list ends in "not a date" | `return` the default date when the last entry does not parse | high, not executed | Display.UnparsableTouchedDate | Display.LastModifiedOf |
