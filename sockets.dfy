/**
 * The value-level logic of the armour customisation page
 * (src/pages/vanity/customization/index.js): JavaScript `Set` construction over ID lists,
 * the union of the supported IDs, the three-way ordering of a socket's candidates, fixed-size
 * pages and page stepping, theme selection and the matte colour's hex parse.
 */
module Sockets {
  import opened Wrappers
  import opened Js
  import opened Records

  // ---------------------------------------------------------------------------
  // Sets built from lists (`new Set(list)` keeps the first occurrence of each value)

  predicate NoDup(s: seq<string>) {
    forall i, j :: 0 <= i < j < |s| ==> s[i] != s[j]
  }

  /** The position of the first occurrence of x in s. */
  function FirstPos(s: seq<string>, x: string): (p: nat)
    requires x in s
    ensures p < |s| && s[p] == x && x !in s[..p]
  {
    if s[0] == x then 0 else 1 + FirstPos(s[1..], x)
  }

  /** Any position holding x with no x before it is the first position. */
  lemma FirstPosUnique(s: seq<string>, x: string, p: nat)
    requires p < |s| && s[p] == x && x !in s[..p]
    ensures FirstPos(s, x) == p
  {
    var q := FirstPos(s, x);
    forall i | 0 <= i < p ensures s[i] != x {
      assert s[..p][i] == s[i];
    }
    forall i | 0 <= i < q ensures s[i] != x {
      assert s[..q][i] == s[i];
    }
  }

  /** Appending a value does not move the first occurrence of a value already present. */
  lemma FirstPosSnoc(s: seq<string>, y: string, x: string)
    requires x in s
    ensures FirstPos(s + [y], x) == FirstPos(s, x)
  {
    var p := FirstPos(s, x);
    assert (s + [y])[..p] == s[..p];
    FirstPosUnique(s + [y], x, p);
  }

  /** The elements of `new Set(s)`, in insertion order. */
  function Dedup(s: seq<string>): seq<string> {
    if s == [] then []
    else
      var d := Dedup(s[..|s| - 1]);
      if s[|s| - 1] in d then d else d + [s[|s| - 1]]
  }

  /** `new Set(s)` holds exactly the values of s, each once. */
  lemma {:induction false} DedupIsSet(s: seq<string>)
    ensures NoDup(Dedup(s))
    ensures forall x :: x in Dedup(s) <==> x in s
  {
    if s != [] {
      var init := s[..|s| - 1];
      DedupIsSet(init);
      assert s == init + [s[|s| - 1]];
    }
  }

  /** `new Set(s)` keeps first-occurrence order: earlier in the set, earlier first seen in s. */
  lemma {:induction false} DedupKeepsFirstOrder(s: seq<string>, i: nat, j: nat)
    requires i < j < |Dedup(s)|
    ensures Dedup(s)[i] in s && Dedup(s)[j] in s
    ensures FirstPos(s, Dedup(s)[i]) < FirstPos(s, Dedup(s)[j])
  {
    DedupIsSet(s);
    var init := s[..|s| - 1];
    var last := s[|s| - 1];
    assert s == init + [last];
    var d := Dedup(init);
    DedupIsSet(init);
    if j < |d| {
      DedupKeepsFirstOrder(init, i, j);
      FirstPosSnoc(init, last, d[i]);
      FirstPosSnoc(init, last, d[j]);
    } else {
      // the value at j is `last`, seen for the first time at the end of s
      assert Dedup(s) == d + [last] && last !in init;
      FirstPosSnoc(init, last, d[i]);
      FirstPosUnique(s, last, |init|);
    }
  }

  /** A list without repeats is its own set. */
  lemma {:induction false} DedupOfNoDup(s: seq<string>)
    requires NoDup(s)
    ensures Dedup(s) == s
  {
    if s != [] {
      var init := s[..|s| - 1];
      DedupOfNoDup(init);
      DedupIsSet(init);
      assert s == init + [s[|s| - 1]];
    }
  }

  // ---------------------------------------------------------------------------
  // Sockets of a theme

  /** `paths.map(filenameFromPath)`. */
  function FileNames(paths: seq<string>, fileName: string -> string): (ids: seq<string>)
    ensures |ids| == |paths| && forall i :: 0 <= i < |paths| ==> ids[i] == fileName(paths[i])
  {
    seq(|paths|, i requires 0 <= i < |paths| => fileName(paths[i]))
  }

  /**
   * A socket's `itemIDs`: `new Set(OptionPaths.map(filenameFromPath))`, the file names of
   * its option paths, each once, in first-occurrence order.
   */
  function ItemIDsOf(optionPaths: seq<string>, fileName: string -> string): (ids: seq<string>)
    ensures NoDup(ids)
    ensures forall id :: id in ids <==> exists i :: 0 <= i < |optionPaths| && fileName(optionPaths[i]) == id
  {
    var names := FileNames(optionPaths, fileName);
    DedupIsSet(names);
    Dedup(names)
  }

  /** A theme property becomes a socket when its `OptionPaths` array is non-empty. */
  predicate IsSocketField(f: Field) {
    f.optionPaths.Some? && f.optionPaths.value != []
  }

  /** The theme properties that become sockets, in enumeration order. */
  function SocketFields(fields: seq<Field>): seq<Field> {
    if fields == [] then []
    else
      var f := fields[|fields| - 1];
      SocketFields(fields[..|fields| - 1]) + (if IsSocketField(f) then [f] else [])
  }

  /** The socket properties are exactly the properties with a non-empty `OptionPaths`. */
  lemma {:induction false} SocketFieldsMembers(fields: seq<Field>, f: Field)
    ensures f in SocketFields(fields) <==> f in fields && IsSocketField(f)
  {
    if fields != [] {
      var init := fields[..|fields| - 1];
      SocketFieldsMembers(init, f);
      assert fields == init + [fields[|fields| - 1]];
    }
  }

  /**
   * A theme without socket properties has no sockets, and one whose properties all qualify
   * has one socket per property, in property order.
   */
  lemma {:induction false} SocketFieldsCount(fields: seq<Field>)
    ensures |SocketFields(fields)| <= |fields|
    ensures (forall i :: 0 <= i < |fields| ==> !IsSocketField(fields[i])) ==> SocketFields(fields) == []
    ensures (forall i :: 0 <= i < |fields| ==> IsSocketField(fields[i])) ==> SocketFields(fields) == fields
  {
    if fields != [] {
      var init := fields[..|fields| - 1];
      SocketFieldsCount(init);
      assert forall i :: 0 <= i < |init| ==> init[i] == fields[i];
    }
  }

  // ---------------------------------------------------------------------------
  // Supported IDs: the union of every `options` array of the vanity index

  function OptionsUnion(props: seq<VanityProperty>): set<string> {
    if props == [] then {}
    else
      var last := props[|props| - 1];
      OptionsUnion(props[..|props| - 1]) + (if last.options.Some? then set x | x in last.options.value else {})
  }

  /** An ID is supported exactly when some property's `options` array lists it. */
  lemma {:induction false} OptionsUnionMembers(props: seq<VanityProperty>, id: string)
    ensures id in OptionsUnion(props) <==>
              exists i :: 0 <= i < |props| && props[i].options.Some? && id in props[i].options.value
  {
    if props != [] {
      var init := props[..|props| - 1];
      OptionsUnionMembers(init, id);
      assert forall i :: 0 <= i < |init| ==> init[i] == props[i];
    }
  }

  // ---------------------------------------------------------------------------
  // The socket's candidate order: selected, then favourites, then the rest

  /** 0 for a selected ID, 1 for a favourite that is not selected, 2 otherwise. */
  function GroupOf(id: string, selected: set<string>, favorites: set<string>): (g: nat)
    ensures g <= 2
    ensures g == 0 <==> id in selected
    ensures g == 1 <==> id !in selected && id in favorites
  {
    if id in selected then 0 else if id in favorites then 1 else 2
  }

  /** The supported IDs of group g, in the order of `ids`. */
  function Group(ids: seq<string>, supported: set<string>, selected: set<string>, favorites: set<string>, g: nat): seq<string> {
    if ids == [] then []
    else
      var x := ids[|ids| - 1];
      Group(ids[..|ids| - 1], supported, selected, favorites, g)
        + (if x in supported && GroupOf(x, selected, favorites) == g then [x] else [])
  }

  /** The three groups one after the other. */
  function Partition(ids: seq<string>, supported: set<string>, selected: set<string>, favorites: set<string>): seq<string> {
    Group(ids, supported, selected, favorites, 0)
      + Group(ids, supported, selected, favorites, 1)
      + Group(ids, supported, selected, favorites, 2)
  }

  /** The supported IDs, in the order of `ids`. */
  function SupportedOnly(ids: seq<string>, supported: set<string>): seq<string> {
    if ids == [] then []
    else
      var x := ids[|ids| - 1];
      SupportedOnly(ids[..|ids| - 1], supported) + (if x in supported then [x] else [])
  }

  /** Group g holds the supported IDs of that group, and no others. */
  lemma {:induction false} GroupMembers(ids: seq<string>, supported: set<string>, selected: set<string>, favorites: set<string>, g: nat, x: string)
    ensures x in Group(ids, supported, selected, favorites, g) <==>
              x in ids && x in supported && GroupOf(x, selected, favorites) == g
  {
    if ids != [] {
      var init := ids[..|ids| - 1];
      GroupMembers(init, supported, selected, favorites, g, x);
      assert ids == init + [ids[|ids| - 1]];
    }
  }

  /** A group of a list without repeats has no repeats. */
  lemma {:induction false} GroupNoDup(ids: seq<string>, supported: set<string>, selected: set<string>, favorites: set<string>, g: nat)
    requires NoDup(ids)
    ensures NoDup(Group(ids, supported, selected, favorites, g))
  {
    if ids != [] {
      var init := ids[..|ids| - 1];
      var x := ids[|ids| - 1];
      assert ids == init + [x];
      GroupNoDup(init, supported, selected, favorites, g);
      GroupMembers(init, supported, selected, favorites, g, x);
    }
  }

  /** Each group keeps the order of `ids`. */
  lemma {:induction false} GroupKeepsOrder(ids: seq<string>, supported: set<string>, selected: set<string>, favorites: set<string>, g: nat, i: nat, j: nat)
    requires NoDup(ids)
    requires i < j < |Group(ids, supported, selected, favorites, g)|
    ensures Group(ids, supported, selected, favorites, g)[i] in ids
    ensures Group(ids, supported, selected, favorites, g)[j] in ids
    ensures FirstPos(ids, Group(ids, supported, selected, favorites, g)[i])
              < FirstPos(ids, Group(ids, supported, selected, favorites, g)[j])
  {
    var gs := Group(ids, supported, selected, favorites, g);
    var init := ids[..|ids| - 1];
    var x := ids[|ids| - 1];
    assert ids == init + [x];
    var prev := Group(init, supported, selected, favorites, g);
    GroupMembers(init, supported, selected, favorites, g, gs[i]);
    GroupMembers(ids, supported, selected, favorites, g, gs[i]);
    GroupMembers(ids, supported, selected, favorites, g, gs[j]);
    assert prev[i] == gs[i];
    FirstPosSnoc(init, x, gs[i]);
    if j < |prev| {
      GroupKeepsOrder(init, supported, selected, favorites, g, i, j);
      FirstPosSnoc(init, x, gs[j]);
    } else {
      // the value at j is the last ID, whose first position is the end of ids
      assert gs[j] == x && x !in init;
      FirstPosUnique(ids, x, |init|);
    }
  }

  /** The candidates are exactly the supported IDs of the socket. */
  lemma PartitionMembers(ids: seq<string>, supported: set<string>, selected: set<string>, favorites: set<string>, x: string)
    ensures x in Partition(ids, supported, selected, favorites) <==> x in ids && x in supported
  {
    GroupMembers(ids, supported, selected, favorites, 0, x);
    GroupMembers(ids, supported, selected, favorites, 1, x);
    GroupMembers(ids, supported, selected, favorites, 2, x);
  }

  /** Every selected candidate comes before every favourite, and every favourite before the rest. */
  lemma PartitionOrdered(ids: seq<string>, supported: set<string>, selected: set<string>, favorites: set<string>, i: nat, j: nat)
    requires i < j < |Partition(ids, supported, selected, favorites)|
    ensures GroupOf(Partition(ids, supported, selected, favorites)[i], selected, favorites)
              <= GroupOf(Partition(ids, supported, selected, favorites)[j], selected, favorites)
  {
    var p := Partition(ids, supported, selected, favorites);
    var g0 := Group(ids, supported, selected, favorites, 0);
    var g1 := Group(ids, supported, selected, favorites, 1);
    var g2 := Group(ids, supported, selected, favorites, 2);
    GroupMembers(ids, supported, selected, favorites, 0, p[i]);
    GroupMembers(ids, supported, selected, favorites, 1, p[i]);
    GroupMembers(ids, supported, selected, favorites, 2, p[i]);
    GroupMembers(ids, supported, selected, favorites, 0, p[j]);
    GroupMembers(ids, supported, selected, favorites, 1, p[j]);
    GroupMembers(ids, supported, selected, favorites, 2, p[j]);
    if i < |g0| {
      assert p[i] == g0[i];
    } else if i < |g0| + |g1| {
      assert p[i] == g1[i - |g0|];
      assert p[j] == (g1 + g2)[j - |g0|];
    } else {
      assert p[i] == g2[i - |g0| - |g1|];
      assert p[j] == g2[j - |g0| - |g1|];
    }
  }

  /** Over a list without repeats, each candidate appears once. */
  lemma PartitionNoDup(ids: seq<string>, supported: set<string>, selected: set<string>, favorites: set<string>)
    requires NoDup(ids)
    ensures NoDup(Partition(ids, supported, selected, favorites))
  {
    var p := Partition(ids, supported, selected, favorites);
    GroupNoDup(ids, supported, selected, favorites, 0);
    GroupNoDup(ids, supported, selected, favorites, 1);
    GroupNoDup(ids, supported, selected, favorites, 2);
    forall i, j | 0 <= i < j < |p| ensures p[i] != p[j] {
      PartitionOrdered(ids, supported, selected, favorites, i, j);
      var g0 := Group(ids, supported, selected, favorites, 0);
      var g1 := Group(ids, supported, selected, favorites, 1);
      var g2 := Group(ids, supported, selected, favorites, 2);
      GroupMembers(ids, supported, selected, favorites, 0, p[i]);
      GroupMembers(ids, supported, selected, favorites, 1, p[i]);
      GroupMembers(ids, supported, selected, favorites, 2, p[i]);
      if i < |g0| && j < |g0| {
        assert p[i] == g0[i] && p[j] == g0[j];
      } else if |g0| <= i && j < |g0| + |g1| {
        assert p[i] == g1[i - |g0|] && p[j] == g1[j - |g0|];
      } else if |g0| + |g1| <= i {
        assert p[i] == g2[i - |g0| - |g1|] && p[j] == g2[j - |g0| - |g1|];
      } else {
        // i and j lie in different groups, and an ID has only one group
        GroupMembers(ids, supported, selected, favorites, 0, p[j]);
        GroupMembers(ids, supported, selected, favorites, 1, p[j]);
        GroupMembers(ids, supported, selected, favorites, 2, p[j]);
        if i < |g0| {
          assert p[i] == g0[i];
          assert p[j] == (g1 + g2)[j - |g0|];
        } else {
          assert p[i] == g1[i - |g0|];
          assert p[j] == g2[j - |g0| - |g1|];
        }
      }
    }
  }

  /** The candidates are a reordering of the supported IDs: nothing lost, nothing added. */
  lemma {:induction false} PartitionIsPermutation(ids: seq<string>, supported: set<string>, selected: set<string>, favorites: set<string>)
    ensures multiset(Partition(ids, supported, selected, favorites)) == multiset(SupportedOnly(ids, supported))
  {
    if ids != [] {
      var init := ids[..|ids| - 1];
      PartitionIsPermutation(init, supported, selected, favorites);
    }
  }

  // ---------------------------------------------------------------------------
  // Pages of 100

  const PageLength := 100

  /** `Math.ceil(n / 100)`. */
  function Pages(n: nat): (p: nat)
    ensures p * PageLength >= n
    ensures p > 0 ==> (p - 1) * PageLength < n
  {
    (n + PageLength - 1) / PageLength
  }

  /** `slice(page * 100, page * 100 + 100)`: at most 100 consecutive elements from page * 100 on. */
  function PageSlice(s: seq<string>, page: nat): (r: seq<string>)
    ensures |r| <= PageLength
    ensures page * PageLength >= |s| ==> r == []
    ensures page * PageLength < |s| ==> |r| == if |s| - page * PageLength < PageLength then |s| - page * PageLength else PageLength
    ensures forall k :: 0 <= k < |r| ==> page * PageLength + k < |s| && r[k] == s[page * PageLength + k]
  {
    var lo := if page * PageLength < |s| then page * PageLength else |s|;
    var hi := if lo + PageLength < |s| then lo + PageLength else |s|;
    s[lo..hi]
  }

  /** Pages 0 .. n - 1, one after the other. */
  function FirstPages(s: seq<string>, n: nat): seq<string> {
    if n == 0 then [] else FirstPages(s, n - 1) + PageSlice(s, n - 1)
  }

  /** The first n pages are the first n * 100 elements. */
  lemma {:induction false} FirstPagesArePrefix(s: seq<string>, n: nat)
    ensures FirstPages(s, n) == s[..if n * PageLength < |s| then n * PageLength else |s|]
  {
    if n > 0 {
      FirstPagesArePrefix(s, n - 1);
      var lo := if (n - 1) * PageLength < |s| then (n - 1) * PageLength else |s|;
      var hi := if n * PageLength < |s| then n * PageLength else |s|;
      assert PageSlice(s, n - 1) == s[lo..hi];
      assert s[..lo] + s[lo..hi] == s[..hi];
    }
  }

  /**
   * The page count of the unfiltered IDs is enough for the filtered ones: every candidate is
   * on some page, and reading the pages in order gives back the candidates.
   */
  lemma PagesCover(filtered: seq<string>, total: nat)
    requires |filtered| <= total
    ensures FirstPages(filtered, Pages(total)) == filtered
  {
    FirstPagesArePrefix(filtered, Pages(total));
  }

  /** Over a list without repeats, no ID is on two pages. */
  lemma PagesDisjoint(s: seq<string>, p: nat, q: nat, x: string)
    requires NoDup(s) && p != q
    requires x in PageSlice(s, p)
    ensures x !in PageSlice(s, q)
  {
    var a := PageSlice(s, p);
    var b := PageSlice(s, q);
    var i :| 0 <= i < |a| && a[i] == x;
    forall j | 0 <= j < |b| ensures b[j] != x {
      if p < q {
        assert p * PageLength + i < (p + 1) * PageLength <= q * PageLength;
      } else {
        assert q * PageLength + j < (q + 1) * PageLength <= p * PageLength;
      }
    }
  }

  /** A page of a list without repeats has no repeats, so `new Set(page)` is the page itself. */
  lemma PageSliceNoDup(s: seq<string>, page: nat)
    requires NoDup(s)
    ensures NoDup(PageSlice(s, page)) && Dedup(PageSlice(s, page)) == PageSlice(s, page)
  {
    var r := PageSlice(s, page);
    forall i, j | 0 <= i < j < |r| ensures r[i] != r[j] {
      assert r[i] == s[page * PageLength + i] && r[j] == s[page * PageLength + j];
    }
    DedupOfNoDup(r);
  }

  /** 250 candidates make three pages, the last holding 50. */
  lemma TwoHundredFiftyIds(s: seq<string>)
    requires |s| == 250
    ensures Pages(|s|) == 3 && |PageSlice(s, 2)| == 50 && PageSlice(s, 3) == []
  {
  }

  /** `nextPage`: stays on the last page (`pages - 1`), otherwise moves one forward. */
  function StepNext(page: nat, pages: nat): (r: nat)
    ensures page + 1 == pages ==> r == page
    ensures page + 1 != pages ==> r == page + 1
  {
    if page + 1 == pages then page else page + 1
  }

  /** `previousPage`: stays on page 0, otherwise moves one back. */
  function StepPrev(page: nat): (r: nat)
    ensures page == 0 ==> r == 0
    ensures page > 0 ==> r == page - 1
  {
    if page == 0 then 0 else page - 1
  }

  /** With at least one page, stepping either way keeps a valid page number valid. */
  lemma StepsStayInRange(page: nat, pages: nat)
    requires 1 <= pages && page < pages
    ensures StepNext(page, pages) < pages && StepPrev(page) < pages
    ensures StepNext(page, pages) == page <==> page == pages - 1
    ensures StepPrev(page) == page <==> page == 0
  {
  }

  /** Stepping forward then back from any page but the last returns to it. */
  lemma StepNextThenPrev(page: nat, pages: nat)
    requires page + 1 < pages
    ensures StepPrev(StepNext(page, pages)) == page
  {
  }

  // ---------------------------------------------------------------------------
  // Theme selection

  /**
   * The theme ID a core names: the file name of its `Themes.DefaultOptionPath`, when that is
   * non-empty and the manifest has it (`db.manifestHasID`); otherwise there is none.
   */
  function ThemeIdOf(defaultOptionPath: Option<string>, fileName: string -> string, manifest: map<string, ManifestEntry>): (r: Option<string>)
    ensures r.Some? ==> defaultOptionPath.Some? && r.value == fileName(defaultOptionPath.value)
    ensures r.Some? ==> r.value != "" && r.value in manifest
    ensures defaultOptionPath.Some? && fileName(defaultOptionPath.value) != "" && fileName(defaultOptionPath.value) in manifest ==> r.Some?
  {
    if defaultOptionPath.Some? && fileName(defaultOptionPath.value) != "" && fileName(defaultOptionPath.value) in manifest
    then Some(fileName(defaultOptionPath.value))
    else None
  }

  // ---------------------------------------------------------------------------
  // Matte colour

  /** `parseInt(chars[k] + chars[k + 1], 16)` over the characters of the input (None: NaN). */
  function MatteChannel(hex: string, k: nat): Option<int> {
    ParseInt(CharPair(hex, k), true)
  }

  /** Two hex digits at k and k + 1 give their value, a byte. */
  lemma MatteChannelOfHexDigits(hex: string, k: nat)
    requires k + 1 < |hex| && IsDigit(hex[k], 16) && IsDigit(hex[k + 1], 16)
    ensures MatteChannel(hex, k) == Some(DigitValue(hex[k]) * 16 + DigitValue(hex[k + 1]))
    ensures 0 <= DigitValue(hex[k]) * 16 + DigitValue(hex[k + 1]) <= 255
  {
    var pair := CharPair(hex, k);
    assert |pair| == 2 && pair[0] == hex[k] && pair[1] == hex[k + 1];
    assert MatteChannel(hex, k) == ParseInt(pair, true);
    HexPair(pair);
    assert ParseInt(pair, true) == Some(DigitValue(hex[k]) * 16 + DigitValue(hex[k + 1]));
  }

  /**
   * A channel whose second character is missing reads its first digit alone: the text is
   * that digit followed by "undefined", and "u" is no hex digit.
   */
  lemma MatteChannelOfLastDigit(hex: string, k: nat)
    requires k + 1 == |hex| && IsDigit(hex[k], 16)
    ensures MatteChannel(hex, k) == Some(DigitValue(hex[k]))
  {
    var t := CharPair(hex, k);
    assert t[0] == hex[k] && t[1] == 'u';
    SkipNothing(t, true);
    assert DigitRun(t[1..], 16) == 0;
    assert DigitRun(t, 16) == 1;
    assert t[1] != 'x' && t[1] != 'X';
    assert DigitsValue(t[..1], 16) == DigitValue(hex[k]) by {
      assert t[..1][..0] == [];
    }
  }

  /** A channel read past the end of the input is NaN: `undefined + undefined` reads as "NaN". */
  lemma MatteChannelPastEnd(hex: string, k: nat)
    requires k >= |hex|
    ensures MatteChannel(hex, k).None?
  {
    var t := CharPair(hex, k);
    assert t[0] == 'N';
    SkipNothing(t, true);
    assert DigitRun(t, 16) == 0;
  }
}
