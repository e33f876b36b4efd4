/** The memory regions that the bootloader hands to the kernel: bootloader/src/main.rs groups the entries of
    the firmware's memory map into runs and sorts them by size. */
module MemoryRegions {
  import opened Common

  const MAX_MEMORY_REGIONS: nat := 128
  const SMALLEST_REGION: nat := 8

  datatype MemoryType =
    | LoaderCode | LoaderData | BootServicesCode | BootServicesData | Conventional
    | Other(ty: nat)

  datatype Entry = Entry(ty: MemoryType, start: nat, pages: nat) {
    predicate IsUsable() {
      !ty.Other?
    }

    function End(): nat {
      start + pages * PAGE_SIZE
    }

    /** `address` is that of one of the pages. */
    predicate HasPage(address: nat) {
      start <= address < End() && (address - start) % PAGE_SIZE == 0
    }
  }

  datatype Region = Region(base: nat, pages: nat) {
    function End(): nat {
      base + pages * PAGE_SIZE
    }
  }

  /** What the loop keeps: the regions written to the boot information, and the one being extended. */
  datatype Grouping = Grouping(stored: seq<Region>, current: Option<Region>)

  // ----- The loop

  /** One usable entry. A region of fewer than eight pages that the entry does not extend is given up, and
      the entry with it. */
  function Step(g: Grouping, e: Entry): Grouping {
    match g.current
    case None => g.(current := Some(Region(e.start, e.pages)))
    case Some(r) =>
      if r.End() == e.start then g.(current := Some(Region(r.base, r.pages + e.pages)))
      else if r.pages >= SMALLEST_REGION then Grouping(g.stored + [r], Some(Region(e.start, e.pages)))
      else g.(current := None)
  }

  /** After the first `n` of the usable entries; a full table ends the loop. */
  function After(usable: seq<Entry>, n: nat): Grouping
    requires n <= |usable|
  {
    if n == 0 then Grouping([], None)
    else
      var g := After(usable, n - 1);
      if |g.stored| == MAX_MEMORY_REGIONS then g else Step(g, usable[n - 1])
  }

  /** The last region is stored whatever its size, if there is room. */
  function Closed(g: Grouping): seq<Region> {
    if |g.stored| < MAX_MEMORY_REGIONS && g.current.Some? then g.stored + [g.current.value] else g.stored
  }

  function Usable(entries: seq<Entry>): seq<Entry> {
    if entries == [] then []
    else
      var e := entries[|entries| - 1];
      Usable(entries[..|entries| - 1]) + if e.IsUsable() then [e] else []
  }

  function Regions(entries: seq<Entry>): seq<Region> {
    Closed(After(Usable(entries), |Usable(entries)|))
  }

  // ----- What a region is made of

  function Pages(usable: seq<Entry>, i: nat, j: nat): nat
    requires i <= j <= |usable|
  {
    if i == j then 0 else Pages(usable, i, j - 1) + usable[j - 1].pages
  }

  /** The region is entries `i` to `j`, each starting where the one before it ends. */
  ghost predicate IsRunOf(usable: seq<Entry>, i: nat, j: nat, r: Region) {
    && i < j <= |usable| && r == Region(usable[i].start, Pages(usable, i, j))
    && forall k | i < k < j :: usable[k].start == usable[k - 1].End()
  }

  /** The memory map is in order and its entries do not overlap. */
  ghost predicate IsAscending(usable: seq<Entry>) {
    forall i, j | 0 <= i < j < |usable| :: usable[i].End() <= usable[j].start
  }

  lemma {:induction false} RunEnd(usable: seq<Entry>, i: nat, j: nat, r: Region)
    requires IsRunOf(usable, i, j, r)
    ensures r.End() == usable[j - 1].End()
    decreases j
  {
    if i + 1 < j {
      RunEnd(usable, i, j - 1, Region(r.base, Pages(usable, i, j - 1)));
    } else {
      assert Pages(usable, i, i) == 0;
    }
  }

  ghost predicate IsRunBefore(usable: seq<Entry>, n: nat, r: Region) {
    exists i: nat, j: nat | j <= n :: IsRunOf(usable, i, j, r)
  }

  /** The current region ends with the last entry. */
  ghost predicate IsRunUpTo(usable: seq<Entry>, n: nat, r: Region) {
    exists i: nat :: IsRunOf(usable, i, n, r)
  }

  ghost predicate AreApart(regions: seq<Region>) {
    forall i, j | 0 <= i < j < |regions| :: regions[i].End() <= regions[j].base
  }

  ghost predicate AreStored(usable: seq<Entry>, n: nat, stored: seq<Region>)
    requires n <= |usable|
  {
    && |stored| <= MAX_MEMORY_REGIONS && AreApart(stored)
    && (forall r | r in stored :: r.pages >= SMALLEST_REGION && IsRunBefore(usable, n, r))
    && (forall k, r | r in stored && n <= k < |usable| :: r.End() <= usable[k].start)
  }

  ghost predicate IsSound(usable: seq<Entry>, n: nat, g: Grouping)
    requires n <= |usable|
  {
    && AreStored(usable, n, g.stored)
    && (g.current.Some? && |g.stored| < MAX_MEMORY_REGIONS ==>
          && IsRunUpTo(usable, n, g.current.value)
          && forall r | r in g.stored :: r.End() <= g.current.value.base)
  }

  lemma {:induction false} AfterIsSound(usable: seq<Entry>, n: nat)
    requires n <= |usable| && IsAscending(usable)
    ensures IsSound(usable, n, After(usable, n))
  {
    if n > 0 {
      AfterIsSound(usable, n - 1);
      var g := After(usable, n - 1);
      if |g.stored| < MAX_MEMORY_REGIONS {
        StepIsSound(usable, n, g);
      }
    }
  }

  lemma Single(usable: seq<Entry>, n: nat)
    requires 0 < n <= |usable|
    ensures IsRunUpTo(usable, n, Region(usable[n - 1].start, usable[n - 1].pages))
  {
    assert Pages(usable, n - 1, n - 1) == 0;
    assert IsRunOf(usable, n - 1, n, Region(usable[n - 1].start, usable[n - 1].pages));
  }

  lemma Extend(usable: seq<Entry>, n: nat, r: Region)
    requires 0 < n <= |usable| && IsRunUpTo(usable, n - 1, r)
    ensures n > 1 && r.End() == usable[n - 2].End() && IsRunBefore(usable, n - 1, r)
    ensures r.End() == usable[n - 1].start ==> IsRunUpTo(usable, n, Region(r.base, r.pages + usable[n - 1].pages))
  {
    var i: nat :| IsRunOf(usable, i, n - 1, r);
    RunEnd(usable, i, n - 1, r);
    if r.End() == usable[n - 1].start {
      assert IsRunOf(usable, i, n, Region(r.base, r.pages + usable[n - 1].pages));
    }
  }

  lemma StillStored(usable: seq<Entry>, n: nat, stored: seq<Region>)
    requires 0 < n <= |usable| && AreStored(usable, n - 1, stored)
    ensures AreStored(usable, n, stored)
  {
    forall r | r in stored ensures IsRunBefore(usable, n, r) {
      var i: nat, j: nat :| j <= n - 1 && IsRunOf(usable, i, j, r);
    }
  }

  lemma CurrentStored(usable: seq<Entry>, n: nat, g: Grouping)
    requires 0 < n <= |usable| && IsAscending(usable) && IsSound(usable, n - 1, g)
    requires g.current.Some? && g.current.value.pages >= SMALLEST_REGION && |g.stored| < MAX_MEMORY_REGIONS
    ensures AreStored(usable, n - 1, g.stored + [g.current.value])
  {
    Extend(usable, n, g.current.value);
    hide IsRunUpTo, IsRunBefore;
  }

  lemma StepIsSound(usable: seq<Entry>, n: nat, g: Grouping)
    requires 0 < n <= |usable| && IsAscending(usable)
    requires IsSound(usable, n - 1, g) && |g.stored| < MAX_MEMORY_REGIONS
    ensures IsSound(usable, n, Step(g, usable[n - 1]))
  {
    Single(usable, n);
    StillStored(usable, n, g.stored);
    if g.current.Some? {
      Extend(usable, n, g.current.value);
      if g.current.value.pages >= SMALLEST_REGION {
        CurrentStored(usable, n, g);
        StillStored(usable, n, g.stored + [g.current.value]);
      }
    }
    hide IsRunUpTo, IsRunBefore, AreApart;
  }

  /** For every memory map that is in order: at most 128 regions, in order and apart; each is a run of
      usable entries without gaps; all but the last have at least eight pages. */
  lemma RegionsAreSound(entries: seq<Entry>)
    requires IsAscending(Usable(entries))
    ensures
      var usable, regions := Usable(entries), Regions(entries);
      && |regions| <= 128 && AreApart(regions)
      && (forall i | 0 <= i < |regions| :: IsRunBefore(usable, |usable|, regions[i]))
      && (forall i | 0 <= i < |regions| - 1 :: regions[i].pages >= 8)
  {
    var usable := Usable(entries);
    AfterIsSound(usable, |usable|);
    hide IsRunBefore;
    var g := After(usable, |usable|);
    if g.current.Some? && |g.stored| < MAX_MEMORY_REGIONS {
      UpToIsBefore(usable, g.current.value);
    }
  }

  lemma UpToIsBefore(usable: seq<Entry>, r: Region)
    requires IsRunUpTo(usable, |usable|, r)
    ensures IsRunBefore(usable, |usable|, r)
  {
  }

  /** Every page of a region is a page of a usable entry of the memory map. */
  lemma {:induction false} PageIsUsable(usable: seq<Entry>, i: nat, j: nat, r: Region, page: nat)
    requires IsRunOf(usable, i, j, r) && page < r.pages
    ensures exists k | i <= k < j :: usable[k].HasPage(r.base + page * PAGE_SIZE)
    decreases j
  {
    if i + 1 < j {
      var shorter := Region(r.base, Pages(usable, i, j - 1));
      RunEnd(usable, i, j - 1, shorter);
      if page < shorter.pages {
        PageIsUsable(usable, i, j - 1, shorter, page);
      } else {
        var q: nat := page - shorter.pages;
        assert r.base + page * PAGE_SIZE == usable[j - 1].start + q * PAGE_SIZE;
        assert usable[j - 1].HasPage(r.base + page * PAGE_SIZE);
      }
    } else {
      assert Pages(usable, i, i) == 0;
      assert usable[i].HasPage(r.base + page * PAGE_SIZE);
    }
  }

  lemma {:induction false} UsableEntries(entries: seq<Entry>, e: Entry)
    ensures e in Usable(entries) <==> e in entries && e.IsUsable()
  {
    if entries != [] {
      UsableEntries(entries[..|entries| - 1], e);
      assert entries == entries[..|entries| - 1] + [entries[|entries| - 1]];
    }
  }

  /** Which entries are taken, in their order: those of these five types. */
  lemma {:induction false} UsableTypes(entries: seq<Entry>, e: Entry)
    ensures e in Usable(entries) <==>
            e in entries && e.ty in {LoaderCode, LoaderData, BootServicesCode, BootServicesData, Conventional}
  {
    UsableEntries(entries, e);
  }

  lemma {:induction false} UsableJoins(a: seq<Entry>, b: seq<Entry>)
    ensures Usable(a + b) == Usable(a) + Usable(b)
    decreases |b|
  {
    if b == [] {
      assert a + b == a;
    } else {
      UsableJoins(a, b[..|b| - 1]);
      assert (a + b)[..|a + b| - 1] == a + b[..|b| - 1];
    }
  }

  /** Every page of every region is a page of an entry of one of the five types. */
  lemma RegionPageIsUsable(entries: seq<Entry>, r: Region, page: nat)
    requires IsAscending(Usable(entries)) && r in Regions(entries) && page < r.pages
    ensures exists e | e in entries ::
              && e.ty in {LoaderCode, LoaderData, BootServicesCode, BootServicesData, Conventional}
              && e.HasPage(r.base + page * 4096)
  {
    hide Regions, Usable, Pages, Entry.HasPage;
    var usable := Usable(entries);
    RegionsAreSound(entries);
    var i: nat, j: nat :| j <= |usable| && IsRunOf(usable, i, j, r);
    PageIsUsable(usable, i, j, r, page);
    var k :| i <= k < j && usable[k].HasPage(r.base + page * PAGE_SIZE);
    UsableTypes(entries, usable[k]);
  }

  // ----- Sorting

  function Inserted(r: Region, sorted: seq<Region>): seq<Region> {
    if sorted == [] || r.pages >= sorted[0].pages then [r] + sorted else [sorted[0]] + Inserted(r, sorted[1..])
  }

  /** One of the orders that `sort_unstable_by` may leave. */
  function SortedBySize(regions: seq<Region>): seq<Region> {
    if regions == [] then [] else Inserted(regions[0], SortedBySize(regions[1..]))
  }

  ghost predicate IsDescending(regions: seq<Region>) {
    forall i, j | 0 <= i < j < |regions| :: regions[i].pages >= regions[j].pages
  }

  lemma FirstIsLargest(first: Region, rest: seq<Region>)
    requires IsDescending(rest) && forall x | x in rest :: x.pages <= first.pages
    ensures IsDescending([first] + rest)
  {
  }

  lemma {:induction false} InsertedIsDescending(r: Region, sorted: seq<Region>)
    requires IsDescending(sorted)
    ensures IsDescending(Inserted(r, sorted)) && multiset(Inserted(r, sorted)) == multiset(sorted) + multiset{r}
  {
    if sorted != [] && r.pages < sorted[0].pages {
      var first, rest := sorted[0], Inserted(r, sorted[1..]);
      InsertedIsDescending(r, sorted[1..]);
      assert sorted == [first] + sorted[1..];
      hide Inserted;
      forall x | x in rest ensures x.pages <= first.pages {
        assert x in multiset(rest) && (x == r || x in sorted[1..]);
      }
      FirstIsLargest(first, rest);
    } else if sorted != [] {
      FirstIsLargest(r, sorted);
    }
  }

  lemma {:induction false} SortedIsDescending(regions: seq<Region>)
    ensures IsDescending(SortedBySize(regions)) && multiset(SortedBySize(regions)) == multiset(regions)
  {
    if regions != [] {
      SortedIsDescending(regions[1..]);
      InsertedIsDescending(regions[0], SortedBySize(regions[1..]));
      assert regions == [regions[0]] + regions[1..];
    }
  }

  /** Regions do not overlap, in whatever order. */
  ghost predicate AreDisjoint(regions: seq<Region>) {
    forall i, j | 0 <= i < |regions| && 0 <= j < |regions| && i != j :: Disjoint(regions[i], regions[j])
  }

  predicate Disjoint(a: Region, b: Region) {
    a.End() <= b.base || b.End() <= a.base
  }

  lemma Occurs(regions: seq<Region>, r: Region) returns (k: nat)
    requires r in multiset(regions)
    ensures k < |regions| && regions[k] == r
  {
    k :| k < |regions| && regions[k] == r;
  }

  function Without(regions: seq<Region>, k: nat): seq<Region>
    requires k < |regions|
  {
    regions[..k] + regions[k + 1..]
  }

  lemma WithoutCount(regions: seq<Region>, k: nat)
    requires k < |regions|
    ensures multiset(Without(regions, k)) == multiset(regions) - multiset{regions[k]}
  {
    assert regions == regions[..k] + [regions[k]] + regions[k + 1..];
  }

  lemma WithoutDisjoint(regions: seq<Region>, k: nat)
    requires k < |regions| && AreDisjoint(regions)
    ensures AreDisjoint(Without(regions, k))
    ensures forall x | x in Without(regions, k) :: Disjoint(regions[k], x)
  {
    hide Disjoint;
    var rest := Without(regions, k);
    assert forall i | 0 <= i < |rest| :: rest[i] == regions[if i < k then i else i + 1];
  }

  lemma AddFirst(r: Region, rest: seq<Region>)
    requires AreDisjoint(rest) && forall x | x in rest :: Disjoint(r, x)
    ensures AreDisjoint([r] + rest)
  {
    var all := [r] + rest;
    forall i, j | 0 <= i < |all| && 0 <= j < |all| && i != j ensures Disjoint(all[i], all[j]) {
      if i == 0 {
        assert all[j] in rest;
      } else if j == 0 {
        assert all[i] in rest;
      } else {
        assert all[i] == rest[i - 1] && all[j] == rest[j - 1];
      }
    }
  }

  /** Any reordering of regions that do not overlap leaves them so. */
  lemma {:induction false} ReorderedAreDisjoint(before: seq<Region>, after: seq<Region>)
    requires AreDisjoint(before) && multiset(after) == multiset(before)
    ensures AreDisjoint(after)
    decreases |after|
  {
    if after != [] {
      hide Disjoint;
      var r, rest := after[0], after[1..];
      assert after == [r] + rest;
      var k := Occurs(before, r);
      WithoutCount(before, k);
      WithoutDisjoint(before, k);
      hide AreDisjoint, Without;
      assert multiset(rest) == multiset(Without(before, k));
      ReorderedAreDisjoint(Without(before, k), rest);
      forall x | x in rest ensures Disjoint(r, x) {
        assert x in multiset(rest);
      }
      AddFirst(r, rest);
    }
  }

  /** What the kernel finds: regions in descending size that do not overlap, each a run of usable entries. */
  lemma SortedRegionsAreSound(entries: seq<Entry>, sorted: seq<Region>)
    requires IsAscending(Usable(entries)) && multiset(sorted) == multiset(Regions(entries))
    ensures |sorted| <= MAX_MEMORY_REGIONS && AreDisjoint(sorted)
    ensures forall i | 0 <= i < |sorted| :: IsRunBefore(Usable(entries), |Usable(entries)|, sorted[i])
  {
    hide IsRunBefore;
    var regions := Regions(entries);
    RegionsAreSound(entries);
    assert |sorted| == |multiset(sorted)| == |multiset(regions)| == |regions|;
    ReorderedAreDisjoint(regions, sorted);
    forall i | 0 <= i < |sorted| ensures IsRunBefore(Usable(entries), |Usable(entries)|, sorted[i]) {
      assert sorted[i] in multiset(sorted);
      var k := Occurs(regions, sorted[i]);
    }
  }

  // ----- The program

  lemma {:induction false} AfterPrefix(usable: seq<Entry>, more: seq<Entry>, n: nat)
    requires n <= |usable|
    ensures After(usable + more, n) == After(usable, n)
  {
    if n > 0 {
      AfterPrefix(usable, more, n - 1);
    }
  }

  lemma {:induction false} FullStays(usable: seq<Entry>, n: nat, m: nat)
    requires n <= m <= |usable| && |After(usable, n).stored| == MAX_MEMORY_REGIONS
    ensures After(usable, m) == After(usable, n)
    decreases m
  {
    if n < m {
      FullStays(usable, n, m - 1);
    }
  }

  lemma {:induction false} UsablePrefix(entries: seq<Entry>, n: nat)
    requires n <= |entries|
    ensures Usable(entries[..n]) <= Usable(entries)
    decreases |entries|
  {
    if n < |entries| {
      UsablePrefix(entries[..|entries| - 1], n);
      assert entries[..|entries| - 1][..n] == entries[..n];
    } else {
      assert entries[..n] == entries;
    }
  }

  function GroupedTo(entries: seq<Entry>, n: nat): Grouping
    requires n <= |entries|
  {
    After(Usable(entries[..n]), |Usable(entries[..n])|)
  }

  lemma GroupEntry(entries: seq<Entry>, n: nat)
    requires n < |entries|
    ensures
      var g, e := GroupedTo(entries, n), entries[n];
      GroupedTo(entries, n + 1) == if e.IsUsable() && |g.stored| != MAX_MEMORY_REGIONS then Step(g, e) else g
  {
    assert entries[..n + 1][..n] == entries[..n];
    var usable, next := Usable(entries[..n]), Usable(entries[..n + 1]);
    if entries[n].IsUsable() {
      assert next == usable + [entries[n]];
      AfterPrefix(usable, [entries[n]], |usable|);
      assert After(next, |usable|) == After(usable, |usable|) && next[|usable|] == entries[n];
    } else {
      assert next == usable;
    }
  }

  lemma GroupedWhenFull(entries: seq<Entry>, n: nat)
    requires n <= |entries| && (n == |entries| || |GroupedTo(entries, n).stored| == MAX_MEMORY_REGIONS)
    ensures Regions(entries) == Closed(GroupedTo(entries, n))
  {
    if n == |entries| {
      assert entries[..n] == entries;
    } else {
      var usable, all := Usable(entries[..n]), Usable(entries);
      UsablePrefix(entries, n);
      assert all == usable + all[|usable|..];
      AfterPrefix(usable, all[|usable|..], |usable|);
      FullStays(all, |usable|, |all|);
    }
  }

  /** The loop over the memory map and the sort: the boot information's table gets the regions. */
  method FillTable(entries: seq<Entry>, table: array<Region>) returns (len: nat)
    requires table.Length == MAX_MEMORY_REGIONS
    modifies table
    ensures len <= table.Length && table[..len] == SortedBySize(Regions(entries))
    ensures table[len..] == old(table[len..])
  {
    len := 0;
    var region: Option<Region> := None;
    var i := 0;
    assert entries[..0] == [] && table[..0] == [];
    assert GroupedTo(entries, 0) == Grouping(table[..0], None);
    hide GroupedTo, Regions, SortedBySize;
    while i < |entries|
      invariant 0 <= i <= |entries| && len < MAX_MEMORY_REGIONS
      invariant GroupedTo(entries, i) == Grouping(table[..len], region)
      invariant table[len..] == old(table[..])[len..]
    {
      var entry := entries[i];
      GroupEntry(entries, i);
      i := i + 1;
      if !entry.IsUsable() {
        continue;
      }
      match region {
        case None => region := Some(Region(entry.start, entry.pages));
        case Some(reg) =>
          if reg.End() == entry.start {
            region := Some(Region(reg.base, reg.pages + entry.pages));
          } else if reg.pages >= SMALLEST_REGION {
            table[len] := reg;
            region := Some(Region(entry.start, entry.pages));
            len := len + 1;
            if len == MAX_MEMORY_REGIONS {
              break;
            }
          } else {
            region := None;
          }
      }
    }
    GroupedWhenFull(entries, i);
    ghost var stored := table[..len];
    if len < MAX_MEMORY_REGIONS && region.Some? {
      table[len] := region.value;
      len := len + 1;
      assert table[..len] == stored + [region.value];
    }
    assert table[..len] == Regions(entries);
    assert table[len..] == old(table[len..]);
    Sort(table, len);
  }

  /** The library's `sort_unstable_by` on the first `len` regions, largest first. */
  method Sort(table: array<Region>, len: nat)
    requires len <= table.Length
    modifies table
    ensures table[..len] == SortedBySize(old(table[..len])) && table[len..] == old(table[len..])
  {
    var sorted := SortedBySize(table[..len]);
    SortedIsDescending(table[..len]);
    assert |sorted| == |multiset(sorted)| == |multiset(table[..len])| == len;
    forall i | 0 <= i < len {
      table[i] := sorted[i];
    }
    assert table[..len] == sorted;
  }
}
