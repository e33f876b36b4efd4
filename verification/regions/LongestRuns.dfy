/** Which runs of usable memory the grouping of bootloader/src/main.rs lists, and which it loses: a run
    that is too small takes the first entry of the next run with it. */
module LongestRuns {
  import opened Common
  import opened MemoryRegions

  /** A longest run of usable entries without gaps: its memory, how many entries it has, and how many pages
      the first of them. */
  datatype Run = Run(region: Region, entries: nat, first: nat)

  function Runs(usable: seq<Entry>, n: nat): seq<Run>
    requires n <= |usable|
  {
    if n == 0 then [] else Extended(Runs(usable, n - 1), usable[n - 1])
  }

  function Extended(runs: seq<Run>, e: Entry): seq<Run> {
    if runs != [] && runs[|runs| - 1].region.End() == e.start then
      var last := runs[|runs| - 1];
      runs[..|runs| - 1] + [Run(Region(last.region.base, last.region.pages + e.pages), last.entries + 1, last.first)]
    else runs + [Run(Region(e.start, e.pages), 1, e.pages)]
  }

  predicate IsSmall(r: Option<Region>) {
    r.Some? && r.value.pages < 8
  }

  /** What the loop makes of run `k`: all of it, or what is left after the first entry when the run before
      was left too small. */
  function Left(runs: seq<Run>, k: nat): Option<Region>
    requires k < |runs|
    decreases k, 1
  {
    if !IsCut(runs, k) then Some(runs[k].region)
    else if runs[k].entries == 1 then None
    else Some(Region(runs[k].region.base + runs[k].first * PAGE_SIZE, Rest(runs[k])))
  }

  function Rest(run: Run): nat {
    if run.first <= run.region.pages then run.region.pages - run.first else 0
  }

  /** Run `k` loses its first entry. */
  predicate IsCut(runs: seq<Run>, k: nat)
    requires k < |runs|
    decreases k, 0
  {
    k > 0 && IsSmall(Left(runs, k - 1))
  }

  /** What the loop has stored of the first `k` runs when there is room for all. */
  function Kept(runs: seq<Run>, k: nat): seq<Region>
    requires k <= |runs|
  {
    if k == 0 then []
    else
      var r := Left(runs, k - 1);
      Kept(runs, k - 1) + if r.Some? && r.value.pages >= 8 then [r.value] else []
  }

  /** All that is stored in the end when there is room for all: of the last run, whatever is left. */
  function Listed(runs: seq<Run>): seq<Region> {
    if runs == [] then []
    else
      var last := Left(runs, |runs| - 1);
      Kept(runs, |runs| - 1) + if last.Some? then [last.value] else []
  }

  // ----- The loop in terms of runs

  predicate IsRun(run: Run) {
    run.entries > 0 && run.first <= run.region.pages && (run.entries == 1 ==> run.first == run.region.pages)
  }

  lemma {:induction false} RunsAreRuns(usable: seq<Entry>, n: nat)
    requires n <= |usable|
    ensures forall run | run in Runs(usable, n) :: IsRun(run)
    ensures n > 0 ==> Runs(usable, n) != []
  {
    if n > 0 {
      RunsAreRuns(usable, n - 1);
      var runs := Runs(usable, n - 1);
      assert runs != [] ==> runs[|runs| - 1] in runs;
    }
  }

  /** What is left of a run depends on the runs up to it. */
  lemma {:induction false} LeftPrefix(runs: seq<Run>, more: seq<Run>, k: nat)
    requires k < |runs| && k < |more| && runs[..k + 1] == more[..k + 1]
    ensures Left(runs, k) == Left(more, k)
  {
    assert runs[k] == runs[..k + 1][k] == more[k];
    if k > 0 {
      assert runs[..k] == runs[..k + 1][..k] == more[..k];
      LeftPrefix(runs, more, k - 1);
    }
  }

  lemma {:induction false} KeptPrefix(runs: seq<Run>, more: seq<Run>, k: nat)
    requires k <= |runs| && k <= |more| && runs[..k] == more[..k]
    ensures Kept(runs, k) == Kept(more, k)
  {
    if k > 0 {
      assert runs[..k - 1] == runs[..k][..k - 1] == more[..k - 1];
      KeptPrefix(runs, more, k - 1);
      LeftPrefix(runs, more, k - 1);
    }
  }

  /** The state of the loop after these runs, as long as there is room. */
  function AsGrouping(runs: seq<Run>): Grouping {
    if runs == [] then Grouping([], None) else Grouping(Kept(runs, |runs| - 1), Left(runs, |runs| - 1))
  }

  /** What is left of a run ends where the run does. */
  lemma LeftEnd(runs: seq<Run>, k: nat)
    requires k < |runs| && IsRun(runs[k])
    ensures Left(runs, k).Some? ==> Left(runs, k).value.End() == runs[k].region.End()
  {
  }

  lemma SameRun(runs: seq<Run>, e: Entry)
    requires runs != [] && runs[|runs| - 1].region.End() == e.start && IsRun(runs[|runs| - 1])
    ensures AsGrouping(Extended(runs, e)) == Step(AsGrouping(runs), e)
  {
    var m, more := |runs| - 1, Extended(runs, e);
    assert more[..m] == runs[..m];
    KeptPrefix(runs, more, m);
    if m > 0 {
      assert runs[..m - 1 + 1] == more[..m - 1 + 1];
      LeftPrefix(runs, more, m - 1);
    }
    assert IsCut(runs, m) == IsCut(more, m);
  }

  lemma NewRun(runs: seq<Run>, e: Entry)
    requires runs != [] && runs[|runs| - 1].region.End() != e.start && IsRun(runs[|runs| - 1])
    ensures AsGrouping(Extended(runs, e)) == Step(AsGrouping(runs), e)
  {
    var m, more := |runs|, Extended(runs, e);
    assert more[..m] == runs;
    KeptPrefix(runs, more, m - 1);
    assert runs[..m - 1 + 1] == more[..m - 1 + 1];
    LeftPrefix(runs, more, m - 1);
    assert |more| == m + 1 && more[m] == Run(Region(e.start, e.pages), 1, e.pages);
    assert Left(more, m) == if IsSmall(Left(runs, m - 1)) then None else Some(Region(e.start, e.pages));
    LeftEnd(runs, m - 1);
  }

  lemma {:induction false} AfterRuns(usable: seq<Entry>, n: nat)
    requires n <= |usable|
    ensures
      var g, all := After(usable, n), AsGrouping(Runs(usable, n));
      if |all.stored| < 128 then g == all else g.stored == all.stored[..128]
  {
    hide AsGrouping, Extended;
    if n == 0 {
      NoRuns();
    } else {
      AfterRuns(usable, n - 1);
      RunsAreRuns(usable, n - 1);
      AnyRun(Runs(usable, n - 1), usable[n - 1]);
    }
  }

  lemma NoRuns()
    ensures AsGrouping([]) == Grouping([], None)
  {
  }

  lemma AnyRun(runs: seq<Run>, e: Entry)
    requires forall run | run in runs :: IsRun(run)
    ensures AsGrouping(Extended(runs, e)) == Step(AsGrouping(runs), e)
  {
    if runs != [] {
      hide AsGrouping, Extended, Step;
      if runs[|runs| - 1].region.End() == e.start {
        SameRun(runs, e);
      } else {
        NewRun(runs, e);
      }
    }
  }

  function RunsOf(entries: seq<Entry>): seq<Run> {
    Runs(Usable(entries), |Usable(entries)|)
  }

  function AtMost(regions: seq<Region>, n: nat): seq<Region> {
    if |regions| <= n then regions else regions[..n]
  }

  /** For every memory map: the regions are what is left of its longest runs, in order, without the small
      ones before the last run, and no more than there is room for. */
  lemma RegionsExactly(entries: seq<Entry>)
    ensures Regions(entries) == AtMost(Listed(RunsOf(entries)), 128)
  {
    hide Left, Kept, Runs;
    var usable := Usable(entries);
    AfterRuns(usable, |usable|);
  }

  // ----- Which runs are listed

  lemma {:induction false} KeptGrows(runs: seq<Run>, k: nat, j: nat)
    requires k < j <= |runs| && Left(runs, k).Some? && Left(runs, k).value.pages >= 8
    ensures |Kept(runs, k)| < |Kept(runs, j)| && Kept(runs, j)[|Kept(runs, k)|] == Left(runs, k).value
    decreases j
  {
    hide Left;
    if k + 1 < j {
      KeptGrows(runs, k, j - 1);
    }
  }

  /** What is left of a large run is listed after what is kept of the runs before it. */
  lemma ListedAt(runs: seq<Run>, k: nat)
    requires k < |runs| && Left(runs, k).Some? && Left(runs, k).value.pages >= 8
    ensures |Kept(runs, k)| < |Listed(runs)| && Listed(runs)[|Kept(runs, k)|] == Left(runs, k).value
  {
    hide Left, Kept;
    var m := |runs| - 1;
    assert Kept(runs, m) <= Listed(runs);
    if k < m {
      KeptGrows(runs, k, m);
    }
  }

  lemma {:induction false} KeptFrom(runs: seq<Run>, j: nat, i: nat) returns (k: nat)
    requires j <= |runs| && i < |Kept(runs, j)|
    ensures k < j && Left(runs, k) == Some(Kept(runs, j)[i]) && |Kept(runs, k)| == i
    decreases j
  {
    hide Left;
    if i < |Kept(runs, j - 1)| {
      k := KeptFrom(runs, j - 1, i);
    } else {
      k := j - 1;
    }
  }

  /** Whatever is listed is what is left of a run. */
  lemma ListedFrom(runs: seq<Run>, i: nat) returns (k: nat)
    requires i < |Listed(runs)|
    ensures k < |runs| && Left(runs, k) == Some(Listed(runs)[i]) && |Kept(runs, k)| == i
  {
    hide Left;
    if i < |Kept(runs, |runs| - 1)| {
      k := KeptFrom(runs, |runs| - 1, i);
    } else {
      k := |runs| - 1;
    }
  }

  ghost predicate RunsApart(runs: seq<Run>) {
    forall i, j | 0 <= i < j < |runs| :: runs[i].region.End() <= runs[j].region.base
  }

  lemma ExtendedApart(runs: seq<Run>, e: Entry)
    requires RunsApart(runs) && forall i | 0 <= i < |runs| :: runs[i].region.End() <= e.start
    ensures RunsApart(Extended(runs, e)) && Extended(runs, e) != []
    ensures Extended(runs, e)[|Extended(runs, e)| - 1].region.End() == e.End()
  {
  }

  lemma {:induction false} RunsAreApart(usable: seq<Entry>, n: nat)
    requires n <= |usable| && IsAscending(usable)
    ensures RunsApart(Runs(usable, n))
    ensures n > 0 ==> Runs(usable, n) != [] && Runs(usable, n)[|Runs(usable, n)| - 1].region.End() == usable[n - 1].End()
  {
    hide Extended;
    if n > 0 {
      var runs, e := Runs(usable, n - 1), usable[n - 1];
      RunsAreApart(usable, n - 1);
      forall i | 0 <= i < |runs| ensures runs[i].region.End() <= e.start {
        assert usable[n - 2].End() <= e.start;
        var last := |runs| - 1;
        assert i < last ==> runs[i].region.End() <= runs[last].region.base;
      }
      ExtendedApart(runs, e);
    }
  }

  /** What is left of one run is no other run. */
  lemma LeftOfOne(runs: seq<Run>, j: nat, k: nat)
    requires j < |runs| && k < |runs| && RunsApart(runs) && IsRun(runs[j]) && runs[k].region.pages > 0
    requires Left(runs, j) == Some(runs[k].region)
    ensures j == k
  {
    LeftEnd(runs, j);
    assert Left(runs, j).value.base >= runs[j].region.base;
  }

  /** The run loses its first entry, and pages with it. */
  predicate IsShortened(runs: seq<Run>, k: nat)
    requires k < |runs|
  {
    IsCut(runs, k) && runs[k].first > 0
  }

  lemma WholeUnlessShortened(runs: seq<Run>, k: nat)
    requires k < |runs| && IsRun(runs[k]) && runs[k].region.pages > 0
    ensures Left(runs, k) == Some(runs[k].region) <==> !IsShortened(runs, k)
  {
  }

  /** For every memory map in order, a run of at least eight pages is among the regions if and only if it
      does not lose its first entry to a small run and there is room for it after the runs before it. */
  lemma LargeRunListedExactly(entries: seq<Entry>, k: nat)
    requires IsAscending(Usable(entries)) && k < |RunsOf(entries)|
    requires IsLarge(RunsOf(entries)[k])
    ensures
      var runs := RunsOf(entries);
      runs[k].region in Regions(entries) <==> !IsShortened(runs, k) && |Kept(runs, k)| < 128
  {
    hide Left, Kept, Listed, Runs, IsShortened, Regions;
    var usable, runs := Usable(entries), RunsOf(entries);
    RegionsExactly(entries);
    RunsAreApart(usable, |usable|);
    RunsAreRuns(usable, |usable|);
    assert runs[k] in runs;
    WholeUnlessShortened(runs, k);
    if !IsShortened(runs, k) {
      ListedAt(runs, k);
    }
    if i: nat :| i < |Regions(entries)| && Regions(entries)[i] == runs[k].region {
      var j := ListedFrom(runs, i);
      assert runs[j] in runs;
      LeftOfOne(runs, j, k);
    }
  }

  /** All runs of at least eight pages are among the regions if and only if none of them is shortened and
      there is room. */
  lemma LargeRunsListedExactly(entries: seq<Entry>)
    requires IsAscending(Usable(entries))
    ensures
      var runs := RunsOf(entries);
      (forall k | 0 <= k < |runs| && IsLarge(runs[k]) :: runs[k].region in Regions(entries)) <==>
      (forall k | 0 <= k < |runs| && IsLarge(runs[k]) :: !IsShortened(runs, k) && |Kept(runs, k)| < 128)
  {
    hide IsShortened, Kept, Regions;
    var runs := RunsOf(entries);
    forall k | 0 <= k < |runs| && IsLarge(runs[k])
      ensures runs[k].region in Regions(entries) <==> !IsShortened(runs, k) && |Kept(runs, k)| < 128
    {
      LargeRunListedExactly(entries, k);
    }
  }

  predicate IsLarge(run: Run) {
    run.region.pages >= 8
  }

  // ----- When nothing is left out

  function Areas(runs: seq<Run>): seq<Region> {
    seq(|runs|, k requires 0 <= k < |runs| => runs[k].region)
  }

  ghost predicate OnlyLastSmall(runs: seq<Run>) {
    forall k | 0 <= k < |runs| - 1 :: IsLarge(runs[k])
  }

  lemma {:induction false} KeptWhole(runs: seq<Run>, k: nat)
    requires OnlyLastSmall(runs) && k < |runs|
    ensures Left(runs, k) == Some(runs[k].region) && Kept(runs, k) == Areas(runs)[..k]
  {
    if k > 0 {
      KeptWhole(runs, k - 1);
      assert IsLarge(runs[k - 1]);
    }
  }

  /** The regions are all the longest runs, small ones too, if and only if only the last run may be small
      and there is room for all. */
  lemma CompleteExactly(entries: seq<Entry>)
    requires IsAscending(Usable(entries))
    ensures
      var runs := RunsOf(entries);
      Regions(entries) == Areas(runs) <==> |runs| <= 128 && OnlyLastSmall(runs)
  {
    hide Left, Kept, Regions, Runs;
    var runs := RunsOf(entries);
    RegionsExactly(entries);
    RegionsAreSound(entries);
    if Regions(entries) == Areas(runs) {
      forall k | 0 <= k < |runs| - 1 ensures IsLarge(runs[k]) {
        assert Regions(entries)[k].pages >= 8;
      }
    } else if OnlyLastSmall(runs) && runs != [] {
      KeptWhole(runs, |runs| - 1);
      assert Areas(runs) == Areas(runs)[..|runs| - 1] + [runs[|runs| - 1].region];
    }
  }

  // ----- What is lost

  predicate Avoids(r: Region, e: Entry) {
    r.End() <= e.start || e.End() <= r.base
  }

  ghost predicate IsLost(g: Grouping, e: Entry) {
    && (forall r | r in g.stored :: Avoids(r, e))
    && (g.current.Some? ==> e.End() <= g.current.value.base)
  }

  lemma StepKeepsLost(g: Grouping, e: Entry, later: Entry)
    requires IsLost(g, e) && e.End() <= later.start
    ensures IsLost(Step(g, later), e)
  {
  }

  lemma {:induction false} LostStays(usable: seq<Entry>, n: nat, m: nat)
    requires n < m <= |usable| && IsAscending(usable) && IsLost(After(usable, n + 1), usable[n])
    ensures IsLost(After(usable, m), usable[n])
    decreases m
  {
    hide IsLost, Step;
    if n + 1 < m {
      LostStays(usable, n, m - 1);
      StepKeepsLost(After(usable, m - 1), usable[n], usable[m - 1]);
    }
  }

  /** For every memory map in order: an entry that does not touch the current region, when that is small,
      is in no region, whatever its size. */
  lemma EntryLost(entries: seq<Entry>, n: nat)
    requires IsAscending(Usable(entries)) && n < |Usable(entries)|
    requires
      var g := After(Usable(entries), n);
      |g.stored| < 128 && IsSmall(g.current) && g.current.value.End() != Usable(entries)[n].start
    ensures
      var e := Usable(entries)[n];
      forall r | r in Regions(entries) :: Avoids(r, e)
  {
    var usable := Usable(entries);
    var g, e := After(usable, n), usable[n];
    AfterIsSound(usable, n);
    assert forall r | r in g.stored :: r.End() <= e.start;
    assert After(usable, n + 1) == Grouping(g.stored, None);
    LostStays(usable, n, |usable|);
    assert Regions(entries) == Closed(After(usable, |usable|));
  }

  /** A map in which a single small entry takes one of any size with it. */
  lemma LargeEntryLost(pages: nat)
    ensures Regions([Entry(Conventional, 0, 1), Entry(Conventional, 8192, pages)]) == []
  {
    var small, large := Entry(Conventional, 0, 1), Entry(Conventional, 8192, pages);
    var entries := [small, large];
    assert entries[..1] == [small] && [small][..0] == [];
    assert Usable([]) == [] && Usable([small]) == [small] && Usable(entries) == entries;
    assert After(entries, 0) == Grouping([], None);
    assert After(entries, 1) == Grouping([], Some(Region(0, 1)));
  }
}
