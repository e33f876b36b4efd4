/** Whole runs: `new`, any calls of `map`, `finish`, any calls of `map`. Against the hardware walk, the
    tables behave throughout as one finite function from pages to frames, first mapping wins. */
module MappingRuns {
  import opened Entries
  import opened Addresses
  import opened Hardware
  import opened TableTree
  import opened MapSpec
  import opened Mappers
  import opened VirtualMaps
  import opened Builder

  datatype PageKey = PageKey(page: Word)

  /** Where a page is mapped, whether for writing, and the entry that maps it. */
  datatype Frame = Frame(base: Word, writable: bool, leaf: Word)

  /** The abstract state: which pages are mapped, and where. */
  type PageMap = map<PageKey, Frame>

  function KeyOf(v: Word): PageKey {
    PageKey(Page(v))
  }

  function FrameTranslation(f: Frame): Translation {
    Mapped(f.base, 0xfff, f.writable, false, f.leaf)
  }

  function Lookup(pm: PageMap, u: Word): Translation {
    if KeyOf(u) in pm then FrameTranslation(pm[KeyOf(u)]) else Fault
  }

  /** The frame a request is for. */
  function FrameFor(q: Request): Frame {
    Frame(q.pAddr & PAGE_ADDRESS_MASK, Contains(q.flags, VFLAG_WRITABLE), NewPage(q.flags, q.pAddr))
  }

  function After(pm: PageMap, q: Request, result: Outcome): PageMap {
    if result == Ok then pm[KeyOf(q.vAddr) := FrameFor(q)] else pm
  }

  /** The answers the abstract state allows: only the choice between success and lack of a table frame
      is left open, and only for a page that is not mapped yet. */
  predicate Allowed(pm: PageMap, r: Index, q: Request, result: Outcome) {
    if IndexAt(0, q.vAddr) == r then result == Reserved(q.pAddr, q.vAddr)
    else if KeyOf(q.vAddr) in pm then result == AlreadyMapped(q.pAddr, q.vAddr, pm[KeyOf(q.vAddr)].base)
    else result == Ok || result == PageTable
  }

  /** Outside the recursion slot, the hardware translates exactly as the abstract state says. */
  ghost predicate Represents(m: Memory, root: Loc, r: Index, pm: PageMap) {
    forall u | IndexAt(0, u) != r :: Walk(m, root, 0, u) == Lookup(pm, u)
  }

  /** `map` leaves the kind of state, local or recursive, as it is, and keeps the tables a tree. */
  lemma MapKeepsState(m: Memory, mapper: Mapper, t: Tree, q: Request, supply: seq<Word>)
    requires Root in t && StateOf(m, mapper, t) && AllFresh(m, t, supply)
    ensures var t' := MapTree(m, mapper.recursionIndex, t, q, supply);
            && Root in t' && t'[Root] == t[Root]
            && StateOf(MapSpec.Map(m, t[Root], mapper.recursionIndex, q, supply).memory, mapper, t')
  {
    hide IsPresent, IsHuge, IsWritable, IsUser, IsBareNode, ChildAddr, Load, IndexAt, IsTree, AllFresh, MapFrom, GrowFrom;
    if IndexAt(0, q.vAddr) != mapper.recursionIndex {
      assert PathTo(q.vAddr, 0) == Root;
      MapKeepsTree(m, mapper.recursionIndex, t, 0, q, supply);
    }
  }

  /** One call of `map` refines one step of the abstract state. */
  lemma MapRefines(m: Memory, r: Index, t: Tree, q: Request, supply: seq<Word>, pm: PageMap)
    requires IsTree(m, r, t) && AllFresh(m, t, supply) && Represents(m, t[Root], r, pm)
    ensures var s := MapSpec.Map(m, t[Root], r, q, supply);
            Allowed(pm, r, q, s.result) && Represents(s.memory, t[Root], r, After(pm, q, s.result))
  {
    hide IsTree, AllFresh, IndexAt, MapFrom, Walk, Page, Contains;
    RootInTree(m, r, t);
    var v, s := q.vAddr, MapSpec.Map(m, t[Root], r, q, supply);
    if IndexAt(0, v) != r {
      assert PathTo(v, 0) == Root;
      MapAnswers(m, r, t, 0, q, supply);
      assert Walk(m, t[Root], 0, v) == Lookup(pm, v);
      forall u | IndexAt(0, u) != r
        ensures Walk(s.memory, t[Root], 0, u) == Lookup(After(pm, q, s.result), u)
      {
        if s.result == Ok && Page(u) == Page(v) {
          MapGrants(m, r, t, 0, q, supply, u);
        } else {
          MapKeepsOtherWalks(m, r, t, 0, q, supply, u);
          assert Walk(m, t[Root], 0, u) == Lookup(pm, u);
        }
      }
    }
  }

  /** A call together with the frames `new_page_table` will answer during it. */
  datatype Call = Call(q: Request, supply: seq<Word>)

  /** The tables and answers of a sequence of calls. */
  datatype Run = Run(memory: Memory, results: seq<Outcome>)

  function RunMaps(m: Memory, root: Loc, r: Index, calls: seq<Call>): (run: Run)
    ensures |run.results| == |calls|
    decreases |calls|
  {
    if calls == [] then Run(m, [])
    else
      var s := MapSpec.Map(m, root, r, calls[0].q, calls[0].supply);
      var rest := RunMaps(s.memory, root, r, calls[1..]);
      Run(rest.memory, [s.result] + rest.results)
  }

  ghost function RunTree(m: Memory, r: Index, t: Tree, calls: seq<Call>): (t': Tree)
    requires Root in t
    ensures Root in t' && t'[Root] == t[Root]
    decreases |calls|
  {
    if calls == [] then t
    else
      var q, supply := calls[0].q, calls[0].supply;
      RunTree(MapSpec.Map(m, t[Root], r, q, supply).memory, r, MapTree(m, r, t, q, supply), calls[1..])
  }

  /** Every frame that is handed out during the run is fresh when it is. */
  ghost predicate Supplied(m: Memory, r: Index, t: Tree, calls: seq<Call>)
    requires Root in t
    decreases |calls|
  {
    calls == [] ||
    var q, supply := calls[0].q, calls[0].supply;
    && AllFresh(m, t, supply)
    && Supplied(MapSpec.Map(m, t[Root], r, q, supply).memory, r, MapTree(m, r, t, q, supply), calls[1..])
  }

  function AfterAll(pm: PageMap, calls: seq<Call>, results: seq<Outcome>): PageMap
    requires |calls| == |results|
    decreases |calls|
  {
    if calls == [] then pm else AfterAll(After(pm, calls[0].q, results[0]), calls[1..], results[1..])
  }

  predicate AllAllowed(pm: PageMap, r: Index, calls: seq<Call>, results: seq<Outcome>)
    requires |calls| == |results|
    decreases |calls|
  {
    calls == [] ||
    (Allowed(pm, r, calls[0].q, results[0]) &&
     AllAllowed(After(pm, calls[0].q, results[0]), r, calls[1..], results[1..]))
  }

  /** Every run of calls, through either mapper, refines a run of the abstract state. */
  lemma {:induction false} RunRefines(m: Memory, mapper: Mapper, t: Tree, calls: seq<Call>, pm: PageMap)
    requires Root in t && StateOf(m, mapper, t) && Supplied(m, mapper.recursionIndex, t, calls)
    requires Represents(m, t[Root], mapper.recursionIndex, pm)
    ensures var r := mapper.recursionIndex;
            var run := RunMaps(m, t[Root], r, calls);
            && StateOf(run.memory, mapper, RunTree(m, r, t, calls))
            && AllAllowed(pm, r, calls, run.results)
            && Represents(run.memory, t[Root], r, AfterAll(pm, calls, run.results))
    decreases |calls|
  {
    hide IndexAt, IsTree, AllFresh, Represents, Allowed, Map;
    if calls != [] {
      var r, q, supply := mapper.recursionIndex, calls[0].q, calls[0].supply;
      var s := MapSpec.Map(m, t[Root], r, q, supply);
      MapRefines(m, r, t, q, supply, pm);
      MapKeepsState(m, mapper, t, q, supply);
      RunRefines(s.memory, mapper, MapTree(m, r, t, q, supply), calls[1..], After(pm, q, s.result));
      var run := RunMaps(m, t[Root], r, calls);
      assert run.results[1..] == RunMaps(s.memory, t[Root], r, calls[1..]).results;
    }
  }

  /** The life of a map: `new` beside the memory `m`, the calls `before` on the builder, `finish` with
      frame `f`, and the calls `after` through the recursive mapper. */
  ghost predicate BootSupplied(m: Memory, r: Index, before: seq<Call>, f: Word, after: seq<Call>) {
    var t0 := map[Root := Local];
    var m0 := m[Local := map[]];
    && Supplied(m0, r, t0, before)
    && var m1, t1 := RunMaps(m0, Local, r, before).memory, RunTree(m0, r, t0, before);
       && IsFresh(m1, t1, f)
       && Supplied(FinishMemory(m1, r, f), r, t1[Root := Phys(f)], after)
  }

  /** Over the whole life of a map, every answer is one the abstract state allows, and at the end the
      hardware, given the new PML4, translates every address outside the recursion slot to the frame of
      the first successful call for its page, and no other address. */
  lemma BootRefines(m: Memory, r: Index, before: seq<Call>, f: Word, after: seq<Call>)
    requires BootSupplied(m, r, before, f, after)
    ensures var built := RunMaps(m[Local := map[]], Local, r, before);
            var final := RunMaps(FinishMemory(built.memory, r, f), Phys(f), r, after);
            var pm := AfterAll(map[], before, built.results);
            && AllAllowed(map[], r, before, built.results)
            && AllAllowed(pm, r, after, final.results)
            && Represents(final.memory, Phys(f), r, AfterAll(pm, after, final.results))
  {
    hide IndexAt, IsTree, AllFresh, Allowed, Map, AfterAll, AllAllowed, Walk;
    var m0, t0 := m[Local := map[]], map[Root := Local];
    EmptyBuilding(m, r);
    forall u ensures Walk(m0, Local, 0, u) == Fault {
      ZeroedFaults(m0, Local, 0, u);
    }
    RunRefines(m0, LocalMapper(r), t0, before, map[]);
    var built, t1 := RunMaps(m0, Local, r, before), RunTree(m0, r, t0, before);
    var m2, t2, pm := FinishMemory(built.memory, r, f), t1[Root := Phys(f)], AfterAll(map[], before, built.results);
    FinishIsRecursive(built.memory, r, t1, f);
    forall u | IndexAt(0, u) != r
      ensures Walk(m2, Phys(f), 0, u) == Lookup(pm, u)
    {
      FinishKeepsWalk(built.memory, r, t1, f, Root, u);
    }
    RunRefines(m2, RecursiveMapper(r), t2, after, pm);
  }

  /** The first mapping of a page is final: once mapped, a page keeps its frame through every run. */
  lemma {:induction false} MappedForever(pm: PageMap, r: Index, calls: seq<Call>, results: seq<Outcome>, key: PageKey)
    requires |calls| == |results| && AllAllowed(pm, r, calls, results) && key in pm
    ensures var pm' := AfterAll(pm, calls, results);
            key in pm' && pm'[key] == pm[key]
    decreases |calls|
  {
    hide IndexAt, Page, Contains;
    if calls != [] {
      MappedForever(After(pm, calls[0].q, results[0]), r, calls[1..], results[1..], key);
    }
  }
}
