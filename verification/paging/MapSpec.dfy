/** `VirtualMap::map` as a function on memory, with tables reached by following `child_addr` (the way
    of `LocalMapper`), and what it does to the hardware walk. */
module MapSpec {
  import opened Entries
  import opened Addresses
  import opened Hardware
  import opened TableTree

  datatype Outcome =
    | Ok
    | PageTable
    | Reserved(pAddr: Word, vAddr: Word)
    | AlreadyMapped(pAddr: Word, vAddr: Word, existing: Word)

  /** The answer, the memory afterwards, and the frames `new_page_table` still has. */
  datatype Step = Step(result: Outcome, memory: Memory, supply: seq<Word>)

  datatype Request = Request(pAddr: Word, vAddr: Word, flags: Word)

  /** The part of `map` from the table at `l`, which is at distance `level` from the PML4. The frames
      that `new_page_table` will answer are `supply`; when they are used up it answers `None`. */
  function MapFrom(m: Memory, l: Loc, level: nat, q: Request, supply: seq<Word>): Step
    requires level < 4
    decreases 4 - level
  {
    var i := IndexAt(level, q.vAddr);
    var e := Load(m, l, i);
    if level == 3 then
      if IsPresent(e) then Step(AlreadyMapped(q.pAddr, q.vAddr, LeafAddr(level, e)), m, supply)
      else Step(Ok, Store(m, l, i, NewPage(q.flags, q.pAddr)), supply)
    else if !IsPresent(e) then
      if supply == [] then Step(PageTable, m, supply)
      else
        var e := NewNode(supply[0]);
        MapFrom(Store(m, l, i, e), Phys(ChildAddr(e)), level + 1, q, supply[1..])
    else if IsLeafAt(level, e) then Step(AlreadyMapped(q.pAddr, q.vAddr, LeafAddr(level, e)), m, supply)
    else MapFrom(m, Phys(ChildAddr(e)), level + 1, q, supply)
  }

  function Map(m: Memory, root: Loc, r: Index, q: Request, supply: seq<Word>): Step {
    if IndexAt(0, q.vAddr) == r then Step(Reserved(q.pAddr, q.vAddr), m, supply)
    else MapFrom(m, root, 0, q, supply)
  }

  /** The tables after `MapFrom`. */
  ghost function GrowFrom(m: Memory, t: Tree, level: nat, v: Word, supply: seq<Word>): (t': Tree)
    requires level < 4 && PathTo(v, level) in t
    ensures forall p | p in t :: p in t' && t'[p] == t[p]
    decreases 4 - level
  {
    if level == 3 then t
    else
      var l, i, child := t[PathTo(v, level)], IndexAt(level, v), PathTo(v, level + 1);
      if child in t then GrowFrom(m, t, level + 1, v, supply)
      else if IsPresent(Load(m, l, i)) || supply == [] then t
      else GrowFrom(Store(m, l, i, NewNode(supply[0])), t[child := Phys(supply[0])], level + 1, v, supply[1..])
  }

  /** How many tables are missing on the way from `level` to `v`'s page table. */
  ghost function Missing(t: Tree, level: nat, v: Word): nat
    requires level < 4
    decreases 4 - level
  {
    if level == 3 then 0
    else (if PathTo(v, level + 1) in t then 0 else 1) + Missing(t, level + 1, v)
  }

  /** Adding a table does not change what is missing below it. */
  lemma {:induction false} MissingBelow(t: Tree, p: Path, l: Loc, level: nat, v: Word)
    requires level < 4 && Level(p) <= level
    ensures Missing(t[p := l], level, v) == Missing(t, level, v)
    decreases 4 - level
  {
    if level < 3 {
      MissingBelow(t, p, l, level + 1, v);
    }
  }

  /** What a call of `map` may rely on: a tree of tables and fresh frames. */
  ghost predicate Ready(m: Memory, r: Index, t: Tree, level: nat, v: Word, supply: seq<Word>) {
    level < 4 && IsTree(m, r, t) && PathTo(v, level) in t && IndexAt(0, v) != r && AllFresh(m, t, supply)
  }

  /** One level of `MapFrom` when the entry is absent: a table is linked, and the call is ready again. */
  lemma LinkStep(m: Memory, r: Index, t: Tree, level: nat, v: Word, supply: seq<Word>)
    requires Ready(m, r, t, level, v, supply) && level < 3 && supply != []
    requires !IsPresent(Load(m, t[PathTo(v, level)], IndexAt(level, v)))
    ensures CanLink(m, r, t, PathTo(v, level), IndexAt(level, v), NewNode(supply[0]), supply[0])
    ensures PathTo(v, level + 1) !in t
    ensures ChildAddr(NewNode(supply[0])) == supply[0]
    ensures IsZeroed(Store(m, t[PathTo(v, level)], IndexAt(level, v), NewNode(supply[0])), Phys(supply[0]))
    ensures Ready(Store(m, t[PathTo(v, level)], IndexAt(level, v), NewNode(supply[0])), r,
                  t[PathTo(v, level + 1) := Phys(supply[0])], level + 1, v, supply[1..])
  {
    var p, i, f := PathTo(v, level), IndexAt(level, v), supply[0];
    var e := NewNode(f);
    assert IsFresh(m, t, f);
    NodeRoundTrip(f);
    assert !IsRecursionSlot(p, i, r);
    LinkKeepsTree(m, r, t, p, i, e, f);
    var m', t' := Store(m, t[p], i, e), t[Sub(p, i) := Phys(f)];
    LinkKeepsZeroed(m, r, t, p, i, e, f, f);
    forall k | 0 <= k < |supply[1..]|
      ensures IsFresh(m', t', supply[1..][k])
    {
      assert supply[1..][k] == supply[k + 1];
      LinkKeepsZeroed(m, r, t, p, i, e, f, supply[k + 1]);
    }
  }

  /** One level of `MapFrom` when the entry is present: the tree says whether it is a node. */
  lemma PresentStep(m: Memory, r: Index, t: Tree, level: nat, v: Word)
    requires IsTree(m, r, t) && level < 3 && PathTo(v, level) in t && IndexAt(0, v) != r
    ensures var e := Load(m, t[PathTo(v, level)], IndexAt(level, v));
            if PathTo(v, level + 1) in t then IsNodeTo(e, t[PathTo(v, level + 1)]) && !IsLeafAt(level, e)
            else IsPresent(e) ==> IsLeafAt(level, e)
  {
    assert EntryAgrees(m, t, PathTo(v, level), IndexAt(level, v));
  }

  /** A write on the way of an address outside the recursion slot does not touch the slot. */
  lemma SlotUntouched(m: Memory, r: Index, t: Tree, level: nat, v: Word, e: Word)
    requires IsTree(m, r, t) && level < 4 && PathTo(v, level) in t && IndexAt(0, v) != r
    ensures Load(Store(m, t[PathTo(v, level)], IndexAt(level, v), e), t[Root], r) == Load(m, t[Root], r)
  {
    hide IndexAt, Load, Store;
    LoadStore(m, t[PathTo(v, level)], IndexAt(level, v), e, t[Root], r);
  }

  /** The memory, the tables and the frames left after linking the table that is missing. */
  ghost function Linked(m: Memory, t: Tree, level: nat, v: Word, f: Word): (Memory, Tree)
    requires level < 3 && PathTo(v, level) in t
  {
    (Store(m, t[PathTo(v, level)], IndexAt(level, v), NewNode(f)), t[PathTo(v, level + 1) := Phys(f)])
  }

  /** A call that links a table goes on from there as a call of its own. */
  lemma CallLinks(m: Memory, r: Index, t: Tree, level: nat, q: Request, supply: seq<Word>)
    requires Ready(m, r, t, level, q.vAddr, supply) && level < 3 && supply != []
    requires !IsPresent(Load(m, t[PathTo(q.vAddr, level)], IndexAt(level, q.vAddr)))
    ensures
      var (m1, t1) := Linked(m, t, level, q.vAddr, supply[0]);
      && PathTo(q.vAddr, level + 1) !in t
      && Ready(m1, r, t1, level + 1, q.vAddr, supply[1..])
      && MapFrom(m, t[PathTo(q.vAddr, level)], level, q, supply)
         == MapFrom(m1, t1[PathTo(q.vAddr, level + 1)], level + 1, q, supply[1..])
      && GrowFrom(m, t, level, q.vAddr, supply) == GrowFrom(m1, t1, level + 1, q.vAddr, supply[1..])
  {
    hide PathTo, IndexAt, NewNode, NewPage, IsPresent, IsHuge, Load, Store, IsTree, AllFresh, CanLink, IsZeroed, ChildAddr,
      LeafAddr;
    LinkStep(m, r, t, level, q.vAddr, supply);
  }

  /** A call that finds a node goes on below it. */
  lemma CallDescends(m: Memory, r: Index, t: Tree, level: nat, q: Request, supply: seq<Word>)
    requires Ready(m, r, t, level, q.vAddr, supply) && level < 3 && PathTo(q.vAddr, level + 1) in t
    ensures Ready(m, r, t, level + 1, q.vAddr, supply)
    ensures IsPresent(Load(m, t[PathTo(q.vAddr, level)], IndexAt(level, q.vAddr)))
    ensures MapFrom(m, t[PathTo(q.vAddr, level)], level, q, supply)
         == MapFrom(m, t[PathTo(q.vAddr, level + 1)], level + 1, q, supply)
    ensures GrowFrom(m, t, level, q.vAddr, supply) == GrowFrom(m, t, level + 1, q.vAddr, supply)
  {
    hide PathTo, IndexAt, NewNode, NewPage, IsPresent, IsHuge, Load, Store, IsTree, AllFresh, IsZeroed, ChildAddr, LeafAddr;
    PresentStep(m, r, t, level, q.vAddr);
  }

  /** A call that meets a leaf, or has no frame for a missing table, ends there. */
  lemma CallStops(m: Memory, r: Index, t: Tree, level: nat, q: Request, supply: seq<Word>)
    requires Ready(m, r, t, level, q.vAddr, supply) && level < 3 && PathTo(q.vAddr, level + 1) !in t
    requires IsPresent(Load(m, t[PathTo(q.vAddr, level)], IndexAt(level, q.vAddr))) || supply == []
    ensures
      var s := MapFrom(m, t[PathTo(q.vAddr, level)], level, q, supply);
      s.result != Ok && s.memory == m && s.supply == supply && GrowFrom(m, t, level, q.vAddr, supply) == t
  {
    hide PathTo, IndexAt, NewNode, NewPage, IsPresent, IsHuge, Load, Store, IsTree, AllFresh, IsZeroed, ChildAddr, LeafAddr;
    PresentStep(m, r, t, level, q.vAddr);
  }

  /** A call at the page table writes one leaf, or nothing. */
  lemma CallEnds(m: Memory, r: Index, t: Tree, q: Request, supply: seq<Word>)
    requires Ready(m, r, t, 3, q.vAddr, supply)
    ensures
      var l, i := t[PathTo(q.vAddr, 3)], IndexAt(3, q.vAddr);
      var s := MapFrom(m, l, 3, q, supply);
      && s.supply == supply && GrowFrom(m, t, 3, q.vAddr, supply) == t
      && (s.result == Ok <==> !IsPresent(Load(m, l, i)))
      && s.memory == if s.result == Ok then Store(m, l, i, NewPage(q.flags, q.pAddr)) else m
  {
    hide PathTo, IndexAt, NewPage, IsPresent, Load, Store, IsTree, AllFresh, LeafAddr;
  }

  /** Every call, whatever its answer, keeps the tables a tree, moves no table and leaves the recursion
      slot alone. */
  lemma {:induction false} MapKeepsTree(m: Memory, r: Index, t: Tree, level: nat, q: Request, supply: seq<Word>)
    requires Ready(m, r, t, level, q.vAddr, supply)
    ensures var t' := GrowFrom(m, t, level, q.vAddr, supply);
            var m' := MapFrom(m, t[PathTo(q.vAddr, level)], level, q, supply).memory;
            && IsTree(m', r, t')
            && Load(m', t[Root], r) == Load(m, t[Root], r)
    decreases 4 - level
  {
    hide PathTo, IndexAt, NewNode, NewPage, IsPresent, Load, Store, IsTree, AllFresh, MapFrom, GrowFrom, Level;
    var v := q.vAddr;
    var p, i := PathTo(v, level), IndexAt(level, v);
    RootInTree(m, r, t);
    if level == 3 {
      CallEnds(m, r, t, q, supply);
      LevelOfPath(v, 3);
      LeafKeepsTree(m, r, t, p, i, NewPage(q.flags, q.pAddr));
      SlotUntouched(m, r, t, level, v, NewPage(q.flags, q.pAddr));
    } else if PathTo(v, level + 1) in t {
      CallDescends(m, r, t, level, q, supply);
      MapKeepsTree(m, r, t, level + 1, q, supply);
    } else if !IsPresent(Load(m, t[p], i)) && supply != [] {
      CallLinks(m, r, t, level, q, supply);
      SlotUntouched(m, r, t, level, v, NewNode(supply[0]));
      var (m1, t1) := Linked(m, t, level, v, supply[0]);
      RootStays(t, v, level, Phys(supply[0]));
      MapKeepsTree(m1, r, t1, level + 1, q, supply[1..]);
    } else {
      CallStops(m, r, t, level, q, supply);
    }
  }

  lemma LevelOfPath(v: Word, level: nat)
    requires level < 4
    ensures Level(PathTo(v, level)) == level
  {
  }

  lemma RootStays(t: Tree, v: Word, level: nat, l: Loc)
    requires level < 3 && Root in t
    ensures t[PathTo(v, level + 1) := l][Root] == t[Root]
  {
  }

  /** The frames a call did not use are still fresh after it. */
  lemma {:induction false} MapKeepsFresh(m: Memory, r: Index, t: Tree, level: nat, q: Request, supply: seq<Word>)
    requires Ready(m, r, t, level, q.vAddr, supply)
    ensures var s := MapFrom(m, t[PathTo(q.vAddr, level)], level, q, supply);
            AllFresh(s.memory, GrowFrom(m, t, level, q.vAddr, supply), s.supply)
    decreases 4 - level
  {
    hide PathTo, IndexAt, NewNode, NewPage, IsPresent, Load, Store, IsTree, AllFresh, MapFrom, GrowFrom, Level;
    var v := q.vAddr;
    var p, i := PathTo(v, level), IndexAt(level, v);
    if level == 3 {
      CallEnds(m, r, t, q, supply);
      LeafKeepsFresh(m, t, p, i, NewPage(q.flags, q.pAddr), supply);
    } else if PathTo(v, level + 1) in t {
      CallDescends(m, r, t, level, q, supply);
      MapKeepsFresh(m, r, t, level + 1, q, supply);
    } else if !IsPresent(Load(m, t[p], i)) && supply != [] {
      CallLinks(m, r, t, level, q, supply);
      var (m1, t1) := Linked(m, t, level, v, supply[0]);
      MapKeepsFresh(m1, r, t1, level + 1, q, supply[1..]);
    } else {
      CallStops(m, r, t, level, q, supply);
    }
  }

  lemma LeafKeepsFresh(m: Memory, t: Tree, p: Path, i: Index, e: Word, supply: seq<Word>)
    requires p in t && AllFresh(m, t, supply)
    ensures AllFresh(Store(m, t[p], i, e), t, supply)
  {
    hide Load, Store;
    assert t[p] in t.Values;
    forall k | 0 <= k < |supply|
      ensures IsZeroed(Store(m, t[p], i, e), Phys(supply[k]))
    {
      assert IsFresh(m, t, supply[k]);
      forall j: Index ensures Load(Store(m, t[p], i, e), Phys(supply[k]), j) == 0 {
        LoadStore(m, t[p], i, e, Phys(supply[k]), j);
      }
    }
  }

  /** A call that is refused, and a call that succeeds for another page, change no translation outside
      the recursion slot, however many tables they linked. */
  lemma {:induction false} MapKeepsOtherWalks(m: Memory, r: Index, t: Tree, level: nat, q: Request, supply: seq<Word>,
                                              u: Word)
    requires Ready(m, r, t, level, q.vAddr, supply) && IndexAt(0, u) != r
    requires var s := MapFrom(m, t[PathTo(q.vAddr, level)], level, q, supply);
             s.result == Ok ==> Page(u) != Page(q.vAddr)
    ensures var s := MapFrom(m, t[PathTo(q.vAddr, level)], level, q, supply);
            Walk(s.memory, t[Root], 0, u) == Walk(m, t[Root], 0, u)
    decreases 4 - level
  {
    hide PathTo, IndexAt, NewNode, NewPage, IsPresent, Load, Store, IsTree, AllFresh, MapFrom, GrowFrom, Level, Walk, Page;
    var v := q.vAddr;
    var p, i := PathTo(v, level), IndexAt(level, v);
    RootInTree(m, r, t);
    if level == 3 {
      CallEnds(m, r, t, q, supply);
      if !IsPresent(Load(m, t[p], i)) {
        LeafKeepsRootWalk(m, r, t, v, NewPage(q.flags, q.pAddr), u);
      }
    } else if PathTo(v, level + 1) in t {
      CallDescends(m, r, t, level, q, supply);
      MapKeepsOtherWalks(m, r, t, level + 1, q, supply, u);
    } else if !IsPresent(Load(m, t[p], i)) && supply != [] {
      CallLinks(m, r, t, level, q, supply);
      LinkKeepsRootWalk(m, r, t, level, v, supply, u);
      var (m1, t1) := Linked(m, t, level, v, supply[0]);
      RootStays(t, v, level, Phys(supply[0]));
      MapKeepsOtherWalks(m1, r, t1, level + 1, q, supply[1..], u);
    } else {
      CallStops(m, r, t, level, q, supply);
    }
  }

  lemma LinkKeepsRootWalk(m: Memory, r: Index, t: Tree, level: nat, v: Word, supply: seq<Word>, u: Word)
    requires Ready(m, r, t, level, v, supply) && level < 3 && supply != [] && IndexAt(0, u) != r
    requires !IsPresent(Load(m, t[PathTo(v, level)], IndexAt(level, v)))
    ensures Root in t && Walk(Linked(m, t, level, v, supply[0]).0, t[Root], 0, u) == Walk(m, t[Root], 0, u)
  {
    hide IndexAt, NewNode, IsPresent, Load, Store, IsTree, AllFresh, CanLink, Walk;
    RootInTree(m, r, t);
    LinkStep(m, r, t, level, v, supply);
    LinkKeepsWalk(m, r, t, PathTo(v, level), IndexAt(level, v), NewNode(supply[0]), supply[0], Root, u);
  }

  lemma LeafKeepsRootWalk(m: Memory, r: Index, t: Tree, v: Word, e: Word, u: Word)
    requires IsTree(m, r, t) && PathTo(v, 3) in t && IndexAt(0, v) != r && IndexAt(0, u) != r && Page(u) != Page(v)
    ensures Root in t && Walk(Store(m, t[PathTo(v, 3)], IndexAt(3, v), e), t[Root], 0, u) == Walk(m, t[Root], 0, u)
  {
    hide IndexAt, Load, Store, IsTree, Walk, Page;
    RootInTree(m, r, t);
    LeafKeepsOtherWalks(m, r, t, v, e, 0, u);
  }

  /** The answer of `MapFrom` is what the walk of the address says: refused as already mapped, with the
      page the address translates to and nothing written, when it translates; otherwise a success
      exactly when the missing tables can be had. */
  ghost predicate AnswersByWalk(m: Memory, t: Tree, level: nat, q: Request, supply: seq<Word>)
    requires level < 4 && PathTo(q.vAddr, level) in t
  {
    var l := t[PathTo(q.vAddr, level)];
    var s := MapFrom(m, l, level, q, supply);
    match Walk(m, l, level, q.vAddr)
    case Mapped(base, _, _, _, _) => s == Step(AlreadyMapped(q.pAddr, q.vAddr, base), m, supply)
    case Fault =>
      if |supply| < Missing(t, level, q.vAddr) then s.result == PageTable && s.supply == []
      else s.result == Ok && s.supply == supply[Missing(t, level, q.vAddr)..]
  }

  lemma {:induction false} MapAnswers(m: Memory, r: Index, t: Tree, level: nat, q: Request, supply: seq<Word>)
    requires Ready(m, r, t, level, q.vAddr, supply)
    ensures AnswersByWalk(m, t, level, q, supply)
    decreases 4 - level
  {
    hide PathTo, Level, IndexAt, NewNode, NewPage, IsPresent, ChildAddr, LeafAddr, IsHuge, Load, Store, IsTree, AllFresh,
      CanLink, IsZeroed, AnswersByWalk, MapFrom, Walk, Missing;
    var v := q.vAddr;
    var p, i := PathTo(v, level), IndexAt(level, v);
    if level < 3 && PathTo(v, level + 1) in t {
      MapAnswers(m, r, t, level + 1, q, supply);
      AnswersThroughNode(m, r, t, level, q, supply);
    } else if level < 3 && !IsPresent(Load(m, t[p], i)) && supply != [] {
      LinkStep(m, r, t, level, v, supply);
      MapAnswers(Store(m, t[p], i, NewNode(supply[0])), r, t[PathTo(v, level + 1) := Phys(supply[0])], level + 1, q,
                 supply[1..]);
      AnswersAfterLink(m, r, t, level, q, supply);
    } else {
      AnswersHere(m, r, t, level, q, supply);
    }
  }

  lemma AnswersHere(m: Memory, r: Index, t: Tree, level: nat, q: Request, supply: seq<Word>)
    requires Ready(m, r, t, level, q.vAddr, supply)
    requires level < 3 ==>
               && PathTo(q.vAddr, level + 1) !in t
               && (IsPresent(Load(m, t[PathTo(q.vAddr, level)], IndexAt(level, q.vAddr))) || supply == [])
    ensures AnswersByWalk(m, t, level, q, supply)
  {
    hide PathTo, Level, IndexAt, NewNode, NewPage, IsPresent, ChildAddr, LeafAddr, IsHuge, Load, Store, IsTree, AllFresh,
      CanLink, IsZeroed;
    if level < 3 {
      PresentStep(m, r, t, level, q.vAddr);
    }
  }

  lemma AnswersThroughNode(m: Memory, r: Index, t: Tree, level: nat, q: Request, supply: seq<Word>)
    requires Ready(m, r, t, level, q.vAddr, supply) && level < 3 && PathTo(q.vAddr, level + 1) in t
    requires AnswersByWalk(m, t, level + 1, q, supply)
    ensures AnswersByWalk(m, t, level, q, supply)
  {
    hide PathTo, Level, IndexAt, NewNode, NewPage, IsPresent, ChildAddr, LeafAddr, IsHuge, Load, Store, IsTree, AllFresh,
      CanLink, IsZeroed;
    PresentStep(m, r, t, level, q.vAddr);
  }

  lemma AnswersAfterLink(m: Memory, r: Index, t: Tree, level: nat, q: Request, supply: seq<Word>)
    requires Ready(m, r, t, level, q.vAddr, supply) && level < 3 && supply != []
    requires PathTo(q.vAddr, level + 1) !in t
    requires !IsPresent(Load(m, t[PathTo(q.vAddr, level)], IndexAt(level, q.vAddr)))
    requires AnswersByWalk(Store(m, t[PathTo(q.vAddr, level)], IndexAt(level, q.vAddr), NewNode(supply[0])),
                           t[PathTo(q.vAddr, level + 1) := Phys(supply[0])], level + 1, q, supply[1..])
    ensures AnswersByWalk(m, t, level, q, supply)
  {
    hide PathTo, Level, IndexAt, NewNode, NewPage, IsPresent, ChildAddr, LeafAddr, IsHuge, Load, Store, IsTree, AllFresh,
      CanLink, IsZeroed;
    var v := q.vAddr;
    var p, i, f := PathTo(v, level), IndexAt(level, v), supply[0];
    LinkStep(m, r, t, level, v, supply);
    ZeroedFaults(Store(m, t[p], i, NewNode(f)), Phys(f), level + 1, v);
    MissingBelow(t, PathTo(v, level + 1), Phys(f), level + 1, v);
    assert Walk(m, t[p], level, v) == Fault;
    var n := Missing(t, level + 1, v);
    assert Missing(t, level, v) == 1 + n;
    assert n <= |supply[1..]| ==> supply[1..][n..] == supply[1 + n..];
  }

  /** What the table at `level` should translate the page of a granted request to: the frame asked for,
      writable exactly when asked for, and (because node entries carry WRITABLE only) user accessible
      at the page table alone, never from further up. */
  function Granted(q: Request, level: nat): Translation {
    Mapped(q.pAddr & PAGE_ADDRESS_MASK, 0xfff, Contains(q.flags, VFLAG_WRITABLE),
           level == 3 && Contains(q.flags, VFLAG_USER_MODE), NewPage(q.flags, q.pAddr))
  }

  lemma GrantedByLeaf(m: Memory, l: Loc, q: Request, u: Word)
    requires IndexAt(3, u) == IndexAt(3, q.vAddr)
    ensures Walk(Store(m, l, IndexAt(3, q.vAddr), NewPage(q.flags, q.pAddr)), l, 3, u) == Granted(q, 3)
  {
    hide IndexAt, NewPage, IsPresent, IsWritable, IsUser, Contains, ChildAddr, EntryFlags, Load, Store, Walk;
    WalkStep(Store(m, l, IndexAt(3, q.vAddr), NewPage(q.flags, q.pAddr)), l, 3, u);
    LoadStore(m, l, IndexAt(3, q.vAddr), NewPage(q.flags, q.pAddr), l, IndexAt(3, q.vAddr));
    PageAddress(q.flags, q.pAddr);
    PageRights(q.flags, q.pAddr);
  }

  lemma GrantedThroughNode(m: Memory, l: Loc, level: nat, q: Request, u: Word, child: Loc)
    requires level < 3 && IsNodeTo(Load(m, l, IndexAt(level, u)), child)
    requires Walk(m, child, level + 1, u) == Granted(q, level + 1)
    ensures Walk(m, l, level, u) == Granted(q, level)
  {
  }

  /** What is granted below a node is granted through it, also in the memory at the end of the call. */
  lemma GrantedAbove(m: Memory, r: Index, t: Tree, level: nat, q: Request, supply: seq<Word>, u: Word)
    requires level < 3 && Ready(m, r, t, level + 1, q.vAddr, supply) && PathTo(q.vAddr, level) in t
    requires IndexAt(level, u) == IndexAt(level, q.vAddr)
    requires Walk(MapFrom(m, t[PathTo(q.vAddr, level + 1)], level + 1, q, supply).memory, t[PathTo(q.vAddr, level + 1)],
                  level + 1, u) == Granted(q, level + 1)
    ensures Walk(MapFrom(m, t[PathTo(q.vAddr, level + 1)], level + 1, q, supply).memory, t[PathTo(q.vAddr, level)],
                 level, u) == Granted(q, level)
  {
    hide PathTo, IndexAt, IsNodeTo, Load, IsTree, AllFresh, Walk, MapFrom, GrowFrom, Granted;
    var v := q.vAddr;
    MapKeepsTree(m, r, t, level + 1, q, supply);
    var m', t' := MapFrom(m, t[PathTo(v, level + 1)], level + 1, q, supply).memory, GrowFrom(m, t, level + 1, v, supply);
    PresentStep(m', r, t', level, v);
    GrantedThroughNode(m', t[PathTo(v, level)], level, q, u, t[PathTo(v, level + 1)]);
  }

  /** After a success, every address of the page translates as granted. */
  lemma {:induction false} MapGrants(m: Memory, r: Index, t: Tree, level: nat, q: Request, supply: seq<Word>, u: Word)
    requires Ready(m, r, t, level, q.vAddr, supply) && Page(u) == Page(q.vAddr)
    requires MapFrom(m, t[PathTo(q.vAddr, level)], level, q, supply).result == Ok
    ensures Walk(MapFrom(m, t[PathTo(q.vAddr, level)], level, q, supply).memory, t[PathTo(q.vAddr, level)], level, u)
         == Granted(q, level)
    decreases 4 - level
  {
    hide PathTo, IndexAt, NewNode, NewPage, IsPresent, Load, Store, IsTree, AllFresh, MapFrom, GrowFrom, Level, Walk, Page,
      Granted;
    var v := q.vAddr;
    SamePage(u, v);
    assert IndexAt(level, u) == IndexAt(level, v);
    if level == 3 {
      CallEnds(m, r, t, q, supply);
      GrantedByLeaf(m, t[PathTo(v, 3)], q, u);
    } else if PathTo(v, level + 1) in t {
      CallDescends(m, r, t, level, q, supply);
      MapGrants(m, r, t, level + 1, q, supply, u);
      GrantedAbove(m, r, t, level, q, supply, u);
    } else if !IsPresent(Load(m, t[PathTo(v, level)], IndexAt(level, v))) && supply != [] {
      CallLinks(m, r, t, level, q, supply);
      var (m1, t1) := Linked(m, t, level, v, supply[0]);
      MapGrants(m1, r, t1, level + 1, q, supply[1..], u);
      PathsDiffer(v, level);
      GrantedAbove(m1, r, t1, level, q, supply[1..], u);
    } else {
      CallStops(m, r, t, level, q, supply);
    }
  }

  lemma PathsDiffer(v: Word, level: nat)
    requires level < 3
    ensures PathTo(v, level) != PathTo(v, level + 1)
  {
  }

  /** In particular, the entry that maps the page is the word asked for, bit for bit. */
  lemma MapWritesWord(m: Memory, r: Index, t: Tree, q: Request, supply: seq<Word>, u: Word)
    requires Root in t && Ready(m, r, t, 0, q.vAddr, supply) && Page(u) == Page(q.vAddr)
    requires Map(m, t[Root], r, q, supply).result == Ok
    ensures
      var s := Map(m, t[Root], r, q, supply);
      && Walk(s.memory, t[Root], 0, u).Mapped?
      && Walk(s.memory, t[Root], 0, u).leaf ==
         (q.pAddr & 0x000f_ffff_ffff_f000) | ((q.flags & 0x1f) << 1) | ((q.flags & 0x20) << 3) | 1
  {
    hide IndexAt, IsTree, AllFresh, MapFrom, Walk, Page, Granted;
    assert PathTo(q.vAddr, 0) == Root;
    MapGrants(m, r, t, 0, q, supply, u);
    GrantedWord(q);
  }

  lemma GrantedWord(q: Request)
    ensures Granted(q, 0).Mapped?
    ensures Granted(q, 0).leaf ==
            (q.pAddr & 0x000f_ffff_ffff_f000) | ((q.flags & 0x1f) << 1) | ((q.flags & 0x20) << 3) | 1
  {
    hide NewPage, Contains;
    PageWord(q.flags, q.pAddr);
  }

  /** The entry is one that the walk of `v` uses, from `level` on. */
  ghost predicate IsOnWay(t: Tree, level: nat, v: Word, l: Loc, i: Index) {
    exists k: nat | level <= k < 4 :: PathTo(v, k) in t && l == t[PathTo(v, k)] && i == IndexAt(k, v)
  }

  /** A call changes no entry but absent ones on the way of its address. */
  lemma {:induction false} MapChangesOnlyWay(m: Memory, r: Index, t: Tree, level: nat, q: Request, supply: seq<Word>,
                                             l: Loc, i: Index)
    requires Ready(m, r, t, level, q.vAddr, supply)
    ensures
      var m' := MapFrom(m, t[PathTo(q.vAddr, level)], level, q, supply).memory;
      Load(m', l, i) != Load(m, l, i) ==>
        !IsPresent(Load(m, l, i)) && IsOnWay(GrowFrom(m, t, level, q.vAddr, supply), level, q.vAddr, l, i)
    decreases 4 - level
  {
    hide PathTo, IndexAt, NewNode, NewPage, IsPresent, Load, Store, IsTree, AllFresh, MapFrom, GrowFrom, Level;
    var v := q.vAddr;
    var p, j := PathTo(v, level), IndexAt(level, v);
    if level == 3 {
      CallEnds(m, r, t, q, supply);
      LoadStore(m, t[p], j, NewPage(q.flags, q.pAddr), l, i);
    } else if PathTo(v, level + 1) in t {
      CallDescends(m, r, t, level, q, supply);
      MapChangesOnlyWay(m, r, t, level + 1, q, supply, l, i);
    } else if !IsPresent(Load(m, t[p], j)) && supply != [] {
      CallLinks(m, r, t, level, q, supply);
      var (m1, t1) := Linked(m, t, level, v, supply[0]);
      LoadStore(m, t[p], j, NewNode(supply[0]), l, i);
      MapChangesOnlyWay(m1, r, t1, level + 1, q, supply[1..], l, i);
      PathsDiffer(v, level);
      assert GrowFrom(m, t, level, v, supply)[p] == t[p];
    } else {
      CallStops(m, r, t, level, q, supply);
    }
  }
}
