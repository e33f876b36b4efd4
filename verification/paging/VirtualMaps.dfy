/** `VirtualMap` of bootinfo/src/vaddr/x86_64/virt.rs: the step-by-step code, proved against
    `MapSpec.Map` for both mappers. */
module VirtualMaps {
  import opened Entries
  import opened Addresses
  import opened Hardware
  import opened TableTree
  import opened MapSpec
  import opened Mappers

  /** A mapper together with the physical memory it edits; `memory` is what the machine would read. */
  class VirtualMap {
    var memory: Memory
    const root: Loc
    const mapper: Mapper
    ghost var tree: Tree

    ghost predicate Valid()
      reads this
    {
      && Root in tree && tree[Root] == root
      && StateOf(memory, mapper, tree)
    }

    constructor (memory: Memory, root: Loc, mapper: Mapper, ghost tree: Tree)
      requires Root in tree && tree[Root] == root && StateOf(memory, mapper, tree)
      ensures Valid()
      ensures this.memory == memory && this.root == root && this.mapper == mapper && this.tree == tree
    {
      this.memory := memory;
      this.root := root;
      this.mapper := mapper;
      this.tree := tree;
    }

    /** A load through a table pointer: for a virtual one, of the word the machine translates it to. */
    method ReadEntry(table: TablePtr, i: Index, ghost l: Loc) returns (e: Word)
      requires Lands(memory, root, table, l)
      ensures e == Load(memory, l, i)
    {
      assert EntryLands(memory, root, table, i, l);
      match table
      case Direct(loc) => e := Load(memory, loc, i);
      case Virtual(a) =>
        var address := Walk(memory, root, 0, EntryVAddr(a, i)).Address(EntryVAddr(a, i));
        e := Load(memory, LocAt(address), IndexIn(address));
    }

    method WriteEntry(table: TablePtr, i: Index, e: Word, ghost l: Loc)
      requires Lands(memory, root, table, l)
      modifies this`memory
      ensures memory == Store(old(memory), l, i, e)
    {
      assert EntryLands(memory, root, table, i, l);
      match table
      case Direct(loc) => memory := Store(memory, loc, i, e);
      case Virtual(a) =>
        var address := Walk(memory, root, 0, EntryVAddr(a, i)).Address(EntryVAddr(a, i));
        memory := Store(memory, LocAt(address), IndexIn(address), e);
    }

    /** One of the three table levels of `map`: link a new table if the entry is absent, refuse if it is
        a leaf. `Ok` means that the next level can be entered. */
    method EnsureTable(table: TablePtr, level: nat, q: Request, supply: seq<Word>, ghost goal: Goal)
      returns (refusal: Outcome, rest: seq<Word>)
      requires Valid() && level < 3 && OnCourse(memory, mapper.recursionIndex, tree, level, q, supply, goal)
      requires Lands(memory, root, table, tree[PathTo(q.vAddr, level)])
      modifies this`memory, this`tree
      ensures Valid()
      ensures refusal != Ok ==> goal == Goal(Step(refusal, memory, rest), tree)
      ensures refusal == Ok ==> OnCourse(memory, mapper.recursionIndex, tree, level + 1, q, rest, goal)
    {
      hide IsPresent, IsHuge, LeafAddr, NewNode, Load, Store, IndexAt, IsTree, AllFresh, Level, PathTo, IsNodeTo;
      ghost var v, r := q.vAddr, mapper.recursionIndex;
      ghost var l := tree[PathTo(v, level)];
      rest := supply;
      var i := IndexAt(level, q.vAddr);
      var e := ReadEntry(table, i, l);
      PresentStep(memory, r, tree, level, v);
      if !IsPresent(e) {
        if rest == [] {
          refusal := PageTable;
          return;
        }
        LinkStep(memory, r, tree, level, v, rest);
        LinkKeepsState(memory, mapper, tree, level, v, rest);
        tree := tree[PathTo(v, level + 1) := Phys(rest[0])];
        WriteEntry(table, i, NewNode(rest[0]), l);
        rest := rest[1..];
        refusal := Ok;
      } else if IsLeafAt(level, e) {
        refusal := AlreadyMapped(q.pAddr, q.vAddr, LeafAddr(level, e));
      } else {
        refusal := Ok;
      }
    }

    /** The page-table level of `map`. */
    method SetPage(table: TablePtr, q: Request, ghost supply: seq<Word>, ghost goal: Goal) returns (result: Outcome)
      requires Valid() && OnCourse(memory, mapper.recursionIndex, tree, 3, q, supply, goal)
      requires Lands(memory, root, table, tree[PathTo(q.vAddr, 3)])
      modifies this`memory
      ensures Valid()
      ensures goal == Goal(Step(result, memory, supply), tree)
    {
      hide IndexAt, IsPresent, LeafAddr, NewPage, Load, Store, IsTree, AllFresh, PathTo, Level;
      ghost var l := tree[PathTo(q.vAddr, 3)];
      var i := IndexAt(3, q.vAddr);
      var e := ReadEntry(table, i, l);
      if IsPresent(e) {
        result := AlreadyMapped(q.pAddr, q.vAddr, LeafAddr(3, e));
      } else {
        LeafKeepsState(memory, mapper, tree, q.vAddr, NewPage(q.flags, q.pAddr));
        WriteEntry(table, i, NewPage(q.flags, q.pAddr), l);
        result := Ok;
      }
    }

    /** A table level, entered through the mapper's own accessor. */
    method EnterTable(level: nat, q: Request, supply: seq<Word>, ghost goal: Goal)
      returns (refusal: Outcome, rest: seq<Word>)
      requires Valid() && level < 3 && OnCourse(memory, mapper.recursionIndex, tree, level, q, supply, goal)
      modifies this`memory, this`tree
      ensures Valid()
      ensures refusal != Ok ==> goal == Goal(Step(refusal, memory, rest), tree)
      ensures refusal == Ok ==> OnCourse(memory, mapper.recursionIndex, tree, level + 1, q, rest, goal)
    {
      hide Lands, StateOf, Mapper.Table, Mapper.Reaches, OnCourse, PathTo;
      StateLands(memory, mapper, tree, level, q, supply, goal);
      refusal, rest := EnsureTable(mapper.Table(memory, root, level, q.vAddr), level, q, supply, goal);
    }

    /** `VirtualMap::map`, generic over the mapper: whichever mapper is used, the answer and the tables
        are those of `MapSpec.Map`, which follows child addresses. */
    method Map(q: Request, supply: seq<Word>) returns (result: Outcome, rest: seq<Word>)
      requires Valid() && AllFresh(memory, tree, supply)
      modifies this`memory, this`tree
      ensures Valid()
      ensures Step(result, memory, rest) == MapSpec.Map(old(memory), root, mapper.recursionIndex, q, supply)
      ensures tree == MapTree(old(memory), mapper.recursionIndex, old(tree), q, supply)
    {
      hide IndexAt, AllFresh, PathTo, Lands, StateOf, Mapper.Table, Mapper.Reaches, OnCourse, MapFrom, GrowFrom;
      rest := supply;
      if IndexAt(0, q.vAddr) == mapper.recursionIndex {
        result := Reserved(q.pAddr, q.vAddr);
        return;
      }
      ghost var goal := Goal(MapSpec.Map(memory, root, mapper.recursionIndex, q, supply),
                             MapTree(memory, mapper.recursionIndex, tree, q, supply));
      Start(memory, mapper, tree, q, supply);
      result, rest := EnterTable(0, q, rest, goal);
      if result != Ok {
        return;
      }
      result, rest := EnterTable(1, q, rest, goal);
      if result != Ok {
        return;
      }
      result, rest := EnterTable(2, q, rest, goal);
      if result != Ok {
        return;
      }
      StateLands(memory, mapper, tree, 3, q, rest, goal);
      result := SetPage(mapper.Table(memory, root, 3, q.vAddr), q, rest, goal);
    }
  }

  /** The tables after `MapSpec.Map`. */
  ghost function MapTree(m: Memory, r: Index, t: Tree, q: Request, supply: seq<Word>): Tree
    requires Root in t
  {
    if IndexAt(0, q.vAddr) == r then t else GrowFrom(m, t, 0, q.vAddr, supply)
  }

  /** What a call of `map` has to end with. */
  datatype Goal = Goal(step: Step, tree: Tree)

  /** The rest of the call, from `level` on, leads to the goal. */
  ghost predicate OnCourse(m: Memory, r: Index, t: Tree, level: nat, q: Request, supply: seq<Word>, goal: Goal) {
    && Ready(m, r, t, level, q.vAddr, supply)
    && goal.step == MapFrom(m, t[PathTo(q.vAddr, level)], level, q, supply)
    && goal.tree == GrowFrom(m, t, level, q.vAddr, supply)
  }

  lemma Start(m: Memory, mapper: Mapper, t: Tree, q: Request, supply: seq<Word>)
    requires Root in t && StateOf(m, mapper, t) && AllFresh(m, t, supply)
    requires IndexAt(0, q.vAddr) != mapper.recursionIndex
    ensures OnCourse(m, mapper.recursionIndex, t, 0, q, supply,
                     Goal(MapSpec.Map(m, t[Root], mapper.recursionIndex, q, supply),
                          MapTree(m, mapper.recursionIndex, t, q, supply)))
  {
  }

  lemma StateLands(m: Memory, mapper: Mapper, t: Tree, level: nat, q: Request, supply: seq<Word>, goal: Goal)
    requires Root in t && StateOf(m, mapper, t)
    requires OnCourse(m, mapper.recursionIndex, t, level, q, supply, goal)
    ensures level < 4 && PathTo(q.vAddr, level) in t && mapper.Reaches(m, t[Root], level, q.vAddr)
    ensures Lands(m, t[Root], mapper.Table(m, t[Root], level, q.vAddr), t[PathTo(q.vAddr, level)])
  {
    TableLands(m, mapper.recursionIndex, t, mapper, level, q.vAddr);
  }

  ghost predicate StateOf(m: Memory, mapper: Mapper, t: Tree) {
    if mapper.LocalMapper? then Building(m, mapper.recursionIndex, t) else Recursive(m, mapper.recursionIndex, t)
  }

  /** Linking a table leaves the recursion slot as it was. */
  lemma LinkKeepsState(m: Memory, mapper: Mapper, t: Tree, level: nat, v: Word, supply: seq<Word>)
    requires StateOf(m, mapper, t) && Ready(m, mapper.recursionIndex, t, level, v, supply) && level < 3 && supply != []
    requires !IsPresent(Load(m, t[PathTo(v, level)], IndexAt(level, v)))
    ensures StateOf(Store(m, t[PathTo(v, level)], IndexAt(level, v), NewNode(supply[0])), mapper,
                    t[PathTo(v, level + 1) := Phys(supply[0])])
  {
    hide IsPresent, IsHuge, IsWritable, IsUser, IsBareNode, ChildAddr, NewNode, Load, Store, IndexAt, IsFresh;
    var p, r := PathTo(v, level), mapper.recursionIndex;
    LinkStep(m, r, t, level, v, supply);
    LoadStore(m, t[p], IndexAt(level, v), NewNode(supply[0]), t[Root], r);
  }

  /** Writing a leaf leaves the recursion slot as it was. */
  lemma LeafKeepsState(m: Memory, mapper: Mapper, t: Tree, v: Word, e: Word)
    requires StateOf(m, mapper, t) && PathTo(v, 3) in t
    ensures StateOf(Store(m, t[PathTo(v, 3)], IndexAt(3, v), e), mapper, t)
  {
    hide IsPresent, IsHuge, IsWritable, IsUser, IsBareNode, ChildAddr, Load, Store, IndexAt;
    var r := mapper.recursionIndex;
    LeafKeepsTree(m, r, t, PathTo(v, 3), IndexAt(3, v), e);
    LoadStore(m, t[PathTo(v, 3)], IndexAt(3, v), e, t[Root], r);
  }
}
