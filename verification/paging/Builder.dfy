/** `VirtualMapBuilder`: building tables under a local PML4, then `finish`, which moves the PML4 into a
    frame whose recursion slot refers to itself. */
module Builder {
  import opened Entries
  import opened Addresses
  import opened Hardware
  import opened TableTree
  import opened MapSpec
  import opened Mappers
  import opened VirtualMaps

  /** The memory after `finish` was given frame `f`: the recursion slot set in the local table, and that
      table written over the frame. */
  function FinishMemory(m: Memory, r: Index, f: Word): Memory {
    var m1 := Store(m, Local, r, NewNode(f));
    m1[Phys(f) := m1[Local]]
  }

  lemma FinishLoads(m: Memory, r: Index, f: Word, l: Loc, i: Index)
    ensures Load(FinishMemory(m, r, f), Phys(f), i) == if i == r then NewNode(f) else Load(m, Local, i)
    ensures l != Phys(f) && l != Local ==> Load(FinishMemory(m, r, f), l, i) == Load(m, l, i)
  {
    hide NewNode;
  }

  lemma FinishAgrees(m: Memory, r: Index, t: Tree, f: Word, p: Path, i: Index)
    requires Building(m, r, t) && IsFresh(m, t, f) && p in t && Level(p) < 3 && !IsRecursionSlot(p, i, r)
    ensures EntryAgrees(FinishMemory(m, r, f), t[Root := Phys(f)], p, i)
  {
    hide IsPresent, IsHuge, IsWritable, IsUser, IsBareNode, ChildAddr, NewNode, Load, FinishMemory, IsFrame, IsZeroed;
    FinishLoads(m, r, f, t[p], i);
    assert EntryAgrees(m, t, p, i);
    assert t[p] in t.Values;
  }

  /** `finish` establishes the recursive state: same tables, self-referring PML4. */
  lemma FinishIsRecursive(m: Memory, r: Index, t: Tree, f: Word)
    requires Building(m, r, t) && IsFresh(m, t, f)
    ensures Recursive(FinishMemory(m, r, f), r, t[Root := Phys(f)])
  {
    hide IsPresent, IsHuge, IsWritable, IsUser, IsBareNode, ChildAddr, NewNode, Load, FinishMemory, EntryAgrees, IsFrame, IsZeroed;
    var m', t' := FinishMemory(m, r, f), t[Root := Phys(f)];
    NodeRoundTrip(f);
    FinishLoads(m, r, f, Local, r);
    forall p, i: Index | p in t' && Level(p) < 3 && !IsRecursionSlot(p, i, r)
      ensures EntryAgrees(m', t', p, i)
    {
      FinishAgrees(m, r, t, f, p, i);
    }
    assert forall p | p in t && p != Root :: t[p] in t.Values;
  }

  /** `finish` preserves every translation outside the recursion slot. */
  lemma {:induction false} FinishKeepsWalk(m: Memory, r: Index, t: Tree, f: Word, p: Path, u: Word)
    requires Building(m, r, t) && IsFresh(m, t, f)
    requires p in t && !IsRecursionSlot(p, IndexAt(Level(p), u), r)
    ensures Walk(FinishMemory(m, r, f), t[Root := Phys(f)][p], Level(p), u) == Walk(m, t[p], Level(p), u)
    decreases 4 - Level(p)
  {
    hide IsPresent, IsHuge, IsWritable, IsUser, IsBareNode, NewNode, Load, FinishMemory, IndexAt, ChildAddr, Walk;
    var i := IndexAt(Level(p), u);
    assert t[p] in t.Values;
    FinishLoads(m, r, f, t[p], i);
    if Level(p) < 3 {
      assert EntryAgrees(m, t, p, i);
      if Sub(p, i) in t {
        FinishKeepsWalk(m, r, t, f, Sub(p, i), u);
      }
    }
    WalkCongruence(m, t[p], FinishMemory(m, r, f), t[Root := Phys(f)][p], Level(p), u);
  }

  datatype FinishResult = Finished(pml4: Word, virtualMap: VirtualMap) | FinishFailed(error: Outcome)

  /** The state of a new builder. */
  lemma EmptyBuilding(m: Memory, r: Index)
    ensures Building(m[Local := map[]], r, map[Root := Local])
    ensures IsZeroed(m[Local := map[]], Local)
  {
  }

  class VirtualMapBuilder {
    const inner: VirtualMap

    ghost predicate Valid()
      reads this, inner
    {
      inner.Valid() && inner.mapper.LocalMapper?
    }

    /** An all-zero local PML4 beside whatever physical memory holds: nothing is translated yet. */
    constructor (recursionIndex: Index, memory: Memory)
      ensures Valid() && fresh(inner)
      ensures inner.mapper == LocalMapper(recursionIndex) && inner.root == Local
      ensures inner.memory == memory[Local := map[]] && inner.tree == map[Root := Local]
      ensures forall u :: Walk(inner.memory, Local, 0, u) == Fault
    {
      EmptyBuilding(memory, recursionIndex);
      inner := new VirtualMap(memory[Local := map[]], Local, LocalMapper(recursionIndex), map[Root := Local]);
      new;
      forall u ensures Walk(inner.memory, Local, 0, u) == Fault {
        ZeroedFaults(inner.memory, Local, 0, u);
      }
    }

    method Map(q: Request, supply: seq<Word>) returns (result: Outcome, rest: seq<Word>)
      requires Valid() && AllFresh(inner.memory, inner.tree, supply)
      modifies inner`memory, inner`tree
      ensures Valid()
      ensures Step(result, inner.memory, rest)
           == MapSpec.Map(old(inner.memory), inner.root, inner.mapper.recursionIndex, q, supply)
      ensures inner.tree == MapTree(old(inner.memory), inner.mapper.recursionIndex, old(inner.tree), q, supply)
    {
      result, rest := inner.Map(q, supply);
    }

    /** `finish`: fails only for want of a frame; the slot check can never fire, because `map` refuses
        every address of the recursion slot. */
    method Finish(supply: seq<Word>) returns (result: FinishResult, rest: seq<Word>)
      requires Valid() && AllFresh(inner.memory, inner.tree, supply)
      ensures supply == [] ==> result == FinishFailed(PageTable)
      ensures supply != [] ==>
                && result.Finished? && result.pml4 == supply[0] && rest == supply[1..]
                && fresh(result.virtualMap) && result.virtualMap.Valid()
                && result.virtualMap.mapper == RecursiveMapper(inner.mapper.recursionIndex)
                && result.virtualMap.root == Phys(supply[0])
                && result.virtualMap.memory == FinishMemory(inner.memory, inner.mapper.recursionIndex, supply[0])
                && result.virtualMap.tree == inner.tree[Root := Phys(supply[0])]
      ensures supply != [] ==>
                forall u | IndexAt(0, u) != inner.mapper.recursionIndex ::
                  Walk(result.virtualMap.memory, result.virtualMap.root, 0, u) == Walk(inner.memory, Local, 0, u)
    {
      rest := supply;
      if rest == [] {
        return FinishFailed(PageTable), rest;
      }
      var f, r := rest[0], inner.mapper.recursionIndex;
      rest := rest[1..];
      var local := inner.memory;
      ghost var t := inner.tree;
      assert IsFresh(local, t, f);
      if IsPresent(Load(local, Local, r)) {
        assert false;
      }
      local := Store(local, Local, r, NewNode(f));
      local := local[Phys(f) := local[Local]];
      FinishIsRecursive(inner.memory, r, t, f);
      forall u | IndexAt(0, u) != r
        ensures Walk(local, Phys(f), 0, u) == Walk(inner.memory, Local, 0, u)
      {
        FinishKeepsWalk(inner.memory, r, t, f, Root, u);
      }
      var finished := new VirtualMap(local, Phys(f), RecursiveMapper(r), t[Root := Phys(f)]);
      result := Finished(f, finished);
    }
  }
}
