/** What the buddy allocator promises over whole runs of `alloc` and `free`. */
module BuddyRuns {
  import opened Common
  import opened BuddySpec

  /** The least power of two that is at least `pages`. */
  function RoundUp(pages: nat): (r: nat)
    requires pages > 0
    ensures IsPow2(r) && r / 2 < pages <= r
  {
    if pages == 1 then 1 else 2 * RoundUp((pages + 1) / 2)
  }

  lemma RoundUpIsLeast(pages: nat, z: nat)
    requires 0 < pages <= z && IsPow2(z)
    ensures RoundUp(pages) <= z
  {
    if z < RoundUp(pages) {
      Pow2AtMostHalf(z, RoundUp(pages));
    }
  }

  /** A block handed out has exactly the rounded-up size. */
  lemma AllocRoundsUp(t: Tree, size: nat, pages: nat)
    requires Fits(t, size) && Alloc(t, size, pages).Some?
    ensures Alloc(t, size, pages).value.block.size == RoundUp(pages)
  {
    AllocAdds(t, size, pages);
    var z := Alloc(t, size, pages).value.block.size;
    RoundUpIsLeast(pages, z);
    if RoundUp(pages) < z {
      Pow2AtMostHalf(RoundUp(pages), z);
    }
  }

  ghost predicate IsFreeAlignedRun(t: Tree, size: nat, run: Block) {
    IsAligned(run) && Within(run, size, 0) && IsFreeRun(t, size, 0, run)
  }

  /** Completeness: `alloc` fails exactly when no aligned run of the rounded-up size is free. */
  lemma AllocFailsExactly(t: Tree, size: nat, pages: nat)
    requires Fits(t, size) && IsCanonical(t) && size < USIZE_MAX && pages > 0
    ensures Alloc(t, size, pages).None? <==>
            !exists run: Block | run.size == RoundUp(pages) :: IsFreeAlignedRun(t, size, run)
  {
    BestFit(t, size, 0, pages, USIZE_MAX);
    if run: Block :| run.size == RoundUp(pages) && IsFreeAlignedRun(t, size, run) {
      FreeRunInLeaf(t, size, 0, run);
      LeavesWithin(t, size, 0);
    }
    if Alloc(t, size, pages).Some? {
      RunInFreeLeaf(t, size, Fit(t, size, 0, pages, USIZE_MAX).value, RoundUp(pages), pages);
    }
  }

  /** The front of a large enough free leaf is a free aligned run. */
  lemma RunInFreeLeaf(t: Tree, size: nat, leaf: Block, z: nat, pages: nat)
    requires Fits(t, size) && leaf in FreeLeaves(t, size, 0) && 0 < pages <= leaf.size && z == RoundUp(pages)
    ensures IsFreeAlignedRun(t, size, Block(leaf.start, z))
  {
    var run := Block(leaf.start, z);
    LeavesWithin(t, size, 0);
    LeavesAligned(t, size, 0);
    RoundUpIsLeast(pages, leaf.size);
    Pow2Divides(z, leaf.size);
    DividesThrough(z, leaf.size, leaf.start);
    forall page: nat, b | Covers(run, page) && b in Blocks(t, size, 0) ensures !Covers(b, page) {
      LeavesDisjoint(t, size, 0, leaf, b);
    }
  }

  // ----- Runs

  datatype Op = AllocOp(pages: nat) | FreeOp(page: nat)

  datatype Answer = Granted(block: Block) | NoBlock | Freed | Refused

  function Apply(t: Tree, size: nat, op: Op): (Tree, Answer) {
    match op
    case AllocOp(pages) =>
      (match Alloc(t, size, pages)
       case None => (t, NoBlock)
       case Some(a) => (a.tree, Granted(a.block)))
    case FreeOp(page) =>
      match Free(t, size, 0, page)
      case None => (t, Refused)
      case Some(t') => (t', Freed)
  }

  /** The client's view: the blocks it holds. */
  function Held(live: set<Block>, op: Op, answer: Answer): set<Block> {
    match answer
    case Granted(b) => live + {b}
    case Freed => if op.FreeOp? then set b | b in live && b.start != op.page else live
    case _ => live
  }

  /** The run could be a block: aligned, inside the region, and apart from all that is held. */
  predicate IsClear(live: set<Block>, size: nat, run: Block) {
    IsAligned(run) && Within(run, size, 0) && forall l | l in live :: Disjoint(run, l)
  }

  /** The answer a client that holds `live` may get: no block exactly when none could be given. */
  ghost predicate Honest(live: set<Block>, size: nat, op: Op, answer: Answer) {
    match op
    case AllocOp(pages) =>
      (match answer
       case Granted(b) =>
         0 < pages && b.size == RoundUp(pages) && IsClear(live, size, b)
       case NoBlock =>
         pages == 0 || !exists run: Block | run.size == RoundUp(pages) :: IsClear(live, size, run)
       case _ => false)
    case FreeOp(page) =>
      if exists b :: b in live && b.start == page then answer == Freed else answer == Refused
  }

  /** What every state of every run satisfies. */
  predicate Sound(t: Tree, size: nat, live: set<Block>) {
    && Fits(t, size) && size < USIZE_MAX && IsCanonical(t) && Blocks(t, size, 0) == live
    && (forall b | b in live :: IsAligned(b) && Within(b, size, 0))
    && (forall a, b | a in live && b in live && a != b :: Disjoint(a, b))
  }

  lemma StartsSound(size: nat)
    requires IsPow2(size) && size < USIZE_MAX
    ensures Sound(FREE, size, {})
  {
  }

  lemma ClearIsFree(t: Tree, size: nat, run: Block)
    requires IsClear(Blocks(t, size, 0), size, run)
    ensures IsFreeAlignedRun(t, size, run)
  {
  }

  lemma AllocSound(t: Tree, size: nat, pages: nat, live: set<Block>)
    requires Sound(t, size, live)
    ensures
      var (t', answer) := Apply(t, size, AllocOp(pages));
      Honest(live, size, AllocOp(pages), answer) && Sound(t', size, Held(live, AllocOp(pages), answer))
  {
    hide Fits, IsCanonical, Alloc, IsAligned, Within, Disjoint, IsFreeAlignedRun;
    if Alloc(t, size, pages).Some? {
      AllocIsSome(t, size, pages);
      AllocAdds(t, size, pages);
      AllocRoundsUp(t, size, pages);
      DisjointEitherWay();
    } else if pages > 0 {
      AllocFailsExactly(t, size, pages);
      forall run: Block | run.size == RoundUp(pages) ensures !IsClear(live, size, run) {
        if IsClear(live, size, run) {
          ClearIsFree(t, size, run);
        }
      }
    }
  }

  lemma AllocIsSome(t: Tree, size: nat, pages: nat)
    requires Alloc(t, size, pages).Some?
    ensures pages > 0
  {
  }

  lemma DisjointEitherWay()
    ensures forall a, b :: Disjoint(a, b) <==> Disjoint(b, a)
  {
  }

  lemma FreeSound(t: Tree, size: nat, page: nat, live: set<Block>)
    requires Sound(t, size, live)
    ensures
      var (t', answer) := Apply(t, size, FreeOp(page));
      Honest(live, size, FreeOp(page), answer) && Sound(t', size, Held(live, FreeOp(page), answer))
  {
    hide Fits, IsCanonical, Free, IsAligned, Within;
    var (t', answer) := Apply(t, size, FreeOp(page));
    FreeRemoves(t, size, 0, page);
    if answer.Freed? {
      var b :| b in live && b.start == page && Blocks(t', size, 0) == live - {b};
      StartsOnce(t, size, live, b);
      assert Held(live, FreeOp(page), answer) == live - {b};
    }
  }

  lemma StartsOnce(t: Tree, size: nat, live: set<Block>, b: Block)
    requires Sound(t, size, live) && b in live
    ensures forall l | l in live && l.start == b.start :: l == b
  {
    LeavesWithin(t, size, 0);
  }

  /** One operation: an honest answer, and the state stays sound with the blocks the client now holds. */
  lemma ApplySound(t: Tree, size: nat, op: Op, live: set<Block>)
    requires Sound(t, size, live)
    ensures var (t', answer) := Apply(t, size, op);
            Honest(live, size, op, answer) && Sound(t', size, Held(live, op, answer))
  {
    hide Sound, Honest, Held, Apply;
    match op
    case AllocOp(pages) => AllocSound(t, size, pages, live);
    case FreeOp(page) => FreeSound(t, size, page, live);
  }

  function RunOps(t: Tree, size: nat, ops: seq<Op>): (Tree, seq<Answer>)
    decreases |ops|
  {
    if ops == [] then (t, [])
    else
      var (t1, answer) := Apply(t, size, ops[0]);
      var (t2, answers) := RunOps(t1, size, ops[1..]);
      (t2, [answer] + answers)
  }

  ghost predicate HonestRun(live: set<Block>, size: nat, ops: seq<Op>, answers: seq<Answer>)
    decreases |ops|
  {
    |answers| == |ops| &&
    (ops == [] ||
     (Honest(live, size, ops[0], answers[0]) &&
      HonestRun(Held(live, ops[0], answers[0]), size, ops[1..], answers[1..])))
  }

  function HeldAfter(live: set<Block>, ops: seq<Op>, answers: seq<Answer>): set<Block>
    requires |answers| == |ops|
    decreases |ops|
  {
    if ops == [] then live else HeldAfter(Held(live, ops[0], answers[0]), ops[1..], answers[1..])
  }

  /** Safety over every run: all answers are honest, and in the end the tree knows exactly the blocks
      the client holds, pairwise disjoint, aligned and inside the region. */
  lemma {:induction false} RunsAreSound(t: Tree, size: nat, ops: seq<Op>, live: set<Block>)
    requires Sound(t, size, live)
    ensures var (t', answers) := RunOps(t, size, ops);
            && HonestRun(live, size, ops, answers)
            && Sound(t', size, HeldAfter(live, ops, answers))
    decreases |ops|
  {
    hide Sound, Honest, Held;
    if ops != [] {
      var (t1, answer) := Apply(t, size, ops[0]);
      ApplySound(t, size, ops[0], live);
      RunsAreSound(t1, size, ops[1..], Held(live, ops[0], answer));
      var (t2, answers) := RunOps(t, size, ops);
      assert answers[1..] == RunOps(t1, size, ops[1..]).1;
    }
  }

  /** Every run of a new allocator: honest answers only, and in the end exactly the client's blocks are live. */
  lemma RunsOfNewAreSound(size: nat, ops: seq<Op>)
    requires IsPow2(size) && size < USIZE_MAX
    ensures var (t, answers) := RunOps(FREE, size, ops);
            && HonestRun({}, size, ops, answers)
            && Sound(t, size, HeldAfter({}, ops, answers))
  {
    hide Sound, HonestRun, RunOps, HeldAfter;
    StartsSound(size);
    RunsAreSound(FREE, size, ops, {});
  }

  /** Freeing one page after the other; `None` as soon as one is refused. */
  function FreeEach(t: Tree, size: nat, pages: seq<nat>): Option<Tree>
    decreases |pages|
  {
    if pages == [] then Some(t)
    else
      match Free(t, size, 0, pages[0])
      case None => None
      case Some(t') => FreeEach(t', size, pages[1..])
  }

  /** `pages` lists the starts of the live blocks, in any order and each once. */
  predicate Lists(pages: seq<nat>, live: set<Block>) {
    && (forall i, j | 0 <= i < j < |pages| :: pages[i] != pages[j])
    && (forall page | page in pages :: exists b :: b in live && b.start == page)
    && (forall b | b in live :: b.start in pages)
  }

  /** Freeing all live blocks, in any order, succeeds and returns to the single free root. */
  lemma {:induction false} FreeAll(t: Tree, size: nat, live: set<Block>, pages: seq<nat>)
    requires Sound(t, size, live) && Lists(pages, live)
    ensures FreeEach(t, size, pages) == Some(FREE)
    decreases |pages|
  {
    if pages == [] {
      assert live == {};
      EmptyIsFree(t, size, 0);
    } else {
      var op := FreeOp(pages[0]);
      ApplySound(t, size, op, live);
      var (t', answer) := Apply(t, size, op);
      assert pages[0] in pages;
      ListsRest(pages, live);
      FreeAll(t', size, Held(live, op, answer), pages[1..]);
    }
  }

  lemma ListsRest(pages: seq<nat>, live: set<Block>)
    requires pages != [] && Lists(pages, live)
    ensures Lists(pages[1..], Held(live, FreeOp(pages[0]), Freed))
  {
    var live' := Held(live, FreeOp(pages[0]), Freed);
    forall page | page in pages[1..] ensures exists b :: b in live' && b.start == page {
      assert page in pages;
      var b :| b in live && b.start == page;
      assert b in live';
    }
  }
}
