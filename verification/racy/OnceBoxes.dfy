/** `OnceBox` of std/sys-src/sync/once_box.rs: any number of threads call `get_or_init` on one box, in any
    interleaving of their atomic steps, beside other users of the allocator; the owner calls `take` (or
    drops the box) between such episodes. */
module OnceBoxes {
  import opened Ownership

  /** An address the allocator hands out; it may hand it out again after it was freed. */
  type Addr = nat

  const NULL: Addr := 0

  /** Where a thread is in `get_or_init` and `initialize`. */
  datatype Pc =
    | Ready                          // about to load the pointer
    | Allocating                     // saw null: about to run `f`
    | Publishing(box: Addr)          // about to compare-exchange
    | Losing(box: Addr, winner: Addr)  // the exchange failed: about to drop its own box
    | Done(result: Addr)             // holds a reference to the result

  /** `cell` is the atomic pointer; `live` the boxes that exist, of which `foreign` belong to others. The
      other three are the history of this `OnceBox`: every allocation made for it, every box dropped by a
      losing thread and every box handed out by `take`. */
  datatype State = State(cell: Addr, live: set<Addr>, foreign: set<Addr>, pcs: seq<Pc>,
                         created: multiset<Addr>, dropped: multiset<Addr>, taken: multiset<Addr>)

  predicate Init(s: State) {
    && s.cell == NULL && s.live == s.foreign && (forall i | 0 <= i < |s.pcs| :: s.pcs[i] == Ready)
    && s.created == s.dropped == s.taken == multiset{}
  }

  function At(s: State, i: nat, pc: Pc): State
    requires i < |s.pcs|
  {
    s.(pcs := s.pcs[i := pc])
  }

  /** One atomic step of thread `i`. The allocator answers some `b`, not null, that is not in use. */
  predicate ThreadStep(s: State, s': State, i: nat, b: Addr)
    requires i < |s.pcs|
  {
    match s.pcs[i]
    case Ready =>
      s' == At(s, i, if s.cell != NULL then Done(s.cell) else Allocating)
    case Allocating =>
      && b !in s.live && b != NULL
      && s' == At(s, i, Publishing(b)).(live := s.live + {b}, created := s.created + multiset{b})
    case Publishing(box) =>
      s' == if s.cell == NULL then At(s, i, Done(box)).(cell := box) else At(s, i, Losing(box, s.cell))
    case Losing(box, winner) =>
      s' == At(s, i, Done(winner)).(live := s.live - {box}, dropped := s.dropped + multiset{box})
    case Done(_) => false
  }

  /** `take` has exclusive access: no call is under way and no reference that a call returned is still
      held. The caller owns the box from then on. */
  predicate TakeStep(s: State, s': State) {
    && (forall i | 0 <= i < |s.pcs| :: s.pcs[i].Ready? || s.pcs[i].Done?)
    && s' == s.(cell := NULL, foreign := s.foreign + Published(s), taken := s.taken + multiset(Published(s)),
                pcs := seq(|s.pcs|, _ => Ready))
  }

  /** Another user of the allocator allocates a box, or frees one of its own. */
  predicate OtherStep(s: State, s': State, b: Addr) {
    || (b !in s.live && b != NULL && s' == s.(live := s.live + {b}, foreign := s.foreign + {b}))
    || (b in s.foreign && s' == s.(live := s.live - {b}, foreign := s.foreign - {b}))
  }

  ghost predicate Next(s: State, s': State) {
    || (exists i: nat, b: Addr | i < |s.pcs| :: ThreadStep(s, s', i, b))
    || TakeStep(s, s')
    || (exists b: Addr :: OtherStep(s, s', b))
  }

  /** The box a thread has made and not yet published or dropped. */
  function Owned(pc: Pc): set<Addr> {
    match pc
    case Publishing(box) => {box}
    case Losing(box, _) => {box}
    case _ => {}
  }

  function AllOwned(pcs: seq<Pc>): seq<set<Addr>> {
    seq(|pcs|, i requires 0 <= i < |pcs| => Owned(pcs[i]))
  }

  function Published(s: State): set<Addr> {
    if s.cell == NULL then {} else {s.cell}
  }

  predicate PcInv(s: State, pc: Pc) {
    match pc
    case Publishing(box) => box != NULL
    case Losing(box, winner) => box != NULL && winner == s.cell != NULL
    case Done(result) => result == s.cell != NULL
    case _ => true
  }

  ghost predicate Owners(s: State) {
    && OneOwner(s.live, s.foreign, Published(s), AllOwned(s.pcs))
    && forall i | 0 <= i < |s.pcs| :: PcInv(s, s.pcs[i])
  }

  /** The books balance: what was made was dropped, taken, or is still with the threads and the cell. */
  ghost predicate Balanced(s: State) {
    s.created == s.dropped + s.taken + multiset(s.live - s.foreign)
  }

  ghost predicate Inv(s: State) {
    Owners(s) && Balanced(s)
  }

  lemma InitInv(s: State)
    requires Init(s)
    ensures Inv(s)
  {
  }

  lemma ThreadStepOwners(s: State, s': State, i: nat, b: Addr)
    requires Owners(s) && i < |s.pcs| && ThreadStep(s, s', i, b)
    ensures Owners(s')
  {
    var pc := s'.pcs[i];
    var owned := AllOwned(s.pcs);
    assert owned[i] == Owned(s.pcs[i]) <= s.live - Published(s) && Published(s) <= s.live;
    hide OneOwner;
    assert s'.live == s.live - owned[i] - Published(s) + Owned(pc) + Published(s');
    Exchange(s.live, s.foreign, Published(s), owned, i, Published(s'), Owned(pc));
    assert AllOwned(s'.pcs) == owned[i := Owned(pc)];
  }

  lemma MadeBalanced(s: State, s': State, b: Addr)
    requires Balanced(s) && b !in s.live && s.foreign <= s.live
    requires s' == s.(pcs := s'.pcs, live := s.live + {b}, created := s.created + multiset{b})
    ensures Balanced(s')
  {
    assert s'.live - s'.foreign == s.live - s.foreign + {b};
  }

  lemma DroppedBalanced(s: State, s': State, b: Addr)
    requires Balanced(s) && b in s.live && b !in s.foreign
    requires s' == s.(pcs := s'.pcs, live := s.live - {b}, dropped := s.dropped + multiset{b})
    ensures Balanced(s')
  {
    assert s'.live - s'.foreign == s.live - s.foreign - {b};
  }

  lemma ThreadOwns(s: State, i: nat)
    requires Owners(s) && i < |s.pcs|
    ensures s.foreign <= s.live && Owned(s.pcs[i]) <= s.live - s.foreign
  {
    assert AllOwned(s.pcs)[i] == Owned(s.pcs[i]);
  }

  lemma ThreadStepBalanced(s: State, s': State, i: nat, b: Addr)
    requires Inv(s) && i < |s.pcs| && ThreadStep(s, s', i, b)
    ensures Balanced(s')
  {
    hide Owners, Balanced;
    ThreadOwns(s, i);
    match s.pcs[i] {
      case Allocating => MadeBalanced(s, s', b);
      case Losing(box, _) => DroppedBalanced(s, s', box);
      case _ => SameBalanced(s, s');
    }
  }

  lemma SameBalanced(s: State, s': State)
    requires Balanced(s) && s'.live - s'.foreign == s.live - s.foreign
    requires s'.created == s.created && s'.dropped == s.dropped && s'.taken == s.taken
    ensures Balanced(s')
  {
  }

  lemma TakeStepInv(s: State, s': State)
    requires Inv(s) && TakeStep(s, s')
    ensures Inv(s')
  {
    forall i | 0 <= i < |s.pcs| ensures Owned(s.pcs[i]) == {} {
      assert s.pcs[i].Ready? || s.pcs[i].Done?;
    }
    NoneOwned(s.live, s.foreign, Published(s), AllOwned(s.pcs));
    assert s'.live - s'.foreign == {};
  }

  lemma OtherStepOwners(s: State, s': State, b: Addr)
    requires Owners(s) && OtherStep(s, s', b)
    ensures Owners(s') && s'.live - s'.foreign == s.live - s.foreign
  {
    Outsiders(s.live, s.foreign, Published(s), AllOwned(s.pcs), b);
    assert s.foreign <= s.live;
  }

  lemma OtherStepInv(s: State, s': State, b: Addr)
    requires Inv(s) && OtherStep(s, s', b)
    ensures Inv(s')
  {
    hide Owners, Balanced;
    OtherStepOwners(s, s', b);
    SameBalanced(s, s');
  }

  lemma NextInv(s: State, s': State)
    requires Inv(s) && Next(s, s')
    ensures Inv(s')
  {
    hide Owners, Balanced;
    if TakeStep(s, s') {
      TakeStepInv(s, s');
    } else if i: nat, b: Addr :| i < |s.pcs| && ThreadStep(s, s', i, b) {
      ThreadStepOwners(s, s', i, b);
      ThreadStepBalanced(s, s', i, b);
    } else {
      var b: Addr :| OtherStep(s, s', b);
      OtherStepInv(s, s', b);
    }
  }

  lemma NextStable(s: State, s': State)
    requires Next(s, s')
    ensures |s'.pcs| == |s.pcs|
    ensures s.taken <= s'.taken
    ensures s.cell != NULL && s'.taken == s.taken ==> s'.cell == s.cell
  {
  }

  // ----- Every interleaving

  ghost predicate IsRun(run: seq<State>) {
    run != [] && Init(run[0]) && forall n | 0 <= n < |run| - 1 :: Next(run[n], run[n + 1])
  }

  lemma {:induction false} RunInv(run: seq<State>, n: nat)
    requires IsRun(run) && n < |run|
    ensures Inv(run[n]) && |run[n].pcs| == |run[0].pcs|
  {
    if n == 0 {
      InitInv(run[0]);
    } else {
      RunInv(run, n - 1);
      NextInv(run[n - 1], run[n]);
      NextStable(run[n - 1], run[n]);
    }
  }

  lemma Squeezed(a: multiset<Addr>, b: multiset<Addr>, c: multiset<Addr>)
    requires a <= b <= c
    ensures a <= c && (a == c ==> a == b == c)
  {
  }

  lemma RunStep(run: seq<State>, n: nat)
    requires IsRun(run) && n < |run| - 1
    ensures Next(run[n], run[n + 1])
  {
    hide Next, Init;
  }

  /** As long as nothing is taken out, the pointer stays as it was set. */
  lemma {:induction false} PointerIsStable(run: seq<State>, m: nat, n: nat)
    requires IsRun(run) && m <= n < |run| && run[m].cell != NULL
    ensures run[m].taken <= run[n].taken
    ensures run[m].taken == run[n].taken ==> run[n].cell == run[m].cell
  {
    hide Next, IsRun;
    if m < n {
      PointerIsStable(run, m, n - 1);
      RunStep(run, n - 1);
      NextStable(run[n - 1], run[n]);
      Squeezed(run[m].taken, run[n - 1].taken, run[n].taken);
    }
  }

  /** Agreement: all calls that finish without a `take` between them return one and the same box, which
      exists for as long as it is not taken. */
  lemma Agreement(run: seq<State>, m: nat, i: nat, n: nat, j: nat)
    requires IsRun(run) && m <= n < |run| && run[m].taken == run[n].taken
    requires i < |run[m].pcs| && j < |run[n].pcs| && run[m].pcs[i].Done?
    ensures run[m].pcs[i].result in run[n].live - run[n].foreign
    ensures run[n].pcs[j].Done? ==> run[n].pcs[j].result == run[m].pcs[i].result
  {
    RunInv(run, m);
    RunInv(run, n);
    PointerIsStable(run, m, n);
    assert run[n].cell in Published(run[n]);
  }

  /** A drop by a losing thread frees a box that exists, that nobody else holds and that no call returns. */
  lemma DropsAreSafe(run: seq<State>, n: nat, i: nat, j: nat)
    requires IsRun(run) && n < |run| && i < |run[n].pcs| && j < |run[n].pcs|
    requires run[n].pcs[i].Losing?
    ensures
      var box := run[n].pcs[i].box;
      && box in run[n].live - run[n].foreign && box != run[n].cell && box != run[n].pcs[i].winner
      && (run[n].pcs[j].Done? ==> run[n].pcs[j].result != box)
      && (j != i ==> box !in Owned(run[n].pcs[j]))
  {
    RunInv(run, n);
    var owned := AllOwned(run[n].pcs);
    assert owned[i] == {run[n].pcs[i].box} && owned[j] == Owned(run[n].pcs[j]);
    assert PcInv(run[n], run[n].pcs[i]) && PcInv(run[n], run[n].pcs[j]);
  }

  /** Each loser's box is freed exactly once: when no call is under way, every box made was dropped by a
      losing thread, was taken, or is the one in the cell, each as often as it was made. */
  lemma BooksBalance(run: seq<State>, n: nat)
    requires IsRun(run) && n < |run|
    requires forall i | 0 <= i < |run[n].pcs| :: run[n].pcs[i].Ready? || run[n].pcs[i].Done?
    ensures run[n].created == run[n].dropped + run[n].taken + multiset(Published(run[n]))
    ensures |run[n].created| == |run[n].dropped| + |run[n].taken| + (if run[n].cell == NULL then 0 else 1)
  {
    RunInv(run, n);
    var s := run[n];
    forall i | 0 <= i < |s.pcs| ensures Owned(s.pcs[i]) == {} {
      assert s.pcs[i].Ready? || s.pcs[i].Done?;
    }
    NoneOwned(s.live, s.foreign, Published(s), AllOwned(s.pcs));
  }

  /** A call that begins when the box is set makes none: as long as nothing is taken out it returns that box. */
  lemma {:induction false} LateCallsReuse(run: seq<State>, m: nat, n: nat, i: nat)
    requires IsRun(run) && m <= n < |run| && i < |run[m].pcs| && run[m].taken == run[n].taken
    requires run[m].cell != NULL && run[m].pcs[i].Ready?
    ensures i < |run[n].pcs| && (run[n].pcs[i] == Ready || run[n].pcs[i] == Done(run[m].cell))
  {
    hide Next;
    if m < n {
      PointerIsStable(run, m, n - 1);
      RunStep(run, n - 1);
      NextStable(run[n - 1], run[n]);
      Squeezed(run[m].taken, run[n - 1].taken, run[n].taken);
      LateCallsReuse(run, m, n - 1, i);
      LateStep(run[n - 1], run[n], i);
    }
  }

  lemma LateStep(s: State, s': State, i: nat)
    requires Next(s, s') && i < |s.pcs| && s.cell != NULL && s'.taken == s.taken
    requires s.pcs[i] == Ready || s.pcs[i] == Done(s.cell)
    ensures i < |s'.pcs| && (s'.pcs[i] == Ready || s'.pcs[i] == Done(s.cell))
  {
    hide TakeStep, ThreadStep, OtherStep;
    if TakeStep(s, s') {
      LateTake(s, s', i);
    } else if j: nat, b: Addr :| j < |s.pcs| && ThreadStep(s, s', j, b) {
      LateThreadStep(s, s', i, j, b);
    } else {
      var b: Addr :| OtherStep(s, s', b);
      OtherKeepsThreads(s, s', b);
    }
  }

  lemma LateTake(s: State, s': State, i: nat)
    requires TakeStep(s, s') && i < |s.pcs|
    ensures i < |s'.pcs| && s'.pcs[i] == Ready
  {
  }

  lemma LateThreadStep(s: State, s': State, i: nat, j: nat, b: Addr)
    requires j < |s.pcs| && ThreadStep(s, s', j, b) && i < |s.pcs| && s.cell != NULL
    requires s.pcs[i] == Ready || s.pcs[i] == Done(s.cell)
    ensures i < |s'.pcs| && (s'.pcs[i] == Ready || s'.pcs[i] == Done(s.cell))
  {
  }

  lemma OtherKeepsThreads(s: State, s': State, b: Addr)
    requires OtherStep(s, s', b)
    ensures s'.pcs == s.pcs
  {
  }

  /** `take` hands out what is in the box and leaves it empty. */
  lemma TakeEmpties(s: State, s': State)
    requires Inv(s) && TakeStep(s, s')
    ensures s'.cell == NULL && s'.live == s.live
    ensures s.cell != NULL ==> s'.taken == s.taken + multiset{s.cell} && s.cell in s'.foreign
    ensures s.cell == NULL ==> s'.taken == s.taken && s'.foreign == s.foreign
  {
    hide Inv;
    assert s.cell != NULL ==> multiset({s.cell}) == multiset{s.cell};
  }

  // ----- Progress

  /** How many steps a call still has to take at most. */
  function Remaining(pc: Pc): nat {
    match pc
    case Ready => 4
    case Allocating => 3
    case Publishing(_) => 2
    case Losing(_, _) => 1
    case Done(_) => 0
  }

  function TotalRemaining(pcs: seq<Pc>): nat {
    if pcs == [] then 0 else Remaining(pcs[0]) + TotalRemaining(pcs[1..])
  }

  lemma {:induction false} UpdateRemaining(pcs: seq<Pc>, i: nat, pc: Pc)
    requires i < |pcs|
    ensures TotalRemaining(pcs[i := pc]) == TotalRemaining(pcs) - Remaining(pcs[i]) + Remaining(pc)
  {
    if i > 0 {
      UpdateRemaining(pcs[1..], i - 1, pc);
      assert pcs[i := pc][1..] == pcs[1..][i - 1 := pc];
    } else {
      assert pcs[i := pc][1..] == pcs[1..];
    }
  }

  /** Every call that is not finished can take its next step if the allocator has an address left to give, and
      every step of a thread brings the end nearer: no interleaving blocks and none goes on for ever. */
  lemma Progress(s: State, i: nat, b: Addr)
    requires i < |s.pcs| && b !in s.live && b != NULL
    ensures !s.pcs[i].Done? ==> exists s' :: ThreadStep(s, s', i, b)
    ensures forall s' | ThreadStep(s, s', i, b) :: TotalRemaining(s'.pcs) < TotalRemaining(s.pcs)
  {
    if !s.pcs[i].Done? {
      var s' := match s.pcs[i]
        case Ready => At(s, i, if s.cell != NULL then Done(s.cell) else Allocating)
        case Allocating => At(s, i, Publishing(b)).(live := s.live + {b}, created := s.created + multiset{b})
        case Publishing(box) =>
          if s.cell == NULL then At(s, i, Done(box)).(cell := box) else At(s, i, Losing(box, s.cell))
        case Losing(box, winner) => At(s, i, Done(winner)).(live := s.live - {box}, dropped := s.dropped + multiset{box})
        case Done(_) => s;
      assert ThreadStep(s, s', i, b);
    }
    forall s' | ThreadStep(s, s', i, b) ensures TotalRemaining(s'.pcs) < TotalRemaining(s.pcs) {
      UpdateRemaining(s.pcs, i, s'.pcs[i]);
    }
  }
}
