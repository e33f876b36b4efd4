/** `LazyKey` of std/sys-src/thread_local/key/racy.rs: any number of threads call `force` on one key, in
    any interleaving of their atomic steps, beside other users of the same key namespace. */
module LazyKeys {
  import opened Ownership

  type Key = nat

  const KEY_SENTVAL: Key := 0

  /** Where a thread is in `force` and `lazy_init`. */
  datatype Pc =
    | Ready                            // about to load the cell
    | Creating                         // saw the sentinel: about to create `key1`
    | Retrying                         // `key1` is the sentinel: about to create `key2`
    | Discarding(key2: Key)            // about to destroy `key1`
    | Publishing(key: Key)             // about to check and compare-exchange
    | Losing(key: Key, winner: Key)    // the exchange failed: about to destroy its own key
    | Done(result: Key)
    | Aborted                          // `rtassert!` failed

  /** `cell` is the atomic field; `live` are the keys that exist in the system, of which `foreign` belong
      to other users. */
  datatype State = State(cell: Key, live: set<Key>, foreign: set<Key>, pcs: seq<Pc>)

  predicate Init(s: State) {
    s.cell == KEY_SENTVAL && s.live == s.foreign && forall i | 0 <= i < |s.pcs| :: s.pcs[i] == Ready
  }

  function At(s: State, i: nat, pc: Pc): State
    requires i < |s.pcs|
  {
    s.(pcs := s.pcs[i := pc])
  }

  /** One atomic step of thread `i`. `create` answers some key `k` that does not exist at the moment. */
  predicate ThreadStep(s: State, s': State, i: nat, k: Key)
    requires i < |s.pcs|
  {
    match s.pcs[i]
    case Ready =>
      s' == At(s, i, if s.cell == KEY_SENTVAL then Creating else Done(s.cell))
    case Creating =>
      k !in s.live && s' == At(s, i, if k != KEY_SENTVAL then Publishing(k) else Retrying).(live := s.live + {k})
    case Retrying =>
      k !in s.live && s' == At(s, i, Discarding(k)).(live := s.live + {k})
    case Discarding(key2) =>
      s' == At(s, i, Publishing(key2)).(live := s.live - {KEY_SENTVAL})
    case Publishing(key) =>
      if key == KEY_SENTVAL then s' == At(s, i, Aborted)
      else if s.cell == KEY_SENTVAL then s' == At(s, i, Done(key)).(cell := key)
      else s' == At(s, i, Losing(key, s.cell))
    case Losing(key, winner) =>
      s' == At(s, i, Done(winner)).(live := s.live - {key})
    case Done(_) => false
    case Aborted => false
  }

  /** Another user of the namespace creates a key, or destroys one of its own. */
  predicate OtherStep(s: State, s': State, k: Key) {
    || (k !in s.live && s' == s.(live := s.live + {k}, foreign := s.foreign + {k}))
    || (k in s.foreign && s' == s.(live := s.live - {k}, foreign := s.foreign - {k}))
  }

  ghost predicate Next(s: State, s': State) {
    (exists i: nat, k: Key | i < |s.pcs| :: ThreadStep(s, s', i, k)) || (exists k: Key :: OtherStep(s, s', k))
  }

  /** The keys a thread has created and not yet published or destroyed. */
  function Owned(pc: Pc): set<Key> {
    match pc
    case Retrying => {KEY_SENTVAL}
    case Discarding(key2) => {KEY_SENTVAL, key2}
    case Publishing(key) => {key}
    case Losing(key, _) => {key}
    case _ => {}
  }

  function Published(s: State): set<Key> {
    if s.cell == KEY_SENTVAL then {} else {s.cell}
  }

  predicate PcInv(s: State, pc: Pc) {
    match pc
    case Discarding(key2) => key2 != KEY_SENTVAL
    case Publishing(key) => key != KEY_SENTVAL
    case Losing(key, winner) => winner == s.cell != KEY_SENTVAL
    case Done(result) => result == s.cell != KEY_SENTVAL
    case Aborted => false
    case _ => true
  }

  function AllOwned(pcs: seq<Pc>): seq<set<Key>> {
    seq(|pcs|, i requires 0 <= i < |pcs| => Owned(pcs[i]))
  }

  ghost predicate Inv(s: State) {
    && OneOwner(s.live, s.foreign, Published(s), AllOwned(s.pcs))
    && forall i | 0 <= i < |s.pcs| :: PcInv(s, s.pcs[i])
  }

  lemma InitInv(s: State)
    requires Init(s)
    ensures Inv(s)
  {
  }

  lemma ThreadStepInv(s: State, s': State, i: nat, k: Key)
    requires Inv(s) && i < |s.pcs| && ThreadStep(s, s', i, k)
    ensures Inv(s')
  {
    var pc := s'.pcs[i];
    var owned := AllOwned(s.pcs);
    assert owned[i] == Owned(s.pcs[i]) <= s.live - Published(s) && Published(s) <= s.live;
    hide OneOwner;
    assert s'.live == s.live - owned[i] - Published(s) + Owned(pc) + Published(s');
    Exchange(s.live, s.foreign, Published(s), owned, i, Published(s'), Owned(pc));
    assert AllOwned(s'.pcs) == owned[i := Owned(pc)];
  }

  lemma OtherStepInv(s: State, s': State, k: Key)
    requires Inv(s) && OtherStep(s, s', k)
    ensures Inv(s')
  {
    Outsiders(s.live, s.foreign, Published(s), AllOwned(s.pcs), k);
  }

  lemma NextInv(s: State, s': State)
    requires Inv(s) && Next(s, s')
    ensures Inv(s')
    ensures |s'.pcs| == |s.pcs|
    ensures s.cell != KEY_SENTVAL ==> s'.cell == s.cell
    ensures forall i | 0 <= i < |s.pcs| && s.pcs[i].Done? :: s'.pcs[i] == s.pcs[i]
  {
    if i: nat, k: Key :| i < |s.pcs| && ThreadStep(s, s', i, k) {
      ThreadStepInv(s, s', i, k);
    } else {
      var k: Key :| OtherStep(s, s', k);
      OtherStepInv(s, s', k);
    }
  }

  // ----- Every interleaving

  ghost predicate IsRun(run: seq<State>) {
    run != [] && Init(run[0]) && forall n | 0 <= n < |run| - 1 :: Next(run[n], run[n + 1])
  }

  lemma {:induction false} RunInv(run: seq<State>, n: nat)
    requires IsRun(run) && n < |run|
    ensures Inv(run[n]) && |run[n].pcs| == |run[0].pcs|
  {
    if n == 0 {
      InitInv(run[0]);
    } else {
      RunInv(run, n - 1);
      NextInv(run[n - 1], run[n]);
    }
  }

  /** Once set, the cell keeps its key. */
  lemma {:induction false} CellIsStable(run: seq<State>, m: nat, n: nat)
    requires IsRun(run) && m <= n < |run| && run[m].cell != KEY_SENTVAL
    ensures run[n].cell == run[m].cell
  {
    if m < n {
      CellIsStable(run, m, n - 1);
      RunInv(run, n - 1);
      NextInv(run[n - 1], run[n]);
    }
  }

  /** Agreement: whatever finished calls of `force` return, at whatever times, is one and the same key,
      which is not the sentinel. */
  lemma Agreement(run: seq<State>, m: nat, i: nat, n: nat, j: nat)
    requires IsRun(run) && m < |run| && n < |run| && i < |run[m].pcs| && j < |run[n].pcs|
    requires run[m].pcs[i].Done? && run[n].pcs[j].Done?
    ensures run[m].pcs[i].result == run[n].pcs[j].result != KEY_SENTVAL
  {
    RunInv(run, m);
    RunInv(run, n);
    if m <= n {
      CellIsStable(run, m, n);
    } else {
      CellIsStable(run, n, m);
    }
  }

  /** A key that a call has returned exists from then on: no step ever destroys it. */
  lemma ResultStaysLive(run: seq<State>, m: nat, i: nat, n: nat)
    requires IsRun(run) && m <= n < |run| && i < |run[m].pcs| && run[m].pcs[i].Done?
    ensures run[m].pcs[i].result in run[n].live && run[m].pcs[i].result !in run[n].foreign
  {
    RunInv(run, m);
    RunInv(run, n);
    CellIsStable(run, m, n);
    assert run[n].cell in Published(run[n]);
  }

  /** The assertion that the key to publish is not the sentinel never fails. */
  lemma NeverAborts(run: seq<State>, n: nat, i: nat)
    requires IsRun(run) && n < |run| && i < |run[n].pcs|
    ensures run[n].pcs[i] != Aborted
  {
    RunInv(run, n);
  }

  /** At quiescence exactly the published key is left of all the keys the threads created, however many
      raced and however often `create` answered the sentinel. */
  lemma NothingLeaks(run: seq<State>, n: nat)
    requires IsRun(run) && n < |run|
    requires forall i | 0 <= i < |run[n].pcs| :: run[n].pcs[i].Done? || run[n].pcs[i].Ready?
    ensures run[n].live - run[n].foreign == Published(run[n])
    ensures (exists i :: 0 <= i < |run[n].pcs| && run[n].pcs[i].Done?) ==> run[n].cell != KEY_SENTVAL
  {
    RunInv(run, n);
    var s := run[n];
    NoneOwned(s.live, s.foreign, Published(s), AllOwned(s.pcs));
  }

  /** A call that begins when the key is set creates none: it returns the key. */
  lemma {:induction false} LateCallsReuse(run: seq<State>, m: nat, n: nat, i: nat)
    requires IsRun(run) && m <= n < |run| && i < |run[m].pcs|
    requires run[m].cell != KEY_SENTVAL && run[m].pcs[i].Ready?
    ensures i < |run[n].pcs| && (run[n].pcs[i] == Ready || run[n].pcs[i] == Done(run[m].cell))
  {
    hide Next;
    if m < n {
      LateCallsReuse(run, m, n - 1, i);
      CellIsStable(run, m, n - 1);
      LateStep(run[n - 1], run[n], i);
    }
  }

  lemma LateStep(s: State, s': State, i: nat)
    requires Next(s, s') && i < |s.pcs| && s.cell != KEY_SENTVAL
    requires s.pcs[i] == Ready || s.pcs[i] == Done(s.cell)
    ensures i < |s'.pcs| && (s'.pcs[i] == Ready || s'.pcs[i] == Done(s.cell))
  {
  }

  // ----- Progress

  /** How many steps a thread still has to take at most. */
  function Remaining(pc: Pc): nat {
    match pc
    case Ready => 6
    case Creating => 5
    case Retrying => 4
    case Discarding(_) => 3
    case Publishing(_) => 2
    case Losing(_, _) => 1
    case _ => 0
  }

  function TotalRemaining(pcs: seq<Pc>): nat {
    if pcs == [] then 0 else Remaining(pcs[0]) + TotalRemaining(pcs[1..])
  }

  lemma {:induction false} UpdateRemaining(pcs: seq<Pc>, i: nat, pc: Pc)
    requires i < |pcs|
    ensures TotalRemaining(pcs[i := pc]) == TotalRemaining(pcs) - Remaining(pcs[i]) + Remaining(pc)
  {
    if i > 0 {
      UpdateRemaining(pcs[1..], i - 1, pc);
      assert pcs[i := pc][1..] == pcs[1..][i - 1 := pc];
    } else {
      assert pcs[i := pc][1..] == pcs[1..];
    }
  }

  /** Every thread that is not done can take its next step if `create` has a key left to give, and every
      step of a thread brings the end nearer: no interleaving blocks and none goes on for ever. */
  lemma Progress(s: State, i: nat, k: Key)
    requires Inv(s) && i < |s.pcs| && k !in s.live
    ensures !s.pcs[i].Done? ==> exists s' :: ThreadStep(s, s', i, k)
    ensures forall s' | ThreadStep(s, s', i, k) :: TotalRemaining(s'.pcs) < TotalRemaining(s.pcs)
  {
    if !s.pcs[i].Done? {
      var s' := match s.pcs[i]
        case Ready => At(s, i, if s.cell == KEY_SENTVAL then Creating else Done(s.cell))
        case Creating => At(s, i, if k != KEY_SENTVAL then Publishing(k) else Retrying).(live := s.live + {k})
        case Retrying => At(s, i, Discarding(k)).(live := s.live + {k})
        case Discarding(key2) => At(s, i, Publishing(key2)).(live := s.live - {KEY_SENTVAL})
        case Publishing(key) =>
          if s.cell == KEY_SENTVAL then At(s, i, Done(key)).(cell := key) else At(s, i, Losing(key, s.cell))
        case Losing(key, winner) => At(s, i, Done(winner)).(live := s.live - {key})
        case _ => s;
      assert ThreadStep(s, s', i, k);
    }
    forall s' | ThreadStep(s, s', i, k) ensures TotalRemaining(s'.pcs) < TotalRemaining(s.pcs) {
      UpdateRemaining(s.pcs, i, s'.pcs[i]);
    }
  }
}
